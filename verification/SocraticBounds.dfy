/** Exchange accounting over whole runs: how many substantive replies a dialogue can take. */
module SocraticBounds {
  import opened Prelude
  import opened StateMachine
  import opened Dialogues
  import opened SocraticSpec
  import opened SocraticInvariants
  import opened SocraticSteps
  import opened SocraticRuns

  /** The request is a reply to `id` that went through and that its state read as reasoning. */
  ghost predicate TakesSubstance(st: Settings, s: Store, r: Request, id: Id)
    requires StoreOk(st, s)
  {
    && r.Reply? && r.id == id
    && Step(st, s, r).1.Took?
    && EventForIntent(s.dialogues[id].state, r.p.intent.value) == Some(SubstantiveResponse)
  }

  ghost function Taken(st: Settings, s: Store, rs: seq<Request>, id: Id): nat
    requires st.Valid() && StoreOk(st, s)
    decreases |rs|
  {
    if rs == [] then 0
    else
      StepKeeps(st, s, rs[0]);
      (if TakesSubstance(st, s, rs[0], id) then 1 else 0) + Taken(st, Step(st, s, rs[0]).0, rs[1..], id)
  }

  /** What a stored dialogue has already taken: its exchanges beyond the first, and the reply
      that ran into the cap or into a loop. */
  function Spent(s: Store, id: Id): int {
    if id !in s.dialogues then 0
    else |s.dialogues[id].exchanges| - 1 + if s.dialogues[id].state == Capped then 1 else 0
  }

  lemma SpentByReply(st: Settings, s: Store, id: Id, user: string, text: string, p: Providers)
    requires st.Valid() && StoreOk(st, s) && ReplyStep(st, s, id, user, text, p).Ok?
    ensures Spent(ReplyStep(st, s, id, user, text, p).value.0, id)
         == Spent(s, id)
            + if EventForIntent(s.dialogues[id].state, p.intent.value) == Some(SubstantiveResponse) then 1 else 0
  {
    var d, dec := ReplyAdvances(st, s, id, user, text, p);
    DecideSound(st, d, p);
    MeantFacts(d.state, dec.intent);
    RowFacts(d.state, dec.intent, dec.choice.event, dec.transition);
    TableLaws(Some(d.state), dec.choice.event);
  }

  lemma SpentByAsk(st: Settings, s: Store, session: string, user: string, question: string, topic: string,
                   p: Providers, id: Id)
    requires StoreOk(st, s) && AskStep(st, s, session, user, question, topic, p).Ok?
    ensures Spent(AskStep(st, s, session, user, question, topic, p).value.0, id) == Spent(s, id)
  {
    if id in s.dialogues {
      AskFrame(st, s, session, user, question, topic, p, id);
    } else if ModeFor(s.modes, session, user).value.enabled {
      var d := AskOpens(st, s, session, user, question, topic, p);
    }
  }

  lemma SpentBySetMode(s: Store, session: string, user: string, enabled: bool, id: Id)
    requires SetModeStep(s, session, user, enabled).Ok?
    ensures Spent(SetModeStep(s, session, user, enabled).value.0, id) == Spent(s, id)
  {
  }

  lemma SpentByOtherReply(st: Settings, s: Store, k: Id, user: string, text: string, p: Providers, id: Id)
    requires StoreOk(st, s) && ReplyStep(st, s, k, user, text, p).Ok? && id != k
    ensures Spent(ReplyStep(st, s, k, user, text, p).value.0, id) == Spent(s, id)
  {
    if id in s.dialogues {
      ReplyFrame(st, s, k, user, text, p, id);
    } else {
      var d, dec := ReplyAdvances(st, s, k, user, text, p);
    }
  }

  lemma SpentByOthers(st: Settings, s: Store, r: Request, id: Id)
    requires StoreOk(st, s) && !(r.Reply? && r.id == id && Step(st, s, r).1.Took?)
    ensures Spent(Step(st, s, r).0, id) == Spent(s, id)
  {
    if !Step(st, s, r).1.Refused? {
      match r
      case Ask(session, user, question, topic, p) => SpentByAsk(st, s, session, user, question, topic, p, id);
      case Reply(k, user, text, p) => SpentByOtherReply(st, s, k, user, text, p, id);
      case SetMode(session, user, enabled) => SpentBySetMode(s, session, user, enabled, id);
    }
  }

  /** Replies mapped to reasoning are exactly what a dialogue spends. */
  lemma {:induction false} TakenIsSpent(st: Settings, s: Store, rs: seq<Request>, id: Id)
    requires st.Valid() && StoreOk(st, s)
    ensures Spent(Serve(st, s, rs), id) == Spent(s, id) + Taken(st, s, rs, id)
    decreases |rs|
  {
    if rs != [] {
      StepKeeps(st, s, rs[0]);
      TakenIsSpent(st, Step(st, s, rs[0]).0, rs[1..], id);
      if rs[0].Reply? && rs[0].id == id && Step(st, s, rs[0]).1.Took? {
        SpentByReply(st, s, id, rs[0].user, rs[0].text, rs[0].p);
      } else {
        SpentByOthers(st, s, rs[0], id);
      }
    }
  }

  /** Whatever off-topic turns, offers, declines and requests to others are interleaved, a dialogue
      takes at most `cap` reasoning replies; it is open only while it has taken fewer, having then
      opened one exchange more than it has taken; and the `cap`-th is the one that caps it. */
  lemma BoundedDialogue(st: Settings, rs: seq<Request>, id: Id)
    requires st.Valid() && id in Run(st, rs).dialogues
    ensures var d := Run(st, rs).dialogues[id];
      var taken := Taken(st, EMPTY, rs, id);
      && 1 <= |d.exchanges| <= st.cap
      && taken <= st.cap
      && (taken == st.cap <==> d.resolution == Some(AtCap))
      && (d.IsOpen() ==> taken == |d.exchanges| - 1)
      && (d.resolution == Some(ByLoop) ==> taken == |d.exchanges| < st.cap)
  {
    TakenIsSpent(st, EMPTY, rs, id);
    assert DialogueOk(st, Run(st, rs).dialogues[id]);
  }
}
