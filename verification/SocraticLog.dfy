/** The interaction log of a whole run, read record by record. */
module SocraticLog {
  import opened Prelude
  import opened StateMachine
  import opened Dialogues
  import opened SocraticSpec
  import opened SocraticInvariants
  import opened SocraticSteps
  import opened SocraticRuns
  import ReasoningChain

  // ----- positions of a dialogue's records in the log -----

  function Rank(log: seq<Record>, i: nat, id: Id): nat
    requires i <= |log|
  {
    |RecordsOf(log[..i], id)|
  }

  /** A record's place among those of its dialogue is the number of them before it. */
  lemma {:induction false} RankIsPlace(log: seq<Record>, i: nat)
    requires i < |log|
    ensures var id := log[i].dialogue;
      Rank(log, i, id) < |RecordsOf(log, id)| && RecordsOf(log, id)[Rank(log, i, id)] == log[i]
  {
    var n := |log| - 1;
    if i < n {
      RankIsPlace(log[..n], i);
      assert log[..n][..i] == log[..i];
    }
  }

  lemma {:induction false} RankGrows(log: seq<Record>, i: nat, j: nat)
    requires i < j <= |log|
    ensures Rank(log, i, log[i].dialogue) < Rank(log, j, log[i].dialogue)
    decreases j
  {
    assert log[..j][..j - 1] == log[..j - 1];
    if i < j - 1 {
      RankGrows(log, i, j - 1);
    }
  }

  lemma {:induction false} PlaceHasRank(log: seq<Record>, k: nat, id: Id) returns (i: nat)
    requires k < |RecordsOf(log, id)|
    ensures i < |log| && log[i].dialogue == id && Rank(log, i, id) == k && RecordsOf(log, id)[k] == log[i]
  {
    var n := |log| - 1;
    if k < |RecordsOf(log[..n], id)| {
      i := PlaceHasRank(log[..n], k, id);
      assert log[..n][..i] == log[..i];
    } else {
      i := n;
    }
  }

  // ----- answers -----

  /** Over every run: a record bears an answer exactly when it carries one of the four permitted
      resolutions; a record with a resolution is the last of its dialogue, which is then closed
      with that resolution; and a confirmed exit directly follows an offer. */
  lemma AnswersOnlyByPermittedExits(st: Settings, s: Store, i: nat)
    requires Reached(st, s) && i < |s.log|
    ensures var r := s.log[i];
      && r.dialogue in s.dialogues
      && (AnswerBearing(r.kind) <==> r.resolution.Some? && PermitsAnswer(r.resolution.value))
      && (r.resolution.Some? ==>
            && s.dialogues[r.dialogue].closed && s.dialogues[r.dialogue].resolution == r.resolution
            && forall j | i < j < |s.log| :: s.log[j].dialogue != r.dialogue)
      && (r.resolution == Some(ExitedOnRequest) ==>
            exists h | 0 <= h < i ::
              && s.log[h].dialogue == r.dialogue && s.log[h].kind == ExitOffer && r.followUpOf == Some(s.log[h].id)
              && forall m | h < m < i :: s.log[m].dialogue != r.dialogue)
  {
    AnswersIn(st, s, i);
  }

  lemma AnswersIn(st: Settings, s: Store, i: nat)
    requires StoreOk(st, s) && i < |s.log|
    ensures var r := s.log[i];
      && r.dialogue in s.dialogues
      && (AnswerBearing(r.kind) <==> r.resolution.Some? && PermitsAnswer(r.resolution.value))
      && (r.resolution.Some? ==>
            && s.dialogues[r.dialogue].closed && s.dialogues[r.dialogue].resolution == r.resolution
            && forall j | i < j < |s.log| :: s.log[j].dialogue != r.dialogue)
      && (r.resolution == Some(ExitedOnRequest) ==>
            exists h | 0 <= h < i ::
              && s.log[h].dialogue == r.dialogue && s.log[h].kind == ExitOffer && r.followUpOf == Some(s.log[h].id)
              && forall m | h < m < i :: s.log[m].dialogue != r.dialogue)
  {
    var r := s.log[i];
    var id := r.dialogue;
    var d := s.dialogues[id];
    var recs := RecordsOf(s.log, id);
    var k := Rank(s.log, i, id);
    RankIsPlace(s.log, i);
    PlaceInChain(st, d, recs, k);
    if r.resolution.Some? {
      forall j | i < j < |s.log| ensures s.log[j].dialogue != id {
        RankGrows(s.log, i, j);
        if s.log[j].dialogue == id { RankIsPlace(s.log, j); }
      }
    }
    if r.resolution == Some(ExitedOnRequest) {
      var h := Predecessor(s.log, i);
    }
  }

  /** The record just before the i-th in its dialogue. */
  lemma Predecessor(log: seq<Record>, i: nat) returns (h: nat)
    requires i < |log| && Rank(log, i, log[i].dialogue) > 0
    ensures h < i && log[h].dialogue == log[i].dialogue
    ensures var recs, k := RecordsOf(log, log[i].dialogue), Rank(log, i, log[i].dialogue);
      k <= |recs| && recs[k - 1] == log[h]
    ensures forall m | h < m < i :: log[m].dialogue != log[i].dialogue
  {
    var id := log[i].dialogue;
    RankIsPlace(log, i);
    h := PlaceHasRank(log, Rank(log, i, id) - 1, id);
    if h > i { RankGrows(log, i, h); }
    forall m | h < m < i ensures log[m].dialogue != id {
      RankGrows(log, h, m);
      if log[m].dialogue == id { RankGrows(log, m, i); }
    }
  }

  lemma PlaceInChain(st: Settings, d: Dialogue, recs: seq<Record>, k: nat)
    requires DialogueOk(st, d) && Chronicle(d, recs) && k < |recs|
    ensures AnswerBearing(recs[k].kind) <==> recs[k].resolution.Some? && PermitsAnswer(recs[k].resolution.value)
    ensures recs[k].resolution.Some? ==> k == |recs| - 1 && d.closed && d.resolution == recs[k].resolution
    ensures recs[k].resolution == Some(ExitedOnRequest) ==>
              k > 0 && recs[k - 1].kind == ExitOffer && recs[k].followUpOf == Some(recs[k - 1].id)
  {
    if k < |recs| - 1 {
      assert Follows(recs[k], recs[k + 1]);
    }
    if k > 0 {
      assert Follows(recs[k - 1], recs[k]);
    }
  }

  // ----- conservation -----

  /** A dialogue and its records account for each other: one record for the opening and one for
      every learner message; numbers start at one, rise by at most one and end at the exchanges
      used; the follow-up links form one chain ending at the dialogue's last interaction. */
  ghost predicate Conserved(d: Dialogue, recs: seq<Record>) {
    && |recs| == 1 + MessageCount(d.exchanges)
    && recs[0].exchangeNumber == 1 && recs[0].followUpOf == None
    && (forall k | 0 < k < |recs| ::
          && recs[k].followUpOf == Some(recs[k - 1].id)
          && recs[k - 1].exchangeNumber <= recs[k].exchangeNumber <= recs[k - 1].exchangeNumber + 1)
    && recs[|recs| - 1].exchangeNumber == |d.exchanges|
    && d.lastInteraction == Some(recs[|recs| - 1].id)
    && (forall k | 0 <= k < |recs| ::
          recs[k].user == d.user && recs[k].session == d.session && recs[k].level == d.context.level)
  }

  lemma ChronicleConserves(d: Dialogue, recs: seq<Record>)
    requires Chronicle(d, recs)
    ensures Conserved(d, recs)
  {
    forall k | 0 < k < |recs| ensures Follows(recs[k - 1], recs[k]) {
      var j := k - 1;
      assert Follows(recs[j], recs[j + 1]);
    }
  }

  lemma LogConserves(st: Settings, s: Store, id: Id)
    requires Reached(st, s) && id in s.dialogues
    ensures Conserved(s.dialogues[id], RecordsOf(s.log, id))
  {
    ChronicleConserves(s.dialogues[id], RecordsOf(s.log, id));
  }

  // ----- what the learner is shown -----

  /** In a well-formed exchange the quoted response is simply the last message: the search for an
      answering message never has to look further back. */
  lemma ResponseIsLastMessage(e: Exchange)
    requires AnswersEndExchange(e.messages)
    ensures LearnerResponse(e) == if e.messages == [] then None else Some(e.messages[|e.messages| - 1].text)
  {
    if e.messages != [] {
      var i := LastAnswering(e.messages);
      var before := e.messages[..|e.messages| - 1];
      assert forall k | 0 <= k < |before| :: !Answering(before[k].intent) && before[k] == e.messages[k];
    }
  }

  /** One step per exchange, in order, verbatim, each with the reply that ended the exchange. */
  ghost predicate Retells(chain: seq<ReasoningChain.Step>, e: seq<Exchange>) {
    && |chain| == |e|
    && forall i | 0 <= i < |e| ::
         && chain[i].number == i + 1 && chain[i].question == e[i].question && chain[i].probing == e[i].focus
         && e[i].messages != []
         && chain[i].response == Some(e[i].messages[|e[i].messages| - 1].text)
  }

  lemma CappedChainRetells(st: Settings, d: Dialogue)
    requires DialogueOk(st, d) && d.state == Capped
    ensures Retells(ReasoningChain.ChainOf(d.exchanges), d.exchanges)
  {
    forall i | 0 <= i < |d.exchanges|
      ensures d.exchanges[i].number == i + 1 && d.exchanges[i].messages != []
      ensures LearnerResponse(d.exchanges[i]) == Some(d.exchanges[i].messages[|d.exchanges[i].messages| - 1].text)
    {
      ResponseIsLastMessage(d.exchanges[i]);
    }
  }

  lemma AskTurn(st: Settings, s: Store, session: string, user: string, question: string, topic: string, p: Providers)
    requires AskStep(st, s, session, user, question, topic, p).Ok?
    ensures var turn := AskStep(st, s, session, user, question, topic, p).value.1;
      && (turn.answer.Some? <==> !turn.modeEnabled)
      && turn.resolution == None && turn.chain == None && turn.kind != CappedAnswer
  {
  }

  lemma FinalTurn(s: Store, d: Dialogue, t: Transition, mode: ModeState, guidance: Guidance, p: Providers)
    requires Finalise(s, d, t, mode, guidance, p).Ok? && d.resolution == t.resolution && t.kind.Some?
    ensures var (s', turn) := Finalise(s, d, t, mode, guidance, p).value;
      && (turn.answer.Some? <==> AnswerBearing(turn.kind)) && turn.kind == t.kind.value
      && turn.resolution == t.resolution && turn.dialogue == Some(d.id)
      && turn.chain == (if turn.kind == CappedAnswer then Some(ReasoningChain.ChainOf(d.exchanges)) else None)
      && d.id in s'.dialogues && s'.dialogues[d.id].exchanges == d.exchanges && s'.dialogues[d.id].state == d.state
  {
  }

  lemma ReplyTurn(st: Settings, s: Store, id: Id, user: string, text: string, p: Providers)
    requires st.Valid() && StoreOk(st, s) && ReplyStep(st, s, id, user, text, p).Ok?
    ensures var (s', turn) := ReplyStep(st, s, id, user, text, p).value;
      && (turn.answer.Some? <==> turn.resolution.Some? && PermitsAnswer(turn.resolution.value))
      && (turn.chain.Some? <==> turn.kind == CappedAnswer)
      && (turn.chain.Some? ==>
            turn.dialogue.Some? && turn.dialogue.value in s'.dialogues
            && Retells(turn.chain.value, s'.dialogues[turn.dialogue.value].exchanges))
  {
    var d := s.dialogues[id];
    var dec := Decide(st, d, p).value;
    var mode := ModeFor(s.modes, d.session, user).value;
    var d' := Advance(st, d, text, dec);
    TableLaws(Some(d.state), dec.choice.event);
    DecideSound(st, d, p);
    CappedRow(d.state, dec.intent, dec.choice.event, dec.transition);
    AdvanceOk(st, d, text, dec);
    FinalTurn(s, d', dec.transition, mode, GuidanceFor(d, dec), p);
    if d'.state == Capped {
      CappedChainRetells(st, d');
    }
  }

  lemma CappedRow(state: State, intent: Intent, event: Event, t: Transition)
    requires !Terminal(state) && Lookup(Some(state), event) == Some(t)
    requires event == EventForIntent(state, intent).value || event == CapReached || event == LoopDetected
    ensures t.kind.Some? && (t.kind == Some(CappedAnswer) <==> t.target == Capped)
  {
  }

  /** Over every run, a turn carries an answer only with the mode off or under a permitted
      resolution; a reasoning chain comes with exactly the capped answers and retells the stored
      dialogue. */
  lemma TurnsTellTheTruth(st: Settings, s: Store, r: Request)
    requires Reached(st, s) && Step(st, s, r).1.Took?
    ensures var (s', o) := Step(st, s, r);
      && (o.turn.answer.Some? <==>
            (r.Ask? && !o.turn.modeEnabled) || (o.turn.resolution.Some? && PermitsAnswer(o.turn.resolution.value)))
      && (o.turn.chain.Some? <==> o.turn.kind == CappedAnswer)
      && (o.turn.chain.Some? ==>
            o.turn.dialogue.Some? && o.turn.dialogue.value in s'.dialogues
            && Retells(o.turn.chain.value, s'.dialogues[o.turn.dialogue.value].exchanges))
  {
    match r
    case Ask(session, user, question, topic, p) => AskTurn(st, s, session, user, question, topic, p);
    case Reply(id, user, text, p) => ReplyTurn(st, s, id, user, text, p);
  }
}
