/**
 What every reachable store satisfies, dialogue by dialogue: the shape of its exchanges, and
 how the interaction log tells the same story as the dialogue itself.
 */
module SocraticInvariants {
  import opened Prelude
  import opened StateMachine
  import opened Dialogues
  import opened SocraticSpec
  import Normalisation

  // ----- the exchanges of one dialogue -----

  predicate Numbered(exchanges: seq<Exchange>, rules: Normalisation.TextRules) {
    forall i | 0 <= i < |exchanges| ::
      exchanges[i].number == i + 1
      && exchanges[i].fingerprint == rules.fingerprint(exchanges[i].question)
  }

  /** No question repeats an earlier one. */
  predicate NoLoops(exchanges: seq<Exchange>, threshold: real, rules: Normalisation.TextRules) {
    forall i, j | 0 <= i < j < |exchanges| ::
      Normalisation.Apart(rules, exchanges[j].question, exchanges[i].question, threshold)
  }

  predicate NoAnswers(messages: seq<Message>) {
    forall j | 0 <= j < |messages| :: !Answering(messages[j].intent)
  }

  /** Only the last message of an exchange can be an answer. */
  predicate AnswersEndExchange(messages: seq<Message>) {
    messages == [] || NoAnswers(messages[..|messages| - 1])
  }

  /** Every exchange but the current one has been replied to. */
  predicate Answered(exchanges: seq<Exchange>) {
    && (forall i | 0 <= i < |exchanges| :: AnswersEndExchange(exchanges[i].messages))
    && (forall i | 0 <= i < |exchanges| - 1 :: exchanges[i].messages != [])
  }

  /** State, resolution and closing time agree; an open dialogue's current exchange holds no
      answer yet; a reply closed every dialogue that was not abandoned. */
  predicate StateOk(d: Dialogue)
    requires d.exchanges != []
  {
    var current := d.exchanges[|d.exchanges| - 1].messages;
    && (d.closed <==> !d.IsOpen())
    && (d.IsOpen() ==> d.resolution == None && NoAnswers(current))
    && (d.state == Resolved ==> d.resolution == Some(LearnerReasoned))
    && (d.state == Capped ==> d.resolution == Some(AtCap) || d.resolution == Some(ByLoop))
    && (d.state == Exited ==> d.resolution == Some(ExitedOnRequest) || d.resolution == Some(ExitedOnFrustration))
    && (d.state == Abandoned ==> d.resolution == Some(ByAbandonment))
    && (d.state in {Resolved, Capped, Exited} ==> current != [])
    && (d.resolution == Some(AtCap) ==> |d.exchanges| == d.cap)
    && (d.resolution == Some(ByLoop) ==> |d.exchanges| < d.cap)
    && (d.resolution == Some(ByLoop) <==> d.loopMatched.Some?)
    && (d.loopMatched.Some? ==> 1 <= d.loopMatched.value <= |d.exchanges|)
  }

  predicate DialogueOk(st: Settings, d: Dialogue) {
    && d.cap == st.cap
    && 1 <= |d.exchanges| <= d.cap
    && Numbered(d.exchanges, st.rules)
    && NoLoops(d.exchanges, st.threshold, st.rules)
    && Answered(d.exchanges)
    && StateOk(d)
  }

  // ----- the log of one dialogue -----

  function RecordsOf(log: seq<Record>, id: Id): seq<Record> {
    if log == [] then []
    else
      var n := |log| - 1;
      RecordsOf(log[..n], id) + if log[n].dialogue == id then [log[n]] else []
  }

  predicate CopiedFrom(r: Record, d: Dialogue) {
    && r.session == d.session && r.user == d.user && r.question == d.question
    && r.topic == d.topic && r.level == d.context.level && r.dialogue == d.id
  }

  /** Consecutive records are linked, and the exchange number rises by at most one. */
  predicate Follows(earlier: Record, later: Record) {
    && later.followUpOf == Some(earlier.id)
    && earlier.exchangeNumber <= later.exchangeNumber <= earlier.exchangeNumber + 1
    && earlier.resolution == None && !AnswerBearing(earlier.kind)
    && (later.resolution == Some(ExitedOnRequest) ==> earlier.kind == ExitOffer)
  }

  predicate Chain(recs: seq<Record>) {
    forall i | 0 <= i < |recs| - 1 :: Follows(recs[i], recs[i + 1])
  }

  predicate OpensWith(r: Record) {
    r.exchangeNumber == 1 && r.followUpOf == None && r.kind == GuidingQuestion && r.resolution == None
  }

  /** The last record shows where the dialogue stands; abandonment leaves no record. */
  predicate ClosesWith(r: Record, d: Dialogue) {
    && r.exchangeNumber == |d.exchanges|
    && d.lastInteraction == Some(r.id)
    && r.resolution == (if d.state == Abandoned then None else d.resolution)
    && (AnswerBearing(r.kind) <==> r.resolution.Some? && PermitsAnswer(r.resolution.value))
    && (d.IsOpen() ==> (d.state == Confirming <==> r.kind == ExitOffer))
  }

  predicate Chronicle(d: Dialogue, recs: seq<Record>) {
    && |recs| == 1 + MessageCount(d.exchanges)
    && (forall i | 0 <= i < |recs| :: CopiedFrom(recs[i], d))
    && Chain(recs)
    && OpensWith(recs[0])
    && ClosesWith(recs[|recs| - 1], d)
  }

  // ----- the whole store -----

  ghost predicate DialoguesOk(st: Settings, dialogues: map<Id, Dialogue>, log: seq<Record>, minted: nat) {
    forall id | id in dialogues ::
      dialogues[id].id == id && id < minted && DialogueOk(st, dialogues[id])
      && Chronicle(dialogues[id], RecordsOf(log, id))
  }

  ghost predicate LogOk(dialogues: map<Id, Dialogue>, log: seq<Record>, minted: nat) {
    && (forall i | 0 <= i < |log| :: log[i].dialogue in dialogues && log[i].id < minted)
    && (forall i, j | 0 <= i < j < |log| :: log[i].id != log[j].id)
  }

  ghost predicate OrderOk(dialogues: map<Id, Dialogue>, order: seq<Id>) {
    && (forall i, j | 0 <= i < j < |order| :: order[i] != order[j])
    && (forall id :: id in order <==> id in dialogues)
  }

  ghost predicate StoreOk(st: Settings, s: Store) {
    && DialoguesOk(st, s.dialogues, s.log, s.minted)
    && LogOk(s.dialogues, s.log, s.minted)
    && OrderOk(s.dialogues, s.order)
  }

  // ----- hearing a message -----

  lemma HearFacts(exchanges: seq<Exchange>, m: Message)
    requires exchanges != [] && Answered(exchanges)
    requires NoAnswers(exchanges[|exchanges| - 1].messages)
    ensures var h := Hear(exchanges, m);
      && |h| == |exchanges| && Answered(h)
      && h[|h| - 1].messages == exchanges[|h| - 1].messages + [m]
      && h[..|h| - 1] == exchanges[..|h| - 1]
      && MessageCount(h) == MessageCount(exchanges) + 1
      && (forall i | 0 <= i < |h| :: h[i].number == exchanges[i].number && h[i].question == exchanges[i].question
                                  && h[i].fingerprint == exchanges[i].fingerprint)
  {
    var h := Hear(exchanges, m);
    var n := |exchanges| - 1;
    assert h[n].messages[..|h[n].messages| - 1] == exchanges[n].messages;
  }

  /** What deciding promises about the next question and the matched index. */
  lemma ChooseFacts(st: Settings, d: Dialogue, meant: Event, p: Providers)
    requires st.Valid() && meant != DialogueStarted
    requires Choose(st, d, meant, p).Ok?
    ensures var c := Choose(st, d, meant, p).value;
      && (c.event == CapReached && meant == SubstantiveResponse ==> |d.exchanges| >= d.cap)
      && (c.event == SubstantiveResponse ==>
            && |d.exchanges| < d.cap && c.generated.Some?
            && forall i | 0 <= i < |d.exchanges| ::
                 Normalisation.Apart(st.rules, c.generated.value.question, d.exchanges[i].question, st.threshold))
      && (c.event == LoopDetected && meant == SubstantiveResponse ==>
            c.matched.Some? && c.matched.value < |d.exchanges|)
  {
    if meant == SubstantiveResponse && |d.exchanges| < d.cap && GenerateGuiding(p).Ok? {
      var g := GenerateGuiding(p).value;
      Normalisation.RepeatIff(st.rules, g.question, d.Questions(), st.threshold);
      forall i | 0 <= i < |d.exchanges| ensures d.Questions()[i] == d.exchanges[i].question {}
    }
  }

  lemma OpeningOk(st: Settings, id: Id, session: string, user: string, question: string, topic: string,
                  context: LearnerContext, g: Guiding)
    requires 1 <= st.cap
    ensures DialogueOk(st, OpeningDialogue(st, id, session, user, question, topic, context, g))
  {
  }

  lemma HearKeeps(st: Settings, exchanges: seq<Exchange>, m: Message)
    requires exchanges != [] && Answered(exchanges)
    requires NoAnswers(exchanges[|exchanges| - 1].messages)
    requires Numbered(exchanges, st.rules) && NoLoops(exchanges, st.threshold, st.rules)
    ensures Numbered(Hear(exchanges, m), st.rules) && NoLoops(Hear(exchanges, m), st.threshold, st.rules)
  {
    HearFacts(exchanges, m);
    var h := Hear(exchanges, m);
    forall i, j | 0 <= i < j < |h|
      ensures Normalisation.Apart(st.rules, h[j].question, h[i].question, st.threshold)
    {
      assert h[j].question == exchanges[j].question && h[i].question == exchanges[i].question;
    }
  }

  /** Opening one more exchange after every earlier one has been replied to. */
  lemma OpenKeeps(st: Settings, heard: seq<Exchange>, g: Guiding)
    requires heard != [] && heard[|heard| - 1].messages != []
    requires Numbered(heard, st.rules) && NoLoops(heard, st.threshold, st.rules) && Answered(heard)
    requires forall i | 0 <= i < |heard| ::
               Normalisation.Apart(st.rules, g.question, heard[i].question, st.threshold)
    ensures var e := heard + [NewExchange(st, |heard| + 1, g)];
      && Numbered(e, st.rules) && NoLoops(e, st.threshold, st.rules) && Answered(e)
      && MessageCount(e) == MessageCount(heard)
  {
    var x := NewExchange(st, |heard| + 1, g);
    var e := heard + [x];
    assert e[..|e| - 1] == heard && e[|e| - 1] == x;
    assert x.messages == [] && x.question == g.question;
    forall i, j | 0 <= i < j < |e|
      ensures Normalisation.Apart(st.rules, e[j].question, e[i].question, st.threshold)
    {
      assert e[i] == heard[i];
      if j < |heard| { assert e[j] == heard[j]; }
    }
    forall i | 0 <= i < |heard| ensures e[i] == heard[i] {}
  }

  /** What a decision guarantees, whatever the providers returned. */
  ghost predicate Sound(st: Settings, d: Dialogue, dec: Decision)
    requires d.IsOpen()
  {
    var meant := EventForIntent(d.state, dec.intent).value;
    var e := dec.choice.event;
    && (e == meant || (meant == SubstantiveResponse && (e == CapReached || e == LoopDetected)))
    && (meant == SubstantiveResponse ==> (e == CapReached <==> |d.exchanges| >= d.cap))
    && Lookup(Some(d.state), e) == Some(dec.transition)
    && (dec.choice.generated.Some? <==> dec.transition.opensExchange)
    && (dec.choice.generated.Some? ==> forall i | 0 <= i < |d.exchanges| ::
          Normalisation.Apart(st.rules, dec.choice.generated.value.question, d.exchanges[i].question, st.threshold))
    && (e == LoopDetected ==> dec.choice.matched.Some? && dec.choice.matched.value < |d.exchanges|)
  }

  lemma DecideSound(st: Settings, d: Dialogue, p: Providers)
    requires st.Valid() && d.IsOpen() && Decide(st, d, p).Ok?
    ensures Sound(st, d, Decide(st, d, p).value)
  {
    var dec := Decide(st, d, p).value;
    var meant := EventForIntent(d.state, dec.intent).value;
    MeantFacts(d.state, dec.intent);
    ChooseFacts(st, d, meant, p);
  }

  lemma MeantFacts(state: State, intent: Intent)
    requires !Terminal(state)
    ensures EventForIntent(state, intent).Some?
    ensures EventForIntent(state, intent).value !in {DialogueStarted, CapReached, LoopDetected, ModeToggledOff}
  {
  }

  lemma AdvanceExchanges(st: Settings, d: Dialogue, text: string, dec: Decision)
    requires DialogueOk(st, d) && d.IsOpen() && Sound(st, d, dec)
    ensures var e := Advance(st, d, text, dec).exchanges;
      && Numbered(e, st.rules) && NoLoops(e, st.threshold, st.rules) && Answered(e)
      && MessageCount(e) == MessageCount(d.exchanges) + 1
      && |e| == |d.exchanges| + (if dec.transition.opensExchange then 1 else 0)
      && e[|e| - 1].messages == (if dec.transition.opensExchange then []
                                 else d.exchanges[|d.exchanges| - 1].messages + [Message(text, dec.intent)])
  {
    var m := Message(text, dec.intent);
    HearFacts(d.exchanges, m);
    HearKeeps(st, d.exchanges, m);
    if dec.transition.opensExchange {
      OpenKeeps(st, Hear(d.exchanges, m), dec.choice.generated.value);
    }
  }

  /** A reply that goes through leaves a well-formed dialogue. */
  lemma AdvanceOk(st: Settings, d: Dialogue, text: string, dec: Decision)
    requires DialogueOk(st, d) && d.IsOpen() && Sound(st, d, dec)
    ensures DialogueOk(st, Advance(st, d, text, dec))
  {
    AdvanceExchanges(st, d, text, dec);
    MeantFacts(d.state, dec.intent);
    RowFacts(d.state, dec.intent, dec.choice.event, dec.transition);
  }

  /** The rows seen from the dialogue: which closing each event records, and that a turn which
      neither opens an exchange nor closes the dialogue was no answer. */
  lemma RowFacts(state: State, intent: Intent, event: Event, t: Transition)
    requires !Terminal(state) && Lookup(Some(state), event) == Some(t) && event != ModeToggledOff
    ensures t.resolution.Some? <==> Terminal(t.target)
    ensures t.opensExchange ==> event == SubstantiveResponse && t.target == Awaiting
    ensures t.target == Resolved ==> t.resolution == Some(LearnerReasoned)
    ensures t.target == Capped <==> event in {CapReached, LoopDetected}
    ensures t.resolution == Some(AtCap) <==> event == CapReached
    ensures t.resolution == Some(ByLoop) <==> event == LoopDetected
    ensures t.target == Exited ==> t.resolution == Some(ExitedOnRequest) || t.resolution == Some(ExitedOnFrustration)
    ensures t.target != Abandoned
    ensures event == EventForIntent(state, intent).value && !t.opensExchange && !Terminal(t.target) ==>
              !Answering(intent)
  {
  }
}
