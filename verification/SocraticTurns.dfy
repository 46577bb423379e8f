/**
 What one request does, read off its inputs alone: which messages get an answer, a new question, an
 offer or the same question again, and which requests are refused.
 */
module SocraticTurns {
  import opened Prelude
  import opened StateMachine
  import opened Dialogues
  import opened SocraticSpec
  import opened SocraticInvariants
  import opened SocraticSteps
  import Normalisation

  // ----- replies -----

  /** The message counts as reasoning: a confirmation or a decline does when no offer is pending. */
  predicate Reasoning(state: State, i: Intent) {
    i in {Substantive, CasualDifficulty} || (state == Awaiting && i in {ExitConfirmation, DeclinesExit})
  }

  predicate AtItsCap(d: Dialogue) {
    |d.exchanges| >= d.cap
  }

  /** The generated question is too similar to one already asked. */
  predicate Loops(st: Settings, d: Dialogue, p: Providers) {
    p.guiding.Ok? && exists k | 0 <= k < |d.exchanges| ::
      !Normalisation.Apart(st.rules, p.guiding.value.question, d.exchanges[k].question, st.threshold)
  }

  /** A learner asks for the answer once more, or accepts the offer of it. */
  predicate InsistsOnAnswer(state: State, i: Intent) {
    state == Confirming && i in {ExitConfirmation, DirectAnswerRequest}
  }

  predicate GivesUp(st: Settings, d: Dialogue, i: Intent, p: Providers) {
    Reasoning(d.state, i) && (AtItsCap(d) || Loops(st, d, p))
  }

  predicate Continues(st: Settings, d: Dialogue, i: Intent, p: Providers) {
    Reasoning(d.state, i) && !AtItsCap(d) && !Loops(st, d, p)
  }

  predicate AsksForOffer(state: State, i: Intent) {
    (state == Awaiting && i == DirectAnswerRequest) || (state == Confirming && i == AsideOffTopic)
  }

  predicate AsksAgain(state: State, i: Intent) {
    (state == Awaiting && i == AsideOffTopic) || (state == Confirming && i == DeclinesExit)
  }

  predicate Guided(p: Providers) {
    p.guiding.Ok? && p.guidingAccepted
  }

  predicate CanAnswer(p: Providers) {
    p.answer.Ok? && p.answerAccepted
  }

  /** The mode of the session is unset, unowned, or the user's own. */
  predicate MayUse(s: Store, session: string, user: string) {
    session !in s.modes || s.modes[session].owner == "" || s.modes[session].owner == user
  }

  predicate ModeOn(s: Store, session: string) {
    session in s.modes && s.modes[session].enabled
  }

  /** The dialogue is the user's own and open, and the session's mode is not somebody else's. */
  predicate MayReply(s: Store, id: Id, user: string) {
    id in s.dialogues && s.dialogues[id].user == user && s.dialogues[id].IsOpen()
    && MayUse(s, s.dialogues[id].session, user)
  }

  /** The row and the new question that a message of intent `i` leads to. */
  ghost predicate Row(st: Settings, d: Dialogue, i: Intent, p: Providers, t: Transition, generated: Option<Guiding>) {
    && (i == Frustration || InsistsOnAnswer(d.state, i) ==>
          t == Transition(Exited, Some(DirectAnswer),
                          Some(if i == Frustration then ExitedOnFrustration else ExitedOnRequest), false, false))
    && (GivesUp(st, d, i, p) ==>
          t == Transition(Capped, Some(CappedAnswer), Some(if AtItsCap(d) then AtCap else ByLoop), false, false))
    && (Continues(st, d, i, p) ==>
          t == Transition(Awaiting, Some(AcknowledgementAndGuidingQuestion), None, true, false)
          && p.guiding.Ok? && p.guidingAccepted && generated == Some(p.guiding.value))
    && (AsksForOffer(d.state, i) ==> t == Transition(Confirming, Some(ExitOffer), None, false, false))
    && (AsksAgain(d.state, i) ==>
          t == Transition(Awaiting, Some(AcknowledgementAndGuidingQuestion), None, false, true))
    && (i == Conclusion ==>
          t == Transition(Resolved, Some(ClosingAcknowledgement), Some(LearnerReasoned), false, false))
  }

  /** Whether the new question loops, as the detector sees it. */
  lemma LoopsIff(st: Settings, d: Dialogue, p: Providers)
    requires st.Valid() && p.guiding.Ok?
    ensures Loops(st, d, p)
       <==> Normalisation.Best(st.rules, p.guiding.value.question, d.Questions(), st.threshold).repeat
  {
    Normalisation.RepeatIff(st.rules, p.guiding.value.question, d.Questions(), st.threshold);
    forall k | 0 <= k < |d.exchanges| ensures d.Questions()[k] == d.exchanges[k].question {}
  }

  /** What a decision comes to, by state, intent, cap and loop. */
  lemma Decided(st: Settings, d: Dialogue, p: Providers)
    requires st.Valid() && d.IsOpen() && Decide(st, d, p).Ok?
    ensures p.intent.Ok?
    ensures var dec := Decide(st, d, p).value;
      dec.intent == p.intent.value && Row(st, d, p.intent.value, p, dec.transition, dec.choice.generated)
  {
    if p.guiding.Ok? { LoopsIff(st, d, p); }
  }

  /** The cases cover every message, and no message falls under two. */
  lemma Cases(st: Settings, d: Dialogue, i: Intent, p: Providers)
    requires d.IsOpen()
    ensures i == Frustration || InsistsOnAnswer(d.state, i) || GivesUp(st, d, i, p) || Continues(st, d, i, p)
            || AsksForOffer(d.state, i) || AsksAgain(d.state, i) || i == Conclusion
  {
  }

  /** The turn of a finished request reports the dialogue it stores. */
  lemma Finalised(s: Store, d: Dialogue, t: Transition, mode: ModeState, guidance: Guidance, p: Providers)
    requires t.kind.Some? && Finalise(s, d, t, mode, guidance, p).Ok?
    ensures var (s', turn) := Finalise(s, d, t, mode, guidance, p).value;
      && d.id in s'.dialogues && s'.dialogues[d.id] == d.(lastInteraction := Some(s.minted)) && s'.modes == s.modes
      && (turn.answer.Some? <==> AnswerBearing(t.kind.value))
      && (turn.answer.Some? ==> p.answer == Ok(turn.answer.value) && p.answerAccepted)
      && turn.guidance == guidance && turn.dialogue == Some(d.id) && turn.interaction == Some(s.minted)
      && turn.kind == t.kind.value && (turn.exitOffer <==> turn.kind == ExitOffer)
      && (turn.reEntryOffer <==> t.resolution == Some(ExitedOnFrustration))
      && turn.state == Some(d.state) && turn.resolution == d.resolution && turn.exchangesUsed == |d.exchanges|
      && turn.modeEnabled == mode.enabled
  {
  }

  /** The mode is found exactly when the user may use the session. */
  lemma ModeForIff(s: Store, session: string, user: string)
    ensures ModeFor(s.modes, session, user).Ok? <==> MayUse(s, session, user)
    ensures ModeFor(s.modes, session, user).Err? ==> ModeFor(s.modes, session, user).error == AccessDenied
    ensures ModeFor(s.modes, session, user).Ok? ==>
              ModeFor(s.modes, session, user).value.enabled == ModeOn(s, session)
  {
  }

  /** The reply as its stages: look up, decide, advance, finish. */
  lemma Stages(st: Settings, s: Store, id: Id, user: string, text: string, p: Providers)
    requires StoreOk(st, s) && MayReply(s, id, user)
    ensures var d := s.dialogues[id];
      ReplyStep(st, s, id, user, text, p)
      == (match Decide(st, d, p)
          case Err(e) => Err(e)
          case Ok(dec) =>
            Finalise(s, Advance(st, d, text, dec), dec.transition, ModeFor(s.modes, d.session, user).value,
                     GuidanceFor(d, dec), p))
  {
    ModeForIff(s, s.dialogues[id].session, user);
  }

  lemma Generated(st: Settings, d: Dialogue, p: Providers)
    requires st.Valid() && d.IsOpen() && Decide(st, d, p).Ok?
    ensures var dec := Decide(st, d, p).value;
      p.intent.Ok? && dec.intent == p.intent.value && (dec.transition.opensExchange ==> dec.choice.generated.Some?)
  {
    Decided(st, d, p);
    Cases(st, d, p.intent.value, p);
  }

  /** A served reply finishes the advanced dialogue. */
  lemma Replied(st: Settings, s: Store, id: Id, user: string, text: string, p: Providers)
    returns (d: Dialogue, dec: Decision, d': Dialogue, mode: ModeState)
    requires st.Valid() && StoreOk(st, s) && ReplyStep(st, s, id, user, text, p).Ok?
    ensures id in s.dialogues && d == s.dialogues[id] && d.IsOpen() && d.id == id && d.exchanges != [] && p.intent.Ok?
    ensures Decide(st, d, p) == Ok(dec) && dec.transition.kind.Some?
    ensures Row(st, d, p.intent.value, p, dec.transition, dec.choice.generated)
    ensures dec.intent == p.intent.value && (dec.transition.opensExchange ==> dec.choice.generated.Some?)
    ensures d' == Advance(st, d, text, dec)
    ensures mode.enabled == ModeOn(s, d.session)
    ensures Finalise(s, d', dec.transition, mode, GuidanceFor(d, dec), p).Ok?
    ensures ReplyStep(st, s, id, user, text, p) == Finalise(s, d', dec.transition, mode, GuidanceFor(d, dec), p)
  {
    d, dec := ReplyAdvances(st, s, id, user, text, p);
    Decided(st, d, p);
    Cases(st, d, p.intent.value, p);
    Generated(st, d, p);
    d' := Advance(st, d, text, dec);
    if !MayReply(s, id, user) { NotServed(st, s, id, user, text, p); }
    mode := ModeFor(s.modes, d.session, user).value;
    ModeForIff(s, d.session, user);
    Stages(st, s, id, user, text, p);
  }

  /** When a reply is answered, and with what: on frustration, on insistence after an offer, and when
      the learner reasons but the questions have run out. */
  lemma ReplyAnswersIff(st: Settings, s: Store, id: Id, user: string, text: string, p: Providers)
    requires st.Valid() && StoreOk(st, s) && ReplyStep(st, s, id, user, text, p).Ok?
    ensures p.intent.Ok? && id in s.dialogues
    ensures var d, i, turn := s.dialogues[id], p.intent.value, ReplyStep(st, s, id, user, text, p).value.1;
      && (turn.answer.Some? <==> i == Frustration || InsistsOnAnswer(d.state, i) || GivesUp(st, d, i, p))
      && (turn.answer.Some? ==> p.answer == Ok(turn.answer.value) && p.answerAccepted)
  {
    var d, dec, d', mode := Replied(st, s, id, user, text, p);
    Finalised(s, d', dec.transition, mode, GuidanceFor(d, dec), p);
    RowAnswers(st, d, p.intent.value, p, dec.transition, dec.choice.generated);
  }

  lemma RowAnswers(st: Settings, d: Dialogue, i: Intent, p: Providers, t: Transition, generated: Option<Guiding>)
    requires d.IsOpen() && Row(st, d, i, p, t, generated) && t.kind.Some?
    ensures AnswerBearing(t.kind.value) <==> i == Frustration || InsistsOnAnswer(d.state, i) || GivesUp(st, d, i, p)
  {
    Cases(st, d, i, p);
  }

  /** Where a message of intent `i` leaves the dialogue, and how it is recorded as closed. */
  ghost predicate Leaves(st: Settings, d: Dialogue, i: Intent, p: Providers, target: State, r: Option<Resolution>) {
    && (target == Exited <==> i == Frustration || InsistsOnAnswer(d.state, i))
    && (r == Some(ExitedOnFrustration) <==> i == Frustration)
    && (target == Capped <==> GivesUp(st, d, i, p))
    && (r == Some(AtCap) <==> GivesUp(st, d, i, p) && AtItsCap(d))
    && (target == Resolved <==> i == Conclusion)
    && (target == Confirming <==> AsksForOffer(d.state, i))
    && (target == Awaiting <==> Continues(st, d, i, p) || AsksAgain(d.state, i))
  }

  lemma RowLeaves(st: Settings, d: Dialogue, i: Intent, p: Providers, t: Transition, generated: Option<Guiding>)
    requires d.IsOpen() && Row(st, d, i, p, t, generated)
    ensures Leaves(st, d, i, p, t.target, t.resolution)
  {
    Cases(st, d, i, p);
  }

  lemma ReplyLeaves(st: Settings, s: Store, id: Id, user: string, text: string, p: Providers)
    requires st.Valid() && StoreOk(st, s) && ReplyStep(st, s, id, user, text, p).Ok?
    ensures p.intent.Ok? && id in s.dialogues && id in ReplyStep(st, s, id, user, text, p).value.0.dialogues
    ensures var d' := ReplyStep(st, s, id, user, text, p).value.0.dialogues[id];
      Leaves(st, s.dialogues[id], p.intent.value, p, d'.state, d'.resolution)
  {
    var d, dec, d', mode := Replied(st, s, id, user, text, p);
    Finalised(s, d', dec.transition, mode, GuidanceFor(d, dec), p);
    RowLeaves(st, d, p.intent.value, p, dec.transition, dec.choice.generated);
  }

  /** One exchange is opened exactly when the learner reasons and a question is left, with that question;
      the message is kept in the exchange it answers, and nothing earlier changes. */
  ghost predicate Opens(st: Settings, d: Dialogue, m: Message, p: Providers, after: seq<Exchange>)
    requires d.exchanges != []
  {
    var n := |d.exchanges|;
    && |after| == n + (if Continues(st, d, m.intent, p) then 1 else 0)
    && after[..n - 1] == d.exchanges[..n - 1]
    && after[n - 1] == d.exchanges[n - 1].(messages := d.exchanges[n - 1].messages + [m])
    && (Continues(st, d, m.intent, p) ==>
          && Guided(p) && after[n].messages == []
          && after[n].question == p.guiding.value.question && after[n].focus == p.guiding.value.focus)
  }

  lemma RowOpens(st: Settings, d: Dialogue, text: string, p: Providers, dec: Decision)
    requires d.IsOpen() && d.exchanges != [] && p.intent.Ok? && dec.intent == p.intent.value
    requires Row(st, d, dec.intent, p, dec.transition, dec.choice.generated)
    requires dec.transition.opensExchange ==> dec.choice.generated.Some?
    ensures Opens(st, d, Message(text, dec.intent), p, Advance(st, d, text, dec).exchanges)
  {
    Cases(st, d, dec.intent, p);
    var heard, n := Hear(d.exchanges, Message(text, dec.intent)), |d.exchanges|;
    assert heard[..n - 1] == d.exchanges[..n - 1];
  }

  lemma ReplyOpensIff(st: Settings, s: Store, id: Id, user: string, text: string, p: Providers)
    requires st.Valid() && StoreOk(st, s) && ReplyStep(st, s, id, user, text, p).Ok?
    ensures p.intent.Ok? && id in s.dialogues && s.dialogues[id].exchanges != []
    ensures id in ReplyStep(st, s, id, user, text, p).value.0.dialogues
    ensures Opens(st, s.dialogues[id], Message(text, p.intent.value), p,
                  ReplyStep(st, s, id, user, text, p).value.0.dialogues[id].exchanges)
  {
    var d, dec, d', mode := Replied(st, s, id, user, text, p);
    Finalised(s, d', dec.transition, mode, GuidanceFor(d, dec), p);
    RowOpens(st, d, text, p, dec);
  }

  /** What the learner is shown: the new question, the current one again, the consolidating one, an
      offer, or none. */
  ghost predicate Shows(st: Settings, d: Dialogue, i: Intent, p: Providers, guidance: Guidance, kind: ResponseKind)
    requires d.exchanges != []
  {
    && (Continues(st, d, i, p) ==> p.guiding.Ok? && guidance == Posed(p.guiding.value.question))
    && (AsksAgain(d.state, i) ==> guidance == Posed(d.exchanges[|d.exchanges| - 1].question))
    && (guidance == Consolidating <==> i == Conclusion)
    && (guidance.Posed? <==> Continues(st, d, i, p) || AsksAgain(d.state, i))
    && (kind == AcknowledgementAndGuidingQuestion <==> guidance.Posed?)
    && (kind == ClosingAcknowledgement <==> i == Conclusion)
    && (kind == ExitOffer <==> AsksForOffer(d.state, i))
    && (kind == CappedAnswer <==> GivesUp(st, d, i, p))
    && kind != GuidingQuestion
  }

  lemma RowShows(st: Settings, d: Dialogue, p: Providers, dec: Decision)
    requires d.IsOpen() && d.exchanges != [] && dec.transition.kind.Some?
    requires Row(st, d, dec.intent, p, dec.transition, dec.choice.generated)
    requires dec.transition.opensExchange ==> dec.choice.generated.Some?
    ensures Shows(st, d, dec.intent, p, GuidanceFor(d, dec), dec.transition.kind.value)
  {
    Cases(st, d, dec.intent, p);
  }

  lemma ReplyShows(st: Settings, s: Store, id: Id, user: string, text: string, p: Providers)
    requires st.Valid() && StoreOk(st, s) && ReplyStep(st, s, id, user, text, p).Ok?
    ensures p.intent.Ok? && id in s.dialogues && s.dialogues[id].exchanges != []
    ensures var d, i, turn := s.dialogues[id], p.intent.value, ReplyStep(st, s, id, user, text, p).value.1;
      && Shows(st, d, i, p, turn.guidance, turn.kind)
      && (turn.exitOffer <==> AsksForOffer(d.state, i)) && (turn.reEntryOffer <==> i == Frustration)
  {
    var d, dec, d', mode := Replied(st, s, id, user, text, p);
    Finalised(s, d', dec.transition, mode, GuidanceFor(d, dec), p);
    RowShows(st, d, p, dec);
    RowLeaves(st, d, p.intent.value, p, dec.transition, dec.choice.generated);
  }

  /** The turn reports the dialogue as stored. */
  lemma ReplyReports(st: Settings, s: Store, id: Id, user: string, text: string, p: Providers)
    requires st.Valid() && StoreOk(st, s) && ReplyStep(st, s, id, user, text, p).Ok?
    ensures var (s', turn) := ReplyStep(st, s, id, user, text, p).value;
      && id in s'.dialogues && turn.dialogue == Some(id) && turn.state == Some(s'.dialogues[id].state)
      && turn.resolution == s'.dialogues[id].resolution && turn.exchangesUsed == |s'.dialogues[id].exchanges|
      && turn.interaction == s'.dialogues[id].lastInteraction
      && turn.modeEnabled == ModeOn(s, s'.dialogues[id].session)
  {
    var d, dec, d', mode := Replied(st, s, id, user, text, p);
    Finalised(s, d', dec.transition, mode, GuidanceFor(d, dec), p);
  }

  /** `m` is the earliest of the questions most similar to the new one. */
  ghost predicate Nearest(st: Settings, question: string, exchanges: seq<Exchange>, m: nat) {
    && m < |exchanges|
    && (forall k | 0 <= k < |exchanges| ::
          st.rules.similarity(question, exchanges[k].question) <= st.rules.similarity(question, exchanges[m].question))
    && (forall k | 0 <= k < m ::
          st.rules.similarity(question, exchanges[k].question) < st.rules.similarity(question, exchanges[m].question))
  }

  lemma LoopMatches(st: Settings, d: Dialogue, p: Providers)
    requires st.Valid() && d.IsOpen() && Decide(st, d, p).Ok?
    requires Decide(st, d, p).value.choice.event == LoopDetected
    ensures var m := Decide(st, d, p).value.choice.matched;
      p.guiding.Ok? && m.Some? && Nearest(st, p.guiding.value.question, d.exchanges, m.value)
  {
    MeantFacts(d.state, p.intent.value);
    var q := p.guiding.value.question;
    Normalisation.RepeatIff(st.rules, q, d.Questions(), st.threshold);
    forall k | 0 <= k < |d.exchanges| ensures d.Questions()[k] == d.exchanges[k].question {}
  }

  /** A loop is recorded with the earliest exchange whose question is most similar to the refused one. */
  lemma LoopNamesNearest(st: Settings, s: Store, id: Id, user: string, text: string, p: Providers)
    requires st.Valid() && StoreOk(st, s) && ReplyStep(st, s, id, user, text, p).Ok?
    ensures id in s.dialogues && id in ReplyStep(st, s, id, user, text, p).value.0.dialogues
    ensures var d, d' := s.dialogues[id], ReplyStep(st, s, id, user, text, p).value.0.dialogues[id];
      d'.resolution == Some(ByLoop) ==>
        && p.guiding.Ok? && d'.loopMatched.Some? && d'.loopMatched.value > 0
        && Nearest(st, p.guiding.value.question, d.exchanges, d'.loopMatched.value - 1)
  {
    var d, dec, d', mode := Replied(st, s, id, user, text, p);
    Finalised(s, d', dec.transition, mode, GuidanceFor(d, dec), p);
    if dec.transition.resolution == Some(ByLoop) {
      LoopEvent(st, d, p);
      LoopMatches(st, d, p);
    }
  }

  lemma LoopEvent(st: Settings, d: Dialogue, p: Providers)
    requires st.Valid() && d.IsOpen() && Decide(st, d, p).Ok?
    requires Decide(st, d, p).value.transition.resolution == Some(ByLoop)
    ensures Decide(st, d, p).value.choice.event == LoopDetected
  {
    var dec := Decide(st, d, p).value;
    MeantFacts(d.state, dec.intent);
    DecideSound(st, d, p);
    RowFacts(d.state, dec.intent, dec.choice.event, dec.transition);
  }

  // ----- refusals -----

  lemma DecideServedIff(st: Settings, d: Dialogue, p: Providers)
    requires d.IsOpen()
    ensures Decide(st, d, p).Ok? <==>
      p.intent.Ok? && (Reasoning(d.state, p.intent.value) && !AtItsCap(d) ==> Guided(p))
    ensures Decide(st, d, p).Err? ==> FromProvider(p, Decide(st, d, p).error)
  {
  }

  /** The error names a provider that failed, or whose result its guard refused. */
  predicate FromProvider(p: Providers, e: Error) {
    e.Provider?
    && (p.intent == Err(e.cause) || p.guiding == Err(e.cause) || p.answer == Err(e.cause)
        || (e.cause == ProviderInvalidResponse && !(p.guidingAccepted && p.answerAccepted)))
  }

  lemma FinaliseServedIff(s: Store, d: Dialogue, t: Transition, mode: ModeState, guidance: Guidance, p: Providers)
    ensures Finalise(s, d, t, mode, guidance, p).Ok? <==>
      (t.kind.Some? && AnswerBearing(t.kind.value) ==> CanAnswer(p))
    ensures Finalise(s, d, t, mode, guidance, p).Err? ==>
              FromProvider(p, Finalise(s, d, t, mode, guidance, p).error)
  {
  }

  /** A reply is served if and only if the learner may reply, the message is classified, and each of the
      two generators that is needed delivers something its guard accepts. */
  lemma ReplyServedIff(st: Settings, s: Store, id: Id, user: string, text: string, p: Providers)
    requires st.Valid() && StoreOk(st, s)
    ensures ReplyStep(st, s, id, user, text, p).Ok? <==> MayReply(s, id, user) && Provided(st, s.dialogues[id], p)
  {
    if MayReply(s, id, user) {
      var d := s.dialogues[id];
      Stages(st, s, id, user, text, p);
      DecideServedIff(st, d, p);
      if Decide(st, d, p).Ok? {
        var dec := Decide(st, d, p).value;
        Decided(st, d, p);
        Cases(st, d, dec.intent, p);
        RowAnswers(st, d, dec.intent, p, dec.transition, dec.choice.generated);
        FinaliseServedIff(s, Advance(st, d, text, dec), dec.transition, ModeFor(s.modes, d.session, user).value,
                          GuidanceFor(d, dec), p);
      }
    } else {
      NotServed(st, s, id, user, text, p);
    }
  }

  /** The message ends the questions. */
  predicate AnswerDue(st: Settings, d: Dialogue, i: Intent, p: Providers) {
    i == Frustration || InsistsOnAnswer(d.state, i) || GivesUp(st, d, i, p)
  }

  /** Every provider the message needs delivers. */
  predicate Provided(st: Settings, d: Dialogue, p: Providers) {
    && p.intent.Ok?
    && (Reasoning(d.state, p.intent.value) && !AtItsCap(d) ==> Guided(p))
    && (AnswerDue(st, d, p.intent.value, p) ==> CanAnswer(p))
  }

  /** Why a learner may not reply: no such dialogue, somebody else's, closed, or somebody else's session. */
  lemma NotServed(st: Settings, s: Store, id: Id, user: string, text: string, p: Providers)
    requires StoreOk(st, s) && !MayReply(s, id, user)
    ensures ReplyStep(st, s, id, user, text, p)
         == Err(if id !in s.dialogues then DialogueNotFound
                else if s.dialogues[id].user == user && !s.dialogues[id].IsOpen() then InvalidTransition
                else AccessDenied)
  {
    if id in s.dialogues { ModeForIff(s, s.dialogues[id].session, user); }
  }

  /** A reply the learner may make is refused only in the name of a provider. */
  lemma RefusedByProvider(st: Settings, s: Store, id: Id, user: string, text: string, p: Providers)
    requires StoreOk(st, s) && MayReply(s, id, user) && ReplyStep(st, s, id, user, text, p).Err?
    ensures FromProvider(p, ReplyStep(st, s, id, user, text, p).error)
  {
    var d := s.dialogues[id];
    Stages(st, s, id, user, text, p);
    DecideServedIff(st, d, p);
    if Decide(st, d, p).Ok? {
      var dec := Decide(st, d, p).value;
      FinaliseServedIff(s, Advance(st, d, text, dec), dec.transition, ModeFor(s.modes, d.session, user).value,
                        GuidanceFor(d, dec), p);
    }
  }

  /** A message answers the question exactly when it means the same whether or not an offer is pending, and is
      neither off topic nor a request for the answer. */
  lemma AnsweringIff(i: Intent)
    ensures Answering(i)
       <==> && EventForIntent(Awaiting, i) == EventForIntent(Confirming, i)
            && i != AsideOffTopic && i != DirectAnswerRequest
  {
  }

  // ----- questions and modes -----

  /** A question is served if and only if the session is open to the user and the provider its mode needs
      delivers. */
  lemma AskServedIff(
    st: Settings, s: Store, session: string, user: string, question: string, topic: string, p: Providers)
    ensures AskStep(st, s, session, user, question, topic, p).Ok? <==>
      MayUse(s, session, user) && if ModeOn(s, session) then Guided(p) else CanAnswer(p)
    ensures AskStep(st, s, session, user, question, topic, p).Err? && !MayUse(s, session, user) ==>
              AskStep(st, s, session, user, question, topic, p).error == AccessDenied
  {
  }

  /** With the mode off a question is answered and nothing stored. */
  lemma AskAnswers(st: Settings, s: Store, session: string, user: string, question: string, topic: string, p: Providers)
    requires AskStep(st, s, session, user, question, topic, p).Ok? && !ModeOn(s, session)
    ensures var (s', turn) := AskStep(st, s, session, user, question, topic, p).value;
      s' == s && p.answer.Ok? && turn.answer == Some(p.answer.value) && turn.kind == DirectAnswer
      && !turn.modeEnabled && turn.dialogue == None && turn.interaction == None && turn.exchangesUsed == 0
      && turn.guidance == NoGuidance && turn.resolution == None && turn.state == None
      && !turn.exitOffer && !turn.reEntryOffer && turn.chain == None
  {
  }

  /** With the mode on it opens a dialogue on the learner's question with the generated one, under the
      context retrieved or, if that failed, the documented default. */
  lemma AskStarts(st: Settings, s: Store, session: string, user: string, question: string, topic: string, p: Providers)
    requires AskStep(st, s, session, user, question, topic, p).Ok? && ModeOn(s, session)
    ensures var (s', turn) := AskStep(st, s, session, user, question, topic, p).value;
      && p.guiding.Ok? && turn.dialogue.Some? && turn.dialogue.value in s'.dialogues
      && var d, g := s'.dialogues[turn.dialogue.value], p.guiding.value;
      && d.session == session && d.user == user && d.question == question && d.topic == topic
      && d.state == Awaiting && d.resolution == None && !d.closed && d.cap == st.cap
      && |d.exchanges| == 1 && d.exchanges[0].question == g.question && d.exchanges[0].focus == g.focus
      && turn.guidance == Posed(g.question) && turn.kind == GuidingQuestion && turn.answer == None
      && turn.modeEnabled && turn.state == Some(Awaiting) && turn.exchangesUsed == 1
      && turn.interaction == d.lastInteraction
      && (p.context.Ok? ==> d.context == p.context.value)
      && (p.context.Err? ==>
            d.context.level == Level5 && !d.context.levelRetrieved && d.context.practiceArea == None
            && d.context.sources.Keys == {"naric_level", "practice_area"}
            && forall k | k in d.context.sources ::
                 d.context.sources[k] == if p.context.error == ProviderInvalidResponse then Invalid else Unavailable)
  {
    var d := AskOpens(st, s, session, user, question, topic, p);
  }

  /** Who may switch a mode, and what switching changes: that session's entry, and on switching off the
      caller's open dialogues of the session, which are exactly those reported. */
  lemma SetModeChanges(s: Store, session: string, user: string, enabled: bool)
    ensures SetModeStep(s, session, user, enabled).Ok? <==> MayUse(s, session, user)
    ensures MayUse(s, session, user) ==>
      var s' := SetModeStep(s, session, user, enabled).value.0;
      && session in s'.modes && s'.modes[session] == ModeState(enabled, user)
      && (forall k | k != session :: (k in s'.modes <==> k in s.modes) && (k in s.modes ==> s'.modes[k] == s.modes[k]))
      && s'.log == s.log && s'.order == s.order && s'.dialogues.Keys == s.dialogues.Keys
  {
  }

  predicate ClosedByMode(s: Store, id: Id, session: string, user: string) {
    id in s.dialogues && s.dialogues[id].session == session && s.dialogues[id].user == user && s.dialogues[id].IsOpen()
  }

  function Closed(d: Dialogue): Dialogue {
    d.(state := Abandoned, resolution := Some(ByAbandonment), closed := true)
  }

  /** Switching off reports exactly the caller's open dialogues of the session, once each, and abandons
      exactly those. */
  lemma SetModeCloses(st: Settings, s: Store, session: string, user: string, enabled: bool)
    requires StoreOk(st, s) && MayUse(s, session, user)
    ensures SetModeStep(s, session, user, enabled).Ok?
    ensures var (s', ids) := SetModeStep(s, session, user, enabled).value;
      && (forall id :: id in ids <==> !enabled && ClosedByMode(s, id, session, user))
      && (forall i, j | 0 <= i < j < |ids| :: ids[i] != ids[j])
      && (forall id | id in s.dialogues :: id in s'.dialogues
            && s'.dialogues[id] == if id in ids then Closed(s.dialogues[id]) else s.dialogues[id])
  {
    InFlightIdsFacts(s.dialogues, s.order, session, user);
  }

  lemma {:induction false} InFlightIdsFacts(dialogues: map<Id, Dialogue>, order: seq<Id>, session: string, user: string)
    requires forall i, j | 0 <= i < j < |order| :: order[i] != order[j]
    ensures var ids := InFlightIds(dialogues, order, session, user);
      && (forall id :: id in ids <==> id in order && id in dialogues && dialogues[id].session == session
                                      && dialogues[id].user == user && dialogues[id].IsOpen())
      && (forall i, j | 0 <= i < j < |ids| :: ids[i] != ids[j])
  {
    if order != [] {
      var n := |order| - 1;
      InFlightIdsFacts(dialogues, order[..n], session, user);
      assert order == order[..n] + [order[n]];
      assert order[n] !in order[..n];
    }
  }
}
