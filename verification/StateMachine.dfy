/** The dialogue state machine (packages/uc05/uc05/domain/state_machine.py). */
module StateMachine {
  import opened Prelude

  datatype State = Awaiting | Confirming | Resolved | Capped | Exited | Abandoned

  datatype Event =
    | DialogueStarted | SubstantiveResponse | LearnerReasonedConclusion
    | DirectAnswerRequested | ExitConfirmed | ExitDeclined | ExplicitFrustration
    | OffTopic | CapReached | LoopDetected | ModeToggledOff

  datatype Intent =
    | Substantive | DirectAnswerRequest | ExitConfirmation | DeclinesExit
    | Frustration | AsideOffTopic | CasualDifficulty | Conclusion

  datatype ResponseKind =
    | GuidingQuestion | AcknowledgementAndGuidingQuestion | ExitOffer
    | DirectAnswer | CappedAnswer | ClosingAcknowledgement

  datatype Resolution =
    | LearnerReasoned | AtCap | ExitedOnRequest | ExitedOnFrustration | ByLoop | ByAbandonment

  datatype Transition = Transition(
    target: State, kind: Option<ResponseKind>, resolution: Option<Resolution>,
    opensExchange: bool, reposes: bool)

  const INITIAL_STATE := Awaiting

  predicate Terminal(s: State) {
    s in {Resolved, Capped, Exited, Abandoned}
  }

  predicate AnswerBearing(k: ResponseKind) {
    k == DirectAnswer || k == CappedAnswer
  }

  predicate PermitsAnswer(r: Resolution) {
    r in {ExitedOnRequest, ExitedOnFrustration, AtCap, ByLoop}
  }

  predicate Generating(e: Event) {
    e == DialogueStarted || e == SubstantiveResponse
  }

  /** The nineteen rows; `None` as a source is dialogue creation, `None` as a result is the
      refusal of a pair the table does not list. */
  function Lookup(source: Option<State>, event: Event): Option<Transition> {
    match (source, event)
    case (None, DialogueStarted) => Some(Transition(Awaiting, Some(GuidingQuestion), None, true, false))
    case (Some(Awaiting), SubstantiveResponse) =>
      Some(Transition(Awaiting, Some(AcknowledgementAndGuidingQuestion), None, true, false))
    case (Some(Awaiting), OffTopic) =>
      Some(Transition(Awaiting, Some(AcknowledgementAndGuidingQuestion), None, false, true))
    case (Some(Awaiting), LearnerReasonedConclusion) =>
      Some(Transition(Resolved, Some(ClosingAcknowledgement), Some(LearnerReasoned), false, false))
    case (Some(Awaiting), DirectAnswerRequested) =>
      Some(Transition(Confirming, Some(ExitOffer), None, false, false))
    case (Some(Confirming), ExitConfirmed) =>
      Some(Transition(Exited, Some(DirectAnswer), Some(ExitedOnRequest), false, false))
    case (Some(Confirming), ExitDeclined) =>
      Some(Transition(Awaiting, Some(AcknowledgementAndGuidingQuestion), None, false, true))
    case (Some(Confirming), DirectAnswerRequested) =>
      Some(Transition(Exited, Some(DirectAnswer), Some(ExitedOnRequest), false, false))
    case (Some(Confirming), SubstantiveResponse) =>
      Some(Transition(Awaiting, Some(AcknowledgementAndGuidingQuestion), None, true, false))
    case (Some(Confirming), OffTopic) =>
      Some(Transition(Confirming, Some(ExitOffer), None, false, false))
    case (Some(Confirming), LearnerReasonedConclusion) =>
      Some(Transition(Resolved, Some(ClosingAcknowledgement), Some(LearnerReasoned), false, false))
    case (Some(Awaiting), ExplicitFrustration) =>
      Some(Transition(Exited, Some(DirectAnswer), Some(ExitedOnFrustration), false, false))
    case (Some(Confirming), ExplicitFrustration) =>
      Some(Transition(Exited, Some(DirectAnswer), Some(ExitedOnFrustration), false, false))
    case (Some(Awaiting), CapReached) => Some(Transition(Capped, Some(CappedAnswer), Some(AtCap), false, false))
    case (Some(Confirming), CapReached) => Some(Transition(Capped, Some(CappedAnswer), Some(AtCap), false, false))
    case (Some(Awaiting), LoopDetected) => Some(Transition(Capped, Some(CappedAnswer), Some(ByLoop), false, false))
    case (Some(Confirming), LoopDetected) => Some(Transition(Capped, Some(CappedAnswer), Some(ByLoop), false, false))
    case (Some(Awaiting), ModeToggledOff) => Some(Transition(Abandoned, None, Some(ByAbandonment), false, false))
    case (Some(Confirming), ModeToggledOff) => Some(Transition(Abandoned, None, Some(ByAbandonment), false, false))
    case _ => None
  }

  /** What a classified message means in an open state; a terminal state accepts nothing. */
  function EventForIntent(state: State, intent: Intent): Option<Event> {
    if Terminal(state) then None
    else match intent
      case Substantive => Some(SubstantiveResponse)
      case CasualDifficulty => Some(SubstantiveResponse)
      case ExitConfirmation => Some(if state == Confirming then ExitConfirmed else SubstantiveResponse)
      case DeclinesExit => Some(if state == Confirming then ExitDeclined else SubstantiveResponse)
      case Conclusion => Some(LearnerReasonedConclusion)
      case DirectAnswerRequest => Some(DirectAnswerRequested)
      case Frustration => Some(ExplicitFrustration)
      case AsideOffTopic => Some(OffTopic)
  }

  /** The table never leaves the service without a row: in an open state every intent, and the
      cap or loop event it may be replaced by, has one. */
  lemma EveryReplyHasARow(state: State, intent: Intent)
    requires !Terminal(state)
    ensures var e := EventForIntent(state, intent);
      && e.Some? && Lookup(Some(state), e.value).Some?
      && Lookup(Some(state), e.value).value.kind.Some?
      && (e.value == SubstantiveResponse ==>
            Lookup(Some(state), CapReached).Some? && Lookup(Some(state), LoopDetected).Some?)
  {
  }

  /** Confirming, frustration, the cap and a loop end the questions, and so does asking again for the answer. */
  predicate EndsWithAnswer(source: Option<State>, event: Event) {
    || event == ExitConfirmed || event == ExplicitFrustration || event == CapReached || event == LoopDetected
    || (event == DirectAnswerRequested && source == Some(Confirming))
  }

  /** Closing is final, an answer needs a permitted resolution and ends exactly the events above, a
      resolution closes, a row opens an exchange only for a generating event, and the current question is
      posed again exactly when an offer is declined or a message is off topic with no offer pending. */
  lemma TableLaws(source: Option<State>, event: Event)
    requires Lookup(source, event).Some?
    ensures var t := Lookup(source, event).value;
      && (source.Some? ==> !Terminal(source.value))
      && (t.resolution.Some? <==> Terminal(t.target))
      && (t.kind.Some? && AnswerBearing(t.kind.value) <==> t.resolution.Some? && PermitsAnswer(t.resolution.value))
      && (t.kind.Some? && AnswerBearing(t.kind.value) <==> EndsWithAnswer(source, event))
      && (t.opensExchange <==> Generating(event))
      && (t.reposes <==> event == ExitDeclined || (event == OffTopic && source == Some(Awaiting)))
      && (t.opensExchange || t.reposes ==> t.target == Awaiting)
      && (t.target == Confirming <==> t.kind == Some(ExitOffer))
      && (t.resolution == Some(ExitedOnRequest) ==> source == Some(Confirming))
  {
  }
}
