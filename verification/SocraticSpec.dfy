/**
 What one request does to the persisted state, as a function of that state and of what every
 provider answers (packages/uc05/uc05/application/socratic_service.py).  Providers are
 adversarial: each request carries whatever its classifier, generators and guards return.
 */
module SocraticSpec {
  import opened Prelude
  import opened StateMachine
  import opened Dialogues
  import Normalisation
  import ReasoningChain

  datatype Settings = Settings(cap: nat, threshold: real, rules: Normalisation.TextRules) {
    ghost predicate Valid() {
      1 <= cap && 0.0 <= threshold <= 1.0 && rules.Lawful()
    }
  }

  datatype ProviderError = ProviderUnavailable | ProviderTimeout | ProviderInvalidResponse

  datatype Error = AccessDenied | DialogueNotFound | InvalidTransition | Provider(cause: ProviderError)

  datatype Guiding = Guiding(question: string, focus: string)

  datatype Answer = Answer(plain: string, formal: string, example: string, authority: string)

  /** One request's provider behaviour: what each call returns and whether its guard accepts it. */
  datatype Providers = Providers(
    context: Result<LearnerContext, ProviderError>,
    intent: Result<Intent, ProviderError>,
    guiding: Result<Guiding, ProviderError>, guidingAccepted: bool,
    answer: Result<Answer, ProviderError>, answerAccepted: bool)

  datatype Guidance = NoGuidance | Posed(question: string) | Consolidating

  datatype Turn = Turn(
    dialogue: Option<Id>, modeEnabled: bool, kind: ResponseKind, state: Option<State>,
    resolution: Option<Resolution>, exchangesUsed: nat, guidance: Guidance, exitOffer: bool,
    reEntryOffer: bool, answer: Option<Answer>, chain: Option<seq<ReasoningChain.Step>>,
    interaction: Option<Id>)

  /** The three repositories and the source of fresh identifiers. */
  datatype Store = Store(
    dialogues: map<Id, Dialogue>, order: seq<Id>, modes: map<string, ModeState>, log: seq<Record>, minted: nat)

  const EMPTY := Store(map[], [], map[], [], 0)

  // ----- provider calls -----

  function Classify(p: Providers): Result<Intent, Error> {
    match p.intent
    case Ok(i) => Ok(i)
    case Err(e) => Err(Provider(e))
  }

  function GenerateGuiding(p: Providers): Result<Guiding, Error> {
    match p.guiding
    case Ok(g) => if p.guidingAccepted then Ok(g) else Err(Provider(ProviderInvalidResponse))
    case Err(e) => Err(Provider(e))
  }

  function GenerateAnswer(p: Providers): Result<Answer, Error> {
    match p.answer
    case Ok(a) => if p.answerAccepted then Ok(a) else Err(Provider(ProviderInvalidResponse))
    case Err(e) => Err(Provider(e))
  }

  function Defaulted(reason: SourceStatus): LearnerContext {
    LearnerContext(Level5, false, None, map["naric_level" := reason, "practice_area" := reason])
  }

  function ResolveContext(p: Providers): LearnerContext {
    match p.context
    case Ok(c) => c
    case Err(ProviderInvalidResponse) => Defaulted(Invalid)
    case Err(_) => Defaulted(Unavailable)
  }

  // ----- session mode -----

  function ModeFor(modes: map<string, ModeState>, session: string, user: string): Result<ModeState, Error> {
    if session !in modes then Ok(ModeState(false, ""))
    else if modes[session].owner != "" && modes[session].owner != user then Err(AccessDenied)
    else Ok(modes[session])
  }

  function ModeSet(modes: map<string, ModeState>, session: string, user: string, enabled: bool)
    : map<string, ModeState>
  {
    var owner := if session in modes && modes[session].owner != "" then modes[session].owner else user;
    modes[session := ModeState(enabled, owner)]
  }

  predicate InFlight(d: Dialogue, session: string, user: string) {
    d.session == session && d.IsOpen() && d.user == user
  }

  function Abandon(d: Dialogue): Dialogue {
    d.(state := Abandoned, resolution := Some(ByAbandonment), closed := true)
  }

  function CloseAll(dialogues: map<Id, Dialogue>, session: string, user: string): map<Id, Dialogue> {
    map id | id in dialogues ::
      if InFlight(dialogues[id], session, user) then Abandon(dialogues[id]) else dialogues[id]
  }

  function InFlightIds(dialogues: map<Id, Dialogue>, order: seq<Id>, session: string, user: string): seq<Id> {
    if order == [] then []
    else
      var n := |order| - 1;
      InFlightIds(dialogues, order[..n], session, user)
      + if order[n] in dialogues && InFlight(dialogues[order[n]], session, user) then [order[n]] else []
  }

  function SetModeStep(s: Store, session: string, user: string, enabled: bool): Result<(Store, seq<Id>), Error> {
    var _ :- ModeFor(s.modes, session, user);
    var modes := ModeSet(s.modes, session, user, enabled);
    if enabled then Ok((s.(modes := modes), []))
    else Ok((s.(modes := modes, dialogues := CloseAll(s.dialogues, session, user)),
             InFlightIds(s.dialogues, s.order, session, user)))
  }

  // ----- one dialogue, one message -----

  function NewExchange(st: Settings, number: nat, g: Guiding): Exchange {
    Exchange(number, g.question, g.focus, st.rules.fingerprint(g.question), [])
  }

  /** The event finally raised, the new question if one is due, and the index of the nearest
      earlier question. */
  datatype Choice = Choice(event: Event, generated: Option<Guiding>, matched: Option<nat>)

  datatype Decision = Decision(intent: Intent, choice: Choice, transition: Transition)

  /** Let the cap bind, then generate and check for a loop. */
  function Choose(st: Settings, d: Dialogue, meant: Event, p: Providers): (r: Result<Choice, Error>)
    requires meant != DialogueStarted
    ensures r.Ok? ==> (r.value.event == meant
                       || (meant == SubstantiveResponse
                           && (r.value.event == CapReached || r.value.event == LoopDetected)))
    ensures r.Ok? ==> (r.value.generated.Some? <==> Generating(r.value.event))
  {
    var event := if meant == SubstantiveResponse && |d.exchanges| >= d.cap then CapReached else meant;
    if !Generating(event) then Ok(Choice(event, None, None))
    else
      var g :- GenerateGuiding(p);
      var m := Normalisation.Best(st.rules, g.question, d.Questions(), st.threshold);
      Ok(if m.repeat then Choice(LoopDetected, None, m.index) else Choice(event, Some(g), m.index))
  }

  /** Classify, choose the event, look the row up: everything before a mutation. */
  function Decide(st: Settings, d: Dialogue, p: Providers): (r: Result<Decision, Error>)
    requires d.IsOpen()
    ensures r.Ok? ==> Lookup(Some(d.state), r.value.choice.event) == Some(r.value.transition)
    ensures r.Ok? ==> (r.value.choice.generated.Some? <==> r.value.transition.opensExchange)
  {
    var intent :- Classify(p);
    var c :- Choose(st, d, EventForIntent(d.state, intent).value, p);
    EveryReplyHasARow(d.state, intent);
    TableLaws(Some(d.state), c.event);
    Ok(Decision(intent, c, Lookup(Some(d.state), c.event).value))
  }

  function Hear(exchanges: seq<Exchange>, m: Message): seq<Exchange>
    requires exchanges != []
  {
    var n := |exchanges| - 1;
    exchanges[n := exchanges[n].(messages := exchanges[n].messages + [m])]
  }

  function Advance(st: Settings, d: Dialogue, text: string, dec: Decision): Dialogue
    requires d.exchanges != []
    requires dec.transition.opensExchange ==> dec.choice.generated.Some?
  {
    var heard := Hear(d.exchanges, Message(text, dec.intent));
    var t := dec.transition;
    d.(exchanges := if t.opensExchange
                    then heard + [NewExchange(st, |heard| + 1, dec.choice.generated.value)] else heard,
       loopMatched := if dec.choice.event != LoopDetected then d.loopMatched
                      else if dec.choice.matched.Some? then Some(dec.choice.matched.value + 1) else None,
       state := t.target,
       resolution := t.resolution,
       closed := d.closed || Terminal(t.target))
  }

  function RecordFor(d: Dialogue, t: Transition, id: Id): Record {
    Record(id, d.session, d.user, d.question, d.topic, d.context.level, d.id,
           if |d.exchanges| > 1 then |d.exchanges| else 1,
           if t.kind.Some? then t.kind.value else GuidingQuestion,
           t.resolution, d.lastInteraction)
  }

  predicate NeedsAnswer(t: Transition) {
    t.kind.Some? && AnswerBearing(t.kind.value)
  }

  function TurnFor(d: Dialogue, t: Transition, mode: ModeState, guidance: Guidance, answer: Option<Answer>,
                   interaction: Id): Turn
  {
    var kind := if t.kind.Some? then t.kind.value else GuidingQuestion;
    Turn(Some(d.id), mode.enabled, kind, Some(d.state), d.resolution, |d.exchanges|, guidance,
         kind == ExitOffer, t.resolution == Some(ExitedOnFrustration), answer,
         if t.kind == Some(CappedAnswer) then Some(ReasoningChain.ChainOf(d.exchanges)) else None,
         Some(interaction))
  }

  /** Save the dialogue, log its record, link it. */
  function Persist(s: Store, d: Dialogue, t: Transition): Store {
    var r := RecordFor(d, t, s.minted);
    s.(dialogues := s.dialogues[d.id := d.(lastInteraction := Some(r.id))],
       order := if d.id in s.dialogues then s.order else s.order + [d.id],
       log := s.log + [r],
       minted := s.minted + 1)
  }

  /** Generate the answer if one is due, and only then persist. */
  function Finalise(s: Store, d: Dialogue, t: Transition, mode: ModeState, guidance: Guidance, p: Providers)
    : Result<(Store, Turn), Error>
  {
    if NeedsAnswer(t) && GenerateAnswer(p).Err? then Err(GenerateAnswer(p).error)
    else
      var answer := if NeedsAnswer(t) then Some(GenerateAnswer(p).value) else None;
      Ok((Persist(s, d, t), TurnFor(d, t, mode, guidance, answer, s.minted)))
  }

  function GuidanceFor(d: Dialogue, dec: Decision): Guidance
    requires dec.transition.opensExchange ==> dec.choice.generated.Some?
  {
    if dec.transition.opensExchange then Posed(dec.choice.generated.value.question)
    else if dec.transition.reposes then
      if d.exchanges != [] then Posed(d.exchanges[|d.exchanges| - 1].question) else NoGuidance
    else if dec.transition.resolution == Some(LearnerReasoned) then Consolidating
    else NoGuidance
  }

  /** The stored dialogue a user may reply to. */
  function Addressed(s: Store, id: Id, user: string): Result<Dialogue, Error> {
    if id !in s.dialogues then Err(DialogueNotFound)
    else if s.dialogues[id].user != user then Err(AccessDenied)
    else if Terminal(s.dialogues[id].state) then Err(InvalidTransition)
    else Ok(s.dialogues[id])
  }

  function ReplyStep(st: Settings, s: Store, id: Id, user: string, text: string, p: Providers)
    : Result<(Store, Turn), Error>
    requires forall k | k in s.dialogues :: s.dialogues[k].exchanges != []
  {
    var d :- Addressed(s, id, user);
    var mode :- ModeFor(s.modes, d.session, user);
    var dec :- Decide(st, d, p);
    Finalise(s, Advance(st, d, text, dec), dec.transition, mode, GuidanceFor(d, dec), p)
  }

  function OpeningDialogue(st: Settings, id: Id, session: string, user: string, question: string, topic: string,
                           context: LearnerContext, g: Guiding): Dialogue
  {
    Dialogue(id, session, user, question, topic, context, Awaiting, None, st.cap, [NewExchange(st, 1, g)],
             false, None, None)
  }

  const START := Lookup(None, DialogueStarted).value

  function AskStep(st: Settings, s: Store, session: string, user: string, question: string, topic: string,
                   p: Providers): Result<(Store, Turn), Error>
  {
    var mode :- ModeFor(s.modes, session, user);
    if !mode.enabled then
      var answer :- GenerateAnswer(p);
      Ok((s, Turn(None, false, DirectAnswer, None, None, 0, NoGuidance, false, false, Some(answer), None, None)))
    else
      var g :- GenerateGuiding(p);
      var d := OpeningDialogue(st, s.minted, session, user, question, topic, ResolveContext(p), g);
      Finalise(s.(minted := s.minted + 1), d, START, mode, Posed(g.question), p)
  }
}
