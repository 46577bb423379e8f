/**
 The service itself (packages/uc05/uc05/application/socratic_service.py): each request is served
 step by step against the repositories and leaves exactly the store its specification gives.
 In particular a request that fails, at whatever provider call, leaves the store untouched.
 */
module SocraticService {
  import opened Prelude
  import opened StateMachine
  import opened Dialogues
  import opened SocraticSpec
  import opened SocraticInvariants
  import opened SocraticSteps
  import opened Repositories
  import Normalisation
  import ReasoningChain

  class Service {
    const settings: Settings
    const dialogues: DialogueRepository
    const modes: SessionModeRepository
    const interactions: InteractionLogRepository
    const ids: IdSource

    ghost function Contents(): Store
      reads dialogues, modes, interactions, ids
    {
      Store(dialogues.byId, dialogues.order, modes.bySession, interactions.records, ids.next)
    }

    ghost predicate Valid()
      reads dialogues, modes, interactions, ids
    {
      settings.Valid() && StoreOk(settings, Contents())
    }

    constructor (settings: Settings)
      requires settings.Valid()
      ensures this.settings == settings && Valid() && Contents() == EMPTY
      ensures fresh(dialogues) && fresh(modes) && fresh(interactions) && fresh(ids)
    {
      this.settings := settings;
      dialogues := new DialogueRepository();
      modes := new SessionModeRepository();
      interactions := new InteractionLogRepository();
      ids := new IdSource();
    }

    /** The mode a user may see, or a refusal. */
    method ModeStateFor(session: string, user: string) returns (r: Result<ModeState, Error>)
      ensures r == ModeFor(modes.bySession, session, user)
    {
      var stored := modes.GetMode(session);
      if stored.None? {
        return Ok(ModeState(false, ""));
      }
      if stored.value.owner != "" && stored.value.owner != user {
        return Err(AccessDenied);
      }
      r := Ok(stored.value);
    }

    method SetMode(session: string, user: string, enabled: bool) returns (r: Result<seq<Id>, Error>)
      requires Valid()
      modifies dialogues, modes
      ensures Valid()
      ensures var spec := SetModeStep(old(Contents()), session, user, enabled);
        match spec
        case Ok(v) => Contents() == v.0 && r == Ok(v.1)
        case Err(e) => Contents() == old(Contents()) && r == Err(e)
    {
      var before := ModeStateFor(session, user);
      if before.Err? {
        return Err(before.error);
      }
      ghost var was := Contents();
      SetModeKeepsIf(settings, was, session, user, enabled);
      var state := modes.SetMode(session, enabled, user);
      var closed: seq<Id> := [];
      if !enabled {
        closed := CloseInFlight(session, user);
      }
      r := Ok(closed);
    }

    method CloseInFlight(session: string, user: string) returns (closed: seq<Id>)
      requires OrderOk(dialogues.byId, dialogues.order)
      requires forall id | id in dialogues.byId :: dialogues.byId[id].id == id
      modifies dialogues
      ensures dialogues.byId == CloseAll(old(dialogues.byId), session, user)
      ensures dialogues.order == old(dialogues.order)
      ensures closed == InFlightIds(old(dialogues.byId), old(dialogues.order), session, user)
    {
      closed := [];
      var snapshot := dialogues.ForSession(session);
      ghost var was, order := dialogues.byId, dialogues.order;
      SnapshotFacts(was, order, session);
      for i := 0 to |snapshot|
        invariant dialogues.order == order
        invariant dialogues.byId == CloseEach(was, snapshot[..i], user)
        invariant closed == ClosedIds(snapshot[..i], user)
      {
        assert snapshot[..i + 1][..i] == snapshot[..i];
        CloseEachKeys(was, snapshot[..i], user);
        var dialogue := snapshot[i];
        if dialogue.IsOpen() && dialogue.user == user {
          var transition := Lookup(Some(dialogue.state), ModeToggledOff).value;
          dialogue := dialogue.(state := transition.target, resolution := transition.resolution, closed := true);
          dialogues.Save(dialogue);
          closed := closed + [dialogue.id];
        }
      }
      assert snapshot[..|snapshot|] == snapshot;
      CloseEachIsCloseAll(was, order, session, user);
      ClosedIdsAreInFlight(was, order, session, user);
    }

    method Ask(session: string, user: string, question: string, topic: string, p: Providers)
      returns (r: Result<Turn, Error>)
      requires Valid()
      modifies dialogues, interactions, ids
      ensures Valid()
      ensures var spec := AskStep(settings, old(Contents()), session, user, question, topic, p);
        match spec
        case Ok(v) => Contents() == v.0 && r == Ok(v.1)
        case Err(e) => Contents() == old(Contents()) && r == Err(e)
    {
      AskKeepsIf(settings, Contents(), session, user, question, topic, p);
      r := AnswerOrOpen(session, user, question, topic, p);
    }

    /** With the mode off, the four-part answer and no record; with it on, a new dialogue. */
    method AnswerOrOpen(session: string, user: string, question: string, topic: string, p: Providers)
      returns (r: Result<Turn, Error>)
      modifies dialogues, interactions, ids
      ensures var spec := AskStep(settings, old(Contents()), session, user, question, topic, p);
        match spec
        case Ok(v) => Contents() == v.0 && r == Ok(v.1)
        case Err(e) => Contents() == old(Contents()) && r == Err(e)
    {
      var m := ModeStateFor(session, user);
      if m.Err? {
        return Err(m.error);
      }
      var mode := m.value;
      var context := ResolveContext(p);
      if !mode.enabled {
        var a := GenerateAnswer(p);
        if a.Err? {
          return Err(a.error);
        }
        return Ok(Turn(None, false, DirectAnswer, None, None, 0, NoGuidance, false, false, Some(a.value), None, None));
      }
      var g := GenerateGuiding(p);
      if g.Err? {
        return Err(g.error);
      }
      var id := ids.Mint();
      var dialogue := Dialogue(id, session, user, question, topic, context, INITIAL_STATE, None, settings.cap, [],
                               false, None, None);
      var opening := NewExchange(settings, |dialogue.exchanges| + 1, g.value);
      dialogue := dialogue.(exchanges := dialogue.exchanges + [opening]);
      dialogue := dialogue.(state := START.target);
      assert dialogue == OpeningDialogue(settings, id, session, user, question, topic, context, g.value);
      r := Finalise(dialogue, START, mode, Posed(g.value.question), p);
    }

    method Reply(id: Id, user: string, text: string, p: Providers) returns (r: Result<Turn, Error>)
      requires Valid()
      modifies dialogues, interactions, ids
      ensures Valid()
      ensures var spec := ReplyStep(settings, old(Contents()), id, user, text, p);
        match spec
        case Ok(v) => Contents() == v.0 && r == Ok(v.1)
        case Err(e) => Contents() == old(Contents()) && r == Err(e)
    {
      ReplyKeepsIf(settings, Contents(), id, user, text, p);
      r := TakeReply(id, user, text, p);
    }

    method TakeReply(id: Id, user: string, text: string, p: Providers) returns (r: Result<Turn, Error>)
      requires forall k | k in dialogues.byId :: dialogues.byId[k].exchanges != []
      modifies dialogues, interactions, ids
      ensures var spec := ReplyStep(settings, old(Contents()), id, user, text, p);
        match spec
        case Ok(v) => Contents() == v.0 && r == Ok(v.1)
        case Err(e) => Contents() == old(Contents()) && r == Err(e)
    {
      var stored := dialogues.Get(id);
      if stored.None? {
        return Err(DialogueNotFound);
      }
      var dialogue := stored.value;
      if dialogue.user != user {
        return Err(AccessDenied);
      }
      if Terminal(dialogue.state) {
        return Err(InvalidTransition);
      }
      var m := ModeStateFor(dialogue.session, user);
      if m.Err? {
        return Err(m.error);
      }
      var dec := Deliberate(dialogue, p);
      if dec.Err? {
        return Err(dec.error);
      }
      var choice, transition := dec.value.choice, dec.value.transition;

      // Only now is the copy of the dialogue changed.
      var last := |dialogue.exchanges| - 1;
      var message := Message(text, dec.value.intent);
      var heard := dialogue.exchanges[last].(messages := dialogue.exchanges[last].messages + [message]);
      var guidance := GuidanceFor(dialogue, dec.value);
      dialogue := dialogue.(exchanges := dialogue.exchanges[last := heard]);
      if transition.opensExchange {
        dialogue := dialogue.(exchanges := dialogue.exchanges
                                           + [NewExchange(settings, |dialogue.exchanges| + 1, choice.generated.value)]);
      }
      if choice.event == LoopDetected {
        dialogue := dialogue.(loopMatched := if choice.matched.Some? then Some(choice.matched.value + 1) else None);
      }
      dialogue := dialogue.(state := transition.target, resolution := transition.resolution);
      if Terminal(dialogue.state) {
        dialogue := dialogue.(closed := true);
      }
      assert dialogue == Advance(settings, stored.value, text, dec.value);
      r := Finalise(dialogue, transition, m.value, guidance, p);
    }

    /** Classification, cap, generation and loop detection, in that order; nothing is stored. */
    method Deliberate(dialogue: Dialogue, p: Providers) returns (r: Result<Decision, Error>)
      requires dialogue.IsOpen()
      ensures r == Decide(settings, dialogue, p)
    {
      var intent := Classify(p);
      if intent.Err? {
        return Err(intent.error);
      }
      EveryReplyHasARow(dialogue.state, intent.value);
      var event := EventForIntent(dialogue.state, intent.value).value;
      if event == SubstantiveResponse && |dialogue.exchanges| >= dialogue.cap {
        event := CapReached;
      }
      var generated: Option<Guiding> := None;
      var matched: Option<nat> := None;
      if Generating(event) {
        var g := GenerateGuiding(p);
        if g.Err? {
          return Err(g.error);
        }
        var loop := Normalisation.IsRepeat(settings.rules, g.value.question, dialogue.Questions(), settings.threshold);
        matched := loop.index;
        if loop.repeat {
          event := LoopDetected;
        } else {
          generated := Some(g.value);
        }
      }
      var transition := Lookup(Some(dialogue.state), event);
      r := Ok(Decision(intent.value, Choice(event, generated, matched), transition.value));
    }

    /** Answer first, and only then store. */
    method Finalise(d: Dialogue, t: Transition, mode: ModeState, guidance: Guidance, p: Providers)
      returns (r: Result<Turn, Error>)
      modifies dialogues, interactions, ids
      ensures var spec := SocraticSpec.Finalise(old(Contents()), d, t, mode, guidance, p);
        match spec
        case Ok(v) => Contents() == v.0 && r == Ok(v.1)
        case Err(e) => Contents() == old(Contents()) && r == Err(e)
    {
      var answer: Option<Answer> := None;
      var chain: Option<seq<ReasoningChain.Step>> := None;
      if t.kind.Some? && AnswerBearing(t.kind.value) {
        var a := GenerateAnswer(p);
        if a.Err? {
          return Err(a.error);
        }
        answer := Some(a.value);
        if t.kind.value == CappedAnswer {
          var steps := ReasoningChain.BuildReasoningChain(d.exchanges);
          chain := Some(steps);
        }
      }
      var rid := Record(d, t);
      var kind := if t.kind.Some? then t.kind.value else GuidingQuestion;
      r := Ok(Turn(Some(d.id), mode.enabled, kind, Some(d.state), d.resolution, |d.exchanges|, guidance,
                   kind == ExitOffer, t.resolution == Some(ExitedOnFrustration), answer, chain, Some(rid)));
    }

    /** Save, log, link and save again. */
    method Record(d: Dialogue, t: Transition) returns (rid: Id)
      modifies dialogues, interactions, ids
      ensures Contents() == Persist(old(Contents()), d, t) && rid == old(ids.next)
    {
      dialogues.Save(d);
      rid := ids.Mint();
      var kind := if t.kind.Some? then t.kind.value else GuidingQuestion;
      var record := Dialogues.Record(rid, d.session, d.user, d.question, d.topic, d.context.level, d.id,
                                     if |d.exchanges| > 1 then |d.exchanges| else 1, kind, t.resolution,
                                     d.lastInteraction);
      interactions.Append(record);
      var linked := d.(lastInteraction := Some(record.id));
      dialogues.Save(linked);
      assert dialogues.byId == old(dialogues.byId)[d.id := linked];
    }
  }

  // ----- the closing loop -----

  function CloseEach(byId: map<Id, Dialogue>, snapshot: seq<Dialogue>, user: string): map<Id, Dialogue> {
    if snapshot == [] then byId
    else
      var n := |snapshot| - 1;
      var m := CloseEach(byId, snapshot[..n], user);
      if snapshot[n].IsOpen() && snapshot[n].user == user then m[snapshot[n].id := Abandon(snapshot[n])] else m
  }

  function ClosedIds(snapshot: seq<Dialogue>, user: string): seq<Id> {
    if snapshot == [] then []
    else
      var n := |snapshot| - 1;
      ClosedIds(snapshot[..n], user) + if snapshot[n].IsOpen() && snapshot[n].user == user then [snapshot[n].id] else []
  }

  lemma {:induction false} CloseEachKeys(byId: map<Id, Dialogue>, snapshot: seq<Dialogue>, user: string)
    requires forall i | 0 <= i < |snapshot| :: snapshot[i].id in byId
    ensures CloseEach(byId, snapshot, user).Keys == byId.Keys
  {
    if snapshot != [] {
      CloseEachKeys(byId, snapshot[..|snapshot| - 1], user);
    }
  }

  lemma {:induction false} SnapshotFacts(byId: map<Id, Dialogue>, order: seq<Id>, session: string)
    requires forall id | id in byId :: byId[id].id == id
    ensures forall i | 0 <= i < |InSession(byId, order, session)| ::
              var d := InSession(byId, order, session)[i]; d.id in byId && byId[d.id] == d
  {
    if order != [] {
      SnapshotFacts(byId, order[..|order| - 1], session);
    }
  }

  function CloseAmong(byId: map<Id, Dialogue>, ids: seq<Id>, session: string, user: string): map<Id, Dialogue> {
    map id | id in byId :: if id in ids && InFlight(byId[id], session, user) then Abandon(byId[id]) else byId[id]
  }

  lemma CloseOneMore(byId: map<Id, Dialogue>, ids: seq<Id>, k: Id, session: string, user: string)
    requires k !in ids
    ensures CloseAmong(byId, ids + [k], session, user)
         == if k in byId && InFlight(byId[k], session, user)
            then CloseAmong(byId, ids, session, user)[k := Abandon(byId[k])]
            else CloseAmong(byId, ids, session, user)
  {
    assert forall id :: id in ids + [k] <==> id in ids || id == k;
  }

  /** Closing one by one, in insertion order, is closing them all. */
  lemma {:induction false} CloseEachOf(byId: map<Id, Dialogue>, order: seq<Id>, session: string, user: string)
    requires forall id | id in byId :: byId[id].id == id
    requires forall i, j | 0 <= i < j < |order| :: order[i] != order[j]
    ensures CloseEach(byId, InSession(byId, order, session), user) == CloseAmong(byId, order, session, user)
  {
    if order == [] {
      assert CloseAmong(byId, order, session, user) == byId;
    } else {
      var n := |order| - 1;
      CloseEachOf(byId, order[..n], session, user);
      CloseOneMore(byId, order[..n], order[n], session, user);
      assert order == order[..n] + [order[n]];
      SnapshotGrows(byId, order, session);
    }
  }

  /** The last identifier contributes its dialogue, if it is in the session. */
  lemma SnapshotGrows(byId: map<Id, Dialogue>, order: seq<Id>, session: string)
    requires order != []
    ensures var k := order[|order| - 1];
      var before, all := InSession(byId, order[..|order| - 1], session), InSession(byId, order, session);
      if k in byId && byId[k].session == session
      then |all| == |before| + 1 && all[..|all| - 1] == before && all[|all| - 1] == byId[k]
      else all == before
  {
  }

  lemma CloseEachIsCloseAll(byId: map<Id, Dialogue>, order: seq<Id>, session: string, user: string)
    requires OrderOk(byId, order) && forall id | id in byId :: byId[id].id == id
    ensures CloseEach(byId, InSession(byId, order, session), user) == CloseAll(byId, session, user)
  {
    CloseEachOf(byId, order, session, user);
    assert CloseAmong(byId, order, session, user) == CloseAll(byId, session, user);
  }

  lemma {:induction false} ClosedIdsAreInFlight(byId: map<Id, Dialogue>, order: seq<Id>, session: string, user: string)
    requires forall id | id in byId :: byId[id].id == id
    ensures ClosedIds(InSession(byId, order, session), user) == InFlightIds(byId, order, session, user)
  {
    if order != [] {
      var n := |order| - 1;
      ClosedIdsAreInFlight(byId, order[..n], session, user);
      SnapshotGrows(byId, order, session);
    }
  }

  // ----- the invariant, whether or not the request is served -----

  lemma AskKeepsIf(st: Settings, s: Store, session: string, user: string, question: string, topic: string, p: Providers)
    requires st.Valid() && StoreOk(st, s)
    ensures AskStep(st, s, session, user, question, topic, p).Ok? ==>
              StoreOk(st, AskStep(st, s, session, user, question, topic, p).value.0)
  {
    if AskStep(st, s, session, user, question, topic, p).Ok? { AskKeeps(st, s, session, user, question, topic, p); }
  }

  lemma ReplyKeepsIf(st: Settings, s: Store, id: Id, user: string, text: string, p: Providers)
    requires st.Valid() && StoreOk(st, s)
    ensures ReplyStep(st, s, id, user, text, p).Ok? ==> StoreOk(st, ReplyStep(st, s, id, user, text, p).value.0)
  {
    if ReplyStep(st, s, id, user, text, p).Ok? { ReplyKeeps(st, s, id, user, text, p); }
  }

  lemma SetModeKeepsIf(st: Settings, s: Store, session: string, user: string, enabled: bool)
    requires StoreOk(st, s)
    ensures SetModeStep(s, session, user, enabled).Ok? ==>
              StoreOk(st, SetModeStep(s, session, user, enabled).value.0)
  {
    if SetModeStep(s, session, user, enabled).Ok? { SetModeKeeps(st, s, session, user, enabled); }
  }
}
