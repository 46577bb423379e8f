/** What holds over whole runs of requests, in any order, by any users, with any providers. */
module SocraticRuns {
  import opened Prelude
  import opened StateMachine
  import opened Dialogues
  import opened SocraticSpec
  import opened SocraticInvariants
  import opened SocraticSteps
  import Normalisation

  datatype Request =
    | Ask(session: string, user: string, question: string, topic: string, p: Providers)
    | Reply(id: Id, user: string, text: string, p: Providers)
    | SetMode(session: string, user: string, enabled: bool)

  datatype Outcome = Took(turn: Turn) | Closed(ids: seq<Id>) | Refused(error: Error)

  ghost function Step(st: Settings, s: Store, r: Request): (Store, Outcome)
    requires StoreOk(st, s)
  {
    match r
    case Ask(session, user, question, topic, p) =>
      (match AskStep(st, s, session, user, question, topic, p)
       case Ok(v) => (v.0, Took(v.1))
       case Err(e) => (s, Refused(e)))
    case Reply(id, user, text, p) =>
      (match ReplyStep(st, s, id, user, text, p)
       case Ok(v) => (v.0, Took(v.1))
       case Err(e) => (s, Refused(e)))
    case SetMode(session, user, enabled) =>
      (match SetModeStep(s, session, user, enabled)
       case Ok(v) => (v.0, Closed(v.1))
       case Err(e) => (s, Refused(e)))
  }

  lemma StepKeeps(st: Settings, s: Store, r: Request)
    requires st.Valid() && StoreOk(st, s)
    ensures StoreOk(st, Step(st, s, r).0)
  {
    if !Step(st, s, r).1.Refused? {
      match r
      case Ask(session, user, question, topic, p) => AskKeeps(st, s, session, user, question, topic, p);
      case Reply(id, user, text, p) => ReplyKeeps(st, s, id, user, text, p);
      case SetMode(session, user, enabled) => SetModeKeeps(st, s, session, user, enabled);
    }
  }

  /** The store after serving `rs` one at a time, starting from a well-formed store: always
      well formed again. */
  ghost function Serve(st: Settings, s: Store, rs: seq<Request>): (s': Store)
    requires st.Valid() && StoreOk(st, s)
    ensures StoreOk(st, s')
    decreases |rs|
  {
    if rs == [] then s
    else
      StepKeeps(st, s, rs[0]);
      Serve(st, Step(st, s, rs[0]).0, rs[1..])
  }

  /** Every run from empty repositories. */
  ghost function Run(st: Settings, rs: seq<Request>): (s: Store)
    requires st.Valid()
    ensures StoreOk(st, s)
  {
    Serve(st, EMPTY, rs)
  }

  /** A store that some run ends in. */
  ghost predicate Reached(st: Settings, s: Store) {
    st.Valid() && exists rs :: Run(st, rs) == s
  }

  lemma ServeFirst(st: Settings, s: Store, rs: seq<Request>)
    requires st.Valid() && StoreOk(st, s) && rs != []
    ensures StoreOk(st, Step(st, s, rs[0]).0)
    ensures Serve(st, s, rs) == Serve(st, Step(st, s, rs[0]).0, rs[1..])
  {
    StepKeeps(st, s, rs[0]);
  }

  // ----- requests that fail -----

  /** The requests of a run that were served. */
  ghost function Served(st: Settings, s: Store, rs: seq<Request>): seq<Request>
    requires st.Valid() && StoreOk(st, s)
    decreases |rs|
  {
    if rs == [] then []
    else
      StepKeeps(st, s, rs[0]);
      var rest := Served(st, Step(st, s, rs[0]).0, rs[1..]);
      if Step(st, s, rs[0]).1.Refused? then rest else [rs[0]] + rest
  }

  lemma RefusedChangesNothing(st: Settings, s: Store, r: Request)
    requires StoreOk(st, s) && Step(st, s, r).1.Refused?
    ensures Step(st, s, r).0 == s
  {
  }

  /** A request refused at any point, by an ownership check or by any provider, leaves no trace:
      the run without the refused requests ends in the same store, so a retry behaves as if the
      failed turn had never happened. */
  lemma {:induction false} RefusedLeaveNoTrace(st: Settings, s: Store, rs: seq<Request>)
    requires st.Valid() && StoreOk(st, s)
    ensures Serve(st, s, Served(st, s, rs)) == Serve(st, s, rs)
    decreases |rs|
  {
    if rs != [] {
      ServeFirst(st, s, rs);
      var s1 := Step(st, s, rs[0]).0;
      RefusedLeaveNoTrace(st, s1, rs[1..]);
      var rest := Served(st, s1, rs[1..]);
      if Step(st, s, rs[0]).1.Refused? {
        RefusedChangesNothing(st, s, rs[0]);
      } else {
        ServeFirst(st, s, [rs[0]] + rest);
        assert ([rs[0]] + rest)[1..] == rest;
      }
    }
  }

  // ----- loop protection -----

  /** In every reachable dialogue, no two guiding questions reach the similarity threshold, and
      their stored fingerprints are pairwise distinct.  (At threshold zero the detector needs a
      positive score, so there the questions share no token at all.) */
  lemma QuestionsNeverRepeat(st: Settings, s: Store, id: Id, i: nat, j: nat)
    requires Reached(st, s) && id in s.dialogues
    requires i < |s.dialogues[id].exchanges| && j < |s.dialogues[id].exchanges| && i != j
    ensures var e := s.dialogues[id].exchanges;
      var score := st.rules.similarity(e[i].question, e[j].question);
      && (if st.threshold > 0.0 then score < st.threshold else score == 0.0)
      && e[i].fingerprint != e[j].fingerprint
  {
    var d := s.dialogues[id];
    assert DialogueOk(st, d);
    var e := d.exchanges;
    var (lo, hi) := if i < j then (i, j) else (j, i);
    assert Normalisation.Apart(st.rules, e[hi].question, e[lo].question, st.threshold);
    Normalisation.ApartFingerprints(st.rules, e[hi].question, e[lo].question, st.threshold);
    assert st.rules.similarity(e[i].question, e[j].question) == st.rules.similarity(e[j].question, e[i].question);
  }

  // ----- closed dialogues -----

  /** `id` and its records are the same in both stores. */
  ghost predicate SameStory(s: Store, s': Store, id: Id) {
    id in s.dialogues && id in s'.dialogues && s'.dialogues[id] == s.dialogues[id]
    && RecordsOf(s'.log, id) == RecordsOf(s.log, id)
  }

  lemma PersistFrame(s: Store, d: Dialogue, t: Transition, id: Id)
    requires id in s.dialogues && id != d.id
    ensures SameStory(s, Persist(s, d, t), id)
  {
    RecordsAppend(s.log, RecordFor(d, t, s.minted), id);
    assert RecordsOf(s.log, id) + [] == RecordsOf(s.log, id);
  }

  lemma AskFrame(st: Settings, s: Store, session: string, user: string, question: string, topic: string,
                 p: Providers, id: Id)
    requires AskStep(st, s, session, user, question, topic, p).Ok? && id in s.dialogues && id < s.minted
    ensures SameStory(s, AskStep(st, s, session, user, question, topic, p).value.0, id)
  {
    if ModeFor(s.modes, session, user).value.enabled {
      var d := AskOpens(st, s, session, user, question, topic, p);
      PersistFrame(s.(minted := s.minted + 1), d, START, id);
    }
  }

  lemma ReplyFrame(st: Settings, s: Store, k: Id, user: string, text: string, p: Providers, id: Id)
    requires forall j | j in s.dialogues :: s.dialogues[j].exchanges != [] && s.dialogues[j].id == j
    requires ReplyStep(st, s, k, user, text, p).Ok? && id in s.dialogues && (id != k || !s.dialogues[id].IsOpen())
    ensures SameStory(s, ReplyStep(st, s, k, user, text, p).value.0, id)
  {
    var d, dec := ReplyAdvances(st, s, k, user, text, p);
    PersistFrame(s, Advance(st, d, text, dec), dec.transition, id);
  }

  lemma SetModeFrame(s: Store, session: string, user: string, enabled: bool, id: Id)
    requires SetModeStep(s, session, user, enabled).Ok? && id in s.dialogues && !s.dialogues[id].IsOpen()
    ensures SameStory(s, SetModeStep(s, session, user, enabled).value.0, id)
  {
  }

  /** One request leaves a closed dialogue and its records exactly as they were. */
  lemma ClosedStep(st: Settings, s: Store, r: Request, id: Id)
    requires StoreOk(st, s) && id in s.dialogues && !s.dialogues[id].IsOpen()
    ensures SameStory(s, Step(st, s, r).0, id)
  {
    if Step(st, s, r).1.Refused? {
      RefusedChangesNothing(st, s, r);
    } else {
      match r
      case Ask(session, user, question, topic, p) => AskFrame(st, s, session, user, question, topic, p, id);
      case Reply(k, user, text, p) => ReplyFrame(st, s, k, user, text, p, id);
      case SetMode(session, user, enabled) => SetModeFrame(s, session, user, enabled, id);
    }
  }

  /** A closed dialogue never changes again, and its log gains nothing, whatever is served next. */
  lemma {:induction false} ClosedForever(st: Settings, s: Store, rs: seq<Request>, id: Id)
    requires st.Valid() && StoreOk(st, s) && id in s.dialogues && !s.dialogues[id].IsOpen()
    ensures SameStory(s, Serve(st, s, rs), id)
    decreases |rs|
  {
    if rs != [] {
      StepKeeps(st, s, rs[0]);
      ClosedStep(st, s, rs[0], id);
      ClosedForever(st, Step(st, s, rs[0]).0, rs[1..], id);
    }
  }
}
