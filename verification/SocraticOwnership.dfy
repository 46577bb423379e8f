/** Who owns a session's mode, and exactly when that ownership can be relied on. */
module SocraticOwnership {
  import opened Prelude
  import opened StateMachine
  import opened Dialogues
  import opened SocraticSpec
  import opened SocraticInvariants
  import opened SocraticSteps
  import opened SocraticRuns

  /** Every dialogue belongs to the recorded owner of its session's mode, and a session whose
      mode is off, or was never set, has no open dialogue. */
  ghost predicate Owned(s: Store) {
    forall id | id in s.dialogues ::
      var d := s.dialogues[id];
      d.session in s.modes && s.modes[d.session].owner == d.user && (d.IsOpen() ==> s.modes[d.session].enabled)
  }

  ghost predicate OwnersAmong(s: Store, users: iset<string>) {
    forall session | session in s.modes :: s.modes[session].owner in users
  }

  function UserOf(r: Request): string {
    r.user
  }

  ghost predicate From(rs: seq<Request>, users: iset<string>) {
    forall i | 0 <= i < |rs| :: UserOf(rs[i]) in users
  }

  /** No user is anonymous, or everybody is: then passing the ownership check means being the owner. */
  ghost predicate Distinguishable(users: iset<string>) {
    "" !in users || forall u | u in users :: u == ""
  }

  lemma OwnedBySetMode(s: Store, session: string, user: string, enabled: bool, users: iset<string>)
    requires Owned(s) && OwnersAmong(s, users) && user in users && Distinguishable(users)
    requires SetModeStep(s, session, user, enabled).Ok?
    ensures var s' := SetModeStep(s, session, user, enabled).value.0; Owned(s') && OwnersAmong(s', users)
  {
    var s' := SetModeStep(s, session, user, enabled).value.0;
    assert session in s.modes ==> s.modes[session].owner == user;
    forall id | id in s'.dialogues
      ensures var d := s'.dialogues[id];
        d.session in s'.modes && s'.modes[d.session].owner == d.user && (d.IsOpen() ==> s'.modes[d.session].enabled)
    {
      assert id in s.dialogues;
    }
  }

  lemma OwnedByReply(st: Settings, s: Store, id: Id, user: string, text: string, p: Providers)
    requires StoreOk(st, s) && Owned(s) && ReplyStep(st, s, id, user, text, p).Ok?
    ensures var s' := ReplyStep(st, s, id, user, text, p).value.0; Owned(s') && s'.modes == s.modes
  {
    var d, dec := ReplyAdvances(st, s, id, user, text, p);
    var d' := Advance(st, d, text, dec);
    assert d'.session == d.session && d'.user == d.user;
  }

  lemma OwnedByAsk(st: Settings, s: Store, session: string, user: string, question: string, topic: string, p: Providers,
                   users: iset<string>)
    requires Owned(s) && OwnersAmong(s, users) && user in users && Distinguishable(users)
    requires AskStep(st, s, session, user, question, topic, p).Ok?
    ensures var s' := AskStep(st, s, session, user, question, topic, p).value.0; Owned(s') && s'.modes == s.modes
  {
    if ModeFor(s.modes, session, user).value.enabled {
      assert s.modes[session].owner == user;
      var d := AskOpens(st, s, session, user, question, topic, p);
    }
  }

  lemma OwnedStep(st: Settings, s: Store, r: Request, users: iset<string>)
    requires StoreOk(st, s) && Owned(s) && OwnersAmong(s, users)
    requires Distinguishable(users) && UserOf(r) in users
    ensures Owned(Step(st, s, r).0) && OwnersAmong(Step(st, s, r).0, users)
  {
    if !Step(st, s, r).1.Refused? {
      match r
      case Ask(session, user, question, topic, p) => OwnedByAsk(st, s, session, user, question, topic, p, users);
      case Reply(id, user, text, p) => OwnedByReply(st, s, id, user, text, p);
      case SetMode(session, user, enabled) => OwnedBySetMode(s, session, user, enabled, users);
    }
  }

  lemma {:induction false} OwnedThroughout(st: Settings, s: Store, rs: seq<Request>, users: iset<string>)
    requires st.Valid() && StoreOk(st, s) && Owned(s) && OwnersAmong(s, users)
    requires Distinguishable(users) && From(rs, users)
    ensures Owned(Serve(st, s, rs))
    decreases |rs|
  {
    if rs != [] {
      StepKeeps(st, s, rs[0]);
      OwnedStep(st, s, rs[0], users);
      OwnedThroughout(st, Step(st, s, rs[0]).0, rs[1..], users);
    }
  }

  // ----- the empty user identifier -----

  const WILLING := Providers(
    Err(ProviderTimeout), Ok(Substantive), Ok(Guiding("Which element is missing?", "causation")), true,
    Ok(Answer("a", "b", "c", "d")), true)

  /** The anonymous user opens a dialogue; then a named user takes the session over and turns the
      mode off.  An empty owner reads as no owner, so the takeover is allowed, and the closing loop
      skips the dialogue because it is somebody else's. */
  function Takeover(other: string): seq<Request> {
    [SetMode("s", "", true), Ask("s", "", "q", "t", WILLING), SetMode("s", other, false)]
  }

  lemma ServeThree(st: Settings, s: Store, a: Request, b: Request, c: Request)
    requires st.Valid() && StoreOk(st, s)
    requires StoreOk(st, Step(st, s, a).0)
    requires StoreOk(st, Step(st, Step(st, s, a).0, b).0)
    ensures Serve(st, s, [a, b, c]) == Step(st, Step(st, Step(st, s, a).0, b).0, c).0
  {
    var s1 := Step(st, s, a).0;
    var s2 := Step(st, s1, b).0;
    ServeFirst(st, s, [a, b, c]);
    ServeFirst(st, s1, [b, c]);
    ServeFirst(st, s2, [c]);
    assert [a, b, c][1..] == [b, c] && [b, c][1..] == [c] && [c][1..] == [];
  }

  lemma AnonymousAsk(st: Settings, s: Store)
    requires "s" in s.modes && s.modes["s"] == ModeState(true, "")
    ensures var v := AskStep(st, s, "s", "", "q", "t", WILLING);
      && v.Ok? && v.value.0.modes == s.modes && s.minted in v.value.0.dialogues
      && var d := v.value.0.dialogues[s.minted]; d.session == "s" && d.user == "" && d.IsOpen()
  {
  }

  /** The first two requests of the takeover. */
  lemma AnonymousOpens(st: Settings) returns (s1: Store, s2: Store)
    requires st.Valid()
    ensures s1 == Step(st, EMPTY, SetMode("s", "", true)).0 && StoreOk(st, s1)
    ensures s2 == Step(st, s1, Ask("s", "", "q", "t", WILLING)).0 && StoreOk(st, s2)
    ensures "s" in s2.modes && s2.modes["s"] == ModeState(true, "")
    ensures 0 in s2.dialogues && var d := s2.dialogues[0]; d.session == "s" && d.user == "" && d.IsOpen()
  {
    var first, second := SetMode("s", "", true), Ask("s", "", "q", "t", WILLING);
    StepKeeps(st, EMPTY, first);
    s1 := Step(st, EMPTY, first).0;
    assert s1 == SetModeStep(EMPTY, "s", "", true).value.0;
    AnonymousAsk(st, s1);
    StepKeeps(st, s1, second);
    s2 := Step(st, s1, second).0;
    assert s2 == AskStep(st, s1, "s", "", "q", "t", WILLING).value.0;
  }

  /** Turning the mode off leaves the open dialogues of other users alone. */
  lemma SetModeBySomeoneElse(s: Store, session: string, other: string)
    requires session in s.modes && s.modes[session].owner == "" && other != ""
    ensures var v := SetModeStep(s, session, other, false);
      && v.Ok? && v.value.0.modes == s.modes[session := ModeState(false, other)]
      && forall id | id in s.dialogues && s.dialogues[id].user != other ::
           id in v.value.0.dialogues && v.value.0.dialogues[id] == s.dialogues[id]
  {
  }

  lemma ServedSetMode(st: Settings, s: Store, session: string, user: string, enabled: bool)
    requires StoreOk(st, s) && SetModeStep(s, session, user, enabled).Ok?
    ensures Step(st, s, SetMode(session, user, enabled)).0 == SetModeStep(s, session, user, enabled).value.0
  {
  }

  lemma TakeoverRun(st: Settings, other: string) returns (s2: Store)
    requires st.Valid() && other != ""
    ensures "s" in s2.modes && s2.modes["s"] == ModeState(true, "")
    ensures 0 in s2.dialogues && var d := s2.dialogues[0]; d.session == "s" && d.user == "" && d.IsOpen()
    ensures SetModeStep(s2, "s", other, false).Ok?
    ensures Run(st, Takeover(other)) == SetModeStep(s2, "s", other, false).value.0
  {
    var s1;
    s1, s2 := AnonymousOpens(st);
    ServeThree(st, EMPTY, SetMode("s", "", true), Ask("s", "", "q", "t", WILLING), SetMode("s", other, false));
    SetModeBySomeoneElse(s2, "s", other);
    ServedSetMode(st, s2, "s", other, false);
  }

  /** After the takeover the mode is off and the anonymous dialogue is still open. */
  lemma TakeoverBreaksOwnership(st: Settings, other: string)
    requires st.Valid() && other != ""
    ensures !Owned(Run(st, Takeover(other)))
    ensures var s := Run(st, Takeover(other));
      && "s" in s.modes && s.modes["s"] == ModeState(false, other)
      && 0 in s.dialogues && s.dialogues[0].session == "s" && s.dialogues[0].IsOpen()
  {
    var s2 := TakeoverRun(st, other);
    SetModeBySomeoneElse(s2, "s", other);
  }

  /** Ownership holds over every run of a set of users exactly when the empty identifier is not
      one of them, or is the only one. */
  lemma OwnershipIff(st: Settings, users: iset<string>)
    requires st.Valid()
    ensures (forall rs | From(rs, users) :: Owned(Run(st, rs))) <==> Distinguishable(users)
  {
    if Distinguishable(users) {
      forall rs | From(rs, users) ensures Owned(Run(st, rs)) {
        OwnedThroughout(st, EMPTY, rs, users);
      }
    } else {
      var other :| other in users && other != "";
      var rs := Takeover(other);
      assert From(rs, users);
      TakeoverBreaksOwnership(st, other);
    }
  }
}
