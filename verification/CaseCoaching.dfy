/**
 Case-linked coaching behind its gates (packages/uc06/uc06/application/case_coaching_service.py):
 what one question does, as a function of the surface's state and of what every port answers.
 */
module CaseCoaching {
  import opened Prelude
  import opened Ordering
  import opened FactReferences
  import opened Emission
  import Text

  datatype ProviderError = Unavailable | Timeout | InvalidResponse

  datatype GuardClass = NoGuard | OutcomePrediction | LitigationStrategy

  /** An empty case file identifier means the session names none. */
  datatype Context = Context(caseLinked: bool, caseFile: string)

  datatype CaseFile = CaseFile(id: string, fromPrepAgent: bool, facts: seq<string>) {
    function FactIds(): set<string> {
      set i | 0 <= i < |facts| :: facts[i]
    }
  }

  /** `None` stands for content that is not a string. */
  datatype Generation = Generation(content: Option<string>, claimed: seq<string>)

  /** What every port answers during one request, and the texts composed in-domain. */
  datatype Env = Env(
    injection: bool, context: Result<Context, ProviderError>, classified: Result<GuardClass, ProviderError>,
    inProcess: GuardClass, access: Result<bool, ProviderError>, caseFile: Result<CaseFile, ProviderError>,
    generation: Result<Generation, ProviderError>, general: Result<Generation, ProviderError>,
    redirectText: string, libraryText: string)

  /** The text rules applied to generated content: stripping of model disclaimers, and detection of
      predictions. */
  datatype Rules = Rules(strip: string -> string, predicts: string -> bool)

  datatype Mode = CaseLinkedMode | GeneralFallback

  datatype Record = Record(session: string, user: string, caseFile: string, mode: Mode, facts: seq<string>)

  datatype Audit = Audit(outcome: string, session: string, user: string, caseFile: string)

  datatype Response =
    | CaseLinked(session: string, caseFile: string, content: string, cited: seq<string>, guarded: bool)
    | GeneralTopic(session: string, caseFile: string, content: string, guarded: bool)
    | SafeError(code: string, retryable: bool, halted: bool)

  /** What the service hands to the emitter: the response, its status code and the case it concerns.
      `Raised` is a provider error no gate catches. */
  datatype Outcome = Served(response: Response, status: nat, caseFile: string) | Raised

  datatype Surface = Surface(
    halted: set<string>, log: seq<Record>, audit: seq<Audit>, alerts: seq<Alert>, incidents: seq<Incident>)

  datatype Asker = Asker(session: string, user: string, caseFile: string)

  function Note(s: Surface, a: Asker, caseFile: string, outcome: string): Surface {
    s.(audit := s.audit + [Audit(outcome, a.session, a.user, caseFile)])
  }

  function Refuse(s: Surface, a: Asker, outcome: string, code: string, status: nat): (Surface, Outcome) {
    (Note(s, a, a.caseFile, outcome), Served(SafeError(code, false, false), status, a.caseFile))
  }

  function GeneralContent(rules: Rules, env: Env): string {
    match env.general
    case Err(_) => env.libraryText
    case Ok(g) =>
      if g.content.None? then env.libraryText
      else
        var text := rules.strip(g.content.value);
        if Scan(text) != [] || Text.Strip(text) == "" || rules.predicts(text) then env.libraryText else text
  }

  function Fallback(rules: Rules, s: Surface, a: Asker, guard: GuardClass, env: Env, outcome: string)
    : (Surface, Outcome)
  {
    var guarded := guard != NoGuard;
    var content := if guarded then env.redirectText else GeneralContent(rules, env);
    var r := Record(a.session, a.user, a.caseFile, GeneralFallback, []);
    (Note(s.(log := s.log + [r]), a, a.caseFile, outcome),
     Served(GeneralTopic(a.session, a.caseFile, content, guarded), 200, a.caseFile))
  }

  function Redirect(s: Surface, a: Asker, file: CaseFile, env: Env): (Surface, Outcome) {
    var cited := if |file.facts| > 3 then file.facts[..3] else file.facts;
    var r := Record(a.session, a.user, file.id, CaseLinkedMode, cited);
    (Note(s.(log := s.log + [r]), a, file.id, "guard_redirected"),
     Served(CaseLinked(a.session, file.id, env.redirectText, cited, true), 200, file.id))
  }

  function Failed(s: Surface, a: Asker, file: CaseFile, code: string, retryable: bool, status: nat)
    : (Surface, Outcome)
  {
    (Note(s, a, file.id, code), Served(SafeError(code, retryable, false), status, file.id))
  }

  function Generate(rules: Rules, s: Surface, a: Asker, file: CaseFile, guard: GuardClass, env: Env)
    : (Surface, Outcome)
  {
    match env.generation
    case Err(Timeout) => Failed(s, a, file, "generation_timeout", true, 504)
    case Err(Unavailable) => Failed(s, a, file, "generation_unavailable", true, 503)
    case Err(InvalidResponse) => Failed(s, a, file, "generation_invalid", false, 502)
    case Ok(g) =>
      if g.content.None? || Text.Strip(g.content.value) == "" then Failed(s, a, file, "generation_invalid", false, 502)
      else
        var content := rules.strip(g.content.value);
        if UnresolvedIds(content, g.claimed, file.FactIds()) != [] then
          (Note(s, a, file.id, "fabricated_fact_reference"),
           Served(SafeError("generation_invalid", false, false), 502, file.id))
        else
          var text, cited := Rendered(content), Distinct(Scan(content) + g.claimed);
          if rules.predicts(text) then Redirect(s, a, file, env)
          else
            var r := Record(a.session, a.user, file.id, CaseLinkedMode, cited);
            (Note(s.(log := s.log + [r]), a, file.id, "answered"),
             Served(CaseLinked(a.session, file.id, text, cited, false), 200, file.id))
  }

  function WithFile(rules: Rules, s: Surface, a: Asker, guard: GuardClass, env: Env): (Surface, Outcome) {
    match env.caseFile
    case Err(_) => Fallback(rules, s, a, guard, env, "degraded_case_file_unreadable")
    case Ok(file) =>
      if !file.fromPrepAgent then Refuse(s, a, "origin_rejected", "case_origin_rejected", 409)
      else if guard != NoGuard then Redirect(s, a, file, env)
      else Generate(rules, s, a, file, guard, env)
  }

  function Gated(rules: Rules, s: Surface, a: Asker, guard: GuardClass, env: Env): (Surface, Outcome) {
    match env.context
    case Err(_) => Fallback(rules, s, a, guard, env, "degraded_context_unavailable")
    case Ok(c) =>
      if !c.caseLinked then Refuse(s, a, "session_not_case_linked", "session_not_case_linked", 409)
      else if c.caseFile != "" && c.caseFile != a.caseFile then
        Refuse(s, a, "case_file_not_linked_to_session", "case_file_not_linked_to_session", 409)
      else match env.access
        case Err(InvalidResponse) => (s, Raised)
        case Err(_) => Fallback(rules, s, a, guard, env, "degraded_access_unverifiable")
        case Ok(granted) =>
          if granted then WithFile(rules, s, a, guard, env)
          else
            var incident := Incident(UnauthorisedCaseAccess, a.session, a.user, a.caseFile);
            Refuse(s.(incidents := s.incidents + [incident]), a, "access_denied", "case_access_denied", 403)
  }

  function GuardFor(env: Env): GuardClass {
    if env.classified.Ok? then env.classified.value else env.inProcess
  }

  /** Text that looks like an injection is noted as an incident, and the question still answered. */
  function Scanned(s: Surface, a: Asker, env: Env): Surface {
    if env.injection
    then s.(incidents := s.incidents + [Incident(PromptSuppression, a.session, a.user, a.caseFile)])
    else s
  }

  function Ask(rules: Rules, s: Surface, a: Asker, env: Env): (Surface, Outcome) {
    if a.session in s.halted then
      (Note(s, a, a.caseFile, "session_halted"), Served(SafeError("session_halted", false, true), 409, a.caseFile))
    else
      Gated(rules, Scanned(s, a, env), a, GuardFor(env), env)
  }

  // ----- the surface: question, emission, status, clearing -----

  function Emitted(s: Surface, wire: Payload, session: string, user: string, caseFile: string): (Surface, Payload) {
    match CheckPayload(wire)
    case None => (s, wire)
    case Some(f) =>
      (s.(halted := s.halted + {session},
          alerts := s.alerts + [Alert(f.reason, session, user, caseFile)],
          incidents := s.incidents + [Incident(KindFor(f), session, user, caseFile)]),
       ToPayload(SAFE_BODY))
  }

  /** A session's status is visible to everybody before anything is recorded for it, and afterwards
      only to users it has records of. */
  predicate Visible(log: seq<Record>, session: string, user: string) {
    (forall r | r in log :: r.session != session) || exists r | r in log :: r.session == session && r.user == user
  }

  /** `wire` is whatever the serializer makes of the response. */
  datatype Request =
    | Question(a: Asker, env: Env, wire: Payload)
    | Status(session: string, user: string, wire: Payload)
    | Clear(session: string)

  /** The payload that leaves, if one does. */
  function Step(rules: Rules, s: Surface, r: Request): (Surface, Option<Payload>) {
    match r
    case Question(a, env, wire) =>
      (match Ask(rules, s, a, env)
       case (s1, Served(_, _, caseFile)) =>
         var (s2, body) := Emitted(s1, wire, a.session, a.user, caseFile); (s2, Some(body))
       case (s1, Raised) => (s1, Some(ToPayload(SAFE_BODY))))
    case Status(session, user, wire) =>
      if Visible(s.log, session, user) then var (s2, body) := Emitted(s, wire, session, user, ""); (s2, Some(body))
      else (s, Some(ToPayload(SAFE_BODY)))
    case Clear(session) => (s.(halted := s.halted - {session}), None)
  }

  function Serve(rules: Rules, s: Surface, rs: seq<Request>): Surface
    decreases |rs|
  {
    if rs == [] then s else Serve(rules, Step(rules, s, rs[0]).0, rs[1..])
  }

  lemma EmittedPasses(s: Surface, wire: Payload, session: string, user: string, caseFile: string)
    ensures CheckPayload(Emitted(s, wire, session, user, caseFile).1).None?
  {
    HonestPayloadPasses(SAFE_BODY);
  }

  lemma QuestionPasses(rules: Rules, s: Surface, a: Asker, env: Env, wire: Payload)
    ensures var out := Step(rules, s, Question(a, env, wire)).1; out.Some? && CheckPayload(out.value).None?
  {
    var (s1, o) := Ask(rules, s, a, env);
    if o.Served? {
      EmittedPasses(s1, wire, a.session, a.user, o.caseFile);
    } else {
      HonestPayloadPasses(SAFE_BODY);
    }
  }

  lemma StatusPasses(rules: Rules, s: Surface, session: string, user: string, wire: Payload)
    ensures var out := Step(rules, s, Status(session, user, wire)).1; out.Some? && CheckPayload(out.value).None?
  {
    if Visible(s.log, session, user) {
      EmittedPasses(s, wire, session, user, "");
    } else {
      HonestPayloadPasses(SAFE_BODY);
    }
  }

  /** Every payload that leaves the surface passes the boundary check, whatever the serializer did. */
  lemma EveryPayloadPasses(rules: Rules, s: Surface, r: Request)
    ensures Step(rules, s, r).1.Some? ==> CheckPayload(Step(rules, s, r).1.value).None?
  {
    match r
    case Question(a, env, wire) => QuestionPasses(rules, s, a, env, wire);
    case Status(session, user, wire) => StatusPasses(rules, s, session, user, wire);
    case Clear(_) =>
  }

  // ----- halting -----

  function LogOf(log: seq<Record>, session: string): seq<Record> {
    if log == [] then []
    else
      var n := |log| - 1;
      LogOf(log[..n], session) + if log[n].session == session then [log[n]] else []
  }

  ghost predicate AppendsFor(s: Surface, s': Surface, session: string) {
    && s'.halted == s.halted && s'.alerts == s.alerts
    && (s'.log == s.log || exists r: Record :: r.session == session && s'.log == s.log + [r])
  }

  lemma GenerateAppends(rules: Rules, s: Surface, a: Asker, file: CaseFile, guard: GuardClass, env: Env)
    ensures AppendsFor(s, Generate(rules, s, a, file, guard, env).0, a.session)
  {
  }

  lemma GatedAppends(rules: Rules, s: Surface, a: Asker, guard: GuardClass, env: Env)
    ensures AppendsFor(s, Gated(rules, s, a, guard, env).0, a.session)
  {
    if env.caseFile.Ok? { GenerateAppends(rules, s, a, env.caseFile.value, guard, env); }
  }

  /** One question appends at most one record, for its own session, and none to a halted session. */
  lemma AskAppends(rules: Rules, s: Surface, a: Asker, env: Env)
    ensures AppendsFor(s, Ask(rules, s, a, env).0, a.session)
    ensures a.session in s.halted ==> Ask(rules, s, a, env).0.log == s.log
  {
    var scanned := Scanned(s, a, env);
    GatedAppends(rules, scanned, a, GuardFor(env), env);
  }

  lemma HaltedStep(rules: Rules, s: Surface, r: Request, session: string)
    requires session in s.halted && r != Clear(session)
    ensures var s' := Step(rules, s, r).0;
      session in s'.halted && LogOf(s'.log, session) == LogOf(s.log, session)
  {
    if r.Question? {
      AskAppends(rules, s, r.a, r.env);
      var s' := Ask(rules, s, r.a, r.env).0;
      if s'.log != s.log {
        var rec: Record :| rec.session == r.a.session && s'.log == s.log + [rec];
        assert s'.log[..|s.log|] == s.log;
      }
    }
  }

  lemma {:induction false} HaltedUntilCleared(rules: Rules, s: Surface, rs: seq<Request>, session: string)
    requires session in s.halted && Clear(session) !in rs
    ensures session in Serve(rules, s, rs).halted
    ensures LogOf(Serve(rules, s, rs).log, session) == LogOf(s.log, session)
    decreases |rs|
  {
    if rs != [] {
      HaltedStep(rules, s, rs[0], session);
      HaltedUntilCleared(rules, Step(rules, s, rs[0]).0, rs[1..], session);
    }
  }

  /** The request's serialised payload reaches the boundary for this session, and fails there. */
  predicate FailsBoundary(rules: Rules, s: Surface, r: Request, session: string) {
    match r
    case Question(a, env, wire) =>
      a.session == session && Ask(rules, s, a, env).1.Served? && CheckPayload(wire).Some?
    case Status(of, user, wire) => of == session && Visible(s.log, of, user) && CheckPayload(wire).Some?
    case Clear(_) => false
  }

  /** From the request whose payload failed the check until the session is cleared, the session stays
      halted and no further interaction is recorded for it. */
  lemma FailureSilencesSession(rules: Rules, s: Surface, failing: Request, rs: seq<Request>, session: string)
    requires FailsBoundary(rules, s, failing, session) && Clear(session) !in rs
    ensures var s1 := Step(rules, s, failing).0;
      && session in Serve(rules, s1, rs).halted
      && LogOf(Serve(rules, s1, rs).log, session) == LogOf(s1.log, session)
  {
    HaltedUntilCleared(rules, Step(rules, s, failing).0, rs, session);
  }

  // ----- citations -----

  /** The request verified access, loaded a genuine case file, and that file holds all the facts. */
  ghost predicate Loaded(r: Request, rec: Record) {
    && r.Question? && r.a.session == rec.session && r.a.user == rec.user
    && r.env.access == Ok(true) && r.env.context.Ok? && r.env.context.value.caseLinked
    && r.env.caseFile.Ok? && r.env.caseFile.value.fromPrepAgent && r.env.caseFile.value.id == rec.caseFile
    && forall f | f in rec.facts :: f in r.env.caseFile.value.facts
  }

  ghost predicate Justified(r: Request, rec: Record) {
    if rec.mode == GeneralFallback then rec.facts == [] else Loaded(r, rec)
  }

  lemma RedirectCites(s: Surface, a: Asker, file: CaseFile, env: Env)
    ensures var s' := Redirect(s, a, file, env).0;
      && |s'.log| == |s.log| + 1 && s'.log[|s.log|].mode == CaseLinkedMode && s'.log[|s.log|].caseFile == file.id
      && s'.log[|s.log|].session == a.session && s'.log[|s.log|].user == a.user
      && forall f | f in s'.log[|s.log|].facts :: f in file.facts
  {
  }

  lemma GenerateCites(rules: Rules, s: Surface, a: Asker, file: CaseFile, guard: GuardClass, env: Env)
    ensures var s' := Generate(rules, s, a, file, guard, env).0;
      |s'.log| > |s.log| ==>
        && |s'.log| == |s.log| + 1 && s'.log[|s.log|].mode == CaseLinkedMode && s'.log[|s.log|].caseFile == file.id
        && s'.log[|s.log|].session == a.session && s'.log[|s.log|].user == a.user
        && forall f | f in s'.log[|s.log|].facts :: f in file.facts
  {
    if env.generation.Ok? && env.generation.value.content.Some? {
      var g := env.generation.value;
      CitedAreKnown(rules.strip(g.content.value), g.claimed, file);
      RedirectCites(s, a, file, env);
    }
  }

  lemma CitedAreKnown(content: string, claimed: seq<string>, file: CaseFile)
    ensures UnresolvedIds(content, claimed, file.FactIds()) == [] ==>
              forall f | f in Distinct(Scan(content) + claimed) :: f in file.facts
  {
    RejectedIff(content, claimed, file.FactIds());
    var all := Scan(content) + claimed;
    if UnresolvedIds(content, claimed, file.FactIds()) == [] {
      forall f | f in Distinct(all) ensures f in file.facts {
        assert f in Elements(Distinct(all)) && f in Elements(all);
        assert f in file.FactIds();
      }
    }
  }

  lemma AskCites(rules: Rules, s: Surface, a: Asker, env: Env, wire: Payload)
    ensures var s' := Ask(rules, s, a, env).0;
      |s'.log| > |s.log| ==> Justified(Question(a, env, wire), s'.log[|s.log|])
  {
    if env.caseFile.Ok? {
      GenerateCites(rules, s, a, env.caseFile.value, GuardFor(env), env);
      RedirectCites(s, a, env.caseFile.value, env);
    }
  }

  lemma StepCites(rules: Rules, s: Surface, r: Request)
    ensures var s' := Step(rules, s, r).0;
      s'.log == s.log || exists rec :: s'.log == s.log + [rec] && Justified(r, rec)
  {
    if r.Question? {
      AskAppends(rules, s, r.a, r.env);
      AskCites(rules, s, r.a, r.env, r.wire);
      var s' := Ask(rules, s, r.a, r.env).0;
      if s'.log != s.log {
        var rec: Record :| rec.session == r.a.session && s'.log == s.log + [rec];
        assert s'.log[|s.log|] == rec;
      }
    }
  }

  /** Over every run, each record is justified by a request of the run: a case-linked record cites
      only facts of the case file that request was granted and loaded, a general one cites none. */
  lemma {:induction false} EveryCitationWasLoaded(rules: Rules, s: Surface, rs: seq<Request>, k: nat)
    requires |s.log| <= k < |Serve(rules, s, rs).log|
    ensures exists i | 0 <= i < |rs| :: Justified(rs[i], Serve(rules, s, rs).log[k])
    decreases |rs|
  {
    if rs != [] {
      var s1 := Step(rules, s, rs[0]).0;
      StepCites(rules, s, rs[0]);
      LogGrows(rules, s1, rs[1..]);
      if k < |s1.log| {
        assert Serve(rules, s, rs).log[k] == s1.log[k];
        assert Justified(rs[0], s1.log[k]);
      } else {
        EveryCitationWasLoaded(rules, s1, rs[1..], k);
        var i :| 0 <= i < |rs[1..]| && Justified(rs[1..][i], Serve(rules, s1, rs[1..]).log[k]);
        assert rs[i + 1] == rs[1..][i];
      }
    }
  }

  lemma {:induction false} LogGrows(rules: Rules, s: Surface, rs: seq<Request>)
    ensures s.log <= Serve(rules, s, rs).log
    decreases |rs|
  {
    if rs != [] {
      StepCites(rules, s, rs[0]);
      LogGrows(rules, Step(rules, s, rs[0]).0, rs[1..]);
    }
  }

  // ----- what may reach the learner -----

  /** The context was confirmed, is for this case or names none, and access was granted. */
  predicate Cleared(a: Asker, env: Env) {
    && env.context.Ok? && env.context.value.caseLinked
    && (env.context.value.caseFile == "" || env.context.value.caseFile == a.caseFile)
    && env.access == Ok(true)
  }

  /** The case file is read only behind every gate: unless they are cleared, no case file and no
      case-linked generation can change what is answered or recorded. */
  lemma CaseContentNeedsAccess(rules: Rules, s: Surface, a: Asker, env: Env, file: Result<CaseFile, ProviderError>,
                               generation: Result<Generation, ProviderError>)
    requires a.session in s.halted || !Cleared(a, env)
    ensures Ask(rules, s, a, env.(caseFile := file, generation := generation)) == Ask(rules, s, a, env)
  {
  }

  ghost predicate Clean(r: Response, rules: Rules, env: Env) {
    match r
    case CaseLinked(_, _, content, cited, guarded) =>
      if guarded then content == env.redirectText
      else MarkerFree(content) && !rules.predicts(content)
           && env.caseFile.Ok? && forall f | f in cited :: f in env.caseFile.value.facts
    case GeneralTopic(_, _, content, _) =>
      content == env.redirectText || content == env.libraryText || (MarkerFree(content) && !rules.predicts(content))
    case SafeError(_, _, _) => true
  }

  lemma GeneratedIsClean(rules: Rules, s: Surface, a: Asker, file: CaseFile, guard: GuardClass, env: Env)
    requires env.caseFile == Ok(file)
    ensures var o := Generate(rules, s, a, file, guard, env).1; o.Served? && Clean(o.response, rules, env)
  {
    if env.generation.Ok? && env.generation.value.content.Some? {
      var g := env.generation.value;
      RenderingLeavesNoMarker(rules.strip(g.content.value));
      CitedAreKnown(rules.strip(g.content.value), g.claimed, file);
    }
  }

  lemma FallbackIsClean(rules: Rules, s: Surface, a: Asker, guard: GuardClass, env: Env, outcome: string)
    ensures var o := Fallback(rules, s, a, guard, env, outcome).1; o.Served? && Clean(o.response, rules, env)
  {
    var content := GeneralContent(rules, env);
    if Scan(content) == [] { NothingScanned(content); }
  }

  /** Generated text is shown only after every marker in it was resolved against the loaded file and
      rendered away; off the case-linked path a generated text with any marker is replaced. */
  lemma ShownTextIsClean(rules: Rules, s: Surface, a: Asker, env: Env)
    requires Ask(rules, s, a, env).1.Served?
    ensures Clean(Ask(rules, s, a, env).1.response, rules, env)
  {
    var scanned := Scanned(s, a, env);
    var guard := GuardFor(env);
    if env.caseFile.Ok? { GeneratedIsClean(rules, scanned, a, env.caseFile.value, guard, env); }
    FallbackIsClean(rules, scanned, a, guard, env, "degraded_context_unavailable");
    FallbackIsClean(rules, scanned, a, guard, env, "degraded_access_unverifiable");
    FallbackIsClean(rules, scanned, a, guard, env, "degraded_case_file_unreadable");
  }
}
