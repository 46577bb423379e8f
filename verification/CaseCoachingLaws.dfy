/**
 When a question gets a case-linked answer, a general one, a redirect or a refusal, and what is noted of
 it, said of the session and of what the ports answered.
 */
module CaseCoachingLaws {
  import opened Prelude
  import opened Ordering
  import opened FactReferences
  import opened Emission
  import opened CaseCoaching
  import Text

  /** The classifier, or the in-process rules when it fails, recognises a guarded question. */
  predicate Guarded(env: Env) {
    if env.classified.Ok? then env.classified.value != NoGuard else env.inProcess != NoGuard
  }

  /** The session is confirmed to be case-linked, to this case or to none in particular. */
  predicate Linked(a: Asker, env: Env) {
    && env.context.Ok? && env.context.value.caseLinked
    && (env.context.value.caseFile == "" || env.context.value.caseFile == a.caseFile)
  }

  /** Access was granted and a genuine file was read. */
  predicate FileRead(a: Asker, env: Env) {
    Linked(a, env) && env.access == Ok(true) && env.caseFile.Ok? && env.caseFile.value.fromPrepAgent
  }

  /** The generator wrote something all of whose references are facts of the file. */
  ghost predicate Usable(rules: Rules, env: Env) {
    && env.caseFile.Ok? && env.generation.Ok? && env.generation.value.content.Some?
    && Text.Strip(env.generation.value.content.value) != ""
    && (forall id | id in Scan(rules.strip(env.generation.value.content.value)) || id in env.generation.value.claimed ::
          id in env.caseFile.value.facts)
  }

  /** Without a confirmed session, a decision on access, or a file, only general coaching is possible. */
  predicate Degraded(a: Asker, env: Env) {
    || env.context.Err?
    || (Linked(a, env) && (env.access == Err(Unavailable) || env.access == Err(Timeout)))
    || (Linked(a, env) && env.access == Ok(true) && env.caseFile.Err?)
  }

  // ----- guarded questions -----

  /** What generators write has no influence on a guarded question, on its answer or on any store. */
  lemma GuardedIgnoresGeneration(
    rules: Rules, s: Surface, a: Asker, env: Env, generation: Result<Generation, ProviderError>,
    general: Result<Generation, ProviderError>)
    requires Guarded(env)
    ensures Ask(rules, s, a, env.(generation := generation, general := general)) == Ask(rules, s, a, env)
  {
  }

  /** Whatever content a guarded question is served is the composed redirect. */
  lemma GuardedIsRedirected(rules: Rules, s: Surface, a: Asker, env: Env)
    requires Guarded(env) && Ask(rules, s, a, env).1.Served?
    ensures var r := Ask(rules, s, a, env).1.response;
      !r.SafeError? ==> r.guarded && r.content == env.redirectText
  {
  }

  lemma KnownIff(file: CaseFile, content: string, claimed: seq<string>)
    ensures UnresolvedIds(content, claimed, file.FactIds()) == []
       <==> forall id | id in Scan(content) || id in claimed :: id in file.facts
  {
    RejectedIff(content, claimed, file.FactIds());
  }

  /** A generated answer is redirected, verbatim but for its references, or refused. */
  lemma Generated(rules: Rules, s: Surface, a: Asker, file: CaseFile, guard: GuardClass, env: Env)
    requires env.caseFile == Ok(file)
    ensures var o := Generate(rules, s, a, file, guard, env).1;
      && o.Served? && o.caseFile == file.id
      && (o.response.CaseLinked? <==> Usable(rules, env)) && (!o.response.CaseLinked? ==> o.response.SafeError?)
      && (o.response.CaseLinked? ==>
            var g := env.generation.value;
            var text := Rendered(rules.strip(g.content.value));
            && o.status == 200 && o.response.caseFile == file.id && o.response.session == a.session
            && (o.response.guarded <==> rules.predicts(text))
            && (o.response.guarded ==> o.response.content == env.redirectText)
            && (!o.response.guarded ==>
                  && o.response.content == text
                  && o.response.cited == Distinct(Scan(rules.strip(g.content.value)) + g.claimed)))
  {
    if env.generation.Ok? && env.generation.value.content.Some? {
      KnownIff(file, rules.strip(env.generation.value.content.value), env.generation.value.claimed);
    }
  }

  /** How a failed generation is reported. */
  lemma GenerationErrors(rules: Rules, s: Surface, a: Asker, file: CaseFile, guard: GuardClass, env: Env)
    requires env.caseFile == Ok(file) && !Usable(rules, env)
    ensures var o := Generate(rules, s, a, file, guard, env).1;
      o == (if env.generation == Err(Timeout) then Served(SafeError("generation_timeout", true, false), 504, file.id)
            else if env.generation == Err(Unavailable) then
              Served(SafeError("generation_unavailable", true, false), 503, file.id)
            else Served(SafeError("generation_invalid", false, false), 502, file.id))
  {
    if env.generation.Ok? && env.generation.value.content.Some? {
      KnownIff(file, rules.strip(env.generation.value.content.value), env.generation.value.claimed);
    }
  }

  // ----- which answer -----

  lemma WithFileAnswers(rules: Rules, s: Surface, a: Asker, env: Env)
    ensures var o := WithFile(rules, s, a, GuardFor(env), env).1;
      && o.Served?
      && (o.response.CaseLinked? <==>
            env.caseFile.Ok? && env.caseFile.value.fromPrepAgent && (Guarded(env) || Usable(rules, env)))
      && (o.response.GeneralTopic? <==> env.caseFile.Err?)
      && (!o.response.SafeError? ==> o.status == 200)
      && (env.caseFile.Ok? && !env.caseFile.value.fromPrepAgent ==>
            o == Served(SafeError("case_origin_rejected", false, false), 409, a.caseFile))
  {
    if env.caseFile.Ok? { Generated(rules, s, a, env.caseFile.value, GuardFor(env), env); }
  }

  lemma GatedAnswers(rules: Rules, s: Surface, a: Asker, env: Env)
    ensures var o := Gated(rules, s, a, GuardFor(env), env).1;
      && (o.Raised? <==> Linked(a, env) && env.access == Err(InvalidResponse))
      && (o.Served? ==>
            && (o.response.CaseLinked? <==> FileRead(a, env) && (Guarded(env) || Usable(rules, env)))
            && (o.response.GeneralTopic? <==> Degraded(a, env))
            && (!o.response.SafeError? ==> o.status == 200))
  {
    WithFileAnswers(rules, s, a, env);
  }

  /** Which questions get a case-linked answer, which a general one, and which none at all. */
  lemma AnswersIff(rules: Rules, s: Surface, a: Asker, env: Env)
    ensures var o, open := Ask(rules, s, a, env).1, a.session !in s.halted;
      && (o.Raised? <==> open && Linked(a, env) && env.access == Err(InvalidResponse))
      && (o.Served? && o.response.CaseLinked? <==> open && FileRead(a, env) && (Guarded(env) || Usable(rules, env)))
      && (o.Served? && o.response.GeneralTopic? <==> open && Degraded(a, env))
      && (o.Served? && !o.response.SafeError? ==> o.status == 200)
  {
    GatedAnswers(rules, Scanned(s, a, env), a, env);
  }

  /** Why a question is refused before any file is used. */
  lemma Refusals(rules: Rules, s: Surface, a: Asker, env: Env)
    ensures var o := Ask(rules, s, a, env).1;
      && (a.session in s.halted ==> o == Served(SafeError("session_halted", false, true), 409, a.caseFile))
      && (a.session !in s.halted ==>
            && (env.context.Ok? && !env.context.value.caseLinked ==>
                  o == Served(SafeError("session_not_case_linked", false, false), 409, a.caseFile))
            && (env.context.Ok? && env.context.value.caseLinked && !Linked(a, env) ==>
                  o == Served(SafeError("case_file_not_linked_to_session", false, false), 409, a.caseFile))
            && (Linked(a, env) && env.access == Ok(false) ==>
                  o == Served(SafeError("case_access_denied", false, false), 403, a.caseFile))
            && (Linked(a, env) && env.access == Ok(true) && env.caseFile.Ok? && !env.caseFile.value.fromPrepAgent ==>
                  o == Served(SafeError("case_origin_rejected", false, false), 409, a.caseFile)))
  {
  }

  /** A case-linked answer that is not guarded shows the generated text; one to an unguarded question is a
      redirect exactly when the generated text predicts. */
  lemma CaseLinkedContent(rules: Rules, s: Surface, a: Asker, env: Env)
    requires Ask(rules, s, a, env).1.Served? && Ask(rules, s, a, env).1.response.CaseLinked? && !Guarded(env)
    ensures Usable(rules, env)
    ensures var r, g := Ask(rules, s, a, env).1.response, env.generation.value;
      var text := Rendered(rules.strip(g.content.value));
      && (r.guarded <==> rules.predicts(text))
      && r.content == (if rules.predicts(text) then env.redirectText else text)
      && (!r.guarded ==> r.cited == Distinct(Scan(rules.strip(g.content.value)) + g.claimed))
  {
    AnswersIff(rules, s, a, env);
    Generated(rules, Scanned(s, a, env), a, env.caseFile.value, GuardFor(env), env);
  }

  /** General coaching on an unguarded question shows what was generated exactly when that holds something,
      mentions no fact and predicts nothing; otherwise the library's text. */
  lemma GeneralContentIs(rules: Rules, s: Surface, a: Asker, env: Env)
    requires Ask(rules, s, a, env).1.Served? && Ask(rules, s, a, env).1.response.GeneralTopic? && !Guarded(env)
    ensures var r := Ask(rules, s, a, env).1.response;
      && !r.guarded
      && r.content
         == if env.general.Ok? && env.general.value.content.Some?
               && var text := rules.strip(env.general.value.content.value);
                  MarkerFree(text) && Text.Strip(text) != "" && !rules.predicts(text)
            then rules.strip(env.general.value.content.value) else env.libraryText
  {
    if env.general.Ok? && env.general.value.content.Some? {
      var text := rules.strip(env.general.value.content.value);
      if Scan(text) == [] { NothingScanned(text); }
      if MarkerFree(text) { MarkerFreeIsFixed(text); }
    }
  }

  // ----- what is noted -----

  /** What the record of an answer says. */
  function RecordOf(a: Asker, r: Response): Record
    requires !r.SafeError?
  {
    if r.CaseLinked? then Record(a.session, a.user, r.caseFile, CaseLinkedMode, r.cited)
    else Record(a.session, a.user, r.caseFile, GeneralFallback, [])
  }

  /** What the audit entry of a response calls it. */
  predicate AuditedAs(outcome: string, r: Response) {
    match r
    case CaseLinked(_, _, _, _, guarded) => outcome == if guarded then "guard_redirected" else "answered"
    case GeneralTopic(_, _, _, _) => "degraded_" <= outcome
    case SafeError(code, _, _) =>
      if code == "case_access_denied" then outcome == "access_denied"
      else if code == "case_origin_rejected" then outcome == "origin_rejected"
      else outcome == code || (code == "generation_invalid" && outcome == "fabricated_fact_reference")
  }

  /** Exactly the answers are recorded, and everything served leaves one audit entry, on its session. */
  ghost predicate Accounted(before: Surface, after: Surface, a: Asker, o: Outcome) {
    && (o.Raised? ==> after.log == before.log && after.audit == before.audit)
    && (o.Served? ==>
          && after.log == (if o.response.SafeError? then before.log else before.log + [RecordOf(a, o.response)])
          && exists outcome :: AuditedAs(outcome, o.response)
                               && after.audit == before.audit + [Audit(outcome, a.session, a.user, o.caseFile)])
  }

  lemma NoteAccounts(s: Surface, logged: Surface, a: Asker, o: Outcome, outcome: string)
    requires o.Served? && AuditedAs(outcome, o.response)
    requires logged == (if o.response.SafeError? then s else s.(log := s.log + [RecordOf(a, o.response)]))
    ensures var s' := Note(logged, a, o.caseFile, outcome); Accounted(s, s', a, o) && s'.incidents == s.incidents
  {
  }

  lemma RedirectAccounts(s: Surface, a: Asker, file: CaseFile, env: Env)
    ensures var (s', o) := Redirect(s, a, file, env);
      && Accounted(s, s', a, o) && s'.incidents == s.incidents
      && o.Served? && o.response.CaseLinked? && o.response.guarded && o.response.caseFile == file.id
      && o.response.cited <= file.facts && |o.response.cited| == (if |file.facts| < 3 then |file.facts| else 3)
  {
    var o := Redirect(s, a, file, env).1;
    NoteAccounts(s, s.(log := s.log + [RecordOf(a, o.response)]), a, o, "guard_redirected");
  }

  lemma FailedAccounts(s: Surface, a: Asker, file: CaseFile, code: string, retryable: bool, status: nat)
    requires AuditedAs(code, SafeError(code, retryable, false))
    ensures var (s', o) := Failed(s, a, file, code, retryable, status);
      Accounted(s, s', a, o) && s'.incidents == s.incidents
  {
    NoteAccounts(s, s, a, Failed(s, a, file, code, retryable, status).1, code);
  }

  lemma FailuresAccount(s: Surface, a: Asker, file: CaseFile)
    ensures var (s', o) := Failed(s, a, file, "generation_timeout", true, 504);
      Accounted(s, s', a, o) && s'.incidents == s.incidents
    ensures var (s', o) := Failed(s, a, file, "generation_unavailable", true, 503);
      Accounted(s, s', a, o) && s'.incidents == s.incidents
    ensures var (s', o) := Failed(s, a, file, "generation_invalid", false, 502);
      Accounted(s, s', a, o) && s'.incidents == s.incidents
  {
    FailedAccounts(s, a, file, "generation_timeout", true, 504);
    FailedAccounts(s, a, file, "generation_unavailable", true, 503);
    FailedAccounts(s, a, file, "generation_invalid", false, 502);
  }

  lemma GenerateAccounts(rules: Rules, s: Surface, a: Asker, file: CaseFile, guard: GuardClass, env: Env)
    ensures var (s', o) := Generate(rules, s, a, file, guard, env);
      Accounted(s, s', a, o) && s'.incidents == s.incidents
  {
    FailuresAccount(s, a, file);
    RedirectAccounts(s, a, file, env);
    var o := Generate(rules, s, a, file, guard, env).1;
    if o.response.CaseLinked? {
      var outcome := if o.response.guarded then "guard_redirected" else "answered";
      NoteAccounts(s, s.(log := s.log + [RecordOf(a, o.response)]), a, o, outcome);
    } else {
      var code := o.response.code;
      NoteAccounts(s, s, a, o, if code == "generation_invalid" then "fabricated_fact_reference" else code);
    }
  }

  lemma FallbackAccounts(rules: Rules, s: Surface, a: Asker, guard: GuardClass, env: Env, outcome: string)
    requires "degraded_" <= outcome
    ensures var (s', o) := Fallback(rules, s, a, guard, env, outcome);
      Accounted(s, s', a, o) && s'.incidents == s.incidents
  {
    var o := Fallback(rules, s, a, guard, env, outcome).1;
    NoteAccounts(s, s.(log := s.log + [RecordOf(a, o.response)]), a, o, outcome);
  }

  lemma RefuseAccounts(s: Surface, a: Asker, outcome: string, code: string, status: nat)
    requires AuditedAs(outcome, SafeError(code, false, false))
    ensures var (s', o) := Refuse(s, a, outcome, code, status);
      Accounted(s, s', a, o) && s'.incidents == s.incidents
  {
    NoteAccounts(s, s, a, Refuse(s, a, outcome, code, status).1, outcome);
  }

  lemma WithFileAccounts(rules: Rules, s: Surface, a: Asker, guard: GuardClass, env: Env)
    ensures var (s', o) := WithFile(rules, s, a, guard, env);
      Accounted(s, s', a, o) && s'.incidents == s.incidents
  {
    match env.caseFile
    case Err(_) => FallbackAccounts(rules, s, a, guard, env, "degraded_case_file_unreadable");
    case Ok(file) =>
      RefuseAccounts(s, a, "origin_rejected", "case_origin_rejected", 409);
      RedirectAccounts(s, a, file, env);
      GenerateAccounts(rules, s, a, file, guard, env);
  }

  lemma RefusalsAccount(s: Surface, a: Asker)
    ensures var (s', o) := Refuse(s, a, "session_not_case_linked", "session_not_case_linked", 409);
      Accounted(s, s', a, o) && s'.incidents == s.incidents
    ensures var (s', o) := Refuse(s, a, "case_file_not_linked_to_session", "case_file_not_linked_to_session", 409);
      Accounted(s, s', a, o) && s'.incidents == s.incidents
    ensures var (s', o) := Refuse(s, a, "access_denied", "case_access_denied", 403);
      Accounted(s, s', a, o) && s'.incidents == s.incidents
  {
    RefuseAccounts(s, a, "session_not_case_linked", "session_not_case_linked", 409);
    RefuseAccounts(s, a, "case_file_not_linked_to_session", "case_file_not_linked_to_session", 409);
    RefuseAccounts(s, a, "access_denied", "case_access_denied", 403);
  }

  /** A denied access is an incident, and no other decision on a question is. */
  lemma GatedAccounts(rules: Rules, s: Surface, a: Asker, guard: GuardClass, env: Env)
    ensures var (s', o) := Gated(rules, s, a, guard, env);
      && Accounted(s, s', a, o)
      && s'.incidents == if Linked(a, env) && env.access == Ok(false)
                         then s.incidents + [Incident(UnauthorisedCaseAccess, a.session, a.user, a.caseFile)]
                         else s.incidents
  {
    FallbackAccounts(rules, s, a, guard, env, "degraded_context_unavailable");
    FallbackAccounts(rules, s, a, guard, env, "degraded_access_unverifiable");
    var incident := Incident(UnauthorisedCaseAccess, a.session, a.user, a.caseFile);
    RefusalsAccount(s, a);
    RefusalsAccount(s.(incidents := s.incidents + [incident]), a);
    WithFileAccounts(rules, s, a, guard, env);
  }

  /** Exactly the answered questions are recorded, as answered, and every served one leaves one audit entry. */
  lemma AnswersAreRecorded(rules: Rules, s: Surface, a: Asker, env: Env)
    ensures var (s', o) := Ask(rules, s, a, env); Accounted(s, s', a, o)
  {
    GatedAccounts(rules, Scanned(s, a, env), a, GuardFor(env), env);
  }

  /** The incidents of a question: a suspected injection, a denied access, and nothing in a halted session. */
  lemma IncidentsIff(rules: Rules, s: Surface, a: Asker, env: Env)
    ensures var after, open := Ask(rules, s, a, env).0.incidents, a.session !in s.halted;
      var injection := Incident(PromptSuppression, a.session, a.user, a.caseFile);
      var denied := Incident(UnauthorisedCaseAccess, a.session, a.user, a.caseFile);
      var first := if open && env.injection then s.incidents + [injection] else s.incidents;
      after == if open && Linked(a, env) && env.access == Ok(false) then first + [denied] else first
  {
    GatedAccounts(rules, Scanned(s, a, env), a, GuardFor(env), env);
  }

  /** A guarded question cites the first facts of its file, three at most. */
  lemma GuardedCites(rules: Rules, s: Surface, a: Asker, env: Env)
    requires Guarded(env) && Ask(rules, s, a, env).1.Served? && Ask(rules, s, a, env).1.response.CaseLinked?
    ensures env.caseFile.Ok?
    ensures var cited, facts := Ask(rules, s, a, env).1.response.cited, env.caseFile.value.facts;
      cited <= facts && |cited| == if |facts| < 3 then |facts| else 3
  {
    AnswersIff(rules, s, a, env);
    RedirectAccounts(Scanned(s, a, env), a, env.caseFile.value, env);
  }

  /** Why only general coaching is possible: the first gate that could not decide. */
  function Cause(a: Asker, env: Env): string {
    if env.context.Err? then "degraded_context_unavailable"
    else if env.access.Err? then "degraded_access_unverifiable"
    else "degraded_case_file_unreadable"
  }

  lemma FallbackEntry(rules: Rules, s: Surface, a: Asker, guard: GuardClass, env: Env, outcome: string)
    ensures Fallback(rules, s, a, guard, env, outcome).0.audit
         == s.audit + [Audit(outcome, a.session, a.user, a.caseFile)]
  {
  }

  lemma GatedCause(rules: Rules, s: Surface, a: Asker, guard: GuardClass, env: Env)
    requires Degraded(a, env)
    ensures Gated(rules, s, a, guard, env).0.audit
         == s.audit + [Audit(Cause(a, env), a.session, a.user, a.caseFile)]
  {
    FallbackEntry(rules, s, a, guard, env, Cause(a, env));
  }

  /** General coaching is audited with its cause. */
  lemma GeneralIsAudited(rules: Rules, s: Surface, a: Asker, env: Env)
    requires a.session !in s.halted && Degraded(a, env)
    ensures Ask(rules, s, a, env).0.audit == s.audit + [Audit(Cause(a, env), a.session, a.user, a.caseFile)]
  {
    GatedCause(rules, Scanned(s, a, env), a, GuardFor(env), env);
  }

  // ----- the surface -----

  /** A status is withheld exactly when the session has records and none of them is the user's. */
  predicate Withheld(log: seq<Record>, session: string, user: string) {
    && (exists i | 0 <= i < |log| :: log[i].session == session)
    && forall i | 0 <= i < |log| :: log[i].session == session ==> log[i].user != user
  }

  /** What a status request changes and returns. */
  lemma StatusIff(rules: Rules, s: Surface, session: string, user: string, wire: Payload)
    ensures var (s', body) := Step(rules, s, Status(session, user, wire));
      && (Withheld(s.log, session, user) ==> s' == s && body == Some(ToPayload(SAFE_BODY)))
      && (!Withheld(s.log, session, user) && CheckPayload(wire).None? ==> s' == s && body == Some(wire))
      && (!Withheld(s.log, session, user) && CheckPayload(wire).Some? ==>
            Reported(s, s', CheckPayload(wire).value, session, user, ""))
  {
    VisibleIff(s.log, session, user);
  }

  lemma VisibleIff(log: seq<Record>, session: string, user: string)
    ensures Visible(log, session, user) <==> !Withheld(log, session, user)
  {
  }

  /** A failed boundary check halts the session and tells of it once in each channel. */
  predicate Reported(before: Surface, after: Surface, f: Failure, session: string, user: string, caseFile: string) {
    && after.log == before.log && after.audit == before.audit
    && after.halted == before.halted + {session}
    && after.alerts == before.alerts + [Alert(f.reason, session, user, caseFile)]
    && after.incidents
       == before.incidents
          + [Incident(if f.observedPresent then InternalDisclaimerAltered else InternalDisclaimerAbsent,
                      session, user, caseFile)]
  }

  /** What becomes of the payload of a question. */
  lemma QuestionIs(rules: Rules, s: Surface, a: Asker, env: Env, wire: Payload)
    ensures var (asked, o) := Ask(rules, s, a, env);
      var (s', body) := Step(rules, s, Question(a, env, wire));
      && (o.Raised? ==> s' == asked && body == Some(ToPayload(SAFE_BODY)))
      && (o.Served? && CheckPayload(wire).None? ==> s' == asked && body == Some(wire))
      && (o.Served? && CheckPayload(wire).Some? ==>
            Reported(asked, s', CheckPayload(wire).value, a.session, a.user, o.caseFile)
            && body == Some(ToPayload(SAFE_BODY)))
  {
  }

  /** Clearing lifts one halt and does nothing else. */
  lemma ClearIs(rules: Rules, s: Surface, session: string)
    ensures var (s', body) := Step(rules, s, Clear(session));
      && body == None && s'.log == s.log && s'.audit == s.audit && s'.alerts == s.alerts
      && s'.incidents == s.incidents && forall k :: k in s'.halted <==> k in s.halted && k != session
  {
  }

  // ----- the notions used of runs -----

  /** Clearance is a session linked to the case and access granted. */
  lemma ClearedIff(a: Asker, env: Env)
    ensures Cleared(a, env) <==> Linked(a, env) && env.access == Ok(true)
  {
  }

  /** A session's log holds its records and no others, as often as they were made. */
  lemma {:induction false} LogOfHolds(log: seq<Record>, session: string, r: Record)
    ensures multiset(LogOf(log, session))[r] == if r.session == session then multiset(log)[r] else 0
  {
    if log != [] {
      var n := |log| - 1;
      assert log == log[..n] + [log[n]];
      LogOfHolds(log[..n], session, r);
    }
  }
}
