/** The case coaching service as it runs, gate by gate, against its stores and sinks. */
module CaseCoachingService {
  import opened Prelude
  import opened FactReferences
  import opened Emission
  import Text
  import opened CaseCoaching

  class InteractionRepository {
    var records: seq<Record>

    constructor ()
      ensures records == []
    {
      records := [];
    }

    method Append(r: Record)
      modifies this
      ensures records == old(records) + [r]
    {
      records := records + [r];
    }
  }

  /** At most one record was appended, for the asker's session. */
  ghost predicate AtMostOne(before: seq<Record>, after: seq<Record>, a: Asker) {
    after == before
    || (|after| == |before| + 1 && after[..|before|] == before
        && after[|before|].session == a.session && after[|before|].user == a.user)
  }

  /** Whatever was appended is a general record citing nothing. */
  ghost predicate NothingCaseLinked(before: seq<Record>, after: seq<Record>) {
    forall k | |before| <= k < |after| :: after[k].mode == GeneralFallback && after[k].facts == []
  }

  /** Whatever was appended names the file and cites only its facts. */
  ghost predicate CitesOnly(before: seq<Record>, after: seq<Record>, file: CaseFile) {
    forall k | |before| <= k < |after| ::
      after[k].mode == CaseLinkedMode && after[k].caseFile == file.id
      && forall f | f in after[k].facts :: f in file.facts
  }

  function General(a: Asker): Record {
    Record(a.session, a.user, a.caseFile, GeneralFallback, [])
  }

  class Service {
    const rules: Rules
    const halts: HaltRepository
    const interactions: InteractionRepository
    const security: SecurityIncidentSink
    const admin: AdminAlertSink
    const emitter: ResponseEmitter
    var audit: seq<Audit>

    ghost predicate Valid()
      reads this
    {
      emitter.halts == halts && emitter.admin == admin && emitter.security == security
    }

    ghost function Contents(): Surface
      reads this, halts, interactions, security, admin
    {
      Surface(halts.halted, interactions.records, audit, admin.alerts, security.incidents)
    }

    constructor (rules: Rules)
      ensures Valid() && this.rules == rules
      ensures Contents() == Surface({}, [], [], [], [])
      ensures fresh(halts) && fresh(interactions) && fresh(security) && fresh(admin)
    {
      this.rules := rules;
      var h := new HaltRepository();
      var s := new SecurityIncidentSink();
      var a := new AdminAlertSink();
      interactions := new InteractionRepository();
      halts, security, admin := h, s, a;
      emitter := new ResponseEmitter(h, a, s);
      audit := [];
    }

    method AuditEvent(a: Asker, caseFile: string, outcome: string)
      modifies this
      ensures Contents() == Note(old(Contents()), a, caseFile, outcome)
    {
      audit := audit + [Audit(outcome, a.session, a.user, caseFile)];
    }

    /** A halted session is told so and records nothing; otherwise at most one record is appended, and a
        case-linked one only behind cleared gates. */
    method Ask(a: Asker, env: Env) returns (o: Outcome)
      modifies this, interactions, security
      ensures a.session in halts.halted ==>
                && interactions.records == old(interactions.records)
                && o == Served(SafeError("session_halted", false, true), 409, a.caseFile)
      ensures AtMostOne(old(interactions.records), interactions.records, a)
      ensures !Cleared(a, env) ==> NothingCaseLinked(old(interactions.records), interactions.records)
      ensures (Contents(), o) == CaseCoaching.Ask(rules, old(Contents()), a, env)
    {
      if a.session in halts.halted {
        AuditEvent(a, a.caseFile, "session_halted");
        return Served(SafeError("session_halted", false, true), 409, a.caseFile);
      }
      if env.injection {
        security.Record(Incident(PromptSuppression, a.session, a.user, a.caseFile));
      }
      var guard := if env.classified.Ok? then env.classified.value else env.inProcess;
      o := PassGates(a, guard, env);
    }

    /** Context, mode, case and access, in that order, before any case content is read: without
        clearance no case-linked record and no case-linked answer, and an incident exactly when access
        was checked and denied. */
    method PassGates(a: Asker, guard: GuardClass, env: Env) returns (o: Outcome)
      modifies this, interactions, security
      ensures AtMostOne(old(interactions.records), interactions.records, a)
      ensures !Cleared(a, env) ==>
                && NothingCaseLinked(old(interactions.records), interactions.records)
                && !(o.Served? && o.response.CaseLinked?)
      ensures security.incidents
           == old(security.incidents)
              + if Cleared(a, env.(access := Ok(true))) && env.access == Ok(false)
                then [Incident(UnauthorisedCaseAccess, a.session, a.user, a.caseFile)] else []
      ensures (Contents(), o) == Gated(rules, old(Contents()), a, guard, env)
    {
      if env.context.Err? {
        o := FallBack(a, guard, env, "degraded_context_unavailable");
        return;
      }
      var context := env.context.value;
      if !context.caseLinked {
        AuditEvent(a, a.caseFile, "session_not_case_linked");
        return Served(SafeError("session_not_case_linked", false, false), 409, a.caseFile);
      }
      if context.caseFile != "" && context.caseFile != a.caseFile {
        AuditEvent(a, a.caseFile, "case_file_not_linked_to_session");
        return Served(SafeError("case_file_not_linked_to_session", false, false), 409, a.caseFile);
      }
      if env.access == Err(InvalidResponse) {
        return Raised;
      }
      if env.access.Err? {
        o := FallBack(a, guard, env, "degraded_access_unverifiable");
        return;
      }
      if !env.access.value {
        security.Record(Incident(UnauthorisedCaseAccess, a.session, a.user, a.caseFile));
        AuditEvent(a, a.caseFile, "access_denied");
        return Served(SafeError("case_access_denied", false, false), 403, a.caseFile);
      }
      o := ReadFile(a, guard, env);
    }

    /** An unreadable file is never quoted, a foreign one is refused unrecorded, and a case-linked
        record cites the genuine file alone. */
    method ReadFile(a: Asker, guard: GuardClass, env: Env) returns (o: Outcome)
      modifies this, interactions
      ensures AtMostOne(old(interactions.records), interactions.records, a)
      ensures env.caseFile.Err? ==>
                && interactions.records == old(interactions.records) + [General(a)]
                && o.Served? && o.response.GeneralTopic?
      ensures env.caseFile.Ok? && !env.caseFile.value.fromPrepAgent ==>
                interactions.records == old(interactions.records) && o.Served? && o.status == 409
      ensures env.caseFile.Ok? ==> CitesOnly(old(interactions.records), interactions.records, env.caseFile.value)
      ensures (Contents(), o) == WithFile(rules, old(Contents()), a, guard, env)
    {
      if env.caseFile.Err? {
        o := FallBack(a, guard, env, "degraded_case_file_unreadable");
        return;
      }
      var file := env.caseFile.value;
      if !file.fromPrepAgent {
        AuditEvent(a, a.caseFile, "origin_rejected");
        return Served(SafeError("case_origin_rejected", false, false), 409, a.caseFile);
      }
      if guard != NoGuard {
        o := Redirect(a, file, env);
      } else {
        o := Generate(a, file, guard, env);
      }
    }

    /** One general record citing nothing, and a text that was composed here or shows no marker and no
        prediction. */
    method FallBack(a: Asker, guard: GuardClass, env: Env, outcome: string) returns (o: Outcome)
      modifies this, interactions
      ensures interactions.records == old(interactions.records) + [General(a)]
      ensures o.Served? && o.status == 200 && o.response.GeneralTopic? && Clean(o.response, rules, env)
      ensures guard != NoGuard ==> o.response.content == env.redirectText
      ensures (Contents(), o) == Fallback(rules, old(Contents()), a, guard, env, outcome)
    {
      var content := if guard != NoGuard then env.redirectText else GeneralContent(rules, env);
      FallbackIsClean(rules, Contents(), a, guard, env, outcome);
      interactions.Append(Record(a.session, a.user, a.caseFile, GeneralFallback, []));
      AuditEvent(a, a.caseFile, outcome);
      o := Served(GeneralTopic(a.session, a.caseFile, content, guard != NoGuard), 200, a.caseFile);
    }

    /** One case-linked record citing the file's first facts, at most three, under a text composed here. */
    method Redirect(a: Asker, file: CaseFile, env: Env) returns (o: Outcome)
      modifies this, interactions
      ensures o.Served? && o.status == 200 && o.response.CaseLinked? && o.response.content == env.redirectText
      ensures |o.response.cited| <= 3 && o.response.cited <= file.facts
      ensures interactions.records
           == old(interactions.records) + [Record(a.session, a.user, file.id, CaseLinkedMode, o.response.cited)]
      ensures (Contents(), o) == CaseCoaching.Redirect(old(Contents()), a, file, env)
    {
      var cited := if |file.facts| > 3 then file.facts[..3] else file.facts;
      interactions.Append(Record(a.session, a.user, file.id, CaseLinkedMode, cited));
      AuditEvent(a, file.id, "guard_redirected");
      o := Served(CaseLinked(a.session, file.id, env.redirectText, cited, true), 200, file.id);
    }

    method GenerationFailed(a: Asker, file: CaseFile, code: string, retryable: bool, status: nat) returns (o: Outcome)
      modifies this
      ensures (Contents(), o) == Failed(old(Contents()), a, file, code, retryable, status)
    {
      AuditEvent(a, file.id, code);
      o := Served(SafeError(code, retryable, false), status, file.id);
    }

    /** Recorded exactly when answered; what is recorded cites the file alone, and what is shown carries
        no marker. */
    method Generate(a: Asker, file: CaseFile, guard: GuardClass, env: Env) returns (o: Outcome)
      modifies this, interactions
      ensures o.Served? && (interactions.records == old(interactions.records) <==> o.response.SafeError?)
      ensures AtMostOne(old(interactions.records), interactions.records, a)
      ensures CitesOnly(old(interactions.records), interactions.records, file)
      ensures o.response.CaseLinked? && !o.response.guarded ==> MarkerFree(o.response.content)
      ensures (Contents(), o) == CaseCoaching.Generate(rules, old(Contents()), a, file, guard, env)
    {
      if env.generation == Err(Timeout) {
        o := GenerationFailed(a, file, "generation_timeout", true, 504);
        return;
      }
      if env.generation == Err(Unavailable) {
        o := GenerationFailed(a, file, "generation_unavailable", true, 503);
        return;
      }
      if env.generation.Err? {
        o := GenerationFailed(a, file, "generation_invalid", false, 502);
        return;
      }
      var result := env.generation.value;
      if result.content.None? || Text.Strip(result.content.value) == "" {
        o := GenerationFailed(a, file, "generation_invalid", false, 502);
        return;
      }
      var content := rules.strip(result.content.value);
      var verified := VerifyAndRender(content, result.claimed, file.FactIds());
      CitedAreKnown(content, result.claimed, file);
      RenderingLeavesNoMarker(content);
      if verified.Err? {
        AuditEvent(a, file.id, "fabricated_fact_reference");
        return Served(SafeError("generation_invalid", false, false), 502, file.id);
      }
      if rules.predicts(verified.value.text) {
        o := Redirect(a, file, env);
        return;
      }
      interactions.Append(Record(a.session, a.user, file.id, CaseLinkedMode, verified.value.factIds));
      AuditEvent(a, file.id, "answered");
      o := Served(CaseLinked(a.session, file.id, verified.value.text, verified.value.factIds, false), 200, file.id);
    }

    /** The question endpoint: serve, then emit what the serializer made of the response. */
    method HandleQuestion(a: Asker, env: Env, wire: Payload) returns (body: Payload)
      requires Valid()
      modifies this, interactions, security, halts, admin
      ensures Valid() && CheckPayload(body).None?
      ensures (Contents(), Some(body)) == Step(rules, old(Contents()), Question(a, env, wire))
    {
      var o := Ask(a, env);
      if o.Raised? {
        body := ToPayload(SAFE_BODY);
        HonestPayloadPasses(SAFE_BODY);
        return;
      }
      var code: nat;
      body, code := emitter.Emit(wire, a.session, a.user, o.caseFile, o.status);
    }

    /** The status endpoint: somebody else's session is refused, everything else goes through the emitter. */
    method HandleStatus(session: string, user: string, wire: Payload) returns (body: Payload)
      requires Valid()
      modifies security, halts, admin
      ensures Valid() && CheckPayload(body).None?
      ensures (Contents(), Some(body)) == Step(rules, old(Contents()), Status(session, user, wire))
    {
      if !Visible(interactions.records, session, user) {
        body := ToPayload(SAFE_BODY);
        HonestPayloadPasses(SAFE_BODY);
        return;
      }
      var code: nat;
      body, code := emitter.Emit(wire, session, user, "", 200);
    }
  }
}
