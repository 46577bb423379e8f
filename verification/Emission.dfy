/**
 The disclaimer boundary and fail-closed emission (packages/uc06/uc06/application/boundary.py and
 emitter.py, packages/uc06/uc06/domain/responses.py and disclaimer.py).
 */
module Emission {
  import opened Prelude
  import Text

  const CANONICAL :=
    "This response is provided for educational and training purposes only. "
    + "It does not constitute legal advice. Always consult a qualified legal "
    + "professional before acting on any legal matter."

  const SHORTENED :=
    "This response is provided for educational and training purposes only. "
    + "It does not constitute legal advice."

  const FIELD := "disclaimer"

  const SUPPRESSION_KEYS: set<string> :=
    {"suppress_disclaimer", "skip_disclaimer", "no_disclaimer", "hide_disclaimer", "omit_disclaimer",
     "disclaimer_enabled", "disclaimer_disabled", "include_disclaimer", "disclaimer_override",
     "disclaimer_suppressed", "disclaimers"}

  /** A serialised field: text, or anything that is not a string. */
  datatype Value = Str(text: string) | Other

  type Payload = map<string, Value>

  datatype Reason = SuppressionKey | Absent | WrongType | EmptyText | ShortenedVariant | Altered

  datatype Failure = Failure(reason: Reason, observedPresent: bool)

  /** Lower-casing as far as it can produce a plain key: besides the capitals, only the Kelvin sign
      becomes a plain letter; every other character outside ASCII stays outside ASCII. */
  function LowerChar(c: char): char {
    if 'A' <= c <= 'Z' then (c as int + 32) as char else if c == '\U{212A}' then 'k' else c
  }

  function LowerKey(key: string): string {
    if key == "" then "" else [LowerChar(key[0])] + LowerKey(key[1..])
  }

  /** The boundary check: `None` when the payload may be emitted. */
  function CheckPayload(p: Payload): Option<Failure> {
    if exists key | key in p :: LowerKey(key) in SUPPRESSION_KEYS then Some(Failure(SuppressionKey, true))
    else if FIELD !in p then Some(Failure(Absent, false))
    else match p[FIELD]
      case Other => Some(Failure(WrongType, false))
      case Str(value) =>
        if value == "" then Some(Failure(EmptyText, false))
        else if value == CANONICAL then None
        else if Text.Strip(value) == SHORTENED then Some(Failure(ShortenedVariant, true))
        else Some(Failure(Altered, true))
  }

  /** A payload passes exactly when it carries the canonical text, byte for byte, and no key that
      looks like an attempt to suppress it. */
  lemma PassesIff(p: Payload)
    ensures CheckPayload(p).None?
       <==> FIELD in p && p[FIELD] == Str(CANONICAL) && forall key | key in p :: LowerKey(key) !in SUPPRESSION_KEYS
  {
  }

  // ----- honest serialisation -----

  /** Keys of the bodies the response types write, and of the status body. */
  const HEADER_KEYS: set<string> :=
    {"response_id", "session_id", "mode", "case_file_id", "explanation_profile", "naric_level",
     "naric_level_source"}

  const CONTENT_KEYS: set<string> :=
    {"content", "case_facts_referenced", "guard_triggered", "case_file_status", "learner_context_status",
     "topic_tag", "notice", "error"}

  const STATUS_KEYS: set<string> :=
    {"session_id", "case_linked_coaching_halted", "halt_reason_code", "halted_at", "interactions_recorded"}

  /** The shipped serializer: the body, then the disclaimer, last and unconditionally. */
  function ToPayload(body: Payload): Payload {
    body[FIELD := Str(CANONICAL)]
  }

  predicate NoUpper(s: string) {
    forall i | 0 <= i < |s| :: LowerChar(s[i]) == s[i]
  }

  lemma {:induction false} LowerKeyFixed(s: string)
    requires NoUpper(s)
    ensures LowerKey(s) == s
  {
    if s != "" {
      LowerKeyFixed(s[1..]);
    }
  }

  /** A shape every suppression key has and no body key has. */
  predicate SuppressionShape(k: string) {
    && |k| > 10
    && (|| (k[0] == 's' && k[1] != 'e')
        || (k[0] == 'n' && k[2] == '_')
        || (k[0] == 'h' && k[1] == 'i') || (k[0] == 'i' && k[2] == 'c')
        || k[0] == 'o' || k[0] == 'd')
  }

  lemma SuppressionKeysShaped(k: string)
    requires k in SUPPRESSION_KEYS
    ensures SuppressionShape(k)
  {
  }

  lemma HeaderKeysPlain(k: string)
    requires k in HEADER_KEYS
    ensures NoUpper(k) && !SuppressionShape(k)
  {
  }

  lemma ContentKeysPlain(k: string)
    requires k in CONTENT_KEYS
    ensures NoUpper(k) && !SuppressionShape(k)
  {
  }

  lemma StatusKeysPlain(k: string)
    requires k in STATUS_KEYS || k == FIELD
    ensures NoUpper(k) && !SuppressionShape(k)
  {
  }

  lemma PlainKeyHarmless(key: string)
    requires NoUpper(key) && !SuppressionShape(key)
    ensures LowerKey(key) !in SUPPRESSION_KEYS
  {
    LowerKeyFixed(key);
    if key in SUPPRESSION_KEYS { SuppressionKeysShaped(key); }
  }

  /** Whatever values a body holds, its honest serialisation passes the boundary. */
  lemma HonestPayloadPasses(body: Payload)
    requires forall key | key in body :: key in HEADER_KEYS || key in CONTENT_KEYS || key in STATUS_KEYS
    ensures CheckPayload(ToPayload(body)).None?
  {
    forall key | key in ToPayload(body) ensures LowerKey(key) !in SUPPRESSION_KEYS {
      if key in HEADER_KEYS {
        HeaderKeysPlain(key);
      } else if key in CONTENT_KEYS {
        ContentKeysPlain(key);
      } else {
        StatusKeysPlain(key);
      }
      PlainKeyHarmless(key);
    }
  }

  // ----- emission -----

  datatype IncidentKind =
    | PromptSuppression | UnauthorisedCaseAccess | InternalDisclaimerAbsent | InternalDisclaimerAltered

  datatype Incident = Incident(kind: IncidentKind, session: string, user: string, caseFile: string)

  datatype Alert = Alert(reason: Reason, session: string, user: string, caseFile: string)

  class HaltRepository {
    var halted: set<string>

    constructor ()
      ensures halted == {}
    {
      halted := {};
    }

    method Halt(session: string)
      modifies this
      ensures halted == old(halted) + {session}
    {
      halted := halted + {session};
    }

    method Clear(session: string)
      modifies this
      ensures halted == old(halted) - {session}
    {
      halted := halted - {session};
    }
  }

  class AdminAlertSink {
    var alerts: seq<Alert>

    constructor ()
      ensures alerts == []
    {
      alerts := [];
    }

    method Critical(a: Alert)
      modifies this
      ensures alerts == old(alerts) + [a]
    {
      alerts := alerts + [a];
    }
  }

  class SecurityIncidentSink {
    var incidents: seq<Incident>

    constructor ()
      ensures incidents == []
    {
      incidents := [];
    }

    method Record(i: Incident)
      modifies this
      ensures incidents == old(incidents) + [i]
    {
      incidents := incidents + [i];
    }
  }

  function KindFor(f: Failure): IncidentKind {
    if f.observedPresent then InternalDisclaimerAltered else InternalDisclaimerAbsent
  }

  const SAFE_BODY: Payload := map["error" := Other]

  class ResponseEmitter {
    const halts: HaltRepository
    const admin: AdminAlertSink
    const security: SecurityIncidentSink

    constructor (halts: HaltRepository, admin: AdminAlertSink, security: SecurityIncidentSink)
      ensures this.halts == halts && this.admin == admin && this.security == security
    {
      this.halts, this.admin, this.security := halts, admin, security;
    }

    /** `wire` is whatever the injected serializer produced.  Only a checked payload leaves; a failed
        check halts the session, alerts once and records one incident. */
    method Emit(wire: Payload, session: string, user: string, caseFile: string, status: nat)
      returns (body: Payload, code: nat)
      modifies halts, admin, security
      ensures CheckPayload(body).None?
      ensures match CheckPayload(wire)
        case None =>
          body == wire && code == status && unchanged(halts) && unchanged(admin) && unchanged(security)
        case Some(f) =>
          && body == ToPayload(SAFE_BODY) && code == 503
          && halts.halted == old(halts.halted) + {session}
          && admin.alerts == old(admin.alerts) + [Alert(f.reason, session, user, caseFile)]
          && security.incidents == old(security.incidents) + [Incident(KindFor(f), session, user, caseFile)]
    {
      var failure := CheckPayload(wire);
      if failure.None? {
        return wire, status;
      }
      halts.Halt(session);
      admin.Critical(Alert(failure.value.reason, session, user, caseFile));
      security.Record(Incident(KindFor(failure.value), session, user, caseFile));
      body := ToPayload(SAFE_BODY);
      HonestPayloadPasses(SAFE_BODY);
      if CheckPayload(body).Some? {
        body := map["error" := Other, FIELD := Str(CANONICAL)];
      }
      code := 503;
    }
  }
}
