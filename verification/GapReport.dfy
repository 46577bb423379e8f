/**
 Gap assembly and the evidence guard (packages/uc07/uc07/application/report_builder.py,
 evidence_guard.py and unexplored.py), and the whole analysis from delivered records to gaps.
 */
module GapReport {
  import opened Prelude
  import opened Ordering
  import opened Counting
  import opened Aggregation
  import opened Signals
  import opened GapModels

  datatype ProfileStatus = Available | EmptySource | Partial | Unavailable | Invalid

  datatype Profile = Profile(status: ProfileStatus, areas: seq<string>)

  const WITHOUT_INTERACTIONS := "struggle_gap_without_interaction_evidence"
  const EMPTY_EVIDENCE := "struggle_gap_with_empty_evidence"
  const UNRESOLVED := "evidence_id_does_not_resolve"
  const WITH_INTERACTIONS := "unexplored_gap_with_interaction_evidence"
  const WRONG_BASIS := "unexplored_gap_with_wrong_evidence_basis"
  const SIGNAL_OUTSIDE := "signal_evidence_outside_gap_evidence"
  const SIGNAL_UNRESOLVED := "signal_evidence_id_does_not_resolve"

  datatype Guarded = Guarded(gaps: seq<Gap>, rejected: nat, reasons: seq<string>)

  // ----- building gaps -----

  function AllIds(signals: seq<Signal>): seq<string> {
    if signals == [] then [] else AllIds(signals[..|signals| - 1]) + signals[|signals| - 1].ids
  }

  function StruggleGap(f: Finding): Gap {
    Gap(f.topic, Struggle, Kinds(f.signals), Evidence(InteractionIds, SortedSet(AllIds(f.signals)), f.signals))
  }

  function UnexploredGap(area: string): Gap {
    Gap(area, Unexplored, [UnexploredSpeciality],
        Evidence(ZeroInteractions, [], [Signal(UnexploredSpeciality, 0, 0, [])]))
  }

  function NotIn(areas: seq<string>, topics: seq<string>): seq<string> {
    if areas == [] then []
    else
      var n := |areas| - 1;
      NotIn(areas[..n], topics) + if areas[n] in topics then [] else [areas[n]]
  }

  /** Speciality areas with no interaction; nothing is claimed when the profile cannot be read. */
  function UnexploredAreas(profile: Option<Profile>, topics: seq<string>): seq<string> {
    match profile
    case None => []
    case Some(Profile(status, areas)) =>
      if status in {Unavailable, Invalid, EmptySource} then [] else Sort(NotIn(areas, topics), Before)
  }

  /** One gap per finding, or what the first gap that cannot be built raises. */
  method StruggleGaps(findings: seq<Finding>) returns (r: Result<seq<Gap>, Invalid>)
    ensures r == match FirstFault(StruggleList(findings), Check)
                 case Some(fault) => Err(fault)
                 case None => Ok(StruggleList(findings))
  {
    var gaps: seq<Gap> := [];
    ghost var all := StruggleList(findings);
    for i := 0 to |findings|
      invariant gaps == all[..i] && FirstFault(gaps, Check) == None
    {
      var gap, fault := BuildStruggleGap(findings[i]);
      PrefixGrows(all, i);
      FaultOfLast(gaps, gap, Check);
      if fault.Some? {
        FaultStays(all, Check, i + 1);
        return Err(fault.value);
      }
      gaps := gaps + [gap];
    }
    WholePrefix(all);
    r := Ok(gaps);
  }

  /** The evidence is built before the gap that holds it. */
  method BuildStruggleGap(f: Finding) returns (gap: Gap, fault: Option<Invalid>)
    ensures gap == StruggleGap(f) && fault == Check(gap)
  {
    var evidence := Evidence(InteractionIds, SortedSet(AllIds(f.signals)), f.signals);
    gap := Gap(f.topic, Struggle, Kinds(f.signals), evidence);
    fault := CheckEvidence(evidence);
    if fault.None? {
      fault := CheckGap(gap);
    }
  }

  function StruggleList(findings: seq<Finding>): (gaps: seq<Gap>)
    ensures |gaps| == |findings|
  {
    seq(|findings|, i requires 0 <= i < |findings| => StruggleGap(findings[i]))
  }

  function UnexploredList(areas: seq<string>): (gaps: seq<Gap>)
    ensures |gaps| == |areas|
  {
    seq(|areas|, i requires 0 <= i < |areas| => UnexploredGap(areas[i]))
  }

  /** One gap per area: its one signal, its evidence and itself are built in that order. */
  method UnexploredGaps(areas: seq<string>) returns (r: Result<seq<Gap>, Invalid>)
    ensures r == match FirstFault(UnexploredList(areas), Check)
                 case Some(fault) => Err(fault)
                 case None => Ok(UnexploredList(areas))
  {
    var gaps: seq<Gap> := [];
    ghost var all := UnexploredList(areas);
    for i := 0 to |areas|
      invariant gaps == all[..i] && FirstFault(gaps, Check) == None
    {
      var gap := UnexploredGap(areas[i]);
      PrefixGrows(all, i);
      FaultOfLast(gaps, gap, Check);
      var fault := Check(gap);
      if fault.Some? {
        FaultStays(all, Check, i + 1);
        return Err(fault.value);
      }
      gaps := gaps + [gap];
    }
    WholePrefix(all);
    r := Ok(gaps);
  }

  function Gaps(findings: seq<Finding>, areas: seq<string>): seq<Gap> {
    StruggleList(findings) + UnexploredList(areas)
  }

  // ----- the guard -----

  function SignalViolations(signals: seq<Signal>, ids: set<string>, resolvable: set<string>): seq<string> {
    if signals == [] then []
    else
      var n := |signals| - 1;
      SignalViolations(signals[..n], ids, resolvable)
      + (if Elements(signals[n].ids) <= ids then [] else [SIGNAL_OUTSIDE])
      + (if Elements(signals[n].ids) <= resolvable then [] else [SIGNAL_UNRESOLVED])
  }

  function Violations(gap: Gap, resolvable: set<string>): seq<string> {
    var e := gap.evidence;
    (if gap.gapType == Struggle then
       (if e.basis == InteractionIds then [] else [WITHOUT_INTERACTIONS])
       + (if e.ids != [] then [] else [EMPTY_EVIDENCE])
       + (if Elements(e.ids) <= resolvable then [] else [UNRESOLVED])
     else
       (if e.ids == [] then [] else [WITH_INTERACTIONS])
       + (if e.basis == ZeroInteractions then [] else [WRONG_BASIS]))
    + SignalViolations(e.perSignal, Elements(e.ids), resolvable)
  }

  function Upheld(gaps: seq<Gap>, resolvable: set<string>): (kept: seq<Gap>)
    ensures |kept| <= |gaps|
  {
    if gaps == [] then []
    else
      var n := |gaps| - 1;
      Upheld(gaps[..n], resolvable) + if Violations(gaps[n], resolvable) == [] then [gaps[n]] else []
  }

  /** The distinct reasons of each rejected gap in turn, sorted. */
  function Reasons(gaps: seq<Gap>, resolvable: set<string>): seq<string> {
    if gaps == [] then []
    else
      var n := |gaps| - 1;
      var found := Violations(gaps[n], resolvable);
      Reasons(gaps[..n], resolvable) + if found == [] then [] else SortedSet(found)
  }

  lemma OneMoreGap(gaps: seq<Gap>, g: Gap, resolvable: set<string>)
    ensures var found := Violations(g, resolvable);
      && Upheld(gaps + [g], resolvable) == Upheld(gaps, resolvable) + (if found == [] then [g] else [])
      && Reasons(gaps + [g], resolvable)
         == Reasons(gaps, resolvable) + if found == [] then [] else SortedSet(found)
  {
    assert (gaps + [g])[..|gaps|] == gaps;
  }

  method FindViolations(gap: Gap, resolvable: set<string>) returns (reasons: seq<string>)
    ensures reasons == Violations(gap, resolvable)
  {
    var e := gap.evidence;
    reasons := [];
    if gap.gapType == Struggle {
      if e.basis != InteractionIds { reasons := reasons + [WITHOUT_INTERACTIONS]; }
      if e.ids == [] { reasons := reasons + [EMPTY_EVIDENCE]; }
      if !(Elements(e.ids) <= resolvable) { reasons := reasons + [UNRESOLVED]; }
    } else {
      if e.ids != [] { reasons := reasons + [WITH_INTERACTIONS]; }
      if e.basis != ZeroInteractions { reasons := reasons + [WRONG_BASIS]; }
    }
    var bySignal := FindSignalViolations(e.perSignal, Elements(e.ids), resolvable);
    reasons := reasons + bySignal;
  }

  method FindSignalViolations(signals: seq<Signal>, ids: set<string>, resolvable: set<string>)
    returns (reasons: seq<string>)
    ensures reasons == SignalViolations(signals, ids, resolvable)
  {
    reasons := [];
    for i := 0 to |signals|
      invariant reasons == SignalViolations(signals[..i], ids, resolvable)
    {
      assert signals[..i + 1][..i] == signals[..i];
      if !(Elements(signals[i].ids) <= ids) { reasons := reasons + [SIGNAL_OUTSIDE]; }
      if !(Elements(signals[i].ids) <= resolvable) { reasons := reasons + [SIGNAL_UNRESOLVED]; }
    }
    assert signals[..|signals|] == signals;
  }

  /** Judges one more gap after those seen. */
  method JudgeGap(gap: Gap, resolvable: set<string>, ghost seen: seq<Gap>) returns (found: seq<string>)
    ensures found == [] ==>
              && Upheld(seen + [gap], resolvable) == Upheld(seen, resolvable) + [gap]
              && Reasons(seen + [gap], resolvable) == Reasons(seen, resolvable)
    ensures found != [] ==>
              && Upheld(seen + [gap], resolvable) == Upheld(seen, resolvable)
              && Reasons(seen + [gap], resolvable) == Reasons(seen, resolvable) + SortedSet(found)
  {
    found := FindViolations(gap, resolvable);
    OneMoreGap(seen, gap, resolvable);
  }

  method EnforceEvidenceIntegrity(gaps: seq<Gap>, resolvable: set<string>) returns (g: Guarded)
    ensures g.gaps == Upheld(gaps, resolvable) && g.rejected == |gaps| - |g.gaps|
    ensures g.reasons == Reasons(gaps, resolvable)
  {
    var kept: seq<Gap> := [];
    var reasons: seq<string> := [];
    for i := 0 to |gaps|
      invariant kept == Upheld(gaps[..i], resolvable) && reasons == Reasons(gaps[..i], resolvable)
    {
      var found := JudgeGap(gaps[i], resolvable, gaps[..i]);
      PrefixGrows(gaps, i);
      if found != [] {
        reasons := reasons + SortedSet(found);
      } else {
        kept := kept + [gaps[i]];
      }
    }
    WholePrefix(gaps);
    g := Guarded(kept, |gaps| - |kept|, reasons);
  }

  // ----- the whole analysis -----

  function HistoryOf(records: seq<Interaction>, user: string): History {
    Aggregate(Qualify(records, user), user)
  }

  function FindingsOf(records: seq<Interaction>, user: string, feedback: Option<seq<Feedback>>, th: Thresholds)
    : seq<Finding>
  {
    var h := HistoryOf(records, user);
    Findings(h.topics, th, LowIndex(h, feedback))
  }

  function CandidateGaps(records: seq<Interaction>, user: string, feedback: Option<seq<Feedback>>, th: Thresholds,
                         profile: Option<Profile>): seq<Gap>
  {
    Gaps(FindingsOf(records, user, feedback, th), UnexploredAreas(profile, TopicTags(HistoryOf(records, user).topics)))
  }

  function Report(records: seq<Interaction>, user: string, feedback: Option<seq<Feedback>>, th: Thresholds,
                  profile: Option<Profile>): seq<Gap>
  {
    Upheld(CandidateGaps(records, user, feedback, th, profile), Ids(Qualify(records, user).records))
  }

  /** What building the report raises: the signals first, then the struggle gaps, then the rest. */
  function Fault(records: seq<Interaction>, user: string, feedback: Option<seq<Feedback>>, th: Thresholds,
                 profile: Option<Profile>): Option<Invalid>
  {
    var h := HistoryOf(records, user);
    var early := SignalFault(h.topics, th, LowIndex(h, feedback));
    if early.Some? then early
    else GapFault(FindingsOf(records, user, feedback, th), UnexploredAreas(profile, TopicTags(h.topics)))
  }

  function GapFault(findings: seq<Finding>, areas: seq<string>): Option<Invalid> {
    var early := FirstFault(StruggleList(findings), Check);
    if early.Some? then early else FirstFault(UnexploredList(areas), Check)
  }

  method AssembleReport(findings: seq<Finding>, areas: seq<string>, resolvable: set<string>)
    returns (r: Result<Guarded, Invalid>)
    ensures r.Err? <==> GapFault(findings, areas).Some?
    ensures r.Err? ==> GapFault(findings, areas) == Some(r.error)
    ensures r.Ok? ==>
              && r.value.gaps == Upheld(Gaps(findings, areas), resolvable)
              && r.value.rejected == |Gaps(findings, areas)| - |r.value.gaps|
              && r.value.reasons == Reasons(Gaps(findings, areas), resolvable)
  {
    var struggles := StruggleGaps(findings);
    if struggles.Err? {
      return Err(struggles.error);
    }
    var unexplored := UnexploredGaps(areas);
    if unexplored.Err? {
      return Err(unexplored.error);
    }
    var guarded := EnforceEvidenceIntegrity(struggles.value + unexplored.value, resolvable);
    r := Ok(guarded);
  }

  /** The analysis as the service runs it, stage after stage. */
  method Analyse(records: seq<Interaction>, user: string, feedback: Option<seq<Feedback>>, th: Thresholds,
                 profile: Option<Profile>) returns (r: Result<Guarded, Invalid>)
    ensures r.Err? <==> Fault(records, user, feedback, th, profile).Some?
    ensures r.Err? ==> Fault(records, user, feedback, th, profile) == Some(r.error)
    ensures r.Ok? ==>
              && r.value.gaps == Report(records, user, feedback, th, profile)
              && r.value.rejected == |CandidateGaps(records, user, feedback, th, profile)| - |r.value.gaps|
              && r.value.reasons == Reasons(CandidateGaps(records, user, feedback, th, profile),
                                            Ids(Qualify(records, user).records))
  {
    var qualifying := QualifyingInteractions(records, user);
    var history := AggregateHistory(qualifying, user);
    var low := BuildLowRatingIndex(history, feedback);
    var findings := DetectStruggles(history, th, low);
    if findings.Err? {
      return Err(findings.error);
    }
    var areas := UnexploredAreas(profile, TopicTags(history.topics));
    r := AssembleReport(findings.value, areas, Ids(history.interactions));
  }
}
