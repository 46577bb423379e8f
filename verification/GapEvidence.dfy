/** Where the evidence of a gap comes from, and what building and guarding the report can refuse. */
module GapEvidence {
  import opened Prelude
  import opened Ordering
  import opened Counting
  import opened Aggregation
  import opened Signals
  import opened GapModels
  import opened GapReport

  /** What it means for a gap to be evidenced by the analysed interactions. */
  ghost predicate Evidenced(gap: Gap, records: seq<Interaction>) {
    var e := gap.evidence;
    && (gap.gapType == Struggle ==>
          && e.basis == InteractionIds && e.ids != [] && e.perSignal != []
          && (forall id | id in e.ids :: exists r | r in records :: r.id == id && r.topic == gap.topic)
          && (forall s | s in e.perSignal :: s.ids != [] && Elements(s.ids) <= Elements(e.ids)))
    && (gap.gapType == Unexplored ==>
          e.basis == ZeroInteractions && e.ids == [] && forall r | r in records :: r.topic != gap.topic)
  }

  // ----- evidence -----

  lemma {:induction false} TopicByIdSound(records: seq<Interaction>, id: string)
    ensures TopicById(records, id).Some? ==>
              exists r | r in records :: r.id == id && r.topic == TopicById(records, id).value
  {
    if records != [] {
      var n := |records| - 1;
      TopicByIdSound(records[..n], id);
      assert records == records[..n] + [records[n]];
    }
  }

  lemma {:induction false} HitsSound(h: History, feedback: seq<Feedback>)
    ensures forall x | x in Hits(h, feedback) ::
              exists r | r in h.interactions :: r.id == x.interaction && r.topic == x.topic
  {
    if feedback != [] {
      var n := |feedback| - 1;
      HitsSound(h, feedback[..n]);
      TopicByIdSound(h.interactions, feedback[n].interaction);
    }
  }

  lemma {:induction false} HitsOnMembers(hits: seq<Hit>, t: string)
    ensures forall id :: id in HitsOn(hits, t) <==> Hit(t, id) in hits
  {
    if hits != [] {
      var n := |hits| - 1;
      HitsOnMembers(hits[..n], t);
      assert hits == hits[..n] + [hits[n]];
    }
  }

  lemma {:induction false} ExplainedFacts(records: seq<Interaction>)
    ensures forall r :: r in Explained(records) <==> r in records && r.explainCount > 0
    ensures ExplainSum(records) > 0 ==> Explained(records) != []
  {
    if records != [] {
      var n := |records| - 1;
      ExplainedFacts(records[..n]);
      assert records == records[..n] + [records[n]];
    }
  }

  lemma {:induction false} FollowUpsFacts(records: seq<Interaction>)
    ensures forall r :: r in FollowUps(records) <==> r in records && r.followUpOf.Some?
  {
    if records != [] {
      var n := |records| - 1;
      FollowUpsFacts(records[..n]);
      assert records == records[..n] + [records[n]];
    }
  }

  /** `id` names an interaction of the history that carries the topic. */
  ghost predicate Names(records: seq<Interaction>, topic: string, id: string) {
    exists r | r in records :: r.id == id && r.topic == topic
  }

  lemma SortedIdsName(all: seq<Interaction>, topic: string, part: seq<Interaction>)
    requires forall r | r in part :: r in all && r.topic == topic
    ensures forall id | id in Sort(IdList(part), Before) :: Names(all, topic, id)
    ensures |Sort(IdList(part), Before)| == |part|
  {
    SortPermutes(IdList(part), Before);
    SortKeeps(IdList(part), Before);
    SameBag(Sort(IdList(part), Before), IdList(part));
    forall id | id in Sort(IdList(part), Before) ensures Names(all, topic, id) {
      var i :| 0 <= i < |part| && IdList(part)[i] == id;
      assert part[i] in part;
    }
  }

  lemma ExplainEvidence(records: seq<Interaction>, topic: string)
    ensures var t := Summary(topic, OnTopic(records, topic));
      && (forall id | id in t.explainIds :: Names(records, topic, id))
      && (t.explainTotal > 0 ==> t.explainIds != [])
  {
    var on := OnTopic(records, topic);
    OnTopicFacts(records, topic);
    ExplainedFacts(on);
    SortedIdsName(records, topic, Explained(on));
  }

  lemma FollowUpEvidence(records: seq<Interaction>, topic: string)
    ensures var t := Summary(topic, OnTopic(records, topic));
      forall id | id in t.followUpIds :: Names(records, topic, id)
  {
    var on := OnTopic(records, topic);
    OnTopicFacts(records, topic);
    FollowUpsFacts(on);
    SortedIdsName(records, topic, FollowUps(on));
  }

  lemma LowEvidence(h: History, feedback: Option<seq<Feedback>>, topic: string)
    requires topic in LowIndex(h, feedback).counts
    ensures var low := LowIndex(h, feedback);
      && topic in low.ids
      && (forall id | id in low.ids[topic] :: Names(h.interactions, topic, id))
      && (low.counts[topic] > 0 ==> low.ids[topic] != [])
  {
    var hits := Hits(h, feedback.value);
    var ids := HitsOn(hits, topic);
    HitsSound(h, feedback.value);
    HitsOnMembers(hits, topic);
    SortedSetFacts(ids);
    forall id | id in SortedSet(ids) ensures Names(h.interactions, topic, id) {
      assert id in Elements(SortedSet(ids));
      assert Hit(topic, id) in hits;
    }
    if ids != [] {
      assert ids[0] in Elements(SortedSet(ids));
    }
  }

  /** All evidence of the signal names interactions of the topic. */
  ghost predicate Grounded(s: Signal, topic: string, records: seq<Interaction>) {
    forall id | id in s.ids :: Names(records, topic, id)
  }

  ghost predicate AtLeastOne(th: Thresholds) {
    th.explain >= 1 && th.followUp >= 1 && th.low >= 1
  }

  /** Signals fired by a topic of the history are grounded, and with thresholds of at least one each
      has evidence. */
  lemma SignalsGrounded(h: History, feedback: Option<seq<Feedback>>, th: Thresholds, topic: string)
    ensures var t := Summary(topic, OnTopic(h.interactions, topic));
      forall s | s in SignalsFor(t, th, LowIndex(h, feedback)) ::
        Grounded(s, topic, h.interactions) && (AtLeastOne(th) ==> s.ids != [])
  {
    var t := Summary(topic, OnTopic(h.interactions, topic));
    var low := LowIndex(h, feedback);
    ExplainEvidence(h.interactions, topic);
    FollowUpEvidence(h.interactions, topic);
    if topic in low.counts { LowEvidence(h, feedback, topic); }
    FiredSignalsGrounded(t, low, th, h.interactions);
  }

  lemma FiredSignalsGrounded(t: TopicAggregate, low: LowRatings, th: Thresholds, records: seq<Interaction>)
    requires t.explainTotal > 0 ==> t.explainIds != []
    requires forall id | id in t.explainIds :: Names(records, t.topic, id)
    requires forall id | id in t.followUpIds :: Names(records, t.topic, id)
    requires t.topic in low.counts ==>
               && t.topic in low.ids && (low.counts[t.topic] > 0 ==> low.ids[t.topic] != [])
               && forall id | id in low.ids[t.topic] :: Names(records, t.topic, id)
    requires low.counts.Keys == low.ids.Keys
    ensures forall s | s in SignalsFor(t, th, low) ::
              Grounded(s, t.topic, records) && (AtLeastOne(th) ==> s.ids != [])
  {
    forall s | s in SignalsFor(t, th, low)
      ensures Grounded(s, t.topic, records) && (AtLeastOne(th) ==> s.ids != [])
    {
      assert s in Present(ExplainSignal(t, th)) || s in Present(FollowUpSignal(t, th))
          || s in Present(LowSignal(t, th, low));
    }
  }

  lemma {:induction false} AllIdsMembers(signals: seq<Signal>)
    ensures forall id :: id in AllIds(signals) <==> exists s | s in signals :: id in s.ids
  {
    if signals != [] {
      var n := |signals| - 1;
      AllIdsMembers(signals[..n]);
      assert signals == signals[..n] + [signals[n]];
      forall id ensures id in AllIds(signals) <==> exists s | s in signals :: id in s.ids {
        if s :| s in signals && id in s.ids {
          assert s in signals[..n] || s == signals[n];
        }
      }
    }
  }

  /** The evidence of a struggle gap is duplicate free, names interactions of the topic when the
      signals do, and contains the evidence of every signal. */
  lemma StruggleEvidence(f: Finding, records: seq<Interaction>)
    requires forall s | s in f.signals :: Grounded(s, f.topic, records)
    ensures var ids := StruggleGap(f).evidence.ids;
      && NoRepeats(ids)
      && (forall id | id in ids :: Names(records, f.topic, id))
      && (forall s | s in f.signals :: Elements(s.ids) <= Elements(ids))
      && (ids == [] <==> forall s | s in f.signals :: s.ids == [])
  {
    var all := AllIds(f.signals);
    var ids := SortedSet(all);
    AllIdsMembers(f.signals);
    SortedSetFacts(all);
    AscendingNoRepeats(ids);
    forall id ensures id in ids <==> id in all {
      assert id in Elements(ids) <==> id in Elements(all);
    }
    forall id | id in ids ensures Names(records, f.topic, id) {
      var s :| s in f.signals && id in s.ids;
    }
    forall s | s in f.signals ensures Elements(s.ids) <= Elements(ids) && (ids == [] ==> s.ids == []) {
      forall id | id in s.ids ensures id in ids {}
      if s.ids != [] { assert s.ids[0] in ids; }
    }
    if ids != [] {
      assert ids[0] in all;
    }
  }

  lemma StruggleGapEvidenced(f: Finding, records: seq<Interaction>)
    requires f.signals != [] && forall s | s in f.signals :: Grounded(s, f.topic, records) && s.ids != []
    ensures Evidenced(StruggleGap(f), records)
  {
    StruggleEvidence(f, records);
    assert f.signals[0] in f.signals;
    forall id | id in StruggleGap(f).evidence.ids
      ensures exists r | r in records :: r.id == id && r.topic == f.topic
    {
      assert Names(records, f.topic, id);
    }
  }

  /** A struggle gap whose evidence could be built passes the guard. */
  lemma GroundedPasses(f: Finding, records: seq<Interaction>)
    requires forall s | s in f.signals :: Grounded(s, f.topic, records)
    requires CheckEvidence(StruggleGap(f).evidence).None?
    ensures Violations(StruggleGap(f), Ids(records)) == []
  {
    StruggleEvidence(f, records);
    var e := StruggleGap(f).evidence;
    forall id | id in e.ids ensures id in Ids(records) { NamedResolves(records, f.topic, id); }
    assert Elements(e.ids) <= Ids(records);
    SignalsPass(e.perSignal, Elements(e.ids), Ids(records));
  }

  lemma NamedResolves(records: seq<Interaction>, topic: string, id: string)
    requires Names(records, topic, id)
    ensures id in Ids(records)
  {
    var r :| r in records && r.id == id && r.topic == topic;
    var i :| 0 <= i < |records| && records[i] == r;
  }

  lemma UnexploredPasses(area: string, resolvable: set<string>)
    ensures Violations(UnexploredGap(area), resolvable) == []
  {
    var e := UnexploredGap(area).evidence;
    assert Elements<string>([]) == {};
    SignalsPass(e.perSignal, Elements(e.ids), resolvable);
  }

  /** An evidenced struggle gap passes the guard. */
  lemma EvidencedPasses(gap: Gap, records: seq<Interaction>)
    requires Evidenced(gap, records) && gap.gapType == Struggle
    ensures Violations(gap, Ids(records)) == []
  {
    var e := gap.evidence;
    forall id | id in e.ids ensures id in Ids(records) {
      var r :| r in records && r.id == id && r.topic == gap.topic;
      var i :| 0 <= i < |records| && records[i] == r;
    }
    assert Elements(e.ids) <= Ids(records);
    SignalsPass(e.perSignal, Elements(e.ids), Ids(records));
  }

  lemma {:induction false} SignalsPass(signals: seq<Signal>, ids: set<string>, resolvable: set<string>)
    requires ids <= resolvable && forall s | s in signals :: Elements(s.ids) <= ids
    ensures SignalViolations(signals, ids, resolvable) == []
  {
    if signals != [] {
      var n := |signals| - 1;
      assert signals[n] in signals;
      SignalsPass(signals[..n], ids, resolvable);
    }
  }

  lemma {:induction false} AllUpheld(gaps: seq<Gap>, resolvable: set<string>)
    requires forall g | g in gaps :: Violations(g, resolvable) == []
    ensures Upheld(gaps, resolvable) == gaps
  {
    if gaps != [] {
      var n := |gaps| - 1;
      assert gaps[n] in gaps && gaps == gaps[..n] + [gaps[n]];
      AllUpheld(gaps[..n], resolvable);
      OneMoreGap(gaps[..n], gaps[n], resolvable);
    }
  }

  /** Findings of a history: their signals fired, are grounded, and follow the canonical order. */
  lemma FindingFacts(h: History, feedback: Option<seq<Feedback>>, th: Thresholds, f: Finding)
    requires h.topics == Summaries(SortedSet(Tags(h.interactions)), h.interactions)
    requires f in Findings(h.topics, th, LowIndex(h, feedback))
    ensures f.signals != [] && f.topic in SortedSet(Tags(h.interactions))
    ensures forall s | s in f.signals ::
              Grounded(s, f.topic, h.interactions) && (AtLeastOne(th) ==> s.ids != []) && s.observed >= s.threshold
    ensures InOrder(Kinds(f.signals)) && NoRepeats(Kinds(f.signals))
  {
    var low := LowIndex(h, feedback);
    FoundIff(h.topics, th, low, f);
    var t :| t in h.topics && FoundAt(t, th, low, f);
    SignalsGrounded(h, feedback, th, f.topic);
    SignalsShape(t, th, low);
    FiresIff(t, th, low);
  }

  lemma SignalsShape(t: TopicAggregate, th: Thresholds, low: LowRatings)
    ensures forall s | s in SignalsFor(t, th, low) :: s.observed >= s.threshold
    ensures var kinds := Kinds(SignalsFor(t, th, low)); InOrder(kinds) && NoRepeats(kinds)
  {
    SignalsFired(t, th, low);
    var e, f, l := Present(ExplainSignal(t, th)), Present(FollowUpSignal(t, th)), Present(LowSignal(t, th, low));
    OrderedParts(e, f, l);
  }

  lemma SignalsFired(t: TopicAggregate, th: Thresholds, low: LowRatings)
    ensures forall s | s in SignalsFor(t, th, low) :: s.observed >= s.threshold
  {
    forall s | s in SignalsFor(t, th, low) ensures s.observed >= s.threshold {
      assert s in Present(ExplainSignal(t, th)) || s in Present(FollowUpSignal(t, th))
          || s in Present(LowSignal(t, th, low));
    }
  }

  lemma OrderedParts(e: seq<Signal>, f: seq<Signal>, l: seq<Signal>)
    requires |e| <= 1 && |f| <= 1 && |l| <= 1
    requires e != [] ==> e[0].kind == ExplainDifferently
    requires f != [] ==> f[0].kind == FollowUp
    requires l != [] ==> l[0].kind == LowRating
    ensures InOrder(Kinds(e + f + l)) && NoRepeats(Kinds(e + f + l))
  {
  }

  lemma {:induction false} NotInMembers(areas: seq<string>, topics: seq<string>)
    ensures forall a :: a in NotIn(areas, topics) <==> a in areas && a !in topics
  {
    if areas != [] {
      var n := |areas| - 1;
      NotInMembers(areas[..n], topics);
      assert areas == areas[..n] + [areas[n]];
    }
  }

  lemma UnexploredAreasMembers(profile: Option<Profile>, topics: seq<string>, area: string)
    requires area in UnexploredAreas(profile, topics)
    ensures profile.Some? && area in profile.value.areas && area !in topics
  {
    var areas := NotIn(profile.value.areas, topics);
    NotInMembers(profile.value.areas, topics);
    SortKeeps(areas, Before);
    SameBag(Sort(areas, Before), areas);
  }

  lemma UnexploredEvidenced(h: History, profile: Option<Profile>, area: string)
    requires h.topics == Summaries(SortedSet(Tags(h.interactions)), h.interactions)
    requires area in UnexploredAreas(profile, TopicTags(h.topics))
    ensures Evidenced(UnexploredGap(area), h.interactions)
  {
    var topics := TopicTags(h.topics);
    assert topics == SortedSet(Tags(h.interactions));
    UnexploredAreasMembers(profile, topics, area);
    forall r | r in h.interactions ensures r.topic in topics {
      TopicListed(h.interactions, r);
    }
  }

  lemma TopicListed(records: seq<Interaction>, r: Interaction)
    requires r in records
    ensures r.topic in SortedSet(Tags(records))
  {
    SortedSetFacts(Tags(records));
    var i :| 0 <= i < |records| && records[i] == r;
    assert Tags(records)[i] in Elements(Tags(records));
    assert r.topic in Elements(SortedSet(Tags(records)));
  }

  lemma SignalsBuild(h: History, feedback: Option<seq<Feedback>>, th: Thresholds)
    requires AtLeastOne(th) && (forall r | r in h.interactions :: r.id != "")
    requires h.topics == Summaries(SortedSet(Tags(h.interactions)), h.interactions)
    ensures SignalFault(h.topics, th, LowIndex(h, feedback)).None?
  {
    var low := LowIndex(h, feedback);
    var check := (t: TopicAggregate) => TopicFault(t, th, low);
    forall t | t in h.topics ensures check(t).None? {
      SummaryOf(h, t);
      TopicBuilds(h, feedback, th, t.topic);
    }
    NoFaultIff(h.topics, check);
  }

  lemma SummaryOf(h: History, t: TopicAggregate)
    requires h.topics == Summaries(SortedSet(Tags(h.interactions)), h.interactions) && t in h.topics
    ensures t == Summary(t.topic, OnTopic(h.interactions, t.topic))
  {
    var i :| 0 <= i < |h.topics| && h.topics[i] == t;
  }

  lemma TopicBuilds(h: History, feedback: Option<seq<Feedback>>, th: Thresholds, topic: string)
    requires AtLeastOne(th) && (forall r | r in h.interactions :: r.id != "")
    ensures TopicFault(Summary(topic, OnTopic(h.interactions, topic)), th, LowIndex(h, feedback)).None?
  {
    SignalsGrounded(h, feedback, th, topic);
    GroundedBuild(Summary(topic, OnTopic(h.interactions, topic)), th, LowIndex(h, feedback), h.interactions);
  }

  lemma GroundedBuild(t: TopicAggregate, th: Thresholds, low: LowRatings, records: seq<Interaction>)
    requires AtLeastOne(th) && (forall r | r in records :: r.id != "")
    requires forall s | s in SignalsFor(t, th, low) :: Grounded(s, t.topic, records)
    ensures TopicFault(t, th, low).None?
  {
    SignalsFired(t, th, low);
    SignalsPositive(t, th, low);
    forall s | s in SignalsFor(t, th, low) ensures CheckSignal(s).None? {
      forall id | id in s.ids ensures id != "" { assert Names(records, t.topic, id); }
    }
    NoFaultIff(SignalsFor(t, th, low), CheckSignal);
  }

  lemma SignalsPositive(t: TopicAggregate, th: Thresholds, low: LowRatings)
    requires AtLeastOne(th)
    ensures forall s | s in SignalsFor(t, th, low) :: s.observed >= 0 && s.threshold >= 1
  {
  }

  lemma StruggleBuilds(h: History, feedback: Option<seq<Feedback>>, th: Thresholds, f: Finding)
    requires AtLeastOne(th) && (forall r | r in h.interactions :: r.id != "" && r.topic != "")
    requires h.topics == Summaries(SortedSet(Tags(h.interactions)), h.interactions)
    requires f in Findings(h.topics, th, LowIndex(h, feedback))
    ensures Check(StruggleGap(f)).None?
  {
    FindingFacts(h, feedback, th, f);
    GroundedGapBuilds(f, h.interactions);
  }

  lemma GroundedGapBuilds(f: Finding, records: seq<Interaction>)
    requires f.signals != [] && InOrder(Kinds(f.signals)) && NoRepeats(Kinds(f.signals))
    requires forall s | s in f.signals :: Grounded(s, f.topic, records) && s.ids != []
    requires forall r | r in records :: r.id != "" && r.topic != ""
    ensures Check(StruggleGap(f)).None?
  {
    StruggleEvidence(f, records);
    var g := StruggleGap(f);
    assert f.signals[0] in f.signals;
    var first := f.signals[0].ids[0];
    assert Names(records, f.topic, first);
    forall id | id in g.evidence.ids ensures id != "" { assert Names(records, f.topic, id); }
    RepeatFree(g.evidence.ids);
    RepeatFree(g.signals);
  }

  lemma UnexploredBuilds(area: string)
    requires area != ""
    ensures Check(UnexploredGap(area)).None?
  {
    var g := UnexploredGap(area);
    RepeatFree(g.signals);
    RepeatFree(g.evidence.ids);
    assert Kinds(g.evidence.perSignal) == g.signals;
  }

  /** What the record types guarantee of what is delivered: identifiers, tags and areas are not empty. */
  ghost predicate WellTyped(records: seq<Interaction>, profile: Option<Profile>) {
    && (forall r | r in records :: r.id != "" && r.topic != "")
    && (profile.Some? ==> forall area | area in profile.value.areas :: area != "")
  }

  /** With every threshold at least one, every signal and every gap can be built. */
  lemma NothingRaised(records: seq<Interaction>, user: string, feedback: Option<seq<Feedback>>, th: Thresholds,
                      profile: Option<Profile>)
    requires AtLeastOne(th) && WellTyped(records, profile)
    ensures Fault(records, user, feedback, th, profile).None?
  {
    var h := HistoryOf(records, user);
    CountingConserves(records, user);
    SignalsBuild(h, feedback, th);
    var findings := FindingsOf(records, user, feedback, th);
    var areas := UnexploredAreas(profile, TopicTags(h.topics));
    forall g | g in StruggleList(findings) ensures Check(g).None? {
      var i :| 0 <= i < |findings| && StruggleList(findings)[i] == g;
      StruggleBuilds(h, feedback, th, findings[i]);
    }
    NoFaultIff(StruggleList(findings), Check);
    forall g | g in UnexploredList(areas) ensures Check(g).None? {
      var i :| 0 <= i < |areas| && UnexploredList(areas)[i] == g;
      UnexploredAreasMembers(profile, TopicTags(h.topics), areas[i]);
      UnexploredBuilds(areas[i]);
    }
    NoFaultIff(UnexploredList(areas), Check);
  }

  /** Whatever the thresholds: a report that can be built at all has nothing for the guard to reject. */
  lemma GuardHasNothingToReject(records: seq<Interaction>, user: string, feedback: Option<seq<Feedback>>,
                                th: Thresholds, profile: Option<Profile>)
    requires Fault(records, user, feedback, th, profile).None?
    ensures Report(records, user, feedback, th, profile) == CandidateGaps(records, user, feedback, th, profile)
    ensures forall g | g in Report(records, user, feedback, th, profile) :: Check(g).None?
  {
    var h := HistoryOf(records, user);
    var findings := FindingsOf(records, user, feedback, th);
    var areas := UnexploredAreas(profile, TopicTags(h.topics));
    NoFaultIff(StruggleList(findings), Check);
    NoFaultIff(UnexploredList(areas), Check);
    var gaps := Gaps(findings, areas);
    forall g | g in gaps ensures Violations(g, Ids(h.interactions)) == [] && Check(g).None? {
      GapCases(findings, areas, g);
      assert g in StruggleList(findings) || g in UnexploredList(areas);
      if f :| f in findings && g == StruggleGap(f) {
        FindingFacts(h, feedback, th, f);
        StruggleChecked(findings, f);
        GroundedPasses(f, h.interactions);
      } else {
        var a :| a in areas && g == UnexploredGap(a);
        UnexploredPasses(a, Ids(h.interactions));
      }
    }
    AllUpheld(gaps, Ids(h.interactions));
  }

  lemma StruggleChecked(findings: seq<Finding>, f: Finding)
    requires f in findings && forall g | g in StruggleList(findings) :: Check(g).None?
    ensures Check(StruggleGap(f)).None?
  {
    var i :| 0 <= i < |findings| && findings[i] == f;
    assert StruggleList(findings)[i] == StruggleGap(f);
  }

  /** With every threshold at least one, each reported gap is evidenced by interactions that carry its
      own topic (or, unexplored, by there being none), and the guard rejects nothing. */
  lemma NothingRejected(records: seq<Interaction>, user: string, feedback: Option<seq<Feedback>>, th: Thresholds,
                        profile: Option<Profile>)
    requires th.explain >= 1 && th.followUp >= 1 && th.low >= 1
    ensures Report(records, user, feedback, th, profile) == CandidateGaps(records, user, feedback, th, profile)
    ensures forall g | g in Report(records, user, feedback, th, profile) ::
              Evidenced(g, Qualify(records, user).records)
  {
    var h := HistoryOf(records, user);
    var findings := FindingsOf(records, user, feedback, th);
    var areas := UnexploredAreas(profile, TopicTags(h.topics));
    var gaps := Gaps(findings, areas);
    forall g | g in gaps ensures Evidenced(g, h.interactions) && Violations(g, Ids(h.interactions)) == [] {
      GapCases(findings, areas, g);
      if f :| f in findings && g == StruggleGap(f) {
        FindingFacts(h, feedback, th, f);
        StruggleGapEvidenced(f, h.interactions);
        EvidencedPasses(g, h.interactions);
      } else {
        var a :| a in areas && g == UnexploredGap(a);
        UnexploredEvidenced(h, profile, a);
        UnexploredPasses(a, Ids(h.interactions));
      }
    }
    AllUpheld(gaps, Ids(h.interactions));
  }

  lemma GapCases(findings: seq<Finding>, areas: seq<string>, g: Gap)
    requires g in Gaps(findings, areas)
    ensures (exists f | f in findings :: g == StruggleGap(f)) || (exists a | a in areas :: g == UnexploredGap(a))
  {
    var gaps := Gaps(findings, areas);
    var i :| 0 <= i < |gaps| && gaps[i] == g;
    if i < |findings| {
      assert findings[i] in findings;
    } else {
      assert areas[i - |findings|] in areas;
    }
  }
}
