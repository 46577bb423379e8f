/**
 What is in a report, said of the learner's qualifying records, the ratings and the profile: which topics are
 struggle gaps, which areas are unexplored, in what order, and when no report can be built.
 */
module ReportLaws {
  import opened Prelude
  import opened Ordering
  import opened Counting
  import opened Aggregation
  import opened Signals
  import opened GapModels
  import opened GapReport
  import opened GapEvidence
  import opened HistoryLaws

  /** Some record is on the topic, and its explain-differently requests, its follow-ups or its thumbs-down
      ratings reach their threshold. */
  ghost predicate Struggling(h: History, feedback: Option<seq<Feedback>>, th: Thresholds, topic: string) {
    && (exists r | r in h.interactions :: r.topic == topic)
    && (|| ExplainTotal(h.interactions, topic) >= th.explain
        || |FollowUpPositions(h.interactions, topic)| >= th.followUp
        || (feedback.Some? && |RatingPositions(h, feedback.value, topic)| >= th.low))
  }

  lemma TagsAre(records: seq<Interaction>, topic: string)
    ensures topic in SortedSet(Tags(records)) <==> exists r | r in records :: r.topic == topic
  {
    SortedSetFacts(Tags(records));
    assert topic in Elements(SortedSet(Tags(records))) <==> topic in Elements(Tags(records));
    if topic in Tags(records) {
      var i :| 0 <= i < |records| && Tags(records)[i] == topic;
      assert records[i] in records;
    }
    if r :| r in records && r.topic == topic { TopicListed(records, r); }
  }

  lemma TopicsAre(records: seq<Interaction>, user: string, topic: string)
    ensures var h := HistoryOf(records, user);
      && h.interactions == Qualify(records, user).records && h.user == user && DistinctIds(h.interactions)
      && (topic in TopicTags(h.topics) <==> exists r | r in h.interactions :: r.topic == topic)
      && (forall t | t in h.topics :: t == Summary(t.topic, OnTopic(h.interactions, t.topic)))
      && (topic in TopicTags(h.topics) ==> Summary(topic, OnTopic(h.interactions, topic)) in h.topics)
  {
    var h := HistoryOf(records, user);
    var tags := SortedSet(Tags(h.interactions));
    CountingConserves(records, user);
    TagsAre(h.interactions, topic);
    assert forall i | 0 <= i < |tags| :: h.topics[i].topic == tags[i];
    assert TopicTags(h.topics) == tags;
    if topic in tags {
      var i :| 0 <= i < |tags| && tags[i] == topic;
      assert h.topics[i] == Summary(topic, OnTopic(h.interactions, topic));
    }
  }

  lemma StrugglesIff(h: History, feedback: Option<seq<Feedback>>, th: Thresholds, topic: string)
    requires DistinctIds(h.interactions) && exists r | r in h.interactions :: r.topic == topic
    ensures Struggles(Summary(topic, OnTopic(h.interactions, topic)), th, LowIndex(h, feedback))
       <==> Struggling(h, feedback, th, topic)
  {
    SummaryHolds(h.interactions, topic);
    if feedback.Some? { RatingsCounted(h, feedback.value, topic); }
  }

  /** A topic is found exactly when the learner struggles with it, once, with the signals of its summary. */
  lemma FoundExactly(records: seq<Interaction>, user: string, feedback: Option<seq<Feedback>>, th: Thresholds,
                     topic: string)
    ensures (exists f | f in FindingsOf(records, user, feedback, th) :: f.topic == topic)
       <==> Struggling(HistoryOf(records, user), feedback, th, topic)
  {
    var h := HistoryOf(records, user);
    var low := LowIndex(h, feedback);
    TopicsAre(records, user, topic);
    if f :| f in FindingsOf(records, user, feedback, th) && f.topic == topic {
      FoundIff(h.topics, th, low, f);
      var t :| t in h.topics && FoundAt(t, th, low, f);
      var i :| 0 <= i < |h.topics| && h.topics[i] == t;
      assert TopicTags(h.topics)[i] == topic;
      StrugglesIff(h, feedback, th, topic);
    }
    if Struggling(h, feedback, th, topic) {
      var t := Summary(topic, OnTopic(h.interactions, topic));
      StrugglesIff(h, feedback, th, topic);
      var f := Finding(topic, SignalsFor(t, th, low));
      assert FoundAt(t, th, low, f);
      FoundIff(h.topics, th, low, f);
    }
  }

  // ----- the gaps of a report -----

  ghost predicate Reports(gaps: seq<Gap>, kind: GapType, topic: string) {
    exists g | g in gaps :: g.gapType == kind && g.topic == topic
  }

  lemma StrugglesReported(findings: seq<Finding>, topic: string)
    ensures Reports(StruggleList(findings), Struggle, topic) <==> exists f | f in findings :: f.topic == topic
    ensures !Reports(StruggleList(findings), Unexplored, topic)
  {
    var gaps := StruggleList(findings);
    if Reports(gaps, Struggle, topic) {
      var g :| g in gaps && g.gapType == Struggle && g.topic == topic;
      var i :| 0 <= i < |gaps| && gaps[i] == g;
      assert findings[i] in findings;
    }
    if f :| f in findings && f.topic == topic {
      var i :| 0 <= i < |findings| && findings[i] == f;
      assert gaps[i] in gaps && gaps[i] == StruggleGap(f);
    }
  }

  lemma AreasReported(areas: seq<string>, topic: string)
    ensures Reports(UnexploredList(areas), Unexplored, topic) <==> topic in areas
    ensures !Reports(UnexploredList(areas), Struggle, topic)
  {
    var gaps := UnexploredList(areas);
    if Reports(gaps, Unexplored, topic) {
      var g :| g in gaps && g.gapType == Unexplored && g.topic == topic;
      var i :| 0 <= i < |gaps| && gaps[i] == g;
      assert areas[i] in areas;
    }
    if topic in areas {
      var i :| 0 <= i < |areas| && areas[i] == topic;
      assert gaps[i] in gaps && gaps[i] == UnexploredGap(topic);
    }
  }

  lemma EitherReports(a: seq<Gap>, b: seq<Gap>, kind: GapType, topic: string)
    ensures Reports(a + b, kind, topic) <==> Reports(a, kind, topic) || Reports(b, kind, topic)
  {
    forall g ensures g in a + b <==> g in a || g in b {}
  }

  lemma GapsReport(findings: seq<Finding>, areas: seq<string>, topic: string)
    ensures Reports(Gaps(findings, areas), Struggle, topic) <==> exists f | f in findings :: f.topic == topic
    ensures Reports(Gaps(findings, areas), Unexplored, topic) <==> topic in areas
  {
    StrugglesReported(findings, topic);
    AreasReported(areas, topic);
    EitherReports(StruggleList(findings), UnexploredList(areas), Struggle, topic);
    EitherReports(StruggleList(findings), UnexploredList(areas), Unexplored, topic);
  }

  /** A report that can be built holds a struggle gap exactly for the topics the learner struggles with, and an
      unexplored gap exactly for the areas of a readable profile that no qualifying record is about. */
  lemma ReportIff(records: seq<Interaction>, user: string, feedback: Option<seq<Feedback>>, th: Thresholds,
                  profile: Option<Profile>, topic: string)
    requires Fault(records, user, feedback, th, profile).None?
    ensures var gaps, h := Report(records, user, feedback, th, profile), HistoryOf(records, user);
      && h.interactions == Qualify(records, user).records
      && (Reports(gaps, Struggle, topic) <==> Struggling(h, feedback, th, topic))
      && (Reports(gaps, Unexplored, topic) <==>
            Readable(profile) && topic in profile.value.areas && forall r | r in h.interactions :: r.topic != topic)
  {
    var h := HistoryOf(records, user);
    var areas := UnexploredAreas(profile, TopicTags(h.topics));
    GuardHasNothingToReject(records, user, feedback, th, profile);
    GapsReport(FindingsOf(records, user, feedback, th), areas, topic);
    FoundExactly(records, user, feedback, th, topic);
    TopicsAre(records, user, topic);
    UnexploredIff(profile, TopicTags(h.topics));
  }

  predicate Follows(a: Gap, b: Gap) {
    if a.gapType == b.gapType then Before(a.topic, b.topic) else a.gapType == Struggle
  }

  lemma GapsOrdered(findings: seq<Finding>, areas: seq<string>)
    requires forall i, j | 0 <= i < j < |findings| :: Before(findings[i].topic, findings[j].topic)
    requires Ascending(areas, Before)
    ensures Ascending(Gaps(findings, areas), Follows)
  {
  }

  /** Struggle gaps come first, then unexplored ones, each kind in ascending order of topics and once each. */
  lemma ReportOrdered(records: seq<Interaction>, user: string, feedback: Option<seq<Feedback>>, th: Thresholds,
                      profile: Option<Profile>)
    requires Fault(records, user, feedback, th, profile).None?
    requires Readable(profile) ==> NoRepeats(profile.value.areas)
    ensures Ascending(Report(records, user, feedback, th, profile), Follows)
  {
    var h := HistoryOf(records, user);
    var areas := UnexploredAreas(profile, TopicTags(h.topics));
    GuardHasNothingToReject(records, user, feedback, th, profile);
    GroupingConserves(Qualify(records, user), user);
    FindingsAscend(h.topics, th, LowIndex(h, feedback));
    UnexploredIff(profile, TopicTags(h.topics));
    if !Readable(profile) { NoElements(areas); }
    GapsOrdered(FindingsOf(records, user, feedback, th), areas);
  }

  // ----- when none can be built -----

  /** A report can be built exactly when every signal and every gap passes its validators. */
  lemma FaultIff(records: seq<Interaction>, user: string, feedback: Option<seq<Feedback>>, th: Thresholds,
                 profile: Option<Profile>)
    ensures var h := HistoryOf(records, user);
      Fault(records, user, feedback, th, profile).None?
      <==> && (forall t, s | t in h.topics && s in SignalsFor(t, th, LowIndex(h, feedback)) :: CheckSignal(s).None?)
           && (forall g | g in CandidateGaps(records, user, feedback, th, profile) :: Check(g).None?)
  {
    var h := HistoryOf(records, user);
    var low := LowIndex(h, feedback);
    var findings := FindingsOf(records, user, feedback, th);
    var areas := UnexploredAreas(profile, TopicTags(h.topics));
    NoFaultIff(h.topics, (t: TopicAggregate) => TopicFault(t, th, low));
    forall t: TopicAggregate { NoFaultIff(SignalsFor(t, th, low), CheckSignal); }
    NoFaultIff(StruggleList(findings), Check);
    NoFaultIff(UnexploredList(areas), Check);
    forall g ensures g in Gaps(findings, areas) <==> g in StruggleList(findings) || g in UnexploredList(areas) {}
  }

  ghost predicate Faulted(gaps: seq<Gap>, resolvable: set<string>, x: string) {
    exists g | g in gaps :: x in Violations(g, resolvable)
  }

  lemma FaultedGrows(gaps: seq<Gap>, g: Gap, resolvable: set<string>, x: string)
    ensures Faulted(gaps + [g], resolvable, x) <==> Faulted(gaps, resolvable, x) || x in Violations(g, resolvable)
  {
    forall h ensures h in gaps + [g] <==> h in gaps || h == g {}
    assert g in gaps + [g];
  }

  /** The reasons collected are those of the gaps that are not sound. */
  lemma {:induction false} ReasonsAre(gaps: seq<Gap>, resolvable: set<string>, x: string)
    ensures x in Reasons(gaps, resolvable) <==> Faulted(gaps, resolvable, x)
  {
    if gaps != [] {
      var n := |gaps| - 1;
      var found := Violations(gaps[n], resolvable);
      PrefixGrows(gaps, n);
      WholePrefix(gaps);
      ReasonsAre(gaps[..n], resolvable, x);
      FaultedGrows(gaps[..n], gaps[n], resolvable, x);
      OneMoreGap(gaps[..n], gaps[n], resolvable);
      SortedSetFacts(found);
      assert x in Elements(SortedSet(found)) <==> x in Elements(found);
    }
  }

  // ----- the order of identifiers -----

  lemma {:induction false} OnTopicDistinct(records: seq<Interaction>, topic: string)
    requires DistinctIds(records)
    ensures DistinctIds(OnTopic(records, topic))
  {
    if records != [] {
      var n := |records| - 1;
      OnTopicDistinct(records[..n], topic);
      OnTopicFacts(records[..n], topic);
    }
  }

  lemma {:induction false} ExplainedDistinct(records: seq<Interaction>)
    requires DistinctIds(records)
    ensures DistinctIds(Explained(records))
  {
    if records != [] {
      var n := |records| - 1;
      ExplainedDistinct(records[..n]);
      ExplainedFacts(records[..n]);
    }
  }

  lemma {:induction false} FollowUpsDistinct(records: seq<Interaction>)
    requires DistinctIds(records)
    ensures DistinctIds(FollowUps(records))
  {
    if records != [] {
      var n := |records| - 1;
      FollowUpsDistinct(records[..n]);
      FollowUpsFacts(records[..n]);
    }
  }

  lemma IdsAscend(records: seq<Interaction>)
    requires DistinctIds(records)
    ensures Ascending(Sort(IdList(records), Before), Before)
  {
    StringsLinear(IdList(records));
    SortAscends(IdList(records), Before);
  }

  /** The identifiers of a summary are listed in ascending order. */
  lemma SummaryAscends(records: seq<Interaction>, topic: string)
    requires DistinctIds(records)
    ensures var s := Summary(topic, OnTopic(records, topic));
      && Ascending(s.interactionIds, Before) && Ascending(s.explainIds, Before)
      && Ascending(s.followUpIds, Before) && Ascending(s.sessionIds, Before)
  {
    var on := OnTopic(records, topic);
    OnTopicDistinct(records, topic);
    ExplainedDistinct(on);
    FollowUpsDistinct(on);
    IdsAscend(on);
    IdsAscend(Explained(on));
    IdsAscend(FollowUps(on));
    SortedSetFacts(SessionList(on));
  }
}
