/** Laws of the whole analysis: order independence, monotonicity, and the exact role of thresholds. */
module GapLaws {
  import opened Prelude
  import opened Ordering
  import opened Counting
  import opened Aggregation
  import opened Signals
  import opened GapModels
  import opened GapReport
  import opened GapEvidence

  // ----- order independence -----

  lemma {:induction false} HitsConcat(h: History, a: seq<Feedback>, b: seq<Feedback>)
    ensures Hits(h, a + b) == Hits(h, a) + Hits(h, b)
  {
    if b == [] {
      assert a + b == a;
    } else {
      var n := |b| - 1;
      HitsConcat(h, a, b[..n]);
      assert (a + b)[..|a + b| - 1] == a + b[..n];
    }
  }

  lemma HitsWithout(h: History, fs: seq<Feedback>, j: nat)
    requires j < |fs|
    ensures multiset(Hits(h, fs)) == multiset(Hits(h, Without(fs, j))) + multiset(Hits(h, [fs[j]]))
  {
    WithoutBag(fs, j);
    HitsConcat(h, fs[..j], fs[j + 1..]);
    HitsConcat(h, fs[..j] + [fs[j]], fs[j + 1..]);
    HitsConcat(h, fs[..j], [fs[j]]);
  }

  /** Reordered ratings count the same hits. */
  lemma {:induction false} HitsPermute(h: History, fs: seq<Feedback>, gs: seq<Feedback>)
    requires multiset(fs) == multiset(gs)
    ensures multiset(Hits(h, fs)) == multiset(Hits(h, gs))
  {
    if fs == [] {
      assert |multiset(gs)| == 0;
      assert gs == [];
    } else {
      var j := TakeLast(fs, gs);
      HitsPermute(h, fs[..|fs| - 1], Without(gs, j));
      HitsWithout(h, gs, j);
      HitsWithout(h, fs, |fs| - 1);
      assert Without(fs, |fs| - 1) == fs[..|fs| - 1];
    }
  }

  lemma {:induction false} HitOccurrences(hits: seq<Hit>, t: string, id: string)
    ensures multiset(HitsOn(hits, t))[id] == multiset(hits)[Hit(t, id)]
  {
    if hits != [] {
      var n := |hits| - 1;
      HitOccurrences(hits[..n], t, id);
      assert hits == hits[..n] + [hits[n]];
    }
  }

  lemma HitsOnPermute(a: seq<Hit>, b: seq<Hit>, t: string)
    requires multiset(a) == multiset(b)
    ensures |HitsOn(a, t)| == |HitsOn(b, t)| && SortedSet(HitsOn(a, t)) == SortedSet(HitsOn(b, t))
  {
    forall id ensures multiset(HitsOn(a, t))[id] == multiset(HitsOn(b, t))[id] {
      HitOccurrences(a, t, id);
      HitOccurrences(b, t, id);
    }
    assert multiset(HitsOn(a, t)) == multiset(HitsOn(b, t));
    SameBag(HitsOn(a, t), HitsOn(b, t));
    SortedSetCanonical(HitsOn(a, t), HitsOn(b, t));
  }

  lemma HitTopicsPermute(a: seq<Hit>, b: seq<Hit>)
    requires multiset(a) == multiset(b)
    ensures HitTopics(a) == HitTopics(b)
  {
    SameBag(a, b);
    forall t ensures t in HitTopics(a) <==> t in HitTopics(b) {
      if t in HitTopics(a) {
        var i :| 0 <= i < |a| && a[i].topic == t;
        assert a[i] in b;
      }
      if t in HitTopics(b) {
        var i :| 0 <= i < |b| && b[i].topic == t;
        assert b[i] in a;
      }
    }
  }

  lemma LowRatingsPermute(a: seq<Hit>, b: seq<Hit>)
    requires multiset(a) == multiset(b)
    ensures LowRatingsOf(a) == LowRatingsOf(b)
  {
    HitTopicsPermute(a, b);
    forall t { HitsOnPermute(a, b, t); }
    assert LowRatingsOf(a).counts == LowRatingsOf(b).counts;
    assert LowRatingsOf(a).ids == LowRatingsOf(b).ids;
  }

  lemma LowIndexIgnoresOrder(h: History, fs: seq<Feedback>, gs: seq<Feedback>)
    requires multiset(fs) == multiset(gs)
    ensures LowIndex(h, Some(fs)) == LowIndex(h, Some(gs))
  {
    HitsPermute(h, fs, gs);
    LowRatingsPermute(Hits(h, fs), Hits(h, gs));
  }

  /** The report does not depend on the order in which interactions and ratings are delivered. */
  lemma ReportIgnoresOrder(xs: seq<Interaction>, ys: seq<Interaction>, user: string, fs: seq<Feedback>,
                           gs: seq<Feedback>, th: Thresholds, profile: Option<Profile>)
    requires Consistent(xs, user) && multiset(xs) == multiset(ys) && multiset(fs) == multiset(gs)
    ensures HistoryOf(xs, user) == HistoryOf(ys, user)
    ensures Fault(xs, user, Some(fs), th, profile) == Fault(ys, user, Some(gs), th, profile)
    ensures Report(xs, user, Some(fs), th, profile) == Report(ys, user, Some(gs), th, profile)
  {
    SameHistory(xs, ys, user);
    LowIndexIgnoresOrder(HistoryOf(xs, user), fs, gs);
  }

  // ----- thresholds below one -----

  const LONE := Interaction("i", "s", "u", "2024", "t", None, 0, Details("class", "level", "response", false))

  /** A single unremarkable interaction: every observed value is zero. */
  lemma LoneHistory(r: Interaction)
    requires r.explainCount == 0 && r.followUpOf.None?
    ensures HistoryOf([r], r.user).topics == [TopicAggregate(r.topic, [r.id], [r.session], 0, [], [])]
  {
    assert Kept([r][..0], r.user) == [];
    assert Kept([r], r.user) == [r];
    SortOne(r, RecordBefore);
    assert Tags([r]) == [r.topic];
    SortedOne(r.topic);
    LoneSummary(r);
  }

  lemma LoneSummary(r: Interaction)
    requires r.explainCount == 0 && r.followUpOf.None?
    ensures Summary(r.topic, OnTopic([r], r.topic)) == TopicAggregate(r.topic, [r.id], [r.session], 0, [], [])
  {
    var one, none := [r], [r][..0];
    assert OnTopic(none, r.topic) == [] && Explained(none) == [] && FollowUps(none) == [] && ExplainSum(none) == 0;
    assert OnTopic(one, r.topic) == one && Explained(one) == [] && FollowUps(one) == [] && ExplainSum(one) == 0;
    assert IdList(one) == [r.id] && SessionList(one) == [r.session] && IdList([]) == [];
    SortOne(r.id, Before);
    SortedOne(r.session);
  }

  lemma SortOne<T>(x: T, lt: (T, T) -> bool)
    ensures Sort([x], lt) == [x]
  {
    assert Sort([x][..0], lt) == [];
  }

  lemma SortedOne(x: string)
    ensures SortedSet([x]) == [x]
  {
    assert Distinct([x][..0]) == [];
    assert Distinct([x]) == [x];
    SortOne(x, Before);
  }

  /** A signal fired on nothing can be built exactly when its threshold is not negative. */
  lemma EmptySignals(t: TopicAggregate, th: Thresholds, low: LowRatings)
    requires t.explainTotal == 0 && t.explainIds == [] && t.followUpIds == []
    requires low == LowRatings(true, map[], map[])
    ensures SignalsFor(t, th, low) != [] <==> !AtLeastOne(th)
    ensures forall s | s in SignalsFor(t, th, low) ::
              s.ids == [] && CheckSignal(s) == if s.threshold < 0 then Some(NegativeField) else None
    ensures (exists s | s in SignalsFor(t, th, low) :: s.threshold < 0) <==> Negative(th)
  {
    SignalsFrom(t, th, low);
  }

  lemma SignalsFrom(t: TopicAggregate, th: Thresholds, low: LowRatings)
    ensures forall s :: s in SignalsFor(t, th, low)
                   <==> Some(s) in {ExplainSignal(t, th), FollowUpSignal(t, th), LowSignal(t, th, low)}
  {
    var e, f, l := ExplainSignal(t, th), FollowUpSignal(t, th), LowSignal(t, th, low);
    forall s ensures s in SignalsFor(t, th, low) <==> Some(s) in {e, f, l} {
      assert s in SignalsFor(t, th, low) <==> s in Present(e) || s in Present(f) || s in Present(l);
    }
  }

  predicate Negative(th: Thresholds) {
    th.explain < 0 || th.followUp < 0 || th.low < 0
  }

  lemma {:induction false} OneKindOfFault<T>(xs: seq<T>, check: T -> Option<Invalid>, fault: Invalid)
    requires forall x | x in xs :: check(x).None? || check(x) == Some(fault)
    ensures FirstFault(xs, check).None? || FirstFault(xs, check) == Some(fault)
  {
    if xs != [] {
      assert xs[|xs| - 1] in xs;
      OneKindOfFault(xs[..|xs| - 1], check, fault);
    }
  }

  lemma OneFinding(topics: seq<TopicAggregate>, th: Thresholds, low: LowRatings)
    requires |topics| == 1 && SignalsFor(topics[0], th, low) != []
    ensures Findings(topics, th, low) == [Finding(topics[0].topic, SignalsFor(topics[0], th, low))]
  {
    assert Findings(topics[..0], th, low) == [];
  }

  lemma OneFault<T>(xs: seq<T>, check: T -> Option<Invalid>)
    requires |xs| == 1
    ensures FirstFault(xs, check) == check(xs[0])
  {
    assert FirstFault(xs[..0], check) == None;
  }

  lemma {:induction false} NoIds(signals: seq<Signal>)
    requires forall s | s in signals :: s.ids == []
    ensures AllIds(signals) == []
  {
    if signals != [] {
      assert signals[|signals| - 1] in signals;
      NoIds(signals[..|signals| - 1]);
    }
  }

  /** What one topic without any sign of struggle raises when a threshold is below one. */
  lemma QuietTopic(topics: seq<TopicAggregate>, th: Thresholds, low: LowRatings)
    requires |topics| == 1 && low == LowRatings(true, map[], map[]) && !AtLeastOne(th)
    requires topics[0].explainTotal == 0 && topics[0].explainIds == [] && topics[0].followUpIds == []
    ensures if Negative(th) then SignalFault(topics, th, low) == Some(NegativeField)
            else SignalFault(topics, th, low).None?
                 && GapFault(Findings(topics, th, low), []) == Some(EmptyEvidence)
  {
    var t := topics[0];
    var signals := SignalsFor(t, th, low);
    EmptySignals(t, th, low);
    OneFault(topics, (x: TopicAggregate) => TopicFault(x, th, low));
    OneKindOfFault(signals, CheckSignal, NegativeField);
    NoFaultIff(signals, CheckSignal);
    OneFinding(topics, th, low);
    QuietGap(Finding(t.topic, signals));
  }

  lemma QuietGap(f: Finding)
    requires forall s | s in f.signals :: s.ids == []
    ensures GapFault([f], []) == Some(EmptyEvidence)
  {
    NoIds(f.signals);
    OneFault(StruggleList([f]), Check);
    assert StruggleGap(f).evidence.ids == [];
  }

  /** A threshold below one fires on nothing, and then the report cannot be built: a negative one is
      refused with its signal, a zero with the empty evidence of its gap. */
  lemma LowThresholdRaises(th: Thresholds)
    requires !AtLeastOne(th)
    ensures Fault([LONE], "u", Some([]), th, None) == Some(if Negative(th) then NegativeField else EmptyEvidence)
  {
    LoneHistory(LONE);
    var h := HistoryOf([LONE], "u");
    QuietTopic(h.topics, th, LowIndex(h, Some([])));
  }

  /** For all well-typed inputs the report can be built and the guard rejects nothing, if and only if
      every threshold is at least one. */
  lemma NothingRejectedIff(th: Thresholds)
    ensures (forall records, user, feedback, profile | WellTyped(records, profile) ::
               && Fault(records, user, feedback, th, profile).None?
               && Report(records, user, feedback, th, profile) == CandidateGaps(records, user, feedback, th, profile))
       <==> th.explain >= 1 && th.followUp >= 1 && th.low >= 1
  {
    if AtLeastOne(th) {
      forall records, user, feedback, profile | WellTyped(records, profile)
        ensures Fault(records, user, feedback, th, profile).None?
        ensures Report(records, user, feedback, th, profile) == CandidateGaps(records, user, feedback, th, profile)
      {
        NothingRaised(records, user, feedback, th, profile);
        NothingRejected(records, user, feedback, th, profile);
      }
    } else {
      LowThresholdRaises(th);
      assert WellTyped([LONE], None);
    }
  }

  // ----- monotonicity -----

  lemma {:induction false} KeptGrows(xs: seq<Interaction>, more: seq<Interaction>, user: string)
    returns (extra: seq<Interaction>)
    ensures Kept(xs + more, user) == Kept(xs, user) + extra
  {
    if more == [] {
      assert xs + more == xs;
      extra := [];
    } else {
      var n := |more| - 1;
      var before := KeptGrows(xs, more[..n], user);
      assert (xs + more)[..|xs + more| - 1] == xs + more[..n];
      extra := if Kept(xs + more, user) == Kept(xs + more[..n], user) then before else before + [more[n]];
    }
  }

  lemma {:induction false} TopicOccurrences(xs: seq<Interaction>, t: string, r: Interaction)
    ensures multiset(OnTopic(xs, t))[r] == if r.topic == t then multiset(xs)[r] else 0
  {
    if xs != [] {
      var n := |xs| - 1;
      TopicOccurrences(xs[..n], t, r);
      assert xs == xs[..n] + [xs[n]];
    }
  }

  lemma OnTopicPermutes(a: seq<Interaction>, b: seq<Interaction>, t: string)
    requires multiset(a) == multiset(b)
    ensures multiset(OnTopic(a, t)) == multiset(OnTopic(b, t))
  {
    forall r ensures multiset(OnTopic(a, t))[r] == multiset(OnTopic(b, t))[r] {
      TopicOccurrences(a, t, r);
      TopicOccurrences(b, t, r);
    }
  }

  lemma {:induction false} OnTopicConcat(a: seq<Interaction>, b: seq<Interaction>, t: string)
    ensures OnTopic(a + b, t) == OnTopic(a, t) + OnTopic(b, t)
  {
    if b == [] {
      assert a + b == a;
    } else {
      OnTopicConcat(a, b[..|b| - 1], t);
      assert (a + b)[..|a + b| - 1] == a + b[..|b| - 1];
    }
  }

  lemma {:induction false} ExplainSumConcat(a: seq<Interaction>, b: seq<Interaction>)
    ensures ExplainSum(a + b) == ExplainSum(a) + ExplainSum(b)
  {
    if b == [] {
      assert a + b == a;
    } else {
      ExplainSumConcat(a, b[..|b| - 1]);
      assert (a + b)[..|a + b| - 1] == a + b[..|b| - 1];
    }
  }

  lemma {:induction false} FollowUpsConcat(a: seq<Interaction>, b: seq<Interaction>)
    ensures FollowUps(a + b) == FollowUps(a) + FollowUps(b)
  {
    if b == [] {
      assert a + b == a;
    } else {
      FollowUpsConcat(a, b[..|b| - 1]);
      assert (a + b)[..|a + b| - 1] == a + b[..|b| - 1];
    }
  }

  lemma Concats(a: seq<Interaction>, b: seq<Interaction>)
    ensures ExplainSum(a + b) == ExplainSum(a) + ExplainSum(b)
    ensures FollowUps(a + b) == FollowUps(a) + FollowUps(b)
  {
    ExplainSumConcat(a, b);
    FollowUpsConcat(a, b);
  }

  lemma TotalsWithout(a: seq<Interaction>, j: nat)
    requires j < |a|
    ensures ExplainSum(a) == ExplainSum(Without(a, j)) + a[j].explainCount
    ensures |FollowUps(a)| == |FollowUps(Without(a, j))| + if a[j].followUpOf.Some? then 1 else 0
  {
    WithoutBag(a, j);
    Concats(a[..j], a[j + 1..]);
    Concats(a[..j] + [a[j]], a[j + 1..]);
    Concats(a[..j], [a[j]]);
    var one := [a[j]];
    assert one[..0] == [];
    assert ExplainSum(one) == a[j].explainCount;
    assert |FollowUps(one)| == if a[j].followUpOf.Some? then 1 else 0;
  }

  /** Totals and follow-up counts depend on the bag of records alone. */
  lemma {:induction false} TotalsPermute(a: seq<Interaction>, b: seq<Interaction>)
    requires multiset(a) == multiset(b)
    ensures ExplainSum(a) == ExplainSum(b) && |FollowUps(a)| == |FollowUps(b)|
    decreases |a|
  {
    SameBag(a, b);
    if a != [] {
      var j := TakeLast(a, b);
      TotalsPermute(a[..|a| - 1], Without(b, j));
      TotalsWithout(b, j);
      TotalsWithout(a, |a| - 1);
      assert Without(a, |a| - 1) == a[..|a| - 1];
    }
  }

  lemma IdsPermute(a: seq<Interaction>, b: seq<Interaction>)
    requires forall r | r in a :: r in b
    ensures Elements(Sort(IdList(a), Before)) <= Elements(Sort(IdList(b), Before))
  {
    SortPermutes(IdList(a), Before);
    SortPermutes(IdList(b), Before);
    forall id | id in IdList(a) ensures id in IdList(b) {
      var i :| 0 <= i < |a| && IdList(a)[i] == id;
      assert a[i] in b;
      var j :| 0 <= j < |b| && b[j] == a[i];
      assert IdList(b)[j] == id;
    }
  }

  /** Every observed value and evidence set of a topic. */
  ghost predicate NoSmaller(a: TopicAggregate, b: TopicAggregate) {
    && a.topic == b.topic
    && a.explainTotal <= b.explainTotal && |a.followUpIds| <= |b.followUpIds|
    && Elements(a.explainIds) <= Elements(b.explainIds) && Elements(a.followUpIds) <= Elements(b.followUpIds)
  }

  lemma SummaryGrows(a: seq<Interaction>, b: seq<Interaction>, extra: seq<Interaction>, t: string)
    requires multiset(b) == multiset(a + extra)
    ensures NoSmaller(Summary(t, OnTopic(a, t)), Summary(t, OnTopic(b, t)))
  {
    var on, more, all := OnTopic(a, t), OnTopic(extra, t), OnTopic(b, t);
    OnTopicPermutes(b, a + extra, t);
    OnTopicConcat(a, extra, t);
    TotalsPermute(all, on + more);
    Concats(on, more);
    SameBag(all, on + more);
    assert forall r | r in on :: r in all;
    ExplainedFacts(on);
    ExplainedFacts(all);
    FollowUpsFacts(on);
    FollowUpsFacts(all);
    IdsPermute(Explained(on), Explained(all));
    IdsPermute(FollowUps(on), FollowUps(all));
    SortPermutes(IdList(FollowUps(on)), Before);
    SortPermutes(IdList(FollowUps(all)), Before);
  }

  lemma {:induction false} TopicByIdComplete(records: seq<Interaction>, r: Interaction)
    requires DistinctIds(records) && r in records
    ensures TopicById(records, r.id) == Some(r.topic)
  {
    var n := |records| - 1;
    if r != records[n] {
      assert records == records[..n] + [records[n]];
      assert r in records[..n];
      TopicByIdComplete(records[..n], r);
    }
  }

  lemma {:induction false} HitsGrow(h: History, h': History, fs: seq<Feedback>)
    requires h.user == h'.user && DistinctIds(h'.interactions)
    requires forall r | r in h.interactions :: r in h'.interactions
    ensures forall t :: HitsNoFewer(Hits(h, fs), Hits(h', fs), t)
  {
    if fs != [] {
      var n := |fs| - 1;
      HitsGrow(h, h', fs[..n]);
      RatedTopicStays(h, h', fs[n]);
      forall t ensures HitsNoFewer(Hits(h, fs), Hits(h', fs), t) {
        assert HitsNoFewer(Hits(h, fs[..n]), Hits(h', fs[..n]), t);
        OneMoreRating(h, fs, t);
        OneMoreRating(h', fs, t);
      }
    }
  }

  ghost predicate HitsNoFewer(a: seq<Hit>, b: seq<Hit>, t: string) {
    |HitsOn(a, t)| <= |HitsOn(b, t)| && forall id | id in HitsOn(a, t) :: id in HitsOn(b, t)
  }

  lemma OneMoreRating(h: History, fs: seq<Feedback>, t: string)
    requires fs != []
    ensures var n := |fs| - 1;
      HitsOn(Hits(h, fs), t)
      == HitsOn(Hits(h, fs[..n]), t) + if RatedTopic(h, fs[n]) == Some(t) then [fs[n].interaction] else []
  {
    var n := |fs| - 1;
    if RatedTopic(h, fs[n]).Some? {
      HitsOnGrow(Hits(h, fs[..n]), Hit(RatedTopic(h, fs[n]).value, fs[n].interaction), t);
    } else {
      assert Hits(h, fs[..n]) + [] == Hits(h, fs[..n]);
    }
  }

  lemma RatedTopicStays(h: History, h': History, f: Feedback)
    requires h.user == h'.user && DistinctIds(h'.interactions)
    requires forall r | r in h.interactions :: r in h'.interactions
    ensures RatedTopic(h, f).Some? ==> RatedTopic(h', f) == RatedTopic(h, f)
  {
    if RatedTopic(h, f).Some? {
      TopicByIdSound(h.interactions, f.interaction);
      var r :| r in h.interactions && r.id == f.interaction && r.topic == RatedTopic(h, f).value;
      TopicByIdComplete(h'.interactions, r);
    }
  }

  lemma {:induction false} HitsOnConcat(a: seq<Hit>, b: seq<Hit>, t: string)
    ensures HitsOn(a + b, t) == HitsOn(a, t) + HitsOn(b, t)
  {
    if b == [] {
      assert a + b == a;
    } else {
      var n := |b| - 1;
      HitsOnConcat(a, b[..n], t);
      assert (a + b)[..|a + b| - 1] == a + b[..n];
    }
  }

  /** The low-rating value and evidence of a topic; a topic without an entry counts zero. */
  function LowIds(low: LowRatings, t: string): seq<string> {
    if t in low.ids then low.ids[t] else []
  }

  lemma LowValues(h: History, fs: seq<Feedback>, t: string)
    ensures var low := LowIndex(h, Some(fs));
      && LowCount(low, t) == |HitsOn(Hits(h, fs), t)|
      && Elements(LowIds(low, t)) == Elements(HitsOn(Hits(h, fs), t))
  {
    SortedSetFacts(HitsOn(Hits(h, fs), t));
    if t !in HitTopics(Hits(h, fs)) { NoHits(Hits(h, fs), t); }
  }

  lemma LowGrows(h: History, h': History, fs: seq<Feedback>, more: seq<Feedback>, t: string)
    requires h.user == h'.user && DistinctIds(h'.interactions)
    requires forall r | r in h.interactions :: r in h'.interactions
    ensures LowCount(LowIndex(h, Some(fs)), t) <= LowCount(LowIndex(h', Some(fs + more)), t)
    ensures Elements(LowIds(LowIndex(h, Some(fs)), t)) <= Elements(LowIds(LowIndex(h', Some(fs + more)), t))
  {
    LowValues(h, fs, t);
    LowValues(h', fs + more, t);
    HitsGrow(h, h', fs);
    assert HitsNoFewer(Hits(h, fs), Hits(h', fs), t);
    HitsConcat(h', fs, more);
    HitsOnConcat(Hits(h', fs), Hits(h', more), t);
  }

  /** Each signal of `f` is still there in `g`, observed at least as often on at least the evidence. */
  ghost predicate Strengthens(f: Finding, g: Finding) {
    && f.topic == g.topic
    && forall s | s in f.signals :: exists s' | s' in g.signals ::
         s'.kind == s.kind && s'.observed >= s.observed && Elements(s.ids) <= Elements(s'.ids)
  }

  lemma SignalsGrow(a: TopicAggregate, b: TopicAggregate, th: Thresholds, low: LowRatings, low': LowRatings)
    requires NoSmaller(a, b) && (low.evaluated ==> low'.evaluated)
    requires low.evaluated ==> LowCount(low, a.topic) <= LowCount(low', a.topic)
                               && Elements(LowIds(low, a.topic)) <= Elements(LowIds(low', a.topic))
    ensures Strengthens(Finding(a.topic, SignalsFor(a, th, low)), Finding(b.topic, SignalsFor(b, th, low')))
  {
    forall s | s in SignalsFor(a, th, low)
      ensures exists s' | s' in SignalsFor(b, th, low') ::
                s'.kind == s.kind && s'.observed >= s.observed && Elements(s.ids) <= Elements(s'.ids)
    {
      if s in Present(ExplainSignal(a, th)) {
        var s' := ExplainSignal(b, th).value;
        assert s' in Present(ExplainSignal(b, th)) && s' in SignalsFor(b, th, low');
      } else if s in Present(FollowUpSignal(a, th)) {
        var s' := FollowUpSignal(b, th).value;
        assert s' in Present(FollowUpSignal(b, th)) && s' in SignalsFor(b, th, low');
      } else {
        assert s in Present(LowSignal(a, th, low));
        var s' := LowSignal(b, th, low').value;
        assert s' in Present(LowSignal(b, th, low')) && s' in SignalsFor(b, th, low');
      }
    }
  }

  lemma FindingGrows(a: TopicAggregate, b: TopicAggregate, th: Thresholds, low: LowRatings, low': LowRatings,
                     f: Finding) returns (g: Finding)
    requires NoSmaller(a, b) && (low.evaluated ==> low'.evaluated) && FoundAt(a, th, low, f)
    requires low.evaluated ==> LowCount(low, a.topic) <= LowCount(low', a.topic)
                               && Elements(LowIds(low, a.topic)) <= Elements(LowIds(low', a.topic))
    ensures FoundAt(b, th, low', g) && Strengthens(f, g)
  {
    g := Finding(b.topic, SignalsFor(b, th, low'));
    SignalsGrow(a, b, th, low, low');
  }

  /** More ratings than before; a source that could not be read may become readable. */
  predicate Extends(before: Option<seq<Feedback>>, after: Option<seq<Feedback>>) {
    before.None? || (after.Some? && before.value <= after.value)
  }

  /** Further interactions and ratings never remove a struggle: every finding is still there, with
      each of its signals observed at least as often and on at least the same evidence. */
  lemma FindingsNeverShrink(xs: seq<Interaction>, more: seq<Interaction>, user: string, before: Option<seq<Feedback>>,
                            after: Option<seq<Feedback>>, th: Thresholds, f: Finding) returns (g: Finding)
    requires Extends(before, after) && f in FindingsOf(xs, user, before, th)
    ensures g in FindingsOf(xs + more, user, after, th) && Strengthens(f, g)
  {
    var h, h' := HistoryOf(xs, user), HistoryOf(xs + more, user);
    var low, low' := LowIndex(h, before), LowIndex(h', after);
    FoundIff(h.topics, th, low, f);
    var found :| found in h.topics && FoundAt(found, th, low, f);
    var i :| 0 <= i < |h.topics| && h.topics[i] == found;
    var t := f.topic;
    var k := TopicPersists(xs, more, user, i);
    HistoryGrows(xs, more, user);
    LowSideGrows(h, h', before, after, t);
    g := FindingGrows(found, h'.topics[k], th, low, low', f);
    assert h'.topics[k] in h'.topics;
    FoundIff(h'.topics, th, low', g);
  }

  lemma LowSideGrows(h: History, h': History, before: Option<seq<Feedback>>, after: Option<seq<Feedback>>, t: string)
    requires Extends(before, after) && h.user == h'.user && DistinctIds(h'.interactions)
    requires forall r | r in h.interactions :: r in h'.interactions
    ensures var low, low' := LowIndex(h, before), LowIndex(h', after);
      && (low.evaluated ==> low'.evaluated)
      && (low.evaluated ==>
            LowCount(low, t) <= LowCount(low', t) && Elements(LowIds(low, t)) <= Elements(LowIds(low', t)))
  {
    if before.Some? {
      var rest := after.value[|before.value|..];
      assert after.value == before.value + rest;
      LowGrows(h, h', before.value, rest, t);
    }
  }

  /** The same for any larger delivery in any order, if the learner's duplicates agree. */
  lemma FindingsSurviveInAnyOrder(xs: seq<Interaction>, ys: seq<Interaction>, user: string,
                                  before: Option<seq<Feedback>>, after: Option<seq<Feedback>>, th: Thresholds,
                                  f: Finding) returns (g: Finding)
    requires multiset(xs) <= multiset(ys) && Consistent(ys, user)
    requires before.None? || (after.Some? && multiset(before.value) <= multiset(after.value))
    requires f in FindingsOf(xs, user, before, th)
    ensures g in FindingsOf(ys, user, after, th) && Strengthens(f, g)
  {
    var more := Remainder(xs, ys);
    var appended := after;
    if before.Some? {
      var rest := Remainder(before.value, after.value);
      appended := Some(before.value + rest);
    }
    g := FindingsNeverShrink(xs, more, user, before, appended, th, f);
    SameHistory(ys, xs + more, user);
    if before.Some? { LowIndexIgnoresOrder(HistoryOf(ys, user), after.value, appended.value); }
  }

  lemma SameHistory(xs: seq<Interaction>, ys: seq<Interaction>, user: string)
    requires Consistent(xs, user) && multiset(xs) == multiset(ys)
    ensures HistoryOf(xs, user) == HistoryOf(ys, user)
  {
    OwnOfPermutation(xs, ys, user);
    SameDelivery(xs, ys, user);
    CountersIgnoreOrder(xs, ys, user);
  }

  lemma HistoryGrows(xs: seq<Interaction>, more: seq<Interaction>, user: string)
    ensures var a, b := HistoryOf(xs, user).interactions, HistoryOf(xs + more, user).interactions;
      && DistinctIds(b) && (forall r | r in a :: r in b)
      && exists extra :: multiset(b) == multiset(a + extra)
  {
    var extra := KeptGrows(xs, more, user);
    var a, b := Kept(xs, user), Kept(xs + more, user);
    SortPermutes(a, RecordBefore);
    SortPermutes(b, RecordBefore);
    SameBag(Sort(a, RecordBefore), a);
    SameBag(Sort(b, RecordBefore), b);
    assert multiset(Sort(b, RecordBefore)) == multiset(Sort(a, RecordBefore) + extra);
    CountingConserves(xs + more, user);
  }

  lemma TagPersists(a: seq<Interaction>, b: seq<Interaction>, i: nat) returns (k: nat)
    requires i < |SortedSet(Tags(a))| && forall r | r in a :: r in b
    ensures k < |SortedSet(Tags(b))| && SortedSet(Tags(b))[k] == SortedSet(Tags(a))[i]
  {
    var tags, tags' := SortedSet(Tags(a)), SortedSet(Tags(b));
    var t := tags[i];
    SortedSetFacts(Tags(a));
    assert t in Elements(tags) && t in Tags(a);
    var j :| 0 <= j < |a| && Tags(a)[j] == t;
    assert a[j] in a && a[j] in b;
    TopicListed(b, a[j]);
    k :| 0 <= k < |tags'| && tags'[k] == t;
  }

  /** A topic of the smaller history is a topic of the larger one, with no smaller values. */
  lemma TopicPersists(xs: seq<Interaction>, more: seq<Interaction>, user: string, i: nat) returns (k: nat)
    requires i < |HistoryOf(xs, user).topics|
    ensures k < |HistoryOf(xs + more, user).topics|
    ensures NoSmaller(HistoryOf(xs, user).topics[i], HistoryOf(xs + more, user).topics[k])
  {
    var a, b := HistoryOf(xs, user).interactions, HistoryOf(xs + more, user).interactions;
    HistoryGrows(xs, more, user);
    var extra :| multiset(b) == multiset(a + extra);
    k := TagPersists(a, b, i);
    SummaryGrows(a, b, extra, SortedSet(Tags(a))[i]);
  }
}
