/**
 What the stages of the report compute, said of the delivered records and ratings themselves: which
 records are kept and in what order, what a topic's summary holds, which ratings count, and what each
 signal reports.
 */
module HistoryLaws {
  import opened Prelude
  import opened Ordering
  import opened Counting
  import opened Aggregation
  import opened Signals
  import opened GapModels
  import opened GapReport
  import opened GapEvidence
  import opened GapLaws

  // ----- counting -----

  /** The i-th record is the learner's, and the first of its identifier. */
  predicate FirstDelivery(xs: seq<Interaction>, user: string, i: nat)
    requires i < |xs|
  {
    xs[i].user == user && forall j | 0 <= j < i :: !(xs[j].user == user && xs[j].id == xs[i].id)
  }

  ghost predicate Delivered(xs: seq<Interaction>, user: string, r: Interaction) {
    exists i: nat | i < |xs| :: xs[i] == r && FirstDelivery(xs, user, i)
  }

  lemma DeliveredGrows(xs: seq<Interaction>, x: Interaction, user: string, r: Interaction)
    ensures Delivered(xs + [x], user, r)
       <==> Delivered(xs, user, r) || (r == x && FirstDelivery(xs + [x], user, |xs|))
  {
    var all := xs + [x];
    if i: nat :| i < |xs| && xs[i] == r && FirstDelivery(xs, user, i) {
      assert all[i] == r && FirstDelivery(all, user, i);
    }
    if i: nat :| i < |all| && all[i] == r && FirstDelivery(all, user, i) {
      if i < |xs| {
        forall j | 0 <= j < i ensures !(xs[j].user == user && xs[j].id == xs[i].id) { assert xs[j] == all[j]; }
        assert xs[i] == r && FirstDelivery(xs, user, i);
      }
    }
  }

  lemma KeptGrowsBy(xs: seq<Interaction>, x: Interaction, user: string)
    ensures Kept(xs + [x], user) == if FirstDelivery(xs + [x], user, |xs|) then Kept(xs, user) + [x] else Kept(xs, user)
  {
    assert (xs + [x])[..|xs|] == xs;
    SeenIff(xs, user, x.id);
  }

  lemma {:induction false} KeptIff(xs: seq<Interaction>, user: string, r: Interaction)
    ensures r in Kept(xs, user) <==> Delivered(xs, user, r)
  {
    if xs != [] {
      var n := |xs| - 1;
      assert xs == xs[..n] + [xs[n]];
      KeptIff(xs[..n], user, r);
      KeptGrowsBy(xs[..n], xs[n], user);
      DeliveredGrows(xs[..n], xs[n], user, r);
    }
  }

  /** An identifier is among the kept ones exactly when an own record carries it. */
  lemma SeenIff(xs: seq<Interaction>, user: string, id: string)
    ensures id in Ids(Kept(xs, user)) <==> exists j | 0 <= j < |xs| :: xs[j].user == user && xs[j].id == id
  {
    var own := Own(xs, user);
    KeptFacts(xs, user);
    OwnFacts(xs, user);
    if id in Ids(own) {
      var i :| 0 <= i < |own| && own[i].id == id;
      assert own[i] in own;
      var j :| 0 <= j < |xs| && xs[j] == own[i];
    }
    if j :| 0 <= j < |xs| && xs[j].user == user && xs[j].id == id {
      assert xs[j] in own;
      var i :| 0 <= i < |own| && own[i] == xs[j];
    }
  }

  /** The qualifying records are the first deliveries, by time asked and then by identifier. */
  lemma QualifyingAre(xs: seq<Interaction>, user: string)
    ensures var q := Qualify(xs, user).records;
      && (forall r :: r in q <==> Delivered(xs, user, r))
      && (forall i, j | 0 <= i < j < |q| ::
            Before(q[i].askedAt, q[j].askedAt) || (q[i].askedAt == q[j].askedAt && Before(q[i].id, q[j].id)))
  {
    forall r { KeptIff(xs, user, r); }
    CountingConserves(xs, user);
    var q := Qualify(xs, user).records;
    SortKeeps(Kept(xs, user), RecordBefore);
    SameBag(q, Kept(xs, user));
    forall i, j | 0 <= i < j < |q| ensures RecordBefore(q[i], q[j]) {}
  }

  // ----- topics -----

  /** Positions of the topic's follow-ups. */
  ghost function FollowUpPositions(xs: seq<Interaction>, topic: string): set<nat> {
    set i: nat | i < |xs| && xs[i].topic == topic && xs[i].followUpOf.Some?
  }

  lemma PositionsGrow(xs: seq<Interaction>, r: Interaction, topic: string)
    ensures |FollowUpPositions(xs + [r], topic)|
         == |FollowUpPositions(xs, topic)| + if r.topic == topic && r.followUpOf.Some? then 1 else 0
  {
    var before, after := FollowUpPositions(xs, topic), FollowUpPositions(xs + [r], topic);
    if r.topic == topic && r.followUpOf.Some? {
      assert after == before + {|xs|};
    } else {
      assert after == before;
    }
  }

  lemma FollowUpsGrow(xs: seq<Interaction>, r: Interaction, topic: string)
    ensures |FollowUps(OnTopic(xs + [r], topic))|
         == |FollowUps(OnTopic(xs, topic))| + if r.topic == topic && r.followUpOf.Some? then 1 else 0
  {
    var on := OnTopic(xs, topic);
    OnTopicGrows(xs, r, topic);
    if r.topic == topic {
      assert (on + [r])[..|on|] == on;
    } else {
      assert on + [] == on;
    }
  }

  lemma {:induction false} FollowUpCount(records: seq<Interaction>, topic: string)
    ensures |FollowUps(OnTopic(records, topic))| == |FollowUpPositions(records, topic)|
  {
    if records == [] {
      assert FollowUpPositions(records, topic) == {};
    } else {
      var n := |records| - 1;
      PrefixGrows(records, n);
      WholePrefix(records);
      FollowUpCount(records[..n], topic);
      FollowUpsGrow(records[..n], records[n], topic);
      PositionsGrow(records[..n], records[n], topic);
    }
  }

  /** The explain-differently counts of a topic's records, added up from the front. */
  function ExplainTotal(records: seq<Interaction>, topic: string): nat {
    if records == [] then 0
    else (if records[0].topic == topic then records[0].explainCount else 0) + ExplainTotal(records[1..], topic)
  }

  lemma ExplainTotalOne(r: Interaction, topic: string)
    ensures ExplainTotal([r], topic) == if r.topic == topic then r.explainCount else 0
  {
    assert [r][1..] == [] && ExplainTotal([], topic) == 0;
  }

  lemma {:induction false} ExplainTotalConcat(a: seq<Interaction>, b: seq<Interaction>, topic: string)
    ensures ExplainTotal(a + b, topic) == ExplainTotal(a, topic) + ExplainTotal(b, topic)
  {
    if a == [] {
      assert a + b == b;
    } else {
      assert (a + b)[1..] == a[1..] + b;
      ExplainTotalConcat(a[1..], b, topic);
    }
  }

  lemma ExplainSumGrows(xs: seq<Interaction>, r: Interaction, topic: string)
    ensures ExplainSum(OnTopic(xs + [r], topic))
         == ExplainSum(OnTopic(xs, topic)) + if r.topic == topic then r.explainCount else 0
  {
    var on := OnTopic(xs, topic);
    OnTopicGrows(xs, r, topic);
    if r.topic == topic {
      assert (on + [r])[..|on|] == on;
    } else {
      assert on + [] == on;
    }
  }

  lemma {:induction false} ExplainTotalIs(records: seq<Interaction>, topic: string)
    ensures ExplainSum(OnTopic(records, topic)) == ExplainTotal(records, topic)
  {
    if records != [] {
      var n := |records| - 1;
      PrefixGrows(records, n);
      WholePrefix(records);
      ExplainTotalIs(records[..n], topic);
      ExplainSumGrows(records[..n], records[n], topic);
      ExplainTotalConcat(records[..n], [records[n]], topic);
      ExplainTotalOne(records[n], topic);
    }
  }

  lemma ListedIds(part: seq<Interaction>)
    ensures var ids := Sort(IdList(part), Before);
      && |ids| == |part| && (forall id :: id in ids <==> exists r | r in part :: r.id == id)
  {
    SortPermutes(IdList(part), Before);
    SortKeeps(IdList(part), Before);
    SameBag(Sort(IdList(part), Before), IdList(part));
    forall id ensures id in IdList(part) <==> exists r | r in part :: r.id == id {
      if id in IdList(part) {
        var i :| 0 <= i < |part| && IdList(part)[i] == id;
        assert part[i] in part;
      }
      if r :| r in part && r.id == id {
        var i :| 0 <= i < |part| && part[i] == r;
        assert IdList(part)[i] == id;
      }
    }
  }

  lemma ListedSessions(part: seq<Interaction>)
    ensures var ids := SortedSet(SessionList(part));
      Ascending(ids, Before) && forall id :: id in ids <==> exists r | r in part :: r.session == id
  {
    SortedSetFacts(SessionList(part));
    forall id ensures id in SortedSet(SessionList(part)) <==> exists r | r in part :: r.session == id {
      assert id in SortedSet(SessionList(part)) <==> id in Elements(SortedSet(SessionList(part)));
      if id in SessionList(part) {
        var i :| 0 <= i < |part| && SessionList(part)[i] == id;
        assert part[i] in part;
      }
      if r :| r in part && r.session == id {
        var i :| 0 <= i < |part| && part[i] == r;
        assert SessionList(part)[i] == id;
      }
    }
  }

  /** What the summary of a topic holds, in terms of the records. */
  lemma SummaryHolds(records: seq<Interaction>, topic: string)
    ensures var s := Summary(topic, OnTopic(records, topic));
      && s.topic == topic && s.explainTotal == ExplainTotal(records, topic)
      && |s.followUpIds| == |FollowUpPositions(records, topic)|
      && (forall id :: id in s.interactionIds <==> exists r | r in records :: r.id == id && r.topic == topic)
      && (forall id :: id in s.explainIds <==>
            exists r | r in records :: r.id == id && r.topic == topic && r.explainCount > 0)
      && (forall id :: id in s.followUpIds <==>
            exists r | r in records :: r.id == id && r.topic == topic && r.followUpOf.Some?)
      && (forall id :: id in s.sessionIds <==> exists r | r in records :: r.session == id && r.topic == topic)
  {
    var on := OnTopic(records, topic);
    OnTopicFacts(records, topic);
    ExplainedFacts(on);
    FollowUpsFacts(on);
    ListedIds(on);
    ListedIds(Explained(on));
    ListedIds(FollowUps(on));
    ListedSessions(on);
    ExplainTotalIs(records, topic);
    FollowUpCount(records, topic);
  }

  // ----- ratings -----

  /** A thumbs-down by the learner on an analysed interaction of the topic. */
  ghost predicate Rates(h: History, f: Feedback, topic: string) {
    f.down && f.user == h.user && exists r | r in h.interactions :: r.id == f.interaction && r.topic == topic
  }

  lemma RatesIff(h: History, f: Feedback, topic: string)
    requires DistinctIds(h.interactions)
    ensures RatedTopic(h, f) == Some(topic) <==> Rates(h, f, topic)
  {
    TopicByIdSound(h.interactions, f.interaction);
    if r :| r in h.interactions && r.id == f.interaction && r.topic == topic {
      TopicByIdComplete(h.interactions, r);
    }
  }

  ghost function RatingPositions(h: History, fs: seq<Feedback>, topic: string): set<nat> {
    set i: nat | i < |fs| && Rates(h, fs[i], topic)
  }

  lemma RatingGrows(h: History, fs: seq<Feedback>, f: Feedback, topic: string)
    requires DistinctIds(h.interactions)
    ensures HitsOn(Hits(h, fs + [f]), topic)
         == HitsOn(Hits(h, fs), topic) + if Rates(h, f, topic) then [f.interaction] else []
    ensures |RatingPositions(h, fs + [f], topic)|
         == |RatingPositions(h, fs, topic)| + if Rates(h, f, topic) then 1 else 0
  {
    var all := fs + [f];
    assert all[..|fs|] == fs;
    OneMoreRating(h, all, topic);
    RatesIff(h, f, topic);
    var before, after := RatingPositions(h, fs, topic), RatingPositions(h, all, topic);
    if Rates(h, f, topic) {
      assert after == before + {|fs|};
    } else {
      assert after == before;
    }
  }

  lemma {:induction false} HitsCount(h: History, fs: seq<Feedback>, topic: string)
    requires DistinctIds(h.interactions)
    ensures |HitsOn(Hits(h, fs), topic)| == |RatingPositions(h, fs, topic)|
  {
    if fs == [] {
      assert RatingPositions(h, fs, topic) == {};
    } else {
      var n := |fs| - 1;
      PrefixGrows(fs, n);
      WholePrefix(fs);
      HitsCount(h, fs[..n], topic);
      RatingGrows(h, fs[..n], fs[n], topic);
    }
  }

  ghost predicate Rated(h: History, fs: seq<Feedback>, topic: string, id: string) {
    exists f | f in fs :: Rates(h, f, topic) && f.interaction == id
  }

  lemma RatedGrows(h: History, fs: seq<Feedback>, f: Feedback, topic: string, id: string)
    ensures Rated(h, fs + [f], topic, id) <==> Rated(h, fs, topic, id) || (Rates(h, f, topic) && f.interaction == id)
  {
    forall g ensures g in fs + [f] <==> g in fs || g == f {}
    if Rated(h, fs, topic, id) {
      var g :| g in fs && Rates(h, g, topic) && g.interaction == id;
      assert g in fs + [f];
    }
    if Rates(h, f, topic) && f.interaction == id { assert f in fs + [f]; }
  }

  lemma {:induction false} HitsAre(h: History, fs: seq<Feedback>, topic: string, id: string)
    requires DistinctIds(h.interactions)
    ensures id in HitsOn(Hits(h, fs), topic) <==> Rated(h, fs, topic, id)
  {
    if fs != [] {
      var n := |fs| - 1;
      PrefixGrows(fs, n);
      WholePrefix(fs);
      HitsAre(h, fs[..n], topic, id);
      RatingGrows(h, fs[..n], fs[n], topic);
      RatedGrows(h, fs[..n], fs[n], topic, id);
    }
  }

  /** The index counts, per topic, the positions of the learner's thumbs-down ratings on its analysed
      interactions, lists exactly those interactions in order, and has no entry for any other topic. */
  lemma RatingsCounted(h: History, fs: seq<Feedback>, topic: string)
    requires DistinctIds(h.interactions)
    ensures var low := LowIndex(h, Some(fs));
      && low.evaluated && LowCount(low, topic) == |RatingPositions(h, fs, topic)|
      && (topic in low.counts <==> exists id :: Rated(h, fs, topic, id))
      && (topic in low.ids <==> topic in low.counts)
      && Ascending(LowIds(low, topic), Before)
      && (forall id :: id in LowIds(low, topic) <==> Rated(h, fs, topic, id))
  {
    HitsCount(h, fs, topic);
    LowValues(h, fs, topic);
    forall id { HitsAre(h, fs, topic, id); }
    IndexEntry(Hits(h, fs), topic);
  }

  lemma IndexKeys(hits: seq<Hit>, topic: string)
    ensures topic in LowRatingsOf(hits).counts <==> topic in HitTopics(hits)
    ensures topic in LowRatingsOf(hits).ids <==> topic in HitTopics(hits)
    ensures topic in HitTopics(hits) <==> HitsOn(hits, topic) != []
  {
    HitsOnMembers(hits, topic);
    if topic in HitTopics(hits) {
      var i :| 0 <= i < |hits| && hits[i].topic == topic;
      assert Hit(topic, hits[i].interaction) in hits;
      assert hits[i].interaction in HitsOn(hits, topic);
    } else {
      NoHits(hits, topic);
    }
  }

  lemma IndexEntry(hits: seq<Hit>, topic: string)
    ensures var low, on := LowRatingsOf(hits), HitsOn(hits, topic);
      && (topic in low.counts <==> exists id :: id in on) && (topic in low.ids <==> topic in low.counts)
      && Ascending(LowIds(low, topic), Before) && forall id :: id in LowIds(low, topic) <==> id in on
  {
    var on := HitsOn(hits, topic);
    IndexKeys(hits, topic);
    SortedSetFacts(on);
    forall id ensures id in SortedSet(on) <==> id in on {
      assert id in Elements(SortedSet(on)) <==> id in Elements(on);
    }
    if on != [] { assert on[0] in on; }
  }

  // ----- signals -----

  /** Each signal that fired reports its observed value, its threshold and its evidence. */
  lemma SignalsReport(t: TopicAggregate, th: Thresholds, low: LowRatings, s: Signal)
    ensures s in SignalsFor(t, th, low) <==>
      || (s == Signal(ExplainDifferently, t.explainTotal, th.explain, t.explainIds) && t.explainTotal >= th.explain)
      || (s == Signal(FollowUp, |t.followUpIds|, th.followUp, t.followUpIds) && |t.followUpIds| >= th.followUp)
      || (s == Signal(LowRating, LowCount(low, t.topic), th.low, LowIds(low, t.topic))
          && low.evaluated && LowCount(low, t.topic) >= th.low)
  {
    SignalsFrom(t, th, low);
  }

  /** Ratings that could not be read give no signal, whatever the threshold. */
  lemma UnreadRatingsAreSilent(t: TopicAggregate, th: Thresholds, h: History)
    ensures forall s | s in SignalsFor(t, th, LowIndex(h, None)) :: s.kind != LowRating
    ensures LowCount(LowIndex(h, None), t.topic) == 0 && LowIds(LowIndex(h, None), t.topic) == []
  {
    forall s | s in SignalsFor(t, th, LowIndex(h, None)) ensures s.kind != LowRating {
      SignalsReport(t, th, LowIndex(h, None), s);
    }
  }

  /** The evidence of a struggle gap is exactly that of its signals, once each and in order. */
  lemma GapEvidenceIs(f: Finding)
    ensures var g := StruggleGap(f);
      && g.topic == f.topic && g.gapType == Struggle && g.evidence.basis == InteractionIds
      && g.evidence.perSignal == f.signals && g.signals == Kinds(f.signals)
      && Ascending(g.evidence.ids, Before)
      && forall id :: id in g.evidence.ids <==> exists s | s in f.signals :: id in s.ids
  {
    var all := AllIds(f.signals);
    AllIdsMembers(f.signals);
    SortedSetFacts(all);
    forall id ensures id in SortedSet(all) <==> id in all {
      assert id in Elements(SortedSet(all)) <==> id in Elements(all);
    }
  }

  // ----- unexplored areas -----

  /** Whether the profile says anything about the learner's speciality areas. */
  predicate Readable(profile: Option<Profile>) {
    profile.Some? && (profile.value.status == Available || profile.value.status == Partial)
  }

  /** The unexplored areas are those of a readable profile that no topic covers, sorted. */
  lemma UnexploredIff(profile: Option<Profile>, topics: seq<string>)
    ensures var found := UnexploredAreas(profile, topics);
      && (forall area :: area in found <==>
            Readable(profile) && area in profile.value.areas && area !in topics)
      && (Readable(profile) && NoRepeats(profile.value.areas) ==> Ascending(found, Before))
  {
    if Readable(profile) {
      var areas := NotIn(profile.value.areas, topics);
      assert UnexploredAreas(profile, topics) == Sort(areas, Before);
      NotInMembers(profile.value.areas, topics);
      SortKeeps(areas, Before);
      SameBag(Sort(areas, Before), areas);
      if NoRepeats(profile.value.areas) {
        NotInDistinct(profile.value.areas, topics);
        StringsLinear(areas);
        SortAscends(areas, Before);
      }
    } else {
      if profile.Some? {
        match profile.value.status
        case Available => case Partial => case EmptySource => case Unavailable => case Invalid =>
      }
    }
  }

  lemma {:induction false} NotInDistinct(areas: seq<string>, topics: seq<string>)
    requires NoRepeats(areas)
    ensures NoRepeats(NotIn(areas, topics))
  {
    if areas != [] {
      var n := |areas| - 1;
      NotInDistinct(areas[..n], topics);
      NotInMembers(areas[..n], topics);
      assert areas[n] !in areas[..n];
    }
  }

  /** An unexplored gap claims nothing but absence: one signal, nothing observed, no identifiers. */
  lemma UnexploredGapHolds(area: string)
    ensures var g := UnexploredGap(area);
      && g.topic == area && g.gapType == Unexplored && g.evidence.basis == ZeroInteractions && g.evidence.ids == []
      && g.signals == [UnexploredSpeciality] && |g.evidence.perSignal| == 1
      && forall s | s in g.evidence.perSignal ::
           s.kind == UnexploredSpeciality && s.observed == 0 && s.threshold == 0 && s.ids == []
  {
  }

  // ----- the validators -----

  /** What a signal, an evidence and a gap that could be built satisfy, and nothing more. */
  lemma BuiltIff(s: Signal, e: Evidence, g: Gap)
    ensures CheckSignal(s).None? <==>
              0 <= s.observed && 0 <= s.threshold <= s.observed && forall id | id in s.ids :: id != ""
    ensures CheckEvidence(e).None? <==>
              && (forall id | id in e.ids :: id != "") && NoRepeats(e.ids)
              && (e.basis == InteractionIds <==> e.ids != [])
              && (forall s | s in e.perSignal :: forall id | id in s.ids :: id in e.ids)
    ensures CheckGap(g).None? <==>
              && g.topic != "" && g.signals != [] && NoRepeats(g.signals)
              && (forall i, j | 0 <= i < j < |g.signals| :: Index(g.signals[i]) < Index(g.signals[j]))
              && |g.evidence.perSignal| == |g.signals|
              && (forall i | 0 <= i < |g.signals| :: g.evidence.perSignal[i].kind == g.signals[i])
              && (g.gapType == Struggle <==> g.evidence.basis == InteractionIds)
              && (g.gapType == Unexplored ==> g.signals == [UnexploredSpeciality])
  {
    RepeatFree(e.ids);
    RepeatFree(g.signals);
    forall s: Signal ensures Elements(s.ids) <= Elements(e.ids) <==> forall id | id in s.ids :: id in e.ids {
      if Elements(s.ids) <= Elements(e.ids) {
        forall id | id in s.ids ensures id in e.ids { assert id in Elements(s.ids); }
      }
    }
    if Kinds(g.evidence.perSignal) == g.signals {
      assert |Kinds(g.evidence.perSignal)| == |g.signals|;
      forall i | 0 <= i < |g.signals| ensures g.evidence.perSignal[i].kind == g.signals[i] {
        assert Kinds(g.evidence.perSignal)[i] == g.signals[i];
      }
    }
    forall i, j | 0 <= i < j < |g.signals|
      ensures Index(g.signals[i]) == Index(g.signals[j]) ==> g.signals[i] == g.signals[j]
    {}
  }

  /** Which validator a signal fails first. */
  lemma SignalFaults(s: Signal)
    ensures CheckSignal(s) == Some(NegativeField) <==> s.observed < 0 || s.threshold < 0
    ensures CheckSignal(s) == Some(NotFired)
       <==> 0 <= s.observed < s.threshold && forall id | id in s.ids :: id != ""
    ensures CheckSignal(s).Some? ==>
              || CheckSignal(s) == Some(NegativeField) || CheckSignal(s) == Some(NotFired)
              || CheckSignal(s) == Some(EmptyText)
  {
  }

  /** Which validator an evidence without empty identifiers fails first. */
  lemma EvidenceFaults(e: Evidence)
    requires "" !in e.ids
    ensures CheckEvidence(e) == Some(EmptyEvidence) <==> e.basis == InteractionIds && e.ids == []
    ensures CheckEvidence(e) == Some(UnwantedEvidence) <==> e.basis == ZeroInteractions && e.ids != []
    ensures CheckEvidence(e) == Some(RepeatedIds) <==> e.basis == InteractionIds && e.ids != [] && !NoRepeats(e.ids)
    ensures CheckEvidence(e) == Some(StraySignalIds) <==>
              && NoRepeats(e.ids) && (e.basis == InteractionIds <==> e.ids != [])
              && exists s, id | s in e.perSignal && id in s.ids :: id !in e.ids
    ensures CheckEvidence(e) != Some(EmptyText)
  {
    RepeatFree(e.ids);
    forall s: Signal ensures Elements(s.ids) <= Elements(e.ids) <==> forall id | id in s.ids :: id in e.ids {
      if Elements(s.ids) <= Elements(e.ids) {
        forall id | id in s.ids ensures id in e.ids { assert id in Elements(s.ids); }
      }
    }
  }

  /** The kinds of a gap are in canonical order, repeats aside. */
  predicate Ordered(g: Gap) {
    forall i, j | 0 <= i < j < |g.signals| :: Index(g.signals[i]) <= Index(g.signals[j])
  }

  ghost predicate Matched(g: Gap) {
    && |g.evidence.perSignal| == |g.signals|
    && forall i | 0 <= i < |g.signals| :: g.evidence.perSignal[i].kind == g.signals[i]
  }

  lemma MatchedIff(g: Gap)
    ensures Kinds(g.evidence.perSignal) == g.signals <==> Matched(g)
  {
    var kinds := Kinds(g.evidence.perSignal);
    assert forall i | 0 <= i < |kinds| :: kinds[i] == g.evidence.perSignal[i].kind;
  }

  /** What is refused before the validators proper. */
  lemma PlainFaults(s: Signal, e: Evidence, g: Gap)
    ensures CheckSignal(s) == Some(EmptyText) <==> 0 <= s.observed && 0 <= s.threshold && "" in s.ids
    ensures CheckEvidence(e) == Some(EmptyText) <==> "" in e.ids
    ensures CheckGap(g) == Some(EmptyText) <==> g.topic == ""
    ensures CheckGap(g) == Some(NoSignals) <==> g.topic != "" && g.signals == []
  {
  }

  /** Which validator a gap with a topic and signals fails first. */
  lemma GapFaults(g: Gap)
    requires g.topic != "" && g.signals != []
    ensures CheckGap(g) == Some(DisorderedSignals) <==> !Ordered(g)
    ensures CheckGap(g) == Some(RepeatedSignals) <==> Ordered(g) && !NoRepeats(g.signals)
    ensures CheckGap(g) == Some(MismatchedSignals) <==> Ordered(g) && NoRepeats(g.signals) && !Matched(g)
    ensures CheckGap(g) == Some(WrongBasis) <==>
              && Ordered(g) && NoRepeats(g.signals) && Matched(g)
              && !(g.gapType == Struggle <==> g.evidence.basis == InteractionIds)
    ensures CheckGap(g) == Some(WrongSignals) <==>
              && Ordered(g) && NoRepeats(g.signals) && Matched(g)
              && g.gapType == Unexplored && g.evidence.basis == ZeroInteractions && g.signals != [UnexploredSpeciality]
  {
    RepeatFree(g.signals);
    MatchedIff(g);
  }

  // ----- the guard -----

  ghost predicate Inside(ids: seq<string>, others: set<string>) {
    forall id | id in ids :: id in others
  }

  lemma InsideIff(ids: seq<string>, others: set<string>)
    ensures Elements(ids) <= others <==> Inside(ids, others)
  {
    if Elements(ids) <= others {
      forall id | id in ids ensures id in others { assert id in Elements(ids); }
    }
  }

  lemma {:induction false} SignalReasons(signals: seq<Signal>, ids: set<string>, resolvable: set<string>)
    ensures var found := SignalViolations(signals, ids, resolvable);
      && (SIGNAL_OUTSIDE in found <==> exists s | s in signals :: !Inside(s.ids, ids))
      && (SIGNAL_UNRESOLVED in found <==> exists s | s in signals :: !Inside(s.ids, resolvable))
      && forall x | x in found :: x == SIGNAL_OUTSIDE || x == SIGNAL_UNRESOLVED
  {
    if signals != [] {
      var n := |signals| - 1;
      var last := signals[n];
      assert signals == signals[..n] + [last];
      SignalReasons(signals[..n], ids, resolvable);
      InsideIff(last.ids, ids);
      InsideIff(last.ids, resolvable);
      assert SIGNAL_OUTSIDE[16] != SIGNAL_UNRESOLVED[16];
    }
  }

  lemma {:induction false} NoSignalReason(signals: seq<Signal>, ids: set<string>, resolvable: set<string>)
    ensures SignalViolations(signals, ids, resolvable) == []
       <==> forall s | s in signals :: Inside(s.ids, ids) && Inside(s.ids, resolvable)
  {
    if signals != [] {
      var n := |signals| - 1;
      assert signals == signals[..n] + [signals[n]];
      NoSignalReason(signals[..n], ids, resolvable);
      InsideIff(signals[n].ids, ids);
      InsideIff(signals[n].ids, resolvable);
    }
  }

  /** A gap the guard lets through: its own basis, evidence that resolves, signals inside it. */
  ghost predicate Sound(g: Gap, resolvable: set<string>) {
    var e := g.evidence;
    && (g.gapType == Struggle ==> e.basis == InteractionIds && e.ids != [] && Inside(e.ids, resolvable))
    && (g.gapType == Unexplored ==> e.basis == ZeroInteractions && e.ids == [])
    && forall s | s in e.perSignal :: Inside(s.ids, Elements(e.ids)) && Inside(s.ids, resolvable)
  }

  lemma ViolationsIff(g: Gap, resolvable: set<string>)
    ensures Violations(g, resolvable) == [] <==> Sound(g, resolvable)
  {
    InsideIff(g.evidence.ids, resolvable);
    NoSignalReason(g.evidence.perSignal, Elements(g.evidence.ids), resolvable);
  }

  /** The guard keeps exactly the sound gaps, in order and as often as they come. */
  lemma {:induction false} UpheldIff(gaps: seq<Gap>, resolvable: set<string>, g: Gap)
    ensures multiset(Upheld(gaps, resolvable))[g] == if Sound(g, resolvable) then multiset(gaps)[g] else 0
  {
    if gaps != [] {
      var n := |gaps| - 1;
      assert gaps == gaps[..n] + [gaps[n]];
      UpheldIff(gaps[..n], resolvable, g);
      ViolationsIff(gaps[n], resolvable);
    }
  }

  /** What is wrong with a gap's own evidence, reason by reason. */
  lemma EvidenceReasons(g: Gap, resolvable: set<string>)
    requires g.evidence.perSignal == []
    ensures var found, e := Violations(g, resolvable), g.evidence;
      && (g.gapType == Struggle ==>
            found == (if e.basis == InteractionIds then [] else [WITHOUT_INTERACTIONS])
                     + (if e.ids == [] then [EMPTY_EVIDENCE] else [])
                     + (if Inside(e.ids, resolvable) then [] else [UNRESOLVED]))
      && (g.gapType == Unexplored ==>
            found == (if e.ids == [] then [] else [WITH_INTERACTIONS])
                     + (if e.basis == ZeroInteractions then [] else [WRONG_BASIS]))
  {
    InsideIff(g.evidence.ids, resolvable);
  }
}
