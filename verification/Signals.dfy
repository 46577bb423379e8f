/** Struggle signals against configured thresholds (packages/uc07/uc07/application/signals.py). */
module Signals {
  import opened Prelude
  import opened Ordering
  import opened Counting
  import opened Aggregation
  import opened GapModels

  datatype Thresholds = Thresholds(explain: int, followUp: int, low: int)

  datatype Feedback = Feedback(rating: string, interaction: string, user: string, down: bool)

  datatype LowRatings = LowRatings(evaluated: bool, counts: map<string, nat>, ids: map<string, seq<string>>)

  datatype Finding = Finding(topic: string, signals: seq<Signal>)

  // ----- low ratings -----

  /** The topic of the analysed interaction with this identifier. */
  function TopicById(records: seq<Interaction>, id: string): Option<string> {
    if records == [] then None
    else if records[|records| - 1].id == id then Some(records[|records| - 1].topic)
    else TopicById(records[..|records| - 1], id)
  }

  /** The topic a rating counts against: thumbs down, the learner's own, on an analysed interaction. */
  function RatedTopic(h: History, f: Feedback): Option<string> {
    if f.down && f.user == h.user then TopicById(h.interactions, f.interaction) else None
  }

  /** One rating that counts: the topic and the interaction rated down. */
  datatype Hit = Hit(topic: string, interaction: string)

  function Hits(h: History, feedback: seq<Feedback>): seq<Hit> {
    if feedback == [] then []
    else
      var n := |feedback| - 1;
      Hits(h, feedback[..n])
      + match RatedTopic(h, feedback[n])
        case Some(t) => [Hit(t, feedback[n].interaction)]
        case None => []
  }

  /** Interactions rated down on a topic, once per rating. */
  function HitsOn(hits: seq<Hit>, topic: string): seq<string> {
    if hits == [] then []
    else
      var n := |hits| - 1;
      HitsOn(hits[..n], topic) + if hits[n].topic == topic then [hits[n].interaction] else []
  }

  function HitTopics(hits: seq<Hit>): set<string> {
    set i | 0 <= i < |hits| :: hits[i].topic
  }

  function LowRatingsOf(hits: seq<Hit>): LowRatings {
    LowRatings(true,
               map t | t in HitTopics(hits) :: |HitsOn(hits, t)|,
               map t | t in HitTopics(hits) :: SortedSet(HitsOn(hits, t)))
  }

  function LowIndex(h: History, feedback: Option<seq<Feedback>>): LowRatings {
    match feedback
    case None => LowRatings(false, map[], map[])
    case Some(fs) => LowRatingsOf(Hits(h, fs))
  }

  method TopicIndex(records: seq<Interaction>) returns (index: map<string, string>)
    ensures forall id :: TopicById(records, id) == if id in index then Some(index[id]) else None
  {
    index := map[];
    for i := 0 to |records|
      invariant forall id :: TopicById(records[..i], id) == if id in index then Some(index[id]) else None
    {
      assert records[..i + 1][..i] == records[..i];
      index := index[records[i].id := records[i].topic];
    }
    assert records[..|records|] == records;
  }

  /** The two dictionaries after counting `hits`. */
  ghost predicate Indexed(hits: seq<Hit>, counts: map<string, nat>, ids: map<string, seq<string>>) {
    && counts.Keys == ids.Keys == HitTopics(hits)
    && (forall t | t in counts :: counts[t] == |HitsOn(hits, t)|)
    && (forall t | t in ids :: ids[t] == Distinct(HitsOn(hits, t)))
  }

  lemma HitTopicsGrow(hits: seq<Hit>, x: Hit)
    ensures HitTopics(hits + [x]) == HitTopics(hits) + {x.topic}
  {
    var more := hits + [x];
    forall t ensures t in HitTopics(more) <==> t in HitTopics(hits) || t == x.topic {
      if t in HitTopics(hits) {
        var i :| 0 <= i < |hits| && hits[i].topic == t;
        assert more[i].topic == t;
      }
      if t == x.topic {
        assert more[|hits|].topic == t;
      }
    }
  }

  lemma HitsOnGrow(hits: seq<Hit>, x: Hit, t: string)
    ensures HitsOn(hits + [x], t) == if x.topic == t then HitsOn(hits, t) + [x.interaction] else HitsOn(hits, t)
  {
    assert (hits + [x])[..|hits|] == hits;
  }

  lemma {:induction false} NoHits(hits: seq<Hit>, t: string)
    requires t !in HitTopics(hits)
    ensures HitsOn(hits, t) == []
  {
    if hits != [] {
      var n := |hits| - 1;
      assert hits == hits[..n] + [hits[n]];
      HitTopicsGrow(hits[..n], hits[n]);
      NoHits(hits[..n], t);
    }
  }

  /** One more hit changes the entry of its topic and no other. */
  lemma IndexGrows<V>(hits: seq<Hit>, x: Hit, index: map<string, V>, f: seq<string> -> V, v: V)
    requires index.Keys == HitTopics(hits) && forall t | t in index :: index[t] == f(HitsOn(hits, t))
    requires v == f(HitsOn(hits + [x], x.topic))
    ensures index[x.topic := v].Keys == HitTopics(hits + [x])
    ensures forall t | t in index[x.topic := v] :: index[x.topic := v][t] == f(HitsOn(hits + [x], t))
  {
    HitTopicsGrow(hits, x);
    forall t | t in index[x.topic := v] ensures index[x.topic := v][t] == f(HitsOn(hits + [x], t)) {
      if t != x.topic { HitsOnGrow(hits, x, t); }
    }
  }

  lemma CountsGrow(hits: seq<Hit>, x: Hit, counts: map<string, nat>) returns (n: nat)
    requires counts.Keys == HitTopics(hits) && forall t | t in counts :: counts[t] == |HitsOn(hits, t)|
    ensures n == (if x.topic in counts then counts[x.topic] else 0) + 1
    ensures counts[x.topic := n].Keys == HitTopics(hits + [x])
    ensures forall t | t in counts[x.topic := n] :: counts[x.topic := n][t] == |HitsOn(hits + [x], t)|
  {
    n := (if x.topic in counts then counts[x.topic] else 0) + 1;
    if x.topic !in counts { NoHits(hits, x.topic); }
    HitsOnGrow(hits, x, x.topic);
    var f: seq<string> -> nat := s => |s|;
    IndexGrows(hits, x, counts, f, n);
    assert forall s :: f(s) == |s|;
  }

  lemma SeenGrows(hits: seq<Hit>, x: Hit, seen: seq<string>)
    requires seen == Distinct(HitsOn(hits, x.topic))
    ensures (if x.interaction in seen then seen else seen + [x.interaction]) == Distinct(HitsOn(hits + [x], x.topic))
  {
    HitsOnGrow(hits, x, x.topic);
    DistinctGrows(HitsOn(hits, x.topic), x.interaction);
  }

  method CountHit(x: Hit, counts: map<string, nat>, ids: map<string, seq<string>>, ghost hits: seq<Hit>)
    returns (counts': map<string, nat>, ids': map<string, seq<string>>)
    requires Indexed(hits, counts, ids)
    ensures Indexed(hits + [x], counts', ids')
  {
    counts' := counts[x.topic := (if x.topic in counts then counts[x.topic] else 0) + 1];
    var seen := if x.topic in ids then ids[x.topic] else [];
    ids' := ids[x.topic := if x.interaction in seen then seen else seen + [x.interaction]];
    ghost var n := CountsGrow(hits, x, counts);
    if x.topic !in ids { NoHits(hits, x.topic); }
    SeenGrows(hits, x, seen);
    IndexGrows(hits, x, ids, Distinct, ids'[x.topic]);
  }

  /** The two dictionaries, filled rating by rating and then sorted, are the index. */
  method BuildLowRatingIndex(h: History, feedback: Option<seq<Feedback>>) returns (low: LowRatings)
    ensures low == LowIndex(h, feedback)
  {
    if feedback.None? {
      return LowRatings(false, map[], map[]);
    }
    var fs := feedback.value;
    var topicById := TopicIndex(h.interactions);
    var counts: map<string, nat> := map[];
    var ids: map<string, seq<string>> := map[];
    ghost var hits: seq<Hit> := [];
    for i := 0 to |fs|
      invariant hits == Hits(h, fs[..i])
      invariant Indexed(hits, counts, ids)
    {
      assert fs[..i + 1][..i] == fs[..i];
      var f := fs[i];
      if f.down && f.user == h.user && f.interaction in topicById {
        var t := topicById[f.interaction];
        counts, ids := CountHit(Hit(t, f.interaction), counts, ids, hits);
        hits := hits + [Hit(t, f.interaction)];
      } else {
        assert RatedTopic(h, f) == None;
        assert hits + [] == hits;
      }
    }
    assert fs[..|fs|] == fs;
    low := LowRatings(true, counts, map t | t in ids :: Sort(ids[t], Before));
    IndexedIsLowRatings(hits, counts, ids);
  }

  lemma IndexedIsLowRatings(hits: seq<Hit>, counts: map<string, nat>, ids: map<string, seq<string>>)
    requires Indexed(hits, counts, ids)
    ensures LowRatings(true, counts, map t | t in ids :: Sort(ids[t], Before)) == LowRatingsOf(hits)
  {
    var sorted := map t | t in ids :: Sort(ids[t], Before);
    SameCounts(hits, counts);
    SameIds(hits, ids, sorted);
  }

  lemma SameCounts(hits: seq<Hit>, counts: map<string, nat>)
    requires counts.Keys == HitTopics(hits) && forall t | t in counts :: counts[t] == |HitsOn(hits, t)|
    ensures counts == LowRatingsOf(hits).counts
  {
    var expected := LowRatingsOf(hits).counts;
    forall t ensures t in counts <==> t in expected { assert t in counts.Keys <==> t in HitTopics(hits); }
    forall t | t in counts ensures counts[t] == expected[t] {}
  }

  lemma SameIds(hits: seq<Hit>, ids: map<string, seq<string>>, sorted: map<string, seq<string>>)
    requires ids.Keys == HitTopics(hits) && forall t | t in ids :: ids[t] == Distinct(HitsOn(hits, t))
    requires sorted.Keys == ids.Keys && forall t | t in ids :: sorted[t] == Sort(ids[t], Before)
    ensures sorted == LowRatingsOf(hits).ids
  {
    var expected := LowRatingsOf(hits).ids;
    forall t ensures t in sorted <==> t in expected { assert t in sorted.Keys <==> t in HitTopics(hits); }
    forall t | t in sorted ensures sorted[t] == expected[t] { assert t in ids.Keys; }
  }

  // ----- the three signals -----

  function ExplainSignal(t: TopicAggregate, th: Thresholds): Option<Signal> {
    if t.explainTotal < th.explain then None
    else Some(Signal(ExplainDifferently, t.explainTotal, th.explain, t.explainIds))
  }

  function FollowUpSignal(t: TopicAggregate, th: Thresholds): Option<Signal> {
    if |t.followUpIds| < th.followUp then None
    else Some(Signal(FollowUp, |t.followUpIds|, th.followUp, t.followUpIds))
  }

  function LowCount(low: LowRatings, topic: string): nat {
    if topic in low.counts then low.counts[topic] else 0
  }

  function LowSignal(t: TopicAggregate, th: Thresholds, low: LowRatings): Option<Signal> {
    if !low.evaluated || LowCount(low, t.topic) < th.low then None
    else Some(Signal(LowRating, LowCount(low, t.topic), th.low, if t.topic in low.ids then low.ids[t.topic] else []))
  }

  function Present(s: Option<Signal>): seq<Signal> {
    if s.Some? then [s.value] else []
  }

  /** The signals that fired, in canonical order. */
  function SignalsFor(t: TopicAggregate, th: Thresholds, low: LowRatings): seq<Signal> {
    Present(ExplainSignal(t, th)) + Present(FollowUpSignal(t, th)) + Present(LowSignal(t, th, low))
  }

  function Findings(topics: seq<TopicAggregate>, th: Thresholds, low: LowRatings): seq<Finding> {
    if topics == [] then []
    else
      var n := |topics| - 1;
      var signals := SignalsFor(topics[n], th, low);
      Findings(topics[..n], th, low) + if signals == [] then [] else [Finding(topics[n].topic, signals)]
  }

  /** What building the signals of a topic raises. */
  function TopicFault(t: TopicAggregate, th: Thresholds, low: LowRatings): Option<Invalid> {
    FirstFault(SignalsFor(t, th, low), CheckSignal)
  }

  /** What building the signals of all topics raises. */
  function SignalFault(topics: seq<TopicAggregate>, th: Thresholds, low: LowRatings): Option<Invalid> {
    FirstFault(topics, (t: TopicAggregate) => TopicFault(t, th, low))
  }

  lemma OneMoreTopic(topics: seq<TopicAggregate>, i: nat, th: Thresholds, low: LowRatings)
    requires i < |topics|
    ensures Findings(topics[..i + 1], th, low)
         == Findings(topics[..i], th, low)
            + if SignalsFor(topics[i], th, low) == [] then []
              else [Finding(topics[i].topic, SignalsFor(topics[i], th, low))]
    ensures FirstFault(topics[..i], (t: TopicAggregate) => TopicFault(t, th, low)) == None ==>
              FirstFault(topics[..i + 1], (t: TopicAggregate) => TopicFault(t, th, low))
              == TopicFault(topics[i], th, low)
  {
    assert topics[..i + 1][..i] == topics[..i];
  }

  method DetectStruggles(h: History, th: Thresholds, low: LowRatings) returns (r: Result<seq<Finding>, Invalid>)
    ensures r == match SignalFault(h.topics, th, low)
                 case Some(fault) => Err(fault)
                 case None => Ok(Findings(h.topics, th, low))
  {
    var findings: seq<Finding> := [];
    ghost var check := (t: TopicAggregate) => TopicFault(t, th, low);
    for i := 0 to |h.topics|
      invariant findings == Findings(h.topics[..i], th, low)
      invariant FirstFault(h.topics[..i], check) == None
    {
      var topic := h.topics[i];
      OneMoreTopic(h.topics, i, th, low);
      var signals := SignalsFor(topic, th, low);
      var fault := FirstFault(signals, CheckSignal);
      if fault.Some? {
        FaultStays(h.topics, check, i + 1);
        return Err(fault.value);
      }
      if signals != [] {
        findings := findings + [Finding(topic.topic, signals)];
      }
    }
    WholePrefix(h.topics);
    r := Ok(findings);
  }

  /** A topic is found exactly when one of its observed values reaches its threshold. */
  predicate Struggles(t: TopicAggregate, th: Thresholds, low: LowRatings) {
    || t.explainTotal >= th.explain
    || |t.followUpIds| >= th.followUp
    || (low.evaluated && LowCount(low, t.topic) >= th.low)
  }

  /** `f` is the finding of `t`. */
  predicate FoundAt(t: TopicAggregate, th: Thresholds, low: LowRatings, f: Finding) {
    Struggles(t, th, low) && f == Finding(t.topic, SignalsFor(t, th, low))
  }

  lemma FiresIff(t: TopicAggregate, th: Thresholds, low: LowRatings)
    ensures SignalsFor(t, th, low) != [] <==> Struggles(t, th, low)
  {
  }

  lemma {:induction false} FoundIff(topics: seq<TopicAggregate>, th: Thresholds, low: LowRatings, f: Finding)
    ensures f in Findings(topics, th, low) <==> exists t | t in topics :: FoundAt(t, th, low, f)
  {
    if topics != [] {
      var n := |topics| - 1;
      var last := topics[n];
      assert topics == topics[..n] + [last];
      FoundIff(topics[..n], th, low, f);
      FiresIff(last, th, low);
      assert Findings(topics, th, low)
          == Findings(topics[..n], th, low) + if SignalsFor(last, th, low) == [] then []
                                              else [Finding(last.topic, SignalsFor(last, th, low))];
      if FoundAt(last, th, low, f) { assert last in topics; }
    }
  }

  /** Findings follow the order of the topics, so the final sort by topic has nothing to do. */
  lemma {:induction false} FindingsAscend(topics: seq<TopicAggregate>, th: Thresholds, low: LowRatings)
    requires Ascending(TopicTags(topics), Before)
    ensures forall i, j | 0 <= i < j < |Findings(topics, th, low)| ::
              Before(Findings(topics, th, low)[i].topic, Findings(topics, th, low)[j].topic)
  {
    if topics != [] {
      var n := |topics| - 1;
      assert TopicTags(topics[..n]) == TopicTags(topics)[..n];
      FindingsAscend(topics[..n], th, low);
      var before := Findings(topics[..n], th, low);
      forall i | 0 <= i < |before| ensures Before(before[i].topic, topics[n].topic) {
        assert before[i] in before;
        FoundIff(topics[..n], th, low, before[i]);
        var t :| t in topics[..n] && FoundAt(t, th, low, before[i]);
        var k :| 0 <= k < n && topics[..n][k] == t;
        assert Before(TopicTags(topics)[k], TopicTags(topics)[n]);
      }
    }
  }
}
