/** Grouping a learner's history by topic (packages/uc07/uc07/application/aggregation.py). */
module Aggregation {
  import opened Prelude
  import opened Ordering
  import opened Counting

  datatype TopicAggregate = TopicAggregate(
    topic: string, interactionIds: seq<string>, sessionIds: seq<string>, explainTotal: nat,
    explainIds: seq<string>, followUpIds: seq<string>)

  datatype History = History(
    user: string, interactions: seq<Interaction>, topics: seq<TopicAggregate>, duplicates: nat, otherUser: nat)

  function OnTopic(records: seq<Interaction>, topic: string): seq<Interaction> {
    if records == [] then []
    else
      var n := |records| - 1;
      OnTopic(records[..n], topic) + if records[n].topic == topic then [records[n]] else []
  }

  function Tags(records: seq<Interaction>): seq<string> {
    seq(|records|, i requires 0 <= i < |records| => records[i].topic)
  }

  function IdList(records: seq<Interaction>): seq<string> {
    seq(|records|, i requires 0 <= i < |records| => records[i].id)
  }

  function SessionList(records: seq<Interaction>): seq<string> {
    seq(|records|, i requires 0 <= i < |records| => records[i].session)
  }

  function Explained(records: seq<Interaction>): seq<Interaction> {
    if records == [] then []
    else
      var n := |records| - 1;
      Explained(records[..n]) + if records[n].explainCount > 0 then [records[n]] else []
  }

  function FollowUps(records: seq<Interaction>): seq<Interaction> {
    if records == [] then []
    else
      var n := |records| - 1;
      FollowUps(records[..n]) + if records[n].followUpOf.Some? then [records[n]] else []
  }

  function ExplainSum(records: seq<Interaction>): nat {
    if records == [] then 0
    else ExplainSum(records[..|records| - 1]) + records[|records| - 1].explainCount
  }

  function Summary(topic: string, records: seq<Interaction>): TopicAggregate {
    TopicAggregate(topic, Sort(IdList(records), Before), SortedSet(SessionList(records)), ExplainSum(records),
                   Sort(IdList(Explained(records)), Before), Sort(IdList(FollowUps(records)), Before))
  }

  function Summaries(topics: seq<string>, records: seq<Interaction>): (s: seq<TopicAggregate>)
    ensures |s| == |topics|
  {
    seq(|topics|, i requires 0 <= i < |topics| => Summary(topics[i], OnTopic(records, topics[i])))
  }

  function Aggregate(q: Qualifying, user: string): History {
    History(user, q.records, Summaries(SortedSet(Tags(q.records)), q.records), q.duplicates, q.otherUser)
  }

  lemma OnTopicGrows(records: seq<Interaction>, r: Interaction, topic: string)
    ensures OnTopic(records + [r], topic) == OnTopic(records, topic) + if r.topic == topic then [r] else []
  {
    assert (records + [r])[..|records|] == records;
  }

  /** The dictionary of lists, and the order in which its keys came, after `records`. */
  ghost predicate Grouped(records: seq<Interaction>, byTopic: map<string, seq<Interaction>>, inserted: seq<string>) {
    KeysOf(Tags(records), byTopic.Keys, inserted) && ListsOf(records, byTopic)
  }

  ghost predicate KeysOf(tags: seq<string>, keys: set<string>, inserted: seq<string>) {
    keys == Elements(tags) && inserted == Distinct(tags)
  }

  ghost predicate ListsOf(records: seq<Interaction>, byTopic: map<string, seq<Interaction>>) {
    forall t | t in byTopic :: byTopic[t] == OnTopic(records, t)
  }

  lemma {:induction false} NothingOnTopic(records: seq<Interaction>, topic: string)
    requires topic !in Elements(Tags(records))
    ensures OnTopic(records, topic) == []
  {
    if records != [] {
      var n := |records| - 1;
      assert Tags(records) == Tags(records[..n]) + [records[n].topic];
      NothingOnTopic(records[..n], topic);
    }
  }

  /** Appending to a dictionary of lists in which a missing key starts empty. */
  function Enter(byTopic: map<string, seq<Interaction>>, r: Interaction): map<string, seq<Interaction>> {
    byTopic[r.topic := (if r.topic in byTopic then byTopic[r.topic] else []) + [r]]
  }

  /** The order of the keys after the same append. */
  function Arrive(byTopic: map<string, seq<Interaction>>, inserted: seq<string>, r: Interaction): seq<string> {
    if r.topic in byTopic then inserted else inserted + [r.topic]
  }

  lemma NothingGrouped()
    ensures Grouped([], map[], [])
  {
    assert Tags([]) == [];
  }

  lemma GroupedGrows(records: seq<Interaction>, r: Interaction, byTopic: map<string, seq<Interaction>>,
                     inserted: seq<string>)
    requires Grouped(records, byTopic, inserted)
    ensures Grouped(records + [r], Enter(byTopic, r), Arrive(byTopic, inserted, r))
  {
    TagsGrow(records, r);
    KeysGrow(Tags(records), r.topic, byTopic.Keys, inserted);
    EnterKeys(byTopic, r);
    ListsGrow(records, r, byTopic);
  }

  lemma TagsGrow(records: seq<Interaction>, r: Interaction)
    ensures Tags(records + [r]) == Tags(records) + [r.topic]
  {
  }

  lemma EnterKeys(byTopic: map<string, seq<Interaction>>, r: Interaction)
    ensures Enter(byTopic, r).Keys == byTopic.Keys + {r.topic}
  {
  }

  lemma KeysGrow(tags: seq<string>, tag: string, keys: set<string>, inserted: seq<string>)
    requires KeysOf(tags, keys, inserted)
    ensures KeysOf(tags + [tag], keys + {tag}, if tag in keys then inserted else inserted + [tag])
  {
    DistinctGrows(tags, tag);
    ElementsGrow(tags, tag);
    assert tag in Elements(inserted) <==> tag in inserted;
  }

  lemma ListsGrow(records: seq<Interaction>, r: Interaction, byTopic: map<string, seq<Interaction>>)
    requires byTopic.Keys == Elements(Tags(records)) && ListsOf(records, byTopic)
    ensures ListsOf(records + [r], Enter(byTopic, r))
  {
    if r.topic !in byTopic { NothingOnTopic(records, r.topic); }
    var more := Enter(byTopic, r);
    forall t | t in more ensures more[t] == OnTopic(records + [r], t) { OnTopicGrows(records, r, t); }
  }

  /** A dictionary of lists filled in one pass, with its keys in order of arrival. */
  method GroupByTopic(records: seq<Interaction>)
    returns (byTopic: map<string, seq<Interaction>>, inserted: seq<string>)
    ensures Grouped(records, byTopic, inserted)
  {
    byTopic, inserted := map[], [];
    ghost var seen: seq<Interaction> := [];
    NothingGrouped();
    for i := 0 to |records|
      invariant seen == records[..i] && Grouped(seen, byTopic, inserted)
    {
      GroupedGrows(seen, records[i], byTopic, inserted);
      inserted := Arrive(byTopic, inserted, records[i]);
      byTopic := Enter(byTopic, records[i]);
      seen := seen + [records[i]];
    }
    assert seen == records;
  }

  method SummariseTopics(keys: seq<string>, byTopic: map<string, seq<Interaction>>, ghost records: seq<Interaction>)
    returns (topics: seq<TopicAggregate>)
    requires forall k | k in keys :: k in byTopic && byTopic[k] == OnTopic(records, k)
    ensures topics == Summaries(keys, records)
  {
    topics := [];
    for i := 0 to |keys|
      invariant topics == Summaries(keys, records)[..i]
    {
      topics := topics + [Summary(keys[i], byTopic[keys[i]])];
    }
  }

  /** The grouped history, summarised topic by topic in sorted order. */
  method AggregateHistory(q: Qualifying, user: string) returns (h: History)
    ensures h == Aggregate(q, user)
  {
    var byTopic, inserted := GroupByTopic(q.records);
    var keys := Sort(inserted, Before);
    forall k | k in keys ensures k in byTopic {
      SortPermutes(inserted, Before);
      assert k in Elements(keys);
    }
    var topics := SummariseTopics(keys, byTopic, q.records);
    h := History(user, q.records, topics, q.duplicates, q.otherUser);
  }

  // ----- conservation -----

  lemma {:induction false} OnTopicFacts(records: seq<Interaction>, topic: string)
    ensures forall r :: r in OnTopic(records, topic) <==> r in records && r.topic == topic
  {
    if records != [] {
      var n := |records| - 1;
      OnTopicFacts(records[..n], topic);
      assert records == records[..n] + [records[n]];
    }
  }

  function CountOver(topics: seq<TopicAggregate>): nat {
    if topics == [] then 0 else |topics[0].interactionIds| + CountOver(topics[1..])
  }

  function ExplainOver(topics: seq<TopicAggregate>): nat {
    if topics == [] then 0 else topics[0].explainTotal + ExplainOver(topics[1..])
  }

  lemma SummaryGrows(topic: string, records: seq<Interaction>, r: Interaction)
    ensures var before, after := Summary(topic, OnTopic(records, topic)), Summary(topic, OnTopic(records + [r], topic));
      && |after.interactionIds| == |before.interactionIds| + (if r.topic == topic then 1 else 0)
      && after.explainTotal == before.explainTotal + if r.topic == topic then r.explainCount else 0
  {
    var on := OnTopic(records, topic);
    OnTopicGrows(records, r, topic);
    SortPermutes(IdList(on), Before);
    SortPermutes(IdList(on + [r]), Before);
    assert (on + [r])[..|on|] == on;
    assert on + [] == on;
  }

  /** Two lists of summaries that differ by one record of one topic. */
  lemma {:induction false} SumsDiffer(before: seq<TopicAggregate>, after: seq<TopicAggregate>, tags: seq<string>,
                                      r: Interaction)
    requires |before| == |after| == |tags| && NoRepeats(tags)
    requires forall i | 0 <= i < |tags| ::
               && |after[i].interactionIds| == |before[i].interactionIds| + (if r.topic == tags[i] then 1 else 0)
               && after[i].explainTotal == before[i].explainTotal + if r.topic == tags[i] then r.explainCount else 0
    ensures CountOver(after) == CountOver(before) + if r.topic in tags then 1 else 0
    ensures ExplainOver(after) == ExplainOver(before) + if r.topic in tags then r.explainCount else 0
  {
    if tags != [] {
      SumsDiffer(before[1..], after[1..], tags[1..], r);
      assert tags == [tags[0]] + tags[1..];
    }
  }

  /** One more record adds to the one topic it carries. */
  lemma OneMoreRecord(tags: seq<string>, records: seq<Interaction>, r: Interaction)
    requires NoRepeats(tags)
    ensures CountOver(Summaries(tags, records + [r]))
         == CountOver(Summaries(tags, records)) + if r.topic in tags then 1 else 0
    ensures ExplainOver(Summaries(tags, records + [r]))
         == ExplainOver(Summaries(tags, records)) + if r.topic in tags then r.explainCount else 0
  {
    forall i | 0 <= i < |tags| { SummaryGrows(tags[i], records, r); }
    SumsDiffer(Summaries(tags, records), Summaries(tags, records + [r]), tags, r);
  }

  lemma {:induction false} SumsConserve(tags: seq<string>, records: seq<Interaction>)
    requires NoRepeats(tags) && forall i | 0 <= i < |records| :: records[i].topic in tags
    ensures CountOver(Summaries(tags, records)) == |records|
    ensures ExplainOver(Summaries(tags, records)) == ExplainSum(records)
  {
    if records == [] {
      NothingToSum(tags);
    } else {
      var n := |records| - 1;
      assert records == records[..n] + [records[n]];
      SumsConserve(tags, records[..n]);
      OneMoreRecord(tags, records[..n], records[n]);
    }
  }

  lemma {:induction false} NothingToSum(tags: seq<string>)
    ensures CountOver(Summaries(tags, [])) == 0 && ExplainOver(Summaries(tags, [])) == 0
  {
    if tags != [] {
      NothingToSum(tags[1..]);
      assert Summaries(tags, [])[1..] == Summaries(tags[1..], []);
      SortPermutes(IdList([]), Before);
    }
  }

  function TopicTags(topics: seq<TopicAggregate>): seq<string> {
    seq(|topics|, i requires 0 <= i < |topics| => topics[i].topic)
  }

  /** The topic lists the identifiers of exactly the interactions that carry its tag. */
  ghost predicate ListsItsOwn(t: TopicAggregate, records: seq<Interaction>) {
    forall id :: id in t.interactionIds
            <==> exists k | 0 <= k < |records| :: records[k].id == id && records[k].topic == t.topic
  }

  /** Grouping loses and invents nothing: topics are strictly ascending and are exactly the tags
      present, each lists the identifiers of its own interactions, and the counts and totals of
      the topics add up to those of the whole history. */
  lemma GroupingConserves(q: Qualifying, user: string)
    ensures var h := Aggregate(q, user);
      && Ascending(TopicTags(h.topics), Before)
      && Elements(TopicTags(h.topics)) == Elements(Tags(q.records))
      && (forall i | 0 <= i < |h.topics| :: ListsItsOwn(h.topics[i], q.records))
      && CountOver(h.topics) == |q.records|
      && ExplainOver(h.topics) == ExplainSum(q.records)
  {
    var records := q.records;
    var tags := SortedSet(Tags(records));
    SortedSetFacts(Tags(records));
    var topics := Summaries(tags, records);
    assert TopicTags(topics) == tags;
    AscendingNoRepeats(tags);
    forall i | 0 <= i < |topics| ensures ListsItsOwn(topics[i], records) {
      forall id { IdsOnTopic(records, tags[i], id); }
    }
    forall k | 0 <= k < |records| ensures records[k].topic in tags {
      assert Tags(records)[k] in Elements(Tags(records));
    }
    SumsConserve(tags, records);
  }

  lemma AscendingNoRepeats(tags: seq<string>)
    requires Ascending(tags, Before)
    ensures NoRepeats(tags)
  {
    forall i, j | 0 <= i < j < |tags| ensures tags[i] != tags[j] { BeforeIrreflexive(tags[i]); }
  }

  lemma IdsOnTopic(records: seq<Interaction>, topic: string, id: string)
    ensures id in Sort(IdList(OnTopic(records, topic)), Before)
       <==> exists k | 0 <= k < |records| :: records[k].id == id && records[k].topic == topic
  {
    var on := OnTopic(records, topic);
    SortKeeps(IdList(on), Before);
    SameBag(Sort(IdList(on), Before), IdList(on));
    OnTopicFacts(records, topic);
    if id in IdList(on) {
      var i :| 0 <= i < |on| && IdList(on)[i] == id;
      assert on[i] in on;
    }
    if k :| 0 <= k < |records| && records[k].id == id && records[k].topic == topic {
      assert records[k] in on;
      var i :| 0 <= i < |on| && on[i] == records[k];
      assert IdList(on)[i] == id;
    }
  }
}
