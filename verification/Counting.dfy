/** The single definition of what counts (packages/uc07/uc07/domain/counting.py). */
module Counting {
  import opened Prelude
  import opened Ordering

  /** What a record carries beyond what the analysis reads. */
  datatype Details = Details(questionClass: string, naricLevel: string, response: string, rated: bool)

  datatype Interaction = Interaction(
    id: string, session: string, user: string, askedAt: string, topic: string, followUpOf: Option<string>,
    explainCount: nat, details: Details)

  datatype Qualifying = Qualifying(records: seq<Interaction>, duplicates: nat, otherUser: nat)

  /** The sort key: time asked, then identifier. */
  predicate RecordBefore(a: Interaction, b: Interaction) {
    Before(a.askedAt, b.askedAt) || (a.askedAt == b.askedAt && Before(a.id, b.id))
  }

  function Own(records: seq<Interaction>, user: string): seq<Interaction> {
    if records == [] then []
    else
      var n := |records| - 1;
      Own(records[..n], user) + if records[n].user == user then [records[n]] else []
  }

  function Ids(records: seq<Interaction>): set<string> {
    set i | 0 <= i < |records| :: records[i].id
  }

  /** The learner's own records, first occurrence of each identifier, in provider order. */
  function Kept(records: seq<Interaction>, user: string): seq<Interaction> {
    if records == [] then []
    else
      var n := |records| - 1;
      var kept := Kept(records[..n], user);
      if records[n].user != user || records[n].id in Ids(kept) then kept else kept + [records[n]]
  }

  function Qualify(records: seq<Interaction>, user: string): Qualifying {
    KeptWithinOwn(records, user);
    var own, kept := Own(records, user), Kept(records, user);
    Qualifying(Sort(kept, RecordBefore), |own| - |kept|, |records| - |own|)
  }

  method QualifyingInteractions(records: seq<Interaction>, user: string) returns (q: Qualifying)
    ensures q == Qualify(records, user)
  {
    var seen: set<string> := {};
    var kept: seq<Interaction> := [];
    var duplicates, otherUser := 0, 0;
    for i := 0 to |records|
      invariant kept == Kept(records[..i], user) && seen == Ids(kept)
      invariant otherUser == i - |Own(records[..i], user)|
      invariant duplicates == |Own(records[..i], user)| - |kept|
    {
      assert records[..i + 1][..i] == records[..i];
      if records[i].user != user {
        otherUser := otherUser + 1;
      } else if records[i].id in seen {
        duplicates := duplicates + 1;
      } else {
        IdsGrow(kept, records[i]);
        seen := seen + {records[i].id};
        kept := kept + [records[i]];
      }
    }
    assert records[..|records|] == records;
    q := Qualifying(Sort(kept, RecordBefore), duplicates, otherUser);
  }

  lemma IdsGrow(records: seq<Interaction>, r: Interaction)
    ensures Ids(records + [r]) == Ids(records) + {r.id}
  {
    forall id ensures id in Ids(records + [r]) <==> id in Ids(records) + {r.id} {
      if id in Ids(records) {
        var i :| 0 <= i < |records| && records[i].id == id;
        assert (records + [r])[i].id == id;
      } else if id == r.id {
        assert (records + [r])[|records|].id == id;
      }
    }
  }

  lemma {:induction false} KeptWithinOwn(records: seq<Interaction>, user: string)
    ensures |Kept(records, user)| <= |Own(records, user)| <= |records|
  {
    if records != [] {
      KeptWithinOwn(records[..|records| - 1], user);
    }
  }

  predicate DistinctIds(records: seq<Interaction>) {
    forall i, j | 0 <= i < j < |records| :: records[i].id != records[j].id
  }

  /** Kept records are own records with distinct identifiers, and every own identifier is kept. */
  lemma {:induction false} KeptFacts(records: seq<Interaction>, user: string)
    ensures DistinctIds(Kept(records, user))
    ensures Ids(Kept(records, user)) == Ids(Own(records, user))
    ensures forall r | r in Kept(records, user) :: r in records && r.user == user
  {
    if records != [] {
      var n := |records| - 1;
      var kept, own := Kept(records[..n], user), Own(records[..n], user);
      KeptFacts(records[..n], user);
      IdsGrow(own, records[n]);
      IdsGrow(kept, records[n]);
      assert own + [] == own;
      if records[n].user == user && records[n].id !in Ids(kept) {
        forall i | 0 <= i < |kept| ensures kept[i].id != records[n].id {
          assert kept[i].id in Ids(kept);
        }
      }
    }
  }

  lemma {:induction false} OwnFacts(records: seq<Interaction>, user: string)
    ensures forall r :: r in Own(records, user) <==> r in records && r.user == user
  {
    if records != [] {
      var n := |records| - 1;
      OwnFacts(records[..n], user);
      assert records == records[..n] + [records[n]];
    }
  }

  /** Distinct identifiers make the sort key strict and total. */
  lemma RecordsLinear(records: seq<Interaction>)
    requires DistinctIds(records)
    ensures LinearOn(records, RecordBefore) && NoRepeats(records)
  {
    forall x ensures !RecordBefore(x, x) {
      BeforeIrreflexive(x.askedAt);
      BeforeIrreflexive(x.id);
    }
    forall x, y, z | RecordBefore(x, y) && RecordBefore(y, z) ensures RecordBefore(x, z) {
      KeyTransitive(x, y, z);
    }
    forall x, y | x in records && y in records && x != y ensures RecordBefore(x, y) || RecordBefore(y, x) {
      BeforeTotal(x.askedAt, y.askedAt);
      BeforeTotal(x.id, y.id);
    }
  }

  lemma KeyTransitive(x: Interaction, y: Interaction, z: Interaction)
    requires RecordBefore(x, y) && RecordBefore(y, z)
    ensures RecordBefore(x, z)
  {
    if Before(x.askedAt, y.askedAt) && Before(y.askedAt, z.askedAt) {
      BeforeTransitive(x.askedAt, y.askedAt, z.askedAt);
    } else if x.askedAt == y.askedAt == z.askedAt {
      BeforeTransitive(x.id, y.id, z.id);
    }
  }

  // ----- what counting conserves -----

  /** Every delivered record is kept, a duplicate or somebody else's; what is kept is sorted, has
      distinct identifiers, and covers exactly the learner's. */
  lemma CountingConserves(records: seq<Interaction>, user: string)
    ensures var q := Qualify(records, user);
      && |records| == |q.records| + q.duplicates + q.otherUser
      && Ascending(q.records, RecordBefore)
      && DistinctIds(q.records)
      && Ids(q.records) == Ids(Own(records, user))
      && forall r | r in q.records :: r in records && r.user == user
  {
    var kept := Kept(records, user);
    KeptWithinOwn(records, user);
    KeptFacts(records, user);
    RecordsLinear(kept);
    SortAscends(kept, RecordBefore);
    SortPermutes(kept, RecordBefore);
    SortedIds(kept);
    forall r | r in Sort(kept, RecordBefore) ensures r in kept {
      assert r in Elements(Sort(kept, RecordBefore));
    }
  }

  lemma SortedIds(kept: seq<Interaction>)
    requires DistinctIds(kept)
    ensures DistinctIds(Sort(kept, RecordBefore)) && Ids(Sort(kept, RecordBefore)) == Ids(kept)
  {
    var s := Sort(kept, RecordBefore);
    RecordsLinear(kept);
    SortAscends(kept, RecordBefore);
    SortPermutes(kept, RecordBefore);
    SameBag(s, kept);
    forall i, j | 0 <= i < j < |s| ensures s[i].id != s[j].id {
      assert s[i] in kept && s[j] in kept && RecordBefore(s[i], s[j]);
      assert !RecordBefore(s[i], s[i]);
    }
    forall id ensures id in Ids(s) <==> id in Ids(kept) {
      if id in Ids(s) {
        var i :| 0 <= i < |s| && s[i].id == id;
        assert s[i] in kept;
      }
      if id in Ids(kept) {
        var i :| 0 <= i < |kept| && kept[i].id == id;
        assert kept[i] in s;
      }
    }
  }

  // ----- order independence -----

  /** The learner's records that share an identifier are the same record. */
  ghost predicate Consistent(records: seq<Interaction>, user: string) {
    forall a, b | a in records && b in records && a.user == user && b.user == user && a.id == b.id :: a == b
  }

  lemma KeptOfConsistent(records: seq<Interaction>, user: string)
    requires Consistent(records, user)
    ensures Elements(Kept(records, user)) == Elements(Own(records, user))
  {
    KeptFacts(records, user);
    OwnFacts(records, user);
    var kept, own := Kept(records, user), Own(records, user);
    forall r | r in own ensures r in kept {
      var i :| 0 <= i < |own| && own[i] == r;
      assert r.id in Ids(own) && r.id in Ids(kept);
      var k :| 0 <= k < |kept| && kept[k].id == r.id;
      assert kept[k] in kept;
    }
  }

  /** The qualifying records depend only on which own records were delivered. */
  lemma SameDelivery(xs: seq<Interaction>, ys: seq<Interaction>, user: string)
    requires Consistent(xs, user) && Elements(Own(xs, user)) == Elements(Own(ys, user))
    ensures Qualify(xs, user).records == Qualify(ys, user).records
  {
    OwnFacts(xs, user);
    OwnFacts(ys, user);
    forall r ensures r in Own(xs, user) <==> r in Own(ys, user) {
      assert r in Elements(Own(xs, user)) <==> r in Elements(Own(ys, user));
    }
    assert Consistent(ys, user) by {
      forall a, b | a in ys && b in ys && a.user == user && b.user == user && a.id == b.id ensures a == b {
        assert a in Own(ys, user) && b in Own(ys, user);
      }
    }
    KeptOfConsistent(xs, user);
    KeptOfConsistent(ys, user);
    KeptFacts(xs, user);
    KeptFacts(ys, user);
    RecordsLinear(Kept(xs, user));
    RecordsLinear(Kept(ys, user));
    SortCanonical(Kept(xs, user), Kept(ys, user), RecordBefore);
  }

  lemma {:induction false} OwnOccurrences(xs: seq<Interaction>, user: string, r: Interaction)
    ensures multiset(Own(xs, user))[r] == if r.user == user then multiset(xs)[r] else 0
  {
    if xs != [] {
      var n := |xs| - 1;
      OwnOccurrences(xs[..n], user, r);
      assert xs == xs[..n] + [xs[n]];
    }
  }

  lemma OwnOfPermutation(xs: seq<Interaction>, ys: seq<Interaction>, user: string)
    requires multiset(xs) == multiset(ys)
    ensures |xs| == |ys| && |Own(xs, user)| == |Own(ys, user)|
    ensures Elements(Own(xs, user)) == Elements(Own(ys, user))
  {
    SameBag(xs, ys);
    forall r ensures multiset(Own(xs, user))[r] == multiset(Own(ys, user))[r] {
      OwnOccurrences(xs, user, r);
      OwnOccurrences(ys, user, r);
    }
    assert multiset(Own(xs, user)) == multiset(Own(ys, user));
    SameBag(Own(xs, user), Own(ys, user));
  }

  lemma {:induction false} DistinctCount(records: seq<Interaction>)
    requires DistinctIds(records)
    ensures |Ids(records)| == |records|
  {
    if records != [] {
      var n := |records| - 1;
      DistinctCount(records[..n]);
      assert records == records[..n] + [records[n]];
      IdsGrow(records[..n], records[n]);
    }
  }

  /** The counters never depend on the order of delivery. */
  lemma CountersIgnoreOrder(xs: seq<Interaction>, ys: seq<Interaction>, user: string)
    requires multiset(xs) == multiset(ys)
    ensures Qualify(xs, user).duplicates == Qualify(ys, user).duplicates
    ensures Qualify(xs, user).otherUser == Qualify(ys, user).otherUser
  {
    OwnOfPermutation(xs, ys, user);
    SameIds(Own(xs, user), Own(ys, user));
    KeptFacts(xs, user);
    KeptFacts(ys, user);
    DistinctCount(Kept(xs, user));
    DistinctCount(Kept(ys, user));
  }

  lemma SameIds(a: seq<Interaction>, b: seq<Interaction>)
    requires Elements(a) == Elements(b)
    ensures Ids(a) == Ids(b)
  {
    forall r ensures r in a <==> r in b {
      assert r in Elements(a) <==> r in Elements(b);
    }
    forall id ensures id in Ids(a) <==> id in Ids(b) {
      if id in Ids(a) {
        var i :| 0 <= i < |a| && a[i].id == id;
        assert a[i] in b;
      }
      if id in Ids(b) {
        var i :| 0 <= i < |b| && b[i].id == id;
        assert b[i] in a;
      }
    }
  }

  /** If two own records disagree under one identifier, delivering either of them first gives
      different results. */
  lemma DisagreementShows(xs: seq<Interaction>, user: string, i: nat, j: nat) returns (ys: seq<Interaction>)
    requires i < |xs| && j < |xs| && xs[i].user == user && xs[j].user == user
    requires xs[i].id == xs[j].id && xs[i] != xs[j]
    ensures multiset(ys) == multiset(xs) && Qualify(ys, user).records != Qualify(xs, user).records
  {
    var a, b := Front(xs, i), Front(xs, j);
    FrontPermutes(xs, i);
    FrontPermutes(xs, j);
    FirstIsKept(a, user);
    FirstIsKept(b, user);
    ys := if xs[i] in Qualify(xs, user).records then b else a;
    if xs[i] in Qualify(xs, user).records {
      CountingConserves(b, user);
      assert xs[j] in Qualify(b, user).records;
      assert xs[i] !in Qualify(b, user).records;
    }
  }

  function Front(xs: seq<Interaction>, i: nat): seq<Interaction>
    requires i < |xs|
  {
    [xs[i]] + xs[..i] + xs[i + 1..]
  }

  lemma FrontPermutes(xs: seq<Interaction>, i: nat)
    requires i < |xs|
    ensures multiset(Front(xs, i)) == multiset(xs)
  {
    assert xs == xs[..i] + [xs[i]] + xs[i + 1..];
  }

  /** The first own record is always kept. */
  lemma FirstIsKept(xs: seq<Interaction>, user: string)
    requires xs != [] && xs[0].user == user
    ensures xs[0] in Qualify(xs, user).records
  {
    FirstStaysKept(xs, user);
    SortPermutes(Kept(xs, user), RecordBefore);
    assert xs[0] in Elements(Kept(xs, user));
  }

  lemma {:induction false} FirstStaysKept(xs: seq<Interaction>, user: string)
    requires xs != [] && xs[0].user == user
    ensures xs[0] in Kept(xs, user)
  {
    if |xs| > 1 {
      FirstStaysKept(xs[..|xs| - 1], user);
    } else {
      assert Kept(xs[..0], user) == [];
    }
  }

  /** The qualifying records are independent of the delivery order exactly when the learner's
      records that share an identifier agree. */
  lemma OrderIndependenceIff(xs: seq<Interaction>, user: string)
    ensures (forall ys | multiset(ys) == multiset(xs) :: Qualify(ys, user).records == Qualify(xs, user).records)
       <==> Consistent(xs, user)
  {
    if Consistent(xs, user) {
      forall ys | multiset(ys) == multiset(xs) ensures Qualify(ys, user).records == Qualify(xs, user).records {
        OwnOfPermutation(xs, ys, user);
        SameDelivery(xs, ys, user);
      }
    } else {
      var a, b :| a in xs && b in xs && a.user == user && b.user == user && a.id == b.id && a != b;
      var i :| 0 <= i < |xs| && xs[i] == a;
      var j :| 0 <= j < |xs| && xs[j] == b;
      var ys := DisagreementShows(xs, user, i, j);
    }
  }

  /** Redelivering one of the learner's records, at any point, changes nothing but the number of
      duplicates discarded. */
  lemma RedeliveryOnlyCounts(xs: seq<Interaction>, user: string, i: nat, k: nat)
    requires Consistent(xs, user) && i < |xs| && k <= |xs| && xs[i].user == user
    ensures var ys := xs[..k] + [xs[i]] + xs[k..];
      Qualify(ys, user) == Qualify(xs, user).(duplicates := Qualify(xs, user).duplicates + 1)
  {
    var ys := xs[..k] + [xs[i]] + xs[k..];
    assert multiset(ys) == multiset(xs + [xs[i]]) by { assert xs == xs[..k] + xs[k..]; }
    var zs := xs + [xs[i]];
    assert zs[..|xs|] == xs;
    OwnFacts(xs, user);
    KeptFacts(xs, user);
    OwnHasId(xs, user, i);
    assert Kept(zs, user) == Kept(xs, user);
    OwnOfPermutation(ys, zs, user);
    CountersIgnoreOrder(ys, zs, user);
    assert Consistent(zs, user);
    SameDelivery(zs, ys, user);
  }

  lemma OwnHasId(xs: seq<Interaction>, user: string, i: nat)
    requires i < |xs| && xs[i].user == user
    ensures xs[i].id in Ids(Own(xs, user))
  {
    OwnFacts(xs, user);
    var own := Own(xs, user);
    assert xs[i] in own;
    var k :| 0 <= k < |own| && own[k] == xs[i];
  }
}
