/** The order Python's `sorted` uses on strings, and the stable sort itself. */
module Ordering {

  /** Lexicographic order by code point. */
  predicate Before(a: string, b: string) {
    b != "" && (a == "" || a[0] < b[0] || (a[0] == b[0] && Before(a[1..], b[1..])))
  }

  lemma {:induction false} BeforeIrreflexive(a: string)
    ensures !Before(a, a)
  {
    if a != "" {
      BeforeIrreflexive(a[1..]);
    }
  }

  lemma {:induction false} BeforeTransitive(a: string, b: string, c: string)
    requires Before(a, b) && Before(b, c)
    ensures Before(a, c)
  {
    if a != "" && a[0] == b[0] == c[0] {
      BeforeTransitive(a[1..], b[1..], c[1..]);
    }
  }

  lemma {:induction false} BeforeTotal(a: string, b: string)
    ensures Before(a, b) || a == b || Before(b, a)
  {
    if a != "" && b != "" && a[0] == b[0] {
      BeforeTotal(a[1..], b[1..]);
    }
  }

  predicate DifferAt(a: string, b: string, k: int) {
    0 <= k < |a| && k < |b| && a[..k] == b[..k] && a[k] < b[k]
  }

  /** A string comes before another exactly when it is a proper prefix of it, or has the smaller character where
      they first differ. */
  lemma {:induction false} BeforeIff(a: string, b: string)
    ensures Before(a, b) <==> (a <= b && a != b) || exists k :: DifferAt(a, b, k)
  {
    forall k | DifferAt(a, b, k) && k > 0 ensures a[0] == b[0] {
      assert a[0] == a[..k][0] && b[0] == b[..k][0];
    }
    if a != "" && b != "" && a[0] == b[0] {
      var x, y := a[1..], b[1..];
      BeforeIff(x, y);
      assert a == [a[0]] + x && b == [a[0]] + y;
      if k :| DifferAt(x, y, k) {
        assert a[..k + 1] == [a[0]] + x[..k] && b[..k + 1] == [a[0]] + y[..k];
        assert DifferAt(a, b, k + 1);
      }
      if k :| DifferAt(a, b, k) {
        assert x[..k - 1] == a[..k][1..] && y[..k - 1] == b[..k][1..];
        assert DifferAt(x, y, k - 1);
      }
    } else if a != "" && b != "" && a[0] < b[0] {
      assert DifferAt(a, b, 0);
    }
  }

  /** `lt` is a strict linear order on the elements of `xs`. */
  ghost predicate LinearOn<T>(xs: seq<T>, lt: (T, T) -> bool) {
    && (forall x | x in xs :: !lt(x, x))
    && (forall x, y, z | x in xs && y in xs && z in xs && lt(x, y) && lt(y, z) :: lt(x, z))
    && (forall x, y | x in xs && y in xs && x != y :: lt(x, y) || lt(y, x))
  }

  lemma StringsLinear(xs: seq<string>)
    ensures LinearOn(xs, Before)
  {
    forall x | x in xs ensures !Before(x, x) { BeforeIrreflexive(x); }
    forall x, y, z | x in xs && y in xs && z in xs && Before(x, y) && Before(y, z)
      ensures Before(x, z)
    {
      BeforeTransitive(x, y, z);
    }
    forall x, y | x in xs && y in xs && x != y ensures Before(x, y) || Before(y, x) { BeforeTotal(x, y); }
  }

  ghost predicate Ascending<T>(xs: seq<T>, lt: (T, T) -> bool) {
    forall i, j | 0 <= i < j < |xs| :: lt(xs[i], xs[j])
  }

  predicate NoRepeats<T(==)>(xs: seq<T>) {
    forall i, j | 0 <= i < j < |xs| :: xs[i] != xs[j]
  }

  function Elements<T>(xs: seq<T>): set<T> {
    set x | x in xs
  }

  function Insert<T>(x: T, xs: seq<T>, lt: (T, T) -> bool): seq<T> {
    if xs == [] then [x]
    else if lt(x, xs[0]) then [x] + xs
    else [xs[0]] + Insert(x, xs[1..], lt)
  }

  /** Stable insertion sort: equal keys keep their input order. */
  function Sort<T>(xs: seq<T>, lt: (T, T) -> bool): seq<T> {
    if xs == [] then [] else Insert(xs[|xs| - 1], Sort(xs[..|xs| - 1], lt), lt)
  }

  lemma {:induction false} InsertKeeps<T>(x: T, xs: seq<T>, lt: (T, T) -> bool)
    ensures multiset(Insert(x, xs, lt)) == multiset(xs) + multiset{x}
  {
    if xs != [] {
      assert xs == [xs[0]] + xs[1..];
      if !lt(x, xs[0]) {
        InsertKeeps(x, xs[1..], lt);
      }
    }
  }

  /** Sorting permutes. */
  lemma {:induction false} SortPermutes<T>(xs: seq<T>, lt: (T, T) -> bool)
    ensures multiset(Sort(xs, lt)) == multiset(xs)
    ensures |Sort(xs, lt)| == |xs|
    ensures Elements(Sort(xs, lt)) == Elements(xs)
  {
    SortKeeps(xs, lt);
    SameBag(Sort(xs, lt), xs);
  }

  lemma {:induction false} SortKeeps<T>(xs: seq<T>, lt: (T, T) -> bool)
    ensures multiset(Sort(xs, lt)) == multiset(xs)
  {
    if xs != [] {
      var n := |xs| - 1;
      SortKeeps(xs[..n], lt);
      InsertKeeps(xs[n], Sort(xs[..n], lt), lt);
      assert xs == xs[..n] + [xs[n]];
    }
  }

  lemma SameBag<T>(a: seq<T>, b: seq<T>)
    requires multiset(a) == multiset(b)
    ensures |a| == |b| && Elements(a) == Elements(b)
    ensures forall x :: x in a <==> x in b
  {
    assert |multiset(a)| == |multiset(b)|;
    forall x ensures x in a <==> x in b {
      assert x in multiset(a) <==> x in multiset(b);
    }
  }

  lemma {:induction false} InsertAscends<T>(x: T, xs: seq<T>, lt: (T, T) -> bool)
    requires LinearOn([x] + xs, lt) && Ascending(xs, lt) && x !in xs
    ensures Ascending(Insert(x, xs, lt), lt)
  {
    if xs != [] {
      assert x in [x] + xs && xs[0] in [x] + xs;
      if lt(x, xs[0]) {
        forall j | 0 <= j < |xs| ensures lt(x, xs[j]) {
          assert xs[j] in [x] + xs;
        }
      } else {
        forall y | y in [x] + xs[1..] ensures y in [x] + xs {}
        InsertAscends(x, xs[1..], lt);
        InsertKeeps(x, xs[1..], lt);
        var tail := Insert(x, xs[1..], lt);
        forall j | 0 <= j < |tail| ensures lt(xs[0], tail[j]) {
          assert tail[j] in multiset(tail);
          assert tail[j] == x || tail[j] in xs[1..];
        }
      }
    }
  }

  /** On distinct, linearly ordered elements the result is strictly ascending. */
  lemma {:induction false} SortAscends<T>(xs: seq<T>, lt: (T, T) -> bool)
    requires LinearOn(xs, lt) && NoRepeats(xs)
    ensures Ascending(Sort(xs, lt), lt)
  {
    if xs != [] {
      var n := |xs| - 1;
      forall x | x in xs[..n] ensures x in xs {}
      SortAscends(xs[..n], lt);
      SortPermutes(xs[..n], lt);
      var s := Sort(xs[..n], lt);
      forall y | y in [xs[n]] + s ensures y in xs {
        assert y == xs[n] || y in Elements(s);
      }
      assert xs[n] !in Elements(xs[..n]);
      InsertAscends(xs[n], s, lt);
    }
  }

  lemma NoElements<T>(xs: seq<T>)
    ensures Elements(xs) == {} <==> xs == []
  {
    if xs != [] {
      assert xs[0] in Elements(xs);
    }
  }

  /** Two strictly ascending lists of the same elements are the same list. */
  lemma {:induction false} AscendingUnique<T>(a: seq<T>, b: seq<T>, lt: (T, T) -> bool)
    requires LinearOn(a, lt) && Ascending(a, lt) && Ascending(b, lt)
    requires Elements(a) == Elements(b)
    ensures a == b
  {
    if a == [] {
      NoElements(a);
      NoElements(b);
    } else {
      assert a[0] in Elements(a) && a[0] in Elements(b);
      assert b != [] && b[0] in Elements(b) && b[0] in Elements(a);
      HeadsAgree(a, b, lt);
      forall x ensures x in a[1..] <==> x in b[1..] {
        TailMembers(a, x, lt);
        assert x in Elements(a) <==> x in Elements(b);
        forall y | y in b ensures y in Elements(b) {}
        TailMembers(b, x, lt);
      }
      forall x | x in a[1..] ensures x in a {}
      AscendingUnique(a[1..], b[1..], lt);
    }
  }

  lemma HeadsAgree<T>(a: seq<T>, b: seq<T>, lt: (T, T) -> bool)
    requires LinearOn(a, lt) && Ascending(a, lt) && Ascending(b, lt)
    requires a != [] && b != [] && a[0] in b && b[0] in a
    ensures a[0] == b[0]
  {
    var k :| 0 <= k < |b| && b[k] == a[0];
    var m :| 0 <= m < |a| && a[m] == b[0];
    var first, second := a[0], b[0];
    assert first in a && second in a;
    assert k == 0 || lt(second, first);
    assert m == 0 || lt(first, second);
  }

  lemma TailMembers<T>(a: seq<T>, x: T, lt: (T, T) -> bool)
    requires a != [] && Ascending(a, lt) && forall y | y in a :: !lt(y, y)
    ensures x in a[1..] <==> x in a && x != a[0]
  {
    if x in a[1..] {
      var k :| 0 <= k < |a[1..]| && a[1..][k] == x;
      assert lt(a[0], a[k + 1]);
      assert a[0] in a;
    }
  }

  /** Sorting forgets the input order of distinct elements. */
  lemma SortCanonical<T>(xs: seq<T>, ys: seq<T>, lt: (T, T) -> bool)
    requires LinearOn(xs, lt) && NoRepeats(xs) && NoRepeats(ys)
    requires Elements(xs) == Elements(ys)
    ensures Sort(xs, lt) == Sort(ys, lt)
  {
    SortAscends(xs, lt);
    forall y | y in ys ensures y in xs {
      assert y in Elements(ys);
    }
    SortAscends(ys, lt);
    SortPermutes(xs, lt);
    SortPermutes(ys, lt);
    forall x | x in Sort(xs, lt) ensures x in xs {
      assert x in Elements(Sort(xs, lt));
    }
    AscendingUnique(Sort(xs, lt), Sort(ys, lt), lt);
  }

  /** First occurrences, in order: iterating a list into a set. */
  function Distinct<T(==)>(xs: seq<T>): (ys: seq<T>)
    ensures NoRepeats(ys) && Elements(ys) == Elements(xs)
  {
    if xs == [] then []
    else
      var n := |xs| - 1;
      var ys := Distinct(xs[..n]);
      assert xs == xs[..n] + [xs[n]];
      assert xs[n] in ys <==> xs[n] in Elements(ys);
      assert Elements(xs) == Elements(xs[..n]) + {xs[n]};
      if xs[n] in ys then ys else
        assert Elements(ys + [xs[n]]) == Elements(ys) + {xs[n]};
        ys + [xs[n]]
  }

  lemma PrefixGrows<T>(xs: seq<T>, i: nat)
    requires i < |xs|
    ensures xs[..i + 1] == xs[..i] + [xs[i]]
  {
  }

  lemma WholePrefix<T>(xs: seq<T>)
    ensures xs[..|xs|] == xs
  {
  }

  lemma ElementsGrow<T>(xs: seq<T>, x: T)
    ensures Elements(xs + [x]) == Elements(xs) + {x}
  {
  }

  /** As many elements as positions means no element twice. */
  lemma {:induction false} RepeatFree<T>(xs: seq<T>)
    ensures |Elements(xs)| <= |xs|
    ensures |Elements(xs)| == |xs| <==> NoRepeats(xs)
  {
    if xs != [] {
      var n := |xs| - 1;
      RepeatFree(xs[..n]);
      assert xs == xs[..n] + [xs[n]];
      assert Elements(xs) == Elements(xs[..n]) + {xs[n]};
      if xs[n] in xs[..n] {
        var i :| 0 <= i < n && xs[..n][i] == xs[n];
        assert xs[i] == xs[n];
        assert Elements(xs) == Elements(xs[..n]);
      }
      if NoRepeats(xs[..n]) && xs[n] !in xs[..n] {
        forall i, j | 0 <= i < j < |xs| ensures xs[i] != xs[j] {
          if j == n { assert xs[..n][i] == xs[i]; } else { assert xs[..n][i] != xs[..n][j]; }
        }
      }
    }
  }

  lemma DistinctGrows<T>(xs: seq<T>, x: T)
    ensures Distinct(xs + [x]) == if x in Distinct(xs) then Distinct(xs) else Distinct(xs) + [x]
  {
    assert (xs + [x])[..|xs|] == xs;
  }

  /** What has occurred so far comes first. */
  lemma {:induction false} DistinctPrefix<T>(xs: seq<T>, k: nat)
    requires k <= |xs|
    ensures Distinct(xs[..k]) <= Distinct(xs)
  {
    if k == |xs| {
      WholePrefix(xs);
    } else {
      var n := |xs| - 1;
      DistinctPrefix(xs[..n], k);
      assert xs[..n][..k] == xs[..k] && xs == xs[..n] + [xs[n]];
      DistinctGrows(xs[..n], xs[n]);
    }
  }

  /** Everything but the element at `j`. */
  function Without<T>(xs: seq<T>, j: nat): seq<T>
    requires j < |xs|
  {
    xs[..j] + xs[j + 1..]
  }

  lemma WithoutBag<T>(xs: seq<T>, j: nat)
    requires j < |xs|
    ensures xs == xs[..j] + [xs[j]] + xs[j + 1..]
    ensures multiset(xs) == multiset(Without(xs, j)) + multiset{xs[j]}
  {
    assert xs == xs[..j] + [xs[j]] + xs[j + 1..];
  }

  /** In a reordering of `xs`, the last element of `xs` can be taken out, leaving a reordering of the rest. */
  lemma TakeLast<T>(xs: seq<T>, ys: seq<T>) returns (j: nat)
    requires xs != [] && multiset(xs) == multiset(ys)
    ensures j < |ys| && ys[j] == xs[|xs| - 1]
    ensures multiset(xs[..|xs| - 1]) == multiset(Without(ys, j))
  {
    var n := |xs| - 1;
    assert xs == xs[..n] + [xs[n]];
    assert xs[n] in multiset(ys);
    j :| 0 <= j < |ys| && ys[j] == xs[n];
    WithoutBag(ys, j);
    var x := xs[n];
    assert multiset(xs[..n]) + multiset{x} == multiset(Without(ys, j)) + multiset{x};
    assert multiset(xs[..n]) == multiset(xs[..n]) + multiset{x} - multiset{x};
    assert multiset(Without(ys, j)) == multiset(Without(ys, j)) + multiset{x} - multiset{x};
  }

  lemma CancelOne<T>(a: multiset<T>, b: multiset<T>, x: T)
    requires a + multiset{x} <= b + multiset{x}
    ensures a <= b
  {
    forall y ensures a[y] <= b[y] { assert (a + multiset{x})[y] <= (b + multiset{x})[y]; }
  }

  lemma AppendedBag<T>(xs: seq<T>, x: T, more: seq<T>)
    ensures multiset(xs + [x] + more) == multiset(xs + more) + multiset{x}
  {
  }

  /** What `ys` holds beyond `xs`. */
  lemma {:induction false} Remainder<T>(xs: seq<T>, ys: seq<T>) returns (more: seq<T>)
    requires multiset(xs) <= multiset(ys)
    ensures multiset(xs + more) == multiset(ys)
    decreases |xs|
  {
    if xs == [] {
      more := ys;
      assert xs + more == ys;
    } else {
      var n := |xs| - 1;
      var x := xs[n];
      assert xs == xs[..n] + [x];
      assert x in multiset(xs) && x in multiset(ys);
      var j :| 0 <= j < |ys| && ys[j] == x;
      assert multiset(xs) == multiset(xs[..n]) + multiset{x};
      WithoutBag(ys, j);
      CancelOne(multiset(xs[..n]), multiset(Without(ys, j)), x);
      more := Remainder(xs[..n], Without(ys, j));
      AppendedBag(xs[..n], x, more);
    }
  }

  /** `sorted(set(xs))`. */
  function SortedSet(xs: seq<string>): seq<string> {
    Sort(Distinct(xs), Before)
  }

  lemma SortedSetFacts(xs: seq<string>)
    ensures Ascending(SortedSet(xs), Before)
    ensures Elements(SortedSet(xs)) == Elements(xs)
  {
    StringsLinear(Distinct(xs));
    SortAscends(Distinct(xs), Before);
    SortPermutes(Distinct(xs), Before);
  }

  /** A sorted set depends on the members alone. */
  lemma SortedSetCanonical(xs: seq<string>, ys: seq<string>)
    ensures SortedSet(xs) == SortedSet(ys) <==> Elements(xs) == Elements(ys)
  {
    SortedSetFacts(xs);
    SortedSetFacts(ys);
    if Elements(xs) == Elements(ys) {
      StringsLinear(Distinct(xs));
      SortCanonical(Distinct(xs), Distinct(ys), Before);
    }
  }
}
