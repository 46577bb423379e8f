/**
 Citation redaction (packages/uc03/uc03/citation_guard.py).  The citation patterns are abstract:
 `found` is whatever list of non-empty matches they produce, in any order.
 */
module CitationGuard {
  import opened Ordering
  import opened Text

  datatype Span = Span(start: nat, end: nat)

  const REDACTION := "[citation removed - not verified]"

  predicate Within(spans: seq<Span>, text: string) {
    forall i | 0 <= i < |spans| :: spans[i].start < spans[i].end <= |text|
  }

  predicate Covers(spans: seq<Span>, x: int) {
    exists i | 0 <= i < |spans| :: spans[i].start <= x < spans[i].end
  }

  // ----- what verified citations protect -----

  /** `re.finditer(re.escape(phrase), text)`: leftmost, non-overlapping occurrences from `i` on. */
  function Occurrences(text: string, phrase: string, i: nat): (spans: seq<Span>)
    requires phrase != "" && i <= |text|
    ensures forall k | 0 <= k < |spans| ::
              spans[k].start < spans[k].end <= |text| && text[spans[k].start..spans[k].end] == phrase
    decreases |text| - i
  {
    if i == |text| then []
    else if phrase <= text[i..] then [Span(i, i + |phrase|)] + Occurrences(text, phrase, i + |phrase|)
    else Occurrences(text, phrase, i + 1)
  }

  function AllowedSpans(text: string, allowed: seq<string>): seq<Span> {
    if allowed == [] then []
    else
      var n := |allowed| - 1;
      var phrase := Strip(allowed[n]);
      AllowedSpans(text, allowed[..n]) + if phrase == "" then [] else Occurrences(text, phrase, 0)
  }

  predicate InsideAllowed(allowed: seq<Span>, s: Span) {
    exists i | 0 <= i < |allowed| :: allowed[i].start <= s.start && s.end <= allowed[i].end
  }

  /** The matches that are not inside an allowed span. */
  function Suspect(found: seq<Span>, allowed: seq<Span>): seq<Span> {
    if found == [] then []
    else
      var n := |found| - 1;
      Suspect(found[..n], allowed) + if InsideAllowed(allowed, found[n]) then [] else [found[n]]
  }

  lemma {:induction false} SuspectMembers(found: seq<Span>, allowed: seq<Span>)
    ensures forall s :: s in Suspect(found, allowed) <==> s in found && !InsideAllowed(allowed, s)
  {
    if found != [] {
      var n := |found| - 1;
      SuspectMembers(found[..n], allowed);
      assert found == found[..n] + [found[n]];
    }
  }

  // ----- sorting -----

  predicate SpanBefore(a: Span, b: Span) {
    a.start < b.start || (a.start == b.start && a.end < b.end)
  }

  predicate ByStart(spans: seq<Span>) {
    forall i, j | 0 <= i < j < |spans| :: spans[i].start <= spans[j].start
  }

  lemma {:induction false} InsertByStart(x: Span, spans: seq<Span>)
    requires ByStart(spans)
    ensures ByStart(Insert(x, spans, SpanBefore))
    ensures spans != [] ==>
              Insert(x, spans, SpanBefore)[0].start == if x.start < spans[0].start then x.start else spans[0].start
  {
    if spans != [] && !SpanBefore(x, spans[0]) {
      InsertByStart(x, spans[1..]);
      InsertKeeps(x, spans[1..], SpanBefore);
      var tail := Insert(x, spans[1..], SpanBefore);
      forall j | 0 <= j < |tail| ensures spans[0].start <= tail[j].start {
        assert tail[j] in multiset(tail);
        assert tail[j] == x || tail[j] in spans[1..];
      }
    }
  }

  lemma {:induction false} SortByStart(spans: seq<Span>)
    ensures ByStart(Sort(spans, SpanBefore))
  {
    if spans != [] {
      SortByStart(spans[..|spans| - 1]);
      InsertByStart(spans[|spans| - 1], Sort(spans[..|spans| - 1], SpanBefore));
    }
  }

  lemma SameMembersCover(a: seq<Span>, b: seq<Span>)
    requires forall s :: s in a <==> s in b
    ensures forall x :: Covers(a, x) <==> Covers(b, x)
  {
    forall x ensures Covers(a, x) <==> Covers(b, x) {
      if Covers(a, x) {
        var i :| 0 <= i < |a| && a[i].start <= x < a[i].end;
        assert a[i] in b;
      }
      if Covers(b, x) {
        var i :| 0 <= i < |b| && b[i].start <= x < b[i].end;
        assert b[i] in a;
      }
    }
  }

  // ----- merging -----

  /** Non-empty runs in order with an uncovered position between any two. */
  predicate Separated(runs: seq<Span>) {
    && (forall i | 0 <= i < |runs| :: runs[i].start < runs[i].end)
    && (forall i, j | 0 <= i < j < |runs| :: runs[i].end < runs[j].start)
  }

  method MergeSorted(spans: seq<Span>) returns (merged: seq<Span>)
    requires ByStart(spans) && forall i | 0 <= i < |spans| :: spans[i].start < spans[i].end
    ensures Separated(merged) && forall x :: Covers(merged, x) <==> Covers(spans, x)
  {
    merged := [];
    for i := 0 to |spans|
      invariant Separated(merged)
      invariant forall x :: Covers(merged, x) <==> Covers(spans[..i], x)
      invariant forall j | i <= j < |spans| :: merged != [] ==> merged[|merged| - 1].start <= spans[j].start
    {
      var s := spans[i];
      ghost var before := merged;
      CoversAppend(spans[..i], s);
      assert spans[..i + 1] == spans[..i] + [s];
      if merged != [] && s.start <= merged[|merged| - 1].end {
        var last := |merged| - 1;
        merged := merged[last := merged[last].(end := if s.end > merged[last].end then s.end else merged[last].end)];
        Extended(before, s, merged);
        SeparatedExtend(before, s, merged);
      } else {
        merged := merged + [s];
        CoversAppend(before, s);
        SeparatedAppend(before, s);
      }
    }
    assert spans[..|spans|] == spans;
  }

  lemma CoversAppend(spans: seq<Span>, s: Span)
    ensures forall x :: Covers(spans + [s], x) <==> Covers(spans, x) || s.start <= x < s.end
  {
    var all := spans + [s];
    forall x ensures Covers(all, x) <==> Covers(spans, x) || s.start <= x < s.end {
      if Covers(spans, x) {
        var i :| 0 <= i < |spans| && spans[i].start <= x < spans[i].end;
        assert all[i] == spans[i];
      }
      if s.start <= x < s.end {
        assert all[|spans|] == s;
      }
    }
  }

  lemma SeparatedAppend(before: seq<Span>, s: Span)
    requires Separated(before) && s.start < s.end && (before != [] ==> before[|before| - 1].end < s.start)
    ensures Separated(before + [s])
  {
    assert forall k | 0 <= k < |before| :: before[k].end <= before[|before| - 1].end;
  }

  lemma SeparatedExtend(before: seq<Span>, s: Span, after: seq<Span>)
    requires before != [] && Separated(before) && before[|before| - 1].start <= s.start
    requires after == before[|before| - 1 := before[|before| - 1].(
                        end := if s.end > before[|before| - 1].end then s.end else before[|before| - 1].end)]
    ensures Separated(after)
  {
  }

  /** Growing the last run over a touching span adds exactly the span. */
  lemma Extended(before: seq<Span>, s: Span, after: seq<Span>)
    requires before != [] && before[|before| - 1].start <= s.start <= before[|before| - 1].end && s.start < s.end
    requires after == before[|before| - 1 := before[|before| - 1].(
                        end := if s.end > before[|before| - 1].end then s.end else before[|before| - 1].end)]
    ensures forall x :: Covers(after, x) <==> Covers(before, x) || s.start <= x < s.end
  {
    var last := |before| - 1;
    forall x ensures Covers(after, x) <==> Covers(before, x) || s.start <= x < s.end {
      if Covers(before, x) {
        var i :| 0 <= i < |before| && before[i].start <= x < before[i].end;
        assert after[i].start <= x < after[i].end;
      }
      if s.start <= x < s.end {
        assert after[last].start <= x < after[last].end;
      }
    }
  }

  /** The merged list is canonical: two separated lists covering the same positions are equal, so it
      is the list of maximal covered runs, whatever the matches it was merged from. */
  lemma {:induction false} SeparatedUnique(a: seq<Span>, b: seq<Span>)
    requires Separated(a) && Separated(b) && forall x :: Covers(a, x) <==> Covers(b, x)
    ensures a == b
  {
    if a == [] {
      if b != [] { Head(b); }
    } else if b == [] {
      Head(a);
    } else {
      Head(a);
      Head(b);
      assert a[0].start == b[0].start;
      assert a[0].end == b[0].end;
      forall x ensures Covers(a[1..], x) <==> Covers(b[1..], x) {
        Tail(a, x);
        Tail(b, x);
      }
      SeparatedUnique(a[1..], b[1..]);
    }
  }

  lemma Head(a: seq<Span>)
    requires a != [] && Separated(a)
    ensures forall x | a[0].start <= x < a[0].end :: Covers(a, x)
    ensures !Covers(a, a[0].end)
    ensures forall x | x < a[0].start :: !Covers(a, x)
    ensures Covers(a, a[0].start)
  {
  }

  lemma Tail(a: seq<Span>, x: int)
    requires a != [] && Separated(a)
    ensures Covers(a[1..], x) <==> Covers(a, x) && x >= a[0].end
  {
    if Covers(a[1..], x) {
      var i :| 0 <= i < |a[1..]| && a[1..][i].start <= x < a[1..][i].end;
      assert a[i + 1] == a[1..][i];
    }
    if Covers(a, x) && x >= a[0].end {
      var i :| 0 <= i < |a| && a[i].start <= x < a[i].end;
      assert a[1..][i - 1] == a[i];
    }
  }

  // ----- redacting -----

  /** Position `i` begins a maximal covered run. */
  predicate RunStarts(spans: seq<Span>, i: nat) {
    Covers(spans, i) && (i == 0 || !Covers(spans, i - 1))
  }

  /** Character by character: each maximal covered run becomes one redaction, everything else stays. */
  function Redacted(text: string, spans: seq<Span>, i: nat): string
    decreases |text| - i
  {
    if i >= |text| then ""
    else if RunStarts(spans, i) then REDACTION + Redacted(text, spans, i + 1)
    else if Covers(spans, i) then Redacted(text, spans, i + 1)
    else [text[i]] + Redacted(text, spans, i + 1)
  }

  function Runs(text: string, spans: seq<Span>, i: nat): nat
    decreases |text| - i
  {
    if i >= |text| then 0 else (if RunStarts(spans, i) then 1 else 0) + Runs(text, spans, i + 1)
  }

  function CoveredCount(text: string, spans: seq<Span>, i: nat): nat
    decreases |text| - i
  {
    if i >= |text| then 0 else (if Covers(spans, i) then 1 else 0) + CoveredCount(text, spans, i + 1)
  }

  lemma {:induction false} RedactedLength(text: string, spans: seq<Span>, i: nat)
    requires i <= |text|
    ensures |Redacted(text, spans, i)|
         == |text| - i - CoveredCount(text, spans, i) + Runs(text, spans, i) * |REDACTION|
    decreases |text| - i
  {
    if i < |text| {
      RedactedLength(text, spans, i + 1);
    }
  }

  /** Redaction depends on the covered positions alone. */
  lemma {:induction false} RedactedByCoverage(text: string, a: seq<Span>, b: seq<Span>, i: nat)
    requires forall x :: Covers(a, x) <==> Covers(b, x)
    ensures Redacted(text, a, i) == Redacted(text, b, i) && Runs(text, a, i) == Runs(text, b, i)
    decreases |text| - i
  {
    if i < |text| {
      RedactedByCoverage(text, a, b, i + 1);
    }
  }

  lemma SliceFirst(text: string, i: nat, j: nat, rest: string)
    requires i < j <= |text|
    ensures text[i..j] + rest == [text[i]] + (text[i + 1..j] + rest)
  {
  }

  lemma CopyOne(text: string, spans: seq<Span>, i: nat)
    requires i < |text| && !Covers(spans, i)
    ensures Redacted(text, spans, i) == [text[i]] + Redacted(text, spans, i + 1)
    ensures Runs(text, spans, i) == Runs(text, spans, i + 1)
  {
    assert !RunStarts(spans, i);
  }

  lemma {:induction false} CopyUncovered(text: string, spans: seq<Span>, i: nat, j: nat)
    requires i <= j <= |text| && forall x | i <= x < j :: !Covers(spans, x)
    ensures Redacted(text, spans, i) == text[i..j] + Redacted(text, spans, j)
    ensures Runs(text, spans, i) == Runs(text, spans, j)
    decreases j - i
  {
    if i < j {
      CopyUncovered(text, spans, i + 1, j);
      CopyOne(text, spans, i);
      SliceFirst(text, i, j, Redacted(text, spans, j));
    } else {
      assert text[i..j] == "";
    }
  }

  lemma {:induction false} SkipCovered(text: string, spans: seq<Span>, i: nat, j: nat)
    requires 0 < i <= j <= |text| && forall x | i - 1 <= x < j :: Covers(spans, x)
    ensures Redacted(text, spans, i) == Redacted(text, spans, j) && Runs(text, spans, i) == Runs(text, spans, j)
    decreases j - i
  {
    if i < j {
      SkipCovered(text, spans, i + 1, j);
    }
  }

  /** The whole of run `k` becomes one redaction. */
  lemma RedactOne(text: string, merged: seq<Span>, k: nat, cursor: nat)
    requires Separated(merged) && Within(merged, text) && k < |merged|
    requires cursor <= merged[k].start && (cursor == 0 || cursor < merged[k].start)
    requires forall x | cursor <= x < merged[k].start :: !Covers(merged, x)
    ensures Redacted(text, merged, merged[k].start) == REDACTION + Redacted(text, merged, merged[k].end)
    ensures Runs(text, merged, merged[k].start) == 1 + Runs(text, merged, merged[k].end)
  {
    var s := merged[k];
    forall x | s.start <= x < s.end ensures Covers(merged, x) {}
    SkipCovered(text, merged, s.start + 1, s.end);
    assert RunStarts(merged, s.start) by {
      if s.start > 0 { assert !Covers(merged, s.start - 1); }
    }
  }

  /** One maximal run, seen from the end of the run before it. */
  lemma RedactRun(text: string, merged: seq<Span>, k: nat, cursor: nat)
    requires Separated(merged) && Within(merged, text) && k < |merged|
    requires cursor == if k == 0 then 0 else merged[k - 1].end
    ensures Redacted(text, merged, cursor)
         == text[cursor..merged[k].start] + REDACTION + Redacted(text, merged, merged[k].end)
    ensures Runs(text, merged, cursor) == 1 + Runs(text, merged, merged[k].end)
  {
    var s := merged[k];
    GapUncovered(merged, k, cursor);
    CopyUncovered(text, merged, cursor, s.start);
    RedactOne(text, merged, k, cursor);
    var rest := Redacted(text, merged, s.end);
    assert text[cursor..s.start] + (REDACTION + rest) == text[cursor..s.start] + REDACTION + rest;
  }

  lemma GapUncovered(merged: seq<Span>, k: nat, cursor: nat)
    requires Separated(merged) && k < |merged|
    requires cursor == if k == 0 then 0 else merged[k - 1].end
    ensures cursor <= merged[k].start && (k > 0 ==> cursor < merged[k].start)
    ensures forall x | cursor <= x < merged[k].start :: !Covers(merged, x)
  {
    forall x | cursor <= x < merged[k].start ensures !Covers(merged, x) {
      forall i | 0 <= i < |merged| ensures !(merged[i].start <= x < merged[i].end) {
        if i < k - 1 { assert merged[i].end < merged[k - 1].start; }
        if i > k { assert merged[k].end < merged[i].start; }
      }
    }
  }

  /** Writes the text with each run replaced, moving a cursor from run to run. */
  method Splice(text: string, merged: seq<Span>) returns (out: string)
    requires Separated(merged) && Within(merged, text)
    ensures out == Redacted(text, merged, 0) && |merged| == Runs(text, merged, 0)
  {
    out := "";
    var cursor := 0;
    for k := 0 to |merged|
      invariant cursor == if k == 0 then 0 else merged[k - 1].end
      invariant out + Redacted(text, merged, cursor) == Redacted(text, merged, 0)
      invariant k + Runs(text, merged, cursor) == Runs(text, merged, 0)
    {
      RedactRun(text, merged, k, cursor);
      GapUncovered(merged, k, cursor);
      var piece := text[cursor..merged[k].start];
      ghost var rest := Redacted(text, merged, merged[k].end);
      assert out + (piece + REDACTION + rest) == (out + piece + REDACTION) + rest;
      out := out + piece + REDACTION;
      cursor := merged[k].end;
    }
    AfterLastUncovered(merged, cursor, |text|);
    CopyUncovered(text, merged, cursor, |text|);
    assert text[cursor..|text|] == text[cursor..];
    out := out + text[cursor..];
  }

  lemma AfterLastUncovered(merged: seq<Span>, cursor: nat, n: nat)
    requires Separated(merged) && cursor == if merged == [] then 0 else merged[|merged| - 1].end
    ensures forall x | cursor <= x < n :: !Covers(merged, x)
  {
    forall x | cursor <= x < n ensures !Covers(merged, x) {
      forall i | 0 <= i < |merged| ensures merged[i].end <= cursor {
        if i < |merged| - 1 { assert merged[i].end < merged[|merged| - 1].start; }
      }
    }
  }

  // ----- white space -----

  function RunLength(s: string): (n: nat)
    ensures n <= |s| && (s != "" && IsSpace(s[0]) ==> n >= 1) && (n < |s| ==> !IsSpace(s[n]))
    ensures forall i | 0 <= i < n :: IsSpace(s[i])
  {
    if s == "" || !IsSpace(s[0]) then 0 else 1 + RunLength(s[1..])
  }

  /** Substitutes one blank for each run of two or more white space characters. */
  function Collapse(s: string): string
    decreases |s|
  {
    if s == "" then ""
    else
      var n := RunLength(s);
      if n >= 2 then " " + Collapse(s[n..]) else [s[0]] + Collapse(s[1..])
  }

  function NonBlank(s: string): string {
    if s == "" then "" else (if IsSpace(s[0]) then "" else [s[0]]) + NonBlank(s[1..])
  }

  lemma {:induction false} BlankPrefix(s: string, n: nat)
    requires n <= |s| && forall i | 0 <= i < n :: IsSpace(s[i])
    ensures NonBlank(s) == NonBlank(s[n..])
    decreases n
  {
    if n > 0 {
      BlankPrefix(s[1..], n - 1);
      assert s[1..][n - 1..] == s[n..];
    } else {
      assert s[0..] == s;
    }
  }

  /** Tidying touches white space only, and leaves no two white space characters together. */
  lemma {:induction false} CollapseTidies(s: string)
    ensures NonBlank(Collapse(s)) == NonBlank(s)
    ensures forall i | 0 <= i < |Collapse(s)| - 1 :: !(IsSpace(Collapse(s)[i]) && IsSpace(Collapse(s)[i + 1]))
    ensures s != "" ==> Collapse(s) != "" && (IsSpace(Collapse(s)[0]) <==> IsSpace(s[0]))
    decreases |s|
  {
    if s != "" {
      var n := RunLength(s);
      if n >= 2 {
        CollapseTidies(s[n..]);
        BlankPrefix(s, n);
        assert Collapse(s)[1..] == Collapse(s[n..]);
      } else {
        CollapseTidies(s[1..]);
        assert Collapse(s)[1..] == Collapse(s[1..]);
      }
    }
  }

  // ----- the guard -----

  datatype Guarded = Guarded(text: string, violations: nat)

  /** What `scrub` returns, in terms of the covered positions. */
  function Scrubbed(text: string, found: seq<Span>, allowed: seq<string>): Guarded {
    var suspect := Suspect(found, AllowedSpans(text, allowed));
    if text == "" || suspect == [] then Guarded(text, 0)
    else Guarded(Strip(Collapse(Redacted(text, suspect, 0))), Runs(text, suspect, 0))
  }

  method Scrub(text: string, found: seq<Span>, allowed: seq<string>) returns (g: Guarded)
    requires Within(found, text)
    ensures g == Scrubbed(text, found, allowed)
  {
    if text == "" {
      return Guarded(text, 0);
    }
    var suspect := Suspect(found, AllowedSpans(text, allowed));
    if suspect == [] {
      return Guarded(text, 0);
    }
    var sorted := Sort(suspect, SpanBefore);
    SortedSuspects(found, AllowedSpans(text, allowed), text);
    var merged := MergeSorted(sorted);
    MergedWithin(merged, sorted, text);
    var out := Splice(text, merged);
    RedactedByCoverage(text, merged, suspect, 0);
    g := Guarded(Strip(Collapse(out)), |merged|);
  }

  lemma SortedSuspects(found: seq<Span>, allowed: seq<Span>, text: string)
    requires Within(found, text)
    ensures var suspect := Suspect(found, allowed);
      var sorted := Sort(suspect, SpanBefore);
      ByStart(sorted) && Within(sorted, text) && forall x :: Covers(sorted, x) <==> Covers(suspect, x)
  {
    var suspect := Suspect(found, allowed);
    var sorted := Sort(suspect, SpanBefore);
    SortByStart(suspect);
    SortKeeps(suspect, SpanBefore);
    SameBag(sorted, suspect);
    SuspectMembers(found, allowed);
    SameMembersCover(sorted, suspect);
    forall i | 0 <= i < |sorted| ensures sorted[i].start < sorted[i].end <= |text| {
      assert sorted[i] in suspect && sorted[i] in found;
    }
  }

  lemma MergedWithin(merged: seq<Span>, spans: seq<Span>, text: string)
    requires Separated(merged) && Within(spans, text) && forall x :: Covers(merged, x) <==> Covers(spans, x)
    ensures Within(merged, text)
  {
    forall i | 0 <= i < |merged| ensures merged[i].end <= |text| {
      assert Covers(merged, merged[i].end - 1);
    }
  }

  ghost predicate SameCoverage(a: seq<Span>, b: seq<Span>) {
    forall x :: Covers(a, x) <==> Covers(b, x)
  }

  /** The outcome is the same for any two lists of matches whose suspect matches cover the same
      positions, in whatever order, however overlapping. */
  lemma ScrubDependsOnCoverage(text: string, a: seq<Span>, b: seq<Span>, allowed: seq<string>)
    requires Within(a, text) && Within(b, text)
    requires SameCoverage(Suspect(a, AllowedSpans(text, allowed)), Suspect(b, AllowedSpans(text, allowed)))
    ensures Scrubbed(text, a, allowed) == Scrubbed(text, b, allowed)
  {
    var protect := AllowedSpans(text, allowed);
    RedactedByCoverage(text, Suspect(a, protect), Suspect(b, protect), 0);
    NothingCovered(a, protect, text);
    NothingCovered(b, protect, text);
  }

  lemma NothingCovered(found: seq<Span>, allowed: seq<Span>, text: string)
    requires Within(found, text)
    ensures Suspect(found, allowed) != [] ==> Covers(Suspect(found, allowed), Suspect(found, allowed)[0].start)
    ensures Suspect(found, allowed) == [] ==> forall x :: !Covers(Suspect(found, allowed), x)
  {
    SuspectMembers(found, allowed);
    var suspect := Suspect(found, allowed);
    if suspect != [] {
      assert suspect[0] in suspect && suspect[0] in found;
    }
  }
}
