/**
 What a verified citation protects (packages/uc03/uc03/citation_guard.py, `_allowed_spans` and `scrub`):
 which matches are redacted, said of the text and the allowed phrases.
 */
module CitationLaws {
  import opened Ordering
  import opened Text
  import opened CitationGuard

  /** The phrase stands at position `i` of the text. */
  predicate OccursAt(text: string, phrase: string, i: int) {
    0 <= i <= |text| - |phrase| && text[i..i + |phrase|] == phrase
  }

  /** Where the phrase stands in the text. */
  function Positions(text: string, phrase: string): set<int> {
    set i | 0 <= i <= |text| && OccursAt(text, phrase, i)
  }

  predicate Disjoint(spans: seq<Span>) {
    forall j, k | 0 <= j < k < |spans| :: spans[j].end <= spans[k].start
  }

  predicate SpanAt(at: set<int>, n: nat, from: int, s: Span) {
    from <= s.start && s.end == s.start + n && s.start in at
  }

  /** Non-overlapping spans of `n` positions from `from` on, in order, each starting at one of `at`, and none of
      which could have started further left: whatever position is not the start of a span is inside one. */
  ghost predicate Leftmost(at: set<int>, n: nat, from: int, spans: seq<Span>) {
    && (forall k | 0 <= k < |spans| :: SpanAt(at, n, from, spans[k]))
    && Disjoint(spans)
    && forall i {:trigger Covers(spans, i)} | i in at && i >= from :: Covers(spans, i)
  }

  // ----- the scan -----

  lemma FrontOccurs(text: string, phrase: string, i: nat)
    requires i <= |text|
    ensures phrase <= text[i..] <==> i in Positions(text, phrase)
  {
    if i + |phrase| <= |text| { assert text[i..][..|phrase|] == text[i..i + |phrase|]; }
  }

  lemma CoversCons(s: Span, rest: seq<Span>, x: int)
    ensures Covers([s] + rest, x) <==> s.start <= x < s.end || Covers(rest, x)
  {
    if s.start <= x < s.end { assert ([s] + rest)[0] == s; }
    if Covers(rest, x) {
      var i :| 0 <= i < |rest| && rest[i].start <= x < rest[i].end;
      assert ([s] + rest)[i + 1] == rest[i];
    }
  }

  lemma DisjointCons(s: Span, rest: seq<Span>)
    requires Disjoint(rest) && forall k | 0 <= k < |rest| :: s.end <= rest[k].start
    ensures Disjoint([s] + rest)
  {
    var spans := [s] + rest;
    forall j, k | 0 <= j < k < |spans| ensures spans[j].end <= spans[k].start {
      assert spans[k] == rest[k - 1] && (j > 0 ==> spans[j] == rest[j - 1]);
    }
  }

  lemma LeftmostCons(at: set<int>, n: nat, i: nat, rest: seq<Span>)
    requires n > 0 && i in at && Leftmost(at, n, i + n, rest)
    ensures Leftmost(at, n, i, [Span(i, i + n)] + rest)
  {
    var s := Span(i, i + n);
    var spans := [s] + rest;
    forall k | 0 <= k < |rest| ensures SpanAt(at, n, i, rest[k]) && s.end <= rest[k].start {
      assert SpanAt(at, n, i + n, rest[k]);
    }
    forall k | 0 <= k < |spans| ensures SpanAt(at, n, i, spans[k]) {
      assert spans[k] == if k == 0 then s else rest[k - 1];
    }
    DisjointCons(s, rest);
    forall x | x in at && x >= i ensures Covers(spans, x) {
      assert x >= i + n ==> Covers(rest, x);
      CoversCons(s, rest, x);
    }
  }

  lemma LeftmostSkip(at: set<int>, n: nat, i: nat, spans: seq<Span>)
    requires i !in at && Leftmost(at, n, i + 1, spans)
    ensures Leftmost(at, n, i, spans)
  {
    forall k | 0 <= k < |spans| ensures SpanAt(at, n, i, spans[k]) {
      assert SpanAt(at, n, i + 1, spans[k]);
    }
  }

  /** The scan reports a leftmost list. */
  lemma {:induction false} ScanIsLeftmost(text: string, phrase: string, i: nat)
    requires phrase != "" && i <= |text|
    ensures Leftmost(Positions(text, phrase), |phrase|, i, Occurrences(text, phrase, i))
    decreases |text| - i
  {
    var at := Positions(text, phrase);
    if i < |text| {
      FrontOccurs(text, phrase, i);
      if phrase <= text[i..] {
        ScanIsLeftmost(text, phrase, i + |phrase|);
        LeftmostCons(at, |phrase|, i, Occurrences(text, phrase, i + |phrase|));
      } else {
        ScanIsLeftmost(text, phrase, i + 1);
        LeftmostSkip(at, |phrase|, i, Occurrences(text, phrase, i + 1));
      }
    }
  }

  lemma HeadIsLeast(at: set<int>, n: nat, from: int, spans: seq<Span>, i: int)
    requires n > 0 && Leftmost(at, n, from, spans) && i in at && i >= from
    ensures spans != [] && spans[0].start <= i && spans[0] == Span(spans[0].start, spans[0].start + n)
    ensures spans[0].start in at && spans[0].start >= from
  {
    assert Covers(spans, i);
    var k :| 0 <= k < |spans| && spans[k].start <= i < spans[k].end;
    assert SpanAt(at, n, from, spans[0]);
    if k > 0 { assert spans[0].end <= spans[k].start; }
  }

  lemma LeftmostTail(at: set<int>, n: nat, from: int, a: seq<Span>)
    requires n > 0 && Leftmost(at, n, from, a) && a != []
    ensures Leftmost(at, n, a[0].end, a[1..])
  {
    var rest := a[1..];
    assert SpanAt(at, n, from, a[0]);
    forall k | 0 <= k < |rest| ensures SpanAt(at, n, a[0].end, rest[k]) {
      assert rest[k] == a[k + 1] && SpanAt(at, n, from, a[k + 1]);
      assert a[0].end <= a[k + 1].start;
    }
    forall i | i in at && i >= a[0].end ensures Covers(rest, i) {
      assert a == [a[0]] + rest;
      CoversCons(a[0], rest, i);
    }
  }

  /** There is one leftmost list. */
  lemma {:induction false} LeftmostUnique(at: set<int>, n: nat, from: int, a: seq<Span>, b: seq<Span>)
    requires n > 0 && Leftmost(at, n, from, a) && Leftmost(at, n, from, b)
    ensures a == b
    decreases |a|
  {
    if a != [] {
      assert SpanAt(at, n, from, a[0]);
      HeadIsLeast(at, n, from, b, a[0].start);
      HeadIsLeast(at, n, from, a, b[0].start);
      LeftmostTail(at, n, from, a);
      LeftmostTail(at, n, from, b);
      LeftmostUnique(at, n, a[0].end, a[1..], b[1..]);
      assert a == [a[0]] + a[1..] && b == [b[0]] + b[1..];
    } else if b != [] {
      assert SpanAt(at, n, from, b[0]);
      HeadIsLeast(at, n, from, a, b[0].start);
    }
  }

  /** The occurrences a scan reports are exactly the leftmost ones: every occurrence starts inside one of them,
      and the first occurrence is the first one reported. */
  lemma OccurrencesIff(text: string, phrase: string, spans: seq<Span>)
    requires phrase != ""
    ensures spans == Occurrences(text, phrase, 0) <==> Leftmost(Positions(text, phrase), |phrase|, 0, spans)
  {
    ScanIsLeftmost(text, phrase, 0);
    if Leftmost(Positions(text, phrase), |phrase|, 0, spans) {
      LeftmostUnique(Positions(text, phrase), |phrase|, 0, spans, Occurrences(text, phrase, 0));
    }
  }

  // ----- what is protected -----

  predicate Encloses(i: int, n: nat, s: Span) {
    i <= s.start && s.end <= i + n
  }

  predicate Reports(spans: seq<Span>, n: nat, i: int, s: Span) {
    0 <= i < |spans| && Encloses(spans[i].start, n, s)
  }

  ghost predicate EnclosedBy(at: set<int>, n: nat, s: Span) {
    exists spans, i :: Leftmost(at, n, 0, spans) && Reports(spans, n, i, s)
  }

  /** An allowed citation protects the match: its leftmost scan reports an occurrence around it. */
  ghost predicate ProtectedBy(text: string, citation: string, s: Span) {
    Strip(citation) != "" && EnclosedBy(Positions(text, Strip(citation)), |Strip(citation)|, s)
  }

  ghost predicate Protected(text: string, allowed: seq<string>, s: Span) {
    exists k | 0 <= k < |allowed| :: ProtectedBy(text, allowed[k], s)
  }

  lemma EnclosedIff(at: set<int>, n: nat, spans: seq<Span>, s: Span)
    requires n > 0 && Leftmost(at, n, 0, spans)
    ensures EnclosedBy(at, n, s) <==> InsideAllowed(spans, s)
  {
    if EnclosedBy(at, n, s) {
      var other: seq<Span>, i: int :| Leftmost(at, n, 0, other) && Reports(other, n, i, s);
      LeftmostUnique(at, n, 0, other, spans);
      assert SpanAt(at, n, 0, spans[i]);
    }
    if InsideAllowed(spans, s) {
      var i :| 0 <= i < |spans| && spans[i].start <= s.start && s.end <= spans[i].end;
      assert SpanAt(at, n, 0, spans[i]);
      assert Reports(spans, n, i, s);
    }
  }

  lemma ProtectedByIff(text: string, citation: string, s: Span)
    ensures ProtectedBy(text, citation, s)
       <==> Strip(citation) != "" && InsideAllowed(Occurrences(text, Strip(citation), 0), s)
  {
    var phrase := Strip(citation);
    if phrase != "" {
      ScanIsLeftmost(text, phrase, 0);
      EnclosedIff(Positions(text, phrase), |phrase|, Occurrences(text, phrase, 0), s);
    }
  }

  lemma InsideEither(a: seq<Span>, b: seq<Span>, s: Span)
    ensures InsideAllowed(a + b, s) <==> InsideAllowed(a, s) || InsideAllowed(b, s)
  {
    var all := a + b;
    if InsideAllowed(a, s) {
      var i :| 0 <= i < |a| && a[i].start <= s.start && s.end <= a[i].end;
      assert all[i] == a[i];
    }
    if InsideAllowed(b, s) {
      var i :| 0 <= i < |b| && b[i].start <= s.start && s.end <= b[i].end;
      assert all[|a| + i] == b[i];
    }
  }

  lemma ProtectedGrows(text: string, allowed: seq<string>, citation: string, s: Span)
    ensures Protected(text, allowed + [citation], s)
       <==> Protected(text, allowed, s) || ProtectedBy(text, citation, s)
  {
    var all := allowed + [citation];
    if Protected(text, allowed, s) {
      var k :| 0 <= k < |allowed| && ProtectedBy(text, allowed[k], s);
      assert ProtectedBy(text, all[k], s);
    }
    if ProtectedBy(text, citation, s) { assert ProtectedBy(text, all[|allowed|], s); }
  }

  lemma {:induction false} ProtectedIff(text: string, allowed: seq<string>, s: Span)
    ensures Protected(text, allowed, s) <==> InsideAllowed(AllowedSpans(text, allowed), s)
  {
    if allowed != [] {
      var n := |allowed| - 1;
      var phrase := Strip(allowed[n]);
      ProtectedIff(text, allowed[..n], s);
      ProtectedByIff(text, allowed[n], s);
      InsideEither(AllowedSpans(text, allowed[..n]), if phrase == "" then [] else Occurrences(text, phrase, 0), s);
      ProtectedGrows(text, allowed[..n], allowed[n], s);
      assert allowed == allowed[..n] + [allowed[n]];
    }
  }

  // ----- verified citations, said of the text alone -----

  predicate FirstAt(text: string, phrase: string, i: int) {
    OccursAt(text, phrase, i) && forall j | 0 <= j < i :: !OccursAt(text, phrase, j)
  }

  predicate FirstAround(text: string, citation: string, i: int, s: Span) {
    FirstAt(text, Strip(citation), i) && Encloses(i, |Strip(citation)|, s)
  }

  predicate SomeAround(text: string, citation: string, i: int, s: Span) {
    OccursAt(text, Strip(citation), i) && Encloses(i, |Strip(citation)|, s)
  }

  /** The match lies inside the first occurrence of an allowed citation. */
  ghost predicate Cited(text: string, allowed: seq<string>, s: Span) {
    exists citation, i | citation in allowed && Strip(citation) != "" :: FirstAround(text, citation, i, s)
  }

  /** The match lies inside some occurrence of an allowed citation. */
  ghost predicate Mentioned(text: string, allowed: seq<string>, s: Span) {
    exists citation, i | citation in allowed && Strip(citation) != "" :: SomeAround(text, citation, i, s)
  }

  /** The first occurrence of an allowed citation protects what it holds. */
  lemma CitedIsProtected(text: string, allowed: seq<string>, s: Span)
    requires Cited(text, allowed, s)
    ensures Protected(text, allowed, s)
  {
    var citation, i :| citation in allowed && Strip(citation) != "" && FirstAround(text, citation, i, s);
    var phrase := Strip(citation);
    var at := Positions(text, phrase);
    var spans := Occurrences(text, phrase, 0);
    ScanIsLeftmost(text, phrase, 0);
    assert i in at;
    HeadIsLeast(at, |phrase|, 0, spans, i);
    assert Reports(spans, |phrase|, 0, s);
    assert ProtectedBy(text, citation, s);
  }

  /** Nothing else is protected than what stands inside an occurrence of an allowed citation. */
  lemma ProtectedIsMentioned(text: string, allowed: seq<string>, s: Span)
    requires Protected(text, allowed, s)
    ensures Mentioned(text, allowed, s)
  {
    var k :| 0 <= k < |allowed| && ProtectedBy(text, allowed[k], s);
    var at, n := Positions(text, Strip(allowed[k])), |Strip(allowed[k])|;
    var spans: seq<Span>, i: int :| Leftmost(at, n, 0, spans) && Reports(spans, n, i, s);
    assert SpanAt(at, n, 0, spans[i]);
    assert SomeAround(text, allowed[k], spans[i].start, s);
  }

  // ----- what is redacted -----

  /** `kept` holds exactly the matches no allowed citation protects. */
  ghost predicate Unprotected(text: string, found: seq<Span>, allowed: seq<string>, kept: seq<Span>) {
    forall s :: s in kept <==> s in found && !Protected(text, allowed, s)
  }

  /** A text is returned as it is, with no violation, if and only if every match in it is protected; otherwise
      exactly the unprotected matches are redacted, and each run of them counts once. */
  lemma RedactsUnprotected(text: string, found: seq<Span>, allowed: seq<string>, kept: seq<Span>)
    requires Within(found, text) && Unprotected(text, found, allowed, kept)
    ensures Scrubbed(text, found, allowed)
         == if kept == [] then Guarded(text, 0)
            else Guarded(Strip(Collapse(Redacted(text, kept, 0))), Runs(text, kept, 0))
    ensures Scrubbed(text, found, allowed).violations == 0 <==> kept == []
  {
    var spans := AllowedSpans(text, allowed);
    var suspect := Suspect(found, spans);
    SuspectMembers(found, spans);
    forall s ensures s in suspect <==> s in kept { ProtectedIff(text, allowed, s); }
    SameMembersCover(suspect, kept);
    RedactedByCoverage(text, suspect, kept, 0);
    if kept != [] {
      assert kept[0] in found && kept[0] in suspect;
      RunsPositive(text, kept, kept[0]);
    } else {
      NoElements(suspect);
    }
  }

  lemma {:induction false} RunsFrom(text: string, spans: seq<Span>, i: nat, x: nat)
    requires i <= x < |text| && Covers(spans, x) && (i == 0 || !Covers(spans, i - 1))
    ensures Runs(text, spans, i) > 0
    decreases x - i
  {
    if i < x && !RunStarts(spans, i) { RunsFrom(text, spans, i + 1, x); }
  }

  lemma RunsPositive(text: string, spans: seq<Span>, s: Span)
    requires s in spans && s.start < s.end <= |text|
    ensures Runs(text, spans, 0) > 0
  {
    var i :| 0 <= i < |spans| && spans[i] == s;
    assert Covers(spans, s.start);
    RunsFrom(text, spans, 0, s.start);
  }

  /** A text whose every match lies inside the first occurrence of a verified citation is left alone. */
  lemma VerifiedTextUnchanged(text: string, found: seq<Span>, allowed: seq<string>)
    requires Within(found, text) && forall s | s in found :: Cited(text, allowed, s)
    ensures Scrubbed(text, found, allowed) == Guarded(text, 0)
  {
    forall s | s in found ensures Protected(text, allowed, s) { CitedIsProtected(text, allowed, s); }
    RedactsUnprotected(text, found, allowed, []);
  }

  /** A match that no occurrence of an allowed citation encloses is a violation. */
  lemma UnverifiedIsRedacted(text: string, found: seq<Span>, allowed: seq<string>, s: Span)
    requires Within(found, text) && s in found && !Mentioned(text, allowed, s)
    ensures Scrubbed(text, found, allowed).violations > 0
  {
    if Protected(text, allowed, s) { ProtectedIsMentioned(text, allowed, s); }
    var spans := AllowedSpans(text, allowed);
    var suspect := Suspect(found, spans);
    SuspectMembers(found, spans);
    ProtectedIff(text, allowed, s);
    forall m ensures m in suspect <==> m in found && !Protected(text, allowed, m) { ProtectedIff(text, allowed, m); }
    assert s in suspect;
    RedactsUnprotected(text, found, allowed, suspect);
  }

  // ----- tidying -----

  lemma RunLengthIs(s: string, n: nat)
    requires n <= |s| && (forall i | 0 <= i < n :: IsSpace(s[i])) && (n < |s| ==> !IsSpace(s[n]))
    ensures RunLength(s) == n
  {
    assert n > 0 ==> IsSpace(s[0]);
  }

  lemma CollapseRun(run: string, rest: string)
    requires Blank(run) && |run| >= 2 && (rest != "" ==> !IsSpace(rest[0]))
    ensures Collapse(run + rest) == " " + Collapse(rest)
  {
    var s := run + rest;
    RunLengthIs(s, |run|);
    assert s[|run|..] == rest;
  }

  lemma CollapseOne(c: char, rest: string)
    requires IsSpace(c) && rest != "" ==> !IsSpace(rest[0])
    ensures Collapse([c] + rest) == [c] + Collapse(rest)
  {
    var s := [c] + rest;
    assert s[1..] == rest;
    RunLengthIs(s, if IsSpace(c) then 1 else 0);
  }

  /** Text without two white space characters together is left alone. */
  lemma {:induction false} TidyIsFixed(s: string)
    requires forall i | 0 <= i < |s| - 1 :: !(IsSpace(s[i]) && IsSpace(s[i + 1]))
    ensures Collapse(s) == s
  {
    if s != "" {
      var more := s[1..];
      forall i | 0 <= i < |more| - 1 ensures !(IsSpace(more[i]) && IsSpace(more[i + 1])) {
        assert more[i] == s[i + 1] && more[i + 1] == s[i + 2];
      }
      TidyIsFixed(more);
      assert s == [s[0]] + more;
    }
  }

  lemma Regroup(a: string, b: string, c: string, d: string)
    ensures a + b + c + d == a + (b + c + d)
  {
  }

  lemma AfterRun(head: string, rest: string, run: string, after: string)
    requires Blank(head) && |head| >= 2 && rest != "" && !IsSpace(rest[0])
    requires Collapse(rest + run + after) == Collapse(rest) + " " + Collapse(after)
    ensures Collapse(head + rest + run + after) == Collapse(head + rest) + " " + Collapse(after)
  {
    Regroup(head, rest, run, after);
    CollapseRun(head, rest);
    CollapseRun(head, rest + run + after);
    Regroup(" ", Collapse(rest), " ", Collapse(after));
  }

  lemma AfterOne(c: char, rest: string, run: string, after: string)
    requires IsSpace(c) ==> rest != "" && !IsSpace(rest[0])
    requires Collapse(rest + run + after) == Collapse(rest) + " " + Collapse(after)
    ensures Collapse([c] + rest + run + after) == Collapse([c] + rest) + " " + Collapse(after)
  {
    Regroup([c], rest, run, after);
    CollapseOne(c, rest);
    CollapseOne(c, rest + run + after);
    Regroup([c], Collapse(rest), " ", Collapse(after));
  }

  /** A maximal run of two or more white space characters becomes one blank, and what surrounds it is tidied on
      its own. */
  lemma {:induction false} RunBecomesBlank(before: string, run: string, after: string)
    requires Blank(run) && |run| >= 2
    requires before != "" ==> !IsSpace(before[|before| - 1])
    requires after != "" ==> !IsSpace(after[0])
    ensures Collapse(before + run + after) == Collapse(before) + " " + Collapse(after)
    decreases |before|
  {
    if before == "" {
      assert before + run + after == run + after;
      CollapseRun(run, after);
      assert "" + " " + Collapse(after) == " " + Collapse(after);
    } else {
      var n := RunLength(before);
      var k := if n >= 2 then n else 1;
      RunBecomesBlank(before[k..], run, after);
      assert before == before[..k] + before[k..];
      if n >= 2 {
        AfterRun(before[..k], before[k..], run, after);
      } else {
        assert before[..1] == [before[0]];
        AfterOne(before[0], before[1..], run, after);
      }
    }
  }

  /** What tidying leaves untouched is every character that is no white space, as often as it occurs. */
  lemma {:induction false} NonBlankHolds(s: string, c: char)
    ensures multiset(NonBlank(s))[c] == if IsSpace(c) then 0 else multiset(s)[c]
  {
    if s != "" {
      assert s == [s[0]] + s[1..];
      NonBlankHolds(s[1..], c);
    }
  }
}
