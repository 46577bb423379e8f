/** Fact markers: scanning, verification, rendering (packages/uc06/uc06/application/fact_references.py). */
module FactReferences {
  import opened Prelude
  import opened Ordering

  const OPEN := "[[fact:"
  const CLOSE := "]]"
  const MAX_ID := 64

  predicate IdChar(c: char) {
    'A' <= c <= 'Z' || 'a' <= c <= 'z' || '0' <= c <= '9' || c == '_' || c == '.' || c == '-'
  }

  predicate FactId(id: string) {
    1 <= |id| <= MAX_ID && forall i | 0 <= i < |id| :: IdChar(id[i])
  }

  /** Letters and digits of ASCII, the underscore, the full stop and the hyphen, by code point. */
  lemma IdCharIff(c: char)
    ensures IdChar(c) <==>
              var n := c as int;
              n == 45 || n == 46 || 48 <= n < 58 || 65 <= n < 91 || n == 95 || 97 <= n < 123
  {
  }

  /** The text of a marker for an identifier. */
  function Marker(id: string): string {
    OPEN + id + CLOSE
  }

  /** What a marker is rewritten to. */
  function Citation(id: string): string {
    "(case file fact " + id + ")"
  }

  /** The maximal run of identifier characters at the front. */
  function IdRun(s: string): (id: string)
    ensures id <= s && forall i | 0 <= i < |id| :: IdChar(id[i])
  {
    if s == "" || !IdChar(s[0]) then "" else [s[0]] + IdRun(s[1..])
  }

  /** The greedy match of the marker pattern at the front of `s`: identifier characters exclude the
      closing bracket, so only the maximal run can be followed by the closing brackets. */
  function MatchFront(s: string): (m: Option<string>)
    ensures m.Some? ==> FactId(m.value) && Marker(m.value) <= s
  {
    if OPEN <= s then
      var id := IdRun(s[|OPEN|..]);
      assert s[|OPEN|..][..|id|] == id;
      if 1 <= |id| <= MAX_ID && CLOSE <= s[|OPEN| + |id|..] then
        assert s[..|Marker(id)|] == Marker(id);
        Some(id)
      else None
    else None
  }

  lemma {:induction false} IdRunOf(id: string, rest: string)
    requires forall i | 0 <= i < |id| :: IdChar(id[i])
    requires rest == "" || !IdChar(rest[0])
    ensures IdRun(id + rest) == id
  {
    if id == "" {
      assert id + rest == rest;
    } else {
      assert (id + rest)[1..] == id[1..] + rest;
      IdRunOf(id[1..], rest);
    }
  }

  /** The matcher is the grammar: it matches exactly a well-formed marker at the front. */
  lemma MatchFrontIff(s: string, id: string)
    ensures MatchFront(s) == Some(id) <==> FactId(id) && Marker(id) <= s
  {
    if FactId(id) && Marker(id) <= s {
      var rest := s[|OPEN| + |id|..];
      assert s[|OPEN|..] == id + rest;
      assert CLOSE <= rest;
      IdRunOf(id, rest);
      assert OPEN <= s;
    }
  }

  // ----- scanning and rendering: leftmost, non-overlapping -----

  function Scan(s: string): seq<string>
    decreases |s|
  {
    if s == "" then []
    else match MatchFront(s)
      case Some(id) => [id] + Scan(s[|Marker(id)|..])
      case None => Scan(s[1..])
  }

  function Rendered(s: string): string
    decreases |s|
  {
    if s == "" then ""
    else match MatchFront(s)
      case Some(id) => Citation(id) + Rendered(s[|Marker(id)|..])
      case None => [s[0]] + Rendered(s[1..])
  }

  predicate MarkerFree(s: string) {
    forall i | 0 <= i <= |s| :: MatchFront(s[i..]).None?
  }

  /** The verbatim text around the markers: before the first, between them, after the last. */
  function Around(s: string): (gaps: seq<string>)
    ensures |gaps| == |Scan(s)| + 1
    decreases |s|
  {
    if s == "" then [""]
    else match MatchFront(s)
      case Some(id) => [""] + Around(s[|Marker(id)|..])
      case None => var rest := Around(s[1..]); [[s[0]] + rest[0]] + rest[1..]
  }

  function Weave(gaps: seq<string>, pieces: seq<string>): string
    requires |gaps| == |pieces| + 1
  {
    if pieces == [] then gaps[0] else gaps[0] + pieces[0] + Weave(gaps[1..], pieces[1..])
  }

  function Markers(ids: seq<string>): (m: seq<string>)
    ensures |m| == |ids|
  {
    seq(|ids|, i requires 0 <= i < |ids| => Marker(ids[i]))
  }

  function Citations(ids: seq<string>): (c: seq<string>)
    ensures |c| == |ids|
  {
    seq(|ids|, i requires 0 <= i < |ids| => Citation(ids[i]))
  }

  lemma WeaveCopy(c: char, gaps: seq<string>, pieces: seq<string>)
    requires |gaps| == |pieces| + 1
    ensures Weave([[c] + gaps[0]] + gaps[1..], pieces) == [c] + Weave(gaps, pieces)
  {
    var more := [[c] + gaps[0]] + gaps[1..];
    assert more[1..] == gaps[1..];
    if pieces != [] {
      var tail := Weave(gaps[1..], pieces[1..]);
      assert [c] + (gaps[0] + pieces[0] + tail) == [c] + gaps[0] + pieces[0] + tail;
    }
  }

  lemma WeavePiece(piece: string, gaps: seq<string>, pieces: seq<string>)
    requires |gaps| == |pieces| + 1
    ensures Weave([""] + gaps, [piece] + pieces) == piece + Weave(gaps, pieces)
  {
    assert ([""] + gaps)[1..] == gaps && ([piece] + pieces)[1..] == pieces;
    assert "" + piece == piece;
  }

  lemma OneMarker(s: string, id: string)
    requires s != "" && MatchFront(s) == Some(id)
    ensures var rest := s[|Marker(id)|..];
      && s == Marker(id) + rest && Rendered(s) == Citation(id) + Rendered(rest)
      && Scan(s) == [id] + Scan(rest) && Around(s) == [""] + Around(rest)
  {
  }

  lemma OneCopy(s: string)
    requires s != "" && MatchFront(s).None?
    ensures var rest := Around(s[1..]);
      && Rendered(s) == [s[0]] + Rendered(s[1..]) && Scan(s) == Scan(s[1..])
      && Around(s) == [[s[0]] + rest[0]] + rest[1..]
  {
  }

  lemma ListsGrow(id: string, ids: seq<string>)
    ensures Markers([id] + ids) == [Marker(id)] + Markers(ids)
    ensures Citations([id] + ids) == [Citation(id)] + Citations(ids)
  {
  }

  lemma {:induction false} SourceIsWoven(s: string)
    ensures s == Weave(Around(s), Markers(Scan(s)))
    decreases |s|
  {
    if s != "" {
      match MatchFront(s)
      case Some(id) =>
        var rest := s[|Marker(id)|..];
        SourceIsWoven(rest);
        OneMarker(s, id);
        ListsGrow(id, Scan(rest));
        WeavePiece(Marker(id), Around(rest), Markers(Scan(rest)));
      case None =>
        SourceIsWoven(s[1..]);
        OneCopy(s);
        WeaveCopy(s[0], Around(s[1..]), Markers(Scan(s[1..])));
        assert s == [s[0]] + s[1..];
    }
  }

  lemma {:induction false} RenderingIsWoven(s: string)
    ensures Rendered(s) == Weave(Around(s), Citations(Scan(s)))
    decreases |s|
  {
    if s != "" {
      match MatchFront(s)
      case Some(id) =>
        var rest := s[|Marker(id)|..];
        RenderingIsWoven(rest);
        OneMarker(s, id);
        ListsGrow(id, Scan(rest));
        WeavePiece(Citation(id), Around(rest), Citations(Scan(rest)));
      case None =>
        RenderingIsWoven(s[1..]);
        OneCopy(s);
        WeaveCopy(s[0], Around(s[1..]), Citations(Scan(s[1..])));
    }
  }

  /** Rendering replaces each marker by its citation and keeps everything around verbatim. */
  lemma RenderingIsVerbatim(s: string)
    ensures s == Weave(Around(s), Markers(Scan(s)))
    ensures Rendered(s) == Weave(Around(s), Citations(Scan(s)))
  {
    SourceIsWoven(s);
    RenderingIsWoven(s);
  }

  /** Putting one more character before marker-free text cannot complete a marker the source lacks. */
  lemma FreeCopy(s: string, gap: string, rest: string)
    requires s != "" && MatchFront(s).None? && gap <= s && gap == [s[0]] + rest && MarkerFree(rest)
    ensures MarkerFree(gap)
  {
    forall i | 0 <= i <= |gap| ensures MatchFront(gap[i..]).None? {
      if i == 0 {
        assert gap[0..] == gap;
        if m :| MatchFront(gap) == Some(m) {
          MatchFrontIff(gap, m);
          assert Marker(m) <= s;
          MatchFrontIff(s, m);
        }
      } else {
        assert gap[i..] == rest[i - 1..];
      }
    }
  }

  /** The scan misses nothing: the text around the markers it reports contains no marker. */
  lemma {:induction false} ScanIsComplete(s: string, k: nat)
    requires k < |Around(s)|
    ensures MarkerFree(Around(s)[k])
    decreases |s|
  {
    if s == "" {
      assert Around(s)[k][0..] == "";
    } else {
      match MatchFront(s)
      case Some(id) =>
        OneMarker(s, id);
        if k == 0 {
          assert Around(s)[0] == "";
        } else {
          ScanIsComplete(s[|Marker(id)|..], k - 1);
        }
      case None =>
        OneCopy(s);
        ScanIsComplete(s[1..], k);
        if k == 0 {
          GapIsPrefix(s);
          FreeCopy(s, Around(s)[0], Around(s[1..])[0]);
        }
    }
  }

  lemma {:induction false} GapIsPrefix(s: string)
    ensures Around(s)[0] <= s
    decreases |s|
  {
    if s != "" && MatchFront(s).None? {
      GapIsPrefix(s[1..]);
    }
  }

  // ----- rendering leaves no marker -----

  /** Up to the first opening parenthesis, rendered text is the original text. */
  lemma {:induction false} CopiedUpToCitation(s: string, k: nat)
    requires k <= |Rendered(s)| && forall i | 0 <= i < k :: Rendered(s)[i] != '('
    ensures k <= |s| && s[..k] == Rendered(s)[..k]
    decreases |s|
  {
    if s != "" {
      assert MatchFront(s).Some? ==> Rendered(s)[0] == '(';
      if k > 0 && MatchFront(s).None? {
        forall i | 0 <= i < k - 1 ensures Rendered(s[1..])[i] != '(' {
          assert Rendered(s)[i + 1] == Rendered(s[1..])[i];
        }
        CopiedUpToCitation(s[1..], k - 1);
        assert s[..k] == [s[0]] + s[1..][..k - 1];
        assert Rendered(s)[..k] == [s[0]] + Rendered(s[1..])[..k - 1];
      }
    }
  }

  lemma MarkerHasNoParenthesis(id: string)
    requires FactId(id)
    ensures forall i | 0 <= i < |Marker(id)| :: Marker(id)[i] != '('
    ensures Marker(id)[0] == '['
  {
    assert forall i | 0 <= i < |OPEN| :: OPEN[i] != '(';
  }

  lemma CitationHasNoBracket(id: string, i: nat)
    requires FactId(id) && i < |Citation(id)|
    ensures Citation(id)[i] != '['
  {
    var head := "(case file fact ";
    if i < |head| {
      assert Citation(id)[i] == head[i];
    } else if i < |head| + |id| {
      assert Citation(id)[i] == id[i - |head|];
    }
  }

  /** Whatever the text, however markers are nested, its rendering contains no marker. */
  lemma {:induction false} RenderingLeavesNoMarker(s: string)
    ensures MarkerFree(Rendered(s))
    decreases |s|
  {
    var out := Rendered(s);
    forall i | 0 <= i <= |out| ensures MatchFront(out[i..]).None? {
      if s != "" {
        match MatchFront(s)
        case Some(id) => AfterCitation(s, id, i);
        case None => AfterCopy(s, i);
      }
    }
  }

  lemma {:induction false} AfterCitation(s: string, id: string, i: nat)
    requires s != "" && MatchFront(s) == Some(id) && i <= |Rendered(s)|
    ensures MatchFront(Rendered(s)[i..]).None?
    decreases |s|, 0
  {
    var rest := s[|Marker(id)|..];
    if i < |Citation(id)| {
      CitationHasNoBracket(id, i);
      assert Rendered(s)[i] == Citation(id)[i];
    } else {
      RenderingLeavesNoMarker(rest);
      assert Rendered(s)[i..] == Rendered(rest)[i - |Citation(id)|..];
    }
  }

  lemma {:induction false} AfterCopy(s: string, i: nat)
    requires s != "" && MatchFront(s).None? && i <= |Rendered(s)|
    ensures MatchFront(Rendered(s)[i..]).None?
    decreases |s|, 0
  {
    var out := Rendered(s);
    if i == 0 {
      if m :| MatchFront(out) == Some(m) {
        MarkerHasNoParenthesis(m);
        CopiedUpToCitation(s, |Marker(m)|);
        assert s[..|Marker(m)|] == Marker(m);
        MatchFrontIff(s, m);
      }
      assert out[0..] == out;
    } else {
      RenderingLeavesNoMarker(s[1..]);
      assert out[i..] == Rendered(s[1..])[i - 1..];
    }
  }

  lemma {:induction false} MarkerFreeIsFixed(s: string)
    requires MarkerFree(s)
    ensures Rendered(s) == s && Scan(s) == []
    decreases |s|
  {
    if s != "" {
      assert s[0..] == s;
      forall i | 0 <= i <= |s[1..]| ensures s[1..][i..] == s[i + 1..] {}
      MarkerFreeIsFixed(s[1..]);
    }
  }

  /** A text in which the scan finds nothing contains no marker. */
  lemma NothingScanned(s: string)
    requires Scan(s) == []
    ensures MarkerFree(s)
  {
    SourceIsWoven(s);
    ScanIsComplete(s, 0);
  }

  /** So rendering again changes nothing and finds nothing. */
  lemma RenderingIsIdempotent(s: string)
    ensures Rendered(Rendered(s)) == Rendered(s) && Scan(Rendered(s)) == []
  {
    RenderingLeavesNoMarker(s);
    MarkerFreeIsFixed(Rendered(s));
  }

  // ----- verification -----

  datatype Verified = Verified(text: string, factIds: seq<string>)

  /** Identifiers cited in the text or claimed, but not in the case file. */
  function Unknown(ids: seq<string>, known: set<string>): seq<string> {
    if ids == [] then []
    else
      var n := |ids| - 1;
      Unknown(ids[..n], known) + if ids[n] in known then [] else [ids[n]]
  }

  function UnresolvedIds(content: string, claimed: seq<string>, known: set<string>): seq<string> {
    SortedSet(Unknown(Scan(content) + claimed, known))
  }

  /** Renders with every reference resolved, or rejects naming the fabricated identifiers. */
  method VerifyAndRender(content: string, claimed: seq<string>, known: set<string>)
    returns (r: Result<Verified, seq<string>>)
    ensures r.Err? <==> UnresolvedIds(content, claimed, known) != []
    ensures r.Err? ==> r.error == UnresolvedIds(content, claimed, known)
    ensures r.Ok? ==> r.value == Verified(Rendered(content), Distinct(Scan(content) + claimed))
  {
    var cited := Scan(content) + claimed;
    var unresolved := UnresolvedIds(content, claimed, known);
    if unresolved != [] {
      return Err(unresolved);
    }
    var ordered: seq<string> := [];
    for i := 0 to |cited|
      invariant ordered == Distinct(cited[..i])
    {
      PrefixGrows(cited, i);
      DistinctGrows(cited[..i], cited[i]);
      if cited[i] !in ordered {
        ordered := ordered + [cited[i]];
      }
    }
    WholePrefix(cited);
    r := Ok(Verified(Rendered(content), ordered));
  }

  lemma {:induction false} UnknownMembers(ids: seq<string>, known: set<string>)
    ensures forall id :: id in Unknown(ids, known) <==> id in ids && id !in known
  {
    if ids != [] {
      var n := |ids| - 1;
      UnknownMembers(ids[..n], known);
      assert ids == ids[..n] + [ids[n]];
    }
  }

  /** A generation is rejected exactly when some reference, in the text or claimed, is unknown. */
  lemma RejectedIff(content: string, claimed: seq<string>, known: set<string>)
    ensures UnresolvedIds(content, claimed, known) == []
       <==> forall id | id in Scan(content) || id in claimed :: id in known
  {
    var cited := Scan(content) + claimed;
    var unknown := Unknown(cited, known);
    UnknownMembers(cited, known);
    SortedSetFacts(unknown);
    if UnresolvedIds(content, claimed, known) == [] {
      forall id | id in cited ensures id in known {
        assert id in unknown ==> id in Elements(unknown);
      }
    } else {
      var id := UnresolvedIds(content, claimed, known)[0];
      assert id in Elements(UnresolvedIds(content, claimed, known));
      assert id in unknown;
    }
  }

  /** A citation holds its identifier, so different facts are cited differently. */
  lemma CitationNames(a: string, b: string)
    ensures Citation(a) == Citation(b) <==> a == b
    ensures exists before, after :: Citation(a) == before + a + after
  {
    var head := "(case file fact ";
    assert Citation(a) == head + a + ")";
    if Citation(a) == Citation(b) {
      var c := Citation(a);
      assert a == c[|head|..|c| - 1] && b == c[|head|..|c| - 1];
    }
  }

  /** The identifiers a rejection names are exactly the unknown ones, in order and once each. */
  lemma RejectionNames(content: string, claimed: seq<string>, known: set<string>)
    ensures var ids := UnresolvedIds(content, claimed, known);
      && Ascending(ids, Before)
      && forall id :: id in ids <==> (id in Scan(content) || id in claimed) && id !in known
  {
    var cited := Scan(content) + claimed;
    var unknown := Unknown(cited, known);
    var ids := UnresolvedIds(content, claimed, known);
    UnknownMembers(cited, known);
    SortedSetFacts(unknown);
    forall id ensures id in ids <==> id in unknown {
      assert id in Elements(ids) <==> id in Elements(unknown);
    }
  }
}
