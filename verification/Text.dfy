/** White space, as Python's `\s`, `str.split` and `str.strip` see it. */
module Text {

  predicate IsSpace(c: char) {
    || c == ' ' || '\t' <= c <= '\r' || '\U{1C}' <= c <= '\U{1F}' || WideSpace(c)
  }

  /** The white space outside ASCII. */
  predicate WideSpace(c: char) {
    || c == '\U{85}' || c == '\U{A0}' || c == '\U{1680}' || '\U{2000}' <= c <= '\U{200A}'
    || c == '\U{2028}' || c == '\U{2029}' || c == '\U{202F}' || c == '\U{205F}' || c == '\U{3000}'
  }

  /** The white space characters, by code point. */
  lemma SpaceIff(c: char)
    ensures IsSpace(c) <==>
              var n := c as int;
              || 9 <= n < 14 || 28 <= n < 33 || n == 133 || n == 160 || n == 5760 || 8192 <= n < 8203
              || n == 8232 || n == 8233 || n == 8239 || n == 8287 || n == 12288
  {
  }

  function Strip(s: string): string
    decreases |s|
  {
    if s == "" then ""
    else if IsSpace(s[0]) then Strip(s[1..])
    else if IsSpace(s[|s| - 1]) then Strip(s[..|s| - 1])
    else s
  }

  predicate Blank(s: string) {
    forall i | 0 <= i < |s| :: IsSpace(s[i])
  }

  predicate Trimmed(s: string) {
    s != "" ==> !IsSpace(s[0]) && !IsSpace(s[|s| - 1])
  }

  lemma {:induction false} StripTrims(s: string)
    ensures Trimmed(Strip(s))
    decreases |s|
  {
    if s != "" {
      if IsSpace(s[0]) {
        StripTrims(s[1..]);
      } else if IsSpace(s[|s| - 1]) {
        StripTrims(s[..|s| - 1]);
      }
    }
  }

  lemma {:induction false} StripBefore(before: string, rest: string)
    requires Blank(before)
    ensures Strip(before + rest) == Strip(rest)
  {
    if before == "" {
      assert before + rest == rest;
    } else {
      assert (before + rest)[0] == before[0] && (before + rest)[1..] == before[1..] + rest;
      StripBefore(before[1..], rest);
    }
  }

  lemma {:induction false} StripAfter(t: string, after: string)
    requires Blank(after) && Trimmed(t) && t != ""
    ensures Strip(t + after) == t
  {
    var s := t + after;
    if after == "" {
      assert s == t;
    } else {
      var n := |after| - 1;
      assert s[0] == t[0] && s[|s| - 1] == after[n] && s[..|s| - 1] == t + after[..n];
      StripAfter(t, after[..n]);
    }
  }

  /** Stripping removes white space at either end. */
  lemma StripCuts(s: string) returns (before: string, after: string)
    ensures Blank(before) && Blank(after) && s == before + Strip(s) + after
  {
    var i, j := 0, |s|;
    while i < |s| && IsSpace(s[i])
      invariant i <= |s| && Blank(s[..i])
    {
      i := i + 1;
    }
    while j > i && IsSpace(s[j - 1])
      invariant i <= j <= |s| && Blank(s[j..])
    {
      j := j - 1;
    }
    before, after := s[..i], s[j..];
    var t := s[i..j];
    assert s == before + (t + after);
    StripBefore(before, t + after);
    if t == "" {
      assert t + after == after && after + "" == after;
      StripBefore(after, "");
    } else {
      StripAfter(t, after);
    }
  }

  /** What stripping leaves is what stands between white space and begins and ends with none. */
  lemma StripIff(s: string, t: string)
    requires t != ""
    ensures t == Strip(s)
       <==> Trimmed(t) && exists before, after :: Blank(before) && Blank(after) && s == before + t + after
  {
    StripTrims(s);
    if t == Strip(s) {
      var before, after := StripCuts(s);
    }
    if before, after :| Trimmed(t) && Blank(before) && Blank(after) && s == before + t + after {
      assert s == before + (t + after);
      StripBefore(before, t + after);
      StripAfter(t, after);
    }
  }
}
