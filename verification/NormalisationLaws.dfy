/**
 What normalisation computes, said of the text itself (packages/uc05/uc05/domain/normalisation.py): the words a
 text is read as, the stem of a word, and when two questions are similar enough to be the same probe.
 */
module NormalisationLaws {
  import opened Ordering
  import opened Text
  import opened Normalisation

  // ----- the words of a text -----

  function Flush(word: string): seq<string> {
    if word == "" then [] else [word]
  }

  /** Reading in one pass, `word` being the word under way: letters in lower case and digits extend it, an
      apostrophe is passed over, and anything else ends it. */
  function Words(s: string, word: string): seq<string> {
    if s == "" then Flush(word)
    else
      var c := s[0];
      if c in {'\'', '\U{2018}', '\U{2019}', '\U{02BC}'} then Words(s[1..], word)
      else if 'a' <= c <= 'z' || '0' <= c <= '9' then Words(s[1..], word + [c])
      else if 'A' <= c <= 'Z' then Words(s[1..], word + [(c as int - 'A' as int + 'a' as int) as char])
      else Flush(word) + Words(s[1..], "")
  }

  /** The maximal runs of word characters. */
  function Runs(s: string, word: string): seq<string> {
    if s == "" then Flush(word)
    else if IsWord(s[0]) then Runs(s[1..], word + [s[0]])
    else Flush(word) + Runs(s[1..], "")
  }

  lemma {:induction false} LoweredRuns(s: string, word: string)
    ensures Runs(Lowered(s), word) == Words(s, word)
  {
    if s != "" {
      if IsApostrophe(s[0]) {
        LoweredRuns(s[1..], word);
      } else {
        var c := Lower(s[0]);
        assert Lowered(s)[1..] == Lowered(s[1..]);
        if IsWord(c) { LoweredRuns(s[1..], word + [c]); } else { LoweredRuns(s[1..], ""); }
      }
    }
  }

  lemma {:induction false} SkipKeepsRuns(s: string, p: char -> bool)
    requires forall c | p(c) :: !IsWord(c)
    ensures Runs(SkipRun(s, p), "") == Runs(s, "")
  {
    if s != "" && p(s[0]) {
      SkipKeepsRuns(s[1..], p);
    }
  }

  lemma {:induction false} SubKeepsRuns(s: string, p: char -> bool, word: string)
    requires forall c | p(c) :: !IsWord(c)
    ensures Runs(SubRuns(s, p), word) == Runs(s, word)
    decreases |s|
  {
    if s != "" {
      assert SubRuns(s, p)[1..] == if p(s[0]) then SubRuns(SkipRun(s, p), p) else SubRuns(s[1..], p);
      if p(s[0]) {
        SubKeepsRuns(SkipRun(s, p), p, "");
        SkipKeepsRuns(s[1..], p);
        assert SkipRun(s, p) == SkipRun(s[1..], p);
      } else if IsWord(s[0]) {
        SubKeepsRuns(s[1..], p, word + [s[0]]);
      } else {
        SubKeepsRuns(s[1..], p, "");
      }
    }
  }

  lemma {:induction false} EndBlank(s: string, c: char, word: string)
    requires !IsWord(c)
    ensures Runs(s + [c], word) == Runs(s, word)
  {
    if s == "" {
      assert s + [c] == [c];
      assert Runs([c][1..], "") == [];
    } else {
      assert (s + [c])[1..] == s[1..] + [c];
      if IsWord(s[0]) { EndBlank(s[1..], c, word + [s[0]]); } else { EndBlank(s[1..], c, ""); }
    }
  }

  lemma {:induction false} TrimKeepsRuns(s: string)
    ensures Runs(TrimEnd(s), "") == Runs(s, "")
  {
    if s != "" && IsSpace(s[|s| - 1]) {
      var n := |s| - 1;
      TrimKeepsRuns(s[..n]);
      EndBlank(s[..n], s[n], "");
      assert s == s[..n] + [s[n]];
    }
  }

  lemma FlattenKeepsRuns(text: string)
    ensures Runs(Flatten(text), "") == Words(text, "")
  {
    var a := Lowered(text);
    var b := SubRuns(a, NonWord);
    var d := SubRuns(b, IsSpace);
    LoweredRuns(text, "");
    SubKeepsRuns(a, NonWord, "");
    SubKeepsRuns(b, IsSpace, "");
    SkipKeepsRuns(d, IsSpace);
    TrimKeepsRuns(SkipRun(d, IsSpace));
  }

  /** A first word followed by nothing or a blank is the first run. */
  lemma {:induction false} FirstRun(head: string, rest: string, word: string)
    requires AllWord(head) && (rest == "" || !IsWord(rest[0]))
    ensures Runs(head + rest, word) == Flush(word + head) + Runs(rest, "")
  {
    if head == "" {
      assert head + rest == rest && word + head == word;
      if rest == "" { assert Flush(word) + [] == Flush(word); }
    } else {
      assert (head + rest)[1..] == head[1..] + rest;
      assert word + head == (word + [head[0]]) + head[1..];
      FirstRun(head[1..], rest, word + [head[0]]);
    }
  }

  lemma FirstWord(s: string) returns (head: string)
    requires s != "" && !IsSpace(s[0]) && WordOrBlank(s)
    ensures head != "" && AllWord(head) && s == head + SkipRun(s, NonSpace)
    ensures SkipRun(s, NonSpace) == "" || !IsWord(SkipRun(s, NonSpace)[0])
  {
    SkipRunSuffix(s, NonSpace);
    var k :| 0 <= k <= |s| && SkipRun(s, NonSpace) == s[k..] && forall i | 0 <= i < k :: NonSpace(s[i]);
    head := s[..k];
  }

  lemma {:induction false} SplitIsRuns(s: string)
    requires WordOrBlank(s)
    ensures Split(s) == Runs(s, "")
    decreases |s|
  {
    if s != "" {
      if IsSpace(s[0]) {
        SplitIsRuns(s[1..]);
      } else {
        var head := FirstWord(s);
        var rest := SkipRun(s, NonSpace);
        assert WordOrBlank(rest) by {
          forall i | 0 <= i < |rest| ensures IsWord(rest[i]) || rest[i] == ' ' { assert rest[i] == s[|head| + i]; }
        }
        SplitIsRuns(rest);
        FirstRun(head, rest, "");
        assert "" + head == head && s[..|head|] == head;
      }
    }
  }

  /** Flattening and splitting, with its three substitutions, reads exactly the words of the single pass. */
  lemma WordsAreRead(text: string)
    ensures Split(Flatten(text)) == Words(text, "")
  {
    FlattenChars(text);
    SplitIsRuns(Flatten(text));
    FlattenKeepsRuns(text);
  }

  // ----- stems -----

  /** Longer suffixes come before shorter ones that they end with. */
  ghost predicate LongestFirst(suffixes: seq<string>) {
    forall i, j | 0 <= i < j < |suffixes| :: |suffixes[i]| >= |suffixes[j]| || !EndsWith(suffixes[j], suffixes[i])
  }

  /** The token is the base followed by the suffix, and the base keeps four characters. */
  predicate Splits(token: string, base: string, suffix: string) {
    token == base + suffix && |base| >= 4
  }

  ghost predicate SplitsBy(token: string, suffixes: seq<string>, base: string) {
    exists suffix | suffix in suffixes :: Splits(token, base, suffix)
  }

  /** `base` is the token without its longest listed suffix that leaves four characters, or the token itself
      when there is none. */
  ghost predicate Cut(token: string, suffixes: seq<string>, base: string) {
    && (base == token || SplitsBy(token, suffixes, base))
    && forall other | SplitsBy(token, suffixes, other) :: |base| <= |other|
  }

  lemma StrippableIff(token: string, suffix: string, base: string)
    ensures Splits(token, base, suffix) <==> Strippable(token, suffix) && base == token[..|token| - |suffix|]
  {
    if Splits(token, base, suffix) {
      assert token[|token| - |suffix|..] == suffix && token[..|token| - |suffix|] == base;
    }
  }

  lemma EndsWithShorter(token: string, long: string, short: string)
    requires EndsWith(token, long) && EndsWith(token, short) && |short| <= |long|
    ensures EndsWith(long, short)
  {
    var tail := token[|token| - |long|..];
    assert tail[|long| - |short|..] == token[|token| - |short|..];
  }

  /** A suffix that can be stripped, first in the list, leaves no more than any other. */
  lemma FirstIsLongest(token: string, suffixes: seq<string>, other: string)
    requires suffixes != [] && LongestFirst(suffixes) && Strippable(token, suffixes[0])
    requires SplitsBy(token, suffixes, other)
    ensures |token| - |suffixes[0]| <= |other|
  {
    var suffix :| suffix in suffixes && Splits(token, other, suffix);
    StrippableIff(token, suffix, other);
    var j :| 0 <= j < |suffixes| && suffixes[j] == suffix;
    if |suffix| > |suffixes[0]| { EndsWithShorter(token, suffix, suffixes[0]); }
  }

  lemma LongestFirstTail(suffixes: seq<string>)
    requires suffixes != [] && LongestFirst(suffixes)
    ensures LongestFirst(suffixes[1..])
  {
    var more := suffixes[1..];
    forall i, j | 0 <= i < j < |more| ensures |more[i]| >= |more[j]| || !EndsWith(more[j], more[i]) {
      assert more[i] == suffixes[i + 1] && more[j] == suffixes[j + 1];
    }
  }

  lemma SplitsByTail(token: string, suffixes: seq<string>, base: string)
    requires suffixes != []
    ensures SplitsBy(token, suffixes, base)
       <==> Splits(token, base, suffixes[0]) || SplitsBy(token, suffixes[1..], base)
  {
    assert suffixes == [suffixes[0]] + suffixes[1..];
  }

  lemma {:induction false} StripFirstCuts(token: string, suffixes: seq<string>)
    requires LongestFirst(suffixes)
    ensures Cut(token, suffixes, StripFirst(token, suffixes))
  {
    if suffixes != [] {
      var base := StripFirst(token, suffixes);
      forall other ensures SplitsBy(token, suffixes, other)
                      <==> Splits(token, other, suffixes[0]) || SplitsBy(token, suffixes[1..], other) {
        SplitsByTail(token, suffixes, other);
      }
      if Strippable(token, suffixes[0]) {
        StrippableIff(token, suffixes[0], base);
        forall other | SplitsBy(token, suffixes, other) ensures |base| <= |other| {
          FirstIsLongest(token, suffixes, other);
        }
      } else {
        forall other { StrippableIff(token, suffixes[0], other); }
        LongestFirstTail(suffixes);
        StripFirstCuts(token, suffixes[1..]);
      }
    }
  }

  lemma CutUnique(token: string, suffixes: seq<string>, a: string, b: string)
    requires Cut(token, suffixes, a) && Cut(token, suffixes, b)
    ensures a == b
  {
    forall base | base == a || base == b
      ensures base == token[..|base|] && (base == token || SplitsBy(token, suffixes, base))
    {
      if base != token {
        var suffix :| suffix in suffixes && Splits(token, base, suffix);
      }
    }
  }

  lemma SuffixLengths(i: nat)
    requires i < |SUFFIXES|
    ensures |SUFFIXES| == 23 && |SUFFIXES[i]| >= 1
    ensures i < 6 ==> |SUFFIXES[i]| == 7
    ensures i == 6 ==> |SUFFIXES[i]| == 6
    ensures 7 <= i < 9 ==> |SUFFIXES[i]| == 5
    ensures 9 <= i < 14 ==> |SUFFIXES[i]| == 4
    ensures 14 <= i < 18 || i == 19 ==> |SUFFIXES[i]| == 3
    ensures i == 18 || i == 20 || i == 21 ==> |SUFFIXES[i]| == 2
    ensures i == 22 ==> |SUFFIXES[i]| == 1
  {
  }

  lemma SuffixesLongestFirst()
    ensures LongestFirst(SUFFIXES)
  {
    SuffixLengths(0);
    forall i, j | 0 <= i < j < |SUFFIXES|
      ensures |SUFFIXES[i]| >= |SUFFIXES[j]| || !EndsWith(SUFFIXES[j], SUFFIXES[i])
    {
      SuffixLengths(i);
      SuffixLengths(j);
      if |SUFFIXES[i]| < |SUFFIXES[j]| {
        assert SUFFIXES[i] == "er" && SUFFIXES[j] == "est";
      }
    }
  }

  /** What stemming makes of a word: its longest listed suffix goes, if at least four characters are left, and
      then an `e` at the end of five or more characters. */
  ghost predicate Stemmed(token: string, suffixes: seq<string>, stem: string) {
    exists base :: Cut(token, suffixes, base) && WithoutE(base, stem)
  }

  predicate WithoutE(base: string, stem: string) {
    if |base| >= 5 && base[|base| - 1] == 'e' then base == stem + "e" else base == stem
  }

  lemma WithoutEUnique(base: string, stem: string)
    ensures WithoutE(base, stem)
       <==> stem == if |base| >= 5 && base[|base| - 1] == 'e' then base[..|base| - 1] else base
  {
    if |base| >= 5 && base[|base| - 1] == 'e' { assert base == base[..|base| - 1] + "e"; }
  }

  lemma StemmedIff(token: string, suffixes: seq<string>, stem: string)
    requires LongestFirst(suffixes)
    ensures stem == StemOf(token, suffixes) <==> Stemmed(token, suffixes, stem)
  {
    StripFirstCuts(token, suffixes);
    var base := StripFirst(token, suffixes);
    WithoutEUnique(base, stem);
    if Stemmed(token, suffixes, stem) {
      var other :| Cut(token, suffixes, other) && WithoutE(other, stem);
      CutUnique(token, suffixes, base, other);
    }
  }

  /** The listed suffixes are ordered so that the first that can be stripped is the longest. */
  lemma StemIff(token: string, stem: string)
    ensures stem == StemOf(token, SUFFIXES) <==> Stemmed(token, SUFFIXES, stem)
  {
    SuffixesLongestFirst();
    StemmedIff(token, SUFFIXES, stem);
  }

  // ----- the tokens of a question -----

  predicate Carries(w: string, stop: set<string>) {
    w !in stop && |w| > 1
  }

  predicate Gives(w: string, stop: set<string>, t: string) {
    Carries(w, stop) && t == StemOf(w, SUFFIXES)
  }

  lemma {:induction false} StemsIff(words: seq<string>, stop: set<string>, t: string)
    ensures t in Stems(words, stop) <==> exists w | w in words :: Gives(w, stop, t)
  {
    if words != [] {
      StemsIff(words[1..], stop, t);
      forall w ensures w in words <==> w == words[0] || w in words[1..] {
        assert words == [words[0]] + words[1..];
      }
      assert t in Stems(words, stop) <==> Gives(words[0], stop, t) || t in Stems(words[1..], stop);
    }
  }

  /** A question's tokens are exactly the stems of its words, bar the stopwords and single characters. */
  lemma TokensIff(text: string, stop: set<string>, t: string)
    ensures t in ContentTokens(text, stop)
       <==> exists w | w in Words(text, "") :: Carries(w, stop) && Stemmed(w, SUFFIXES, t)
  {
    WordsAreRead(text);
    StemsIff(Words(text, ""), stop, t);
    forall w ensures Gives(w, stop, t) <==> Carries(w, stop) && Stemmed(w, SUFFIXES, t) { StemIff(w, t); }
  }

  // ----- similarity -----

  lemma Quotient(n: nat, d: nat, t: real)
    requires d > 0
    ensures n as real / d as real >= t <==> n as real >= t * d as real
  {
    var q := n as real / d as real;
    assert q * d as real == n as real;
    if q >= t { assert q * d as real >= t * d as real; }
    if q < t { assert q * d as real < t * d as real; }
  }

  lemma JaccardReaches(x: set<string>, y: set<string>, t: real)
    ensures Jaccard(x, y) >= t
       <==> if x == {} && y == {} then t <= 1.0 else |x * y| as real >= t * |x + y| as real
  {
    if x != {} || y != {} {
      SubsetCard({}, x + y);
      assert x <= x + y && y <= x + y;
      if x == {} || y == {} {
        assert x * y == {};
        Quotient(0, |x + y|, t);
      } else {
        Quotient(|x * y|, |x + y|, t);
      }
    }
  }

  lemma JaccardFourFifths(x: set<string>, y: set<string>)
    ensures Jaccard(x, y) >= 0.8 <==> |x * y| >= 4 * |(x - y) + (y - x)|
  {
    JaccardReaches(x, y, 0.8);
    var shared, apart := x * y, (x - y) + (y - x);
    assert shared + apart == x + y;
    var s, d := |shared|, |apart|;
    assert |x + y| == s + d;
    assert s as real >= 0.8 * (s + d) as real <==> s >= 4 * d;
  }

  /** Similarity reaches a threshold exactly when the shared tokens are that share of all tokens; two questions
      without any token are the same. */
  lemma SimilarityReaches(a: string, b: string, stop: set<string>, t: real)
    ensures var x, y := ContentTokens(a, stop), ContentTokens(b, stop);
      Similarity(a, b, stop) >= t
      <==> if x == {} && y == {} then t <= 1.0 else |x * y| as real >= t * |x + y| as real
  {
    JaccardReaches(ContentTokens(a, stop), ContentTokens(b, stop), t);
  }

  /** At the default threshold of four fifths, a question repeats another exactly when they share at least four
      times as many tokens as only one of them has. */
  lemma RepeatAtFourFifths(a: string, b: string, stop: set<string>)
    ensures var x, y := ContentTokens(a, stop), ContentTokens(b, stop);
      !Apart(StandardRules(stop), a, b, 0.8) <==> |x * y| >= 4 * |(x - y) + (y - x)|
  {
    JaccardFourFifths(ContentTokens(a, stop), ContentTokens(b, stop));
  }
}
