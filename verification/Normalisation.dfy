/**
 Text normalisation and loop detection (packages/uc05/uc05/domain/normalisation.py).

 Text reaches `Flatten` after compatibility decomposition and removal of combining
 marks.  The question-frame stopwords are a parameter, so every result holds for every
 word list.
 */
module Normalisation {
  import opened Prelude
  import opened Ordering
  import opened Text

  // ----- flattening -----

  predicate IsWord(c: char) {
    'a' <= c <= 'z' || '0' <= c <= '9'
  }

  predicate NonWord(c: char) {
    !IsWord(c) && !IsSpace(c)
  }

  predicate NonSpace(c: char) {
    !IsSpace(c)
  }

  predicate IsApostrophe(c: char) {
    c == '\'' || c == '\U{2018}' || c == '\U{2019}' || c == '\U{02BC}'
  }

  function Lower(c: char): char {
    if 'A' <= c <= 'Z' then (c as int + 32) as char else c
  }

  function Lowered(s: string): string {
    if s == "" then ""
    else if IsApostrophe(s[0]) then Lowered(s[1..])
    else [Lower(s[0])] + Lowered(s[1..])
  }

  /** Drops the leading run of characters satisfying `p`. */
  function SkipRun(s: string, p: char -> bool): (r: string)
    ensures |r| <= |s|
    ensures s != "" && p(s[0]) ==> |r| < |s|
    ensures r != "" ==> !p(r[0])
  {
    if s == "" || !p(s[0]) then s else SkipRun(s[1..], p)
  }

  /** Substitutes one space for every maximal run of characters satisfying `p`. */
  function SubRuns(s: string, p: char -> bool): string
    decreases |s|
  {
    if s == "" then ""
    else if p(s[0]) then " " + SubRuns(SkipRun(s, p), p)
    else [s[0]] + SubRuns(s[1..], p)
  }

  function TrimEnd(s: string): string {
    if s == "" || !IsSpace(s[|s| - 1]) then s else TrimEnd(s[..|s| - 1])
  }

  function Flatten(text: string): string {
    TrimEnd(SkipRun(SubRuns(SubRuns(Lowered(text), NonWord), IsSpace), IsSpace))
  }

  /** `str.split()`: the maximal runs of non-space characters. */
  function Split(s: string): seq<string>
    decreases |s|
  {
    if s == "" then []
    else if IsSpace(s[0]) then Split(s[1..])
    else
      var rest := SkipRun(s, NonSpace);
      [s[..|s| - |rest|]] + Split(rest)
  }

  // ----- what flattening guarantees -----

  predicate WordOrBlank(s: string) {
    forall i | 0 <= i < |s| :: IsWord(s[i]) || s[i] == ' '
  }

  predicate AllWord(s: string) {
    forall i | 0 <= i < |s| :: IsWord(s[i])
  }

  lemma {:induction false} SkipRunSuffix(s: string, p: char -> bool)
    ensures exists k | 0 <= k <= |s| :: SkipRun(s, p) == s[k..] && forall i | 0 <= i < k :: p(s[i])
  {
    if s == "" || !p(s[0]) {
      assert SkipRun(s, p) == s[0..];
    } else {
      SkipRunSuffix(s[1..], p);
      var k :| 0 <= k <= |s[1..]| && SkipRun(s[1..], p) == s[1..][k..] && forall i | 0 <= i < k :: p(s[1..][i]);
      assert SkipRun(s, p) == s[k + 1..];
      forall i | 0 <= i < k + 1 ensures p(s[i]) {
        if i > 0 { assert s[i] == s[1..][i - 1]; }
      }
    }
  }

  /** Characters after a substitution either were kept or are the substituted blank. */
  lemma {:induction false} SubRunsChars(s: string, p: char -> bool, q: char -> bool)
    requires q(' ') && forall c | c in s :: p(c) || q(c)
    ensures forall c | c in SubRuns(s, p) :: q(c)
    decreases |s|
  {
    if s != "" {
      if p(s[0]) {
        SkipRunSuffix(s, p);
        SubRunsChars(SkipRun(s, p), p, q);
      } else {
        assert s[0] in s;
        SubRunsChars(s[1..], p, q);
      }
    }
  }

  lemma {:induction false} TrimEndPrefix(s: string)
    ensures TrimEnd(s) <= s
  {
    if s != "" && IsSpace(s[|s| - 1]) {
      TrimEndPrefix(s[..|s| - 1]);
    }
  }

  lemma FlattenChars(text: string)
    ensures WordOrBlank(Flatten(text))
  {
    var a := Lowered(text);
    var b := SubRuns(a, NonWord);
    SubRunsChars(a, NonWord, c => IsWord(c) || IsSpace(c));
    SubRunsChars(b, IsSpace, c => IsWord(c) || c == ' ');
    var d := SubRuns(b, IsSpace);
    assert WordOrBlank(d) by {
      forall i | 0 <= i < |d| ensures IsWord(d[i]) || d[i] == ' ' { assert d[i] in d; }
    }
    SkipRunSuffix(d, IsSpace);
    TrimEndPrefix(SkipRun(d, IsSpace));
  }

  lemma {:induction false} SplitWords(s: string)
    requires WordOrBlank(s)
    ensures forall w | w in Split(s) :: w != "" && AllWord(w)
    decreases |s|
  {
    if s != "" {
      if IsSpace(s[0]) {
        SplitWords(s[1..]);
      } else {
        SkipRunSuffix(s, NonSpace);
        SplitWords(SkipRun(s, NonSpace));
      }
    }
  }

  /** Words of [a-z0-9] separated by single blanks, with none at either end. */
  predicate Canonical(s: string) {
    && WordOrBlank(s)
    && (forall i | 0 <= i < |s| - 1 :: IsWord(s[i]) || IsWord(s[i + 1]))
    && (s != "" ==> IsWord(s[0]) && IsWord(s[|s| - 1]))
  }

  lemma {:induction false} RunsAreSingle(s: string, p: char -> bool)
    requires p(' ')
    ensures var r := SubRuns(s, p);
      && (r != "" && !p(r[0]) ==> s != "" && !p(s[0]))
      && forall i | 0 <= i < |r| - 1 :: !p(r[i]) || !p(r[i + 1])
    ensures s == "" <==> SubRuns(s, p) == ""
    ensures s != "" && !p(s[0]) ==> SubRuns(s, p)[0] == s[0]
    ensures s != "" && p(s[0]) ==> p(SubRuns(s, p)[0])
    decreases |s|
  {
    if s != "" {
      if p(s[0]) {
        RunsAreSingle(SkipRun(s, p), p);
        assert SubRuns(s, p)[1..] == SubRuns(SkipRun(s, p), p);
      } else {
        RunsAreSingle(s[1..], p);
        assert SubRuns(s, p)[1..] == SubRuns(s[1..], p);
      }
    }
  }

  lemma {:induction false} TrimEndFacts(s: string)
    ensures TrimEnd(s) != "" ==> !IsSpace(TrimEnd(s)[|TrimEnd(s)| - 1])
  {
    if s != "" && IsSpace(s[|s| - 1]) {
      TrimEndFacts(s[..|s| - 1]);
    }
  }

  /** Flattening always yields the canonical form. */
  lemma FlattenCanonical(text: string)
    ensures Canonical(Flatten(text))
  {
    FlattenChars(text);
    var b := SubRuns(Lowered(text), NonWord);
    var d := SubRuns(b, IsSpace);
    var e := SkipRun(d, IsSpace);
    var f := TrimEnd(e);
    RunsAreSingle(b, IsSpace);
    SkipRunSuffix(d, IsSpace);
    TrimEndPrefix(e);
    TrimEndFacts(e);
    var k :| 0 <= k <= |d| && e == d[k..];
    forall i | 0 <= i < |f| - 1 ensures IsWord(f[i]) || IsWord(f[i + 1]) {
      assert f[i] == d[k + i] && f[i + 1] == d[k + i + 1];
    }
  }

  lemma {:induction false} SubRunsFixed(s: string, p: char -> bool)
    requires forall i | 0 <= i < |s| :: p(s[i]) ==> s[i] == ' '
    requires forall i | 0 <= i < |s| - 1 :: !p(s[i]) || !p(s[i + 1])
    ensures SubRuns(s, p) == s
    decreases |s|
  {
    if s != "" {
      if p(s[0]) {
        assert SkipRun(s, p) == SkipRun(s[1..], p) == s[1..];
      }
      SubRunsFixed(s[1..], p);
      assert s == [s[0]] + s[1..];
    }
  }

  lemma {:induction false} LoweredFixed(s: string)
    requires WordOrBlank(s)
    ensures Lowered(s) == s
  {
    if s != "" {
      LoweredFixed(s[1..]);
      assert s == [s[0]] + s[1..];
    }
  }

  /** Canonical text is left alone, so flattening is idempotent. */
  lemma FlattenFixed(s: string)
    requires Canonical(s)
    ensures Flatten(s) == s
  {
    LoweredFixed(s);
    SubRunsFixed(s, NonWord);
    SubRunsFixed(s, IsSpace);
  }

  function JoinBlank(words: seq<string>): string {
    if words == [] then "" else if |words| == 1 then words[0] else words[0] + " " + JoinBlank(words[1..])
  }

  lemma CanonicalTail(s: string, k: nat)
    requires Canonical(s) && k < |s| && s[k] == ' '
    ensures k + 1 < |s| && Canonical(s[k + 1..])
  {
    assert k < |s| - 1 && IsWord(s[k + 1]);
    var more := s[k + 1..];
    forall i | 0 <= i < |more| - 1 ensures IsWord(more[i]) || IsWord(more[i + 1]) {
      assert more[i] == s[k + 1 + i] && more[i + 1] == s[k + 2 + i];
    }
  }

  /** The end of the first word of canonical text, and what splitting does there. */
  lemma SplitStep(s: string) returns (k: nat)
    requires Canonical(s) && s != ""
    ensures 0 < k <= |s| && (k < |s| ==> s[k] == ' ')
    ensures Split(s) == [s[..k]] + if k == |s| then [] else Split(s[k + 1..])
  {
    SkipRunSuffix(s, NonSpace);
    var rest := SkipRun(s, NonSpace);
    k :| 0 <= k <= |s| && rest == s[k..] && forall i | 0 <= i < k :: NonSpace(s[i]);
    assert |s| - |rest| == k;
    if k < |s| {
      assert rest[0] == s[k] == ' ';
      assert rest[1..] == s[k + 1..];
    }
  }

  /** Splitting canonical text is exact: joining the words with blanks gives the text back. */
  lemma {:induction false} SplitJoins(s: string)
    requires Canonical(s)
    ensures JoinBlank(Split(s)) == s
    ensures Split(s) == [] <==> s == ""
    decreases |s|
  {
    if s != "" {
      var k := SplitStep(s);
      if k == |s| {
        assert s[..k] == s;
      } else {
        CanonicalTail(s, k);
        var more := s[k + 1..];
        SplitJoins(more);
        assert s == s[..k] + " " + more;
        assert Split(s)[1..] == Split(more);
      }
    }
  }

  // ----- stems and tokens -----

  const SUFFIXES: seq<string> :=
    ["ational", "iveness", "fulness", "ousness", "ization", "isation",
     "ations", "ation", "ments", "ment", "ness", "able", "ible",
     "ings", "ing", "ies", "ied", "ers", "er", "est", "ed", "es", "s"]

  predicate EndsWith(s: string, suffix: string) {
    |suffix| <= |s| && s[|s| - |suffix|..] == suffix
  }

  predicate Strippable(token: string, suffix: string) {
    EndsWith(token, suffix) && |token| - |suffix| >= 4
  }

  function StripFirst(token: string, suffixes: seq<string>): string {
    if suffixes == [] then token
    else if Strippable(token, suffixes[0]) then token[..|token| - |suffixes[0]|]
    else StripFirst(token, suffixes[1..])
  }

  function StemOf(token: string, suffixes: seq<string>): string {
    var t := StripFirst(token, suffixes);
    if |t| >= 5 && t[|t| - 1] == 'e' then t[..|t| - 1] else t
  }

  method Stem(token: string, suffixes: seq<string>) returns (stem: string)
    ensures stem == StemOf(token, suffixes)
  {
    stem := token;
    var i := 0;
    while i < |suffixes|
      invariant 0 <= i <= |suffixes|
      invariant stem == token && StripFirst(token, suffixes) == StripFirst(token, suffixes[i..])
    {
      if Strippable(stem, suffixes[i]) {
        stem := stem[..|stem| - |suffixes[i]|];
        break;
      }
      i := i + 1;
    }
    if |stem| >= 5 && stem[|stem| - 1] == 'e' {
      stem := stem[..|stem| - 1];
    }
  }

  lemma {:induction false} StripFirstPrefix(token: string, suffixes: seq<string>)
    ensures StripFirst(token, suffixes) <= token
    ensures StripFirst(token, suffixes) == token || |StripFirst(token, suffixes)| >= 4
  {
    if suffixes != [] && !Strippable(token, suffixes[0]) {
      StripFirstPrefix(token, suffixes[1..]);
    }
  }

  /** A stem is a prefix of its token: the token itself, or at least four characters of it. */
  lemma StemIsPrefix(token: string, suffixes: seq<string>)
    ensures StemOf(token, suffixes) <= token
    ensures StemOf(token, suffixes) == token || |StemOf(token, suffixes)| >= 4
  {
    StripFirstPrefix(token, suffixes);
  }

  function Stems(words: seq<string>, stop: set<string>): seq<string> {
    if words == [] then []
    else (if words[0] !in stop && |words[0]| > 1 then [StemOf(words[0], SUFFIXES)] else []) + Stems(words[1..], stop)
  }

  function TokenList(text: string, stop: set<string>): seq<string> {
    Stems(Split(Flatten(text)), stop)
  }

  function ContentTokens(text: string, stop: set<string>): set<string> {
    Elements(TokenList(text, stop))
  }

  predicate CleanToken(t: string) {
    t != "" && AllWord(t)
  }

  lemma {:induction false} StemsClean(words: seq<string>, stop: set<string>)
    requires forall w | w in words :: CleanToken(w)
    ensures forall t | t in Stems(words, stop) :: CleanToken(t)
  {
    if words != [] {
      StemsClean(words[1..], stop);
      StemIsPrefix(words[0], SUFFIXES);
      assert words[0] in words;
    }
  }

  /** Tokens are non-empty runs of [a-z0-9]; in particular none contains the separator. */
  lemma TokensClean(text: string, stop: set<string>)
    ensures forall t | t in ContentTokens(text, stop) :: CleanToken(t)
  {
    FlattenChars(text);
    SplitWords(Flatten(text));
    StemsClean(Split(Flatten(text)), stop);
  }

  // ----- fingerprints -----

  function Join(parts: seq<string>): string {
    if parts == [] then ""
    else if |parts| == 1 then parts[0]
    else parts[0] + "|" + Join(parts[1..])
  }

  function Fingerprint(text: string, stop: set<string>): string {
    Join(SortedSet(TokenList(text, stop)))
  }

  lemma {:induction false} JoinInjective(a: seq<string>, b: seq<string>)
    requires forall t | t in a :: CleanToken(t)
    requires forall t | t in b :: CleanToken(t)
    requires Join(a) == Join(b)
    ensures a == b
  {
    if a != [] { JoinHead(a); }
    if b != [] { JoinHead(b); }
    if a != [] && b != [] {
      assert |a[0]| == |b[0]|;
      assert a[0] == Join(a)[..|a[0]|] == b[0];
      if |a| > 1 && |b| > 1 {
        assert Join(a)[|a[0]| + 1..] == Join(a[1..]);
        assert Join(b)[|b[0]| + 1..] == Join(b[1..]);
        JoinInjective(a[1..], b[1..]);
      }
    }
  }

  /** The first part of a join is exactly what precedes its first separator. */
  lemma JoinHead(a: seq<string>)
    requires a != [] && CleanToken(a[0])
    ensures a[0] <= Join(a) && a[0] != ""
    ensures forall i | 0 <= i < |a[0]| :: Join(a)[i] != '|'
    ensures if |a| == 1 then |Join(a)| == |a[0]| else |Join(a)| > |a[0]| && Join(a)[|a[0]|] == '|'
  {
    assert forall i | 0 <= i < |a[0]| :: IsWord(a[0][i]);
  }

  /** Fingerprints identify token sets: equal exactly when the sets are. */
  lemma FingerprintIdentifies(a: string, b: string, stop: set<string>)
    ensures Fingerprint(a, stop) == Fingerprint(b, stop) <==> ContentTokens(a, stop) == ContentTokens(b, stop)
  {
    var x, y := TokenList(a, stop), TokenList(b, stop);
    SortedSetCanonical(x, y);
    if Fingerprint(a, stop) == Fingerprint(b, stop) {
      TokensClean(a, stop);
      TokensClean(b, stop);
      SortedSetFacts(x);
      SortedSetFacts(y);
      forall t | t in SortedSet(x) ensures CleanToken(t) { assert t in Elements(SortedSet(x)); }
      forall t | t in SortedSet(y) ensures CleanToken(t) { assert t in Elements(SortedSet(y)); }
      JoinInjective(SortedSet(x), SortedSet(y));
    }
  }

  // ----- similarity -----

  function Jaccard(left: set<string>, right: set<string>): real {
    if left == {} && right == {} then 1.0
    else if left == {} || right == {} then 0.0
    else
      assert left <= left + right;
      assert |left + right| > 0;
      |left * right| as real / |left + right| as real
  }

  lemma SubsetCard<T>(a: set<T>, b: set<T>)
    requires a <= b
    ensures |a| <= |b| && (|a| == |b| ==> a == b)
  {
    assert b == a + (b - a);
    assert |b| == |a| + |b - a|;
  }

  lemma Ratio(n: real, d: real)
    requires 0.0 <= n <= d && d > 0.0
    ensures 0.0 <= n / d <= 1.0 && (n / d == 1.0 <==> n == d)
  {
    assert n == (n / d) * d;
  }

  /** Similarity is a symmetric score in [0,1], and 1 exactly on equal token sets. */
  lemma JaccardBounds(left: set<string>, right: set<string>)
    ensures 0.0 <= Jaccard(left, right) <= 1.0
    ensures Jaccard(left, right) == 1.0 <==> left == right
    ensures Jaccard(left, right) == Jaccard(right, left)
  {
    var i, u := left * right, left + right;
    SubsetCard(i, u);
    assert right * left == i && right + left == u;
    if left != {} && right != {} {
      SubsetCard(left, u);
      var n, d := |i| as real, |u| as real;
      Ratio(n, d);
      if left == right {
        assert i == u;
      } else if |i| == |u| {
        assert left <= u && right <= u && i <= left;
      }
    }
  }

  function Similarity(a: string, b: string, stop: set<string>): real {
    Jaccard(ContentTokens(a, stop), ContentTokens(b, stop))
  }

  // ----- loop detection -----

  /** How questions are compared; loop detection and the service are proved for every lawful
      comparison, of which the one above is an instance. */
  datatype TextRules = TextRules(fingerprint: string -> string, similarity: (string, string) -> real)
  {
    ghost predicate Lawful() {
      && (forall a, b :: 0.0 <= similarity(a, b) <= 1.0)
      && (forall a, b :: similarity(a, b) == similarity(b, a))
      && (forall a, b :: fingerprint(a) == fingerprint(b) <==> similarity(a, b) == 1.0)
    }
  }

  function StandardRules(stop: set<string>): TextRules {
    TextRules(a => Fingerprint(a, stop), (a, b) => Similarity(a, b, stop))
  }

  /** Fingerprints coincide exactly at similarity one. */
  lemma StandardRulesLawful(stop: set<string>)
    ensures StandardRules(stop).Lawful()
  {
    var rules := StandardRules(stop);
    forall a, b
      ensures 0.0 <= rules.similarity(a, b) <= 1.0
      ensures rules.similarity(a, b) == rules.similarity(b, a)
      ensures rules.fingerprint(a) == rules.fingerprint(b) <==> rules.similarity(a, b) == 1.0
    {
      FingerprintIdentifies(a, b, stop);
      JaccardBounds(ContentTokens(a, stop), ContentTokens(b, stop));
    }
  }

  /** `is_repeat`'s answer: the verdict, the matched index and the best score. */
  datatype Match = Match(repeat: bool, index: Option<nat>, score: real)

  method IsRepeat(rules: TextRules, candidate: string, previous: seq<string>, threshold: real) returns (m: Match)
    ensures m == Best(rules, candidate, previous, threshold)
  {
    var best: Option<nat>, score := None, 0.0;
    ghost var scores := Scores(rules, candidate, previous);
    for i := 0 to |previous|
      invariant (best, score) == FirstMax(scores[..i])
    {
      var s := rules.similarity(candidate, previous[i]);
      assert scores[..i + 1][..i] == scores[..i];
      if s > score {
        score, best := s, Some(i);
      }
    }
    assert scores[..|previous|] == scores;
    m := Match(score >= threshold && best.Some?, best, score);
  }

  function Scores(rules: TextRules, candidate: string, previous: seq<string>): (s: seq<real>)
    ensures |s| == |previous|
  {
    seq(|previous|, i requires 0 <= i < |previous| => rules.similarity(candidate, previous[i]))
  }

  /** Running maximum from zero; a tie keeps the earlier index. */
  function FirstMax(scores: seq<real>): (Option<nat>, real) {
    if scores == [] then (None, 0.0)
    else
      var n := |scores| - 1;
      var (best, score) := FirstMax(scores[..n]);
      if scores[n] > score then (Some(n), scores[n]) else (best, score)
  }

  function Best(rules: TextRules, candidate: string, previous: seq<string>, threshold: real): Match {
    var (best, score) := FirstMax(Scores(rules, candidate, previous));
    Match(score >= threshold && best.Some?, best, score)
  }

  /** The running maximum is the first argmax, and has no index exactly when no score is positive. */
  lemma {:induction false} FirstMaxIsFirstArgmax(scores: seq<real>)
    ensures var (best, score) := FirstMax(scores);
      && (forall i | 0 <= i < |scores| :: scores[i] <= score)
      && (best.None? ==> score == 0.0)
      && (best.Some? ==>
            && best.value < |scores| && score > 0.0 && scores[best.value] == score
            && forall i | 0 <= i < best.value :: scores[i] < score)
  {
    if scores != [] {
      var n := |scores| - 1;
      FirstMaxIsFirstArgmax(scores[..n]);
      assert forall i | 0 <= i < n :: scores[i] == scores[..n][i];
    }
  }

  /** Two questions the detector tells apart at this threshold. */
  predicate Apart(rules: TextRules, a: string, b: string, threshold: real) {
    rules.similarity(a, b) < threshold || rules.similarity(a, b) == 0.0
  }

  /** A candidate is a repeat exactly when some earlier question is not told apart from it (for
      a threshold above zero: when some similarity reaches it), and the index reported is then
      the earliest question of maximal similarity. */
  lemma RepeatIff(rules: TextRules, candidate: string, previous: seq<string>, threshold: real)
    requires rules.Lawful() && 0.0 <= threshold
    ensures var m := Best(rules, candidate, previous, threshold);
      && (m.repeat <==> exists i | 0 <= i < |previous| :: !Apart(rules, candidate, previous[i], threshold))
      && (m.repeat ==>
            && m.index.Some? && m.index.value < |previous|
            && (forall i | 0 <= i < |previous| :: rules.similarity(candidate, previous[i]) <= m.score)
            && rules.similarity(candidate, previous[m.index.value]) == m.score
            && forall i | 0 <= i < m.index.value :: rules.similarity(candidate, previous[i]) < m.score)
  {
    var scores := Scores(rules, candidate, previous);
    FirstMaxIsFirstArgmax(scores);
    var (best, score) := FirstMax(scores);
    assert forall i | 0 <= i < |previous| :: scores[i] == rules.similarity(candidate, previous[i]);
    if best.Some? && score >= threshold {
      assert !Apart(rules, candidate, previous[best.value], threshold);
    }
  }

  /** Questions told apart at any legal threshold have different fingerprints. */
  lemma ApartFingerprints(rules: TextRules, a: string, b: string, threshold: real)
    requires rules.Lawful() && threshold <= 1.0 && Apart(rules, a, b, threshold)
    ensures rules.fingerprint(a) != rules.fingerprint(b)
  {
    assert rules.similarity(a, b) < 1.0;
  }
}
