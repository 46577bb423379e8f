/**
 Which turns are answered, with which framing, and which texts count as paraphrases
 (packages/uc03/uc03/explanation.py, distinctness.py, and steps 4 to 9 of the pipeline in service.py).
 */
module FramingLaws {
  import opened Prelude
  import opened Ordering
  import opened Framing

  // ----- paraphrases -----

  lemma Quotient(n: nat, d: nat, t: real)
    requires d > 0
    ensures n as real / d as real >= t <==> n as real >= t * d as real
  {
    var q := n as real / d as real;
    assert q * d as real == n as real;
    if q >= t { assert q * d as real >= t * d as real; }
    if q < t { assert q * d as real < t * d as real; }
  }

  /** Two texts overlap as far as a positive threshold exactly when both hold content words and the words they
      share are that share of all their words. */
  predicate Overlapping(x: set<string>, y: set<string>, threshold: real) {
    x != {} && y != {} && |x * y| as real >= threshold * |x + y| as real
  }

  lemma OverlapReaches(rules: Rules, a: string, b: string)
    requires rules.threshold > 0.0
    ensures Overlap(rules, a, b) >= rules.threshold <==> Overlapping(rules.words(a), rules.words(b), rules.threshold)
  {
    var x, y := rules.words(a), rules.words(b);
    if x != {} && y != {} {
      assert x <= x + y;
      assert |x + y| > 0;
      Quotient(|x * y|, |x + y|, rules.threshold);
    }
  }

  /** A text is a paraphrase exactly when it overlaps an earlier one. */
  lemma ParaphraseIff(rules: Rules, candidate: string, previous: seq<string>)
    requires rules.threshold > 0.0
    ensures IsParaphrase(rules, candidate, previous)
       <==> exists text | text in previous :: Overlapping(rules.words(candidate), rules.words(text), rules.threshold)
  {
    forall text { OverlapReaches(rules, candidate, text); }
  }

  // ----- preferences -----

  /** Every action ranks every framing once. */
  lemma PreferenceRanks(action: Action)
    ensures |Preference(action)| == 6 && NoRepeats(Preference(action))
    ensures forall f: Strategy :: f in Preference(action)
  {
    forall f: Strategy { PreferencesComplete(action, f); }
    var order := Preference(action);
    var all := Elements(ALL);
    forall f: Strategy ensures f in all <==> f in Elements(order) {
      PreferencesComplete(FirstQuestion, f);
    }
    SixFramings();
    RepeatFree(order);
    assert Elements(order) == all;
  }

  lemma SixFramings()
    ensures |Elements(ALL)| == 6
  {
    assert Elements(ALL) == {Analogy, WorkedExample, ContrastNearMiss, FirstPrinciples, ProceduralWalkthrough,
                             MisconceptionCorrection};
  }

  function ByAction(action: Action, first: nat, another: nat, deeper: nat, differently: nat): nat {
    match action
    case FirstQuestion => first
    case AnotherExample => another
    case GoDeeper => deeper
    case ExplainDifferently => differently
  }

  /** How far down each action ranks a framing. */
  function Rank(f: Strategy, action: Action): nat {
    match f
    case Analogy => ByAction(action, 0, 1, 5, 0)
    case WorkedExample => ByAction(action, 1, 0, 4, 3)
    case ContrastNearMiss => ByAction(action, 2, 2, 1, 1)
    case FirstPrinciples => ByAction(action, 3, 5, 0, 5)
    case ProceduralWalkthrough => ByAction(action, 4, 3, 3, 4)
    case MisconceptionCorrection => ByAction(action, 5, 4, 2, 2)
  }

  lemma RankIsPosition(f: Strategy, action: Action)
    ensures Rank(f, action) < |Preference(action)| && Preference(action)[Rank(f, action)] == f
  {
  }

  lemma FirstByRank(order: seq<Strategy>, rank: Strategy -> nat, used: set<Strategy>, f: Strategy)
    requires NoRepeats(order) && forall g: Strategy :: rank(g) < |order| && order[rank(g)] == g
    ensures FirstUnused(order, used) == Some(f)
       <==> f !in used && forall g: Strategy | rank(g) < rank(f) :: g in used
  {
    FirstUnusedFacts(order, used);
    if f !in used {
      assert order[rank(f)] == f;
      var g := FirstUnused(order, used).value;
      var m :| 0 <= m < |order| && order[m] == g && order[m] !in used && forall j | 0 <= j < m :: order[j] in used;
      assert m == rank(g);
    }
  }

  /** A framing is chosen exactly when it is unused and every framing the action ranks higher is used. */
  ghost predicate Chosen(action: Action, used: set<Strategy>, f: Strategy) {
    f !in used && forall g: Strategy | Rank(g, action) < Rank(f, action) :: g in used
  }

  lemma ChosenIff(action: Action, used: set<Strategy>, f: Strategy)
    ensures FirstUnused(Preference(action), used) == Some(f) <==> Chosen(action, used, f)
  {
    PreferenceRanks(action);
    forall g: Strategy { RankIsPosition(g, action); }
    FirstByRank(Preference(action), (g: Strategy) => Rank(g, action), used, f);
  }

  // ----- outcomes -----

  /** A follow-up cannot go on without the registry. */
  predicate Stuck(t: Turn) {
    t.readFails && t.action != FirstQuestion
  }

  ghost predicate AllUsed(r: Registry, t: Turn) {
    !t.readFails && forall f: Strategy :: f in UsedFor(r, t.key)
  }

  /** The generator wrote something that does not paraphrase what the registry, if it was read, holds. */
  predicate Fresh(rules: Rules, r: Registry, t: Turn) {
    t.output.Some? && (t.readFails || !IsParaphrase(rules, t.output.value.prose, ExplanationsFor(r, t.key)))
  }

  /** When a turn is answered, when it is told that framings have run out, and when it fails. */
  lemma OutcomeIff(rules: Rules, r: Registry, t: Turn)
    ensures var o := Pipeline(rules, r, t).1;
      && (o.Exhausted? <==> AllUsed(r, t))
      && (o.Answered? <==> !Stuck(t) && !AllUsed(r, t) && Fresh(rules, r, t))
      && (o.Failed? <==> !AllUsed(r, t) && (Stuck(t) || !Fresh(rules, r, t)))
  {
    SelectionSound(t.action, UsedFor(r, t.key));
  }

  /** What an answer consists of: the framing chosen, or the analogy on an unreadable registry, and the guarded
      text; and what the registry is told, which is that and nothing else. */
  lemma AnswerIs(rules: Rules, r: Registry, t: Turn)
    requires Pipeline(rules, r, t).1.Answered?
    ensures var (r', o) := Pipeline(rules, r, t);
      && (if t.readFails then o.framing == Analogy else Chosen(t.action, UsedFor(r, t.key), o.framing))
      && o.shown == t.output.value.Shown()
      && (t.writeFails ==> r' == r)
      && (!t.writeFails ==>
            && ExplanationsFor(r', t.key) == ExplanationsFor(r, t.key) + [o.shown]
            && (forall f :: f in UsedFor(r', t.key) <==> f in UsedFor(r, t.key) || f == o.framing)
            && forall key | key != t.key ::
                 UsedFor(r', key) == UsedFor(r, key) && ExplanationsFor(r', key) == ExplanationsFor(r, key))
  {
    if !t.readFails { ChosenIff(t.action, UsedFor(r, t.key), Pipeline(rules, r, t).1.framing); }
  }

  /** Whatever is not answered leaves the registry alone. */
  lemma UnansweredLeavesNoTrace(rules: Rules, r: Registry, t: Turn)
    requires !Pipeline(rules, r, t).1.Answered?
    ensures Pipeline(rules, r, t).0 == r
  {
  }
}
