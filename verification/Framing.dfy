/**
 Choosing framings and never repeating one (packages/uc03/uc03/explanation.py, distinctness.py,
 steps 4 to 9 of the pipeline in service.py, and the registry in adapters/mocks.py).
 */
module Framing {
  import opened Prelude
  import CitationGuard

  datatype Strategy =
    | Analogy | WorkedExample | ContrastNearMiss | FirstPrinciples | ProceduralWalkthrough | MisconceptionCorrection

  datatype Action = FirstQuestion | AnotherExample | GoDeeper | ExplainDifferently

  const ALL: seq<Strategy> :=
    [Analogy, WorkedExample, ContrastNearMiss, FirstPrinciples, ProceduralWalkthrough, MisconceptionCorrection]

  function Preference(action: Action): seq<Strategy> {
    match action
    case FirstQuestion => ALL
    case AnotherExample =>
      [WorkedExample, Analogy, ContrastNearMiss, ProceduralWalkthrough, MisconceptionCorrection, FirstPrinciples]
    case GoDeeper =>
      [FirstPrinciples, ContrastNearMiss, MisconceptionCorrection, ProceduralWalkthrough, WorkedExample, Analogy]
    case ExplainDifferently =>
      [Analogy, ContrastNearMiss, MisconceptionCorrection, WorkedExample, ProceduralWalkthrough, FirstPrinciples]
  }

  /** The first strategy of `order` not yet used. */
  function FirstUnused(order: seq<Strategy>, used: set<Strategy>): Option<Strategy> {
    if order == [] then None
    else if order[0] !in used then Some(order[0])
    else FirstUnused(order[1..], used)
  }

  /** Every preference list names every strategy, so the fallback loop never finds anything new. */
  lemma PreferencesComplete(action: Action, f: Strategy)
    ensures f in Preference(action)
  {
    var p := Preference(action);
    assert p[0] in p && p[1] in p && p[2] in p && p[3] in p && p[4] in p && p[5] in p;
  }

  lemma {:induction false} FirstUnusedFacts(order: seq<Strategy>, used: set<Strategy>)
    ensures FirstUnused(order, used).None? <==> forall f | f in order :: f in used
    ensures FirstUnused(order, used).Some? ==>
              exists k | 0 <= k < |order| ::
                order[k] == FirstUnused(order, used).value && order[k] !in used
                && forall j | 0 <= j < k :: order[j] in used
  {
    if order != [] && order[0] in used {
      FirstUnusedFacts(order[1..], used);
      assert order == [order[0]] + order[1..];
      if FirstUnused(order[1..], used).Some? {
        var k :| 0 <= k < |order[1..]| && order[1..][k] == FirstUnused(order[1..], used).value && order[1..][k] !in used
                 && forall j | 0 <= j < k :: order[1..][j] in used;
        assert order[k + 1] == order[1..][k];
        forall j | 0 <= j < k + 1 ensures order[j] in used {
          if j > 0 { assert order[j] == order[1..][j - 1]; }
        }
      }
    }
  }

  /** A selection is unused, the most preferred such, and fails only when all six are used. */
  lemma SelectionSound(action: Action, used: set<Strategy>)
    ensures FirstUnused(Preference(action), used).None? <==> forall f: Strategy :: f in used
    ensures FirstUnused(Preference(action), used).Some? ==> FirstUnused(Preference(action), used).value !in used
  {
    FirstUnusedFacts(Preference(action), used);
    forall f: Strategy { PreferencesComplete(action, f); }
  }

  method SelectFraming(action: Action, used: set<Strategy>) returns (chosen: Option<Strategy>)
    ensures chosen == FirstUnused(Preference(action), used)
  {
    var order := Preference(action);
    for i := 0 to |order|
      invariant FirstUnused(order, used) == FirstUnused(order[i..], used)
    {
      if order[i] !in used {
        return Some(order[i]);
      }
    }
    SelectionSound(action, used);
    for i := 0 to |ALL|
      invariant forall f: Strategy :: f in used
    {
      var f := ALL[i];
      if f !in used {
        return Some(f);
      }
    }
    chosen := None;
  }

  // ----- paraphrase -----

  datatype Rules = Rules(words: string -> set<string>, threshold: real)

  function Overlap(rules: Rules, a: string, b: string): real {
    var x, y := rules.words(a), rules.words(b);
    if x == {} || y == {} then 0.0
    else
      assert x <= x + y;
      assert |x + y| > 0;
      |x * y| as real / |x + y| as real
  }

  predicate IsParaphrase(rules: Rules, candidate: string, previous: seq<string>) {
    exists i | 0 <= i < |previous| :: Overlap(rules, candidate, previous[i]) >= rules.threshold
  }

  // ----- one turn -----

  type Key = (string, string)

  /** The registry, keyed by session and concept. */
  datatype Registry = Registry(used: map<Key, set<Strategy>>, explanations: map<Key, seq<string>>)

  const EMPTY := Registry(map[], map[])

  function UsedFor(r: Registry, key: Key): set<Strategy> {
    if key in r.used then r.used[key] else {}
  }

  function ExplanationsFor(r: Registry, key: Key): seq<string> {
    if key in r.explanations then r.explanations[key] else []
  }

  function Recorded(r: Registry, key: Key, f: Strategy, text: string): Registry {
    Registry(r.used[key := UsedFor(r, key) + {f}], r.explanations[key := ExplanationsFor(r, key) + [text]])
  }

  /** What the generator wrote for the plain explanation, the citation-shaped matches in it, and the
      citations that were verified for this answer. */
  datatype Output = Output(prose: string, found: seq<CitationGuard.Span>, verified: seq<string>) {
    /** The text the learner is shown. */
    function Shown(): string {
      CitationGuard.Scrubbed(prose, found, verified).text
    }
  }

  /** What one turn brings: whether reading and writing the registry fail, and the generator's output,
      if it produced one. */
  datatype Turn = Turn(key: Key, action: Action, readFails: bool, writeFails: bool, output: Option<Output>)

  datatype Outcome = Answered(framing: Strategy, shown: string) | Exhausted | Failed

  /** Steps 4 to 9: select, generate, reject a paraphrase, guard, record. */
  function Pipeline(rules: Rules, r: Registry, t: Turn): (Registry, Outcome) {
    if t.readFails && t.action != FirstQuestion then (r, Failed)
    else
      var chosen := if t.readFails then Some(Analogy) else FirstUnused(Preference(t.action), UsedFor(r, t.key));
      var previous := if t.readFails then [] else ExplanationsFor(r, t.key);
      if chosen.None? then (r, Exhausted)
      else if t.output.None? then (r, Failed)
      else if IsParaphrase(rules, t.output.value.prose, previous) then (r, Failed)
      else
        var shown := t.output.value.Shown();
        (if t.writeFails then r else Recorded(r, t.key, chosen.value, shown), Answered(chosen.value, shown))
  }

  class FramingRegistry {
    var used: map<Key, set<Strategy>>
    var explanations: map<Key, seq<string>>

    ghost function Contents(): Registry
      reads this
    {
      Registry(used, explanations)
    }

    constructor ()
      ensures Contents() == EMPTY
    {
      used, explanations := map[], map[];
    }

    method UsedFramings(key: Key) returns (s: set<Strategy>)
      ensures s == UsedFor(Contents(), key)
    {
      s := if key in used then used[key] else {};
    }

    method PreviousExplanations(key: Key) returns (s: seq<string>)
      ensures s == ExplanationsFor(Contents(), key)
    {
      s := if key in explanations then explanations[key] else [];
    }

    method RecordFraming(key: Key, f: Strategy, explanation: string)
      modifies this
      ensures Contents() == Recorded(old(Contents()), key, f, explanation)
    {
      var framings := if key in used then used[key] else {};
      used := used[key := framings + {f}];
      var texts := if key in explanations then explanations[key] else [];
      explanations := explanations[key := texts + [explanation]];
    }
  }

  class QAService {
    const rules: Rules
    const framings: FramingRegistry

    constructor (rules: Rules)
      ensures this.rules == rules && fresh(framings) && framings.Contents() == EMPTY
    {
      this.rules := rules;
      framings := new FramingRegistry();
    }

    method Respond(t: Turn) returns (o: Outcome)
      requires t.output.Some? ==> CitationGuard.Within(t.output.value.found, t.output.value.prose)
      modifies framings
      ensures (framings.Contents(), o) == Pipeline(rules, old(framings.Contents()), t)
    {
      var framing, previous := Analogy, [];
      if t.readFails {
        if t.action != FirstQuestion {
          return Failed;
        }
      } else {
        var used := framings.UsedFramings(t.key);
        previous := framings.PreviousExplanations(t.key);
        var chosen := SelectFraming(t.action, used);
        if chosen.None? {
          return Exhausted;
        }
        framing := chosen.value;
      }
      if t.output.None? {
        return Failed;
      }
      var output := t.output.value;
      if previous != [] && IsParaphrase(rules, output.prose, previous) {
        return Failed;
      }
      var guarded := CitationGuard.Scrub(output.prose, output.found, output.verified);
      if !t.writeFails {
        framings.RecordFraming(t.key, framing, guarded.text);
      }
      o := Answered(framing, guarded.text);
    }
  }
}
