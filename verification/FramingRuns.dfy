/**
 Whole runs of the framing protocol: when no answer repeats the framing or the text of an earlier
 one (packages/uc03/uc03/service.py, `answer`, `follow_up` and steps 4 to 9 of `_pipeline`).
 A follow-up is served only on a concept of the session that has been answered.
 */
module FramingRuns {
  import opened Prelude
  import opened Ordering
  import CitationGuard
  import opened Framing

  /** One answer shown to the learner, and whether the registry was told. */
  datatype Entry = Entry(framing: Strategy, output: Output, recorded: bool)

  /** The registry, and every answer shown so far per session and concept. */
  datatype World = World(registry: Registry, answers: map<Key, seq<Entry>>)

  const NEW_WORLD := World(EMPTY, map[])

  function Given(w: World, key: Key): seq<Entry> {
    if key in w.answers then w.answers[key] else []
  }

  function Step(rules: Rules, w: World, t: Turn): World {
    if t.action != FirstQuestion && Given(w, t.key) == [] then w
    else
      match Pipeline(rules, w.registry, t)
      case (r, Answered(f, _)) =>
        World(r, w.answers[t.key := Given(w, t.key) + [Entry(f, t.output.value, !t.writeFails)]])
      case (r, _) => World(r, w.answers)
  }

  function Serve(rules: Rules, w: World, ts: seq<Turn>): World
    decreases |ts|
  {
    if ts == [] then w else Serve(rules, Step(rules, w, ts[0]), ts[1..])
  }

  function Run(rules: Rules, ts: seq<Turn>): World {
    Serve(rules, NEW_WORLD, ts)
  }

  /** The turn was refused, exhausted or failed: nothing changes. */
  ghost predicate Unchanged(w: World, w': World) {
    w'.registry == w.registry && forall key :: Given(w', key) == Given(w, key)
  }

  /** The turn was answered: one more entry, recorded unless the write failed. */
  ghost predicate Extended(rules: Rules, w: World, w': World, t: Turn, e: Entry) {
    && t.output == Some(e.output) && e.recorded == !t.writeFails
    && (t.action != FirstQuestion ==> !t.readFails && Given(w, t.key) != [])
    && Given(w', t.key) == Given(w, t.key) + [e]
    && (forall key | key != t.key :: Given(w', key) == Given(w, key))
    && w'.registry == (if t.writeFails then w.registry else Recorded(w.registry, t.key, e.framing, e.output.Shown()))
    && (t.readFails ==> e.framing == Analogy)
    && (!t.readFails ==>
          && FirstUnused(Preference(t.action), UsedFor(w.registry, t.key)) == Some(e.framing)
          && !IsParaphrase(rules, e.output.prose, ExplanationsFor(w.registry, t.key)))
  }

  /** A turn either leaves everything as it was, or extends the answers of its own key by one. */
  lemma StepCases(rules: Rules, w: World, t: Turn)
    ensures var w' := Step(rules, w, t);
      Unchanged(w, w') || exists e :: Extended(rules, w, w', t, e)
  {
    var w' := Step(rules, w, t);
    var o := Pipeline(rules, w.registry, t).1;
    if o.Answered? && (t.action == FirstQuestion || Given(w, t.key) != []) {
      var e := Entry(o.framing, t.output.value, !t.writeFails);
      assert Extended(rules, w, w', t, e);
    } else {
      assert Unchanged(w, w');
    }
  }

  function Framings(es: seq<Entry>): seq<Strategy> {
    seq(|es|, i requires 0 <= i < |es| => es[i].framing)
  }

  function Texts(es: seq<Entry>): seq<string> {
    seq(|es|, i requires 0 <= i < |es| => es[i].output.Shown())
  }

  /** The answers the registry was told of. */
  function Kept(es: seq<Entry>): seq<Entry> {
    if es == [] then []
    else
      var n := |es| - 1;
      Kept(es[..n]) + if es[n].recorded then [es[n]] else []
  }

  lemma KeptGrows(es: seq<Entry>, e: Entry)
    ensures Kept(es + [e]) == if e.recorded then Kept(es) + [e] else Kept(es)
  {
    assert (es + [e])[..|es|] == es;
  }

  lemma {:induction false} KeptAll(es: seq<Entry>)
    requires forall i | 0 <= i < |es| :: es[i].recorded
    ensures Kept(es) == es
  {
    if es != [] {
      KeptAll(es[..|es| - 1]);
    }
  }

  lemma FramingsGrow(es: seq<Entry>, e: Entry)
    ensures Framings(es + [e]) == Framings(es) + [e.framing]
    ensures Elements(Framings(es + [e])) == Elements(Framings(es)) + {e.framing}
    ensures Texts(es + [e]) == Texts(es) + [e.output.Shown()]
  {
    assert Framings(es + [e]) == Framings(es) + [e.framing];
  }

  // ----- what the registry knows -----

  /** The registry knows exactly the recorded answers, in order. */
  ghost predicate Faithful(w: World) {
    forall key :: Knows(w.registry, key, Kept(Given(w, key)))
  }

  ghost predicate Knows(r: Registry, key: Key, es: seq<Entry>) {
    UsedFor(r, key) == Elements(Framings(es)) && ExplanationsFor(r, key) == Texts(es)
  }

  lemma FaithfulStep(rules: Rules, w: World, t: Turn)
    requires Faithful(w)
    ensures Faithful(Step(rules, w, t))
  {
    var w' := Step(rules, w, t);
    StepCases(rules, w, t);
    if Unchanged(w, w') {
      forall key ensures Knows(w'.registry, key, Kept(Given(w', key))) {
        assert Knows(w.registry, key, Kept(Given(w, key)));
      }
    } else {
      var e :| Extended(rules, w, w', t, e);
      FaithfulExtended(rules, w, w', t, e);
    }
  }

  lemma FaithfulExtended(rules: Rules, w: World, w': World, t: Turn, e: Entry)
    requires Faithful(w) && Extended(rules, w, w', t, e)
    ensures Faithful(w')
  {
    var es := Given(w, t.key);
    KeptGrows(es, e);
    FramingsGrow(Kept(es), e);
    forall key ensures Knows(w'.registry, key, Kept(Given(w', key))) {
      assert Knows(w.registry, key, Kept(Given(w, key)));
    }
  }

  lemma {:induction false} FaithfulRun(rules: Rules, w: World, ts: seq<Turn>)
    requires Faithful(w)
    ensures Faithful(Serve(rules, w, ts))
    decreases |ts|
  {
    if ts != [] {
      FaithfulStep(rules, w, ts[0]);
      FaithfulRun(rules, Step(rules, w, ts[0]), ts[1..]);
    }
  }

  // ----- recorded twice -----

  ghost predicate DistinctRecords(w: World) {
    forall key :: NoRepeats(Framings(Kept(Given(w, key))))
  }

  /** A first question whose generation succeeds, on a registry that cannot be read but can be
      written and already holds the analogy framing. */
  predicate BlindRepeat(w: World, t: Turn) {
    t.action == FirstQuestion && t.readFails && !t.writeFails && t.output.Some? && Analogy in UsedFor(w.registry, t.key)
  }

  /** From distinct recorded framings, a turn keeps them distinct exactly when it is no blind repeat. */
  lemma RepeatsIffBlind(rules: Rules, w: World, t: Turn)
    requires Faithful(w) && DistinctRecords(w)
    ensures DistinctRecords(Step(rules, w, t)) <==> !BlindRepeat(w, t)
  {
    var w' := Step(rules, w, t);
    StepCases(rules, w, t);
    if Unchanged(w, w') {
      if BlindRepeat(w, t) { BlindIsAnswered(rules, w, t); }
      DistinctElsewhere(w, w', t.key);
    } else {
      var e :| Extended(rules, w, w', t, e);
      var es := Given(w, t.key);
      assert Knows(w.registry, t.key, Kept(es)) && NoRepeats(Framings(Kept(es)));
      KeptGrows(es, e);
      FramingsGrow(Kept(es), e);
      AppendRepeats(Framings(Kept(es)), e.framing);
      SelectionSound(t.action, UsedFor(w.registry, t.key));
      DistinctElsewhere(w, w', t.key);
    }
  }

  lemma BlindIsAnswered(rules: Rules, w: World, t: Turn)
    requires BlindRepeat(w, t)
    ensures !Unchanged(w, Step(rules, w, t))
  {
    var w' := Step(rules, w, t);
    assert |Given(w', t.key)| == |Given(w, t.key)| + 1;
  }

  lemma DistinctElsewhere(w: World, w': World, changed: Key)
    requires DistinctRecords(w) && forall key | key != changed :: Given(w', key) == Given(w, key)
    ensures DistinctRecords(w') <==> NoRepeats(Framings(Kept(Given(w', changed))))
  {
    if NoRepeats(Framings(Kept(Given(w', changed)))) {
      forall key ensures NoRepeats(Framings(Kept(Given(w', key)))) {
        assert NoRepeats(Framings(Kept(Given(w, key))));
      }
    }
  }

  lemma AppendRepeats(fs: seq<Strategy>, f: Strategy)
    requires NoRepeats(fs)
    ensures NoRepeats(fs + [f]) <==> f !in Elements(fs)
  {
    var all := fs + [f];
    if f in fs {
      var i :| 0 <= i < |fs| && fs[i] == f;
      assert all[i] == all[|fs|];
    }
  }

  /** No turn of the run is a blind repeat at the moment it is served. */
  predicate NeverBlind(rules: Rules, w: World, ts: seq<Turn>)
    decreases |ts|
  {
    ts == [] || (!BlindRepeat(w, ts[0]) && NeverBlind(rules, Step(rules, w, ts[0]), ts[1..]))
  }

  lemma RepeatStays(rules: Rules, w: World, t: Turn)
    requires !DistinctRecords(w)
    ensures !DistinctRecords(Step(rules, w, t))
  {
    var key :| !NoRepeats(Framings(Kept(Given(w, key))));
    var w' := Step(rules, w, t);
    var es := Given(w, key);
    StepCases(rules, w, t);
    if !Unchanged(w, w') {
      var e :| Extended(rules, w, w', t, e);
      KeptGrows(es, e);
      FramingsGrow(Kept(es), e);
    }
    var before, after := Framings(Kept(es)), Framings(Kept(Given(w', key)));
    assert before <= after;
    var i, j :| 0 <= i < j < |before| && before[i] == before[j];
    assert after[i] == after[j];
  }

  lemma {:induction false} RepeatsStay(rules: Rules, w: World, ts: seq<Turn>)
    requires !DistinctRecords(w)
    ensures !DistinctRecords(Serve(rules, w, ts))
    decreases |ts|
  {
    if ts != [] {
      RepeatStays(rules, w, ts[0]);
      RepeatsStay(rules, Step(rules, w, ts[0]), ts[1..]);
    }
  }

  /** Over every run: the recorded framings are pairwise distinct at the end if and only if no turn
      was a blind repeat. */
  lemma {:induction false} RecordedTwiceIff(rules: Rules, w: World, ts: seq<Turn>)
    requires Faithful(w) && DistinctRecords(w)
    ensures DistinctRecords(Serve(rules, w, ts)) <==> NeverBlind(rules, w, ts)
    decreases |ts|
  {
    if ts != [] {
      RepeatsIffBlind(rules, w, ts[0]);
      FaithfulStep(rules, w, ts[0]);
      if BlindRepeat(w, ts[0]) {
        RepeatsStay(rules, Step(rules, w, ts[0]), ts[1..]);
      } else {
        RecordedTwiceIff(rules, Step(rules, w, ts[0]), ts[1..]);
      }
    }
  }

  // ----- answered twice: which failures can be allowed -----

  /** What may go wrong in a turn of this kind. */
  datatype Fault = Fault(action: Action, readFails: bool, writeFails: bool)

  function FaultOf(t: Turn): Fault {
    Fault(t.action, t.readFails, t.writeFails)
  }

  ghost predicate From(ts: seq<Turn>, faults: iset<Fault>) {
    forall i | 0 <= i < |ts| :: FaultOf(ts[i]) in faults
  }

  /** No framing was shown twice for one session and concept. */
  ghost predicate DistinctFramings(w: World) {
    forall key :: NoRepeats(Framings(Given(w, key)))
  }

  /** Every text was generated below the paraphrase threshold against all texts shown before. */
  ghost predicate TextsNew(rules: Rules, w: World) {
    forall key :: NewTexts(rules, Given(w, key))
  }

  predicate NewTexts(rules: Rules, es: seq<Entry>) {
    forall i, j | 0 <= i < j < |es| :: Overlap(rules, es[j].output.prose, es[i].output.Shown()) < rules.threshold
  }

  /** Some pair of texts counts as a paraphrase. */
  ghost predicate Detects(rules: Rules) {
    exists p, q :: Overlap(rules, q, p) >= rules.threshold
  }

  ghost predicate AsksFirst(faults: iset<Fault>) {
    exists f | f in faults :: f.action == FirstQuestion
  }

  /** The failures under which no answer escapes the registry: a first question reads and writes it,
      and a follow-up that reads it writes it.  (Where first questions are never asked nothing is
      answered; at a threshold of zero or less no follow-up is.) */
  ghost predicate Dependable(rules: Rules, faults: iset<Fault>) {
    && (forall f | f in faults && f.action == FirstQuestion :: !f.readFails && !f.writeFails)
    && (AsksFirst(faults) && rules.threshold > 0.0 ==> forall f | f in faults :: f.readFails || !f.writeFails)
  }

  /** The registry has been told everything, and nothing was repeated. */
  ghost predicate Intact(rules: Rules, faults: iset<Fault>, w: World) {
    && Faithful(w) && DistinctFramings(w) && TextsNew(rules, w)
    && (forall key :: AllRecorded(Given(w, key)))
    && (forall key :: Given(w, key) != [] ==> AsksFirst(faults))
  }

  predicate AllRecorded(es: seq<Entry>) {
    forall i | 0 <= i < |es| :: es[i].recorded
  }

  /** What a turn that reads an intact registry answers. */
  lemma IntactAnswer(rules: Rules, faults: iset<Fault>, w: World, w': World, t: Turn, e: Entry)
    requires Intact(rules, faults, w) && !t.readFails && Extended(rules, w, w', t, e)
    ensures e.framing !in Elements(Framings(Given(w, t.key)))
    ensures forall i | 0 <= i < |Given(w, t.key)| ::
              Overlap(rules, e.output.prose, Given(w, t.key)[i].output.Shown()) < rules.threshold
  {
    var es := Given(w, t.key);
    assert AllRecorded(es) && Knows(w.registry, t.key, Kept(es));
    KeptAll(es);
    SelectionSound(t.action, UsedFor(w.registry, t.key));
    var previous := ExplanationsFor(w.registry, t.key);
    forall i | 0 <= i < |es| ensures Overlap(rules, e.output.prose, es[i].output.Shown()) < rules.threshold {
      assert previous[i] == es[i].output.Shown();
    }
  }

  lemma OverlapNotNegative(rules: Rules, a: string, b: string)
    ensures Overlap(rules, a, b) >= 0.0
  {
    var x, y := rules.words(a), rules.words(b);
    if x != {} && y != {} {
      assert x <= x + y;
      NonNegativeQuotient(|x * y| as real, |x + y| as real);
    }
  }

  lemma NonNegativeQuotient(n: real, d: real)
    requires n >= 0.0 && d > 0.0
    ensures n / d >= 0.0
  {
  }

  lemma IntactStep(rules: Rules, faults: iset<Fault>, w: World, t: Turn)
    requires Intact(rules, faults, w) && Dependable(rules, faults) && FaultOf(t) in faults
    ensures Intact(rules, faults, Step(rules, w, t))
  {
    var w' := Step(rules, w, t);
    FaithfulStep(rules, w, t);
    StepCases(rules, w, t);
    if Unchanged(w, w') {
      IntactUnchanged(rules, faults, w, w');
    } else {
      var e :| Extended(rules, w, w', t, e);
      IntactExtended(rules, faults, w, w', t, e);
    }
  }

  lemma IntactUnchanged(rules: Rules, faults: iset<Fault>, w: World, w': World)
    requires Intact(rules, faults, w) && Faithful(w') && Unchanged(w, w')
    ensures Intact(rules, faults, w')
  {
    forall key
      ensures NoRepeats(Framings(Given(w', key))) && NewTexts(rules, Given(w', key)) && AllRecorded(Given(w', key))
    {
      assert Given(w', key) == Given(w, key);
    }
  }

  lemma IntactExtended(rules: Rules, faults: iset<Fault>, w: World, w': World, t: Turn, e: Entry)
    requires Intact(rules, faults, w) && Dependable(rules, faults) && FaultOf(t) in faults
    requires Faithful(w') && Extended(rules, w, w', t, e)
    ensures Intact(rules, faults, w')
  {
    var es, f := Given(w, t.key), FaultOf(t);
    assert !f.readFails;
    IntactAnswer(rules, faults, w, w', t, e);
    if t.action != FirstQuestion {
      OverlapNotNegative(rules, e.output.prose, es[0].output.Shown());
      assert AsksFirst(faults) && rules.threshold > 0.0;
    }
    assert !f.writeFails;
    AnswerKeeps(rules, es, e);
    IntactAfter(rules, faults, w, w', t.key);
  }

  lemma IntactAfter(rules: Rules, faults: iset<Fault>, w: World, w': World, changed: Key)
    requires Intact(rules, faults, w) && Faithful(w') && AsksFirst(faults)
    requires forall key | key != changed :: Given(w', key) == Given(w, key)
    requires var es := Given(w', changed); NoRepeats(Framings(es)) && NewTexts(rules, es) && AllRecorded(es)
    ensures Intact(rules, faults, w')
  {
    forall key
      ensures NoRepeats(Framings(Given(w', key))) && NewTexts(rules, Given(w', key)) && AllRecorded(Given(w', key))
    {
      if key != changed { assert Given(w', key) == Given(w, key); }
    }
  }

  lemma AnswerKeeps(rules: Rules, es: seq<Entry>, e: Entry)
    requires NoRepeats(Framings(es)) && NewTexts(rules, es) && AllRecorded(es)
    requires e.recorded && e.framing !in Elements(Framings(es))
    requires forall i | 0 <= i < |es| :: Overlap(rules, e.output.prose, es[i].output.Shown()) < rules.threshold
    ensures NoRepeats(Framings(es + [e])) && NewTexts(rules, es + [e]) && AllRecorded(es + [e])
  {
    FramingsGrow(es, e);
    AppendRepeats(Framings(es), e.framing);
  }

  lemma {:induction false} IntactRun(rules: Rules, faults: iset<Fault>, w: World, ts: seq<Turn>)
    requires Intact(rules, faults, w) && Dependable(rules, faults) && From(ts, faults)
    ensures Intact(rules, faults, Serve(rules, w, ts))
    decreases |ts|
  {
    if ts != [] {
      assert FaultOf(ts[0]) in faults;
      IntactStep(rules, faults, w, ts[0]);
      forall i | 0 <= i < |ts| - 1 ensures FaultOf(ts[1..][i]) in faults { assert ts[1..][i] == ts[i + 1]; }
      IntactRun(rules, faults, Step(rules, w, ts[0]), ts[1..]);
    }
  }

  // ----- the runs that repeat -----

  const HERE: Key := ("session", "concept")

  function Plain(text: string): Output {
    Output(text, [], [])
  }

  lemma PlainShown(text: string)
    ensures Plain(text).Shown() == text
  {
    assert CitationGuard.Suspect([], CitationGuard.AllowedSpans(text, [])) == [];
  }

  function TurnOf(f: Fault, o: Output): Turn {
    Turn(HERE, f.action, f.readFails, f.writeFails, Some(o))
  }

  lemma ServeTwo(rules: Rules, a: Turn, b: Turn)
    ensures Run(rules, [a, b]) == Step(rules, Step(rules, NEW_WORLD, a), b)
  {
    assert [a, b][1..] == [b] && [b][1..] == [];
    assert Serve(rules, Step(rules, NEW_WORLD, a), [b]) == Step(rules, Step(rules, NEW_WORLD, a), b);
  }

  lemma ServeThree(rules: Rules, a: Turn, b: Turn, c: Turn)
    ensures Run(rules, [a, b, c]) == Step(rules, Step(rules, Step(rules, NEW_WORLD, a), b), c)
  {
    var w := Step(rules, NEW_WORLD, a);
    assert [a, b, c][1..] == [b, c] && [b, c][1..] == [c] && [c][1..] == [];
    assert Serve(rules, Step(rules, w, b), [c]) == Step(rules, Step(rules, w, b), c);
    assert Serve(rules, w, [b, c]) == Serve(rules, Step(rules, w, b), [c]);
  }

  /** The first answer on a new registry always uses the analogy. */
  lemma FirstAnswer(rules: Rules, f: Fault, o: Output)
    requires f.action == FirstQuestion
    ensures var w := Step(rules, NEW_WORLD, TurnOf(f, o));
      && Given(w, HERE) == [Entry(Analogy, o, !f.writeFails)]
      && w.registry == if f.writeFails then EMPTY else Recorded(EMPTY, HERE, Analogy, o.Shown())
  {
    assert FirstUnused(ALL, {}) == Some(Analogy);
  }

  /** Two first questions that do not read, or do not write, are answered alike. */
  lemma CarelessFirst(rules: Rules, f: Fault, o: Output, o': Output)
    requires f.action == FirstQuestion && (f.readFails || f.writeFails)
    ensures Given(Run(rules, [TurnOf(f, o), TurnOf(f, o')]), HERE)
         == [Entry(Analogy, o, !f.writeFails), Entry(Analogy, o', !f.writeFails)]
  {
    FirstAnswer(rules, f, o);
    ServeTwo(rules, TurnOf(f, o), TurnOf(f, o'));
    assert FirstUnused(ALL, {}) == Some(Analogy);
  }

  /** A follow-up that reads but does not write, after one recorded answer. */
  lemma ForgottenFollowUp(rules: Rules, w: World, f: Fault, text: string, o: Output, g: Strategy)
    requires f.action != FirstQuestion && !f.readFails && f.writeFails
    requires w.registry == Recorded(EMPTY, HERE, Analogy, text) && Given(w, HERE) != []
    requires Overlap(rules, o.prose, text) < rules.threshold
    requires FirstUnused(Preference(f.action), {Analogy}) == Some(g)
    ensures var w' := Step(rules, w, TurnOf(f, o));
      w'.registry == w.registry && Given(w', HERE) == Given(w, HERE) + [Entry(g, o, false)]
  {
    assert UsedFor(w.registry, HERE) == {Analogy} && ExplanationsFor(w.registry, HERE) == [text];
  }

  lemma NextAfterAnalogy(action: Action) returns (g: Strategy)
    ensures FirstUnused(Preference(action), {Analogy}) == Some(g)
  {
    SelectionSound(action, {Analogy});
    assert WorkedExample !in {Analogy};
    g := FirstUnused(Preference(action), {Analogy}).value;
  }

  lemma CarelessFollowUp(rules: Rules, first: Fault, f: Fault, o: Output, o': Output) returns (g: Strategy)
    requires rules.words("") == {} && rules.threshold > 0.0
    requires first.action == FirstQuestion && !first.readFails && !first.writeFails
    requires f.action != FirstQuestion && !f.readFails && f.writeFails
    ensures Given(Run(rules, [TurnOf(first, Plain("")), TurnOf(f, o), TurnOf(f, o')]), HERE)
         == [Entry(Analogy, Plain(""), true), Entry(g, o, false), Entry(g, o', false)]
  {
    var empty := Plain("");
    g := NextAfterAnalogy(f.action);
    PlainShown("");
    FirstAnswer(rules, first, empty);
    var w1 := Step(rules, NEW_WORLD, TurnOf(first, empty));
    ForgottenFollowUp(rules, w1, f, "", o, g);
    var w2 := Step(rules, w1, TurnOf(f, o));
    ForgottenFollowUp(rules, w2, f, "", o', g);
    ServeThree(rules, TurnOf(first, empty), TurnOf(f, o), TurnOf(f, o'));
    assert Given(w1, HERE) + [Entry(g, o, false)] + [Entry(g, o', false)]
        == [Entry(Analogy, empty, true), Entry(g, o, false), Entry(g, o', false)];
  }

  /** Under failures that are not dependable, some run shows any two outputs one after the other under
      the same framing. */
  lemma UndependableRun(rules: Rules, faults: iset<Fault>, o: Output, o': Output)
    returns (ts: seq<Turn>, i: nat)
    requires rules.words("") == {} && !Dependable(rules, faults)
    ensures From(ts, faults)
    ensures var es := Given(Run(rules, ts), HERE);
      i + 1 < |es| && es[i].framing == es[i + 1].framing && es[i].output == o && es[i + 1].output == o'
  {
    if f :| f in faults && f.action == FirstQuestion && (f.readFails || f.writeFails) {
      CarelessFirst(rules, f, o, o');
      ts, i := [TurnOf(f, o), TurnOf(f, o')], 0;
    } else {
      var first :| first in faults && first.action == FirstQuestion;
      var f :| f in faults && !f.readFails && f.writeFails;
      var g := CarelessFollowUp(rules, first, f, o, o');
      ts, i := [TurnOf(first, Plain("")), TurnOf(f, o), TurnOf(f, o')], 1;
    }
  }

  /** All runs under `faults` show pairwise distinct framings for every session and concept, whatever
      is generated, if and only if the failures are dependable. */
  lemma NeverRepeatIff(rules: Rules, faults: iset<Fault>)
    requires rules.words("") == {}
    ensures (forall ts | From(ts, faults) :: DistinctFramings(Run(rules, ts))) <==> Dependable(rules, faults)
  {
    if Dependable(rules, faults) {
      forall ts | From(ts, faults) ensures DistinctFramings(Run(rules, ts)) {
        IntactRun(rules, faults, NEW_WORLD, ts);
      }
    } else {
      var ts, i := UndependableRun(rules, faults, Plain(""), Plain(""));
      var fs := Framings(Given(Run(rules, ts), HERE));
      assert fs[i] == fs[i + 1];
      assert !DistinctFramings(Run(rules, ts));
    }
  }

  /** Texts shown unredacted are below the threshold against everything shown before. */
  ghost predicate UnredactedNew(rules: Rules, w: World) {
    forall key :: UnredactedTexts(rules, Given(w, key))
  }

  predicate UnredactedTexts(rules: Rules, es: seq<Entry>) {
    forall i, j | 0 <= i < j < |es| && es[j].output.Shown() == es[j].output.prose ::
      Overlap(rules, es[j].output.Shown(), es[i].output.Shown()) < rules.threshold
  }

  /** The same failures are exactly those under which every text is new against everything shown
      before it, and every unredacted text shown is; unless no two texts count as paraphrases. */
  lemma AlwaysNewIff(rules: Rules, faults: iset<Fault>)
    requires rules.words("") == {}
    ensures (forall ts | From(ts, faults) :: TextsNew(rules, Run(rules, ts)))
       <==> Dependable(rules, faults) || !Detects(rules)
    ensures (forall ts | From(ts, faults) :: UnredactedNew(rules, Run(rules, ts)))
       <==> Dependable(rules, faults) || !Detects(rules)
  {
    if Dependable(rules, faults) || !Detects(rules) {
      forall ts | From(ts, faults) ensures TextsNew(rules, Run(rules, ts)) && UnredactedNew(rules, Run(rules, ts)) {
        if Dependable(rules, faults) { IntactRun(rules, faults, NEW_WORLD, ts); }
        forall key ensures UnredactedTexts(rules, Given(Run(rules, ts), key)) {
          assert NewTexts(rules, Given(Run(rules, ts), key));
        }
      }
    } else {
      var p, q :| Overlap(rules, q, p) >= rules.threshold;
      var ts, i := UndependableRun(rules, faults, Plain(p), Plain(q));
      var es := Given(Run(rules, ts), HERE);
      PlainShown(p);
      PlainShown(q);
      assert !NewTexts(rules, es) && !UnredactedTexts(rules, es);
    }
  }

  /** One instance: the answer to a first question is not recorded, and the follow-up that asks for a
      different explanation gets the same framing and may get the very same text. */
  lemma UnrecordedAnswerRepeats(rules: Rules, text: string)
    ensures var first, again := Fault(FirstQuestion, false, true), Fault(ExplainDifferently, false, false);
      Given(Run(rules, [TurnOf(first, Plain(text)), TurnOf(again, Plain(text))]), HERE)
      == [Entry(Analogy, Plain(text), false), Entry(Analogy, Plain(text), true)]
  {
    var first, again := Fault(FirstQuestion, false, true), Fault(ExplainDifferently, false, false);
    FirstAnswer(rules, first, Plain(text));
    ServeTwo(rules, TurnOf(first, Plain(text)), TurnOf(again, Plain(text)));
    var order := Preference(ExplainDifferently);
    assert order[0] == Analogy && FirstUnused(order, {}) == Some(Analogy);
  }

  // ----- how framings run out -----

  lemma AtMostSix(fs: seq<Strategy>)
    requires NoRepeats(fs)
    ensures |fs| <= 6 && (|fs| == 6 <==> forall f: Strategy :: f in Elements(fs))
  {
    var all := {Analogy, WorkedExample, ContrastNearMiss, FirstPrinciples, ProceduralWalkthrough,
                MisconceptionCorrection};
    assert |all| == 6;
    DistinctSize(fs);
    var es := Elements(fs);
    forall f: Strategy ensures f in all { AllOfThem(f); }
    assert es <= all;
    assert all == es + (all - es);
    assert |all| == |es| + |all - es|;
    if |fs| == 6 {
      assert all - es == {};
    }
    if forall f: Strategy :: f in es {
      EverySix(es);
    }
  }

  lemma EverySix(es: set<Strategy>)
    requires forall f: Strategy :: f in es
    ensures |es| == 6
  {
    var all := {Analogy, WorkedExample, ContrastNearMiss, FirstPrinciples, ProceduralWalkthrough,
                MisconceptionCorrection};
    assert |all| == 6;
    forall f: Strategy ensures f in all { AllOfThem(f); }
    assert es == all;
  }

  lemma AllOfThem(f: Strategy)
    ensures f in {Analogy, WorkedExample, ContrastNearMiss, FirstPrinciples, ProceduralWalkthrough,
                  MisconceptionCorrection}
  {
    match f
    case Analogy => case WorkedExample => case ContrastNearMiss => case FirstPrinciples =>
    case ProceduralWalkthrough => case MisconceptionCorrection =>
  }

  lemma {:induction false} DistinctSize(fs: seq<Strategy>)
    requires NoRepeats(fs)
    ensures |Elements(fs)| == |fs|
  {
    if fs != [] {
      var n := |fs| - 1;
      DistinctSize(fs[..n]);
      assert fs == fs[..n] + [fs[n]];
      AppendRepeats(fs[..n], fs[n]);
      assert Elements(fs) == Elements(fs[..n]) + {fs[n]};
    }
  }

  /** Over every run without a blind repeat, whatever else fails: at most six answers are recorded for
      a key; a turn that can read the registry finds the framings exhausted exactly when six are; and
      what it answers has an unrecorded framing and is new against every recorded text. */
  lemma FramingsRunOut(rules: Rules, ts: seq<Turn>, t: Turn)
    requires NeverBlind(rules, NEW_WORLD, ts) && !t.readFails
    ensures var w := Run(rules, ts);
      var known := Kept(Given(w, t.key));
      var o := Pipeline(rules, w.registry, t).1;
      && |known| <= 6
      && (o.Exhausted? <==> |known| == 6)
      && (o.Answered? ==>
            && o.framing !in Framings(known)
            && forall i | 0 <= i < |known| ::
                 Overlap(rules, t.output.value.prose, known[i].output.Shown()) < rules.threshold)
  {
    var w := Run(rules, ts);
    var known := Kept(Given(w, t.key));
    FaithfulRun(rules, NEW_WORLD, ts);
    RecordedTwiceIff(rules, NEW_WORLD, ts);
    assert Knows(w.registry, t.key, known) && NoRepeats(Framings(known));
    AtMostSix(Framings(known));
    SelectionSound(t.action, UsedFor(w.registry, t.key));
    var previous := ExplanationsFor(w.registry, t.key);
    if Pipeline(rules, w.registry, t).1.Answered? {
      forall i | 0 <= i < |known|
        ensures Overlap(rules, t.output.value.prose, known[i].output.Shown()) < rules.threshold
      {
        assert previous[i] == known[i].output.Shown();
      }
    }
  }

  // ----- redaction after the comparison -----

  /** Nothing fails, and whatever is generated comes from `outputs`. */
  ghost predicate Draws(ts: seq<Turn>, outputs: iset<Output>) {
    forall i | 0 <= i < |ts| ::
      !ts[i].readFails && !ts[i].writeFails && (ts[i].output.Some? ==> ts[i].output.value in outputs)
  }

  ghost predicate ShownNew(rules: Rules, w: World) {
    forall key :: NewShown(rules, Given(w, key))
  }

  predicate NewShown(rules: Rules, es: seq<Entry>) {
    forall i, j | 0 <= i < j < |es| ::
      Overlap(rules, es[j].output.Shown(), es[i].output.Shown()) < rules.threshold
  }

  /** Redaction never turns a text that is new against a shown one into a paraphrase of it. */
  ghost predicate RedactionStable(rules: Rules, outputs: iset<Output>) {
    forall g, h | g in outputs && h in outputs && Overlap(rules, h.prose, g.Shown()) < rules.threshold ::
      Overlap(rules, h.Shown(), g.Shown()) < rules.threshold
  }

  ghost predicate Drawn(w: World, outputs: iset<Output>) {
    forall key, i | 0 <= i < |Given(w, key)| :: Given(w, key)[i].output in outputs
  }

  lemma DrawnStep(rules: Rules, w: World, t: Turn, outputs: iset<Output>)
    requires Drawn(w, outputs) && (t.output.Some? ==> t.output.value in outputs)
    ensures Drawn(Step(rules, w, t), outputs)
  {
    var w' := Step(rules, w, t);
    StepCases(rules, w, t);
    if !Unchanged(w, w') {
      var e :| Extended(rules, w, w', t, e);
    }
  }

  lemma {:induction false} DrawnRun(rules: Rules, w: World, ts: seq<Turn>, outputs: iset<Output>)
    requires Drawn(w, outputs) && Draws(ts, outputs)
    ensures Drawn(Serve(rules, w, ts), outputs)
    decreases |ts|
  {
    if ts != [] {
      DrawnStep(rules, w, ts[0], outputs);
      forall i | 0 <= i < |ts[1..]| ensures ts[1..][i] == ts[i + 1] {}
      DrawnRun(rules, Step(rules, w, ts[0]), ts[1..], outputs);
    }
  }

  lemma TwoDifferent(rules: Rules, g: Output, h: Output)
    requires Overlap(rules, h.prose, g.Shown()) < rules.threshold
    ensures var first, again := Fault(FirstQuestion, false, false), Fault(ExplainDifferently, false, false);
      Given(Run(rules, [TurnOf(first, g), TurnOf(again, h)]), HERE)
      == [Entry(Analogy, g, true), Entry(ContrastNearMiss, h, true)]
  {
    var first, again := Fault(FirstQuestion, false, false), Fault(ExplainDifferently, false, false);
    FirstAnswer(rules, first, g);
    ServeTwo(rules, TurnOf(first, g), TurnOf(again, h));
    var w := Step(rules, NEW_WORLD, TurnOf(first, g));
    assert UsedFor(w.registry, HERE) == {Analogy} && ExplanationsFor(w.registry, HERE) == [g.Shown()];
    var order := Preference(ExplainDifferently);
    assert order[0] == Analogy && order[1..][0] == ContrastNearMiss;
    assert FirstUnused(order[1..], {Analogy}) == Some(ContrastNearMiss);
  }

  /** All runs in which nothing fails and the generator draws from `outputs` show pairwise new texts if
      and only if redaction is stable on `outputs`. */
  lemma ShownNewIff(rules: Rules, outputs: iset<Output>)
    ensures (forall ts | Draws(ts, outputs) :: ShownNew(rules, Run(rules, ts))) <==> RedactionStable(rules, outputs)
  {
    if RedactionStable(rules, outputs) {
      forall ts | Draws(ts, outputs) ensures ShownNew(rules, Run(rules, ts)) { StableRun(rules, ts, outputs); }
    } else {
      var g, h :| g in outputs && h in outputs && Overlap(rules, h.prose, g.Shown()) < rules.threshold
                  && Overlap(rules, h.Shown(), g.Shown()) >= rules.threshold;
      var ts := UnstableRun(rules, g, h, outputs);
    }
  }

  lemma UnstableRun(rules: Rules, g: Output, h: Output, outputs: iset<Output>) returns (ts: seq<Turn>)
    requires g in outputs && h in outputs && Overlap(rules, h.prose, g.Shown()) < rules.threshold
    requires Overlap(rules, h.Shown(), g.Shown()) >= rules.threshold
    ensures Draws(ts, outputs) && !ShownNew(rules, Run(rules, ts))
  {
    var first, again := Fault(FirstQuestion, false, false), Fault(ExplainDifferently, false, false);
    ts := [TurnOf(first, g), TurnOf(again, h)];
    TwoDifferent(rules, g, h);
    var es := Given(Run(rules, ts), HERE);
    assert es[0].output == g && es[1].output == h;
    assert !NewShown(rules, es);
  }

  lemma StableRun(rules: Rules, ts: seq<Turn>, outputs: iset<Output>)
    requires RedactionStable(rules, outputs) && Draws(ts, outputs)
    ensures ShownNew(rules, Run(rules, ts))
  {
    var faults := iset f: Fault | !f.readFails && !f.writeFails;
    assert From(ts, faults);
    IntactRun(rules, faults, NEW_WORLD, ts);
    DrawnRun(rules, NEW_WORLD, ts, outputs);
    var w := Run(rules, ts);
    forall key ensures NewShown(rules, Given(w, key)) {
      assert NewTexts(rules, Given(w, key));
    }
  }

  // ----- an output on which redaction is not stable -----

  /** One unverified case name and nothing else. */
  function Citing(name: string): Output {
    Output(name, [CitationGuard.Span(0, |name|)], [])
  }

  lemma WholeTextRedacted(name: string, found: seq<CitationGuard.Span>, start: nat)
    requires name != "" && found == [CitationGuard.Span(start, |name|)] && start == 0
    ensures CitationGuard.Redacted(name, found, start) == CitationGuard.REDACTION
  {
    CitationGuard.RedactRun(name, found, 0, start);
    Alone(name[start..start], CitationGuard.REDACTION, CitationGuard.Redacted(name, found, |name|));
  }

  lemma Alone(before: string, middle: string, after: string)
    requires before == "" && after == ""
    ensures before + middle + after == middle
  {
  }

  lemma NothingProtected(found: seq<CitationGuard.Span>)
    requires |found| == 1
    ensures CitationGuard.Suspect(found, []) == found
  {
    assert CitationGuard.Suspect(found[..0], []) == [];
  }

  lemma SameRedaction(a: string, b: string)
    requires a != "" && b != ""
    ensures Citing(a).Shown() == Citing(b).Shown()
  {
    WholeTextRedacted(a, [CitationGuard.Span(0, |a|)], 0);
    WholeTextRedacted(b, [CitationGuard.Span(0, |b|)], 0);
    NothingProtected([CitationGuard.Span(0, |a|)]);
    NothingProtected([CitationGuard.Span(0, |b|)]);
  }

  /** The comparison happens before redaction, so two different generated texts can be shown as the
      same text: here each is one unverified case name, and both are shown as the bare redaction. */
  lemma RedactionCanRepeat(rules: Rules, a: string, b: string)
    requires a != "" && b != "" && Overlap(rules, b, Citing(a).Shown()) < rules.threshold
    ensures var first, again := Fault(FirstQuestion, false, false), Fault(ExplainDifferently, false, false);
      var es := Given(Run(rules, [TurnOf(first, Citing(a)), TurnOf(again, Citing(b))]), HERE);
      |es| == 2 && es[0].output.prose == a && es[1].output.prose == b && es[0].output.Shown() == es[1].output.Shown()
  {
    TwoDifferent(rules, Citing(a), Citing(b));
    SameRedaction(a, b);
  }
}
