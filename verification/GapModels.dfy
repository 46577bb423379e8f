/**
 The report's own record types and what their constructors refuse (packages/uc07/uc07/domain/models.py).
 A value is written first and then checked, in the order the validators run; a failed check is what
 the constructor raises.
 */
module GapModels {
  import opened Prelude
  import opened Ordering

  datatype SignalKind = ExplainDifferently | FollowUp | LowRating | UnexploredSpeciality

  datatype Signal = Signal(kind: SignalKind, observed: int, threshold: int, ids: seq<string>)

  datatype Basis = InteractionIds | ZeroInteractions

  datatype Evidence = Evidence(basis: Basis, ids: seq<string>, perSignal: seq<Signal>)

  datatype GapType = Struggle | Unexplored

  datatype Gap = Gap(topic: string, gapType: GapType, signals: seq<SignalKind>, evidence: Evidence)

  datatype Invalid =
    | EmptyText | NegativeField | NotFired
    | EmptyEvidence | UnwantedEvidence | RepeatedIds | StraySignalIds
    | NoSignals | DisorderedSignals | RepeatedSignals | MismatchedSignals | WrongBasis | WrongSignals

  /** Position in the canonical signal order. */
  function Index(k: SignalKind): nat {
    match k
    case ExplainDifferently => 0
    case FollowUp => 1
    case LowRating => 2
    case UnexploredSpeciality => 3
  }

  /** A list equals its stable sort by the canonical order exactly when it never steps down. */
  predicate InOrder(kinds: seq<SignalKind>) {
    forall i, j | 0 <= i < j < |kinds| :: Index(kinds[i]) <= Index(kinds[j])
  }

  function Kinds(signals: seq<Signal>): seq<SignalKind> {
    seq(|signals|, i requires 0 <= i < |signals| => signals[i].kind)
  }

  function CheckSignal(s: Signal): Option<Invalid> {
    if s.observed < 0 || s.threshold < 0 then Some(NegativeField)
    else if "" in s.ids then Some(EmptyText)
    else if s.observed < s.threshold then Some(NotFired)
    else None
  }

  function CheckEvidence(e: Evidence): Option<Invalid> {
    if "" in e.ids then Some(EmptyText)
    else if e.basis == InteractionIds && e.ids == [] then Some(EmptyEvidence)
    else if e.basis == ZeroInteractions && e.ids != [] then Some(UnwantedEvidence)
    else if |Elements(e.ids)| != |e.ids| then Some(RepeatedIds)
    else if exists s | s in e.perSignal :: !(Elements(s.ids) <= Elements(e.ids)) then Some(StraySignalIds)
    else None
  }

  function CheckGap(g: Gap): Option<Invalid> {
    if g.topic == "" then Some(EmptyText)
    else if g.signals == [] then Some(NoSignals)
    else if !InOrder(g.signals) then Some(DisorderedSignals)
    else if |Elements(g.signals)| != |g.signals| then Some(RepeatedSignals)
    else if Kinds(g.evidence.perSignal) != g.signals then Some(MismatchedSignals)
    else if g.gapType == Struggle then if g.evidence.basis != InteractionIds then Some(WrongBasis) else None
    else if g.evidence.basis == InteractionIds then Some(WrongBasis)
    else if g.signals != [UnexploredSpeciality] then Some(WrongSignals)
    else None
  }

  /** Building a gap builds its evidence first. */
  function Check(g: Gap): Option<Invalid> {
    if CheckEvidence(g.evidence).Some? then CheckEvidence(g.evidence) else CheckGap(g)
  }

  /** What the first failing construction of a sequence raises. */
  function FirstFault<T>(xs: seq<T>, check: T -> Option<Invalid>): Option<Invalid> {
    if xs == [] then None
    else
      var n := |xs| - 1;
      if FirstFault(xs[..n], check).Some? then FirstFault(xs[..n], check) else check(xs[n])
  }

  lemma {:induction false} NoFaultIff<T>(xs: seq<T>, check: T -> Option<Invalid>)
    ensures FirstFault(xs, check).None? <==> forall x | x in xs :: check(x).None?
  {
    if xs != [] {
      var n := |xs| - 1;
      NoFaultIff(xs[..n], check);
      assert xs == xs[..n] + [xs[n]];
    }
  }

  lemma FaultOfLast<T>(xs: seq<T>, x: T, check: T -> Option<Invalid>)
    requires FirstFault(xs, check).None?
    ensures FirstFault(xs + [x], check) == check(x)
  {
    assert (xs + [x])[..|xs|] == xs;
  }

  lemma {:induction false} FaultStays<T>(xs: seq<T>, check: T -> Option<Invalid>, i: nat)
    requires i <= |xs| && FirstFault(xs[..i], check).Some?
    ensures FirstFault(xs, check) == FirstFault(xs[..i], check)
  {
    if i < |xs| {
      var n := |xs| - 1;
      assert xs[..n][..i] == xs[..i];
      FaultStays(xs[..n], check, i);
    } else {
      assert xs[..i] == xs;
    }
  }
}
