/** Reasoning-chain assembly (packages/uc05/uc05/application/reasoning_chain.py). */
module ReasoningChain {
  import opened Prelude
  import opened Ordering
  import opened Dialogues

  datatype Step = Step(
    number: nat, question: string, probing: string, response: Option<string>, connection: string)

  const SINGLE := "This was the single step taken, testing "
  const OPENED := "This opened the reasoning by testing "
  const FINAL := "This was the final step, testing "
  const NARROWED := "This narrowed the reasoning by testing "

  function Opening(position: nat, total: nat): string {
    if total == 1 then SINGLE else if position == 1 then OPENED else if position == total then FINAL else NARROWED
  }

  function Ending(position: nat, total: nat): string {
    if total == 1 then ". The explanation below picks up from it."
    else if position == 1 then ". Where you took it set up the question that followed."
    else if position == total then ". The explanation below picks up from exactly this point."
    else ", building on what your previous answer had established."
  }

  function Connection(position: nat, total: nat, probing: string): string {
    Opening(position, total) + probing + Ending(position, total)
  }

  function StepFor(exchanges: seq<Exchange>, i: nat): Step
    requires i < |exchanges|
  {
    var e := exchanges[i];
    Step(e.number, e.question, e.focus, LearnerResponse(e), Connection(i + 1, |exchanges|, e.focus))
  }

  function ChainOf(exchanges: seq<Exchange>): seq<Step> {
    seq(|exchanges|, i requires 0 <= i < |exchanges| => StepFor(exchanges, i))
  }

  method BuildReasoningChain(exchanges: seq<Exchange>) returns (steps: seq<Step>)
    ensures steps == ChainOf(exchanges)
  {
    steps := [];
    var total := |exchanges|;
    ghost var chain := ChainOf(exchanges);
    for position := 1 to total + 1
      invariant steps == chain[..position - 1]
    {
      var e := exchanges[position - 1];
      var connection := Connection(position, total, e.focus);
      PrefixGrows(chain, position - 1);
      assert chain[position - 1] == StepFor(exchanges, position - 1);
      steps := steps + [Step(e.number, e.question, e.focus, LearnerResponse(e), connection)];
    }
    WholePrefix(chain);
  }

  // ----- what a connection says -----

  lemma OpeningsApart(c: string)
    ensures SINGLE <= c ==> !(OPENED <= c) && !(FINAL <= c) && !(NARROWED <= c)
    ensures OPENED <= c ==> !(FINAL <= c) && !(NARROWED <= c)
    ensures FINAL <= c ==> !(NARROWED <= c)
  {
    assert SINGLE[5] == 'w' && OPENED[5] == 'o' && FINAL[5] == 'w' && NARROWED[5] == 'n';
    assert SINGLE[13] == 's' && FINAL[13] == 'f';
  }

  lemma Opens(opening: string, probing: string, ending: string)
    ensures opening <= opening + probing + ending
    ensures exists before, after :: opening + probing + ending == before + probing + after
  {
    assert (opening + probing + ending)[..|opening|] == opening;
  }

  /** Each connection names what its question probed, and says where in the chain it stands: alone, first,
      last, or in between, and never more than one of these. */
  lemma ConnectionsSay(position: nat, total: nat, probing: string)
    requires 1 <= position <= total
    ensures var c := Connection(position, total, probing);
      && (SINGLE <= c <==> total == 1) && (OPENED <= c <==> position == 1 < total)
      && (FINAL <= c <==> 1 < position == total) && (NARROWED <= c <==> 1 < position < total)
      && exists before, after :: c == before + probing + after
  {
    OpeningsApart(Connection(position, total, probing));
    Opens(Opening(position, total), probing, Ending(position, total));
  }
}
