/**
  The per-leaf refinement loop (`replaceLeaves`) and the part of `compute` that calls it.
  The leaves are visited in order. For each leaf the loop dumps its feature vectors and its distance
  tables, calls the tree inducer (wagon), and, if the call succeeded, reads the resulting tree and
  replaces the leaf by it. The first failed call ends the loop with `false`.
  The inducer is the parameter `succeeds`; the steps taken are recorded in a trace. Reading and
  building the trees are not modelled, so a replaced leaf is only marked as such.
*/
module Refinement {

  /** One step of the loop, with the index of the leaf it is about. */
  datatype LeafStep =
    | DumpFeatures(leaf: nat)
    | DumpDistances(leaf: nat)
    | CallInducer(leaf: nat)
    | ReadCart(leaf: nat)
    | Replace(leaf: nat)

  /** A leaf of the top-level tree, before or after it is replaced by the tree grown for it. */
  datatype Node<L> = Leaf(unit: L) | Grown(unit: L)

  /** The leaves of the top-level tree, in the order the leaf iterator visits them. */
  class Cart<L> {
    var nodes: seq<Node<L>>

    constructor (leaves: seq<L>)
      ensures nodes == seq(|leaves|, i requires 0 <= i < |leaves| => Leaf(leaves[i]))
    {
      nodes := seq(|leaves|, i requires 0 <= i < |leaves| => Leaf(leaves[i]));
    }

    /** `replaceLeafByCart`: the leaf at `k` gives way to the tree read for it. */
    method ReplaceLeaf(k: nat)
      requires k < |nodes|
      modifies this
      ensures nodes == old(nodes)[k := Grown(old(nodes)[k].unit)]
    {
      nodes := nodes[k := Grown(nodes[k].unit)];
    }
  }

  /** The steps taken for a leaf up to and including the inducer call. */
  function Prelude(k: nat): seq<LeafStep> {
    [DumpFeatures(k), DumpDistances(k), CallInducer(k)]
  }

  /** The five steps taken for a leaf whose inducer call succeeds. */
  function Visit(k: nat): seq<LeafStep> {
    Prelude(k) + [ReadCart(k), Replace(k)]
  }

  /** The steps taken from leaf `k` on. */
  function Trace<L>(nodes: seq<Node<L>>, succeeds: L -> bool, k: nat): seq<LeafStep>
    decreases |nodes| - k
  {
    if k >= |nodes| then []
    else if !succeeds(nodes[k].unit) then Prelude(k)
    else Visit(k) + Trace(nodes, succeeds, k + 1)
  }

  /** The index of the first leaf from `k` on whose inducer call fails, or the number of leaves. */
  function FirstFailure<L>(nodes: seq<Node<L>>, succeeds: L -> bool, k: nat): (f: nat)
    requires k <= |nodes|
    ensures k <= f <= |nodes|
    decreases |nodes| - k
  {
    if k == |nodes| then k
    else if !succeeds(nodes[k].unit) then k
    else FirstFailure(nodes, succeeds, k + 1)
  }

  /** Every leaf before the first failure succeeds, and the first failure fails. */
  lemma {:induction false} FirstFailureSpec<L>(nodes: seq<Node<L>>, succeeds: L -> bool, k: nat)
    requires k <= |nodes|
    ensures var f := FirstFailure(nodes, succeeds, k);
            (forall i :: k <= i < f ==> succeeds(nodes[i].unit)) &&
            (f < |nodes| ==> !succeeds(nodes[f].unit))
    decreases |nodes| - k
  {
    if k < |nodes| && succeeds(nodes[k].unit) {
      FirstFailureSpec(nodes, succeeds, k + 1);
    }
  }

  /** The leaves after the loop: those before the first failure replaced, the others untouched. */
  function Refined<L>(nodes: seq<Node<L>>, f: nat): (after: seq<Node<L>>)
    ensures |after| == |nodes|
  {
    seq(|nodes|, i requires 0 <= i < |nodes| => if i < f then Grown(nodes[i].unit) else nodes[i])
  }

  /** The number of inducer calls in a trace. */
  function Calls(trace: seq<LeafStep>): nat {
    if |trace| == 0 then 0
    else Calls(trace[..|trace| - 1]) + (if trace[|trace| - 1].CallInducer? then 1 else 0)
  }

  /** `replaceLeaves`: visits each leaf in turn and stops at the first failed inducer call. */
  method ReplaceLeaves<L>(cart: Cart<L>, succeeds: L -> bool) returns (ok: bool, trace: seq<LeafStep>)
    modifies cart
    ensures ok <==> FirstFailure(old(cart.nodes), succeeds, 0) == |old(cart.nodes)|
    ensures trace == Trace(old(cart.nodes), succeeds, 0)
    ensures cart.nodes == Refined(old(cart.nodes), FirstFailure(old(cart.nodes), succeeds, 0))
  {
    ghost var leaves := cart.nodes;
    trace := [];
    var i := 0;
    while i < |cart.nodes|
      invariant i <= |leaves| == |cart.nodes|
      invariant FirstFailure(leaves, succeeds, 0) == FirstFailure(leaves, succeeds, i)
      invariant Trace(leaves, succeeds, 0) == trace + Trace(leaves, succeeds, i)
      invariant cart.nodes == Refined(leaves, i)
      decreases |leaves| - i
    {
      ghost var done := trace;
      TraceStep(leaves, succeeds, i);
      var leaf := cart.nodes[i].unit;
      trace := trace + Prelude(i);
      if !succeeds(leaf) {
        return false, trace;
      }
      RefinedStep(leaves, i);
      cart.ReplaceLeaf(i);
      trace := trace + [ReadCart(i), Replace(i)];
      Associative(done, Prelude(i), [ReadCart(i), Replace(i)]);
      Associative(done, Visit(i), Trace(leaves, succeeds, i + 1));
      i := i + 1;
    }
    assert trace + [] == trace;
    return true, trace;
  }

  lemma Associative(a: seq<LeafStep>, b: seq<LeafStep>, c: seq<LeafStep>)
    ensures a + b + c == a + (b + c)
  {
  }

  /** One leaf of the trace and of the search for the first failure. */
  lemma TraceStep<L>(nodes: seq<Node<L>>, succeeds: L -> bool, i: nat)
    requires i < |nodes|
    ensures succeeds(nodes[i].unit) ==>
              Trace(nodes, succeeds, i) == Visit(i) + Trace(nodes, succeeds, i + 1) &&
              FirstFailure(nodes, succeeds, i) == FirstFailure(nodes, succeeds, i + 1)
    ensures !succeeds(nodes[i].unit) ==>
              Trace(nodes, succeeds, i) == Prelude(i) && FirstFailure(nodes, succeeds, i) == i
  {
  }

  /** Replacing leaf i extends the replaced prefix by one. */
  lemma RefinedStep<L>(nodes: seq<Node<L>>, i: nat)
    requires i < |nodes|
    ensures Refined(nodes, i)[i := Grown(nodes[i].unit)] == Refined(nodes, i + 1)
  {
  }

  /** The loop ends with success exactly when every inducer call succeeds. */
  lemma SucceedsIffAll<L>(nodes: seq<Node<L>>, succeeds: L -> bool)
    ensures FirstFailure(nodes, succeeds, 0) == |nodes| <==> forall i :: 0 <= i < |nodes| ==> succeeds(nodes[i].unit)
  {
    FirstFailureSpec(nodes, succeeds, 0);
  }

  /** The inducer is called once for each leaf up to and including the first that fails: k + 1 calls
      when leaf k is the first failure, one per leaf when none fails. */
  lemma {:induction false} InducerCalls<L>(nodes: seq<Node<L>>, succeeds: L -> bool, k: nat)
    requires k <= |nodes|
    ensures var f := FirstFailure(nodes, succeeds, k);
            Calls(Trace(nodes, succeeds, k)) == (if f < |nodes| then f + 1 - k else |nodes| - k)
    decreases |nodes| - k
  {
    if k < |nodes| {
      PreludeCalls(k);
      if succeeds(nodes[k].unit) {
        InducerCalls(nodes, succeeds, k + 1);
        var head := Visit(k);
        assert head[..4] == Prelude(k) + [ReadCart(k)];
        assert head[..4][..3] == Prelude(k);
        CallsAppend(head, Trace(nodes, succeeds, k + 1));
      }
    }
  }

  /** A leaf's prelude calls the inducer once. */
  lemma PreludeCalls(k: nat)
    ensures Calls(Prelude(k)) == 1
  {
    var p := Prelude(k);
    assert p[..2] == [DumpFeatures(k), DumpDistances(k)];
    assert p[..2][..1] == [DumpFeatures(k)];
    assert p[..2][..1][..0] == [];
    assert Calls(p[..2][..1]) == 0;
    assert Calls(p[..2]) == 0;
  }

  /** Counting inducer calls distributes over concatenation. */
  lemma {:induction false} CallsAppend(a: seq<LeafStep>, b: seq<LeafStep>)
    ensures Calls(a + b) == Calls(a) + Calls(b)
  {
    if |b| > 0 {
      CallsAppend(a, b[..|b| - 1]);
      assert (a + b)[..|a + b| - 1] == a + b[..|b| - 1];
    } else {
      assert a + b == a;
    }
  }

  /** When leaf f is the first failure, the trace ends with its inducer call: nothing is read or
      replaced for it, and no later leaf is touched. */
  lemma {:induction false} FailureEndsTrace<L>(nodes: seq<Node<L>>, succeeds: L -> bool, k: nat)
    requires k <= |nodes| && FirstFailure(nodes, succeeds, k) < |nodes|
    ensures var t := Trace(nodes, succeeds, k);
            |t| > 0 && t[|t| - 1] == CallInducer(FirstFailure(nodes, succeeds, k)) &&
            forall i :: 0 <= i < |t| ==> t[i].leaf <= FirstFailure(nodes, succeeds, k)
    decreases |nodes| - k
  {
    var t := Trace(nodes, succeeds, k);
    if succeeds(nodes[k].unit) {
      FailureEndsTrace(nodes, succeeds, k + 1);
      var rest := Trace(nodes, succeeds, k + 1);
      assert t == Visit(k) + rest;
      assert t[|t| - 1] == rest[|rest| - 1];
      forall i | 0 <= i < |t| ensures t[i].leaf <= FirstFailure(nodes, succeeds, k) {
        if i >= 5 {
          assert t[i] == rest[i - 5];
        }
      }
    } else {
      assert t == Prelude(k);
    }
  }

  /** Every step of a leaf's visit is about that leaf. */
  lemma VisitLeaf(k: nat)
    ensures |Visit(k)| == 5 && forall i :: 0 <= i < 5 ==> Visit(k)[i].leaf == k
  {
  }

  /** The steps from leaf `k` on are about leaves `k` up to the last one. */
  lemma {:induction false} VisitsInRange<L>(nodes: seq<Node<L>>, succeeds: L -> bool, k: nat)
    ensures forall i :: 0 <= i < |Trace(nodes, succeeds, k)| ==> k <= Trace(nodes, succeeds, k)[i].leaf < |nodes|
    decreases |nodes| - k
  {
    var t := Trace(nodes, succeeds, k);
    if k < |nodes| && succeeds(nodes[k].unit) {
      VisitsInRange(nodes, succeeds, k + 1);
      VisitLeaf(k);
      var rest := Trace(nodes, succeeds, k + 1);
      assert t == Visit(k) + rest;
      forall i | 0 <= i < |t| ensures k <= t[i].leaf < |nodes| {
        if i >= 5 {
          assert t[i] == rest[i - 5];
        } else {
          assert t[i] == Visit(k)[i];
        }
      }
    } else if k < |nodes| {
      assert t == Prelude(k);
    }
  }

  /** The leaves are visited in order: along the trace the leaf index never decreases. */
  lemma {:induction false} VisitsInOrder<L>(nodes: seq<Node<L>>, succeeds: L -> bool, k: nat)
    ensures forall i, j :: 0 <= i < j < |Trace(nodes, succeeds, k)| ==>
              Trace(nodes, succeeds, k)[i].leaf <= Trace(nodes, succeeds, k)[j].leaf
    decreases |nodes| - k
  {
    var t := Trace(nodes, succeeds, k);
    if k < |nodes| && succeeds(nodes[k].unit) {
      VisitsInOrder(nodes, succeeds, k + 1);
      VisitsInRange(nodes, succeeds, k + 1);
      VisitLeaf(k);
      var rest := Trace(nodes, succeeds, k + 1);
      assert t == Visit(k) + rest;
      forall i, j | 0 <= i < j < |t| ensures t[i].leaf <= t[j].leaf {
        if i >= 5 {
          assert t[i] == rest[i - 5] && t[j] == rest[j - 5];
        } else if j >= 5 {
          assert t[i] == Visit(k)[i] && t[j] == rest[j - 5];
        } else {
          assert t[i] == Visit(k)[i] && t[j] == Visit(k)[j];
        }
      }
    } else if k < |nodes| {
      assert t == Prelude(k);
    }
  }

  /** A successful call visits each leaf with the same five steps, one leaf after another. */
  lemma {:induction false} SuccessTrace<L>(nodes: seq<Node<L>>, succeeds: L -> bool, k: nat)
    requires k <= |nodes| && FirstFailure(nodes, succeeds, k) == |nodes|
    ensures var t := Trace(nodes, succeeds, k);
            |t| == 5 * (|nodes| - k) &&
            forall j :: k <= j < |nodes| ==> t[5 * (j - k)..5 * (j - k) + 5] == Visit(j)
    decreases |nodes| - k
  {
    if k < |nodes| {
      SuccessTrace(nodes, succeeds, k + 1);
      var t := Trace(nodes, succeeds, k);
      var rest := Trace(nodes, succeeds, k + 1);
      assert t == Visit(k) + rest;
      assert t[0..5] == Visit(k);
      forall j | k < j < |nodes| ensures t[5 * (j - k)..5 * (j - k) + 5] == Visit(j) {
        assert t[5 * (j - k)..5 * (j - k) + 5] == rest[5 * (j - k - 1)..5 * (j - k - 1) + 5];
      }
    }
  }

  // ---------------------------------------------------------------- compute

  /** The outcome of `compute` as written: the `;` right after `if (!replaceLeaves(...))` ends that
      `if`, and no braces enclose the message and the `return false` after it, so whenever the inducer is
      to be called the method reports failure. */
  function ComputeOutcomeAsWritten(callWagon: bool, replaced: bool): bool {
    if callWagon then false else true
  }

  /** The evidently intended outcome: failure only when the leaves could not be replaced. */
  function ComputeOutcome(callWagon: bool, replaced: bool): bool {
    if callWagon && !replaced then false else true
  }

  /** With the inducer called and every leaf replaced, the code as written still reports failure. */
  lemma StraySemicolon()
    ensures ComputeOutcomeAsWritten(true, true) == false
    ensures ComputeOutcome(true, true) == true
  {
  }

  /** The control of `compute` after the top-level tree is built, as written. */
  method ComputeAsWritten<L>(cart: Cart<L>, callWagon: bool, succeeds: L -> bool) returns (ok: bool)
    modifies cart
    ensures ok == ComputeOutcomeAsWritten(callWagon, FirstFailure(old(cart.nodes), succeeds, 0) == |old(cart.nodes)|)
    ensures callWagon ==> cart.nodes == Refined(old(cart.nodes), FirstFailure(old(cart.nodes), succeeds, 0))
    ensures !callWagon ==> cart.nodes == old(cart.nodes)
  {
    if callWagon {
      var replaced, _ := ReplaceLeaves(cart, succeeds);
      return false;
    }
    return true;
  }

  /** The control of `compute` after the top-level tree is built, with the stray `;` removed and the
      message and the `return false` braced as the body of the `if`. */
  method Compute<L>(cart: Cart<L>, callWagon: bool, succeeds: L -> bool) returns (ok: bool)
    modifies cart
    ensures ok == ComputeOutcome(callWagon, FirstFailure(old(cart.nodes), succeeds, 0) == |old(cart.nodes)|)
    ensures callWagon ==> cart.nodes == Refined(old(cart.nodes), FirstFailure(old(cart.nodes), succeeds, 0))
    ensures !callWagon ==> cart.nodes == old(cart.nodes)
    ensures ok <==> !callWagon || forall i :: 0 <= i < |old(cart.nodes)| ==> succeeds(old(cart.nodes)[i].unit)
  {
    ghost var leaves := cart.nodes;
    SucceedsIffAll(leaves, succeeds);
    if callWagon {
      var replaced, _ := ReplaceLeaves(cart, succeeds);
      if !replaced {
        return false;
      }
    }
    return true;
  }
}
