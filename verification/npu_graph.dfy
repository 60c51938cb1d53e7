/**
 A computation graph in topological order, as `HarmonyNpuCompute` (harmony_npu.cpp) gets it, and what
 the CPU alone computes.
 */
module NpuGraph {

  type Id = nat
  type Value = seq<bv8>

  // What an operator depends on besides its operands.
  datatype Desc = Desc(op: int, kind: int, ne: seq<int>, params: seq<int>)

  // The layout of a tensor that a package reads from outside.
  datatype Layout = Layout(kind: int, ne: seq<int>, nb: seq<int>)

  datatype Tensor = Tensor(
    desc: Desc, layout: Layout, srcs: seq<Id>, elements: nat,
    output: bool,                  // GGML_TENSOR_FLAG_OUTPUT
    host: bool,                    // readable by the host
    weight: bool, data: nat,       // in a weight buffer; the address of the data
    supported: bool,               // the operator can run on the NPU
    large: bool)                   // a matrix product large enough to be worth it

  // The nodes in order, the tensors by id, and the operators.
  datatype Graph = Graph(nodes: seq<Id>, tensors: seq<Tensor>, eval: (Desc, seq<Value>) -> Value) {
    function tensor(x: Id): Tensor {
      if x < |tensors| then tensors[x] else NO_TENSOR
    }
  }

  const NO_TENSOR := Tensor(Desc(0, 0, [], []), Layout(0, [], []), [], 0, false, false, false, 0, false, false)

  function At(g: Graph, i: nat): Tensor
    requires i < |g.nodes|
  {
    g.tensor(g.nodes[i])
  }

  // Each node occurs once and reads only earlier nodes and tensors that are not nodes.
  ghost predicate Topological(g: Graph, size: nat) {
    && (forall i :: 0 <= i < |g.nodes| ==> g.nodes[i] < size)
    && (forall i, j :: 0 <= i < j < |g.nodes| ==> g.nodes[i] != g.nodes[j])
    && (forall i, k :: 0 <= i < |g.nodes| && 0 <= k < |At(g, i).srcs| ==>
          At(g, i).srcs[k] < size && At(g, i).srcs[k] !in g.nodes[i..])
  }

  function Operands(m: seq<Value>, srcs: seq<Id>): (args: seq<Value>)
    requires forall k :: 0 <= k < |srcs| ==> srcs[k] < |m|
  {
    seq(|srcs|, k requires 0 <= k < |srcs| => m[srcs[k]])
  }

  // Node i is computed.
  function Step(g: Graph, m: seq<Value>, i: nat): (m': seq<Value>)
    requires Topological(g, |m|) && i < |g.nodes|
    ensures |m'| == |m|
  {
    m[g.nodes[i] := g.eval(At(g, i).desc, Operands(m, At(g, i).srcs))]
  }

  // Nodes a to b are computed in order.
  function Run(g: Graph, m: seq<Value>, a: nat, b: nat): (m': seq<Value>)
    requires Topological(g, |m|) && a <= b <= |g.nodes|
    ensures |m'| == |m|
    decreases b
  {
    if a == b then m else Step(g, Run(g, m, a, b - 1), b - 1)
  }

  lemma {:induction false} RunSplit(g: Graph, m: seq<Value>, a: nat, b: nat, c: nat)
    requires Topological(g, |m|) && a <= b <= c <= |g.nodes|
    ensures Run(g, m, a, c) == Run(g, Run(g, m, a, b), b, c)
    decreases c
  {
    if b < c {
      RunSplit(g, m, a, b, c - 1);
    }
  }

  // A run changes nothing but its own nodes.
  lemma {:induction false} RunElsewhere(g: Graph, m: seq<Value>, a: nat, b: nat, x: Id)
    requires Topological(g, |m|) && a <= b <= |g.nodes| && x < |m|
    requires forall i :: a <= i < b ==> g.nodes[i] != x
    ensures Run(g, m, a, b)[x] == m[x]
    decreases b
  {
    if a < b {
      RunElsewhere(g, m, a, b - 1, x);
    }
  }

  // Some node from c on reads x.
  ghost predicate ReadFrom(g: Graph, x: Id, c: nat) {
    exists j, k :: c <= j < |g.nodes| && 0 <= k < |At(g, j).srcs| && At(g, j).srcs[k] == x
  }

  // The value of x matters when nodes up to c have been computed: x is not still to be computed, and it
  // is not a node, or an output, or read later.
  ghost predicate Live(g: Graph, x: Id, c: nat) {
    && (forall i :: c <= i < |g.nodes| ==> g.nodes[i] != x)
    && (x !in g.nodes || g.tensor(x).output || ReadFrom(g, x, c))
  }

  // The memories agree on every tensor that matters.
  ghost predicate Agree(g: Graph, m: seq<Value>, ref: seq<Value>, c: nat) {
    |m| == |ref| && forall x :: 0 <= x < |m| && Live(g, x, c) ==> m[x] == ref[x]
  }

  // What a node reads matters before it is computed.
  lemma ReadsLive(g: Graph, size: nat, c: nat, k: nat)
    requires Topological(g, size) && c < |g.nodes| && k < |At(g, c).srcs|
    ensures Live(g, At(g, c).srcs[k], c)
  {
    var x := At(g, c).srcs[k];
    assert x !in g.nodes[c..];
    forall i | c <= i < |g.nodes| ensures g.nodes[i] != x {
      assert g.nodes[c..][i - c] == g.nodes[i];
    }
  }

  lemma LiveBefore(g: Graph, x: Id, c: nat)
    requires c < |g.nodes| && Live(g, x, c + 1) && x != g.nodes[c]
    ensures Live(g, x, c)
  {
    if ReadFrom(g, x, c + 1) {
      var j, k :| c + 1 <= j < |g.nodes| && 0 <= k < |At(g, j).srcs| && At(g, j).srcs[k] == x;
      assert ReadFrom(g, x, c);
    }
  }

  lemma StepAgrees(g: Graph, m: seq<Value>, ref: seq<Value>, c: nat)
    requires Topological(g, |m|) && c < |g.nodes| && Agree(g, m, ref, c)
    ensures Agree(g, Step(g, m, c), Step(g, ref, c), c + 1)
  {
    var srcs := At(g, c).srcs;
    forall k | 0 <= k < |srcs| ensures m[srcs[k]] == ref[srcs[k]] {
      ReadsLive(g, |m|, c, k);
    }
    assert Operands(m, srcs) == Operands(ref, srcs);
    forall x | 0 <= x < |m| && Live(g, x, c + 1) ensures Step(g, m, c)[x] == Step(g, ref, c)[x] {
      if x != g.nodes[c] {
        LiveBefore(g, x, c);
      }
    }
  }

  // Computing the same nodes keeps the agreement.
  lemma {:induction false} RunAgrees(g: Graph, m: seq<Value>, ref: seq<Value>, a: nat, b: nat)
    requires Topological(g, |m|) && a <= b <= |g.nodes| && Agree(g, m, ref, a)
    ensures Agree(g, Run(g, m, a, b), Run(g, ref, a, b), b)
    decreases b
  {
    if a < b {
      RunAgrees(g, m, ref, a, b - 1);
      StepAgrees(g, Run(g, m, a, b - 1), Run(g, ref, a, b - 1), b - 1);
    }
  }

  // A node of the package a to b whose value matters afterwards.
  ghost predicate Required(g: Graph, i: nat, b: nat)
    requires i < |g.nodes|
  {
    At(g, i).output || ReadFrom(g, g.nodes[i], b)
  }

  // Only the nodes in `written` have their computed values; they include all required ones.
  ghost predicate PackageDone(g: Graph, m: seq<Value>, m': seq<Value>, a: nat, b: nat)
    requires Topological(g, |m|) && a <= b <= |g.nodes|
  {
    && |m'| == |m|
    && (forall i :: a <= i < b && Required(g, i, b) ==> m'[g.nodes[i]] == Run(g, m, a, b)[g.nodes[i]])
    && (forall x :: 0 <= x < |m| && (forall i :: a <= i < b ==> g.nodes[i] != x) ==> m'[x] == m[x])
  }

  // Writing only the required values of a package is as good as computing all of it.
  lemma PackageAgrees(g: Graph, m: seq<Value>, m': seq<Value>, ref: seq<Value>, a: nat, b: nat)
    requires Topological(g, |m|) && a <= b <= |g.nodes| && Agree(g, m, ref, a)
    requires PackageDone(g, m, m', a, b)
    ensures Agree(g, m', Run(g, ref, a, b), b)
  {
    RunAgrees(g, m, ref, a, b);
    forall x | 0 <= x < |m| && Live(g, x, b) ensures m'[x] == Run(g, m, a, b)[x] {
      if i :| a <= i < b && g.nodes[i] == x {
        assert Required(g, i, b);
      } else {
        RunElsewhere(g, m, a, b, x);
      }
    }
  }

  // Values of nodes that are still to be computed do not matter.
  lemma ScratchAgrees(g: Graph, m: seq<Value>, m': seq<Value>, ref: seq<Value>, a: nat, b: nat)
    requires Topological(g, |m|) && a <= b <= |g.nodes| && Agree(g, m, ref, a) && |m'| == |m|
    requires forall x :: 0 <= x < |m| && (forall i :: a <= i < b ==> g.nodes[i] != x) ==> m'[x] == m[x]
    ensures Agree(g, m', ref, a)
  {
    forall x | 0 <= x < |m| && Live(g, x, a) ensures m'[x] == ref[x] {
      assert forall i :: a <= i < b ==> g.nodes[i] != x;
    }
  }
}
