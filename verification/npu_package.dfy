/**
 Packages of a graph and their keys (`Describe`, harmony_npu.cpp): a plan is found again by its key
 alone, so the key must determine what the plan computes.
 */
module NpuPackage {

  import opened NpuGraph

  datatype Option<T> = None | Some(value: T)

  // An operand in the key: an earlier node of the package, or the k-th tensor from outside, with the
  // address of its data if it is a weight.
  datatype SrcKey = Local(k: nat) | External(k: nat, layout: Layout, weight: Option<nat>)

  datatype NodeKey = NodeKey(desc: Desc, srcs: seq<SrcKey>)

  datatype Key = Key(nodes: seq<NodeKey>, outputs: seq<nat>)

  datatype Package = Package(nodes: seq<Id>, inputs: seq<Id>, outputs: seq<nat>, key: Key, bytes: nat)

  // ---------- what a plan for a key computes ----------

  function Operand(sk: SrcKey, vals: seq<Value>, ext: seq<Value>): Value {
    match sk
    case Local(k) => if k < |vals| then vals[k] else []
    case External(k, _, _) => if k < |ext| then ext[k] else []
  }

  // The values of the nodes, from the values of the tensors outside.
  function EvalNodes(eval: (Desc, seq<Value>) -> Value, nodes: seq<NodeKey>, ext: seq<Value>): (vals: seq<Value>)
    ensures |vals| == |nodes|
  {
    if nodes == [] then []
    else
      var vals := EvalNodes(eval, nodes[..|nodes| - 1], ext);
      var last := nodes[|nodes| - 1];
      vals + [eval(last.desc, seq(|last.srcs|, s requires 0 <= s < |last.srcs| => Operand(last.srcs[s], vals, ext)))]
  }

  // The tensors outside in the order in which they are first met; weights carry their address.
  function MoreExternals(acc: seq<Option<nat>>, srcs: seq<SrcKey>): (r: seq<Option<nat>>)
    decreases |srcs|
  {
    if srcs == [] then acc
    else
      var before := MoreExternals(acc, srcs[..|srcs| - 1]);
      var last := srcs[|srcs| - 1];
      if last.External? && last.k == |before| then before + [last.weight] else before
  }

  function Externals(nodes: seq<NodeKey>): (r: seq<Option<nat>>) {
    if nodes == [] then []
    else MoreExternals(Externals(nodes[..|nodes| - 1]), nodes[|nodes| - 1].srcs)
  }

  // Operands from outside are numbered in the order in which they are first met.
  predicate SrcsOrdered(acc: seq<Option<nat>>, srcs: seq<SrcKey>)
    decreases |srcs|
  {
    srcs == [] ||
    (SrcsOrdered(acc, srcs[..|srcs| - 1])
     && SrcOrdered(srcs[|srcs| - 1], |MoreExternals(acc, srcs[..|srcs| - 1])|))
  }

  // The operand is local, was met before as one of n, or is met next.
  predicate SrcOrdered(sk: SrcKey, n: nat) {
    sk.External? ==> sk.k <= n
  }

  predicate NodesOrdered(nodes: seq<NodeKey>) {
    nodes == [] ||
    (NodesOrdered(nodes[..|nodes| - 1]) && SrcsOrdered(Externals(nodes[..|nodes| - 1]), nodes[|nodes| - 1].srcs))
  }

  // Weights are constants of the plan; the other tensors outside are its inputs, in order.
  function FillExternals(externals: seq<Option<nat>>, inputs: seq<Value>, weightAt: nat -> Value): (ext: seq<Value>)
    ensures |ext| == |externals|
  {
    if externals == [] then []
    else if externals[0].Some? then
      [weightAt(externals[0].value)] + FillExternals(externals[1..], inputs, weightAt)
    else if inputs == [] then
      [[]] + FillExternals(externals[1..], [], weightAt)
    else
      [inputs[0]] + FillExternals(externals[1..], inputs[1..], weightAt)
  }

  // All node values a plan for the key computes from its inputs: nothing else goes in.
  function PlanValues(eval: (Desc, seq<Value>) -> Value, weightAt: nat -> Value, key: Key, inputs: seq<Value>): (vals: seq<Value>)
    ensures |vals| == |key.nodes|
  {
    EvalNodes(eval, key.nodes, FillExternals(Externals(key.nodes), inputs, weightAt))
  }

  // ---------- what Describe writes down ----------

  function WeightKey(t: Tensor): Option<nat> {
    if t.weight then Some(t.data) else None
  }

  function WeightKeys(g: Graph, ext: seq<Id>): (r: seq<Option<nat>>) {
    seq(|ext|, k requires 0 <= k < |ext| => WeightKey(g.tensor(ext[k])))
  }

  // The tensors outside that are not weights.
  function Inputs(g: Graph, ext: seq<Id>): (r: seq<Id>) {
    if ext == [] then []
    else Inputs(g, ext[..|ext| - 1]) + (if g.tensor(ext[|ext| - 1]).weight then [] else [ext[|ext| - 1]])
  }

  // Operand src of a node behind `done` nodes of the package, given the tensors met outside.
  predicate SrcMatches(g: Graph, begin: nat, done: nat, ext: seq<Id>, sk: SrcKey, src: Id) {
    match sk
    case Local(k) => k <= done && begin + k < |g.nodes| && g.nodes[begin + k] == src
    case External(k, layout, weight) =>
      k < |ext| && ext[k] == src && layout == g.tensor(src).layout && weight == WeightKey(g.tensor(src))
  }

  ghost predicate SrcsMatch(g: Graph, begin: nat, done: nat, ext: seq<Id>, sks: seq<SrcKey>, srcs: seq<Id>) {
    |sks| == |srcs| && forall s :: 0 <= s < |srcs| ==> SrcMatches(g, begin, done, ext, sks[s], srcs[s])
  }

  ghost predicate NodeMatches(g: Graph, begin: nat, done: nat, ext: seq<Id>, nk: NodeKey)
    requires begin + done < |g.nodes|
  {
    nk.desc == At(g, begin + done).desc && SrcsMatch(g, begin, done, ext, nk.srcs, At(g, begin + done).srcs)
  }

  ghost predicate NodesMatch(g: Graph, begin: nat, ext: seq<Id>, nks: seq<NodeKey>)
    requires begin + |nks| <= |g.nodes|
  {
    forall k :: 0 <= k < |nks| ==> NodeMatches(g, begin, k, ext, nks[k])
  }

  predicate DistinctIds(ext: seq<Id>) {
    forall i, j :: 0 <= i < j < |ext| ==> ext[i] != ext[j]
  }

  // The tensors met outside: each once, all readable, none a node from begin on.
  ghost predicate ExternalsOk(g: Graph, begin: nat, ext: seq<Id>, size: nat) {
    DistinctIds(ext) && forall k :: 0 <= k < |ext| ==> IsExternal(g, begin, ext[k], size)
  }

  ghost predicate IsExternal(g: Graph, begin: nat, x: Id, size: nat) {
    x < size && g.tensor(x).host && begin <= |g.nodes| && x !in g.nodes[begin..]
  }

  // Which nodes of the package must come back: outputs, those read later, and the last one.
  ghost predicate OutputsOk(g: Graph, begin: nat, end: nat, outputs: seq<nat>)
    requires begin <= end <= |g.nodes|
  {
    && Increasing(outputs)
    && (forall k: nat :: k in outputs <==> k < end - begin && (Required(g, begin + k, end) || k + 1 == end - begin))
  }

  function Bytes(g: Graph, nodes: seq<Id>, ext: seq<Id>): nat {
    32 * Elements(g, nodes) + 8 * Elements(g, ext)
  }

  function Elements(g: Graph, ids: seq<Id>): nat {
    if ids == [] then 0 else Elements(g, ids[..|ids| - 1]) + g.tensor(ids[|ids| - 1]).elements
  }

  ghost predicate Describes(g: Graph, size: nat, begin: nat, end: nat, p: Package, ext: seq<Id>)
    requires begin <= end <= |g.nodes|
  {
    && p.nodes == g.nodes[begin..end] && |p.key.nodes| == end - begin
    && NodesMatch(g, begin, ext, p.key.nodes) && ExternalsOk(g, begin, ext, size)
    && NodesOrdered(p.key.nodes) && Externals(p.key.nodes) == WeightKeys(g, ext) && p.inputs == Inputs(g, ext)
    && p.outputs == p.key.outputs && OutputsOk(g, begin, end, p.outputs)
    && p.bytes == Bytes(g, p.nodes, ext)
  }

  // ---------- the key determines the plan ----------

  // Matching survives when more tensors are met.
  lemma MatchesMore(g: Graph, begin: nat, ext: seq<Id>, more: seq<Id>, nks: seq<NodeKey>)
    requires begin + |nks| <= |g.nodes| && NodesMatch(g, begin, ext, nks)
    ensures NodesMatch(g, begin, ext + more, nks)
  {
    forall k | 0 <= k < |nks| ensures NodeMatches(g, begin, k, ext + more, nks[k]) {
      assert NodeMatches(g, begin, k, ext, nks[k]);
      SrcsMore(g, begin, k, ext, more, nks[k].srcs, At(g, begin + k).srcs);
    }
  }

  lemma SrcsMore(g: Graph, begin: nat, done: nat, ext: seq<Id>, more: seq<Id>, sks: seq<SrcKey>, srcs: seq<Id>)
    requires SrcsMatch(g, begin, done, ext, sks, srcs)
    ensures SrcsMatch(g, begin, done, ext + more, sks, srcs)
  {
    forall s | 0 <= s < |srcs| ensures SrcMatches(g, begin, done, ext + more, sks[s], srcs[s]) {
      assert SrcMatches(g, begin, done, ext, sks[s], srcs[s]);
    }
  }

  lemma {:induction false} InputsConcat(g: Graph, x: seq<Id>, y: seq<Id>)
    ensures Inputs(g, x + y) == Inputs(g, x) + Inputs(g, y)
    decreases |y|
  {
    if y == [] {
      assert x + y == x;
    } else {
      var m := |y| - 1;
      assert (x + y)[..|x + y| - 1] == x + y[..m];
      InputsConcat(g, x, y[..m]);
    }
  }

  // The inputs and the weights together give every tensor outside its value.
  lemma {:induction false} ExternalValues(g: Graph, m: seq<Value>, ext: seq<Id>, weightAt: nat -> Value)
    requires forall k :: 0 <= k < |ext| ==> ext[k] < |m|
    requires forall k :: 0 <= k < |ext| && g.tensor(ext[k]).weight ==> m[ext[k]] == weightAt(g.tensor(ext[k]).data)
    ensures forall k :: 0 <= k < |Inputs(g, ext)| ==> Inputs(g, ext)[k] < |m|
    ensures FillExternals(WeightKeys(g, ext), Operands(m, Inputs(g, ext)), weightAt) == Operands(m, ext)
    decreases |ext|
  {
    if ext != [] {
      var x, rest := ext[0], ext[1..];
      assert ext == [x] + rest;
      InputsConcat(g, [x], rest);
      InputsOne(g, x);
      ExternalValues(g, m, rest, weightAt);
      WeightKeysRest(g, x, rest);
      OperandsRest(m, [x] + rest);
      if g.tensor(x).weight {
        assert Inputs(g, ext) == Inputs(g, rest);
        FillRest(WeightKey(g.tensor(x)), WeightKeys(g, rest), Operands(m, Inputs(g, rest)), weightAt);
      } else {
        OperandsRest(m, [x] + Inputs(g, rest));
        FillRest(WeightKey(g.tensor(x)), WeightKeys(g, rest), Operands(m, [x] + Inputs(g, rest)), weightAt);
      }
    }
  }

  lemma WeightKeysRest(g: Graph, x: Id, rest: seq<Id>)
    ensures WeightKeys(g, [x] + rest) == [WeightKey(g.tensor(x))] + WeightKeys(g, rest)
  {
  }

  lemma FillRest(e: Option<nat>, rest: seq<Option<nat>>, inputs: seq<Value>, weightAt: nat -> Value)
    ensures e.Some? ==>
      FillExternals([e] + rest, inputs, weightAt) == [weightAt(e.value)] + FillExternals(rest, inputs, weightAt)
    ensures e.None? && inputs != [] ==>
      FillExternals([e] + rest, inputs, weightAt) == [inputs[0]] + FillExternals(rest, inputs[1..], weightAt)
  {
    assert ([e] + rest)[1..] == rest;
  }

  lemma InputsOne(g: Graph, x: Id)
    ensures Inputs(g, [x]) == if g.tensor(x).weight then [] else [x]
  {
    assert Inputs(g, [x][..0]) == [];
  }

  lemma OperandsRest(m: seq<Value>, ids: seq<Id>)
    requires ids != [] && ids[0] < |m| && forall k :: 0 <= k < |ids[1..]| ==> ids[1..][k] < |m|
    ensures forall k :: 0 <= k < |ids| ==> ids[k] < |m|
    ensures Operands(m, ids) == [m[ids[0]]] + Operands(m, ids[1..])
  {
    forall k | 0 <= k < |ids| ensures ids[k] < |m| {
      assert k > 0 ==> ids[k] == ids[1..][k - 1];
    }
  }

  // Node by node, the values from the key are those the CPU computes.
  lemma {:induction false} NodesCompute(g: Graph, m: seq<Value>, begin: nat, ext: seq<Id>, nks: seq<NodeKey>)
    requires Topological(g, |m|) && begin + |nks| <= |g.nodes|
    requires NodesMatch(g, begin, ext, nks) && ExternalsOk(g, begin, ext, |m|)
    ensures forall k :: 0 <= k < |nks| ==>
      EvalNodes(g.eval, nks, Operands(m, ext))[k] == Run(g, m, begin, begin + |nks|)[g.nodes[begin + k]]
    decreases |nks|
  {
    if nks != [] {
      var d := |nks| - 1;
      var before := nks[..d];
      forall k | 0 <= k < d ensures NodeMatches(g, begin, k, ext, before[k]) {
        assert NodeMatches(g, begin, k, ext, nks[k]);
      }
      NodesCompute(g, m, begin, ext, before);
      assert NodeMatches(g, begin, d, ext, nks[d]);
      OperandsMatch(g, m, begin, ext, before, nks[d]);
    }
  }

  lemma OperandsMatch(g: Graph, m: seq<Value>, begin: nat, ext: seq<Id>, before: seq<NodeKey>, nk: NodeKey)
    requires Topological(g, |m|) && begin + |before| < |g.nodes| && ExternalsOk(g, begin, ext, |m|)
    requires NodeMatches(g, begin, |before|, ext, nk)
    requires forall k :: 0 <= k < |before| ==>
      EvalNodes(g.eval, before, Operands(m, ext))[k] == Run(g, m, begin, begin + |before|)[g.nodes[begin + k]]
    ensures var vals := EvalNodes(g.eval, before, Operands(m, ext));
      seq(|nk.srcs|, s requires 0 <= s < |nk.srcs| => Operand(nk.srcs[s], vals, Operands(m, ext)))
        == Operands(Run(g, m, begin, begin + |before|), At(g, begin + |before|).srcs)
  {
    var d := |before|;
    var vals := EvalNodes(g.eval, before, Operands(m, ext));
    var srcs := At(g, begin + d).srcs;
    forall s | 0 <= s < |srcs|
      ensures Operand(nk.srcs[s], vals, Operands(m, ext)) == Run(g, m, begin, begin + d)[srcs[s]]
    {
      assert SrcMatches(g, begin, d, ext, nk.srcs[s], srcs[s]);
      if nk.srcs[s].Local? {
        LocalOperand(g, |m|, begin, d, s, nk.srcs[s].k);
      } else {
        ExternalOperand(g, m, begin, d, ext, nk.srcs[s].k);
      }
    }
  }

  lemma LocalOperand(g: Graph, size: nat, begin: nat, d: nat, s: nat, k: nat)
    requires Topological(g, size) && begin + d < |g.nodes| && s < |At(g, begin + d).srcs|
    requires k <= d && g.nodes[begin + k] == At(g, begin + d).srcs[s]
    ensures k < d
  {
    assert At(g, begin + d).srcs[s] !in g.nodes[begin + d..];
    assert g.nodes[begin + d..][0] == g.nodes[begin + d];
  }

  lemma ExternalOperand(g: Graph, m: seq<Value>, begin: nat, d: nat, ext: seq<Id>, k: nat)
    requires Topological(g, |m|) && begin + d < |g.nodes| && ExternalsOk(g, begin, ext, |m|) && k < |ext|
    ensures Run(g, m, begin, begin + d)[ext[k]] == m[ext[k]]
  {
    assert IsExternal(g, begin, ext[k], |m|);
    forall i | begin <= i < begin + d ensures g.nodes[i] != ext[k] {
      assert g.nodes[begin..][i - begin] == g.nodes[i];
    }
    RunElsewhere(g, m, begin, begin + d, ext[k]);
  }

  // A plan found by the key of a package computes that package, whichever package it was built for.
  lemma KeyDeterminesValues(g: Graph, m: seq<Value>, begin: nat, end: nat, p: Package, ext: seq<Id>, weightAt: nat -> Value)
    requires Topological(g, |m|) && begin <= end <= |g.nodes| && Describes(g, |m|, begin, end, p, ext)
    requires forall k :: 0 <= k < |ext| && g.tensor(ext[k]).weight ==> m[ext[k]] == weightAt(g.tensor(ext[k]).data)
    ensures forall k :: 0 <= k < |p.inputs| ==> p.inputs[k] < |m|
    ensures forall k :: 0 <= k < end - begin ==>
      PlanValues(g.eval, weightAt, p.key, Operands(m, p.inputs))[k] == Run(g, m, begin, end)[g.nodes[begin + k]]
  {
    ExternalValues(g, m, ext, weightAt);
    NodesCompute(g, m, begin, ext, p.key.nodes);
  }

  // ---------- a package has one description ----------

  // The first c tensors met outside are the same.
  predicate AgreeTo(ext: seq<Id>, other: seq<Id>, c: nat) {
    c <= |ext| && c <= |other| && ext[..c] == other[..c]
  }

  lemma LocalInside(g: Graph, begin: nat, k: nat, x: Id)
    requires begin + k < |g.nodes| && g.nodes[begin + k] == x
    ensures x in g.nodes[begin..]
  {
    assert g.nodes[begin..][k] == x;
  }

  // An operand that is local in one description is not from outside in another.
  lemma LocalIsLocal(g: Graph, size: nat, begin: nat, done: nat, x: Id, ext: seq<Id>, sk: SrcKey)
    requires ExternalsOk(g, begin, ext, size) && SrcMatches(g, begin, done, ext, sk, x)
    ensures begin <= |g.nodes| ==> (sk.Local? <==> x in g.nodes[begin..])
  {
    match sk
    case Local(k) => LocalInside(g, begin, k, x);
    case External(k, _, _) => assert IsExternal(g, begin, ext[k], size);
  }

  lemma AgreeAt(ext: seq<Id>, other: seq<Id>, c: nat, k: nat)
    requires AgreeTo(ext, other, c) && k < c
    ensures ext[k] == other[k]
  {
    assert ext[..c][k] == other[..c][k];
  }

  lemma SameExternal(ext: seq<Id>, other: seq<Id>, c: nat, k: nat, l: nat)
    requires DistinctIds(ext) && DistinctIds(other) && AgreeTo(ext, other, c)
    requires k < |ext| && l < |other| && ext[k] == other[l] && k <= c && l <= c
    ensures k == l && (k == c ==> AgreeTo(ext, other, c + 1))
  {
    if k < c { AgreeAt(ext, other, c, k); }
    if l < c { AgreeAt(ext, other, c, l); }
    if k == c && l == c {
      assert ext[..c + 1] == ext[..c] + [ext[c]] && other[..c + 1] == other[..c] + [other[c]];
    }
  }

  lemma SameSrc(g: Graph, size: nat, begin: nat, done: nat, x: Id, ext: seq<Id>, sk: SrcKey,
                other: seq<Id>, tk: SrcKey, c: nat)
    requires Topological(g, size) && begin <= |g.nodes|
    requires ExternalsOk(g, begin, ext, size) && SrcMatches(g, begin, done, ext, sk, x) && SrcOrdered(sk, c)
    requires ExternalsOk(g, begin, other, size) && SrcMatches(g, begin, done, other, tk, x) && SrcOrdered(tk, c)
    requires AgreeTo(ext, other, c)
    ensures sk == tk && (sk.External? && sk.k == c ==> AgreeTo(ext, other, c + 1))
  {
    LocalIsLocal(g, size, begin, done, x, ext, sk);
    LocalIsLocal(g, size, begin, done, x, other, tk);
    if sk.External? {
      SameExternal(ext, other, c, sk.k, tk.k);
    }
  }

  lemma {:induction false} SameSrcs(g: Graph, size: nat, begin: nat, done: nat, srcs: seq<Id>, acc: seq<Option<nat>>,
                                    ext: seq<Id>, sks: seq<SrcKey>, other: seq<Id>, tks: seq<SrcKey>)
    requires Topological(g, size) && begin <= |g.nodes| && AgreeTo(ext, other, |acc|)
    requires ExternalsOk(g, begin, ext, size) && SrcsMatch(g, begin, done, ext, sks, srcs) && SrcsOrdered(acc, sks)
    requires ExternalsOk(g, begin, other, size) && SrcsMatch(g, begin, done, other, tks, srcs) && SrcsOrdered(acc, tks)
    ensures sks == tks && AgreeTo(ext, other, |MoreExternals(acc, sks)|)
    decreases |srcs|
  {
    if srcs != [] {
      var d := |srcs| - 1;
      SrcsMatchFirst(g, begin, done, ext, sks, srcs);
      SrcsMatchFirst(g, begin, done, other, tks, srcs);
      SameSrcs(g, size, begin, done, srcs[..d], acc, ext, sks[..d], other, tks[..d]);
      SameSrc(g, size, begin, done, srcs[d], ext, sks[d], other, tks[d], |MoreExternals(acc, sks[..d])|);
      SameBuilt(sks, tks);
    }
  }

  lemma SrcsMatchFirst(g: Graph, begin: nat, done: nat, ext: seq<Id>, sks: seq<SrcKey>, srcs: seq<Id>)
    requires srcs != [] && SrcsMatch(g, begin, done, ext, sks, srcs)
    ensures |sks| == |srcs| && SrcMatches(g, begin, done, ext, sks[|srcs| - 1], srcs[|srcs| - 1])
    ensures SrcsMatch(g, begin, done, ext, sks[..|srcs| - 1], srcs[..|srcs| - 1])
  {
    var keys, ids := sks[..|srcs| - 1], srcs[..|srcs| - 1];
    forall s | 0 <= s < |ids| ensures SrcMatches(g, begin, done, ext, keys[s], ids[s]) {
      assert SrcMatches(g, begin, done, ext, sks[s], srcs[s]);
    }
  }

  lemma NodesMatchFirst(g: Graph, begin: nat, ext: seq<Id>, nks: seq<NodeKey>)
    requires begin + |nks| <= |g.nodes| && nks != [] && NodesMatch(g, begin, ext, nks)
    ensures NodesMatch(g, begin, ext, nks[..|nks| - 1]) && NodeMatches(g, begin, |nks| - 1, ext, nks[|nks| - 1])
  {
    var before := nks[..|nks| - 1];
    forall k | 0 <= k < |before| ensures NodeMatches(g, begin, k, ext, before[k]) {
      assert NodeMatches(g, begin, k, ext, nks[k]);
    }
  }

  lemma SameNode(g: Graph, size: nat, begin: nat, done: nat, acc: seq<Option<nat>>,
                 ext: seq<Id>, nk: NodeKey, other: seq<Id>, mk: NodeKey)
    requires Topological(g, size) && begin + done < |g.nodes| && AgreeTo(ext, other, |acc|)
    requires ExternalsOk(g, begin, ext, size) && NodeMatches(g, begin, done, ext, nk) && SrcsOrdered(acc, nk.srcs)
    requires ExternalsOk(g, begin, other, size) && NodeMatches(g, begin, done, other, mk) && SrcsOrdered(acc, mk.srcs)
    ensures nk == mk && AgreeTo(ext, other, |MoreExternals(acc, nk.srcs)|)
  {
    SameSrcs(g, size, begin, done, At(g, begin + done).srcs, acc, ext, nk.srcs, other, mk.srcs);
  }

  lemma {:induction false} SameNodes(g: Graph, size: nat, begin: nat, ext: seq<Id>, nks: seq<NodeKey>,
                                     other: seq<Id>, mks: seq<NodeKey>)
    requires Topological(g, size) && begin + |nks| <= |g.nodes| && |nks| == |mks|
    requires ExternalsOk(g, begin, ext, size) && NodesMatch(g, begin, ext, nks) && NodesOrdered(nks)
    requires ExternalsOk(g, begin, other, size) && NodesMatch(g, begin, other, mks) && NodesOrdered(mks)
    ensures nks == mks && AgreeTo(ext, other, |Externals(nks)|)
    decreases |nks|
  {
    if nks != [] {
      var d := |nks| - 1;
      NodesMatchFirst(g, begin, ext, nks);
      NodesMatchFirst(g, begin, other, mks);
      SameNodes(g, size, begin, ext, nks[..d], other, mks[..d]);
      SameNode(g, size, begin, d, Externals(nks[..d]), ext, nks[d], other, mks[d]);
      SameBuilt(nks, mks);
    }
  }

  lemma SameBuilt<T>(xs: seq<T>, ys: seq<T>)
    requires xs != [] && |xs| == |ys| && xs[..|xs| - 1] == ys[..|ys| - 1] && xs[|xs| - 1] == ys[|ys| - 1]
    ensures xs == ys
  {
    assert xs == xs[..|xs| - 1] + [xs[|xs| - 1]] && ys == ys[..|ys| - 1] + [ys[|ys| - 1]];
  }

  predicate Increasing(xs: seq<nat>) {
    forall a, b :: 0 <= a < b < |xs| ==> xs[a] < xs[b]
  }

  ghost predicate SameMembers(xs: seq<nat>, ys: seq<nat>) {
    forall x: nat :: x in xs <==> x in ys
  }

  lemma HeadIsMember(xs: seq<nat>)
    ensures xs != [] ==> xs[0] in xs
  {}

  lemma {:induction false} IncreasingSame(xs: seq<nat>, ys: seq<nat>)
    requires Increasing(xs) && Increasing(ys) && SameMembers(xs, ys)
    ensures xs == ys
    decreases |xs|
  {
    HeadIsMember(xs);
    HeadIsMember(ys);
    if xs != [] {
      FirstsAgree(xs, ys);
      RestsAgree(xs, ys);
      IncreasingSame(xs[1..], ys[1..]);
      assert xs == [xs[0]] + xs[1..] && ys == [ys[0]] + ys[1..];
    }
  }

  lemma RestsAgree(xs: seq<nat>, ys: seq<nat>)
    requires xs != [] && ys != [] && xs[0] == ys[0] && Increasing(xs) && Increasing(ys) && SameMembers(xs, ys)
    ensures SameMembers(xs[1..], ys[1..])
  {
    var xr, yr := xs[1..], ys[1..];
    forall x: nat ensures x in xr <==> x in yr {
      RestHolds(xs, x);
      RestHolds(ys, x);
    }
  }

  lemma FirstsAgree(xs: seq<nat>, ys: seq<nat>)
    requires xs != [] && Increasing(xs) && Increasing(ys) && SameMembers(xs, ys)
    ensures ys != [] && xs[0] == ys[0]
  {
    assert xs[0] in xs;
    var k: nat :| k < |ys| && ys[k] == xs[0];
    assert ys[0] in ys;
    var j: nat :| j < |xs| && xs[j] == ys[0];
  }

  lemma RestHolds(xs: seq<nat>, x: nat)
    requires xs != [] && Increasing(xs)
    ensures x in xs[1..] <==> x in xs && x != xs[0]
  {
    if x in xs[1..] {
      var k: nat :| k < |xs| - 1 && xs[1..][k] == x;
      assert xs[k + 1] == x;
    }
    if x in xs && x != xs[0] {
      var k: nat :| k < |xs| && xs[k] == x;
      assert xs[1..][k - 1] == x;
    }
  }

  // A package has one description: the same package is found again by the same key.
  lemma OneDescription(g: Graph, size: nat, begin: nat, end: nat, p: Package, ext: seq<Id>, q: Package, other: seq<Id>)
    requires Topological(g, size) && begin <= end <= |g.nodes|
    requires Describes(g, size, begin, end, p, ext) && Describes(g, size, begin, end, q, other)
    ensures p == q && ext == other
  {
    SameNodes(g, size, begin, ext, p.key.nodes, other, q.key.nodes);
    assert |WeightKeys(g, ext)| == |ext| && |WeightKeys(g, other)| == |other|;
    assert ext == ext[..|ext|] == other[..|ext|] == other;
    IncreasingSame(p.outputs, q.outputs);
  }

  // ---------- Describe ----------

  // The map gives every id of the list its position.
  predicate Indexed(index: map<Id, nat>, ids: seq<Id>) {
    && |index| == |ids|
    && (forall k :: 0 <= k < |ids| ==> ids[k] in index && index[ids[k]] == k)
    && (forall x :: x in index ==> index[x] < |ids| && ids[index[x]] == x)
  }

  lemma IndexedMore(index: map<Id, nat>, ids: seq<Id>, x: Id)
    requires Indexed(index, ids) && x !in index
    ensures Indexed(index[x := |ids|], ids + [x])
  {
  }

  lemma IndexedDistinct(index: map<Id, nat>, ids: seq<Id>)
    requires Indexed(index, ids)
    ensures DistinctIds(ids) && forall x :: x in ids <==> x in index
  {
  }

  // What the loops keep about the tensors met outside.
  datatype Outside = Outside(index: map<Id, nat>, inputs: seq<Id>, bytes: nat)

  ghost predicate OutsideOk(g: Graph, size: nat, begin: nat, nodes: seq<Id>, o: Outside, ext: seq<Id>) {
    && Indexed(o.index, ext) && ExternalsOk(g, begin, ext, size)
    && o.inputs == Inputs(g, ext) && o.bytes == Bytes(g, nodes, ext)
  }

  // A tensor that is met outside for the first time.
  function AddOutside(g: Graph, o: Outside, x: Id): Outside {
    Outside(o.index[x := |o.index|], if g.tensor(x).weight then o.inputs else o.inputs + [x],
            o.bytes + g.tensor(x).elements * 4 * 2)
  }

  lemma OutsideMore(g: Graph, size: nat, begin: nat, nodes: seq<Id>, o: Outside, ext: seq<Id>, x: Id)
    requires OutsideOk(g, size, begin, nodes, o, ext) && x !in o.index && IsExternal(g, begin, x, size)
    ensures OutsideOk(g, size, begin, nodes, AddOutside(g, o, x), ext + [x])
  {
    IndexedMore(o.index, ext, x);
    IndexedDistinct(o.index[x := |ext|], ext + [x]);
    assert (ext + [x])[..|ext|] == ext;
  }

  lemma WeightKeysMore(g: Graph, ext: seq<Id>, x: Id)
    ensures WeightKeys(g, ext + [x]) == WeightKeys(g, ext) + [WeightKey(g.tensor(x))]
  {
  }

  // Operand k of node i cannot be read: it is neither in the package nor in host memory.
  predicate Unreadable(g: Graph, begin: nat, i: nat, k: nat)
    requires begin <= i < |g.nodes| && k < |At(g, i).srcs|
  {
    At(g, i).srcs[k] !in g.nodes[begin..i + 1] && !g.tensor(At(g, i).srcs[k]).host
  }

  lemma NotAhead(g: Graph, size: nat, begin: nat, i: nat, k: nat)
    requires Topological(g, size) && begin <= i < |g.nodes| && k < |At(g, i).srcs|
    requires At(g, i).srcs[k] !in g.nodes[begin..i + 1]
    ensures At(g, i).srcs[k] < size && At(g, i).srcs[k] !in g.nodes[begin..]
  {
    assert g.nodes[begin..] == g.nodes[begin..i + 1] + g.nodes[i + 1..];
    assert g.nodes[i..] == [g.nodes[i]] + g.nodes[i + 1..];
  }

  // The key of one operand, the tensors met before and after it.
  ghost predicate SrcDescribed(g: Graph, begin: nat, done: nat, src: Id, sk: SrcKey, ext: seq<Id>, ext': seq<Id>) {
    && SrcMatches(g, begin, done, ext', sk, src) && SrcOrdered(sk, |ext|) && ext <= ext'
    && WeightKeys(g, ext') == if sk.External? && sk.k == |ext| then WeightKeys(g, ext) + [sk.weight] else WeightKeys(g, ext)
  }

  lemma LocalDescribed(g: Graph, begin: nat, i: nat, local: map<Id, nat>, src: Id, ext: seq<Id>)
    requires begin <= i < |g.nodes| && Indexed(local, g.nodes[begin..i + 1]) && src in local
    ensures SrcDescribed(g, begin, i - begin, src, Local(local[src]), ext, ext)
  {
    assert g.nodes[begin..i + 1][local[src]] == g.nodes[begin + local[src]];
  }

  lemma ExternalDescribed(g: Graph, size: nat, begin: nat, done: nat, nodes: seq<Id>, o: Outside, ext: seq<Id>, x: Id)
    requires OutsideOk(g, size, begin, nodes, o, ext) && IsExternal(g, begin, x, size)
    ensures x in o.index ==>
      SrcDescribed(g, begin, done, x, External(o.index[x], g.tensor(x).layout, WeightKey(g.tensor(x))), ext, ext)
    ensures x !in o.index ==>
      SrcDescribed(g, begin, done, x, External(|o.index|, g.tensor(x).layout, WeightKey(g.tensor(x))), ext, ext + [x])
  {
    WeightKeysMore(g, ext, x);
  }

  // One operand.
  method DescribeSrc(g: Graph, begin: nat, i: nat, k: nat, local: map<Id, nat>, o: Outside, ghost size: nat,
                     ghost nodes: seq<Id>, ghost ext: seq<Id>)
    returns (sk: Option<SrcKey>, o': Outside, ghost ext': seq<Id>)
    requires Topological(g, size) && begin <= i < |g.nodes| && k < |At(g, i).srcs|
    requires Indexed(local, g.nodes[begin..i + 1]) && OutsideOk(g, size, begin, nodes, o, ext)
    ensures sk.None? <==> Unreadable(g, begin, i, k)
    ensures OutsideOk(g, size, begin, nodes, o', ext')
    ensures sk.Some? ==> SrcDescribed(g, begin, i - begin, At(g, i).srcs[k], sk.value, ext, ext')
  {
    var src := At(g, i).srcs[k];
    IndexedDistinct(local, g.nodes[begin..i + 1]);
    o', ext' := o, ext;
    if src in local {
      LocalDescribed(g, begin, i, local, src, ext);
      return Some(Local(local[src])), o, ext;
    }
    if !g.tensor(src).host {
      return None, o, ext;
    }
    NotAhead(g, size, begin, i, k);
    ExternalDescribed(g, size, begin, i - begin, nodes, o, ext, src);
    if src !in o.index {
      OutsideMore(g, size, begin, nodes, o, ext, src);
      o', ext' := AddOutside(g, o, src), ext + [src];
    }
    sk := Some(External(o'.index[src], g.tensor(src).layout, WeightKey(g.tensor(src))));
  }

  // The keys of the first operands of a node.
  ghost predicate SrcsDescribed(g: Graph, begin: nat, i: nat, sks: seq<SrcKey>, nks: seq<NodeKey>, ext: seq<Id>)
    requires begin <= i < |g.nodes|
  {
    && |sks| <= |At(g, i).srcs| && SrcsMatch(g, begin, i - begin, ext, sks, At(g, i).srcs[..|sks|])
    && MoreExternals(Externals(nks), sks) == WeightKeys(g, ext) && SrcsOrdered(Externals(nks), sks)
  }

  lemma SrcsMatchMore(g: Graph, begin: nat, done: nat, ext: seq<Id>, ext': seq<Id>, sks: seq<SrcKey>, sk: SrcKey, srcs: seq<Id>)
    requires |sks| < |srcs| && SrcsMatch(g, begin, done, ext, sks, srcs[..|sks|]) && ext <= ext'
    requires SrcMatches(g, begin, done, ext', sk, srcs[|sks|])
    ensures SrcsMatch(g, begin, done, ext', sks + [sk], srcs[..|sks| + 1])
  {
    assert ext' == ext + ext'[|ext|..];
    SrcsMore(g, begin, done, ext, ext'[|ext|..], sks, srcs[..|sks|]);
    forall s | 0 <= s < |sks| + 1 ensures SrcMatches(g, begin, done, ext', (sks + [sk])[s], srcs[..|sks| + 1][s]) {
      assert s < |sks| ==> SrcMatches(g, begin, done, ext', sks[s], srcs[..|sks|][s]);
    }
  }

  lemma SrcsDescribedMore(g: Graph, begin: nat, i: nat, sks: seq<SrcKey>, nks: seq<NodeKey>, sk: SrcKey,
                          ext: seq<Id>, ext': seq<Id>)
    requires begin <= i < |g.nodes| && SrcsDescribed(g, begin, i, sks, nks, ext) && |sks| < |At(g, i).srcs|
    requires SrcDescribed(g, begin, i - begin, At(g, i).srcs[|sks|], sk, ext, ext')
    ensures SrcsDescribed(g, begin, i, sks + [sk], nks, ext')
  {
    SrcsMatchMore(g, begin, i - begin, ext, ext', sks, sk, At(g, i).srcs);
    assert (sks + [sk])[..|sks|] == sks;
    assert |WeightKeys(g, ext)| == |ext|;
  }

  lemma MatchedReadable(g: Graph, size: nat, begin: nat, i: nat, sks: seq<SrcKey>, ext: seq<Id>, k: nat)
    requires begin <= i < |g.nodes| && k < |sks| == |At(g, i).srcs| && ExternalsOk(g, begin, ext, size)
    requires SrcsMatch(g, begin, i - begin, ext, sks, At(g, i).srcs[..|sks|])
    ensures !Unreadable(g, begin, i, k)
  {
    assert SrcMatches(g, begin, i - begin, ext, sks[k], At(g, i).srcs[..|sks|][k]);
    match sks[k]
    case Local(m) => assert g.nodes[begin..i + 1][m] == At(g, i).srcs[k];
    case External(m, _, _) => assert IsExternal(g, begin, ext[m], size);
  }

  // The keys of all operands so far, and the tensors met outside.
  ghost predicate SrcsState(g: Graph, size: nat, begin: nat, i: nat, s: nat, sks: seq<SrcKey>, nks: seq<NodeKey>,
                            nodes: seq<Id>, o: Outside, ext: seq<Id>)
    requires begin <= i < |g.nodes|
  {
    |sks| == s && SrcsDescribed(g, begin, i, sks, nks, ext) && OutsideOk(g, size, begin, nodes, o, ext)
  }

  method DescribeNext(g: Graph, begin: nat, i: nat, s: nat, local: map<Id, nat>, o: Outside, ghost size: nat,
                      ghost nodes: seq<Id>, ghost ext: seq<Id>, ghost nks: seq<NodeKey>, keys: seq<SrcKey>)
    returns (ok: bool, keys': seq<SrcKey>, o': Outside, ghost ext': seq<Id>)
    requires Topological(g, size) && begin <= i < |g.nodes| && s < |At(g, i).srcs|
    requires Indexed(local, g.nodes[begin..i + 1]) && SrcsState(g, size, begin, i, s, keys, nks, nodes, o, ext)
    ensures ok <==> !Unreadable(g, begin, i, s)
    ensures ok ==> ext <= ext' && SrcsState(g, size, begin, i, s + 1, keys', nks, nodes, o', ext')
  {
    var sk;
    sk, o', ext' := DescribeSrc(g, begin, i, s, local, o, size, nodes, ext);
    if sk.None? {
      return false, keys, o, ext;
    }
    SrcsDescribedMore(g, begin, i, keys, nks, sk.value, ext, ext');
    ok, keys' := true, keys + [sk.value];
  }

  // All operands of one node.
  method DescribeSrcs(g: Graph, begin: nat, i: nat, local: map<Id, nat>, o: Outside, ghost size: nat,
                      ghost nodes: seq<Id>, ghost ext: seq<Id>, ghost nks: seq<NodeKey>)
    returns (sks: Option<seq<SrcKey>>, o': Outside, ghost ext': seq<Id>)
    requires Topological(g, size) && begin <= i < |g.nodes|
    requires Indexed(local, g.nodes[begin..i + 1]) && OutsideOk(g, size, begin, nodes, o, ext)
    requires Externals(nks) == WeightKeys(g, ext)
    ensures sks.None? <==> exists k: nat :: k < |At(g, i).srcs| && Unreadable(g, begin, i, k)
    ensures ext <= ext' && OutsideOk(g, size, begin, nodes, o', ext')
    ensures sks.Some? ==> |sks.value| == |At(g, i).srcs| && SrcsDescribed(g, begin, i, sks.value, nks, ext')
  {
    var keys: seq<SrcKey> := [];
    o', ext' := o, ext;
    for s := 0 to |At(g, i).srcs|
      invariant ext <= ext'
      invariant SrcsState(g, size, begin, i, s, keys, nks, nodes, o', ext')
    {
      var ok;
      ok, keys, o', ext' := DescribeNext(g, begin, i, s, local, o', size, nodes, ext', nks, keys);
      if !ok {
        return None, o, ext;
      }
    }
    assert SrcsDescribed(g, begin, i, keys, nks, ext');
    forall k: nat | k < |At(g, i).srcs| ensures !Unreadable(g, begin, i, k) {
      MatchedReadable(g, size, begin, i, keys, ext', k);
    }
    return Some(keys), o', ext';
  }

  // The nodes from begin to i are written down.
  ghost predicate NodesState(g: Graph, size: nat, begin: nat, i: nat, nks: seq<NodeKey>, local: map<Id, nat>,
                             o: Outside, ext: seq<Id>)
  {
    && begin <= i <= |g.nodes| && |nks| == i - begin && NodesMatch(g, begin, ext, nks)
    && Externals(nks) == WeightKeys(g, ext) && NodesOrdered(nks)
    && Indexed(local, g.nodes[begin..i]) && OutsideOk(g, size, begin, g.nodes[begin..i], o, ext)
  }

  lemma NodeIndexed(g: Graph, size: nat, begin: nat, i: nat, local: map<Id, nat>)
    requires Topological(g, size) && begin <= i < |g.nodes| && Indexed(local, g.nodes[begin..i])
    ensures Indexed(local[g.nodes[i] := i - begin], g.nodes[begin..i + 1])
  {
    var before := g.nodes[begin..i];
    assert g.nodes[begin..i + 1] == before + [g.nodes[i]];
    IndexedDistinct(local, before);
    assert g.nodes[i] !in before;
    IndexedMore(local, before, g.nodes[i]);
  }

  lemma NodeBytes(g: Graph, before: seq<Id>, x: Id, ext: seq<Id>)
    ensures Bytes(g, before + [x], ext) == Bytes(g, before, ext) + g.tensor(x).elements * 4 * 8
  {
    assert (before + [x])[..|before|] == before;
  }

  lemma NodeEnters(g: Graph, size: nat, begin: nat, i: nat, local: map<Id, nat>, o: Outside, ext: seq<Id>)
    requires Topological(g, size) && begin <= i < |g.nodes|
    requires Indexed(local, g.nodes[begin..i]) && OutsideOk(g, size, begin, g.nodes[begin..i], o, ext)
    ensures Indexed(local[g.nodes[i] := i - begin], g.nodes[begin..i + 1])
    ensures OutsideOk(g, size, begin, g.nodes[begin..i + 1], o.(bytes := o.bytes + At(g, i).elements * 4 * 8), ext)
  {
    NodeIndexed(g, size, begin, i, local);
    NodeBytes(g, g.nodes[begin..i], g.nodes[i], ext);
    assert g.nodes[begin..i + 1] == g.nodes[begin..i] + [g.nodes[i]];
  }

  lemma NodesMatchMore(g: Graph, begin: nat, i: nat, nks: seq<NodeKey>, sks: seq<SrcKey>, ext: seq<Id>, ext': seq<Id>)
    requires begin <= i < |g.nodes| && |nks| == i - begin && NodesMatch(g, begin, ext, nks) && ext <= ext'
    requires SrcsMatch(g, begin, i - begin, ext', sks, At(g, i).srcs)
    ensures NodesMatch(g, begin, ext', nks + [NodeKey(At(g, i).desc, sks)])
  {
    var nks' := nks + [NodeKey(At(g, i).desc, sks)];
    assert ext' == ext + ext'[|ext|..];
    MatchesMore(g, begin, ext, ext'[|ext|..], nks);
    forall k | 0 <= k < |nks'| ensures NodeMatches(g, begin, k, ext', nks'[k]) {
      if k < |nks| {
        assert NodeMatches(g, begin, k, ext', nks[k]);
      }
    }
  }

  lemma NodesStateMore(g: Graph, begin: nat, i: nat, nks: seq<NodeKey>, sks: seq<SrcKey>, ext: seq<Id>, ext': seq<Id>)
    requires begin <= i < |g.nodes| && |nks| == i - begin && NodesMatch(g, begin, ext, nks) && ext <= ext'
    requires |sks| == |At(g, i).srcs| && SrcsDescribed(g, begin, i, sks, nks, ext') && NodesOrdered(nks)
    ensures var nks' := nks + [NodeKey(At(g, i).desc, sks)];
      NodesMatch(g, begin, ext', nks') && Externals(nks') == WeightKeys(g, ext') && NodesOrdered(nks')
  {
    assert At(g, i).srcs[..|sks|] == At(g, i).srcs;
    NodesMatchMore(g, begin, i, nks, sks, ext, ext');
    LastNode(nks, NodeKey(At(g, i).desc, sks));
  }

  lemma LastNode(nks: seq<NodeKey>, nk: NodeKey)
    ensures Externals(nks + [nk]) == MoreExternals(Externals(nks), nk.srcs)
    ensures NodesOrdered(nks + [nk]) <==> NodesOrdered(nks) && SrcsOrdered(Externals(nks), nk.srcs)
  {
    assert (nks + [nk])[..|nks|] == nks;
  }

  // One node.
  method DescribeNode(g: Graph, begin: nat, i: nat, nks: seq<NodeKey>, local: map<Id, nat>, o: Outside, ghost size: nat,
                      ghost ext: seq<Id>)
    returns (ok: bool, nks': seq<NodeKey>, local': map<Id, nat>, o': Outside, ghost ext': seq<Id>)
    requires Topological(g, size) && begin <= i < |g.nodes| && NodesState(g, size, begin, i, nks, local, o, ext)
    ensures !ok <==> exists k: nat :: k < |At(g, i).srcs| && Unreadable(g, begin, i, k)
    ensures ok ==> NodesState(g, size, begin, i + 1, nks', local', o', ext')
  {
    NodeEnters(g, size, begin, i, local, o, ext);
    local' := local[g.nodes[i] := i - begin];
    o' := o.(bytes := o.bytes + At(g, i).elements * 4 * 8);
    var sks;
    sks, o', ext' := DescribeSrcs(g, begin, i, local', o', size, g.nodes[begin..i + 1], ext, nks);
    if sks.None? {
      return false, nks, local', o', ext';
    }
    NodesStateMore(g, begin, i, nks, sks.value, ext, ext');
    ok, nks' := true, nks + [NodeKey(At(g, i).desc, sks.value)];
  }

  // The tensors that nodes from `end` on read.
  method RequiredLater(g: Graph, end: nat) returns (required: set<Id>)
    requires end <= |g.nodes|
    ensures forall x :: x in required <==> ReadFrom(g, x, end)
  {
    required := {};
    for i := end to |g.nodes|
      invariant forall x :: x in required <==> ReadBetween(g, x, end, i)
    {
      ghost var was := required;
      required := required + set s | s in At(g, i).srcs;
      forall x ensures x in required <==> ReadBetween(g, x, end, i + 1) {
        assert x in required <==> x in was || x in At(g, i).srcs;
        ReadStep(g, x, end, i);
      }
    }
  }

  ghost predicate ReadBetween(g: Graph, x: Id, c: nat, d: nat)
    requires d <= |g.nodes|
  {
    exists j, k :: c <= j < d && 0 <= k < |At(g, j).srcs| && At(g, j).srcs[k] == x
  }

  lemma ReadStep(g: Graph, x: Id, c: nat, d: nat)
    requires c <= d < |g.nodes|
    ensures ReadBetween(g, x, c, d + 1) <==> ReadBetween(g, x, c, d) || x in At(g, d).srcs
  {
    if x in At(g, d).srcs {
      var k :| 0 <= k < |At(g, d).srcs| && At(g, d).srcs[k] == x;
    }
  }

  // The loop over the nodes of the package that picks those that must come back.
  method PickOutputs(g: Graph, begin: nat, end: nat) returns (outputs: seq<nat>)
    requires begin <= end <= |g.nodes|
    ensures OutputsOk(g, begin, end, outputs)
  {
    var required := RequiredLater(g, end);
    outputs := [];
    for i := 0 to end - begin
      invariant Increasing(outputs)
      invariant forall k: nat :: k in outputs <==> k < i && (Required(g, begin + k, end) || k + 1 == end - begin)
    {
      assert forall a :: 0 <= a < |outputs| ==> outputs[a] in outputs;
      if At(g, begin + i).output || g.nodes[begin + i] in required || i + 1 == end - begin {
        outputs := outputs + [i];
      }
    }
  }

  // Describe
  method Describe(g: Graph, begin: nat, end: nat, ghost size: nat) returns (r: Option<Package>, ghost ext: seq<Id>)
    requires Topological(g, size) && begin < end <= |g.nodes|
    ensures r.None? <==> exists i, k :: begin <= i < end && 0 <= k < |At(g, i).srcs| && Unreadable(g, begin, i, k)
    ensures r.Some? ==> Describes(g, size, begin, end, r.value, ext)
  {
    var nks: seq<NodeKey>, local: map<Id, nat>, o := [], map[], Outside(map[], [], 0);
    ext := [];
    for i := begin to end
      invariant NodesState(g, size, begin, i, nks, local, o, ext)
    {
      var ok;
      ok, nks, local, o, ext := DescribeNode(g, begin, i, nks, local, o, size, ext);
      if !ok {
        return None, ext;
      }
    }
    AllReadable(g, size, begin, end, nks, ext);
    var outputs := PickOutputs(g, begin, end);
    return Some(Package(g.nodes[begin..end], o.inputs, outputs, Key(nks, outputs), o.bytes)), ext;
  }

  lemma AllReadable(g: Graph, size: nat, begin: nat, end: nat, nks: seq<NodeKey>, ext: seq<Id>)
    requires begin <= end <= |g.nodes| && |nks| == end - begin
    requires NodesMatch(g, begin, ext, nks) && ExternalsOk(g, begin, ext, size)
    ensures !exists i, k :: begin <= i < end && 0 <= k < |At(g, i).srcs| && Unreadable(g, begin, i, k)
  {
    forall i, k | begin <= i < end && 0 <= k < |At(g, i).srcs| ensures !Unreadable(g, begin, i, k) {
      assert NodeMatches(g, begin, i - begin, ext, nks[i - begin]);
      assert At(g, i).srcs[..|At(g, i).srcs|] == At(g, i).srcs;
      MatchedReadable(g, size, begin, i, nks[i - begin].srcs, ext, k);
    }
  }
}
