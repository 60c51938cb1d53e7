/**
 The text of a package's key (`Describe`, harmony_npu.cpp).  The source compares packages by this text; two
 packages that it prints alike have the same key.  Each printer takes the text that follows.
 */
module NpuKeyText {
  import opened Decimals
  import opened NpuGraph
  import opened NpuPackage

  // ---------- printing ----------

  const DIMENSIONS: nat := 4
  const PARAMETERS: nat := 16

  function Int(n: int): string {
    if n < 0 then "-" + Decimal(-n) else Decimal(n)
  }

  function IntList(xs: seq<int>, rest: string): string {
    if xs == [] then rest else Int(xs[0]) + ("," + IntList(xs[1..], rest))
  }

  // Sizes and strides in turn.
  function PairList(xs: seq<int>, ys: seq<int>, rest: string): string
    requires |xs| == |ys|
  {
    if xs == [] then rest
    else Int(xs[0]) + ("," + (Int(ys[0]) + ("," + PairList(xs[1..], ys[1..], rest))))
  }

  // How an address is printed: without a semicolon, and different addresses differently.
  ghost predicate PrintsAddresses(address: nat -> string) {
    && (forall a :: ';' !in address(a))
    && (forall a, b :: address(a) == address(b) ==> a == b)
  }

  function WeightText(address: nat -> string, weight: Option<nat>, rest: string): string {
    if weight.None? then rest else "w" + (address(weight.value) + rest)
  }

  predicate SrcShape(sk: SrcKey) {
    sk.External? ==> |sk.layout.ne| == |sk.layout.nb| == DIMENSIONS
  }

  predicate NodeShape(nk: NodeKey) {
    |nk.desc.ne| == DIMENSIONS && |nk.desc.params| == PARAMETERS && forall s :: 0 <= s < |nk.srcs| ==> SrcShape(nk.srcs[s])
  }

  predicate KeyShape(key: Key) {
    forall k :: 0 <= k < |key.nodes| ==> NodeShape(key.nodes[k])
  }

  function SrcText(address: nat -> string, sk: SrcKey, rest: string): string
    requires SrcShape(sk)
  {
    match sk
    case Local(k) => "n" + (Decimal(k) + (";" + rest))
    case External(k, layout, weight) =>
      var dims := PairList(layout.ne, layout.nb, WeightText(address, weight, ";" + rest));
      "i" + (Decimal(k) + (":" + (Int(layout.kind) + (":" + dims))))
  }

  function SrcsText(address: nat -> string, sks: seq<SrcKey>, rest: string): string
    requires forall s :: 0 <= s < |sks| ==> SrcShape(sks[s])
  {
    if sks == [] then rest else SrcText(address, sks[0], SrcsText(address, sks[1..], rest))
  }

  function NodeText(address: nat -> string, nk: NodeKey, rest: string): string
    requires NodeShape(nk)
  {
    var dims := IntList(nk.desc.ne, IntList(nk.desc.params, SrcsText(address, nk.srcs, rest)));
    Int(nk.desc.op) + (":" + (Int(nk.desc.kind) + (":" + dims)))
  }

  function NodesText(address: nat -> string, nks: seq<NodeKey>, rest: string): string
    requires forall k :: 0 <= k < |nks| ==> NodeShape(nks[k])
  {
    if nks == [] then rest else NodeText(address, nks[0], NodesText(address, nks[1..], rest))
  }

  function OutputsText(outputs: seq<nat>): string {
    if outputs == [] then "" else "o" + (Decimal(outputs[0]) + (";" + OutputsText(outputs[1..])))
  }

  function KeyText(address: nat -> string, key: Key): string
    requires KeyShape(key)
  {
    NodesText(address, key.nodes, OutputsText(key.outputs))
  }

  // ---------- reading back ----------

  lemma Longer(x: string, y: string, r: string, s: string)
    requires x + r == y + s && |x| < |y|
    ensures r != "" && r[0] == y[|x|]
  {
    assert |r| == |x + r| - |x| && (x + r)[|x|] == r[0] && (y + s)[|x|] == y[|x|];
  }

  // A prefix of characters of one kind, ended by another, can be told apart from what follows.
  lemma SplitsAt(inside: char -> bool, x: string, y: string, r: string, s: string)
    requires x + r == y + s
    requires (forall i :: 0 <= i < |x| ==> inside(x[i])) && forall i :: 0 <= i < |y| ==> inside(y[i])
    requires (r == "" || !inside(r[0])) && (s == "" || !inside(s[0]))
    ensures x == y && r == s
  {
    if |x| < |y| { Longer(x, y, r, s); }
    if |y| < |x| { Longer(y, x, s, r); }
    assert x == (x + r)[..|x|] && r == (x + r)[|x|..];
    assert y == (y + s)[..|y|] && s == (y + s)[|y|..];
  }

  predicate IsNumeric(c: char) {
    '0' <= c <= '9' || c == '-'
  }

  predicate NumberEnds(r: string) {
    r == "" || !IsNumeric(r[0])
  }

  lemma IntNumeric(n: int)
    ensures forall i :: 0 <= i < |Int(n)| ==> IsNumeric(Int(n)[i])
    ensures Int(n) != "" && (Int(n)[0] == '-' <==> n < 0)
  {
    DecimalDigits(if n < 0 then -n else n);
  }

  lemma IntUnique(a: int, b: int, r: string, s: string)
    requires Int(a) + r == Int(b) + s && NumberEnds(r) && NumberEnds(s)
    ensures a == b && r == s
  {
    IntNumeric(a);
    IntNumeric(b);
    SplitsAt(c => IsNumeric(c), Int(a), Int(b), r, s);
    ValueOfDecimal(if a < 0 then -a else a);
    ValueOfDecimal(if b < 0 then -b else b);
    if a < 0 { assert Int(a)[1..] == Decimal(-a) && Int(b)[1..] == Decimal(-b); }
  }

  lemma Behind(c: char, r: string, s: string)
    requires [c] + r == [c] + s
    ensures r == s
  {
    assert ([c] + r)[1..] == r && ([c] + s)[1..] == s;
  }

  // A number and the character behind it.
  lemma NumberUnique(a: int, b: int, c: char, r: string, s: string)
    requires !IsNumeric(c) && Int(a) + ([c] + r) == Int(b) + ([c] + s)
    ensures a == b && r == s
  {
    IntUnique(a, b, [c] + r, [c] + s);
    Behind(c, r, s);
  }

  lemma {:induction false} IntListUnique(xs: seq<int>, ys: seq<int>, r: string, s: string)
    requires |xs| == |ys| && IntList(xs, r) == IntList(ys, s)
    ensures xs == ys && r == s
    decreases |xs|
  {
    if xs != [] {
      NumberUnique(xs[0], ys[0], ',', IntList(xs[1..], r), IntList(ys[1..], s));
      IntListUnique(xs[1..], ys[1..], r, s);
      assert xs == [xs[0]] + xs[1..] && ys == [ys[0]] + ys[1..];
    }
  }

  lemma {:induction false} PairListUnique(xs: seq<int>, ys: seq<int>, vs: seq<int>, ws: seq<int>, r: string, s: string)
    requires |xs| == |ys| == |vs| == |ws| && PairList(xs, ys, r) == PairList(vs, ws, s)
    ensures xs == vs && ys == ws && r == s
    decreases |xs|
  {
    if xs != [] {
      var p, q := PairList(xs[1..], ys[1..], r), PairList(vs[1..], ws[1..], s);
      NumberUnique(xs[0], vs[0], ',', Int(ys[0]) + ("," + p), Int(ws[0]) + ("," + q));
      NumberUnique(ys[0], ws[0], ',', p, q);
      PairListUnique(xs[1..], ys[1..], vs[1..], ws[1..], r, s);
      assert xs == [xs[0]] + xs[1..] && ys == [ys[0]] + ys[1..] && vs == [vs[0]] + vs[1..] && ws == [ws[0]] + ws[1..];
    }
  }

  lemma WeightStarts(address: nat -> string, weight: Option<nat>, r: string)
    ensures WeightText(address, weight, ";" + r) != ""
    ensures WeightText(address, weight, ";" + r)[0] == if weight.Some? then 'w' else ';'
  {}

  lemma WeightUnique(address: nat -> string, v: Option<nat>, w: Option<nat>, r: string, s: string)
    requires PrintsAddresses(address) && WeightText(address, v, ";" + r) == WeightText(address, w, ";" + s)
    ensures v == w && r == s
  {
    WeightStarts(address, v, r);
    WeightStarts(address, w, s);
    if v.Some? {
      Behind('w', address(v.value) + (";" + r), address(w.value) + (";" + s));
      SplitsAt(c => c != ';', address(v.value), address(w.value), ";" + r, ";" + s);
    }
    Behind(';', r, s);
  }

  lemma LocalUnique(k: nat, m: nat, r: string, s: string)
    requires "n" + (Decimal(k) + (";" + r)) == "n" + (Decimal(m) + (";" + s))
    ensures k == m && r == s
  {
    Behind('n', Decimal(k) + (";" + r), Decimal(m) + (";" + s));
    NumberUnique(k, m, ';', r, s);
  }

  lemma ExternalUnique(address: nat -> string, a: SrcKey, b: SrcKey, r: string, s: string)
    requires PrintsAddresses(address) && a.External? && b.External? && SrcShape(a) && SrcShape(b)
    requires SrcText(address, a, r) == SrcText(address, b, s)
    ensures a == b && r == s
  {
    var v, w := WeightText(address, a.weight, ";" + r), WeightText(address, b.weight, ";" + s);
    var p, q := PairList(a.layout.ne, a.layout.nb, v), PairList(b.layout.ne, b.layout.nb, w);
    Behind('i', Decimal(a.k) + (":" + (Int(a.layout.kind) + (":" + p))), Decimal(b.k) + (":" + (Int(b.layout.kind) + (":" + q))));
    NumberUnique(a.k, b.k, ':', Int(a.layout.kind) + (":" + p), Int(b.layout.kind) + (":" + q));
    NumberUnique(a.layout.kind, b.layout.kind, ':', p, q);
    PairListUnique(a.layout.ne, a.layout.nb, b.layout.ne, b.layout.nb, v, w);
    WeightUnique(address, a.weight, b.weight, r, s);
  }

  lemma SrcUnique(address: nat -> string, a: SrcKey, b: SrcKey, r: string, s: string)
    requires PrintsAddresses(address) && SrcShape(a) && SrcShape(b) && SrcText(address, a, r) == SrcText(address, b, s)
    ensures a == b && r == s
  {
    SrcStarts(address, a, r);
    SrcStarts(address, b, s);
    if a.Local? {
      LocalUnique(a.k, b.k, r, s);
    } else {
      ExternalUnique(address, a, b, r, s);
    }
  }

  lemma SrcStarts(address: nat -> string, sk: SrcKey, r: string)
    requires SrcShape(sk)
    ensures SrcText(address, sk, r) != "" && SrcText(address, sk, r)[0] == if sk.Local? then 'n' else 'i'
  {}

  // What may follow the operands of a node.
  predicate SrcsEnd(r: string) {
    r == "" || (r[0] != 'n' && r[0] != 'i')
  }

  lemma {:induction false} SrcsUnique(address: nat -> string, a: seq<SrcKey>, b: seq<SrcKey>, r: string, s: string)
    requires PrintsAddresses(address) && SrcsEnd(r) && SrcsEnd(s)
    requires (forall k :: 0 <= k < |a| ==> SrcShape(a[k])) && forall k :: 0 <= k < |b| ==> SrcShape(b[k])
    requires SrcsText(address, a, r) == SrcsText(address, b, s)
    ensures a == b && r == s
    decreases |a|
  {
    if a != [] { SrcStarts(address, a[0], SrcsText(address, a[1..], r)); }
    if b != [] { SrcStarts(address, b[0], SrcsText(address, b[1..], s)); }
    if a != [] && b != [] {
      SrcUnique(address, a[0], b[0], SrcsText(address, a[1..], r), SrcsText(address, b[1..], s));
      SrcsUnique(address, a[1..], b[1..], r, s);
      assert a == [a[0]] + a[1..] && b == [b[0]] + b[1..];
    }
  }

  lemma NodeUnique(address: nat -> string, a: NodeKey, b: NodeKey, r: string, s: string)
    requires PrintsAddresses(address) && NodeShape(a) && NodeShape(b) && SrcsEnd(r) && SrcsEnd(s)
    requires NodeText(address, a, r) == NodeText(address, b, s)
    ensures a == b && r == s
  {
    var p, q := SrcsText(address, a.srcs, r), SrcsText(address, b.srcs, s);
    var v, w := IntList(a.desc.params, p), IntList(b.desc.params, q);
    var x, y := IntList(a.desc.ne, v), IntList(b.desc.ne, w);
    NumberUnique(a.desc.op, b.desc.op, ':', Int(a.desc.kind) + (":" + x), Int(b.desc.kind) + (":" + y));
    NumberUnique(a.desc.kind, b.desc.kind, ':', x, y);
    IntListUnique(a.desc.ne, b.desc.ne, v, w);
    IntListUnique(a.desc.params, b.desc.params, p, q);
    SrcsUnique(address, a.srcs, b.srcs, r, s);
  }

  lemma NodeStarts(address: nat -> string, nk: NodeKey, r: string)
    requires NodeShape(nk)
    ensures NodeText(address, nk, r) != "" && IsNumeric(NodeText(address, nk, r)[0])
  {
    IntNumeric(nk.desc.op);
  }

  lemma NodesEnd(address: nat -> string, nks: seq<NodeKey>, outputs: seq<nat>)
    requires forall k :: 0 <= k < |nks| ==> NodeShape(nks[k])
    ensures SrcsEnd(NodesText(address, nks, OutputsText(outputs)))
  {
    if nks != [] { NodeStarts(address, nks[0], NodesText(address, nks[1..], OutputsText(outputs))); }
  }

  lemma {:induction false} NodesUnique(address: nat -> string, a: seq<NodeKey>, b: seq<NodeKey>, x: seq<nat>, y: seq<nat>)
    requires PrintsAddresses(address)
    requires (forall k :: 0 <= k < |a| ==> NodeShape(a[k])) && forall k :: 0 <= k < |b| ==> NodeShape(b[k])
    requires NodesText(address, a, OutputsText(x)) == NodesText(address, b, OutputsText(y))
    ensures a == b && OutputsText(x) == OutputsText(y)
    decreases |a|
  {
    if a != [] { NodeStarts(address, a[0], NodesText(address, a[1..], OutputsText(x))); }
    if b != [] { NodeStarts(address, b[0], NodesText(address, b[1..], OutputsText(y))); }
    if a != [] && b != [] {
      NodesEnd(address, a[1..], x);
      NodesEnd(address, b[1..], y);
      NodeUnique(address, a[0], b[0], NodesText(address, a[1..], OutputsText(x)), NodesText(address, b[1..], OutputsText(y)));
      NodesUnique(address, a[1..], b[1..], x, y);
      assert a == [a[0]] + a[1..] && b == [b[0]] + b[1..];
    }
  }

  lemma {:induction false} OutputsUnique(x: seq<nat>, y: seq<nat>)
    requires OutputsText(x) == OutputsText(y)
    ensures x == y
    decreases |x|
  {
    if x != [] && y != [] {
      Behind('o', Decimal(x[0]) + (";" + OutputsText(x[1..])), Decimal(y[0]) + (";" + OutputsText(y[1..])));
      NumberUnique(x[0], y[0], ';', OutputsText(x[1..]), OutputsText(y[1..]));
      OutputsUnique(x[1..], y[1..]);
      assert x == [x[0]] + x[1..] && y == [y[0]] + y[1..];
    }
  }

  // Keys of tensors with four dimensions and sixteen parameters are told apart by their texts.
  lemma KeyTextUnique(address: nat -> string, a: Key, b: Key)
    requires PrintsAddresses(address) && KeyShape(a) && KeyShape(b)
    ensures KeyText(address, a) == KeyText(address, b) <==> a == b
  {
    if KeyText(address, a) == KeyText(address, b) {
      NodesUnique(address, a.nodes, b.nodes, a.outputs, b.outputs);
      OutputsUnique(a.outputs, b.outputs);
    }
  }

  // The tensors are shaped as the source declares them.
  ghost predicate GraphShape(g: Graph, size: nat) {
    Topological(g, size) && forall x: nat :: x < size ==> TensorShape(g.tensor(x))
  }

  predicate TensorShape(t: Tensor) {
    |t.desc.ne| == |t.layout.ne| == |t.layout.nb| == DIMENSIONS && |t.desc.params| == PARAMETERS
  }

  lemma DescribedShape(g: Graph, size: nat, begin: nat, end: nat, p: Package, ext: seq<Id>)
    requires begin <= end <= |g.nodes| && Describes(g, size, begin, end, p, ext) && GraphShape(g, size)
    ensures KeyShape(p.key)
  {
    forall k | 0 <= k < |p.key.nodes| ensures NodeShape(p.key.nodes[k]) {
      var nk := p.key.nodes[k];
      assert NodeMatches(g, begin, k, ext, nk);
      assert TensorShape(g.tensor(g.nodes[begin + k]));
      forall s | 0 <= s < |nk.srcs| ensures SrcShape(nk.srcs[s]) {
        assert SrcMatches(g, begin, k, ext, nk.srcs[s], At(g, begin + k).srcs[s]);
        assert TensorShape(g.tensor(At(g, begin + k).srcs[s]));
      }
    }
  }

  /**
   Looking a plan up by the printed text finds the plan of the key: of any two packages, of the same graph or of
   different ones, the texts are equal exactly if the keys are.
   */
  lemma LookupByText(address: nat -> string, g: Graph, m: nat, a: nat, b: nat, p: Package, ext: seq<Id>,
                     h: Graph, n: nat, c: nat, d: nat, q: Package, other: seq<Id>)
    requires PrintsAddresses(address) && GraphShape(g, m) && GraphShape(h, n)
    requires a <= b <= |g.nodes| && Describes(g, m, a, b, p, ext)
    requires c <= d <= |h.nodes| && Describes(h, n, c, d, q, other)
    ensures KeyShape(p.key) && KeyShape(q.key)
    ensures KeyText(address, p.key) == KeyText(address, q.key) <==> p.key == q.key
  {
    DescribedShape(g, m, a, b, p, ext);
    DescribedShape(h, n, c, d, q, other);
    KeyTextUnique(address, p.key, q.key);
  }
}
