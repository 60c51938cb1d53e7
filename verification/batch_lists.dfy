/**
 Sequences of token indices, and the index lists that `llama_batch_allocr` keeps per sequence set
 (llama-batch.cpp, llama-batch.h).
 */
module BatchLists {

  // The sequences a token belongs to.
  type SeqSet = set<nat>

  // ---------- sequences of indices ----------

  predicate NoDup(xs: seq<nat>) {
    forall i, j :: 0 <= i < j < |xs| ==> xs[i] != xs[j]
  }

  predicate Below(xs: seq<nat>, n: nat) {
    forall i :: 0 <= i < |xs| ==> xs[i] < n
  }

  predicate Increasing(xs: seq<nat>) {
    forall i, j :: 0 <= i < j < |xs| ==> xs[i] < xs[j]
  }

  // Every index below n occurs in xs.
  predicate All(xs: seq<nat>, n: nat) {
    forall i: nat :: i < n ==> i in xs
  }

  // xs is an arrangement of the indices below n.
  predicate Permutation(xs: seq<nat>, n: nat) {
    NoDup(xs) && Below(xs, n) && All(xs, n)
  }

  function Elems(xs: seq<nat>): set<nat> {
    set x | x in xs
  }

  function Concat(segs: seq<seq<nat>>): seq<nat> {
    if segs == [] then [] else segs[0] + Concat(segs[1..])
  }

  function FlaggedHead(x: nat, output: seq<bool>): seq<nat> {
    if x < |output| && output[x] then [x] else []
  }

  // The flagged indices among xs, in order.
  function Flagged(xs: seq<nat>, output: seq<bool>): seq<nat> {
    if xs == [] then [] else FlaggedHead(xs[0], output) + Flagged(xs[1..], output)
  }

  lemma Associate(x: seq<nat>, y: seq<nat>, z: seq<nat>)
    ensures x + (y + z) == (x + y) + z
  {
  }

  lemma {:induction false} FlaggedConcat(x: seq<nat>, y: seq<nat>, output: seq<bool>)
    ensures Flagged(x + y, output) == Flagged(x, output) + Flagged(y, output)
    decreases |x|
  {
    if x == [] {
      assert x + y == y;
      assert [] + Flagged(y, output) == Flagged(y, output);
    } else {
      FlaggedConcat(x[1..], y, output);
      assert (x + y)[0] == x[0] && (x + y)[1..] == x[1..] + y;
      Associate(FlaggedHead(x[0], output), Flagged(x[1..], output), Flagged(y, output));
    }
  }

  lemma FlaggedMore(xs: seq<nat>, x: nat, output: seq<bool>)
    ensures Flagged(xs + [x], output) == Flagged(xs, output) + FlaggedHead(x, output)
  {
    FlaggedConcat(xs, [x], output);
    assert [x][1..] == [];
  }

  lemma {:induction false} FlaggedHas(xs: seq<nat>, output: seq<bool>, i: nat)
    ensures i in Flagged(xs, output) <==> i in xs && i < |output| && output[i]
    decreases |xs|
  {
    if xs != [] {
      FlaggedHas(xs[1..], output, i);
      assert i in xs <==> i == xs[0] || i in xs[1..];
    }
  }

  lemma {:induction false} FlaggedOrder(xs: seq<nat>, output: seq<bool>)
    ensures NoDup(xs) ==> NoDup(Flagged(xs, output))
    ensures Increasing(xs) ==> Increasing(Flagged(xs, output))
    decreases |xs|
  {
    if xs != [] {
      FlaggedOrder(xs[1..], output);
      var rest := Flagged(xs[1..], output);
      forall k | 0 <= k < |rest| ensures rest[k] in xs[1..] {
        FlaggedHas(xs[1..], output, rest[k]);
      }
    }
  }

  lemma FlaggedElems(xs: seq<nat>, output: seq<bool>)
    ensures forall i :: i in Flagged(xs, output) <==> i in xs && i < |output| && output[i]
    ensures NoDup(xs) ==> NoDup(Flagged(xs, output))
    ensures Increasing(xs) ==> Increasing(Flagged(xs, output))
  {
    FlaggedOrder(xs, output);
    forall i: nat ensures i in Flagged(xs, output) <==> i in xs && i < |output| && output[i] {
      FlaggedHas(xs, output, i);
    }
  }

  lemma {:induction false} ConcatAppend(segs: seq<seq<nat>>, seg: seq<nat>)
    ensures Concat(segs + [seg]) == Concat(segs) + seg
    decreases |segs|
  {
    if segs == [] {
      assert [seg][1..] == [];
    } else {
      ConcatAppend(segs[1..], seg);
      assert (segs + [seg])[1..] == segs[1..] + [seg];
    }
  }

  lemma {:induction false} ConcatHas(segs: seq<seq<nat>>, i: nat)
    ensures i in Concat(segs) <==> exists k :: 0 <= k < |segs| && i in segs[k]
    decreases |segs|
  {
    if segs != [] {
      var rest := segs[1..];
      ConcatHas(rest, i);
      assert forall k :: 0 <= k < |rest| ==> rest[k] == segs[k + 1];
      if i !in segs[0] && i in Concat(rest) {
        var k :| 0 <= k < |rest| && i in rest[k];
        assert i in segs[k + 1];
      }
      forall k | 0 < k < |segs| && i in segs[k] ensures i in Concat(rest) {
        assert i in rest[k - 1];
      }
    }
  }

  lemma ConcatElems(segs: seq<seq<nat>>)
    ensures forall i :: i in Concat(segs) <==> exists k :: 0 <= k < |segs| && i in segs[k]
  {
    forall i ensures i in Concat(segs) <==> exists k :: 0 <= k < |segs| && i in segs[k] {
      ConcatHas(segs, i);
    }
  }

  // The segments share no index.
  predicate Apart(x: seq<nat>, y: seq<nat>) {
    forall i :: i in x ==> i !in y
  }

  lemma NoDupAppend(x: seq<nat>, y: seq<nat>)
    requires NoDup(x) && NoDup(y) && Apart(x, y)
    ensures NoDup(x + y)
  {
    forall i, j | 0 <= i < j < |x + y| ensures (x + y)[i] != (x + y)[j] {
      if i < |x| <= j {
        assert x[i] in x && y[j - |x|] in y;
      }
    }
  }

  lemma {:induction false} NoDupConcat(segs: seq<seq<nat>>)
    requires forall k :: 0 <= k < |segs| ==> NoDup(segs[k])
    requires forall k, m :: 0 <= k < m < |segs| ==> Apart(segs[k], segs[m])
    ensures NoDup(Concat(segs))
    decreases |segs|
  {
    if segs != [] {
      NoDupConcat(segs[1..]);
      ConcatElems(segs[1..]);
      assert Apart(segs[0], Concat(segs[1..])) by {
        forall i | i in segs[0] ensures i !in Concat(segs[1..]) {
          forall k | 0 <= k < |segs[1..]| ensures i !in segs[1..][k] {
            assert Apart(segs[0], segs[k + 1]);
          }
        }
      }
      NoDupAppend(segs[0], Concat(segs[1..]));
    }
  }

  // Replacing one segment changes the total length by the difference.
  lemma {:induction false} ConcatReplace(segs: seq<seq<nat>>, k: nat, seg: seq<nat>)
    requires k < |segs|
    ensures |Concat(segs[k := seg])| == |Concat(segs)| - |segs[k]| + |seg|
    decreases k
  {
    if k > 0 {
      ConcatReplace(segs[1..], k - 1, seg);
      assert segs[k := seg][1..] == segs[1..][k - 1 := seg];
    }
  }

  // Empty segments at the end may be dropped.
  lemma {:induction false} ConcatTrailing(segs: seq<seq<nat>>, m: nat)
    requires m <= |segs| && forall k :: m <= k < |segs| ==> segs[k] == []
    ensures Concat(segs) == Concat(segs[..m])
    decreases |segs|
  {
    if |segs| > m {
      var last := |segs| - 1;
      ConcatTrailing(segs[..last], m);
      ConcatAppend(segs[..last], segs[last]);
      assert segs == segs[..last] + [segs[last]];
      assert segs[..last][..m] == segs[..m];
    } else {
      assert segs[..m] == segs;
    }
  }

  lemma {:induction false} ConcatUniform(segs: seq<seq<nat>>, t: nat)
    requires forall k :: 0 <= k < |segs| ==> |segs[k]| == t
    ensures |Concat(segs)| == |segs| * t
    decreases |segs|
  {
    if segs != [] {
      ConcatUniform(segs[1..], t);
      assert |segs| * t == t + |segs[1..]| * t;
    }
  }

  // ---------- counting ----------

  lemma {:induction false} ElemsCount(xs: seq<nat>)
    requires NoDup(xs)
    ensures |Elems(xs)| == |xs|
    decreases |xs|
  {
    if xs != [] {
      ElemsCount(xs[1..]);
      assert xs[0] !in xs[1..];
      assert Elems(xs) == Elems(xs[1..]) + {xs[0]};
    }
  }

  function Upto(n: nat): (s: set<nat>)
    ensures forall i: nat :: i in s <==> i < n
    ensures |s| == n
  {
    if n == 0 then {} else Upto(n - 1) + {n - 1}
  }

  lemma SubsetCount(x: set<nat>, y: set<nat>)
    requires x <= y
    ensures |x| <= |y| && (|x| == |y| ==> x == y)
  {
    assert y == x + (y - x);
  }

  // As many distinct indices as there are tokens: a permutation of the batch.
  lemma FullMeansAll(xs: seq<nat>, n: nat)
    requires NoDup(xs) && Below(xs, n)
    ensures |xs| <= n && (|xs| == n <==> All(xs, n))
  {
    ElemsCount(xs);
    assert forall i :: i in Elems(xs) <==> i in xs;
    SubsetCount(Elems(xs), Upto(n));
    assert Elems(xs) == Upto(n) <==> All(xs, n);
  }

  // ---------- the lists of indices per sequence set ----------

  // The list holds indices of tokens with sequence set s, in order.
  predicate ListOk(seqSet: seq<SeqSet>, s: SeqSet, list: seq<nat>) {
    list != [] && Increasing(list) && forall k :: 0 <= k < |list| ==> list[k] < |seqSet| && seqSet[list[k]] == s
  }

  // Token i is on the list of its sequence set.
  predicate Listed(seqSet: seq<SeqSet>, lists: map<SeqSet, seq<nat>>, i: nat) {
    i < |seqSet| && seqSet[i] in lists && i in lists[seqSet[i]]
  }

  // lists holds for every sequence set the indices of its tokens, in order.
  ghost predicate ListsOf(seqSet: seq<SeqSet>, lists: map<SeqSet, seq<nat>>) {
    && (forall s :: s in lists ==> ListOk(seqSet, s, lists[s]))
    && (forall i: nat :: i < |seqSet| ==> Listed(seqSet, lists, i))
  }

  lemma ListsStep(seqSet: seq<SeqSet>, cur: SeqSet, lists: map<SeqSet, seq<nat>>, next: map<SeqSet, seq<nat>>)
    requires ListsOf(seqSet, lists)
    requires next == lists[cur := (if cur in lists then lists[cur] else []) + [|seqSet|]]
    ensures ListsOf(seqSet + [cur], next)
  {
    forall s | s in next ensures ListOk(seqSet + [cur], s, next[s]) {
      if s in lists {
        assert ListOk(seqSet, s, lists[s]);
      }
    }
    forall i: nat | i < |seqSet + [cur]| ensures Listed(seqSet + [cur], next, i) {
      if i < |seqSet| {
        assert Listed(seqSet, lists, i);
      }
    }
  }

  // The loop of init that fills seq_set_map.
  method BuildLists(seqSet: seq<SeqSet>) returns (lists: map<SeqSet, seq<nat>>)
    ensures ListsOf(seqSet, lists)
  {
    lists := map[];
    for i := 0 to |seqSet|
      invariant ListsOf(seqSet[..i], lists)
    {
      var cur := seqSet[i];
      var before := lists;
      lists := lists[cur := (if cur in lists then lists[cur] else []) + [i]];
      ListsStep(seqSet[..i], cur, before, lists);
      assert seqSet[..i + 1] == seqSet[..i] + [cur];
    }
    assert seqSet[..|seqSet|] == seqSet;
  }

  // ---------- used prefixes ----------

  // The first c indices of the list are used and the others are not.
  predicate CutAt(used: seq<bool>, list: seq<nat>, c: nat) {
    c <= |list| && forall k :: 0 <= k < |list| ==> list[k] < |used| && (used[list[k]] <==> k < c)
  }

  // How many indices at the head of the list are used.
  function Cut(used: seq<bool>, list: seq<nat>): (c: nat)
    ensures c <= |list|
  {
    if list == [] || list[0] >= |used| || !used[list[0]] then 0 else 1 + Cut(used, list[1..])
  }

  lemma {:induction false} CutIs(used: seq<bool>, list: seq<nat>, c: nat)
    requires CutAt(used, list, c)
    ensures Cut(used, list) == c
    decreases |list|
  {
    if c > 0 {
      CutIs(used, list[1..], c - 1);
    }
  }

  // Used tokens of every sequence set come before its unused ones.
  ghost predicate Prefixed(lists: map<SeqSet, seq<nat>>, used: seq<bool>) {
    forall s :: s in lists ==> CutAt(used, lists[s], Cut(used, lists[s]))
  }

  // Two moments with the same used flags on a list cut it alike.
  lemma CutSame(used: seq<bool>, used': seq<bool>, list: seq<nat>, c: nat)
    requires |used| == |used'| && CutAt(used, list, c)
    requires forall k :: 0 <= k < |list| ==> used'[list[k]] == used[list[k]]
    ensures CutAt(used', list, c)
  {
  }
}
