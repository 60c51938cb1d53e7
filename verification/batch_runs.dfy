/**
 Whole runs of a splitting strategy (llama-batch.cpp), and `init_batch`
 (llama-kv-cache-dsa-iswa.cpp), which repeats a split until the batch is used up and falls back from
 the simple to the equal split.
 */
module BatchRuns {

  import opened BatchLists
  import opened BatchEqual
  import opened Batch

  // The token indices of the micro-batches, one list each.
  function Rows(us: seq<Ubatch>): (rows: seq<seq<nat>>)
    ensures |rows| == |us| && forall k :: 0 <= k < |us| ==> rows[k] == us[k].idxs
  {
    seq(|us|, k requires 0 <= k < |us| => us[k].idxs)
  }

  lemma RowsAppend(us: seq<Ubatch>, u: Ubatch)
    ensures Concat(Rows(us + [u])) == Concat(Rows(us)) + u.idxs
  {
    assert Rows(us + [u]) == Rows(us) + [u.idxs];
    ConcatAppend(Rows(us), u.idxs);
  }

  // ---------- one equal split ----------

  // The used flags once the micro-batches have been emitted.
  function UsedAfter(n: nat, us: seq<Ubatch>): (used: seq<bool>) {
    seq(n, i requires 0 <= i < n => i in Concat(Rows(us)))
  }

  lemma UsedIs(b: BatchAllocr, us: seq<Ubatch>)
    requires b.Valid() && b.emitted == Concat(Rows(us))
    ensures b.used == UsedAfter(b.n, us)
  {
  }

  // u is what split_equal emits from the tokens that the micro-batches in prior have left.
  ghost predicate FromEqual(b: BatchAllocr, nUbatch: nat, sequential: bool, nKeepTail: nat, prior: seq<Ubatch>, u: Ubatch)
    requires b.Shape()
  {
    && u.equalSeqs && Prefixed(b.lists, UsedAfter(b.n, prior))
    && exists intro, upto, t, slices ::
         b.EqualSplit(UsedAfter(b.n, prior), UsedAfter(b.n, prior + [u]), nUbatch, sequential, nKeepTail,
                      u.idxs, u.nSeqs, intro, upto, t, slices)
  }

  // Every micro-batch of a run was split from what those before it had left.
  ghost predicate AllFromEqual(b: BatchAllocr, nUbatch: nat, sequential: bool, nKeepTail: nat, us: seq<Ubatch>)
    requires b.Shape()
  {
    forall j :: 0 <= j < |us| ==> FromEqual(b, nUbatch, sequential, nKeepTail, us[..j], us[j])
  }

  lemma OneMoreFromEqual(b: BatchAllocr, nUbatch: nat, sequential: bool, nKeepTail: nat, us: seq<Ubatch>, u: Ubatch)
    requires b.Shape() && AllFromEqual(b, nUbatch, sequential, nKeepTail, us)
    requires FromEqual(b, nUbatch, sequential, nKeepTail, us, u)
    ensures AllFromEqual(b, nUbatch, sequential, nKeepTail, us + [u])
  {
    forall j | 0 <= j < |us + [u]| ensures FromEqual(b, nUbatch, sequential, nKeepTail, (us + [u])[..j], (us + [u])[j]) {
      assert (us + [u])[..j] == us[..j];
      assert us[..|us|] == us;
      if j < |us| { assert FromEqual(b, nUbatch, sequential, nKeepTail, us[..j], us[j]); }
    }
  }

  // The micro-batch is rectangular, and keeps to the limit unless it takes a single token of each
  // of its sets; then it may exceed it by one.
  lemma EqualSize(b: BatchAllocr, used0: seq<bool>, used1: seq<bool>, nUbatch: nat, sequential: bool, nKeepTail: nat,
                  idxs: seq<nat>, nSeqs: nat, intro: seq<nat>, upto: nat, t: nat, slices: seq<seq<nat>>)
    requires b.Shape() && (nKeepTail > 0 ==> nUbatch > nKeepTail)
    requires b.EqualSplit(used0, used1, nUbatch, sequential, nKeepTail, idxs, nSeqs, intro, upto, t, slices)
    ensures |idxs| == nSeqs * |slices[0]| && |slices[0]| >= 1
    ensures |idxs| <= nUbatch || (|slices[0]| == 1 && nSeqs == |intro| == nUbatch + 1)
    ensures nKeepTail == 0 ==> (|idxs| > nUbatch <==> |intro| > nUbatch)
  {
    ConcatUniform(slices, |slices[0]|);
    var lens := Lens(used0, b.lists, b.SetsOf(intro));
    EqualProgress(lens, t, nUbatch, nKeepTail, nSeqs, slices);
    WidthFits(lens, t, nUbatch, nKeepTail, nSeqs, |slices[0]|);
  }

  lemma WidthFits(lens: seq<nat>, t: nat, nUbatch: nat, nKeepTail: nat, nSeqs: nat, width: nat)
    requires Widest(lens, t, nUbatch) && TailRule(lens, t, nUbatch, nKeepTail, nSeqs, width)
    requires nKeepTail > 0 ==> nUbatch > nKeepTail
    requires 1 <= nSeqs <= |lens| <= nUbatch + 1
    ensures nSeqs * width <= nUbatch || (width == 1 && nSeqs == |lens| == nUbatch + 1)
    ensures nKeepTail == 0 ==> (nSeqs * width > nUbatch <==> |lens| > nUbatch)
  {
    if width == t {
      Times(nSeqs, |lens|, t);
    } else {
      Times(1, |lens|, t);
      assert nSeqs == 1 && (width <= nUbatch || width < t);
    }
  }

  lemma Times(x: nat, y: nat, t: nat)
    requires x <= y
    ensures x * t == t * x <= t * y
  {
  }

  // In sequential mode the first ids of the sets are consecutive.
  lemma {:induction false} Consecutive(b: BatchAllocr, used: seq<bool>, intro: seq<nat>, upto: nat, k: nat)
    requires b.Shape() && Chosen(b.seqIds, b.seqSet, used, true, intro, upto) && k < |intro|
    ensures b.seqIds[intro[k]][0] == b.seqIds[intro[0]][0] + k
    decreases k
  {
    if k > 0 {
      Consecutive(b, used, intro, upto, k - 1);
      assert Brought(b.seqIds, b.seqSet, used, true, intro, k);
    }
  }

  // The sets that take part do not overlap, the first one is that of the first unused token, every
  // one of them gives the tokens that come next on its list, and no other token moves.
  lemma EqualSets(b: BatchAllocr, used0: seq<bool>, used1: seq<bool>, nUbatch: nat, sequential: bool, nKeepTail: nat,
                  idxs: seq<nat>, nSeqs: nat, intro: seq<nat>, upto: nat, t: nat, slices: seq<seq<nat>>)
    requires b.Shape()
    requires b.EqualSplit(used0, used1, nUbatch, sequential, nKeepTail, idxs, nSeqs, intro, upto, t, slices)
    ensures !used0[intro[0]] && forall i :: 0 <= i < intro[0] ==> used0[i]
    ensures forall k, m :: 0 <= k < m < nSeqs ==> b.seqSet[intro[k]] !! b.seqSet[intro[m]]
    ensures forall k :: 0 <= k < nSeqs ==> Increasing(slices[k])
    ensures forall k, j :: 0 <= k < nSeqs && 0 <= j < |slices[k]| ==>
      slices[k][j] < b.n && b.seqSet[slices[k][j]] == b.seqSet[intro[k]]
    ensures sequential && !b.hasCpl ==>
      forall k :: 0 <= k < nSeqs ==> b.seqSet[intro[k]] == {b.seqIds[intro[0]][0] + k}
  {
    var sets := b.SetsOf(intro);
    assert Brought(b.seqIds, b.seqSet, used0, sequential, intro, 0);
    forall i | 0 <= i < intro[0] ensures used0[i] {
      assert Passed(b.seqIds, b.seqSet, used0, sequential, intro, 0, i);
    }
    forall k, m | 0 <= k < m < nSeqs ensures b.seqSet[intro[k]] !! b.seqSet[intro[m]] {
      assert Brought(b.seqIds, b.seqSet, used0, sequential, intro, m);
      BroughtApart(b.seqIds, b.seqSet, used0, sequential, intro, k, m);
    }
    forall k | 0 <= k < nSeqs
      ensures Increasing(slices[k])
      ensures forall j :: 0 <= j < |slices[k]| ==> slices[k][j] < b.n && b.seqSet[slices[k][j]] == b.seqSet[intro[k]]
    {
      SliceOf(b, used1, sets[..nSeqs][k], b.Cuts(used0, sets[..nSeqs])[k], slices[k]);
    }
    if sequential && !b.hasCpl {
      forall k | 0 <= k < nSeqs ensures b.seqSet[intro[k]] == {b.seqIds[intro[0]][0] + k} {
        Consecutive(b, used0, intro, upto, k);
        assert |b.seqIds[intro[k]]| == 1;
      }
    }
  }

  lemma SliceOf(b: BatchAllocr, used: seq<bool>, s: SeqSet, start: nat, taken: seq<nat>)
    requires b.Shape() && TakenFrom(used, b.lists, s, start, taken)
    ensures Increasing(taken)
    ensures forall j :: 0 <= j < |taken| ==> taken[j] < b.n && b.seqSet[taken[j]] == s
  {
    assert ListOk(b.seqSet, s, b.lists[s]);
    assert forall j :: 0 <= j < |taken| ==> taken[j] == b.lists[s][start + j];
  }

  // Where the next slice of a list begins: with the first of its tokens that is not used.
  lemma FirstOfList(used: seq<bool>, seqSet: seq<SeqSet>, lists: map<SeqSet, seq<nat>>, i: nat)
    requires ListsOf(seqSet, lists) && Prefixed(lists, used) && |used| == |seqSet| && i < |used| && !used[i]
    requires forall k :: 0 <= k < i ==> used[k]
    ensures seqSet[i] in lists && Cut(used, lists[seqSet[i]]) < |lists[seqSet[i]]|
    ensures lists[seqSet[i]][Cut(used, lists[seqSet[i]])] == i
  {
    assert Listed(seqSet, lists, i);
    var list := lists[seqSet[i]];
    assert ListOk(seqSet, seqSet[i], list) && CutAt(used, list, Cut(used, list));
    var p: nat :| p < |list| && list[p] == i;
    assert Cut(used, list) <= p;
    assert !used[list[Cut(used, list)]];
  }

  // An equal split emits the first token that is left, first.
  lemma StartsWithFirst(b: BatchAllocr, used0: seq<bool>, used1: seq<bool>, nUbatch: nat, sequential: bool, nKeepTail: nat,
                        idxs: seq<nat>, nSeqs: nat, intro: seq<nat>, upto: nat, t: nat, slices: seq<seq<nat>>)
    requires b.Shape() && Prefixed(b.lists, used0) && (nKeepTail > 0 ==> nUbatch > nKeepTail)
    requires b.EqualSplit(used0, used1, nUbatch, sequential, nKeepTail, idxs, nSeqs, intro, upto, t, slices)
    ensures idxs != [] && idxs[0] == intro[0] && idxs[0] < b.n && !used0[idxs[0]] && forall i :: 0 <= i < idxs[0] ==> used0[i]
  {
    EqualSets(b, used0, used1, nUbatch, sequential, nKeepTail, idxs, nSeqs, intro, upto, t, slices);
    EqualSize(b, used0, used1, nUbatch, sequential, nKeepTail, idxs, nSeqs, intro, upto, t, slices);
    FirstOfList(used0, b.seqSet, b.lists, intro[0]);
    var sets := b.SetsOf(intro);
    assert sets[..nSeqs][0] == sets[0];
    assert TakenFrom(used1, b.lists, sets[..nSeqs][0], b.Cuts(used0, sets[..nSeqs])[0], slices[0]);
    FirstOfConcat(slices);
  }

  lemma FirstOfConcat(slices: seq<seq<nat>>)
    requires slices != [] && slices[0] != []
    ensures Concat(slices) != [] && Concat(slices)[0] == slices[0][0]
  {
  }

  lemma FirstEmitted(b: BatchAllocr, nUbatch: nat, sequential: bool, nKeepTail: nat, prior: seq<Ubatch>, u: Ubatch)
    requires b.Shape() && FromEqual(b, nUbatch, sequential, nKeepTail, prior, u) && (nKeepTail > 0 ==> nUbatch > nKeepTail)
    ensures u.idxs != [] && u.idxs[0] < b.n && !UsedAfter(b.n, prior)[u.idxs[0]]
    ensures forall i :: 0 <= i < u.idxs[0] ==> UsedAfter(b.n, prior)[i]
  {
    var used0, used1 := UsedAfter(b.n, prior), UsedAfter(b.n, prior + [u]);
    var intro, upto, t, slices :|
      b.EqualSplit(used0, used1, nUbatch, sequential, nKeepTail, u.idxs, u.nSeqs, intro, upto, t, slices);
    StartsWithFirst(b, used0, used1, nUbatch, sequential, nKeepTail, u.idxs, u.nSeqs, intro, upto, t, slices);
  }

  // Over a whole run: each micro-batch begins with the smallest token that those before it have left.
  lemma RunInOrder(b: BatchAllocr, nUbatch: nat, sequential: bool, nKeepTail: nat, us: seq<Ubatch>, j: nat)
    requires b.Shape() && AllFromEqual(b, nUbatch, sequential, nKeepTail, us) && (nKeepTail > 0 ==> nUbatch > nKeepTail)
    requires j < |us|
    ensures us[j].idxs != [] && us[j].idxs[0] < b.n && us[j].idxs[0] !in Concat(Rows(us[..j]))
    ensures forall i :: 0 <= i < us[j].idxs[0] ==> i in Concat(Rows(us[..j]))
  {
    FirstEmitted(b, nUbatch, sequential, nKeepTail, us[..j], us[j]);
    forall i | 0 <= i < us[j].idxs[0] ensures i in Concat(Rows(us[..j])) {
      assert UsedAfter(b.n, us[..j])[i];
    }
  }

  // ---------- the tail guarantee ----------

  function Min(x: nat, y: nat): nat {
    if x <= y then x else y
  }

  // The last min(length, nKeepTail) indices of the list.
  function Tail(list: seq<nat>, nKeepTail: nat): (tail: seq<nat>)
    ensures |tail| == Min(|list|, nKeepTail)
  {
    list[|list| - Min(|list|, nKeepTail)..]
  }

  predicate Within(xs: seq<nat>, ys: seq<nat>) {
    forall i :: i in xs ==> i in ys
  }

  // One micro-batch holds the whole tail.
  predicate TailTogether(us: seq<Ubatch>, list: seq<nat>, nKeepTail: nat) {
    exists j :: 0 <= j < |us| && Within(Tail(list, nKeepTail), us[j].idxs)
  }

  // The tail of the list is still to come as a whole, or lies in one micro-batch.
  predicate TailKept(us: seq<Ubatch>, used: seq<bool>, list: seq<nat>, nKeepTail: nat) {
    var left := |list| - Cut(used, list);
    left >= Min(|list|, nKeepTail) || (left == 0 && TailTogether(us, list, nKeepTail))
  }

  ghost predicate TailsKept(b: BatchAllocr, used: seq<bool>, us: seq<Ubatch>, nKeepTail: nat) {
    forall s :: s in b.lists ==> TailKept(us, used, b.lists[s], nKeepTail)
  }

  // The set gives the slice that comes next on its list, and has nothing left or a whole tail.
  predicate SetMoves(lists: map<SeqSet, seq<nat>>, used0: seq<bool>, used1: seq<bool>, s: SeqSet, slice: seq<nat>, nKeepTail: nat) {
    && s in lists && Cut(used0, lists[s]) <= Cut(used1, lists[s])
    && slice == lists[s][Cut(used0, lists[s])..Cut(used1, lists[s])]
    && TailSafe(|lists[s]| - Cut(used1, lists[s]), nKeepTail)
  }

  lemma EqualTails(b: BatchAllocr, used0: seq<bool>, used1: seq<bool>, nUbatch: nat, sequential: bool, nKeepTail: nat,
                   idxs: seq<nat>, nSeqs: nat, intro: seq<nat>, upto: nat, t: nat, slices: seq<seq<nat>>, k: nat)
    requires b.Shape() && k < nSeqs
    requires b.EqualSplit(used0, used1, nUbatch, sequential, nKeepTail, idxs, nSeqs, intro, upto, t, slices)
    ensures SetMoves(b.lists, used0, used1, b.SetsOf(intro)[k], slices[k], nKeepTail)
  {
    var sets := b.SetsOf(intro);
    var s := sets[..nSeqs][k];
    assert s == sets[k];
    var start := b.Cuts(used0, sets[..nSeqs])[k];
    assert start == Cut(used0, b.lists[s]);
    assert TakenFrom(used1, b.lists, s, start, slices[k]);
    CutIs(used1, b.lists[s], start + |slices[k]|);
    var lens := Lens(used0, b.lists, sets);
    assert lens[k] == |b.lists[s]| - start && |slices[k]| == |slices[0]|;
    TailLeft(lens, t, nUbatch, nKeepTail, nSeqs, |slices[0]|, k);
  }

  lemma TailLeft(lens: seq<nat>, t: nat, nUbatch: nat, nKeepTail: nat, nSeqs: nat, width: nat, k: nat)
    requires Widest(lens, t, nUbatch) && TailRule(lens, t, nUbatch, nKeepTail, nSeqs, width) && k < nSeqs <= |lens|
    ensures TailSafe(lens[k] - width, nKeepTail)
  {
    assert t <= lens[k];
  }

  // A set that takes no part stays where it was.
  lemma EqualOthers(b: BatchAllocr, used0: seq<bool>, used1: seq<bool>, sets: seq<SeqSet>, starts: seq<nat>,
                    slices: seq<seq<nat>>, s: SeqSet)
    requires b.Shape() && Prefixed(b.lists, used0) && s in b.lists && s !in sets
    requires Takes(b.seqSet, b.lists, used0, used1, sets, starts, slices)
    ensures Cut(used1, b.lists[s]) == Cut(used0, b.lists[s])
  {
    assert ListOk(b.seqSet, s, b.lists[s]);
    CutSame(used0, used1, b.lists[s], Cut(used0, b.lists[s]));
    CutIs(used1, b.lists[s], Cut(used0, b.lists[s]));
  }

  lemma TailTaken(us: seq<Ubatch>, u: Ubatch, lists: map<SeqSet, seq<nat>>, used0: seq<bool>, used1: seq<bool>,
                  s: SeqSet, nKeepTail: nat, slice: seq<nat>)
    requires SetMoves(lists, used0, used1, s, slice, nKeepTail) && slice != [] && Within(slice, u.idxs)
    requires TailKept(us, used0, lists[s], nKeepTail)
    ensures TailKept(us + [u], used1, lists[s], nKeepTail)
  {
    var list := lists[s];
    if |list| == Cut(used1, list) {
      var c := Cut(used0, list);
      var tail := Tail(list, nKeepTail);
      forall i | i in tail ensures i in u.idxs {
        var p :| 0 <= p < |tail| && tail[p] == i;
        assert slice[|list| - |tail| + p - c] == i;
      }
      assert (us + [u])[|us|] == u;
    }
  }

  lemma TailStays(us: seq<Ubatch>, u: Ubatch, used0: seq<bool>, used1: seq<bool>, list: seq<nat>, nKeepTail: nat)
    requires TailKept(us, used0, list, nKeepTail) && Cut(used1, list) == Cut(used0, list)
    ensures TailKept(us + [u], used1, list, nKeepTail)
  {
    if |list| - Cut(used0, list) < Min(|list|, nKeepTail) {
      var j :| 0 <= j < |us| && Within(Tail(list, nKeepTail), us[j].idxs);
      assert (us + [u])[j] == us[j];
    }
  }

  // One more equal split keeps all tails.
  lemma TailsStep(b: BatchAllocr, us: seq<Ubatch>, u: Ubatch, used0: seq<bool>, used1: seq<bool>, nUbatch: nat,
                  sequential: bool, nKeepTail: nat, intro: seq<nat>, upto: nat, t: nat, slices: seq<seq<nat>>)
    requires b.Shape() && Prefixed(b.lists, used0) && TailsKept(b, used0, us, nKeepTail)
    requires nKeepTail > 0 ==> nUbatch > nKeepTail
    requires b.EqualSplit(used0, used1, nUbatch, sequential, nKeepTail, u.idxs, u.nSeqs, intro, upto, t, slices)
    ensures TailsKept(b, used1, us + [u], nKeepTail)
  {
    var sets := b.SetsOf(intro);
    EqualSize(b, used0, used1, nUbatch, sequential, nKeepTail, u.idxs, u.nSeqs, intro, upto, t, slices);
    forall k: nat | k < u.nSeqs ensures SetMoves(b.lists, used0, used1, sets[k], slices[k], nKeepTail) {
      EqualTails(b, used0, used1, nUbatch, sequential, nKeepTail, u.idxs, u.nSeqs, intro, upto, t, slices, k);
    }
    assert forall k: nat :: k < u.nSeqs ==> sets[..u.nSeqs][k] == sets[k];
    assert forall k: nat :: k < u.nSeqs ==> |slices[k]| == |slices[0]|;
    TailsMove(b, us, u, used0, used1, sets[..u.nSeqs], b.Cuts(used0, sets[..u.nSeqs]), slices, nKeepTail);
  }

  lemma TailsMove(b: BatchAllocr, us: seq<Ubatch>, u: Ubatch, used0: seq<bool>, used1: seq<bool>, sets: seq<SeqSet>,
                  starts: seq<nat>, slices: seq<seq<nat>>, nKeepTail: nat)
    requires b.Shape() && Prefixed(b.lists, used0) && TailsKept(b, used0, us, nKeepTail)
    requires Takes(b.seqSet, b.lists, used0, used1, sets, starts, slices) && u.idxs == Concat(slices)
    requires forall k: nat :: k < |sets| ==>
      SetMoves(b.lists, used0, used1, sets[k], slices[k], nKeepTail) && slices[k] != []
    ensures TailsKept(b, used1, us + [u], nKeepTail)
  {
    ConcatElems(slices);
    forall s | s in b.lists ensures TailKept(us + [u], used1, b.lists[s], nKeepTail) {
      assert TailKept(us, used0, b.lists[s], nKeepTail);
      if s in sets {
        var k: nat :| k < |sets| && sets[k] == s;
        assert Within(slices[k], u.idxs);
        TailTaken(us, u, b.lists, used0, used1, s, nKeepTail, slices[k]);
      } else {
        EqualOthers(b, used0, used1, sets, starts, slices, s);
        TailStays(us, u, used0, used1, b.lists[s], nKeepTail);
      }
    }
  }

  // Once every token is used, every tail lies in one micro-batch.
  lemma TailsAtEnd(b: BatchAllocr, used: seq<bool>, us: seq<Ubatch>, nKeepTail: nat)
    requires b.Shape() && |used| == b.n && (forall i :: 0 <= i < b.n ==> used[i])
    requires TailsKept(b, used, us, nKeepTail) && nKeepTail > 0
    ensures forall s :: s in b.lists ==> TailTogether(us, b.lists[s], nKeepTail)
  {
    forall s | s in b.lists ensures TailTogether(us, b.lists[s], nKeepTail) {
      assert ListOk(b.seqSet, s, b.lists[s]);
      CutIs(used, b.lists[s], |b.lists[s]|);
      assert TailKept(us, used, b.lists[s], nKeepTail);
    }
  }

  // ---------- runs ----------

  predicate AllOk(us: seq<Ubatch>, output: seq<bool>) {
    forall j :: 0 <= j < |us| ==> UbatchOk(us[j], output)
  }

  // The micro-batches hold every token exactly once, each of them the same number for all its sequences, and
  // the counters agree.
  ghost predicate Partitions(b: BatchAllocr, us: seq<Ubatch>)
    reads b
  {
    && b.Valid() && b.emitted == Concat(Rows(us)) && Permutation(b.emitted, b.n) && b.nUsed == b.n
    && AllOk(us, b.output)
  }

  lemma UsedUp(b: BatchAllocr, us: seq<Ubatch>)
    requires b.Valid() && b.emitted == Concat(Rows(us)) && b.nUsed == b.n && AllOk(us, b.output)
    ensures Partitions(b, us)
  {
    FullMeansAll(b.emitted, b.n);
  }

  // The micro-batches of a simple split: one sequence for each token, and full up to the last of them.
  predicate AllSimple(us: seq<Ubatch>, nUbatch: nat) {
    forall j :: 0 <= j < |us| ==> Simple(us, nUbatch, j)
  }

  predicate Simple(us: seq<Ubatch>, nUbatch: nat, j: nat)
    requires j < |us|
  {
    var limit := if nUbatch == 0 then 1 else nUbatch;
    OneByOne(us[j]) && 1 <= |us[j].idxs| <= limit && (j + 1 < |us| ==> |us[j].idxs| == limit)
  }

  // Unless tokens are left, the last micro-batch need not be full.
  predicate LastIsFull(us: seq<Ubatch>, nUbatch: nat) {
    us != [] ==> |us[|us| - 1].idxs| >= nUbatch
  }

  lemma OneMoreSimple(us: seq<Ubatch>, nUbatch: nat, u: Ubatch)
    requires AllSimple(us, nUbatch) && LastIsFull(us, nUbatch)
    requires OneByOne(u) && 1 <= |u.idxs| <= if nUbatch == 0 then 1 else nUbatch
    ensures AllSimple(us + [u], nUbatch)
  {
    forall j: nat | j < |us + [u]| ensures Simple(us + [u], nUbatch, j) {
      assert j < |us| ==> (us + [u])[j] == us[j] && Simple(us, nUbatch, j);
    }
  }

  // split_simple until it returns nothing.
  method RunSimple(b: BatchAllocr, nUbatch: nat) returns (us: seq<Ubatch>)
    requires b.Valid() && b.emitted == []
    modifies b
    ensures Partitions(b, us)
    ensures b.emitted == seq(b.n, k requires 0 <= k < b.n => k)
    ensures AllSimple(us, nUbatch)
  {
    us := [];
    assert Rows(us) == [];
    while true
      invariant b.Valid() && b.Front() && b.emitted == Concat(Rows(us)) && AllOk(us, b.output)
      invariant forall k :: 0 <= k < |b.emitted| ==> b.emitted[k] == k
      invariant AllSimple(us, nUbatch) && (b.nUsed < b.n ==> LastIsFull(us, nUbatch))
      decreases b.n - b.nUsed
    {
      var ubatch; ghost var first;
      ubatch, first := b.SplitSimple(nUbatch);
      if |ubatch.idxs| == 0 {
        break;
      }
      RowsAppend(us, ubatch);
      OneMoreSimple(us, nUbatch, ubatch);
      us := us + [ubatch];
    }
    UsedUp(b, us);
  }

  // What holds between the calls of a run of split_equal.
  ghost predicate EqualRunning(b: BatchAllocr, us: seq<Ubatch>, nUbatch: nat, sequential: bool, nKeepTail: nat)
    reads b
  {
    && b.Valid() && b.emitted == Concat(Rows(us)) && AllOk(us, b.output) && TailsKept(b, b.used, us, nKeepTail)
    && AllFromEqual(b, nUbatch, sequential, nKeepTail, us)
  }

  // One round of the loop.
  method EqualRound(b: BatchAllocr, us: seq<Ubatch>, nUbatch: nat, sequential: bool, nKeepTail: nat)
    returns (us': seq<Ubatch>, done: bool)
    requires EqualRunning(b, us, nUbatch, sequential, nKeepTail) && (nKeepTail > 0 ==> nUbatch > nKeepTail)
    modifies b
    ensures EqualRunning(b, us', nUbatch, sequential, nKeepTail)
    ensures done <==> (sequential && b.hasCpl) || old(b.nUsed) == b.n
    ensures done ==> us' == us && b.nUsed == old(b.nUsed)
    ensures !done ==> old(b.nUsed) < b.nUsed <= b.n
  {
    ghost var used0 := b.used;
    UsedIs(b, us);
    var ubatch; ghost var intro, upto, t, slices;
    ubatch, intro, upto, t, slices := b.SplitEqual(nUbatch, sequential, nKeepTail);
    FullMeansAll(b.emitted, b.n);
    if |ubatch.idxs| == 0 {
      return us, true;
    }
    TailsStep(b, us, ubatch, used0, b.used, nUbatch, sequential, nKeepTail, intro, upto, t, slices);
    RowsAppend(us, ubatch);
    UsedIs(b, us + [ubatch]);
    assert FromEqual(b, nUbatch, sequential, nKeepTail, us, ubatch);
    OneMoreFromEqual(b, nUbatch, sequential, nKeepTail, us, ubatch);
    us', done := us + [ubatch], false;
  }

  // split_equal until it returns nothing.
  method RunEqual(b: BatchAllocr, nUbatch: nat, sequential: bool, nKeepTail: nat) returns (us: seq<Ubatch>)
    requires b.Valid() && b.emitted == [] && (nKeepTail > 0 ==> nUbatch > nKeepTail)
    modifies b
    ensures b.Valid() && b.emitted == Concat(Rows(us))
    ensures if sequential && b.hasCpl then us == [] else Partitions(b, us)
    ensures AllFromEqual(b, nUbatch, sequential, nKeepTail, us)
    ensures nKeepTail > 0 && !(sequential && b.hasCpl) ==>
      forall s :: s in b.lists ==> TailTogether(us, b.lists[s], nKeepTail)
  {
    us := [];
    assert Rows(us) == [];
    TailsAtStart(b, nKeepTail);
    var done := false;
    while !done
      invariant EqualRunning(b, us, nUbatch, sequential, nKeepTail)
      invariant done ==> (sequential && b.hasCpl) || b.nUsed == b.n
      invariant sequential && b.hasCpl ==> us == []
      decreases !done, b.n - b.nUsed
    {
      us, done := EqualRound(b, us, nUbatch, sequential, nKeepTail);
    }
    if !(sequential && b.hasCpl) {
      UsedUp(b, us);
      if nKeepTail > 0 {
        TailsAtEnd(b, b.used, us, nKeepTail);
      }
    }
  }

  lemma TailsAtStart(b: BatchAllocr, nKeepTail: nat)
    requires b.Valid() && b.emitted == []
    ensures TailsKept(b, b.used, [], nKeepTail)
  {
    forall s | s in b.lists ensures TailKept([], b.used, b.lists[s], nKeepTail) {
      assert ListOk(b.seqSet, s, b.lists[s]);
      CutIs(b.used, b.lists[s], 0);
    }
  }

  // u is what split_seq emits from the tokens that the micro-batches in prior have left.
  ghost predicate FromSeq(b: BatchAllocr, nUbatch: nat, prior: seq<Ubatch>, u: Ubatch)
    requires b.Shape()
  {
    && OneSequence(u) && 1 <= |u.idxs| <= (if nUbatch == 0 then 1 else nUbatch)
    && exists upto :: b.SeqChain(UsedAfter(b.n, prior), u.idxs, upto) && (upto == b.n || |u.idxs| >= nUbatch)
  }

  ghost predicate AllFromSeq(b: BatchAllocr, nUbatch: nat, us: seq<Ubatch>)
    requires b.Shape()
  {
    forall j :: 0 <= j < |us| ==> FromSeq(b, nUbatch, us[..j], us[j])
  }

  lemma OneMoreFromSeq(b: BatchAllocr, nUbatch: nat, us: seq<Ubatch>, u: Ubatch)
    requires b.Shape() && AllFromSeq(b, nUbatch, us) && FromSeq(b, nUbatch, us, u)
    ensures AllFromSeq(b, nUbatch, us + [u])
  {
    forall j | 0 <= j < |us + [u]| ensures FromSeq(b, nUbatch, (us + [u])[..j], (us + [u])[j]) {
      assert (us + [u])[..j] == us[..j];
      assert us[..|us|] == us;
      if j < |us| { assert FromSeq(b, nUbatch, us[..j], us[j]); }
    }
  }

  // split_seq until it returns nothing.
  method RunSeq(b: BatchAllocr, nUbatch: nat) returns (us: seq<Ubatch>)
    requires b.Valid() && b.emitted == []
    modifies b
    ensures Partitions(b, us) && AllFromSeq(b, nUbatch, us)
  {
    us := [];
    assert Rows(us) == [];
    while true
      invariant b.Valid() && b.emitted == Concat(Rows(us)) && AllOk(us, b.output)
      invariant AllFromSeq(b, nUbatch, us)
      decreases b.n - b.nUsed
    {
      UsedIs(b, us);
      var ubatch; ghost var upto;
      ubatch, upto := b.SplitSeq(nUbatch);
      FullMeansAll(b.emitted, b.n);
      if |ubatch.idxs| == 0 {
        break;
      }
      OneMoreFromSeq(b, nUbatch, us, ubatch);
      RowsAppend(us, ubatch);
      us := us + [ubatch];
    }
    UsedUp(b, us);
  }

  // ---------- init_batch ----------

  datatype Option<T> = None | Some(value: T)

  // The simple split is tried first, if the cache is unified, and then the equal one.  The flags say
  // whether the caches could prepare the micro-batches of the attempt.  Nothing of a failed attempt
  // stays behind, and the failure is exactly described.
  method InitBatch(b: BatchAllocr, nUbatch: nat, unified: bool, simpleFits: bool, equalFits: bool)
    returns (r: Option<seq<Ubatch>>)
    requires b.Shape() && b.n > 0
    modifies b
    ensures r.Some? <==> (unified && simpleFits) || ((unified || !b.hasCpl) && equalFits)
    ensures r.Some? ==> Partitions(b, r.value)
    ensures r.Some? && unified && simpleFits ==>
      b.emitted == seq(b.n, k requires 0 <= k < b.n => k) && AllSimple(r.value, nUbatch)
    ensures r.Some? && !(unified && simpleFits) ==> AllFromEqual(b, nUbatch, !unified, 0, r.value)
  {
    if unified {
      b.SplitReset();
      var ubatches := RunSimple(b, nUbatch);
      if b.nUsed >= b.n && simpleFits {
        return Some(ubatches);
      }
    }
    b.SplitReset();
    var ubatches := RunEqual(b, nUbatch, !unified, 0);
    if b.nUsed < b.n {
      return None;
    }
    if !equalFits {
      return None;
    }
    return Some(ubatches);
  }

  // ---------- what the limit does not exclude ----------

  // Where token i lies among the tokens of intro.
  lemma {:induction false} Place(intro: seq<nat>, i: nat, from: nat) returns (k: nat)
    requires from <= |intro| && (from > 0 ==> intro[from - 1] < i)
    ensures k <= |intro| && (Between(intro, k, i) || (k < |intro| && intro[k] == i))
    decreases |intro| - from
  {
    if from < |intro| && intro[from] < i {
      k := Place(intro, i, from + 1);
    } else {
      k := from;
    }
  }

  // The choice is greedy: an unused token that was read and brought in no set overlaps a chosen one.
  lemma Greedy(b: BatchAllocr, used: seq<bool>, intro: seq<nat>, upto: nat, i: nat)
    requires b.Shape() && Chosen(b.seqIds, b.seqSet, used, false, intro, upto) && i < upto && !used[i]
    ensures exists k :: 0 <= k < |intro| && b.seqSet[intro[k]] * b.seqSet[i] != {}
  {
    var k := Place(intro, i, 0);
    if k < |intro| && intro[k] == i {
      assert b.seqIds[i][0] in b.seqSet[intro[k]] * b.seqSet[i];
    } else {
      assert Passed(b.seqIds, b.seqSet, used, false, intro, k, i);
      var m :| 0 <= m < k && !(b.seqSet[intro[m]] !! b.seqSet[i]);
      Overlap(b.seqSet[intro[m]], b.seqSet[i]);
    }
  }

  // Two tokens of different sequences and a limit of one: the micro-batch has two tokens.
  lemma OneOver(b: BatchAllocr, used1: seq<bool>, idxs: seq<nat>, nSeqs: nat, intro: seq<nat>, upto: nat, t: nat,
                slices: seq<seq<nat>>)
    requires b.Shape() && b.seqIds == [[0], [1]]
    requires b.EqualSplit([false, false], used1, 1, false, 0, idxs, nSeqs, intro, upto, t, slices)
    ensures |idxs| == 2
  {
    assert b.seqSet[0] == {0} && b.seqSet[1] == {1};
    if upto == 2 {
      Greedy(b, [false, false], intro, upto, 0);
      Greedy(b, [false, false], intro, upto, 1);
      var k :| 0 <= k < |intro| && b.seqSet[intro[k]] * b.seqSet[0] != {};
      var m :| 0 <= m < |intro| && b.seqSet[intro[m]] * b.seqSet[1] != {};
      assert intro[k] == 0 && intro[m] == 1;
    }
    assert |intro| == 2;
    EqualSize(b, [false, false], used1, 1, false, 0, idxs, nSeqs, intro, upto, t, slices);
  }
}
