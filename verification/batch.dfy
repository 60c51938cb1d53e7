/**
 `llama_batch_allocr` (llama-batch.cpp): the tokens of a batch are cut into micro-batches by one of
 three strategies.  The object keeps which tokens are used, how many, and the output tokens in the
 order in which they were emitted.
 */
module Batch {

  import opened BatchLists
  import opened BatchEqual

  datatype Ubatch = Ubatch(idxs: seq<nat>, nSeqs: nat, nSeqTokens: nat, equalSeqs: bool, output: seq<bool>)

  const EMPTY_UBATCH := Ubatch([], 0, 0, false, [])

  // The tokens are those of nSeqs sequences, of nSeqTokens tokens each.
  predicate Rectangular(u: Ubatch) {
    u.nSeqs >= 1 && u.nSeqTokens >= 1 && |u.idxs| == u.nSeqs * u.nSeqTokens
  }

  // The micro-batch of a simple split: every token is a sequence of its own.
  predicate OneByOne(u: Ubatch) {
    u.nSeqs == |u.idxs| && u.nSeqTokens == 1 && !u.equalSeqs
  }

  // The micro-batch of a sequence split: one sequence.
  predicate OneSequence(u: Ubatch) {
    u.nSeqs == 1 && u.nSeqTokens == |u.idxs| && u.equalSeqs
  }

  lemma {:induction false} OneMoreRow(n: nat, x: nat, y: nat)
    requires x < y
    ensures n * x + n <= n * y
    decreases y
  {
    assert n * y == n * (y - 1) + n;
    if x + 1 < y { OneMoreRow(n, x, y - 1); }
  }

  lemma DividesEvenly(size: nat, n: nat, width: nat)
    requires n >= 1 && size == n * width
    ensures size / n == width
  {
    var q := size / n;
    assert n * q <= size < n * q + n;
    if q < width { OneMoreRow(n, q, width); }
    if width < q { OneMoreRow(n, width, q); }
  }

  // The micro-batch carries the output flags of its tokens.
  predicate FlagsOf(u: Ubatch, output: seq<bool>) {
    |u.output| == |u.idxs| && forall k :: 0 <= k < |u.idxs| ==> u.idxs[k] < |output| && u.output[k] == output[u.idxs[k]]
  }

  predicate UbatchOk(u: Ubatch, output: seq<bool>) {
    FlagsOf(u, output) && Rectangular(u)
  }

  // ---------- the allocator ----------

  class BatchAllocr {
    const n: nat                          // tokens in the batch
    const seqIds: seq<seq<nat>>           // the sequence ids of every token
    const seqSet: seq<SeqSet>             // the same as sets
    const output: seq<bool>               // tokens whose output is wanted
    const hasCpl: bool                    // some token has several sequence ids
    const lists: map<SeqSet, seq<nat>>    // seq_set_map

    var used: seq<bool>
    var nUsed: nat
    var outIds: seq<nat>

    ghost var emitted: seq<nat>           // what all micro-batches so far consist of

    ghost predicate Shape() {
      && |seqSet| == |seqIds| == |output| == n
      && (forall i :: 0 <= i < n ==> seqIds[i] != [] && seqSet[i] == Elems(seqIds[i]))
      && (hasCpl <==> exists i :: 0 <= i < n && |seqIds[i]| > 1)
      && ListsOf(seqSet, lists)
    }

    // used, the counter and out_ids all describe the emitted tokens, and the used tokens of every
    // sequence set come first.
    ghost predicate Valid()
      reads this
    {
      && Shape() && |used| == n
      && NoDup(emitted) && Below(emitted, n)
      && (forall i: nat :: i < n ==> (used[i] <==> i in emitted))
      && nUsed == |emitted| && outIds == Flagged(emitted, output)
      && Prefixed(lists, used)
    }

    // init, once its checks have passed.
    constructor (seqIds: seq<seq<nat>>, output: seq<bool>)
      requires |seqIds| == |output| && forall i :: 0 <= i < |seqIds| ==> seqIds[i] != []
      ensures Valid() && emitted == []
      ensures this.seqIds == seqIds && this.output == output && n == |seqIds|
    {
      n := |seqIds|;
      this.seqIds, this.output := seqIds, output;
      var sets := seq(|seqIds|, i requires 0 <= i < |seqIds| => Elems(seqIds[i]));
      seqSet := sets;
      var cpl := CheckCoupled(seqIds);
      hasCpl := cpl;
      var m := BuildLists(sets);
      lists := m;
      used, nUsed, outIds, emitted := seq(|seqIds|, _ => false), 0, [], [];
      new;
      FreshPrefixed();
    }

    lemma FreshPrefixed()
      requires Shape() && used == seq(n, _ => false)
      ensures Prefixed(lists, used)
    {
      forall s | s in lists ensures CutAt(used, lists[s], Cut(used, lists[s])) {
        assert ListOk(seqSet, s, lists[s]);
        CutIs(used, lists[s], 0);
      }
    }

    // split_reset
    method SplitReset()
      requires Shape()
      modifies this
      ensures Valid() && emitted == []
    {
      outIds := [];
      nUsed := 0;
      used := seq(n, _ => false);
      emitted := [];
      FreshPrefixed();
    }

    // ubatch_add: the output tokens of the new micro-batch are appended to out_ids.  The number of sequences
    // divides the number of tokens; width is the number of tokens of each.
    method UbatchAdd(idxs: seq<nat>, nSeqs: nat, equalSeqs: bool, ghost width: nat) returns (u: Ubatch)
      requires |output| == n && Below(idxs, n) && nSeqs >= 1 && width >= 1 && |idxs| == nSeqs * width
      modifies `outIds
      ensures outIds == old(outIds) + Flagged(idxs, output)
      ensures u == Ubatch(idxs, nSeqs, width, equalSeqs, u.output) && UbatchOk(u, output)
    {
      var flags: seq<bool> := [];
      for i := 0 to |idxs|
        invariant outIds == old(outIds) + Flagged(idxs[..i], output)
        invariant |flags| == i && forall k :: 0 <= k < i ==> flags[k] == output[idxs[k]]
      {
        assert idxs[..i + 1] == idxs[..i] + [idxs[i]];
        FlaggedMore(idxs[..i], idxs[i], output);
        Associate(old(outIds), Flagged(idxs[..i], output), FlaggedHead(idxs[i], output));
        flags := flags + [output[idxs[i]]];
        if output[idxs[i]] {
          outIds := outIds + [idxs[i]];
        }
      }
      assert idxs[..|idxs|] == idxs;
      DividesEvenly(|idxs|, nSeqs, width);
      u := Ubatch(idxs, nSeqs, |idxs| / nSeqs, equalSeqs, flags);
    }

    // The first unused token, or n.
    method FirstUnused() returns (i: nat)
      requires |used| == n
      ensures i <= n && (forall k :: 0 <= k < i ==> used[k]) && (i < n ==> !used[i])
    {
      i := 0;
      while i < n && used[i]
        invariant i <= n && forall k :: 0 <= k < i ==> used[k]
      {
        i := i + 1;
      }
    }

    // A micro-batch of tokens that were unused so far joins the emitted ones.
    lemma Emitting(before: seq<nat>, used0: seq<bool>, idxs: seq<nat>)
      requires |used0| == |used| == n
      requires NoDup(before) && Below(before, n) && forall i: nat :: i < n ==> (used0[i] <==> i in before)
      requires NoDup(idxs) && Below(idxs, n)
      requires forall i: nat :: i < n ==> (used[i] <==> used0[i] || i in idxs) && (used0[i] ==> i !in idxs)
      ensures NoDup(before + idxs) && Below(before + idxs, n)
      ensures forall i: nat :: i < n ==> (used[i] <==> i in before + idxs)
    {
      assert Apart(before, idxs) by {
        forall i | i in before ensures i !in idxs {
        }
      }
      NoDupAppend(before, idxs);
    }

    // The last step of every strategy: the chosen tokens, already marked, become a micro-batch.  All
    // is well if none of them was emitted before.
    method Commit(idxs: seq<nat>, nSeqs: nat, equalSeqs: bool, ghost width: nat) returns (u: Ubatch)
      requires Shape() && |used| == n && Prefixed(lists, used)
      requires Below(emitted + idxs, n) && Below(idxs, n)
      requires forall i: nat :: i < n ==> (used[i] <==> i in emitted + idxs)
      requires nUsed == |emitted| + |idxs| && outIds == Flagged(emitted, output)
      requires nSeqs >= 1 && width >= 1 && |idxs| == nSeqs * width
      modifies `outIds, `emitted
      ensures Valid() <==> NoDup(emitted)
      ensures emitted == old(emitted) + idxs
      ensures u == Ubatch(idxs, nSeqs, width, equalSeqs, u.output) && UbatchOk(u, output)
    {
      u := UbatchAdd(idxs, nSeqs, equalSeqs, width);
      FlaggedConcat(emitted, idxs, output);
      emitted := emitted + idxs;
    }

    // ---------- split_simple ----------

    // The used tokens are the first ones of the batch.
    predicate Front()
      reads this
    {
      |used| == n && nUsed <= n && forall i :: 0 <= i < n ==> (used[i] <==> i < nUsed)
    }

    // The loop of split_simple.
    method TakeRun(nUbatch: nat, first: nat) returns (idxs: seq<nat>)
      requires |used| == n && first < n
      modifies `used, `nUsed
      ensures |used| == n && nUsed == old(nUsed) + |idxs| && first + |idxs| <= n
      ensures forall i :: 0 <= i < n ==> (used[i] <==> old(used[i]) || first <= i < first + |idxs|)
      ensures idxs == seq(|idxs|, k requires 0 <= k < |idxs| => first + k)
      ensures 1 <= |idxs| && (|idxs| <= nUbatch || |idxs| == 1) && (first + |idxs| < n ==> |idxs| >= nUbatch)
    {
      idxs := [];
      var curIdx := first;
      while true
        invariant first <= curIdx < n && |idxs| == curIdx - first
        invariant forall k :: 0 <= k < |idxs| ==> idxs[k] == first + k
        invariant |used| == n && nUsed == old(nUsed) + |idxs|
        invariant forall i :: 0 <= i < n ==> (used[i] <==> old(used[i]) || first <= i < curIdx)
        invariant idxs == [] || |idxs| < nUbatch
        decreases n - curIdx
      {
        idxs := idxs + [curIdx];
        used := used[curIdx := true];
        nUsed := nUsed + 1;
        curIdx := curIdx + 1;
        if curIdx >= n {
          break;
        }
        if |idxs| >= nUbatch {
          break;
        }
      }
    }

    lemma RunElems(idxs: seq<nat>, first: nat)
      requires idxs == seq(|idxs|, k requires 0 <= k < |idxs| => first + k)
      ensures NoDup(idxs) && Below(idxs, first + |idxs|)
      ensures forall i: nat :: i in idxs <==> first <= i < first + |idxs|
    {
      forall i: nat ensures i in idxs <==> first <= i < first + |idxs| {
        if first <= i < first + |idxs| {
          assert idxs[i - first] == i;
        }
      }
    }

    // A run that starts at the first unused token leaves the used tokens of every set at the head of
    // its list.
    lemma RunPrefixed(used0: seq<bool>, first: nat, size: nat)
      requires Shape() && |used| == |used0| == n && Prefixed(lists, used0) && first <= n
      requires forall i :: 0 <= i < first ==> used0[i]
      requires forall i :: 0 <= i < n ==> (used[i] <==> used0[i] || first <= i < first + size)
      ensures Prefixed(lists, used)
    {
      forall s | s in lists ensures CutAt(used, lists[s], Cut(used, lists[s])) {
        assert ListOk(seqSet, s, lists[s]);
        assert CutAt(used0, lists[s], Cut(used0, lists[s]));
        PrefixHasCut(lists[s], 0);
      }
    }

    lemma {:induction false} PrefixHasCut(list: seq<nat>, from: nat)
      requires |used| == n && Below(list, n) && from <= |list|
      requires forall j, k :: 0 <= j < k < |list| && used[list[k]] ==> used[list[j]]
      requires forall k :: 0 <= k < from ==> used[list[k]]
      ensures CutAt(used, list, Cut(used, list))
      decreases |list| - from
    {
      if from < |list| && used[list[from]] {
        PrefixHasCut(list, from + 1);
      } else {
        assert forall k :: from < k < |list| && used[list[k]] ==> used[list[from]];
        assert CutAt(used, list, from);
        CutIs(used, list, from);
      }
    }

    lemma FrontFirst(i: nat)
      requires Front() && i <= n && (forall k :: 0 <= k < i ==> used[k]) && (i < n ==> !used[i])
      ensures i == nUsed
    {
      assert nUsed < n ==> !used[nUsed];
    }

    // split_simple: the tokens from the first unused one on, as many as fit.  The loop does not look
    // at the flags again, so the result is right exactly when it meets no used token; in a run of
    // split_simple alone the used tokens come first and it meets none.
    method SplitSimple(nUbatch: nat) returns (u: Ubatch, ghost first: nat)
      requires Valid()
      modifies this
      ensures first <= n && (forall i :: 0 <= i < first ==> old(used)[i]) && (first < n ==> !old(used)[first])
      ensures u.idxs == seq(|u.idxs|, k requires 0 <= k < |u.idxs| => first + k) && first + |u.idxs| <= n
      ensures emitted == old(emitted) + u.idxs && nUsed == old(nUsed) + |u.idxs|
      ensures u.idxs == [] <==> first == n
      ensures u.idxs == [] ==> u == EMPTY_UBATCH
      ensures u.idxs != [] ==> OneByOne(u) && UbatchOk(u, output)
      ensures |u.idxs| <= if nUbatch == 0 then 1 else nUbatch
      ensures first + |u.idxs| < n ==> |u.idxs| >= nUbatch
      ensures Valid() <==> forall i :: first <= i < first + |u.idxs| ==> !old(used)[i]
      ensures old(Front()) ==> Valid() && Front() && first == old(nUsed)
    {
      var curIdx := FirstUnused();
      first := curIdx;
      if Front() { FrontFirst(first); }
      if curIdx >= n {
        assert emitted + [] == emitted;
        return EMPTY_UBATCH, n;
      }
      var idxs := TakeRun(nUbatch, curIdx);
      RunValid(emitted, old(used), idxs, first);
      u := Commit(idxs, |idxs|, false, 1);
    }

    // All of Valid for the run, except for the order in which it is written down.
    lemma RunValid(before: seq<nat>, used0: seq<bool>, idxs: seq<nat>, first: nat)
      requires Shape() && |used0| == |used| == n && Prefixed(lists, used0)
      requires NoDup(before) && Below(before, n) && forall i: nat :: i < n ==> (used0[i] <==> i in before)
      requires first + |idxs| <= n && idxs == seq(|idxs|, k requires 0 <= k < |idxs| => first + k)
      requires forall i :: 0 <= i < first ==> used0[i]
      requires forall i :: 0 <= i < n ==> (used[i] <==> used0[i] || first <= i < first + |idxs|)
      ensures Prefixed(lists, used) && Below(before + idxs, n) && Below(idxs, n)
      ensures forall i: nat :: i < n ==> (used[i] <==> i in before + idxs)
      ensures NoDup(before + idxs) <==> forall i :: first <= i < first + |idxs| ==> !used0[i]
    {
      RunElems(idxs, first);
      RunPrefixed(used0, first, |idxs|);
      RunClean(before, used0, idxs);
    }

    // Emitting a token that was emitted before is what makes the run wrong.
    lemma RunClean(before: seq<nat>, used0: seq<bool>, idxs: seq<nat>)
      requires |used0| == |used| == n
      requires NoDup(before) && Below(before, n) && forall i: nat :: i < n ==> (used0[i] <==> i in before)
      requires NoDup(idxs) && Below(idxs, n)
      requires forall i: nat :: i < n ==> (used[i] <==> used0[i] || i in idxs)
      ensures forall i: nat :: i < n ==> (used[i] <==> i in before + idxs)
      ensures Below(before + idxs, n)
      ensures NoDup(before + idxs) <==> forall i :: i in idxs ==> i < n && !used0[i]
    {
      if forall i :: i in idxs ==> i < n && !used0[i] {
        Emitting(before, used0, idxs);
      } else {
        var i: nat :| i in idxs && (i >= n || used0[i]);
        var p :| 0 <= p < |before| && before[p] == i;
        var q :| 0 <= q < |idxs| && idxs[q] == i;
        assert (before + idxs)[p] == (before + idxs)[|before| + q];
      }
    }

    // ---------- split_equal: the participating sets ----------

    // The body of the first loop: no overlap with the sets so far and, in sequential mode, the next
    // sequence id.
    method CanJoin(curSets: seq<SeqSet>, i: nat, sequential: bool, lastSeqId: int, ghost intro: seq<nat>)
      returns (add: bool)
      requires Shape() && i < n && |curSets| == |intro| && Below(intro, n)
      requires forall k :: 0 <= k < |intro| ==> curSets[k] == seqSet[intro[k]]
      requires intro != [] ==> lastSeqId == seqIds[intro[|intro| - 1]][0]
      ensures add <==> Admits(seqIds, seqSet, sequential, intro, |intro|, i)
    {
      add := true;
      for s := 0 to |curSets|
        invariant add
        invariant forall k :: 0 <= k < s ==> curSets[k] !! seqSet[i]
      {
        if curSets[s] * seqSet[i] != {} {
          add := false;
          assert seqSet[intro[s]] == curSets[s];
          break;
        }
        NoOverlap(curSets[s], seqSet[i]);
      }
      if sequential {
        add := add && (curSets == [] || seqIds[i][0] == lastSeqId + 1);
      }
    }

    method ChooseSets(nUbatch: nat, sequential: bool)
      returns (curSets: seq<SeqSet>, ghost intro: seq<nat>, ghost upto: nat)
      requires Shape() && |used| == n
      ensures Chosen(seqIds, seqSet, used, sequential, intro, upto)
      ensures |curSets| == |intro| && forall k :: 0 <= k < |intro| ==> curSets[k] == seqSet[intro[k]]
      ensures |curSets| <= nUbatch + 1 && (upto == n || |curSets| == nUbatch + 1)
    {
      curSets, intro, upto := [], [], 0;
      var lastSeqId: int := -1;
      for i := 0 to n
        invariant upto == i && Chosen(seqIds, seqSet, used, sequential, intro, i)
        invariant |curSets| == |intro| <= nUbatch
        invariant forall k :: 0 <= k < |intro| ==> curSets[k] == seqSet[intro[k]]
        invariant intro != [] ==> lastSeqId == seqIds[intro[|intro| - 1]][0]
      {
        upto := i + 1;
        if used[i] {
          ChosenSkip(seqIds, seqSet, used, sequential, intro, i);
          continue;
        }
        var add := CanJoin(curSets, i, sequential, lastSeqId, intro);
        if add {
          ChosenAdd(seqIds, seqSet, used, sequential, intro, i);
          curSets := curSets + [seqSet[i]];
          intro := intro + [i];
          lastSeqId := seqIds[i][0];
          if |curSets| > nUbatch {
            break;
          }
        } else {
          ChosenSkip(seqIds, seqSet, used, sequential, intro, i);
        }
      }
    }

    // The sets do not overlap, and each has an unused token.
    lemma ChosenSets(sequential: bool, sets: seq<SeqSet>, intro: seq<nat>, upto: nat)
      requires Shape() && |used| == n && Chosen(seqIds, seqSet, used, sequential, intro, upto)
      requires |sets| == |intro| && forall k :: 0 <= k < |intro| ==> sets[k] == seqSet[intro[k]]
      ensures forall k, m :: 0 <= k < m < |sets| ==> sets[k] !! sets[m]
      ensures Distinct(sets)
      ensures forall k :: 0 <= k < |sets| ==> sets[k] in lists && intro[k] in lists[sets[k]] && !used[intro[k]]
    {
      forall k, m | 0 <= k < m < |sets| ensures sets[k] !! sets[m] && sets[k] != sets[m] {
        assert Brought(seqIds, seqSet, used, sequential, intro, m);
        assert seqIds[intro[m]][0] in seqSet[intro[m]];
      }
      forall k | 0 <= k < |sets| ensures sets[k] in lists && intro[k] in lists[sets[k]] && !used[intro[k]] {
        assert Brought(seqIds, seqSet, used, sequential, intro, k);
        assert Listed(seqSet, lists, intro[k]);
      }
    }

    // The first unused token brings in the first set; there is one as long as tokens remain.
    lemma ChosenFirst(sequential: bool, intro: seq<nat>, upto: nat)
      requires Shape() && |used| == n && Chosen(seqIds, seqSet, used, sequential, intro, upto)
      ensures intro == [] ==> forall i :: 0 <= i < upto ==> used[i]
      ensures intro != [] ==> forall i :: 0 <= i < intro[0] ==> used[i]
    {
      forall i | 0 <= i < upto && (intro == [] || i < intro[0]) ensures used[i] {
        assert Passed(seqIds, seqSet, used, sequential, intro, 0, i);
      }
    }

    // The second loop: how far each set has been used.
    method StartIndices(sets: seq<SeqSet>, ghost intro: seq<nat>) returns (cur: seq<nat>)
      requires Shape() && |used| == n && Prefixed(lists, used) && |intro| == |sets|
      requires forall k :: 0 <= k < |sets| ==> sets[k] in lists && intro[k] in lists[sets[k]] && intro[k] < n && !used[intro[k]]
      ensures |cur| == |sets|
      ensures forall k :: 0 <= k < |sets| ==>
        cur[k] == Cut(used, lists[sets[k]]) < |lists[sets[k]]| && CutAt(used, lists[sets[k]], cur[k])
    {
      cur := [];
      for s := 0 to |sets|
        invariant |cur| == s
        invariant forall k :: 0 <= k < s ==>
          cur[k] == Cut(used, lists[sets[k]]) < |lists[sets[k]]| && CutAt(used, lists[sets[k]], cur[k])
      {
        var c := FirstUnusedOf(lists[sets[s]], intro[s]);
        cur := cur + [c];
      }
    }

    method FirstUnusedOf(list: seq<nat>, ghost witness_: nat) returns (c: nat)
      requires |used| == n && witness_ in list && witness_ < n && !used[witness_]
      requires CutAt(used, list, Cut(used, list))
      ensures c == Cut(used, list) < |list|
    {
      ghost var p: nat :| p < |list| && list[p] == witness_;
      c := 0;
      while used[list[c]]
        invariant c <= Cut(used, list) <= p
        decreases p - c
      {
        c := c + 1;
      }
    }

    // ---------- split_equal: taking tokens ----------

    // What the sets have taken since the call began with used0 and nUsed0.
    ghost predicate Taking(used0: seq<bool>, nUsed0: nat, sets: seq<SeqSet>, starts: seq<nat>, per: seq<seq<nat>>)
      reads this
    {
      && Shape() && Distinct(sets)
      && Takes(seqSet, lists, used0, used, sets, starts, per)
      && nUsed == nUsed0 + |Concat(per)|
    }

    // Set s takes its next token.
    method Take(ghost used0: seq<bool>, ghost nUsed0: nat, sets: seq<SeqSet>, ghost starts: seq<nat>,
                per: seq<seq<nat>>, s: nat, c: nat) returns (per': seq<seq<nat>>)
      requires Taking(used0, nUsed0, sets, starts, per) && s < |sets|
      requires c == starts[s] + |per[s]| < |lists[sets[s]]|
      modifies `used, `nUsed
      ensures Taking(used0, nUsed0, sets, starts, per')
      ensures per' == per[s := per[s] + [lists[sets[s]][c]]]
    {
      assert TakenFrom(used, lists, sets[s], starts[s], per[s]);
      assert ListOk(seqSet, sets[s], lists[sets[s]]);
      var idx := lists[sets[s]][c];
      CutUp(used, lists[sets[s]], c);
      per' := per[s := per[s] + [idx]];
      used := used[idx := true];
      nUsed := nUsed + 1;
      TakesOne(seqSet, lists, used0, old(used), used, sets, starts, per, s, per[s] + [idx]);
      ConcatReplace(per, s, per[s] + [idx]);
    }

    // Set s gives its last token back.
    method Untake(ghost used0: seq<bool>, ghost nUsed0: nat, sets: seq<SeqSet>, ghost starts: seq<nat>,
                  per: seq<seq<nat>>, s: nat) returns (per': seq<seq<nat>>)
      requires Taking(used0, nUsed0, sets, starts, per) && s < |sets| && per[s] != []
      modifies `used, `nUsed
      ensures Taking(used0, nUsed0, sets, starts, per')
      ensures per' == per[s := per[s][..|per[s]| - 1]]
    {
      assert TakenFrom(used, lists, sets[s], starts[s], per[s]);
      assert ListOk(seqSet, sets[s], lists[sets[s]]);
      ghost var c := starts[s] + |per[s]| - 1;
      var idx := per[s][|per[s]| - 1];
      assert idx == lists[sets[s]][c];
      var rest := per[s][..|per[s]| - 1];
      ConcatReplace(per, s, rest);
      CutDown(used, lists[sets[s]], c);
      per' := per[s := rest];
      used := used[idx := false];
      nUsed := nUsed - 1;
      TakesOne(seqSet, lists, used0, old(used), used, sets, starts, per, s, rest);
    }

    // The tokens taken from one list become unused again.
    method Clear(taken: seq<nat>, ghost list: seq<nat>, ghost c: nat)
      requires |used| == n && Increasing(list) && CutAt(used, list, c + |taken|) && nUsed >= |taken|
      requires taken == list[c..c + |taken|]
      modifies `used, `nUsed
      ensures |used| == n && CutAt(used, list, c) && nUsed == old(nUsed) - |taken|
      ensures forall i :: 0 <= i < n && i !in list ==> used[i] == old(used[i])
    {
      for k := 0 to |taken|
        invariant |used| == n && nUsed == old(nUsed) - k
        invariant forall i :: 0 <= i < n && i !in list ==> used[i] == old(used[i])
        invariant forall m :: 0 <= m < |list| ==> (used[list[m]] <==> m < c || c + k <= m < c + |taken|)
      {
        var idx := taken[k];
        assert idx == list[c + k];
        used := used[idx := false];
        nUsed := nUsed - 1;
      }
    }

    // Set s gives all its tokens back.
    method PutBack(ghost used0: seq<bool>, ghost nUsed0: nat, sets: seq<SeqSet>, ghost starts: seq<nat>,
                   taken: seq<nat>, ghost per: seq<seq<nat>>, s: nat) returns (ghost per': seq<seq<nat>>)
      requires Taking(used0, nUsed0, sets, starts, per) && s < |sets| && taken == per[s]
      modifies `used, `nUsed
      ensures Taking(used0, nUsed0, sets, starts, per')
      ensures per' == per[s := []]
    {
      assert TakenFrom(used, lists, sets[s], starts[s], per[s]);
      assert ListOk(seqSet, sets[s], lists[sets[s]]);
      ConcatReplace(per, s, []);
      Clear(taken, lists[sets[s]], starts[s]);
      per' := per[s := []];
      TakesOne(seqSet, lists, used0, old(used), used, sets, starts, per, s, []);
    }

    // starts and lens describe the sets as the call found them.
    ghost predicate Measured(sets: seq<SeqSet>, starts: seq<nat>, lens: seq<nat>) {
      && |starts| == |lens| == |sets|
      && forall k :: 0 <= k < |sets| ==> sets[k] in lists && starts[k] + lens[k] == |lists[sets[k]]|
    }

    // cur holds the position of every set in its list, `width` tokens after the start.
    predicate Cursors(cur: seq<nat>, starts: seq<nat>, width: nat) {
      |cur| == |starts| && forall k :: 0 <= k < |cur| ==> cur[k] == starts[k] + width
    }

    predicate Uniform(per: seq<seq<nat>>, t: nat) {
      forall k :: 0 <= k < |per| ==> |per[k]| == t
    }

    // Does every set have one more token?
    method CanExpand(sets: seq<SeqSet>, cur: seq<nat>) returns (can: bool)
      requires |cur| == |sets| && forall k :: 0 <= k < |sets| ==> sets[k] in lists
      ensures can <==> forall k :: 0 <= k < |sets| ==> cur[k] < |lists[sets[k]]|
    {
      can := true;
      for s := 0 to |sets|
        invariant can && forall k :: 0 <= k < s ==> cur[k] < |lists[sets[k]]|
      {
        if cur[s] >= |lists[sets[s]]| {
          can := false;
          break;
        }
      }
    }

    // Every set takes one more token.
    method Column(ghost used0: seq<bool>, ghost nUsed0: nat, sets: seq<SeqSet>, ghost starts: seq<nat>,
                  per: seq<seq<nat>>, cur: seq<nat>, ghost t: nat) returns (per': seq<seq<nat>>, cur': seq<nat>)
      requires Taking(used0, nUsed0, sets, starts, per) && Uniform(per, t) && Cursors(cur, starts, t)
      requires forall k :: 0 <= k < |sets| ==> sets[k] in lists && cur[k] < |lists[sets[k]]|
      modifies `used, `nUsed
      ensures Taking(used0, nUsed0, sets, starts, per') && Uniform(per', t + 1) && Cursors(cur', starts, t + 1)
    {
      per', cur' := per, cur;
      for s := 0 to |sets|
        invariant Taking(used0, nUsed0, sets, starts, per')
        invariant |cur'| == |sets|
        invariant forall k :: 0 <= k < |sets| ==> |per'[k]| == if k < s then t + 1 else t
        invariant forall k :: 0 <= k < |sets| ==> cur'[k] == if k < s then cur[k] + 1 else cur[k]
      {
        per' := Take(used0, nUsed0, sets, starts, per', s, cur'[s]);
        cur' := cur'[s := cur'[s] + 1];
      }
    }

    // The third loop: columns as long as every set has a token and the limit allows another one.
    method Expand(nUbatch: nat, ghost used0: seq<bool>, ghost nUsed0: nat, sets: seq<SeqSet>, ghost starts: seq<nat>,
                  ghost lens: seq<nat>, cur0: seq<nat>) returns (per: seq<seq<nat>>, cur: seq<nat>, ghost t: nat)
      requires sets != [] && Measured(sets, starts, lens) && Cursors(cur0, starts, 0)
      requires forall k :: 0 <= k < |sets| ==> lens[k] > 0
      requires Taking(used0, nUsed0, sets, starts, seq(|sets|, _ => []))
      modifies `used, `nUsed
      ensures Taking(used0, nUsed0, sets, starts, per) && Uniform(per, t) && Cursors(cur, starts, t)
      ensures Widest(lens, t, nUbatch)
    {
      per, cur, t := seq(|sets|, _ => []), cur0, 0;
      while true
        invariant Taking(used0, nUsed0, sets, starts, per) && Uniform(per, t) && Cursors(cur, starts, t)
        invariant forall k :: 0 <= k < |sets| ==> t <= lens[k]
        invariant t <= 1 || t * |sets| <= nUbatch
        invariant t > 0 ==> (t + 1) * |sets| <= nUbatch
        decreases lens[0] - t
      {
        var canExpand := CanExpand(sets, cur);
        if !canExpand {
          break;
        }
        per, cur := Column(used0, nUsed0, sets, starts, per, cur, t);
        t := t + 1;
        if (|per[0]| + 1) * |sets| > nUbatch {
          break;
        }
      }
    }

    // ---------- split_equal: the tail rule ----------

    // The longest prefix of sets that are used up or keep a whole tail.
    method KeepPrefix(sets: seq<SeqSet>, cur: seq<nat>, nKeepTail: nat, ghost starts: seq<nat>, ghost lens: seq<nat>, ghost t: nat)
      returns (nKeep: nat)
      requires Measured(sets, starts, lens) && Cursors(cur, starts, t) && forall k :: 0 <= k < |sets| ==> t <= lens[k]
      ensures nKeep <= |sets| && (forall k :: 0 <= k < nKeep ==> TailSafe(lens[k] - t, nKeepTail))
      ensures nKeep < |sets| ==> !TailSafe(lens[nKeep] - t, nKeepTail)
    {
      nKeep := 0;
      while nKeep < |sets|
        invariant nKeep <= |sets| && forall k :: 0 <= k < nKeep ==> TailSafe(lens[k] - t, nKeepTail)
      {
        var remaining := |lists[sets[nKeep]]| - cur[nKeep];
        assert remaining == lens[nKeep] - t;
        if remaining != 0 && remaining < nKeepTail {
          break;
        }
        nKeep := nKeep + 1;
      }
    }

    // The first set violates the rule: it is extended to its end if that fits, and otherwise cut
    // back to leave a whole tail.
    method ResolveFirst(nUbatch: nat, nKeepTail: nat, ghost used0: seq<bool>, ghost nUsed0: nat, sets: seq<SeqSet>,
                        ghost starts: seq<nat>, ghost lens: seq<nat>, per: seq<seq<nat>>, cur: seq<nat>, ghost t: nat)
      returns (per': seq<seq<nat>>)
      requires sets != [] && Measured(sets, starts, lens)
      requires Taking(used0, nUsed0, sets, starts, per) && Uniform(per, t) && Cursors(cur, starts, t)
      requires t <= lens[0] && !TailSafe(lens[0] - t, nKeepTail) && nUbatch > nKeepTail
      modifies `used, `nUsed
      ensures Taking(used0, nUsed0, sets, starts, per') && |per'| == |per|
      ensures |per'[0]| == if lens[0] <= nUbatch then lens[0] else lens[0] - nKeepTail
      ensures per'[1..] == per[1..]
    {
      per' := per;
      var c := cur[0];
      var size := |lists[sets[0]]|;
      if |per[0]| + (size - c) <= nUbatch {
        while size - c > 0
          invariant Taking(used0, nUsed0, sets, starts, per') && per'[1..] == per[1..]
          invariant c == starts[0] + |per'[0]| <= size
        {
          per' := Take(used0, nUsed0, sets, starts, per', 0, c);
          c := c + 1;
        }
      } else {
        while size - c < nKeepTail
          invariant Taking(used0, nUsed0, sets, starts, per') && per'[1..] == per[1..]
          invariant c == starts[0] + |per'[0]| && size - c <= nKeepTail
        {
          per' := Untake(used0, nUsed0, sets, starts, per', 0);
          c := c - 1;
        }
      }
    }

    // The sets from nKeep on give back what they took.
    method Defer(ghost used0: seq<bool>, ghost nUsed0: nat, sets: seq<SeqSet>, ghost starts: seq<nat>,
                 per: seq<seq<nat>>, nKeep: nat) returns (ghost per': seq<seq<nat>>)
      requires Taking(used0, nUsed0, sets, starts, per) && nKeep <= |sets|
      modifies `used, `nUsed
      ensures Taking(used0, nUsed0, sets, starts, per')
      ensures per'[..nKeep] == per[..nKeep] && forall k :: nKeep <= k < |per'| ==> per'[k] == []
    {
      per' := per;
      for s := nKeep to |sets|
        invariant Taking(used0, nUsed0, sets, starts, per')
        invariant per'[..nKeep] == per[..nKeep] && per'[s..] == per[s..]
        invariant forall k :: nKeep <= k < s ==> per'[k] == []
      {
        assert per'[s] == per'[s..][0] == per[s..][0] == per[s];
        ghost var before := per';
        per' := PutBack(used0, nUsed0, sets, starts, per[s], per', s);
        assert per'[s + 1..] == before[s..][1..] == per[s..][1..] == per[s + 1..];
      }
    }

    // The step of the tail rule as a whole.
    method KeepTail(nUbatch: nat, nKeepTail: nat, ghost used0: seq<bool>, ghost nUsed0: nat, sets: seq<SeqSet>,
                    ghost starts: seq<nat>, ghost lens: seq<nat>, per: seq<seq<nat>>, cur: seq<nat>, ghost t: nat)
      returns (per': seq<seq<nat>>, nSeqs: nat, ghost slices: seq<seq<nat>>, ghost width: nat)
      requires sets != [] && Measured(sets, starts, lens) && nUbatch > nKeepTail > 0
      requires Taking(used0, nUsed0, sets, starts, per) && Uniform(per, t) && Cursors(cur, starts, t)
      requires forall k :: 0 <= k < |sets| ==> t <= lens[k]
      modifies `used, `nUsed
      ensures Taking(used0, nUsed0, sets, starts, slices) && |per'| == |slices| && 1 <= nSeqs <= |slices|
      ensures per'[..nSeqs] == slices[..nSeqs] && forall k :: nSeqs <= k < |slices| ==> slices[k] == []
      ensures TailRule(lens, t, nUbatch, nKeepTail, nSeqs, width) && Uniform(slices[..nSeqs], width)
    {
      per' := per;
      width := t;
      var nKeep := KeepPrefix(sets, cur, nKeepTail, starts, lens, t);
      if nKeep == 0 {
        per' := ResolveFirst(nUbatch, nKeepTail, used0, nUsed0, sets, starts, lens, per, cur, t);
        nKeep := 1;
        width := |per'[0]|;
      }
      slices := Defer(used0, nUsed0, sets, starts, per', nKeep);
      nSeqs := nKeep;
      assert forall k :: 0 <= k < nSeqs ==> slices[..nSeqs][k] == per'[..nSeqs][k] == per'[k];
    }

    // ---------- split_equal ----------

    function SetsOf(intro: seq<nat>): (sets: seq<SeqSet>)
      requires Shape() && Below(intro, n)
    {
      seq(|intro|, k requires 0 <= k < |intro| => seqSet[intro[k]])
    }

    // The tokens idxs of nSeqs sets are the next slices, of the same width, of the lists of the sets
    // that take part: intro names the tokens that bring in the sets, t the columns that fit, slices
    // the parts of idxs; used0 and used1 are the flags before and after.
    ghost predicate EqualSplit(used0: seq<bool>, used1: seq<bool>, nUbatch: nat, sequential: bool, nKeepTail: nat,
                               idxs: seq<nat>, nSeqs: nat, intro: seq<nat>, upto: nat, t: nat, slices: seq<seq<nat>>)
      requires Shape()
    {
      && intro != [] && Chosen(seqIds, seqSet, used0, sequential, intro, upto)
      && |intro| <= nUbatch + 1 && (upto == n || |intro| == nUbatch + 1)
      && 1 <= |slices| == nSeqs <= |intro| && Uniform(slices, |slices[0]|)
      && idxs == Concat(slices)
      && (forall k :: 0 <= k < |intro| ==> SetsOf(intro)[k] in lists)
      && Widest(Lens(used0, lists, SetsOf(intro)), t, nUbatch)
      && TailRule(Lens(used0, lists, SetsOf(intro)), t, nUbatch, nKeepTail, nSeqs, |slices[0]|)
      && Takes(seqSet, lists, used0, used1, SetsOf(intro)[..nSeqs], Cuts(used0, SetsOf(intro)[..nSeqs]), slices)
    }

    // How far each set is used.
    function Cuts(used0: seq<bool>, sets: seq<SeqSet>): (cuts: seq<nat>)
      requires forall k :: 0 <= k < |sets| ==> sets[k] in lists
    {
      seq(|sets|, k requires 0 <= k < |sets| => Cut(used0, lists[sets[k]]))
    }

    // The loop that concatenates the lists of the sets that stay.
    method ConcatFirst(per: seq<seq<nat>>, nSeqs: nat) returns (idxs: seq<nat>)
      requires nSeqs <= |per|
      ensures idxs == Concat(per[..nSeqs])
    {
      idxs := [];
      for s := 0 to nSeqs
        invariant idxs == Concat(per[..s])
      {
        ConcatAppend(per[..s], per[s]);
        assert per[..s + 1] == per[..s] + [per[s]];
        idxs := idxs + per[s];
      }
    }

    // The part of split_equal that moves tokens.
    method EqualTokens(nUbatch: nat, nKeepTail: nat, sets: seq<SeqSet>, cur0: seq<nat>, ghost lens: seq<nat>)
      returns (idxs: seq<nat>, nSeqs: nat, ghost t: nat, ghost slices: seq<seq<nat>>)
      requires Shape() && |used| == n && sets != [] && Distinct(sets) && Measured(sets, cur0, lens)
      requires forall k :: 0 <= k < |sets| ==> lens[k] > 0 && CutAt(used, lists[sets[k]], cur0[k])
      requires nKeepTail > 0 ==> nUbatch > nKeepTail
      modifies `used, `nUsed
      ensures |slices| == nSeqs && 1 <= nSeqs <= |sets| && Uniform(slices, |slices[0]|)
      ensures idxs == Concat(slices) && nUsed == old(nUsed) + |idxs|
      ensures Takes(seqSet, lists, old(used), used, sets[..nSeqs], cur0[..nSeqs], slices)
      ensures Widest(lens, t, nUbatch) && TailRule(lens, t, nUbatch, nKeepTail, nSeqs, |slices[0]|)
    {
      TakesNothing(seqSet, lists, used, sets, cur0, seq(|sets|, _ => []));
      ghost var used0, nUsed0 := used, nUsed;
      var per, cur;
      per, cur, t := Expand(nUbatch, used0, nUsed0, sets, cur0, lens, cur0);
      nSeqs := |sets|;
      ghost var all, width := per, t;
      if nKeepTail > 0 {
        per, nSeqs, all, width := KeepTail(nUbatch, nKeepTail, used0, nUsed0, sets, cur0, lens, per, cur, t);
      }
      idxs := ConcatFirst(per, nSeqs);
      slices := all[..nSeqs];
      TakesPrefix(seqSet, lists, used0, used, sets, cur0, all, nSeqs);
      ConcatTrailing(all, nSeqs);
    }

    // split_equal
    method SplitEqual(nUbatch: nat, sequential: bool, nKeepTail: nat)
      returns (u: Ubatch, ghost intro: seq<nat>, ghost upto: nat, ghost t: nat, ghost slices: seq<seq<nat>>)
      requires Valid() && (nKeepTail > 0 ==> nUbatch > nKeepTail)
      modifies this
      ensures Valid() && emitted == old(emitted) + u.idxs
      ensures u.idxs == [] <==> (sequential && hasCpl) || old(nUsed) == n
      ensures u.idxs == [] ==> u == EMPTY_UBATCH && used == old(used) && nUsed == old(nUsed) && outIds == old(outIds)
      ensures u.idxs != [] ==> u.equalSeqs && UbatchOk(u, output)
      ensures u.idxs != [] ==>
        EqualSplit(old(used), used, nUbatch, sequential, nKeepTail, u.idxs, u.nSeqs, intro, upto, t, slices)
    {
      intro, upto, t, slices := [], 0, 0, [];
      if sequential && hasCpl {
        assert emitted + [] == emitted;
        return EMPTY_UBATCH, [], 0, 0, [];
      }
      var curSets;
      curSets, intro, upto := ChooseSets(nUbatch, sequential);
      ChosenFirst(sequential, intro, upto);
      if |curSets| == 0 {
        assert emitted + [] == emitted;
        FullMeansAll(emitted, n);
        return EMPTY_UBATCH, [], 0, 0, [];
      }
      u, t, slices := EmitSets(nUbatch, sequential, nKeepTail, curSets, intro, upto);
      FullMeansAll(emitted, n);
    }

    // The part of split_equal after the sets have been chosen.
    method EmitSets(nUbatch: nat, sequential: bool, nKeepTail: nat, sets: seq<SeqSet>, ghost intro: seq<nat>, ghost upto: nat)
      returns (u: Ubatch, ghost t: nat, ghost slices: seq<seq<nat>>)
      requires Valid() && (nKeepTail > 0 ==> nUbatch > nKeepTail)
      requires Chosen(seqIds, seqSet, used, sequential, intro, upto) && sets == SetsOf(intro) && intro != []
      requires |intro| <= nUbatch + 1 && (upto == n || |intro| == nUbatch + 1)
      modifies this
      ensures Valid() && emitted == old(emitted) + u.idxs && u.idxs != [] && u.equalSeqs && UbatchOk(u, output)
      ensures EqualSplit(old(used), used, nUbatch, sequential, nKeepTail, u.idxs, u.nSeqs, intro, upto, t, slices)
    {
      var idxs, nSeqs;
      idxs, nSeqs, t, slices := PlaceSets(nUbatch, sequential, nKeepTail, sets, intro, upto);
      ConcatUniform(slices, |slices[0]|);
      u := Commit(idxs, nSeqs, true, |slices[0]|);
    }

    method PlaceSets(nUbatch: nat, sequential: bool, nKeepTail: nat, sets: seq<SeqSet>, ghost intro: seq<nat>, ghost upto: nat)
      returns (idxs: seq<nat>, nSeqs: nat, ghost t: nat, ghost slices: seq<seq<nat>>)
      requires Valid() && (nKeepTail > 0 ==> nUbatch > nKeepTail)
      requires Chosen(seqIds, seqSet, used, sequential, intro, upto) && sets == SetsOf(intro) && intro != []
      requires |intro| <= nUbatch + 1 && (upto == n || |intro| == nUbatch + 1)
      modifies `used, `nUsed
      ensures |used| == n && Prefixed(lists, used) && nUsed == |emitted| + |idxs| && idxs != []
      ensures NoDup(emitted + idxs) && Below(emitted + idxs, n) && Below(idxs, n)
      ensures forall i: nat :: i < n ==> (used[i] <==> i in emitted + idxs)
      ensures EqualSplit(old(used), used, nUbatch, sequential, nKeepTail, idxs, nSeqs, intro, upto, t, slices)
    {
      ChosenSets(sequential, sets, intro, upto);
      var cur := StartIndices(sets, intro);
      ghost var lens := Lens(used, lists, sets);
      idxs, nSeqs, t, slices := EqualTokens(nUbatch, nKeepTail, sets, cur, lens);
      CutsAre(old(used), sets, cur, nSeqs);
      SlicesEmitted(emitted, old(used), sets[..nSeqs], cur[..nSeqs], slices);
      EqualProgress(lens, t, nUbatch, nKeepTail, nSeqs, slices);
    }

    lemma CutsAre(used0: seq<bool>, sets: seq<SeqSet>, cur: seq<nat>, m: nat)
      requires |cur| == |sets| >= m
      requires forall k :: 0 <= k < |sets| ==> sets[k] in lists && cur[k] == Cut(used0, lists[sets[k]])
      ensures cur[..m] == Cuts(used0, sets[..m])
      ensures forall k :: 0 <= k < m ==> sets[..m][k] == sets[k] && cur[..m][k] == cur[k]
    {
    }

    lemma SlicesEmitted(before: seq<nat>, used0: seq<bool>, sets: seq<SeqSet>, starts: seq<nat>, slices: seq<seq<nat>>)
      requires Shape() && |used0| == |used| == n && Distinct(sets)
      requires NoDup(before) && Below(before, n) && forall i: nat :: i < n ==> (used0[i] <==> i in before)
      requires Prefixed(lists, used0) && Takes(seqSet, lists, used0, used, sets, starts, slices)
      requires forall k :: 0 <= k < |sets| ==> CutAt(used0, lists[sets[k]], starts[k])
      ensures Prefixed(lists, used)
      ensures NoDup(before + Concat(slices)) && Below(before + Concat(slices), n) && Below(Concat(slices), n)
      ensures forall i: nat :: i < n ==> (used[i] <==> i in before + Concat(slices))
    {
      TakesPrefixed(seqSet, lists, used0, used, sets, starts, slices);
      TakesNoDup(seqSet, lists, used0, used, sets, starts, slices);
      ConcatElems(slices);
      forall i: nat | i < n
        ensures (used[i] <==> used0[i] || i in Concat(slices)) && (used0[i] ==> i !in Concat(slices))
      {
        TakesEmits(seqSet, lists, used0, used, sets, starts, slices, i);
      }
      Emitting(before, used0, Concat(slices));
    }

    // ---------- split_seq ----------

    // The unused tokens after xs[k], up to the next token of the chain or to upto, do not fit in the
    // sequence set of xs[k].
    predicate SkipsOthers(used0: seq<bool>, xs: seq<nat>, upto: nat, k: nat)
      requires Shape() && |used0| == n && k < |xs| && Below(xs, n) && upto <= n
    {
      forall i :: xs[k] < i < (if k + 1 < |xs| then xs[k + 1] else upto) && i < n && !used0[i]
        ==> !(seqSet[i] <= seqSet[xs[k]])
    }

    // xs is the chain that starts at the first unused token and always goes on to the next unused
    // token whose sequence set is within the current one.
    predicate SeqChain(used0: seq<bool>, xs: seq<nat>, upto: nat)
      requires Shape() && |used0| == n
    {
      && xs != [] && Increasing(xs) && Below(xs, upto) && upto <= n && Below(xs, n)
      && (forall i :: 0 <= i < xs[0] ==> used0[i])
      && (forall k :: 0 <= k < |xs| ==> !used0[xs[k]] && SkipsOthers(used0, xs, upto, k))
      && (forall k :: 0 < k < |xs| ==> seqSet[xs[k]] <= seqSet[xs[k - 1]])
    }

    // The do-while loop: the next unused token within the current set, or n.
    method NextSubset(cur: nat, curSet: SeqSet) returns (next: nat)
      requires Shape() && |used| == n && cur < n
      ensures cur < next <= n
      ensures forall i :: cur < i < next ==> used[i] || !(seqSet[i] <= curSet)
      ensures next < n ==> !used[next] && seqSet[next] <= curSet
    {
      next := cur + 1;
      while next < n && (used[next] || curSet * seqSet[next] != seqSet[next])
        invariant cur < next <= n
        invariant forall i :: cur < i < next ==> used[i] || !(seqSet[i] <= curSet)
      {
        WithinIsMeet(seqSet[next], curSet);
        next := next + 1;
      }
      if next < n {
        WithinIsMeet(seqSet[next], curSet);
      }
    }

    lemma ChainMore(used0: seq<bool>, xs: seq<nat>, cur: nat, next: nat)
      requires Shape() && |used0| == n && SeqChain(used0, xs, cur + 1) && xs[|xs| - 1] == cur < next <= n
      requires forall i :: cur < i < next ==> used0[i] || !(seqSet[i] <= seqSet[cur])
      ensures SeqChain(used0, xs, next)
      ensures next < n && !used0[next] && seqSet[next] <= seqSet[cur] ==> SeqChain(used0, xs + [next], next + 1)
    {
      forall k | 0 <= k < |xs| ensures SkipsOthers(used0, xs, next, k) {
        assert SkipsOthers(used0, xs, cur + 1, k);
      }
      if next < n && !used0[next] && seqSet[next] <= seqSet[cur] {
        var ys := xs + [next];
        forall k | 0 <= k < |ys| ensures !used0[ys[k]] && SkipsOthers(used0, ys, next + 1, k) {
          if k < |xs| {
            assert SkipsOthers(used0, xs, next, k);
          }
        }
      }
    }

    // The loop of split_seq.
    method TakeChain(nUbatch: nat, first: nat) returns (idxs: seq<nat>, ghost upto: nat)
      requires Shape() && |used| == n && first < n && !used[first] && forall i :: 0 <= i < first ==> used[i]
      modifies `used, `nUsed
      ensures |used| == n && nUsed == old(nUsed) + |idxs|
      ensures forall i :: 0 <= i < n ==> (used[i] <==> old(used[i]) || i in idxs)
      ensures SeqChain(old(used), idxs, upto)
      ensures (|idxs| <= nUbatch || |idxs| == 1) && (upto == n || |idxs| >= nUbatch)
    {
      var cur := first;
      ghost var used0 := used;
      idxs := [];
      while true
        invariant cur < n && |used| == n && nUsed == old(nUsed) + |idxs|
        invariant forall i :: 0 <= i < n ==> (used[i] <==> used0[i] || i in idxs)
        invariant Below(idxs, cur) && SeqChain(used0, idxs + [cur], cur + 1)
        invariant idxs == [] || |idxs| < nUbatch
        decreases n - cur
      {
        idxs := idxs + [cur];
        used := used[cur := true];
        nUsed := nUsed + 1;
        upto := cur + 1;
        if |idxs| >= nUbatch {
          break;
        }
        var next := NextSubset(cur, seqSet[cur]);
        ChainMore(used0, idxs, cur, next);
        upto := next;
        if next == n {
          break;
        }
        cur := next;
      }
    }

    // A chain leaves the used tokens of every sequence set at the head of its list: a set that did
    // not fit once does not fit later, since the current set only shrinks.
    lemma ChainPrefixed(used0: seq<bool>, xs: seq<nat>, upto: nat)
      requires Shape() && |used| == |used0| == n && Prefixed(lists, used0)
      requires SeqChain(used0, xs, upto)
      requires forall i :: 0 <= i < n ==> (used[i] <==> used0[i] || i in xs)
      ensures Prefixed(lists, used)
    {
      forall s | s in lists ensures CutAt(used, lists[s], Cut(used, lists[s])) {
        assert ListOk(seqSet, s, lists[s]);
        forall j, k | 0 <= j < k < |lists[s]| && used[lists[s][k]] ensures used[lists[s][j]] {
          assert CutAt(used0, lists[s], Cut(used0, lists[s]));
          if !used0[lists[s][k]] {
            var m :| 0 <= m < |xs| && xs[m] == lists[s][k];
            ChainTakesEarlier(used0, xs, upto, m, lists[s][j]);
          }
        }
        PrefixHasCut(lists[s], 0);
      }
    }

    // A token of the same set before xs[m] is used or on the chain.
    lemma {:induction false} ChainTakesEarlier(used0: seq<bool>, xs: seq<nat>, upto: nat, m: nat, i: nat)
      requires Shape() && |used0| == n && SeqChain(used0, xs, upto) && m < |xs| && i < xs[m]
      requires seqSet[i] <= seqSet[xs[m]]
      ensures used0[i] || i in xs
      decreases m
    {
      if m > 0 && i <= xs[m - 1] {
        if i < xs[m - 1] {
          ChainTakesEarlier(used0, xs, upto, m - 1, i);
        }
      } else if m > 0 {
        assert SkipsOthers(used0, xs, upto, m - 1);
        assert seqSet[i] <= seqSet[xs[m - 1]];
      }
    }

    // split_seq
    method SplitSeq(nUbatch: nat) returns (u: Ubatch, ghost upto: nat)
      requires Valid()
      modifies this
      ensures Valid() && emitted == old(emitted) + u.idxs
      ensures u.idxs == [] <==> old(nUsed) == n
      ensures u.idxs == [] ==> u == EMPTY_UBATCH
      ensures u.idxs != [] ==> OneSequence(u) && UbatchOk(u, output) && SeqChain(old(used), u.idxs, upto)
      ensures u.idxs != [] ==> (|u.idxs| <= nUbatch || |u.idxs| == 1) && (upto == n || |u.idxs| >= nUbatch)
    {
      upto := 0;
      FullMeansAll(emitted, n);
      var curIdx := FirstUnused();
      if curIdx >= n {
        assert emitted + [] == emitted;
        return EMPTY_UBATCH, 0;
      }
      var idxs;
      idxs, upto := TakeChain(nUbatch, curIdx);
      ChainPrefixed(old(used), idxs, upto);
      Emitting(emitted, old(used), idxs);
      u := Commit(idxs, 1, true, |idxs|);
    }
  }

  lemma WithinIsMeet(x: SeqSet, y: SeqSet)
    ensures x <= y <==> y * x == x
  {
  }

  // Whether some token has more than one sequence id.
  method CheckCoupled(seqIds: seq<seq<nat>>) returns (cpl: bool)
    ensures cpl <==> exists i :: 0 <= i < |seqIds| && |seqIds[i]| > 1
  {
    cpl := false;
    for i := 0 to |seqIds|
      invariant cpl <==> exists k :: 0 <= k < i && |seqIds[k]| > 1
    {
      if |seqIds[i]| > 1 {
        cpl := true;
      }
    }
  }
}
