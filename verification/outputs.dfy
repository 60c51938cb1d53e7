/**
 Output rows of `llama_context` (llama-context.cpp): rows come back in the order in which the batch
 was split, the rows to exchange are recorded by a selection sort and exchanged when the output is
 first read, and rows of all tokens are put back in place by following the cycles of a permutation.
 */
module Outputs {

  import opened BatchLists
  import opened Batch
  import opened BatchRuns
  import opened RowSwaps
  import opened OutputOrder

  // output_ids: the row of every flagged token, and -1 for the others.
  predicate Maps(rowOf: seq<int>, ids: seq<nat>) {
    && (forall k :: 0 <= k < |ids| ==> ids[k] < |rowOf| && rowOf[ids[k]] == k)
    && (forall i :: 0 <= i < |rowOf| ==> rowOf[i] == -1 || (0 <= rowOf[i] < |ids| && ids[rowOf[i]] == i))
  }

  // ---------- rows and what they hold ----------

  // The first rows of the buffer are the values of the given tokens.
  predicate Filled<V(==)>(data: seq<V>, width: nat, cap: nat, ids: seq<nat>, value: nat -> seq<V>) {
    && Holds(|data|, width, cap) && |ids| <= cap
    && forall k :: 0 <= k < |ids| ==> RowAt(data, width, cap, k) == value(ids[k])
  }

  // The same, once the recorded exchanges have been made.
  predicate FilledLater<V(==)>(data: seq<V>, width: nat, swaps: seq<Exchange>, ids: seq<nat>, value: nat -> seq<V>) {
    && Holds(|data|, width, |ids|) && InRange(swaps, |ids|)
    && forall k :: 0 <= k < |ids| ==> Replay(RowsOf(data, width, |ids|), swaps)[k] == value(ids[k])
  }

  // Rows in split order become rows in batch order by the exchanges that sort the token indices.
  lemma SortLater<V>(data: seq<V>, width: nat, swaps: seq<Exchange>, ids: seq<nat>, value: nat -> seq<V>)
    requires Filled(data, width, |ids|, ids, value) && InRange(swaps, |ids|)
    ensures FilledLater(data, width, swaps, Replay(ids, swaps), value)
  {
    ReplayTogether(ids, RowsOf(data, width, |ids|), value, swaps);
  }

  // Rows one after the other from row `at` on.
  method CopyRows<V(==)>(data: array<V>, width: nat, ghost cap: nat, at: nat, rows: seq<seq<V>>,
                         ghost ids: seq<nat>, ghost more: seq<nat>, ghost value: nat -> seq<V>)
    requires Filled(data[..], width, cap, ids, value) && at == |ids| && |ids| + |more| <= cap && |rows| == |more|
    requires forall r :: 0 <= r < |rows| ==> rows[r] == value(more[r]) && |rows[r]| == width
    modifies data
    ensures Filled(data[..], width, cap, ids + more, value)
  {
    for r := 0 to |rows|
      invariant Filled(data[..], width, cap, ids + more[..r], value)
    {
      ghost var was := data[..];
      StoreRow(data, width, cap, at + r, rows[r]);
      FilledMore(was, data[..], width, cap, ids + more[..r], more[r], value);
      assert ids + more[..r + 1] == (ids + more[..r]) + [more[r]];
    }
    assert more[..|more|] == more;
  }

  lemma FilledMore<V>(was: seq<V>, now: seq<V>, width: nat, cap: nat, ids: seq<nat>, id: nat, value: nat -> seq<V>)
    requires Filled(was, width, cap, ids, value) && |now| == |was| && |ids| < cap && |value(id)| == width
    requires RowsOf(now, width, cap) == RowsOf(was, width, cap)[|ids| := value(id)]
    ensures Filled(now, width, cap, ids + [id], value)
  {
    forall k | 0 <= k < |ids| + 1 ensures RowAt(now, width, cap, k) == value((ids + [id])[k]) {
      assert RowsOf(now, width, cap)[k] == RowAt(now, width, cap, k);
      if k < |ids| {
        assert RowsOf(was, width, cap)[k] == RowAt(was, width, cap, k);
      }
    }
  }

  lemma FilledSwap<V>(was: seq<V>, now: seq<V>, width: nat, ids: seq<nat>, value: nat -> seq<V>, i: nat, j: nat)
    requires Filled(was, width, |ids|, ids, value) && |now| == |was| && i < |ids| && j < |ids|
    requires RowsOf(now, width, |ids|) == Swap(RowsOf(was, width, |ids|), i, j)
    ensures Filled(now, width, |ids|, Swap(ids, i, j), value)
  {
    forall k | 0 <= k < |ids| ensures RowAt(now, width, |ids|, k) == value(Swap(ids, i, j)[k]) {
      assert RowsOf(now, width, |ids|)[k] == RowAt(now, width, |ids|, k);
      assert RowsOf(was, width, |ids|)[k] == RowAt(was, width, |ids|, k);
    }
  }

  // Once the exchanges have been made nothing is left to do.
  lemma NowFilled<V>(was: seq<V>, now: seq<V>, width: nat, swaps: seq<Exchange>, ids: seq<nat>, value: nat -> seq<V>)
    requires FilledLater(was, width, swaps, ids, value) && |now| == |was|
    requires RowsOf(now, width, |ids|) == Replay(RowsOf(was, width, |ids|), swaps)
    ensures FilledLater(now, width, [], ids, value)
  {
  }

  // ---------- the context ----------

  datatype Resolved = Row(j: nat) | NegativeOutOfRange | OutOfRange | NotAnOutput | CorruptBuffer

  // What the graph computes for a micro-batch: a row of logits and one of the next-token embeddings
  // for each flagged token or, unmasked, for each token, and the inputs of a layer for each token.
  datatype GraphResult<V> = GraphResult(logits: seq<seq<V>>, nextn: seq<seq<V>>, layer: seq<seq<V>>)

  predicate RowsAre<V(==)>(rows: seq<seq<V>>, width: nat, ids: seq<nat>, value: nat -> seq<V>) {
    |rows| == |ids| && forall r :: 0 <= r < |rows| ==> rows[r] == value(ids[r]) && |rows[r]| == width
  }

  // The values of a token do not depend on the micro-batch it is computed in.
  datatype Values<!V> = Values(logits: nat -> seq<V>, nextn: nat -> seq<V>, layer: nat -> seq<V>)

  class Context<V(==)> {
    const nVocab: nat
    const nEmbd: nat
    const masked: bool              // next-token embeddings for flagged tokens only
    const logits: array<V>          // the buffers; empty if not wanted
    const nextn: array<V>
    const layer: array<V>
    const outputIds: array<int>

    var nOutputs: nat
    var outputSwaps: seq<Exchange>
    var embdBatchIdxs: seq<nat>

    constructor (nVocab: nat, nEmbd: nat, masked: bool, logits: array<V>, nextn: array<V>, layer: array<V>, nBatch: nat)
      requires logits != nextn && logits != layer && nextn != layer
      ensures Separate() && fresh(outputIds) && outputIds.Length == nBatch
      ensures this.nVocab == nVocab && this.nEmbd == nEmbd && this.masked == masked
      ensures this.logits == logits && this.nextn == nextn && this.layer == layer
    {
      this.nVocab, this.nEmbd, this.masked := nVocab, nEmbd, masked;
      this.logits, this.nextn, this.layer := logits, nextn, layer;
      outputIds := new int[nBatch](_ => -1);
      nOutputs, outputSwaps, embdBatchIdxs := 0, [], [];
    }

    predicate Separate() {
      && logits != nextn && logits != layer && nextn != layer
      && var others: set<object> := {logits, nextn, layer}; outputIds !in others
    }

    // Are rows of all tokens extracted, whatever their flags?
    predicate AllTokens() {
      layer.Length > 0 || (nextn.Length > 0 && !masked)
    }

    // Room for the rows of n tokens, m of them flagged.
    predicate Room(n: nat, m: nat) {
      && (logits.Length > 0 ==> Holds(logits.Length, nVocab, m))
      && (nextn.Length > 0 ==> Holds(nextn.Length, nEmbd, if masked then m else n))
      && (layer.Length > 0 ==> Holds(layer.Length, nEmbd, n))
    }

    // ---------- decode ----------

    // All ids invalid, no exchanges and no permutation pending.
    method Begin()
      modifies this, outputIds
      ensures nOutputs == 0 && outputSwaps == [] && embdBatchIdxs == []
      ensures forall i :: 0 <= i < outputIds.Length ==> outputIds[i] == -1
    {
      outputSwaps, embdBatchIdxs, nOutputs := [], [], 0;
      for i := 0 to outputIds.Length
        invariant nOutputs == 0 && outputSwaps == [] && embdBatchIdxs == []
        invariant forall k :: 0 <= k < i ==> outputIds[k] == -1
      {
        outputIds[i] := -1;
      }
    }

    // The rows hold the values of the tokens emitted so far, in the order of the split.
    ghost predicate Extracted(v: Values<V>, n: nat, m: nat, output: seq<bool>, emitted: seq<nat>)
      reads this`embdBatchIdxs, logits, nextn, layer
    {
      var flagged := Flagged(emitted, output);
      && (logits.Length > 0 ==> Filled(logits[..], nVocab, m, flagged, v.logits))
      && (nextn.Length > 0 && masked ==> Filled(nextn[..], nEmbd, m, flagged, v.nextn))
      && (nextn.Length > 0 && !masked ==> Filled(nextn[..], nEmbd, n, emitted, v.nextn))
      && (layer.Length > 0 ==> Filled(layer[..], nEmbd, n, emitted, v.layer))
      && embdBatchIdxs == (if AllTokens() then emitted else [])
    }

    // The result of the graph for micro-batch u.
    predicate Computes(res: GraphResult<V>, v: Values<V>, u: Ubatch, output: seq<bool>) {
      && RowsAre(res.logits, nVocab, Flagged(u.idxs, output), v.logits)
      && RowsAre(res.nextn, nEmbd, if masked then Flagged(u.idxs, output) else u.idxs, v.nextn)
      && RowsAre(res.layer, nEmbd, u.idxs, v.layer)
    }

    // One round of the decode loop: the rows of u go behind those extracted before.
    method Extract(u: Ubatch, res: GraphResult<V>, nOutputsPrev: nat, nTokensPrev: nat,
                   ghost v: Values<V>, ghost n: nat, ghost m: nat, ghost output: seq<bool>, ghost emitted: seq<nat>)
      requires Separate() && Extracted(v, n, m, output, emitted) && Computes(res, v, u, output)
      requires nOutputsPrev == |Flagged(emitted, output)| && nTokensPrev == |emitted|
      requires |Flagged(emitted, output)| + |Flagged(u.idxs, output)| <= m && |emitted| + |u.idxs| <= n
      modifies this`embdBatchIdxs, logits, nextn, layer
      ensures Extracted(v, n, m, output, emitted + u.idxs)
    {
      FlaggedConcat(emitted, u.idxs, output);
      ghost var flagged, more := Flagged(emitted, output), Flagged(u.idxs, output);
      if logits.Length > 0 {
        CopyRows(logits, nVocab, m, nOutputsPrev, res.logits, flagged, more, v.logits);
      }
      if layer.Length > 0 {
        CopyRows(layer, nEmbd, n, nTokensPrev, res.layer, emitted, u.idxs, v.layer);
      }
      if nextn.Length > 0 {
        if masked {
          CopyRows(nextn, nEmbd, m, nOutputsPrev, res.nextn, flagged, more, v.nextn);
        } else {
          CopyRows(nextn, nEmbd, n, nTokensPrev, res.nextn, emitted, u.idxs, v.nextn);
        }
      }
      if AllTokens() {
        embdBatchIdxs := embdBatchIdxs + u.idxs;
      }
    }

    // n_outputs of one micro-batch.
    method CountOutputs(u: Ubatch, ghost output: seq<bool>) returns (c: nat)
      requires FlagsOf(u, output)
      ensures c == |Flagged(u.idxs, output)|
    {
      c := 0;
      for i := 0 to |u.output|
        invariant c == |Flagged(u.idxs[..i], output)|
      {
        assert u.idxs[..i + 1] == u.idxs[..i] + [u.idxs[i]];
        FlaggedMore(u.idxs[..i], u.idxs[i], output);
        if u.output[i] {
          c := c + 1;
        }
      }
      assert u.idxs[..|u.output|] == u.idxs;
    }

    // The decode loop over the micro-batches of a run.
    method ExtractAll(b: BatchAllocr, us: seq<Ubatch>, results: seq<GraphResult<V>>, ghost v: Values<V>)
      requires Partitions(b, us) && Separate() && Room(b.n, |b.outIds|) && embdBatchIdxs == []
      requires |results| == |us| && forall j :: 0 <= j < |us| ==> Computes(results[j], v, us[j], b.output)
      modifies this`embdBatchIdxs, logits, nextn, layer
      ensures Extracted(v, b.n, |b.outIds|, b.output, b.emitted)
    {
      FullMeansAll(b.emitted, b.n);
      var nOutputsPrev, nTokensPrev := 0, 0;
      ghost var done: seq<nat> := [];
      for j := 0 to |us|
        invariant b.emitted == done + Concat(Rows(us[j..]))
        invariant Extracted(v, b.n, |b.outIds|, b.output, done)
        invariant nOutputsPrev == |Flagged(done, b.output)| && nTokensPrev == |done|
      {
        NextPart(b.emitted, done, us[j..], b.output);
        assert us[j..][0] == us[j] && us[j..][1..] == us[j + 1..];
        nOutputsPrev, nTokensPrev :=
          ExtractNext(us[j], results[j], nOutputsPrev, nTokensPrev, v, b.n, |b.outIds|, b.output, done);
        done := done + us[j].idxs;
      }
      assert done + Concat(Rows(us[|us|..])) == done;
    }

    // One round: the outputs of the micro-batch are counted and its rows extracted.
    method ExtractNext(u: Ubatch, res: GraphResult<V>, nOutputsPrev: nat, nTokensPrev: nat,
                       ghost v: Values<V>, ghost n: nat, ghost m: nat, ghost output: seq<bool>, ghost emitted: seq<nat>)
      returns (nOutputs': nat, nTokens': nat)
      requires Separate() && Extracted(v, n, m, output, emitted) && Computes(res, v, u, output) && FlagsOf(u, output)
      requires nOutputsPrev == |Flagged(emitted, output)| && nTokensPrev == |emitted|
      requires |Flagged(emitted, output)| + |Flagged(u.idxs, output)| <= m && |emitted| + |u.idxs| <= n
      modifies this`embdBatchIdxs, logits, nextn, layer
      ensures Extracted(v, n, m, output, emitted + u.idxs)
      ensures nOutputs' == |Flagged(emitted + u.idxs, output)| && nTokens' == |emitted + u.idxs|
    {
      var nOut := CountOutputs(u, output);
      Extract(u, res, nOutputsPrev, nTokensPrev, v, n, m, output, emitted);
      FlaggedConcat(emitted, u.idxs, output);
      return nOutputsPrev + nOut, nTokensPrev + |u.idxs|;
    }

    // ---------- output mappings ----------

    // The selection sort, in place on out_ids of the allocator; every exchange is recorded.
    method SelectionSort(b: BatchAllocr)
      requires NoDup(b.outIds) && outputSwaps == []
      modifies this`outputSwaps, b`outIds
      ensures InRange(outputSwaps, |old(b.outIds)|) && b.outIds == Replay(old(b.outIds), outputSwaps)
      ensures Increasing(b.outIds) && |outputSwaps| == Exchanges(old(b.outIds))
    {
      if |b.outIds| == 0 {
        return;
      }
      assert b.outIds[0..] == b.outIds;
      for i := 0 to |b.outIds| - 1
        invariant |b.outIds| == |old(b.outIds)| && NoDup(b.outIds) && InPlace(b.outIds, i)
        invariant InRange(outputSwaps, |old(b.outIds)|) && b.outIds == Replay(old(b.outIds), outputSwaps)
        invariant |outputSwaps| + Exchanges(b.outIds[i..]) == Exchanges(old(b.outIds))
      {
        var jMin := FindMin(b.outIds, i);
        RoundCounts(b.outIds, i, jMin);
        MinInPlace(b.outIds, i, jMin);
        SwapDistinct(b.outIds, i, jMin);
        if jMin == i {
          assert Swap(b.outIds, i, i) == b.outIds;
          continue;
        }
        ReplayMore(old(b.outIds), outputSwaps, Exchange(i, jMin));
        b.outIds := Swap(b.outIds, i, jMin);
        outputSwaps := outputSwaps + [Exchange(i, jMin)];
      }
      SortedNeedsNone(b.outIds[|b.outIds| - 1..]);
    }

    // output_ids[out_ids[i]] = i, for all i, and whether out_ids[i] is i throughout.
    method SetMapping(ids: seq<nat>) returns (sorted: bool)
      requires NoDup(ids) && Below(ids, outputIds.Length)
      requires forall i :: 0 <= i < outputIds.Length ==> outputIds[i] == -1
      modifies outputIds
      ensures Maps(outputIds[..], ids)
      ensures sorted <==> forall i :: 0 <= i < |ids| ==> ids[i] == i
    {
      sorted := true;
      for i := 0 to |ids|
        invariant forall k :: 0 <= k < i ==> outputIds[ids[k]] == k
        invariant forall p :: 0 <= p < outputIds.Length ==>
          outputIds[p] == -1 || (0 <= outputIds[p] < i && ids[outputIds[p]] == p)
        invariant sorted <==> forall k :: 0 <= k < i ==> ids[k] == k
      {
        outputIds[ids[i]] := i;
        if ids[i] != i {
          sorted := false;
        }
      }
    }

    method ClearMapping()
      modifies outputIds
      ensures forall i :: 0 <= i < outputIds.Length ==> outputIds[i] == -1
    {
      for i := 0 to outputIds.Length
        invariant forall k :: 0 <= k < i ==> outputIds[k] == -1
      {
        outputIds[i] := -1;
      }
    }

    // The end of decode: the mapping from tokens to rows, in batch order, and the exchanges that
    // bring the rows into that order.
    method MapOutputs(b: BatchAllocr)
      requires NoDup(b.outIds) && Below(b.outIds, outputIds.Length) && outputSwaps == []
      requires forall i :: 0 <= i < outputIds.Length ==> outputIds[i] == -1
      modifies this`nOutputs, this`outputSwaps, outputIds, b`outIds
      ensures InRange(outputSwaps, |old(b.outIds)|) && b.outIds == Replay(old(b.outIds), outputSwaps)
      ensures Increasing(b.outIds) && SameElements(b.outIds, old(b.outIds)) && |outputSwaps| == Exchanges(old(b.outIds))
      ensures nOutputs == |b.outIds| && Maps(outputIds[..], b.outIds)
    {
      ghost var ids := b.outIds;
      nOutputs := |b.outIds|;
      if nOutputs > 0 {
        var sortedOutput := SetMapping(b.outIds);
        if sortedOutput || nOutputs == 1 {
          SortedNeedsNone(b.outIds);
        }
        if !sortedOutput && nOutputs > 1 {
          SelectionSort(b);
          ReplayElements(ids, outputSwaps);
          StillBelow(ids, b.outIds, outputIds.Length);
          ClearMapping();
          var _ := SetMapping(b.outIds);
        }
      }
    }

    // ---------- after decode ----------

    // The token behind each row of the buffers that hold all tokens.
    function Order(n: nat): seq<nat>
      reads this`embdBatchIdxs
    {
      if embdBatchIdxs == [] then Identity(n) else embdBatchIdxs
    }

    // The rows of flagged tokens, once the exchanges have been made.
    ghost predicate FlaggedRows(v: Values<V>, swaps: seq<Exchange>, ids: seq<nat>)
      reads logits, nextn
    {
      && InRange(swaps, |ids|)
      && (logits.Length > 0 ==> FilledLater(logits[..], nVocab, swaps, ids, v.logits))
      && (nextn.Length > 0 && masked ==> FilledLater(nextn[..], nEmbd, swaps, ids, v.nextn))
    }

    // The rows of all tokens.
    ghost predicate TokenRows(v: Values<V>, n: nat, order: seq<nat>)
      reads nextn, layer
    {
      && Permutation(order, n) && |order| == n
      && (nextn.Length > 0 && !masked ==> Filled(nextn[..], nEmbd, n, order, v.nextn))
      && (layer.Length > 0 ==> Filled(layer[..], nEmbd, n, order, v.layer))
    }

    // Everything that was computed can be read, once the pending exchanges and the pending
    // permutation have been made: row k of the flagged tokens is that of ids[k].
    ghost predicate Waiting(v: Values<V>, n: nat, ids: seq<nat>)
      reads this, logits, nextn, layer, outputIds
    {
      && Separate() && nOutputs == |ids| && Maps(outputIds[..], ids)
      && FlaggedRows(v, outputSwaps, ids) && TokenRows(v, n, Order(n))
    }

    // Nothing is pending: row k is that of ids[k], and the rows of all tokens are in batch order.
    ghost predicate InBatchOrder(v: Values<V>, n: nat, ids: seq<nat>)
      reads this, logits, nextn, layer, outputIds
    {
      Waiting(v, n, ids) && outputSwaps == [] && embdBatchIdxs == []
    }

    // decode, from the micro-batches of a run to rows and mappings that wait to be read.
    method Decode(b: BatchAllocr, us: seq<Ubatch>, results: seq<GraphResult<V>>, ghost v: Values<V>)
      requires Partitions(b, us) && Separate() && Room(b.n, |b.outIds|) && b.n <= outputIds.Length
      requires |results| == |us| && forall j :: 0 <= j < |us| ==> Computes(results[j], v, us[j], b.output)
      modifies this, outputIds, logits, nextn, layer, b`outIds
      ensures Waiting(v, b.n, Flagged(Identity(b.n), b.output))
      ensures b.outIds == Flagged(Identity(b.n), b.output)
    {
      Begin();
      ExtractAll(b, us, results, v);
      FullMeansAll(b.emitted, b.n);
      Finish(b, v);
    }

    // The end of decode.
    method Finish(b: BatchAllocr, ghost v: Values<V>)
      requires Separate() && b.n <= outputIds.Length && outputSwaps == []
      requires b.outIds == Flagged(b.emitted, b.output) && Permutation(b.emitted, b.n) && |b.emitted| == b.n
      requires Extracted(v, b.n, |b.outIds|, b.output, b.emitted)
      requires forall i :: 0 <= i < outputIds.Length ==> outputIds[i] == -1
      modifies this`nOutputs, this`outputSwaps, outputIds, b`outIds
      ensures Waiting(v, b.n, Flagged(Identity(b.n), b.output))
      ensures b.outIds == Flagged(Identity(b.n), b.output)
    {
      ghost var ids, n := b.outIds, b.n;
      FlaggedElems(b.emitted, b.output);
      FlaggedBelow(b.emitted, b.output, n);
      MapOutputs(b);
      SortedFlagged(b.emitted, n, b.output, b.outIds);
      RowsWait(v, ids, b.outIds);
      TokensWait(v, n, |ids|, b.output, b.emitted);
    }

    lemma TokensWait(v: Values<V>, n: nat, m: nat, output: seq<bool>, emitted: seq<nat>)
      requires Extracted(v, n, m, output, emitted) && Permutation(emitted, n) && |emitted| == n
      ensures TokenRows(v, n, Order(n))
    {
      IdentityOrder(n);
    }

    // Rows in split order wait for the exchanges that sort the token indices.
    lemma RowsWait(v: Values<V>, ids: seq<nat>, sorted: seq<nat>)
      requires InRange(outputSwaps, |ids|) && sorted == Replay(ids, outputSwaps)
      requires logits.Length > 0 ==> Filled(logits[..], nVocab, |ids|, ids, v.logits)
      requires nextn.Length > 0 && masked ==> Filled(nextn[..], nEmbd, |ids|, ids, v.nextn)
      ensures FlaggedRows(v, outputSwaps, sorted)
    {
      if logits.Length > 0 {
        SortLater(logits[..], nVocab, outputSwaps, ids, v.logits);
      }
      if nextn.Length > 0 && masked {
        SortLater(nextn[..], nEmbd, outputSwaps, ids, v.nextn);
      }
    }

    // One exchange in every buffer with a row per flagged token.
    method SwapFlagged(i: nat, j: nat, ghost m: nat)
      requires Separate() && i < m && j < m
      requires logits.Length > 0 ==> Holds(logits.Length, nVocab, m)
      requires nextn.Length > 0 && masked ==> Holds(nextn.Length, nEmbd, m)
      modifies logits, nextn
      ensures logits.Length > 0 ==>
        RowsOf(logits[..], nVocab, m) == Swap(RowsOf(old(logits[..]), nVocab, m), i, j)
      ensures if nextn.Length > 0 && masked then
                RowsOf(nextn[..], nEmbd, m) == Swap(RowsOf(old(nextn[..]), nEmbd, m), i, j)
              else nextn[..] == old(nextn[..])
    {
      if logits.Length > 0 {
        SwapRows(logits, nVocab, m, i, j);
      }
      if nextn.Length > 0 && masked {
        SwapRows(nextn, nEmbd, m, i, j);
      }
    }

    // The first half of output_reorder: the recorded exchanges, once.
    method ReplaySwaps(ghost v: Values<V>, ghost ids: seq<nat>, ghost n: nat, ghost order: seq<nat>)
      requires Separate() && FlaggedRows(v, outputSwaps, ids) && TokenRows(v, n, order)
      modifies this`outputSwaps, logits, nextn
      ensures FlaggedRows(v, [], ids) && outputSwaps == [] && TokenRows(v, n, order)
    {
      ghost var swaps, m := outputSwaps, |ids|;
      for s := 0 to |outputSwaps|
        invariant outputSwaps == swaps && InRange(swaps[..s], m)
        invariant logits.Length > 0 ==>
          RowsOf(logits[..], nVocab, m) == Replay(RowsOf(old(logits[..]), nVocab, m), swaps[..s])
        invariant nextn.Length > 0 && masked ==>
          RowsOf(nextn[..], nEmbd, m) == Replay(RowsOf(old(nextn[..]), nEmbd, m), swaps[..s])
        invariant nextn.Length > 0 && !masked ==> nextn[..] == old(nextn[..])
      {
        var e := outputSwaps[s];
        assert swaps[..s + 1] == swaps[..s] + [e];
        if logits.Length > 0 {
          ReplayMore(RowsOf(old(logits[..]), nVocab, m), swaps[..s], e);
        }
        if nextn.Length > 0 && masked {
          ReplayMore(RowsOf(old(nextn[..]), nEmbd, m), swaps[..s], e);
        }
        SwapFlagged(e.i0, e.i1, m);
      }
      assert swaps[..|swaps|] == swaps;
      if logits.Length > 0 {
        NowFilled(old(logits[..]), logits[..], nVocab, swaps, ids, v.logits);
      }
      if nextn.Length > 0 && masked {
        NowFilled(old(nextn[..]), nextn[..], nEmbd, swaps, ids, v.nextn);
      }
      outputSwaps := [];
    }

    // Position i gets the row and the index of position embdBatchIdxs[i], which gets its own row.
    method FollowCycle(i: nat, ghost v: Values<V>, ghost n: nat, ghost ids: seq<nat>)
      requires Separate() && TokenRows(v, n, embdBatchIdxs) && i < n && embdBatchIdxs[i] != i
      requires FlaggedRows(v, [], ids)
      modifies this`embdBatchIdxs, nextn, layer
      ensures TokenRows(v, n, embdBatchIdxs) && |Misplaced(embdBatchIdxs)| < |Misplaced(old(embdBatchIdxs))|
      ensures forall k :: 0 <= k < n && old(embdBatchIdxs)[k] == k ==> embdBatchIdxs[k] == k
      ensures FlaggedRows(v, [], ids)
    {
      var j := embdBatchIdxs[i];
      CycleStep(embdBatchIdxs, i);
      if nextn.Length > 0 && !masked {
        SwapRows(nextn, nEmbd, n, i, j);
        FilledSwap(old(nextn[..]), nextn[..], nEmbd, embdBatchIdxs, v.nextn, i, j);
      }
      if layer.Length > 0 {
        SwapRows(layer, nEmbd, n, i, j);
        FilledSwap(old(layer[..]), layer[..], nEmbd, embdBatchIdxs, v.layer, i, j);
      }
      embdBatchIdxs := Swap(embdBatchIdxs, i, j);
    }

    // The second half of output_reorder.
    method FollowCycles(ghost v: Values<V>, ghost n: nat, ghost ids: seq<nat>)
      requires Separate() && TokenRows(v, n, embdBatchIdxs) && FlaggedRows(v, [], ids)
      modifies this`embdBatchIdxs, nextn, layer
      ensures TokenRows(v, n, Identity(n)) && FlaggedRows(v, [], ids)
    {
      for i := 0 to |embdBatchIdxs|
        invariant TokenRows(v, n, embdBatchIdxs) && FlaggedRows(v, [], ids)
        invariant forall k :: 0 <= k < i ==> embdBatchIdxs[k] == k
      {
        while embdBatchIdxs[i] != i
          invariant TokenRows(v, n, embdBatchIdxs) && FlaggedRows(v, [], ids)
          invariant forall k :: 0 <= k < i ==> embdBatchIdxs[k] == k
          decreases |Misplaced(embdBatchIdxs)|
        {
          FollowCycle(i, v, n, ids);
        }
      }
      assert embdBatchIdxs == Identity(n);
    }

    // output_reorder
    method OutputReorder(ghost v: Values<V>, ghost n: nat, ghost ids: seq<nat>)
      requires Waiting(v, n, ids)
      modifies this`outputSwaps, this`embdBatchIdxs, logits, nextn, layer
      ensures InBatchOrder(v, n, ids)
    {
      ghost var order := Order(n);
      ReplaySwaps(v, ids, n, order);
      if |embdBatchIdxs| > 0 {
        FollowCycles(v, n, ids);
      }
      assert TokenRows(v, n, Identity(n));
      embdBatchIdxs := [];
      assert Order(n) == Identity(n);
    }

    // output_resolve_row: the row of a token, or the i-th row from the end.
    method OutputResolveRow(i: int) returns (r: Resolved)
      ensures i < 0 ==> r == if nOutputs + i < 0 then NegativeOutOfRange else Row(nOutputs + i)
      ensures forall ids :: Maps(outputIds[..], ids) && nOutputs == |ids| && i >= 0 ==>
        r == if i >= outputIds.Length then OutOfRange
             else if i in ids then Row(IndexOf(ids, i))
             else NotAnOutput
    {
      var j: int := -1;
      if i < 0 {
        j := nOutputs + i;
        if j < 0 {
          return NegativeOutOfRange;
        }
      } else if i >= outputIds.Length {
        return OutOfRange;
      } else {
        j := outputIds[i];
      }
      if j < 0 {
        return NotAnOutput;
      }
      if j >= nOutputs {
        return CorruptBuffer;
      }
      return Row(j);
    }

    // get_logits_ith: the row of a token is the one computed for it, however the batch was split.
    method GetLogitsIth(i: int, ghost v: Values<V>, ghost n: nat, ghost ids: seq<nat>) returns (r: Option<seq<V>>)
      requires Waiting(v, n, ids) && n <= outputIds.Length && Below(ids, n)
      modifies this`outputSwaps, this`embdBatchIdxs, logits, nextn, layer
      ensures InBatchOrder(v, n, ids)
      ensures r == if logits.Length == 0 then None else Value(Named(ids, i), v.logits)
    {
      OutputReorder(v, n, ids);
      if logits.Length == 0 {
        return None;
      }
      var resolved := OutputResolveRow(i);
      if !resolved.Row? {
        return None;
      }
      r := LogitsRow(resolved.j, v, n, ids);
    }

    method LogitsRow(j: nat, ghost v: Values<V>, ghost n: nat, ghost ids: seq<nat>) returns (r: Option<seq<V>>)
      requires InBatchOrder(v, n, ids) && logits.Length > 0 && j < |ids|
      ensures r == Some(v.logits(ids[j]))
    {
      ReadRow(logits[..], nVocab, ids, v.logits, j);
      return Some(logits[j * nVocab..j * nVocab + nVocab]);
    }

    // A row of the layer inputs is that of the token with the same index.
    method GetLayerRow(i: nat, ghost v: Values<V>, ghost n: nat, ghost ids: seq<nat>) returns (row: seq<V>)
      requires Waiting(v, n, ids) && layer.Length > 0 && i < n
      modifies this`outputSwaps, this`embdBatchIdxs, logits, nextn, layer
      ensures InBatchOrder(v, n, ids)
      ensures row == v.layer(i)
    {
      OutputReorder(v, n, ids);
      ReadRow(layer[..], nEmbd, Identity(n), v.layer, i);
      row := layer[i * nEmbd..i * nEmbd + nEmbd];
    }

    // Decoding and reading: what is read depends on the batch alone, not on the micro-batches.
    method DecodeAndGet(b: BatchAllocr, us: seq<Ubatch>, results: seq<GraphResult<V>>, i: int, ghost v: Values<V>)
      returns (r: Option<seq<V>>)
      requires Partitions(b, us) && Separate() && Room(b.n, |b.outIds|) && b.n <= outputIds.Length && logits.Length > 0
      requires |results| == |us| && forall j :: 0 <= j < |us| ==> Computes(results[j], v, us[j], b.output)
      modifies this, outputIds, logits, nextn, layer, b`outIds
      ensures r == Value(Named(Flagged(Identity(b.n), b.output), i), v.logits)
    {
      ghost var ids := Flagged(Identity(b.n), b.output);
      Decode(b, us, results, v);
      FlaggedIdentity(b.n, b.output);
      r := GetLogitsIth(i, v, b.n, ids);
    }
  }

  lemma ReadRow<V>(data: seq<V>, width: nat, ids: seq<nat>, value: nat -> seq<V>, j: nat)
    requires FilledLater(data, width, [], ids, value) || Filled(data, width, |ids|, ids, value)
    requires j < |ids|
    ensures 0 <= j * width <= j * width + width <= |data| && data[j * width..j * width + width] == value(ids[j])
  {
    RowIs(data, width, |ids|, j, Base(j, width));
    BaseIs(j, width);
    assert RowsOf(data, width, |ids|)[j] == RowAt(data, width, |ids|, j);
  }

  // The flagged tokens in batch order.
  lemma FlaggedIdentity(n: nat, output: seq<bool>)
    requires |output| == n
    ensures Below(Flagged(Identity(n), output), n) && Increasing(Flagged(Identity(n), output))
    ensures forall i :: i in Flagged(Identity(n), output) <==> 0 <= i < n && output[i]
  {
    FlaggedElems(Identity(n), output);
    FlaggedBelow(Identity(n), output, n);
    forall i: nat | i < n ensures i in Identity(n) {
      assert Identity(n)[i] == i;
    }
  }

  // A token can be read exactly if it is flagged, and -1 names the last flagged token.
  lemma NamedTokens(n: nat, output: seq<bool>, i: int)
    requires |output| == n
    ensures var ids := Flagged(Identity(n), output);
      && (i >= 0 ==> Named(ids, i) == if i < n && output[i] then Some(i) else None)
      && (i == -1 ==> (Named(ids, i) == None <==> forall m :: 0 <= m < n ==> !output[m]))
      && (i == -1 && Named(ids, i) != None ==>
            var k := Named(ids, i).value; k < n && output[k] && forall m :: k < m < n ==> !output[m])
  {
    FlaggedIdentity(n, output);
    var ids := Flagged(Identity(n), output);
    assert forall m :: 0 <= m < n ==> (m in ids <==> output[m]);
    if i == -1 && ids != [] {
      assert ids[|ids| - 1] in ids;
    }
  }

  // The token that an index names: the token itself if it is flagged, and for a negative index the
  // flagged tokens from the end.
  function Named(ids: seq<nat>, i: int): Option<nat> {
    if i >= 0 then (if i in ids then Some(i) else None)
    else if |ids| + i >= 0 then Some(ids[|ids| + i])
    else None
  }

  function Value<V>(token: Option<nat>, value: nat -> seq<V>): Option<seq<V>> {
    if token.Some? then Some(value(token.value)) else None
  }

  // The position of i in ids, or how many entries there are.
  function IndexOf(ids: seq<nat>, i: int): (k: nat)
    ensures k <= |ids| && (k < |ids| ==> ids[k] == i) && (i in ids ==> k < |ids|)
  {
    if ids == [] then 0 else if ids[0] == i then 0 else 1 + IndexOf(ids[1..], i)
  }

  lemma FlaggedBelow(xs: seq<nat>, output: seq<bool>, n: nat)
    requires Below(xs, n)
    ensures Below(Flagged(xs, output), n)
  {
    FlaggedElems(xs, output);
    forall k | 0 <= k < |Flagged(xs, output)| ensures Flagged(xs, output)[k] < n {
      assert Flagged(xs, output)[k] in xs;
    }
  }

  lemma IdentityOrder(n: nat)
    ensures Permutation(Identity(n), n)
  {
    forall i: nat | i < n ensures i in Identity(n) {
      assert Identity(n)[i] == i;
    }
  }

  lemma Regroup(x: seq<nat>, y: seq<nat>, z: seq<nat>, output: seq<bool>)
    ensures x + (y + z) == (x + y) + z
    ensures |Flagged(x + y, output)| == |Flagged(x, output)| + |Flagged(y, output)|
    ensures |Flagged(x, output)| + |Flagged(y, output)| <= |Flagged(x + (y + z), output)|
  {
    FlaggedConcat(x, y, output);
    FlaggedConcat(x + y, z, output);
    Associate(x, y, z);
  }

  // The next micro-batch is the next part of what was emitted.
  lemma NextPart(emitted: seq<nat>, done: seq<nat>, rest: seq<Ubatch>, output: seq<bool>)
    requires rest != [] && emitted == done + Concat(Rows(rest))
    ensures emitted == (done + rest[0].idxs) + Concat(Rows(rest[1..]))
    ensures |done| + |rest[0].idxs| <= |emitted|
    ensures |Flagged(done + rest[0].idxs, output)| == |Flagged(done, output)| + |Flagged(rest[0].idxs, output)|
    ensures |Flagged(done, output)| + |Flagged(rest[0].idxs, output)| <= |Flagged(emitted, output)|
  {
    RowsFirst(rest);
    Regroup(done, rest[0].idxs, Concat(Rows(rest[1..])), output);
  }

  lemma RowsFirst(us: seq<Ubatch>)
    requires us != []
    ensures Concat(Rows(us)) == us[0].idxs + Concat(Rows(us[1..]))
  {
    assert Rows(us)[1..] == Rows(us[1..]);
  }

  lemma StillBelow(xs: seq<nat>, ys: seq<nat>, n: nat)
    requires SameElements(ys, xs) && Below(xs, n) && Increasing(ys)
    ensures Below(ys, n) && NoDup(ys)
  {
    forall k | 0 <= k < |ys| ensures ys[k] < n {
      assert ys[k] in multiset(ys);
      assert ys[k] in xs;
    }
  }
}
