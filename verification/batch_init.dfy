/**
 The consistency checks on sequences that end `llama_batch_allocr::init` (llama-batch.cpp).
 */
module BatchInit {

  import opened BatchLists

  const LLAMA_MAX_SEQ: nat := 256

  datatype Verdict = Accepted | Incompatible | Decreasing

  // The batch: for every token its sequence ids and its position.
  predicate WellFormed(seqIds: seq<seq<nat>>, pos: seq<int>, nSeqMax: nat) {
    && |pos| == |seqIds| && nSeqMax <= LLAMA_MAX_SEQ
    && forall i, k :: 0 <= i < |seqIds| && 0 <= k < |seqIds[i]| ==> seqIds[i][k] < nSeqMax
  }

  // Token i does not step back in sequence q, relative to the earlier tokens j and to -1.
  predicate StepsUp(seqIds: seq<seq<nat>>, pos: seq<int>, i: nat, q: nat)
    requires |pos| == |seqIds| && i < |seqIds|
  {
    pos[i] >= -1 && forall j :: 0 <= j < i && q in seqIds[j] ==> pos[j] <= pos[i]
  }

  // The first k sequence ids of token i do not step back.
  predicate TokenOk(seqIds: seq<seq<nat>>, pos: seq<int>, i: nat, k: nat)
    requires |pos| == |seqIds| && i < |seqIds| && k <= |seqIds[i]|
  {
    forall m :: 0 <= m < k ==> StepsUp(seqIds, pos, i, seqIds[i][m])
  }

  // The first n tokens do not step back.
  predicate FirstOk(seqIds: seq<seq<nat>>, pos: seq<int>, n: nat)
    requires n <= |pos| == |seqIds|
  {
    forall i: nat :: i < n ==> TokenOk(seqIds, pos, i, |seqIds[i]|)
  }

  predicate NonDecreasing(seqIds: seq<seq<nat>>, pos: seq<int>)
    requires |pos| == |seqIds|
  {
    FirstOk(seqIds, pos, |seqIds|)
  }

  lemma FirstStep(seqIds: seq<seq<nat>>, pos: seq<int>, i: nat)
    requires i < |pos| == |seqIds| && FirstOk(seqIds, pos, i)
    ensures TokenOk(seqIds, pos, i, |seqIds[i]|) <==> FirstOk(seqIds, pos, i + 1)
    ensures !TokenOk(seqIds, pos, i, |seqIds[i]|) ==> !NonDecreasing(seqIds, pos)
  {
  }

  // Sequence q occurs in token j, or token j is the current one and q is among its first k ids.
  predicate Seen(seqIds: seq<seq<nat>>, i: nat, k: nat, j: nat, q: nat)
    requires i <= |seqIds| && (i < |seqIds| ==> k <= |seqIds[i]|) && j < |seqIds|
  {
    if j < i then q in seqIds[j] else j == i && q in seqIds[i][..k]
  }

  // The position kept for q is the greatest one seen for q, or -1.
  predicate Tracks(seqIds: seq<seq<nat>>, pos: seq<int>, i: nat, k: nat, q: nat, cur: int)
    requires |pos| == |seqIds| && i <= |seqIds| && (i < |seqIds| ==> k <= |seqIds[i]|)
  {
    && cur >= -1
    && (forall j: nat :: j < |seqIds| && Seen(seqIds, i, k, j, q) ==> pos[j] <= cur)
    && (cur == -1 || exists j: nat :: j < |seqIds| && Seen(seqIds, i, k, j, q) && pos[j] == cur)
  }

  lemma TrackOther(seqIds: seq<seq<nat>>, pos: seq<int>, i: nat, k: nat, q: nat, cur: int)
    requires |pos| == |seqIds| && i < |seqIds| && k < |seqIds[i]| && seqIds[i][k] != q
    requires Tracks(seqIds, pos, i, k, q, cur)
    ensures Tracks(seqIds, pos, i, k + 1, q, cur)
  {
    assert seqIds[i][..k + 1] == seqIds[i][..k] + [seqIds[i][k]];
    assert forall j: nat :: j < |seqIds| ==> (Seen(seqIds, i, k + 1, j, q) <==> Seen(seqIds, i, k, j, q));
  }

  lemma TrackThis(seqIds: seq<seq<nat>>, pos: seq<int>, i: nat, k: nat, cur: int)
    requires |pos| == |seqIds| && i < |seqIds| && k < |seqIds[i]|
    requires Tracks(seqIds, pos, i, k, seqIds[i][k], cur)
    ensures pos[i] >= cur <==> StepsUp(seqIds, pos, i, seqIds[i][k])
    ensures pos[i] >= cur ==> Tracks(seqIds, pos, i, k + 1, seqIds[i][k], pos[i])
  {
    var q := seqIds[i][k];
    assert seqIds[i][..k + 1] == seqIds[i][..k] + [q];
    assert Seen(seqIds, i, k + 1, i, q);
    forall j: nat | j < i && q in seqIds[j] ensures pos[j] <= cur {
      assert Seen(seqIds, i, k, j, q);
    }
    if pos[i] < cur && cur != -1 {
      var j: nat :| j < |seqIds| && Seen(seqIds, i, k, j, q) && pos[j] == cur;
      assert j < i && q in seqIds[j];
    }
    if pos[i] >= cur {
      forall j: nat | j < |seqIds| && Seen(seqIds, i, k + 1, j, q) ensures pos[j] <= pos[i] {
        assert j != i ==> Seen(seqIds, i, k, j, q);
      }
    }
  }

  lemma TrackNext(seqIds: seq<seq<nat>>, pos: seq<int>, i: nat, q: nat, cur: int)
    requires |pos| == |seqIds| && i < |seqIds| && Tracks(seqIds, pos, i, |seqIds[i]|, q, cur)
    ensures Tracks(seqIds, pos, i + 1, 0, q, cur)
  {
    assert seqIds[i][..|seqIds[i]|] == seqIds[i];
    assert forall j: nat :: j < |seqIds| ==> (Seen(seqIds, i + 1, 0, j, q) <==> Seen(seqIds, i, |seqIds[i]|, j, q));
  }

  lemma TrackStart(seqIds: seq<seq<nat>>, pos: seq<int>, q: nat)
    requires |pos| == |seqIds|
    ensures Tracks(seqIds, pos, 0, 0, q, -1)
  {
    assert forall j: nat :: j < |seqIds| ==> !Seen(seqIds, 0, 0, j, q);
  }

  // The state before token i: every kept set has its own sequence, every kept position is right.
  ghost predicate Ready(seqIds: seq<seq<nat>>, pos: seq<int>, nSeqMax: nat, i: nat,
                        curSet: array<set<nat>>, curPos: array<int>)
    reads curSet, curPos
  {
    && |pos| == |seqIds| && i <= |seqIds| && curSet.Length == curPos.Length == nSeqMax
    && (forall q :: 0 <= q < nSeqMax ==> q in curSet[q])
    && (forall q :: 0 <= q < nSeqMax ==> Tracks(seqIds, pos, i, 0, q, curPos[q]))
  }

  // The checks for one token.
  method CheckToken(seqIds: seq<seq<nat>>, pos: seq<int>, nSeqMax: nat, i: nat,
                    curSet: array<set<nat>>, curPos: array<int>) returns (v: Verdict)
    requires WellFormed(seqIds, pos, nSeqMax) && i < |seqIds|
    requires Ready(seqIds, pos, nSeqMax, i, curSet, curPos)
    modifies curSet, curPos
    ensures v != Incompatible
    ensures v == Accepted <==> TokenOk(seqIds, pos, i, |seqIds[i]|)
    ensures v == Accepted ==> Ready(seqIds, pos, nSeqMax, i + 1, curSet, curPos)
  {
    for s := 0 to |seqIds[i]|
      invariant forall q :: 0 <= q < nSeqMax ==> q in curSet[q]
      invariant forall q :: 0 <= q < nSeqMax ==> Tracks(seqIds, pos, i, s, q, curPos[q])
      invariant TokenOk(seqIds, pos, i, s)
    {
      var seqId := seqIds[i][s];
      curSet[seqId] := curSet[seqId] * Elems(seqIds[i]);
      assert seqId in curSet[seqId];
      if curSet[seqId] == {} {
        return Incompatible;
      }
      TrackThis(seqIds, pos, i, s, curPos[seqId]);
      if pos[i] < curPos[seqId] {
        assert !StepsUp(seqIds, pos, i, seqIds[i][s]);
        return Decreasing;
      }
      forall q | 0 <= q < nSeqMax && q != seqId ensures Tracks(seqIds, pos, i, s + 1, q, curPos[q]) {
        TrackOther(seqIds, pos, i, s, q, curPos[q]);
      }
      curPos[seqId] := pos[i];
    }
    forall q | 0 <= q < nSeqMax ensures Tracks(seqIds, pos, i + 1, 0, q, curPos[q]) {
      TrackNext(seqIds, pos, i, q, curPos[q]);
    }
    return Accepted;
  }

  // The last block of init.  Only positions matter: the sets of the tokens of a sequence all contain
  // that sequence, so their intersection is never empty and the first check never rejects a batch.
  method CheckSequences(seqIds: seq<seq<nat>>, pos: seq<int>, nSeqMax: nat) returns (v: Verdict)
    requires WellFormed(seqIds, pos, nSeqMax)
    ensures v != Incompatible
    ensures v == Accepted <==> NonDecreasing(seqIds, pos)
  {
    var every: set<nat> := Upto(LLAMA_MAX_SEQ);
    var curSet := new set<nat>[nSeqMax](_ => every);
    var curPos := new int[nSeqMax](_ => -1);
    forall q | 0 <= q < nSeqMax ensures Tracks(seqIds, pos, 0, 0, q, curPos[q]) {
      TrackStart(seqIds, pos, q);
    }
    v := CheckTokens(seqIds, pos, nSeqMax, curSet, curPos);
  }

  // The loop over the tokens.
  method CheckTokens(seqIds: seq<seq<nat>>, pos: seq<int>, nSeqMax: nat, curSet: array<set<nat>>, curPos: array<int>)
    returns (v: Verdict)
    requires WellFormed(seqIds, pos, nSeqMax) && Ready(seqIds, pos, nSeqMax, 0, curSet, curPos)
    modifies curSet, curPos
    ensures v != Incompatible
    ensures v == Accepted <==> NonDecreasing(seqIds, pos)
  {
    for i := 0 to |seqIds|
      invariant Ready(seqIds, pos, nSeqMax, i, curSet, curPos)
      invariant FirstOk(seqIds, pos, i)
    {
      v := CheckToken(seqIds, pos, nSeqMax, i, curSet, curPos);
      FirstStep(seqIds, pos, i);
      if v != Accepted {
        return v;
      }
    }
    return Accepted;
  }

  // Sequence 2 leaves the common set of the first token and comes back in the third, without
  // sequence 0: a partial sub-set, which passes.
  lemma PartialSubsetPasses()
    ensures WellFormed([[0, 1, 2], [0, 1], [1, 2]], [0, 1, 2], 3)
    ensures NonDecreasing([[0, 1, 2], [0, 1], [1, 2]], [0, 1, 2])
    ensures Elems([1, 2]) * Elems([0, 1]) != {} && !(Elems([1, 2]) <= Elems([0, 1]))
  {
    var seqIds := [[0, 1, 2], [0, 1], [1, 2]];
    assert 2 in Elems([1, 2]) && 1 in Elems([1, 2]) * Elems([0, 1]);
    assert |seqIds[0]| == 3 && |seqIds[1]| == 2 && |seqIds[2]| == 2;
  }
}
