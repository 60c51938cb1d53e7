/**
 The order of output rows (llama-context.cpp): the selection sort that decides which rows to exchange, and
 the cycles that put rows in their places.
 */
module OutputOrder {

  import opened BatchLists
  import opened RowSwaps

  function Identity(n: nat): (xs: seq<nat>)
    ensures |xs| == n && forall k :: 0 <= k < n ==> xs[k] == k
  {
    seq(n, k requires 0 <= k < n => k)
  }

  // ---------- order of the flagged tokens ----------

  lemma {:induction false} IncreasingUnique(xs: seq<nat>, ys: seq<nat>)
    requires Increasing(xs) && Increasing(ys) && forall i: nat :: i in xs <==> i in ys
    ensures xs == ys
    decreases |xs|
  {
    assert (xs != [] ==> xs[0] in xs) && (ys != [] ==> ys[0] in ys);
    if xs != [] {
      var m, p := |xs| - 1, |ys| - 1;
      assert xs[m] in ys && ys[p] in xs;
      assert xs[m] == ys[p];
      forall i: nat ensures i in xs[..m] <==> i in ys[..p] {
        assert i in xs[..m] <==> i in xs && i != xs[m];
        assert i in ys[..p] <==> i in ys && i != ys[p];
      }
      IncreasingUnique(xs[..m], ys[..p]);
    }
  }

  // Sorting what any split emitted gives the flagged tokens in batch order.
  lemma SortedFlagged(emitted: seq<nat>, n: nat, output: seq<bool>, ids: seq<nat>)
    requires Permutation(emitted, n) && Increasing(ids) && SameElements(ids, Flagged(emitted, output))
    ensures ids == Flagged(Identity(n), output)
  {
    FlaggedOrder(Identity(n), output);
    forall i: nat ensures i in ids <==> i in Flagged(Identity(n), output) {
      SameMember(ids, Flagged(emitted, output), i);
      FlaggedHas(emitted, output, i);
      FlaggedHas(Identity(n), output, i);
      InIdentity(n, i);
    }
    IncreasingUnique(ids, Flagged(Identity(n), output));
  }

  lemma SameMember(xs: seq<nat>, ys: seq<nat>, i: nat)
    requires SameElements(xs, ys)
    ensures i in xs <==> i in ys
  {
    assert i in xs <==> i in multiset(xs);
    assert i in ys <==> i in multiset(ys);
  }

  lemma InIdentity(n: nat, i: nat)
    ensures i in Identity(n) <==> i < n
  {
    assert i < n ==> Identity(n)[i] == i;
  }

  // ---------- the selection sort ----------

  // The first k entries are in place.
  predicate InPlace(ids: seq<nat>, k: nat) {
    forall i, j :: 0 <= i < k && i < j < |ids| ==> ids[i] < ids[j]
  }

  // The position of the smallest entry from i on.
  method FindMin(ids: seq<nat>, i: nat) returns (jMin: nat)
    requires i < |ids|
    ensures i <= jMin < |ids| && forall j :: i <= j < |ids| ==> ids[jMin] <= ids[j]
  {
    jMin := i;
    for j := i + 1 to |ids|
      invariant i <= jMin < |ids| && forall k :: i <= k < j ==> ids[jMin] <= ids[k]
    {
      if ids[j] < ids[jMin] {
        jMin := j;
      }
    }
  }

  lemma SwapDistinct(xs: seq<nat>, i: nat, j: nat)
    requires NoDup(xs) && i < |xs| && j < |xs|
    ensures NoDup(Swap(xs, i, j))
  {
  }

  lemma MinInPlace(ids: seq<nat>, i: nat, jMin: nat)
    requires NoDup(ids) && InPlace(ids, i) && i <= jMin < |ids|
    requires forall j :: i <= j < |ids| ==> ids[jMin] <= ids[j]
    ensures InPlace(Swap(ids, i, jMin), i + 1)
  {
    var now := Swap(ids, i, jMin);
    forall a, c | 0 <= a < i + 1 && a < c < |now| ensures now[a] < now[c] {
      if a == i {
        assert now[c] != now[i] by { SwapDistinct(ids, i, jMin); }
      }
    }
  }

  // ---------- how many exchanges it takes ----------

  // No entry is smaller than entry m.
  predicate IsMin(xs: seq<nat>, m: nat) {
    m < |xs| && forall j :: 0 <= j < |xs| ==> xs[m] <= xs[j]
  }

  function MinPos(xs: seq<nat>): (m: nat)
    requires xs != []
    ensures m < |xs|
  {
    if |xs| == 1 then 0
    else
      var m := MinPos(xs[1..]) + 1;
      if xs[0] <= xs[m] then 0 else m
  }

  lemma {:induction false} MinPosIsMin(xs: seq<nat>)
    requires xs != []
    ensures IsMin(xs, MinPos(xs))
    decreases |xs|
  {
    if |xs| > 1 {
      MinPosIsMin(xs[1..]);
      assert forall j :: 1 <= j < |xs| ==> xs[j] == xs[1..][j - 1];
    }
  }

  // What is left to sort once the smallest entry has been exchanged to the front.
  function Rest(xs: seq<nat>): (ys: seq<nat>)
    requires xs != []
    ensures |ys| == |xs| - 1
  {
    Swap(xs, 0, MinPos(xs))[1..]
  }

  // The exchanges that the selection sort records.
  function Exchanges(xs: seq<nat>): (n: nat)
    decreases |xs|
  {
    if xs == [] then 0 else (if MinPos(xs) == 0 then 0 else 1) + Exchanges(Rest(xs))
  }

  lemma TheMin(xs: seq<nat>, m: nat)
    requires NoDup(xs) && IsMin(xs, m)
    ensures MinPos(xs) == m
  {
    MinPosIsMin(xs);
    assert xs[m] <= xs[MinPos(xs)] && xs[MinPos(xs)] <= xs[m];
  }

  lemma RestDistinct(xs: seq<nat>)
    requires NoDup(xs) && xs != []
    ensures NoDup(Rest(xs))
  {
    SwapDistinct(xs, 0, MinPos(xs));
  }

  // Entry k of the rest is entry k + 1, except that the old first entry fills the place of the smallest.
  lemma RestAt(xs: seq<nat>, k: nat)
    requires xs != [] && k + 1 < |xs|
    ensures Rest(xs)[k] == if k + 1 == MinPos(xs) then xs[0] else xs[k + 1]
  {
  }

  lemma SwapAt<T>(xs: seq<T>, i: nat, j: nat, k: nat)
    requires i < |xs| && j < |xs| && k < |xs|
    ensures Swap(xs, i, j)[k] == if k == j then xs[i] else if k == i then xs[j] else xs[k]
  {
  }

  // The smallest entry moves with the exchange.
  lemma MinOfSwap(xs: seq<nat>, a: nat, b: nat)
    requires NoDup(xs) && a < |xs| && b < |xs|
    ensures var m := MinPos(xs); MinPos(Swap(xs, a, b)) == if m == a then b else if m == b then a else m
  {
    var ys, m := Swap(xs, a, b), MinPos(xs);
    var n := if m == a then b else if m == b then a else m;
    MinPosIsMin(xs);
    SwapAt(xs, a, b, n);
    forall j | 0 <= j < |ys| ensures ys[n] <= ys[j] {
      SwapAt(xs, a, b, j);
    }
    SwapDistinct(xs, a, b);
    TheMin(ys, n);
  }

  // An exchange behind the first entry is an exchange in the rest.
  lemma RestOfSwap(xs: seq<nat>, a: nat, b: nat)
    requires NoDup(xs) && 1 <= a < b < |xs|
    ensures (MinPos(Swap(xs, a, b)) == 0) == (MinPos(xs) == 0)
    ensures Rest(Swap(xs, a, b)) == Swap(Rest(xs), a - 1, b - 1)
  {
    MinOfSwap(xs, a, b);
    forall k: nat | k < |xs| - 1 ensures Rest(Swap(xs, a, b))[k] == Swap(Rest(xs), a - 1, b - 1)[k] {
      RestOfSwapAt(xs, a, b, MinPos(xs), k);
    }
  }

  lemma RestOfSwapAt(xs: seq<nat>, a: nat, b: nat, m: nat, k: nat)
    requires 1 <= a < b < |xs| && m == MinPos(xs) && k + 1 < |xs|
    requires MinPos(Swap(xs, a, b)) == if m == a then b else if m == b then a else m
    ensures Rest(Swap(xs, a, b))[k] == Swap(Rest(xs), a - 1, b - 1)[k]
  {
    RestAt(Swap(xs, a, b), k);
    SwapAt(xs, a, b, 0);
    SwapAt(xs, a, b, k + 1);
    SwapAt(Rest(xs), a - 1, b - 1, k);
    RestAt(xs, if k == a - 1 then b - 1 else if k == b - 1 then a - 1 else k);
  }

  // An exchange with the first entry brings the smallest entry to the front or takes it away, and the
  // rest stays.
  lemma RestOfMinSwap(xs: seq<nat>, b: nat)
    requires NoDup(xs) && 1 <= b < |xs| && (MinPos(xs) == 0 || MinPos(xs) == b)
    ensures Rest(Swap(xs, 0, b)) == Rest(xs) && MinPos(Swap(xs, 0, b)) == if MinPos(xs) == 0 then b else 0
  {
    MinOfSwap(xs, 0, b);
    forall k: nat | k < |xs| - 1 ensures Rest(Swap(xs, 0, b))[k] == Rest(xs)[k] {
      RestOfMinSwapAt(xs, b, MinPos(xs), k);
    }
  }

  lemma RestOfMinSwapAt(xs: seq<nat>, b: nat, m: nat, k: nat)
    requires 1 <= b < |xs| && m == MinPos(xs) && (m == 0 || m == b) && k + 1 < |xs|
    requires MinPos(Swap(xs, 0, b)) == if m == 0 then b else 0
    ensures Rest(Swap(xs, 0, b))[k] == Rest(xs)[k]
  {
    RestAt(Swap(xs, 0, b), k);
    RestAt(xs, k);
    SwapAt(xs, 0, b, 0);
    SwapAt(xs, 0, b, k + 1);
  }

  // Otherwise it is an exchange in the rest, with the place that the smallest entry leaves.
  lemma RestOfFirstSwap(xs: seq<nat>, b: nat, m: nat)
    requires NoDup(xs) && 1 <= b < |xs| && m == MinPos(xs) && m != 0 && m != b
    ensures MinPos(Swap(xs, 0, b)) == m && Rest(Swap(xs, 0, b)) == Swap(Rest(xs), m - 1, b - 1)
  {
    MinOfSwap(xs, 0, b);
    forall k: nat | k < |xs| - 1 ensures Rest(Swap(xs, 0, b))[k] == Swap(Rest(xs), m - 1, b - 1)[k] {
      RestOfFirstSwapAt(xs, b, m, k);
    }
  }

  lemma RestOfFirstSwapAt(xs: seq<nat>, b: nat, m: nat, k: nat)
    requires 1 <= b < |xs| && m == MinPos(xs) && m != 0 && m != b && k + 1 < |xs| && MinPos(Swap(xs, 0, b)) == m
    ensures Rest(Swap(xs, 0, b))[k] == Swap(Rest(xs), m - 1, b - 1)[k]
  {
    RestAt(Swap(xs, 0, b), k);
    SwapAt(xs, 0, b, 0);
    SwapAt(xs, 0, b, k + 1);
    SwapAt(Rest(xs), m - 1, b - 1, k);
    RestAt(xs, if k == m - 1 then b - 1 else if k == b - 1 then m - 1 else k);
  }

  // One exchange saves at most one.
  lemma {:induction false} OneSavesOne(xs: seq<nat>, a: nat, b: nat)
    requires NoDup(xs) && a < |xs| && b < |xs|
    ensures Exchanges(xs) <= Exchanges(Swap(xs, a, b)) + 1
    decreases |xs|, 3
  {
    if a == b {
      assert Swap(xs, a, b) == xs;
    } else if b < a {
      assert Swap(xs, a, b) == Swap(xs, b, a);
      OneSavesOneOrdered(xs, b, a);
    } else {
      OneSavesOneOrdered(xs, a, b);
    }
  }

  lemma SavesInRest(xs: seq<nat>, ys: seq<nat>)
    requires xs != [] && ys != [] && (MinPos(ys) == 0) == (MinPos(xs) == 0)
    requires Exchanges(Rest(xs)) <= Exchanges(Rest(ys)) + 1
    ensures Exchanges(xs) <= Exchanges(ys) + 1
  {
  }

  lemma SavesInFront(xs: seq<nat>, ys: seq<nat>)
    requires xs != [] && ys != [] && Rest(xs) == Rest(ys)
    ensures Exchanges(xs) <= Exchanges(ys) + 1
  {
  }

  lemma SavesBehind(xs: seq<nat>, a: nat, b: nat)
    requires NoDup(xs) && 1 <= a < b < |xs|
    requires Exchanges(Rest(xs)) <= Exchanges(Swap(Rest(xs), a - 1, b - 1)) + 1
    ensures Exchanges(xs) <= Exchanges(Swap(xs, a, b)) + 1
  {
    RestOfSwap(xs, a, b);
    SavesInRest(xs, Swap(xs, a, b));
  }

  lemma SavesMin(xs: seq<nat>, b: nat)
    requires NoDup(xs) && 1 <= b < |xs| && (MinPos(xs) == 0 || MinPos(xs) == b)
    ensures Exchanges(xs) <= Exchanges(Swap(xs, 0, b)) + 1
  {
    RestOfMinSwap(xs, b);
    SavesInFront(xs, Swap(xs, 0, b));
  }

  lemma SavesFirst(xs: seq<nat>, b: nat, m: nat)
    requires NoDup(xs) && 1 <= b < |xs| && m == MinPos(xs) && m != 0 && m != b
    requires Exchanges(Rest(xs)) <= Exchanges(Swap(Rest(xs), m - 1, b - 1)) + 1
    ensures Exchanges(xs) <= Exchanges(Swap(xs, 0, b)) + 1
  {
    RestOfFirstSwap(xs, b, m);
    SavesInRest(xs, Swap(xs, 0, b));
  }

  lemma {:induction false} OneSavesOneInRest(xs: seq<nat>, a: nat, b: nat)
    requires NoDup(xs) && a + 1 < |xs| && b + 1 < |xs|
    ensures Exchanges(Rest(xs)) <= Exchanges(Swap(Rest(xs), a, b)) + 1
    decreases |xs|, 0
  {
    RestDistinct(xs);
    OneSavesOne(Rest(xs), a, b);
  }

  lemma {:induction false} OneSavesOneBehind(xs: seq<nat>, a: nat, b: nat)
    requires NoDup(xs) && 1 <= a < b < |xs|
    ensures Exchanges(xs) <= Exchanges(Swap(xs, a, b)) + 1
    decreases |xs|, 1
  {
    OneSavesOneInRest(xs, a - 1, b - 1);
    SavesBehind(xs, a, b);
  }

  lemma {:induction false} OneSavesOneFirst(xs: seq<nat>, b: nat, m: nat)
    requires NoDup(xs) && 1 <= b < |xs| && m == MinPos(xs) && m != 0 && m != b
    ensures Exchanges(xs) <= Exchanges(Swap(xs, 0, b)) + 1
    decreases |xs|, 1
  {
    OneSavesOneInRest(xs, m - 1, b - 1);
    SavesFirst(xs, b, m);
  }

  lemma {:induction false} OneSavesOneOrdered(xs: seq<nat>, a: nat, b: nat)
    requires NoDup(xs) && a < b < |xs|
    ensures Exchanges(xs) <= Exchanges(Swap(xs, a, b)) + 1
    decreases |xs|, 2
  {
    var m := MinPos(xs);
    if a > 0 {
      OneSavesOneBehind(xs, a, b);
    } else if m == 0 || m == b {
      SavesMin(xs, b);
    } else {
      OneSavesOneFirst(xs, b, m);
    }
  }

  lemma {:induction false} SortedNeedsNone(xs: seq<nat>)
    requires Increasing(xs)
    ensures Exchanges(xs) == 0
    decreases |xs|
  {
    if xs != [] {
      TheMin(xs, 0);
      assert Rest(xs) == xs[1..];
      SortedNeedsNone(xs[1..]);
    }
  }

  lemma {:induction false} EachSavesOne(xs: seq<nat>, swaps: seq<Exchange>)
    requires NoDup(xs) && InRange(swaps, |xs|)
    ensures NoDup(Replay(xs, swaps)) && Exchanges(xs) <= Exchanges(Replay(xs, swaps)) + |swaps|
    decreases |swaps|
  {
    if swaps != [] {
      var last := |swaps| - 1;
      EachSavesOne(xs, swaps[..last]);
      OneSavesOne(Replay(xs, swaps[..last]), swaps[last].i0, swaps[last].i1);
      SwapDistinct(Replay(xs, swaps[..last]), swaps[last].i0, swaps[last].i1);
    }
  }

  // No exchanges that sort are fewer than those of the selection sort.
  lemma FewestExchanges(xs: seq<nat>, swaps: seq<Exchange>)
    requires NoDup(xs) && InRange(swaps, |xs|) && Increasing(Replay(xs, swaps))
    ensures Exchanges(xs) <= |swaps|
  {
    EachSavesOne(xs, swaps);
    SortedNeedsNone(Replay(xs, swaps));
  }

  // One round of the sort, as seen from position i on.
  lemma RoundCounts(ids: seq<nat>, i: nat, jMin: nat)
    requires NoDup(ids) && i <= jMin < |ids| && forall j :: i <= j < |ids| ==> ids[jMin] <= ids[j]
    ensures Exchanges(ids[i..]) == (if jMin == i then 0 else 1) + Exchanges(Swap(ids, i, jMin)[i + 1..])
  {
    var xs := ids[i..];
    assert NoDup(xs);
    assert forall j :: 0 <= j < |xs| ==> xs[j] == ids[i + j];
    TheMin(xs, jMin - i);
    assert Rest(xs) == Swap(ids, i, jMin)[i + 1..];
  }

  // ---------- cycles ----------

  // Positions that do not hold their own index yet.
  function Misplaced(xs: seq<nat>): (s: set<nat>) {
    set k: nat | k < |xs| && xs[k] != k
  }

  // Exchanging entry i with the entry it names puts that one in place, for good.
  lemma CycleStep(xs: seq<nat>, i: nat)
    requires Permutation(xs, |xs|) && i < |xs| && xs[i] != i
    ensures Permutation(Swap(xs, i, xs[i]), |xs|)
    ensures Swap(xs, i, xs[i])[xs[i]] == xs[i]
    ensures |Misplaced(Swap(xs, i, xs[i]))| < |Misplaced(xs)|
    ensures forall k :: 0 <= k < |xs| && xs[k] == k ==> Swap(xs, i, xs[i])[k] == k
  {
    var j := xs[i];
    var ys := Swap(xs, i, j);
    SwapDistinct(xs, i, j);
    assert Below(ys, |xs|);
    FullMeansAll(ys, |xs|);
    assert xs[j] != j by {
      assert i != j;
    }
    assert ys[j] == j;
    assert Misplaced(ys) <= Misplaced(xs) - {j};
    SubsetCount(Misplaced(ys), Misplaced(xs) - {j});
  }
}
