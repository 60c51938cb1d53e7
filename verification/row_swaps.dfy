/**
 Rows of a flat buffer, exchanged in place, and exchanges that are recorded first and replayed later
 (output_swaps and output_reorder, llama-context.cpp).
 */
module RowSwaps {

  datatype Exchange = Exchange(i0: nat, i1: nat)

  predicate InRange(swaps: seq<Exchange>, n: nat) {
    forall k :: 0 <= k < |swaps| ==> swaps[k].i0 < n && swaps[k].i1 < n
  }

  function Swap<T>(xs: seq<T>, i: nat, j: nat): (ys: seq<T>)
    requires i < |xs| && j < |xs|
    ensures |ys| == |xs|
  {
    xs[i := xs[j]][j := xs[i]]
  }

  // The exchanges in the order in which they were recorded.
  function Replay<T>(xs: seq<T>, swaps: seq<Exchange>): (ys: seq<T>)
    requires InRange(swaps, |xs|)
    ensures |ys| == |xs|
  {
    if swaps == [] then xs
    else
      var last := |swaps| - 1;
      Swap(Replay(xs, swaps[..last]), swaps[last].i0, swaps[last].i1)
  }

  lemma ReplayMore<T>(xs: seq<T>, swaps: seq<Exchange>, e: Exchange)
    requires InRange(swaps, |xs|) && e.i0 < |xs| && e.i1 < |xs|
    ensures InRange(swaps + [e], |xs|)
    ensures Replay(xs, swaps + [e]) == Swap(Replay(xs, swaps), e.i0, e.i1)
  {
    assert (swaps + [e])[..|swaps|] == swaps;
  }

  // Exchanges move the names of the rows and the rows alike.
  lemma {:induction false} ReplayTogether<A, B>(names: seq<A>, rows: seq<B>, value: A -> B, swaps: seq<Exchange>)
    requires |names| <= |rows| && InRange(swaps, |names|)
    requires forall k :: 0 <= k < |names| ==> rows[k] == value(names[k])
    ensures InRange(swaps, |rows|)
    ensures forall k :: 0 <= k < |names| ==> Replay(rows, swaps)[k] == value(Replay(names, swaps)[k])
    decreases |swaps|
  {
    if swaps != [] {
      ReplayTogether(names, rows, value, swaps[..|swaps| - 1]);
    }
  }

  predicate Distinct<T(==)>(xs: seq<T>) {
    forall i, j :: 0 <= i < j < |xs| ==> xs[i] != xs[j]
  }

  predicate SameElements<T(==)>(xs: seq<T>, ys: seq<T>) {
    multiset(xs) == multiset(ys)
  }

  lemma SwapElements<T>(xs: seq<T>, i: nat, j: nat)
    requires i < |xs| && j < |xs|
    ensures SameElements(Swap(xs, i, j), xs)
  {
  }

  lemma {:induction false} ReplayElements<T>(xs: seq<T>, swaps: seq<Exchange>)
    requires InRange(swaps, |xs|)
    ensures SameElements(Replay(xs, swaps), xs)
    decreases |swaps|
  {
    if swaps != [] {
      var last := |swaps| - 1;
      ReplayElements(xs, swaps[..last]);
      SwapElements(Replay(xs, swaps[..last]), swaps[last].i0, swaps[last].i1);
    }
  }

  // ---------- rows of a flat buffer ----------

  // Where row r starts.
  function Base(r: nat, width: nat): nat {
    if r == 0 then 0 else Base(r - 1, width) + width
  }

  lemma {:induction false} BaseIs(r: nat, width: nat)
    ensures Base(r, width) == r * width
    decreases r
  {
    if r > 0 {
      BaseIs(r - 1, width);
      assert r * width == (r - 1) * width + width;
    }
  }

  // A later row starts after an earlier one has ended.
  lemma {:induction false} BaseAfter(r: nat, q: nat, width: nat)
    requires r < q
    ensures Base(r, width) + width <= Base(q, width)
    decreases q
  {
    if r < q - 1 {
      BaseAfter(r, q - 1, width);
    }
  }

  // The buffer holds n rows of the given width.
  predicate Holds(size: nat, width: nat, n: nat) {
    Base(n, width) <= size
  }

  function RowAt<V>(data: seq<V>, width: nat, n: nat, r: nat): (row: seq<V>)
    requires Holds(|data|, width, n) && r < n
    ensures |row| == width
  {
    BaseAfter(r, n, width);
    data[Base(r, width)..Base(r, width) + width]
  }

  function RowsOf<V>(data: seq<V>, width: nat, n: nat): (rows: seq<seq<V>>)
    requires Holds(|data|, width, n)
    ensures |rows| == n && forall r :: 0 <= r < n ==> rows[r] == RowAt(data, width, n, r)
  {
    seq(n, r requires 0 <= r < n => RowAt(data, width, n, r))
  }

  // Different rows do not overlap.
  lemma RowsApart(width: nat, i: nat, j: nat)
    requires i != j
    ensures Base(i, width) + width <= Base(j, width) || Base(j, width) + width <= Base(i, width)
  {
    if i < j {
      BaseAfter(i, j, width);
    } else {
      BaseAfter(j, i, width);
    }
  }

  // The first k elements after a and after c have been exchanged, and nothing else.
  predicate PartlySwapped<V(==)>(was: seq<V>, now: seq<V>, a: nat, c: nat, k: nat) {
    && |was| == |now| && a + k <= |was| && c + k <= |was|
    && (forall p :: a <= p < a + k ==> now[p] == was[c + p - a])
    && (forall p :: c <= p < c + k ==> now[p] == was[a + p - c])
    && (forall p :: 0 <= p < |was| && !(a <= p < a + k) && !(c <= p < c + k) ==> now[p] == was[p])
  }

  lemma SwappedSlices<V>(was: seq<V>, now: seq<V>, a: nat, c: nat, k: nat)
    requires PartlySwapped(was, now, a, c, k)
    ensures now[a..a + k] == was[c..c + k] && now[c..c + k] == was[a..a + k]
  {
  }

  lemma OtherSlice<V>(was: seq<V>, now: seq<V>, a: nat, c: nat, k: nat, b: nat)
    requires PartlySwapped(was, now, a, c, k) && b + k <= |was|
    requires (b + k <= a || a + k <= b) && (b + k <= c || c + k <= b)
    ensures now[b..b + k] == was[b..b + k]
  {
  }

  lemma RowIs<V>(data: seq<V>, width: nat, n: nat, r: nat, base: nat)
    requires Holds(|data|, width, n) && r < n && base == Base(r, width)
    ensures base + width <= |data| && RowAt(data, width, n, r) == data[base..base + width]
  {
    BaseAfter(r, n, width);
  }

  lemma RowKept<V>(was: seq<V>, now: seq<V>, width: nat, n: nat, i: nat, j: nat, r: nat)
    requires Holds(|was|, width, n) && i < n && j < n && r < n && r != i && r != j
    requires PartlySwapped(was, now, Base(i, width), Base(j, width), width)
    ensures RowAt(now, width, n, r) == RowAt(was, width, n, r)
  {
    RowIs(was, width, n, r, Base(r, width));
    RowIs(now, width, n, r, Base(r, width));
    RowsApart(width, r, i);
    RowsApart(width, r, j);
    OtherSlice(was, now, Base(i, width), Base(j, width), width, Base(r, width));
  }

  lemma RowsExchanged<V>(was: seq<V>, now: seq<V>, width: nat, n: nat, i: nat, j: nat)
    requires Holds(|was|, width, n) && i < n && j < n
    requires PartlySwapped(was, now, Base(i, width), Base(j, width), width)
    ensures RowAt(now, width, n, i) == RowAt(was, width, n, j) && RowAt(now, width, n, j) == RowAt(was, width, n, i)
  {
    RowIs(was, width, n, i, Base(i, width));
    RowIs(now, width, n, i, Base(i, width));
    RowIs(was, width, n, j, Base(j, width));
    RowIs(now, width, n, j, Base(j, width));
    SwappedSlices(was, now, Base(i, width), Base(j, width), width);
  }

  lemma SwappedRows<V>(was: seq<V>, now: seq<V>, width: nat, n: nat, i: nat, j: nat)
    requires Holds(|was|, width, n) && i < n && j < n
    requires PartlySwapped(was, now, Base(i, width), Base(j, width), width)
    ensures RowsOf(now, width, n) == Swap(RowsOf(was, width, n), i, j)
  {
    RowsExchanged(was, now, width, n, i, j);
    forall r: nat | r < n && r != i && r != j ensures RowAt(now, width, n, r) == RowAt(was, width, n, r) {
      RowKept(was, now, width, n, i, j, r);
    }
  }

  // The loop that exchanges two rows element by element.
  method SwapRows<V(==)>(data: array<V>, width: nat, ghost n: nat, i: nat, j: nat)
    requires Holds(data.Length, width, n) && i < n && j < n
    modifies data
    ensures RowsOf(data[..], width, n) == Swap(RowsOf(old(data[..]), width, n), i, j)
  {
    BaseAfter(i, n, width);
    BaseAfter(j, n, width);
    if i != j {
      RowsApart(width, i, j);
    }
    BaseIs(i, width);
    BaseIs(j, width);
    SwapSlices(data, i * width, j * width, width);
    SwappedRows(old(data[..]), data[..], width, n, i, j);
  }

  method SwapSlices<V(==)>(data: array<V>, a: nat, c: nat, width: nat)
    requires a + width <= data.Length && c + width <= data.Length
    requires a == c || a + width <= c || c + width <= a
    modifies data
    ensures PartlySwapped(old(data[..]), data[..], a, c, width)
  {
    for k := 0 to width
      invariant PartlySwapped(old(data[..]), data[..], a, c, k)
    {
      data[a + k], data[c + k] := data[c + k], data[a + k];
    }
  }

  // The elements after a have become the row, and nothing else has changed.
  predicate Stored<V(==)>(was: seq<V>, now: seq<V>, a: nat, row: seq<V>) {
    && |was| == |now| && a + |row| <= |was|
    && (forall p :: a <= p < a + |row| ==> now[p] == row[p - a])
    && (forall p :: 0 <= p < |was| && !(a <= p < a + |row|) ==> now[p] == was[p])
  }

  lemma StoredOther<V>(was: seq<V>, now: seq<V>, width: nat, n: nat, r: nat, row: seq<V>, q: nat)
    requires Holds(|was|, width, n) && r < n && q < n && q != r && |row| == width
    requires Stored(was, now, Base(r, width), row)
    ensures RowAt(now, width, n, q) == RowAt(was, width, n, q)
  {
    RowIs(was, width, n, q, Base(q, width));
    RowIs(now, width, n, q, Base(q, width));
    RowsApart(width, q, r);
    KeptSlice(was, now, Base(r, width), row, Base(q, width), width);
  }

  lemma KeptSlice<V>(was: seq<V>, now: seq<V>, a: nat, row: seq<V>, b: nat, k: nat)
    requires Stored(was, now, a, row) && b + k <= |was| && (b + k <= a || a + |row| <= b)
    ensures now[b..b + k] == was[b..b + k]
  {
  }

  lemma StoredRow<V>(was: seq<V>, now: seq<V>, width: nat, n: nat, r: nat, row: seq<V>)
    requires Holds(|was|, width, n) && r < n && |row| == width && Stored(was, now, Base(r, width), row)
    ensures RowsOf(now, width, n) == RowsOf(was, width, n)[r := row]
  {
    RowIs(now, width, n, r, Base(r, width));
    assert now[Base(r, width)..Base(r, width) + width] == row;
    forall q: nat | q < n && q != r ensures RowAt(now, width, n, q) == RowAt(was, width, n, q) {
      StoredOther(was, now, width, n, r, row, q);
    }
  }

  // A row is copied into its place.
  method StoreRow<V(==)>(data: array<V>, width: nat, ghost n: nat, r: nat, row: seq<V>)
    requires Holds(data.Length, width, n) && r < n && |row| == width
    modifies data
    ensures RowsOf(data[..], width, n) == RowsOf(old(data[..]), width, n)[r := row]
  {
    BaseAfter(r, n, width);
    BaseIs(r, width);
    StoreSlice(data, r * width, row);
    StoredRow(old(data[..]), data[..], width, n, r, row);
  }

  method StoreSlice<V(==)>(data: array<V>, a: nat, row: seq<V>)
    requires a + |row| <= data.Length
    modifies data
    ensures Stored(old(data[..]), data[..], a, row)
  {
    for k := 0 to |row|
      invariant forall p :: a <= p < a + k ==> data[p] == row[p - a]
      invariant forall p :: 0 <= p < data.Length && !(a <= p < a + k) ==> data[p] == old(data[p])
    {
      data[a + k] := row[k];
    }
  }
}
