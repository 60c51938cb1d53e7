/**
 Restoring a saved state on the device (the destructor of `llama_io_read_device`, llama-context.cpp):
 the saved chunks are copied into target chunks that may be cut differently.
 */
module StateRestore {

  type Byte = bv8

  // ---------- chunks and the bytes they stand for ----------

  function Flat(chunks: seq<seq<Byte>>): seq<Byte> {
    if chunks == [] then [] else chunks[0] + Flat(chunks[1..])
  }

  // Where chunk j starts.
  function Start(chunks: seq<seq<Byte>>, j: nat): nat
    requires j <= |chunks|
  {
    |Flat(chunks[..j])|
  }

  lemma {:induction false} FlatConcat(x: seq<seq<Byte>>, y: seq<seq<Byte>>)
    ensures Flat(x + y) == Flat(x) + Flat(y)
    decreases |x|
  {
    if x == [] {
      assert x + y == y;
    } else {
      FlatConcat(x[1..], y);
      assert (x + y)[1..] == x[1..] + y;
    }
  }

  // The bytes before chunk j, those of chunk j, and the rest.
  lemma FlatAt(chunks: seq<seq<Byte>>, j: nat)
    requires j < |chunks|
    ensures Flat(chunks) == Flat(chunks[..j]) + (chunks[j] + Flat(chunks[j + 1..]))
    ensures Start(chunks, j + 1) == Start(chunks, j) + |chunks[j]|
  {
    assert chunks == chunks[..j] + chunks[j..];
    FlatConcat(chunks[..j], chunks[j..]);
    assert chunks[..j + 1] == chunks[..j] + [chunks[j]];
    FlatConcat(chunks[..j], [chunks[j]]);
    assert Flat([chunks[j]]) == chunks[j] + Flat([]);
  }

  lemma StartOfAll(chunks: seq<seq<Byte>>)
    ensures Start(chunks, |chunks|) == |Flat(chunks)| && Start(chunks, 0) == 0
  {
    assert chunks[..|chunks|] == chunks;
  }

  // Chunks of the same sizes with the same bytes are the same chunks.
  lemma {:induction false} FlatDetermines(x: seq<seq<Byte>>, y: seq<seq<Byte>>)
    requires |x| == |y| && Flat(x) == Flat(y) && forall i :: 0 <= i < |x| ==> |x[i]| == |y[i]|
    ensures x == y
    decreases |x|
  {
    if x != [] {
      assert x[0] == Flat(x)[..|x[0]|] == Flat(y)[..|y[0]|] == y[0];
      assert Flat(x[1..]) == Flat(x)[|x[0]|..] == Flat(y)[|y[0]|..] == Flat(y[1..]);
      FlatDetermines(x[1..], y[1..]);
      assert x == [x[0]] + x[1..] && y == [y[0]] + y[1..];
    }
  }

  // ---------- writing into a chunk ----------

  function Overwrite(s: seq<Byte>, at: nat, data: seq<Byte>): (r: seq<Byte>)
    requires at + |data| <= |s|
    ensures |r| == |s|
  {
    s[..at] + data + s[at + |data|..]
  }

  lemma OverwriteMiddle(x: seq<Byte>, c: seq<Byte>, z: seq<Byte>, at: nat, data: seq<Byte>)
    requires at + |data| <= |c|
    ensures x + (Overwrite(c, at, data) + z) == Overwrite(x + (c + z), |x| + at, data)
  {
  }

  // Writing into a chunk writes into the bytes at the chunk's place.
  lemma FlatOverwrite(chunks: seq<seq<Byte>>, i: nat, at: nat, data: seq<Byte>)
    requires i < |chunks| && at + |data| <= |chunks[i]|
    ensures Start(chunks, i) + at + |data| <= |Flat(chunks)|
    ensures Flat(chunks[i := Overwrite(chunks[i], at, data)]) == Overwrite(Flat(chunks), Start(chunks, i) + at, data)
  {
    var now := chunks[i := Overwrite(chunks[i], at, data)];
    FlatAt(chunks, i);
    FlatAt(now, i);
    assert now[..i] == chunks[..i] && now[i + 1..] == chunks[i + 1..];
    OverwriteMiddle(Flat(chunks[..i]), chunks[i], Flat(chunks[i + 1..]), at, data);
  }

  // A part of a chunk is a part of the bytes.
  lemma FlatPart(chunks: seq<seq<Byte>>, j: nat, at: nat, n: nat)
    requires j < |chunks| && at + n <= |chunks[j]|
    ensures Start(chunks, j) + at + n <= |Flat(chunks)|
    ensures Flat(chunks)[Start(chunks, j) + at..Start(chunks, j) + at + n] == chunks[j][at..at + n]
  {
    FlatAt(chunks, j);
  }

  lemma PrefixGrows(want: seq<Byte>, have: seq<Byte>, pos: nat, n: nat)
    requires |have| == |want| && pos + n <= |want| && have[..pos] == want[..pos]
    ensures Overwrite(have, pos, want[pos..pos + n])[..pos + n] == want[..pos + n]
  {
    assert want[..pos + n] == want[..pos] + want[pos..pos + n];
  }

  // ---------- target chunks ----------

  // What the target chunks hold.
  function Contents(dst: seq<array<Byte>>): (chunks: seq<seq<Byte>>)
    reads set a | a in dst
    ensures |chunks| == |dst| && forall i :: 0 <= i < |dst| ==> chunks[i] == dst[i][..]
  {
    seq(|dst|, i requires 0 <= i < |dst| reads set a | a in dst => dst[i][..])
  }

  predicate Separate(dst: seq<array<Byte>>) {
    forall i, j :: 0 <= i < j < |dst| ==> dst[i] != dst[j]
  }

  // A tensor copy between two views of the same size.
  method CopyTensor(src: seq<Byte>, srcOff: nat, dst: array<Byte>, dstOff: nat, n: nat)
    requires srcOff + n <= |src| && dstOff + n <= dst.Length
    modifies dst
    ensures dst[..] == Overwrite(old(dst[..]), dstOff, src[srcOff..srcOff + n])
  {
    for k := 0 to n
      invariant forall p :: dstOff <= p < dstOff + k ==> dst[p] == src[srcOff + p - dstOff]
      invariant forall p :: 0 <= p < dst.Length && !(dstOff <= p < dstOff + k) ==> dst[p] == old(dst[p])
    {
      dst[dstOff + k] := src[srcOff + k];
    }
  }

  // Sizes are whole numbers of elements.
  predicate Whole(chunks: seq<seq<Byte>>, el: nat)
    requires el > 0
  {
    forall i :: 0 <= i < |chunks| ==> |chunks[i]| % el == 0
  }

  // ---------- the two cursors ----------

  // The source keeps one position for each list; both advance by the same amounts, so pos is both.
  // One cursor: position pos lies in chunk j, or at its start if the chunk is empty.
  predicate Cursor(chunks: seq<seq<Byte>>, pos: nat, j: nat, base: nat) {
    && j <= |chunks| && base == Start(chunks, j) <= pos
    && (if j < |chunks| then pos - base < |chunks[j]| || pos == base else pos == base)
  }

  // Bytes remain, so the cursor is in the list.
  lemma CursorInside(chunks: seq<seq<Byte>>, pos: nat, j: nat, base: nat)
    requires Cursor(chunks, pos, j, base) && pos < |Flat(chunks)|
    ensures j < |chunks| && pos - base <= |chunks[j]|
  {
    StartOfAll(chunks);
  }

  // Moving a cursor on within its chunk, and to the next one at its end.
  lemma CursorMoves(chunks: seq<seq<Byte>>, pos: nat, j: nat, base: nat, n: nat)
    requires Cursor(chunks, pos, j, base) && j < |chunks| && pos - base + n <= |chunks[j]|
    ensures pos + n - base == |chunks[j]| ==> Cursor(chunks, pos + n, j + 1, pos + n)
    ensures pos + n - base != |chunks[j]| ==> Cursor(chunks, pos + n, j, base)
  {
    FlatAt(chunks, j);
  }

  // The offsets of both cursors are whole numbers of elements, so no byte of a copy is lost.
  lemma WholeCopy(x: nat, y: nat, a: nat, c: nat, el: nat)
    requires el > 0 && x % el == y % el == a % el == c % el == 0 && a <= x && c <= y
    ensures var n := if x - a < y - c then x - a else y - c; n % el == 0 && n / el * el == n && (a + n) % el == 0 && (c + n) % el == 0
  {
    var n := if x - a < y - c then x - a else y - c;
    Multiple(x, a, el);
    Multiple(y, c, el);
    Added(a, n, el);
    Added(c, n, el);
  }

  lemma Multiple(x: nat, a: nat, el: nat)
    requires el > 0 && x % el == a % el == 0 && a <= x
    ensures (x - a) % el == 0
  {
    assert x == x / el * el && a == a / el * el;
    assert x - a == (x / el - a / el) * el;
    Times(x / el - a / el, el);
  }

  lemma Added(a: nat, n: nat, el: nat)
    requires el > 0 && a % el == n % el == 0
    ensures (a + n) % el == 0
  {
    assert a == a / el * el && n == n / el * el;
    assert a + n == (a / el + n / el) * el;
    Times(a / el + n / el, el);
  }

  lemma Times(k: int, el: nat)
    requires el > 0
    ensures k * el % el == 0
  {
    var q, r := k * el / el, k * el % el;
    assert k * el == q * el + r;
    assert (k - q) * el == r;
    Scaled(k - q, el);
  }

  lemma Scaled(d: int, el: nat)
    requires el > 0
    ensures d >= 1 ==> d * el >= el
    ensures d <= -1 ==> d * el + el <= 0
  {
    assert d >= 1 ==> (d - 1) * el >= 0;
    assert d <= -1 ==> (d + 1) * el <= 0;
  }

  // ---------- the copy ----------

  // Everything before pos has arrived, and both cursors are at pos.
  ghost predicate Arrived(src: seq<seq<Byte>>, have: seq<seq<Byte>>, el: nat, pos: nat,
                          srcJ: nat, srcBase: nat, dstI: nat, dstBase: nat)
  {
    && el > 0 && Whole(src, el) && Whole(have, el)
    && pos <= |Flat(src)| == |Flat(have)|
    && Cursor(src, pos, srcJ, srcBase) && Cursor(have, pos, dstI, dstBase)
    && (pos - srcBase) % el == 0 && (pos - dstBase) % el == 0
    && Flat(have)[..pos] == Flat(src)[..pos]
  }

  // The sizes of the target chunks do not change, and neither do the places where they start.
  lemma SameSizes(x: seq<seq<Byte>>, y: seq<seq<Byte>>, j: nat)
    requires |x| == |y| && j <= |x| && forall i :: 0 <= i < |x| ==> |x[i]| == |y[i]|
    ensures Start(x, j) == Start(y, j)
    decreases j
  {
    if j > 0 {
      SameSizes(x, y, j - 1);
      FlatAt(x, j - 1);
      FlatAt(y, j - 1);
    } else {
      assert x[..0] == [] && y[..0] == [];
    }
  }

  // What one copy does to the bytes as a whole.
  lemma CopyArrives(src: seq<seq<Byte>>, was: seq<seq<Byte>>, now: seq<seq<Byte>>, pos: nat,
                    srcJ: nat, srcBase: nat, dstI: nat, dstBase: nat, n: nat)
    requires pos <= |Flat(src)| == |Flat(was)| && Flat(was)[..pos] == Flat(src)[..pos]
    requires srcJ < |src| && srcBase == Start(src, srcJ) <= pos && pos - srcBase + n <= |src[srcJ]|
    requires dstI < |was| && dstBase == Start(was, dstI) <= pos && pos - dstBase + n <= |was[dstI]|
    requires now == was[dstI := Overwrite(was[dstI], pos - dstBase, src[srcJ][pos - srcBase..pos - srcBase + n])]
    ensures pos + n <= |Flat(src)| == |Flat(now)| && Flat(now)[..pos + n] == Flat(src)[..pos + n]
  {
    var data := src[srcJ][pos - srcBase..pos - srcBase + n];
    PartFrom(src, pos, srcJ, srcBase, n);
    OverwriteFrom(was, pos, dstI, dstBase, data);
    PrefixGrows(Flat(src), Flat(was), pos, n);
  }

  lemma PartFrom(chunks: seq<seq<Byte>>, pos: nat, j: nat, base: nat, n: nat)
    requires j < |chunks| && base == Start(chunks, j) <= pos && pos - base + n <= |chunks[j]|
    ensures pos + n <= |Flat(chunks)| && Flat(chunks)[pos..pos + n] == chunks[j][pos - base..pos - base + n]
  {
    var at := pos - base;
    FlatPart(chunks, j, at, n);
  }

  lemma OverwriteFrom(chunks: seq<seq<Byte>>, pos: nat, i: nat, base: nat, data: seq<Byte>)
    requires i < |chunks| && base == Start(chunks, i) <= pos && pos - base + |data| <= |chunks[i]|
    ensures pos + |data| <= |Flat(chunks)|
    ensures Flat(chunks[i := Overwrite(chunks[i], pos - base, data)]) == Overwrite(Flat(chunks), pos, data)
  {
    var at := pos - base;
    FlatOverwrite(chunks, i, at, data);
  }

  // The next position of a cursor.
  function NextBase(size: nat, pos: nat, base: nat): nat {
    if pos - base == size then pos else base
  }

  function NextIndex(size: nat, pos: nat, j: nat, base: nat): nat {
    if pos - base == size then j + 1 else j
  }

  lemma CursorNext(chunks: seq<seq<Byte>>, pos: nat, j: nat, base: nat, n: nat, el: nat)
    requires Cursor(chunks, pos, j, base) && j < |chunks| && pos - base + n <= |chunks[j]|
    requires el > 0 && (pos - base + n) % el == 0
    ensures var size := |chunks[j]|;
      Cursor(chunks, pos + n, NextIndex(size, pos + n, j, base), NextBase(size, pos + n, base))
      && (pos + n - NextBase(size, pos + n, base)) % el == 0
  {
    CursorMoves(chunks, pos, j, base, n);
  }

  // All of what holds after one copy.
  lemma RoundArrives(src: seq<seq<Byte>>, was: seq<seq<Byte>>, now: seq<seq<Byte>>, el: nat, pos: nat,
                     srcJ: nat, srcBase: nat, dstI: nat, dstBase: nat, n: nat)
    requires Arrived(src, was, el, pos, srcJ, srcBase, dstI, dstBase) && srcJ < |src| && dstI < |was|
    requires pos - srcBase + n <= |src[srcJ]| && pos - dstBase + n <= |was[dstI]|
    requires (pos - srcBase + n) % el == 0 && (pos - dstBase + n) % el == 0
    requires now == was[dstI := Overwrite(was[dstI], pos - dstBase, src[srcJ][pos - srcBase..pos - srcBase + n])]
    ensures Arrived(src, now, el, pos + n,
                    NextIndex(|src[srcJ]|, pos + n, srcJ, srcBase), NextBase(|src[srcJ]|, pos + n, srcBase),
                    NextIndex(|was[dstI]|, pos + n, dstI, dstBase), NextBase(|was[dstI]|, pos + n, dstBase))
  {
    CopyArrives(src, was, now, pos, srcJ, srcBase, dstI, dstBase, n);
    CursorNext(src, pos, srcJ, srcBase, n, el);
    CursorNext(was, pos, dstI, dstBase, n, el);
    CursorSame(was, now, pos + n, NextIndex(|was[dstI]|, pos + n, dstI, dstBase), NextBase(|was[dstI]|, pos + n, dstBase));
  }

  // One round of the loop: copy as much as both chunks have left, and step over the chunks that are
  // done.  A round over an empty chunk copies nothing.
  method CopyRound(src: seq<seq<Byte>>, dst: seq<array<Byte>>, el: nat, pos: nat,
                   srcJ: nat, srcBase: nat, dstI: nat, dstBase: nat)
    returns (pos': nat, srcJ': nat, srcBase': nat, dstI': nat, dstBase': nat)
    requires Separate(dst) && pos < |Flat(src)|
    requires Arrived(src, Contents(dst), el, pos, srcJ, srcBase, dstI, dstBase)
    modifies set a | a in dst
    ensures Arrived(src, Contents(dst), el, pos', srcJ', srcBase', dstI', dstBase')
    ensures srcJ' + dstI' > srcJ + dstI
  {
    ghost var was := Contents(dst);
    CursorInside(src, pos, srcJ, srcBase);
    CursorInside(was, pos, dstI, dstBase);
    var srcOff, dstOff := pos - srcBase, pos - dstBase;
    var srcSize, dstSize := |src[srcJ]|, dst[dstI].Length;
    var nCopy := if srcSize - srcOff < dstSize - dstOff then srcSize - srcOff else dstSize - dstOff;
    assert was[dstI] == dst[dstI][..];
    WholeCopy(srcSize, dstSize, srcOff, dstOff, el);
    var nEl := nCopy / el;
    CopyTensor(src[srcJ], srcOff, dst[dstI], dstOff, nEl * el);
    assert Contents(dst) == was[dstI := Overwrite(was[dstI], dstOff, src[srcJ][srcOff..srcOff + nCopy])];
    RoundArrives(src, was, Contents(dst), el, pos, srcJ, srcBase, dstI, dstBase, nCopy);
    pos', srcJ', srcBase', dstI', dstBase' := pos + nCopy, srcJ, srcBase, dstI, dstBase;
    if pos' - srcBase == srcSize {
      srcBase' := pos';
      srcJ' := srcJ + 1;
    }
    if pos' - dstBase == dstSize {
      dstBase' := pos';
      dstI' := dstI + 1;
    }
  }

  lemma CursorSame(x: seq<seq<Byte>>, y: seq<seq<Byte>>, pos: nat, j: nat, base: nat)
    requires |x| == |y| && forall i :: 0 <= i < |x| ==> |x[i]| == |y[i]|
    requires Cursor(x, pos, j, base)
    ensures Cursor(y, pos, j, base)
  {
    SameSizes(x, y, j);
  }

  // Chunks behind the end hold no data.
  lemma RestEmpty(chunks: seq<seq<Byte>>, j: nat, base: nat, i: nat)
    requires Cursor(chunks, |Flat(chunks)|, j, base) && j <= i < |chunks|
    ensures chunks[i] == []
  {
    FlatAt(chunks, i);
    assert chunks[..i] == chunks[..j] + chunks[j..i];
    FlatConcat(chunks[..j], chunks[j..i]);
    FlatAt(chunks, j);
    if i > j {
      assert chunks[j..i][0] == chunks[j];
    }
  }

  // The loop with two cursors.
  method CopyByCursor(src: seq<seq<Byte>>, dst: seq<array<Byte>>, el: nat)
    requires el > 0 && Separate(dst) && Whole(src, el) && Whole(Contents(dst), el)
    requires |Flat(Contents(dst))| == |Flat(src)|
    modifies set a | a in dst
    ensures Flat(Contents(dst)) == Flat(src)
  {
    StartOfAll(src);
    StartOfAll(Contents(dst));
    var total := TotalSize(src);
    var pos, srcJ, srcBase, dstI, dstBase := 0, 0, 0, 0, 0;
    while pos < total
      invariant Arrived(src, Contents(dst), el, pos, srcJ, srcBase, dstI, dstBase)
      decreases |src| + |dst| - srcJ - dstI
    {
      pos, srcJ, srcBase, dstI, dstBase := CopyRound(src, dst, el, pos, srcJ, srcBase, dstI, dstBase);
    }
    assert Flat(Contents(dst))[..total] == Flat(Contents(dst));
    assert Flat(src)[..total] == Flat(src);
    for i := srcJ to |src|
      invariant Arrived(src, Contents(dst), el, pos, srcJ, srcBase, dstI, dstBase)
    {
      RestEmpty(src, srcJ, srcBase, i);
      assert |src[i]| == 0;
    }
    for i := dstI to |dst|
      invariant Arrived(src, Contents(dst), el, pos, srcJ, srcBase, dstI, dstBase)
    {
      RestEmpty(Contents(dst), dstI, dstBase, i);
      assert dst[i].Length == 0;
    }
  }

  method TotalSize(chunks: seq<seq<Byte>>) returns (total: nat)
    ensures total == |Flat(chunks)|
  {
    total := 0;
    for i := 0 to |chunks|
      invariant total == Start(chunks, i)
    {
      FlatAt(chunks, i);
      total := total + |chunks[i]|;
    }
    StartOfAll(chunks);
  }

  // The fast path: chunk i to chunk i.
  method CopyByIndex(src: seq<seq<Byte>>, dst: seq<array<Byte>>)
    requires Separate(dst) && |src| == |dst| && forall i :: 0 <= i < |src| ==> |src[i]| == dst[i].Length
    modifies set a | a in dst
    ensures Contents(dst) == src
  {
    for i := 0 to |src|
      invariant forall k :: 0 <= k < i ==> dst[k][..] == src[k]
    {
      CopyTensor(src[i], 0, dst[i], 0, |src[i]|);
      assert dst[i][..] == src[i];
    }
  }

  // Do the lists agree chunk by chunk?
  method SameChunking(src: seq<seq<Byte>>, dst: seq<array<Byte>>) returns (same: bool)
    ensures same <==> |src| == |dst| && forall i :: 0 <= i < |src| ==> |src[i]| == dst[i].Length
  {
    if |src| != |dst| {
      return false;
    }
    for i := 0 to |src|
      invariant forall k :: 0 <= k < i ==> |src[k]| == dst[k].Length
    {
      if |src[i]| != dst[i].Length {
        return false;
      }
    }
    return true;
  }

  // The restore of one buffer.  Whatever the chunks, the target holds the bytes of the source; if the
  // chunks agree, whichever path is taken, every target chunk holds its source chunk.
  method Restore(src: seq<seq<Byte>>, dst: seq<array<Byte>>, el: nat)
    requires el > 0 && Separate(dst) && Whole(src, el) && Whole(Contents(dst), el)
    requires |Flat(Contents(dst))| == |Flat(src)|
    modifies set a | a in dst
    ensures Flat(Contents(dst)) == Flat(src)
    ensures |src| == |dst| && (forall i :: 0 <= i < |src| ==> |src[i]| == dst[i].Length) ==> Contents(dst) == src
  {
    var same := SameChunking(src, dst);
    if same {
      CopyByIndex(src, dst);
    } else {
      CopyByCursor(src, dst, el);
    }
  }

  // The cursor loop alone agrees with the fast path where that applies.
  method CursorAgrees(src: seq<seq<Byte>>, dst: seq<array<Byte>>, el: nat)
    requires el > 0 && Separate(dst) && Whole(src, el) && |src| == |dst|
    requires forall i :: 0 <= i < |src| ==> |src[i]| == dst[i].Length
    modifies set a | a in dst
    ensures Contents(dst) == src
  {
    ghost var was := Contents(dst);
    SameSizes(src, was, |src|);
    StartOfAll(src);
    StartOfAll(was);
    CopyByCursor(src, dst, el);
    FlatDetermines(Contents(dst), src);
  }
}
