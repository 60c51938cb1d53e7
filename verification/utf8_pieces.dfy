/**
 What a piece of bytes decodes to, character by character: the bytes owed to an unfinished character,
 then as many bytes as each first byte asks for.  The decoder of the source reads one byte at a time; this
 says of every piece, well-formed or not, what comes out of it.
 */
module Utf8Pieces {
  import opened Utf8

  // The bytes before the first NUL.
  function UpToNul(src: seq<Byte>): (b: seq<Byte>)
    ensures |b| <= |src| && b == src[..|b|] && 0 !in b
    ensures |b| < |src| ==> src[|b|] == 0
  {
    if src == [] || src[0] == 0 then [] else [src[0]] + UpToNul(src[1..])
  }

  predicate IsContinuationByte(b: Byte) {
    0x80 <= b <= 0xBF
  }

  // How many bytes a character with this first byte has; none begins with a continuation byte.
  function CharLen(first: Byte): (n: nat)
    ensures n == 0 <==> IsContinuationByte(first)
  {
    if first < 0x80 then 1 else if first < 0xC0 then 0 else if first < 0xE0 then 2 else if first < 0xF0 then 3 else 4
  }

  // What the first byte contributes.
  function FirstBits(first: Byte): nat
    requires !IsContinuationByte(first)
  {
    if first < 0x80 then first else if first < 0xE0 then first - 0xC0 else if first < 0xF0 then first - 0xE0 else first - 0xF0
  }

  // Six bits more for every byte.
  function AppendBits(value: nat, bytes: seq<Byte>): nat
    decreases |bytes|
  {
    if bytes == [] then value else AppendBits(value * 64 + bytes[0] % 64, bytes[1..])
  }

  datatype Decoded = Broken | Whole(cps: seq<nat>, left: Partial)

  function Prepend(c: nat, d: Decoded): Decoded {
    if d.Broken? then Broken else Whole([c] + d.cps, d.left)
  }

  // The characters from pos on; last is the state if there are none.
  function Characters(b: seq<Byte>, pos: nat, last: Partial): Decoded
    requires pos <= |b|
    decreases |b| - pos
  {
    if pos == |b| then Whole([], last)
    else
      var n := CharLen(b[pos]);
      if n == 0 then Broken
      else
        var value := AppendBits(FirstBits(b[pos]), b[pos + 1..if pos + n <= |b| then pos + n else |b|]);
        if pos + n > |b| then Whole([], Partial(value, pos + n - |b|))
        else Prepend(value, Characters(b, pos + n, Partial(value, 0)))
  }

  // What a piece gives while `start` is pending.
  function Pieces(src: seq<Byte>, start: Partial): Decoded {
    var b := UpToNul(src);
    if start.nRemain <= 0 then Characters(b, 0, start)
    else
      var k := if start.nRemain <= |b| then start.nRemain else |b|;
      var value := AppendBits(start.value, b[..k]);
      if exists i :: 0 <= i < k && !IsContinuationByte(b[i]) then Broken
      else if k < start.nRemain then Whole([], Partial(value, start.nRemain - k))
      else Prepend(value, Characters(b, k, Partial(value, 0)))
  }

  // ---------- the automaton, over several bytes ----------

  lemma {:induction false} FeedConcat(m: Mode, x: seq<Byte>, y: seq<Byte>)
    requires 0 !in x
    ensures FeedAll(m, x + y) == FeedAll(FeedAll(m, x), y)
    decreases |x|
  {
    if x == [] {
      assert x + y == y;
    } else if m.Reading? {
      assert (x + y)[0] == x[0] && (x + y)[1..] == x[1..] + y && x[0] in x;
      assert forall c :: c in x[1..] ==> c in x;
      FeedConcat(Feed(m, x[0]), x[1..], y);
    }
  }

  lemma {:induction false} FeedUpToNul(m: Mode, src: seq<Byte>)
    ensures FeedAll(m, src) == FeedAll(m, UpToNul(src))
    decreases |src|
  {
    if src != [] && src[0] != 0 && m.Reading? {
      assert UpToNul(src)[0] == src[0] && UpToNul(src)[1..] == UpToNul(src[1..]);
      FeedUpToNul(Feed(m, src[0]), src[1..]);
    }
  }

  // The state once n bytes are due and these have been read.
  function AfterBytes(out: seq<nat>, value: nat, n: nat, strict: bool, bytes: seq<Byte>): Mode
    requires |bytes| <= n
  {
    var v := AppendBits(value, bytes);
    if bytes == [] then Reading(out, value, n, strict)
    else if |bytes| < n then Reading(out, v, n - |bytes|, strict)
    else Reading(out + [v], v, 0, false)
  }

  lemma {:induction false} BytesRead(out: seq<nat>, value: nat, n: nat, strict: bool, bytes: seq<Byte>)
    requires |bytes| <= n && 0 !in bytes
    requires strict ==> forall i :: 0 <= i < |bytes| ==> IsContinuationByte(bytes[i])
    ensures FeedAll(Reading(out, value, n, strict), bytes) == AfterBytes(out, value, n, strict, bytes)
    decreases |bytes|
  {
    if bytes != [] {
      var v := value * 64 + bytes[0] % 64;
      assert bytes[0] in bytes && forall c :: c in bytes[1..] ==> c in bytes;
      if n == 1 {
        assert bytes[1..] == [] && AppendBits(v, []) == v;
        assert FeedAll(Reading(out + [v], v, 0, false), []) == Reading(out + [v], v, 0, false);
        assert Feed(Reading(out, value, n, strict), bytes[0]) == Reading(out + [v], v, 0, false);
      } else {
        assert Feed(Reading(out, value, n, strict), bytes[0]) == Reading(out, v, n - 1, strict);
        BytesRead(out, v, n - 1, strict, bytes[1..]);
        assert FeedAll(Reading(out, value, n, strict), bytes) == FeedAll(Reading(out, v, n - 1, strict), bytes[1..]);
        assert AppendBits(value, bytes) == AppendBits(v, bytes[1..]);
        assert bytes[1..] == [] ==> AppendBits(v, bytes[1..]) == v;
      }
    }
  }

  lemma {:induction false} BytesRefused(out: seq<nat>, value: nat, n: nat, bytes: seq<Byte>, i: nat)
    requires i < |bytes| && i < n && 0 !in bytes && !IsContinuationByte(bytes[i])
    ensures FeedAll(Reading(out, value, n, true), bytes) == Invalid
    decreases i
  {
    assert bytes[0] in bytes && forall c :: c in bytes[1..] ==> c in bytes;
    if IsContinuationByte(bytes[0]) {
      var v := value * 64 + bytes[0] % 64;
      assert Feed(Reading(out, value, n, true), bytes[0]) == Reading(out, v, n - 1, true);
      BytesRefused(out, v, n - 1, bytes[1..], i - 1);
    } else {
      assert Feed(Reading(out, value, n, true), bytes[0]) == Invalid;
    }
  }

  lemma FirstByteRead(m: Mode, first: Byte)
    requires m.Reading? && m.n <= 0 && first != 0
    ensures CharLen(first) == 0 ==> Feed(m, first) == Invalid
    ensures CharLen(first) == 1 ==> Feed(m, first) == Reading(m.out + [FirstBits(first)], FirstBits(first), 0, false)
    ensures CharLen(first) > 1 ==> Feed(m, first) == Reading(m.out, FirstBits(first), CharLen(first) - 1, false)
  {}

  // One character, or the beginning of one.
  lemma CharacterRead(m: Mode, c: seq<Byte>)
    requires m.Reading? && m.n <= 0 && c != [] && 0 !in c && |c| <= CharLen(c[0])
    ensures var v := AppendBits(FirstBits(c[0]), c[1..]);
      FeedAll(m, c) == if |c| == CharLen(c[0]) then Reading(m.out + [v], v, 0, false)
                       else Reading(m.out, v, CharLen(c[0]) - |c|, false)
  {
    assert c[0] in c && forall x :: x in c[1..] ==> x in c;
    FirstByteRead(m, c[0]);
    if CharLen(c[0]) == 1 {
      assert c[1..] == [];
    } else {
      BytesRead(m.out, FirstBits(c[0]), CharLen(c[0]) - 1, false, c[1..]);
    }
  }

  // What the automaton ends with when it began with `out` decoded and m's pending state.
  function Ending(out: seq<nat>, d: Decoded): (seq<nat>, Partial) {
    if d.Broken? then ([0], Partial(0, -1)) else (out + d.cps + [0], d.left)
  }

  lemma EndingPrepend(out: seq<nat>, c: nat, d: Decoded)
    ensures Ending(out, Prepend(c, d)) == Ending(out + [c], d)
  {
    if d.Whole? { assert out + ([c] + d.cps) == out + [c] + d.cps; }
  }

  lemma {:induction false} CharactersRead(m: Mode, b: seq<Byte>, pos: nat)
    requires m.Reading? && m.n <= 0 && pos <= |b| && 0 !in b
    ensures Finish(FeedAll(m, b[pos..])) == Ending(m.out, Characters(b, pos, Partial(m.value, m.n)))
    decreases |b| - pos
  {
    if pos == |b| {
      assert m.out + [] == m.out;
    } else {
      assert b[pos..][0] == b[pos] && b[pos] in b;
      FirstByteRead(m, b[pos]);
      var n := CharLen(b[pos]);
      if n == 0 {
        assert FeedAll(m, b[pos..]) == FeedAll(Feed(m, b[pos]), b[pos..][1..]);
      } else {
        NextCharacter(m, b, pos, n);
        if pos + n <= |b| {
          var value := AppendBits(FirstBits(b[pos]), b[pos + 1..pos + n]);
          var rest := Reading(m.out + [value], value, 0, false);
          CharactersRead(rest, b, pos + n);
          EndingPrepend(m.out, value, Characters(b, pos + n, Partial(value, 0)));
        } else {
          assert m.out + [] == m.out;
        }
      }
    }
  }

  lemma NextCharacter(m: Mode, b: seq<Byte>, pos: nat, n: nat)
    requires m.Reading? && m.n <= 0 && pos < |b| && 0 !in b && n == CharLen(b[pos]) && n > 0
    ensures var end := if pos + n <= |b| then pos + n else |b|;
      var value := AppendBits(FirstBits(b[pos]), b[pos + 1..end]);
      FeedAll(m, b[pos..]) == if pos + n <= |b| then FeedAll(Reading(m.out + [value], value, 0, false), b[pos + n..])
                              else Reading(m.out, value, pos + n - |b|, false)
  {
    var end := if pos + n <= |b| then pos + n else |b|;
    var c := b[pos..end];
    assert c[0] == b[pos] && c[1..] == b[pos + 1..end] && b[pos..] == c + b[end..];
    assert forall x :: x in c ==> x in b;
    FeedConcat(m, c, b[end..]);
    CharacterRead(m, c);
    assert end == |b| ==> b[end..] == [];
  }

  /**
   decode_utf8, for any bytes: a piece that does not go on as the pending bytes demand, or in which a character
   begins with a continuation byte, gives nothing but the mark of an invalid sequence; any other gives its
   characters and what is left of the last one.
   */
  lemma DecodesPieces(src: seq<Byte>, start: Partial)
    ensures Decode(src, start) == Ending([], Pieces(src, start))
  {
    var b := UpToNul(src);
    FeedUpToNul(Start(start), src);
    assert b[0..] == b;
    if start.nRemain <= 0 {
      CharactersRead(Start(start), b, 0);
    } else {
      ResumesPieces(src, b, start);
    }
  }

  lemma ResumesPieces(src: seq<Byte>, b: seq<Byte>, start: Partial)
    requires start.nRemain > 0 && b == UpToNul(src)
    ensures Finish(FeedAll(Start(start), b)) == Ending([], Pieces(src, start))
  {
    var k := if start.nRemain <= |b| then start.nRemain else |b|;
    if i :| 0 <= i < k && !IsContinuationByte(b[i]) {
      BytesRefused([], start.value, start.nRemain, b, i);
    } else {
      var owed := b[..k];
      assert forall x :: x in owed ==> x in b;
      assert b == owed + b[k..];
      FeedConcat(Start(start), owed, b[k..]);
      BytesRead([], start.value, start.nRemain, true, owed);
      var value := AppendBits(start.value, owed);
      if k == start.nRemain {
        CharactersRead(Reading([value], value, 0, false), b, k);
        assert [] + [value] == [value];
        EndingPrepend([], value, Characters(b, k, Partial(value, 0)));
      } else {
        assert b[k..] == [] && [] + [] + [0] == [] + [0];
        assert FeedAll(AfterBytes([], start.value, start.nRemain, true, owed), [])
            == AfterBytes([], start.value, start.nRemain, true, owed);
      }
    }
  }

  // ---------- which pieces are invalid ----------

  // A character begins at index i, if one begins at pos.
  predicate Begins(b: seq<Byte>, pos: nat, i: nat)
    decreases |b| - pos
  {
    i == pos || (pos < |b| && CharLen(b[pos]) > 0 && pos + CharLen(b[pos]) <= |b| && Begins(b, pos + CharLen(b[pos]), i))
  }

  // The byte at index i is wrong: it is owed and no continuation byte, or it is one where a character begins.
  predicate WrongAt(b: seq<Byte>, start: Partial, i: nat)
    requires i < |b|
  {
    if i < start.nRemain then !IsContinuationByte(b[i])
    else IsContinuationByte(b[i]) && Begins(b, if start.nRemain > 0 then start.nRemain else 0, i)
  }

  // Some byte before the first NUL is wrong.
  predicate HasWrongByte(src: seq<Byte>, start: Partial) {
    exists i: nat :: i < |UpToNul(src)| && WrongAt(UpToNul(src), start, i)
  }

  lemma {:induction false} BrokenCharacters(b: seq<Byte>, pos: nat, last: Partial)
    requires pos <= |b|
    ensures Characters(b, pos, last).Broken? <==> exists i: nat :: i < |b| && IsContinuationByte(b[i]) && Begins(b, pos, i)
    decreases |b| - pos
  {
    if pos < |b| {
      var n := CharLen(b[pos]);
      if n == 0 {
        assert IsContinuationByte(b[pos]) && Begins(b, pos, pos);
      } else if pos + n <= |b| {
        var value := AppendBits(FirstBits(b[pos]), b[pos + 1..pos + n]);
        BrokenCharacters(b, pos + n, Partial(value, 0));
        forall i: nat | i < |b| && IsContinuationByte(b[i])
          ensures Begins(b, pos, i) <==> Begins(b, pos + n, i)
        {}
      }
    }
  }

  lemma BrokenPieces(src: seq<Byte>, start: Partial)
    ensures Pieces(src, start).Broken? <==> HasWrongByte(src, start)
  {
    var b := UpToNul(src);
    if start.nRemain <= 0 {
      BrokenCharacters(b, 0, start);
      assert forall i: nat :: i < |b| ==> (WrongAt(b, start, i) <==> IsContinuationByte(b[i]) && Begins(b, 0, i));
    } else if start.nRemain <= |b| {
      BrokenBehind(src, b, start);
    } else {
      assert forall i: nat :: i < |b| ==> (WrongAt(b, start, i) <==> !IsContinuationByte(b[i]));
    }
  }

  lemma BrokenBehind(src: seq<Byte>, b: seq<Byte>, start: Partial)
    requires b == UpToNul(src) && 0 < start.nRemain <= |b|
    ensures Pieces(src, start).Broken? <==> HasWrongByte(src, start)
  {
    var k: nat := start.nRemain;
    var last := Partial(AppendBits(start.value, b[..k]), 0);
    BrokenCharacters(b, k, last);
    if Pieces(src, start).Broken? {
      if i: nat :| i < k && !IsContinuationByte(b[i]) {
        assert WrongAt(b, start, i);
      } else {
        var i: nat :| i < |b| && IsContinuationByte(b[i]) && Begins(b, k, i);
        NotBefore(b, k, i);
        assert WrongAt(b, start, i);
      }
    }
  }

  lemma {:induction false} NotBefore(b: seq<Byte>, pos: nat, i: nat)
    requires Begins(b, pos, i)
    ensures i >= pos
    decreases |b| - pos
  {
    if i != pos { NotBefore(b, pos + CharLen(b[pos]), i); }
  }

  /**
   A piece is taken for invalid exactly if some byte of it is wrong, and then nothing of it is decoded.  Otherwise
   it leaves the state of a text that may go on, unless there was none before and there is nothing in the piece.
   */
  lemma InvalidIffWrongByte(src: seq<Byte>, start: Partial)
    ensures HasWrongByte(src, start) ==> Decode(src, start) == ([0], Partial(0, -1))
    ensures !HasWrongByte(src, start) && (start.nRemain >= 0 || UpToNul(src) != []) ==> Decode(src, start).1.nRemain >= 0
  {
    DecodesPieces(src, start);
    BrokenPieces(src, start);
    if !HasWrongByte(src, start) && (start.nRemain >= 0 || UpToNul(src) != []) {
      var b := UpToNul(src);
      if start.nRemain <= 0 {
        LeavesState(b, 0, start);
      } else if start.nRemain <= |b| {
        LeavesState(b, start.nRemain, Partial(AppendBits(start.value, b[..start.nRemain]), 0));
      }
    }
  }

  lemma {:induction false} LeavesState(b: seq<Byte>, pos: nat, last: Partial)
    requires pos <= |b| && (last.nRemain >= 0 || pos < |b|)
    ensures var d := Characters(b, pos, last); d.Whole? ==> d.left.nRemain >= 0
    decreases |b| - pos
  {
    if pos < |b| && CharLen(b[pos]) > 0 && pos + CharLen(b[pos]) <= |b| {
      var value := AppendBits(FirstBits(b[pos]), b[pos + 1..pos + CharLen(b[pos])]);
      LeavesState(b, pos + CharLen(b[pos]), Partial(value, 0));
    }
  }

  // While bytes are owed, a piece that begins with anything but a continuation byte is invalid.
  lemma OwedByteMissing(src: seq<Byte>, start: Partial)
    requires start.nRemain > 0 && src != [] && src[0] != 0 && !IsContinuationByte(src[0])
    ensures Decode(src, start) == ([0], Partial(0, -1))
  {
    assert UpToNul(src)[0] == src[0] && WrongAt(UpToNul(src), start, 0);
    InvalidIffWrongByte(src, start);
  }
}
