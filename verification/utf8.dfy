/**
 Incremental UTF-8 decoding (llama-grammar.cpp, the second `decode_utf8`): the bytes of a text may be
 cut into pieces anywhere, the unfinished code point of a piece is carried to the next one.
 */
module Utf8 {

  type Byte = b: nat | b < 256

  // value: bits read so far; nRemain: bytes missing, -1 after an invalid sequence
  datatype Partial = Partial(value: nat, nRemain: int)

  const NoPartial := Partial(0, 0)

  // Sequence length by the high four bits of the first byte, 0 for a continuation byte.
  function Lookup(highbits: nat): (len: nat)
    requires highbits < 16
    ensures len <= 4
  {
    if highbits < 8 then 1 else if highbits < 12 then 0 else if highbits < 14 then 2 else if highbits == 14 then 3 else 4
  }

  // first_byte & ((1 << (7 - n)) - 1)
  function LeadBits(b: Byte, n: nat): nat
    requires n <= 3
  {
    if n == 0 then b % 128 else if n == 1 then b % 64 else if n == 2 then b % 32 else b % 16
  }

  // ---------- the decoder as an automaton ----------

  // strict: continuation bytes are checked, which the source does only while resuming.
  datatype Mode =
    | Reading(out: seq<nat>, value: nat, n: int, strict: bool)
    | Invalid

  function Emit(m: Mode): Mode
    requires m.Reading?
  {
    if m.n == 0 then m.(out := m.out + [m.value], strict := false) else m
  }

  function Feed(m: Mode, b: Byte): Mode
    requires m.Reading?
  {
    if m.n > 0 then
      if m.strict && b / 64 != 2 then Invalid
      else Emit(m.(value := m.value * 64 + b % 64, n := m.n - 1))
    else if Lookup(b / 16) == 0 then Invalid
    else
      var n := Lookup(b / 16) - 1;
      Emit(Reading(m.out, LeadBits(b, n), n, false))
  }

  // A NUL byte ends the piece.
  function FeedAll(m: Mode, src: seq<Byte>): Mode
    decreases |src|
  {
    if src == [] || src[0] == 0 || m.Invalid? then m else FeedAll(Feed(m, src[0]), src[1..])
  }

  // Code points of one piece, closed by a terminating 0, and the state after it.
  function Finish(m: Mode): (seq<nat>, Partial) {
    if m.Invalid? then ([0], Partial(0, -1)) else (m.out + [0], Partial(m.value, m.n))
  }

  // The mode in which the first byte of a piece is read.
  function Start(start: Partial): Mode {
    Reading([], start.value, start.nRemain, true)
  }

  function Decode(src: seq<Byte>, start: Partial): (seq<nat>, Partial) {
    Finish(FeedAll(Start(start), src))
  }

  lemma FeedStep(m: Mode, src: seq<Byte>, pos: nat)
    requires m.Reading? && pos < |src| && src[pos] != 0
    ensures FeedAll(m, src[pos..]) == FeedAll(Feed(m, src[pos]), src[pos + 1..])
  {
    assert src[pos..][1..] == src[pos + 1..];
  }

  // One more continuation byte of the code point being read.
  lemma FeedMore(m: Mode, src: seq<Byte>, pos: nat)
    requires m.Reading? && m.n > 0 && pos < |src| && src[pos] != 0 && (m.strict ==> src[pos] / 64 == 2)
    ensures FeedAll(Emit(m), src[pos..])
         == FeedAll(Emit(m.(value := m.value * 64 + src[pos] % 64, n := m.n - 1)), src[pos + 1..])
  {
    FeedStep(m, src, pos);
  }

  // decode_utf8, first part: finish the code point that the previous piece left incomplete.
  method Resume(src: seq<Byte>, start: Partial) returns (pos: nat, value: nat, n: int, valid: bool)
    ensures !valid ==> FeedAll(Start(start), src).Invalid?
    ensures valid ==> pos <= |src| && (pos < |src| && src[pos] != 0 ==> n <= 0)
    ensures valid && start.nRemain > 0 ==> n >= 0 && FeedAll(Start(start), src) == FeedAll(Emit(Reading([], value, n, true)), src[pos..])
    ensures valid && start.nRemain <= 0 ==> pos == 0 && value == start.value && n == start.nRemain
  {
    pos, value, n, valid := 0, start.value, start.nRemain, true;
    assert src[0..] == src;
    while pos < |src| && src[pos] != 0 && n > 0
      invariant pos <= |src|
      invariant start.nRemain > 0 ==>
          n >= 0 && FeedAll(Start(start), src) == FeedAll(Emit(Reading([], value, n, true)), src[pos..])
      invariant start.nRemain <= 0 ==> pos == 0 && value == start.value && n == start.nRemain
      decreases |src| - pos
    {
      if src[pos] / 64 != 2 {
        FeedStep(Reading([], value, n, true), src, pos);
        valid := false;
        return;
      }
      FeedMore(Reading([], value, n, true), src, pos);
      value := value * 64 + src[pos] % 64;
      pos := pos + 1;
      n := n - 1;
    }
  }

  // decode_utf8
  method DecodeUtf8(src: seq<Byte>, start: Partial) returns (codePoints: seq<nat>, partial: Partial)
    ensures (codePoints, partial) == Decode(src, start)
  {
    var pos: nat, value: nat, n: int, valid: bool := Resume(src, start);
    if !valid {
      return [0], Partial(0, -1);
    }
    codePoints := if start.nRemain > 0 && n == 0 then [value] else [];
    ghost var m := if start.nRemain > 0 then Emit(Reading([], value, n, true)) else Start(start);
    assert [] + [value] == [value] && src[0..] == src;
    while pos < |src| && src[pos] != 0
      invariant pos <= |src| && (pos < |src| && src[pos] != 0 ==> n <= 0)
      invariant m.Reading? && m.out == codePoints && m.value == value && m.n == n
      invariant FeedAll(Start(start), src) == FeedAll(m, src[pos..])
      decreases |src| - pos
    {
      FeedStep(m, src, pos);
      n := Lookup(src[pos] / 16) - 1;
      if n < 0 {
        return [0], Partial(0, n);
      }
      value := LeadBits(src[pos], n);
      pos := pos + 1;
      while pos < |src| && src[pos] != 0 && n > 0
        invariant pos <= |src| && n >= 0
        invariant FeedAll(Start(start), src) == FeedAll(Emit(Reading(codePoints, value, n, false)), src[pos..])
        decreases |src| - pos
      {
        FeedMore(Reading(codePoints, value, n, false), src, pos);
        value := value * 64 + src[pos] % 64;
        pos := pos + 1;
        n := n - 1;
      }
      m := Emit(Reading(codePoints, value, n, false));
      if n == 0 {
        codePoints := codePoints + [value];
      }
    }
    codePoints := codePoints + [0];
    partial := Partial(value, n);
  }

  // ---------- encoding, section 3 of RFC 3629 ----------

  // Surrogates are not excluded: the decoder does not treat them specially.
  predicate IsCodePoint(c: nat) {
    0 < c < 0x110000
  }

  // The low 6 * n bits of c as n continuation bytes.
  function Tail(c: nat, n: nat): (bytes: seq<Byte>)
    ensures |bytes| == n
  {
    if n == 0 then [] else Tail(c / 64, n - 1) + [0x80 + c % 64]
  }

  // Number of continuation bytes.
  function TailLen(c: nat): (n: nat)
    ensures n <= 3
  {
    if c < 0x80 then 0 else if c < 0x800 then 1 else if c < 0x10000 then 2 else 3
  }

  function LeadByte(c: nat): Byte
    requires c < 0x110000
  {
    if c < 0x80 then c
    else if c < 0x800 then 0xC0 + c / 64
    else if c < 0x10000 then 0xE0 + c / 64 / 64
    else 0xF0 + c / 64 / 64 / 64
  }

  function Encode(c: nat): (bytes: seq<Byte>)
    requires c < 0x110000
  {
    [LeadByte(c)] + Tail(c, TailLen(c))
  }

  predicate IsText(cps: seq<nat>) {
    forall i :: 0 <= i < |cps| ==> IsCodePoint(cps[i])
  }

  function EncodeAll(cps: seq<nat>): seq<Byte>
    requires IsText(cps)
  {
    if cps == [] then [] else Encode(cps[0]) + EncodeAll(cps[1..])
  }

  // ---------- independence of the cuts ----------

  // The decoder without error handling; on well-formed text it agrees with the real one.
  datatype Run = Run(out: seq<nat>, value: nat, n: nat)

  // b is acceptable where n more continuation bytes are due.
  predicate Fits(n: nat, b: Byte) {
    b != 0 && (if n > 0 then b / 64 == 2 else Lookup(b / 16) > 0)
  }

  function Next(r: Run, b: Byte): Run
    requires Fits(r.n, b)
  {
    var v := if r.n > 0 then r.value * 64 + b % 64 else LeadBits(b, Lookup(b / 16) - 1);
    var n := if r.n > 0 then r.n - 1 else Lookup(b / 16) - 1;
    Run(if n == 0 then r.out + [v] else r.out, v, n)
  }

  predicate Clean(r: Run, src: seq<Byte>)
    decreases |src|
  {
    src == [] || (Fits(r.n, src[0]) && Clean(Next(r, src[0]), src[1..]))
  }

  function RunAll(r: Run, src: seq<Byte>): Run
    requires Clean(r, src)
    decreases |src|
  {
    if src == [] then r else RunAll(Next(r, src[0]), src[1..])
  }

  lemma {:induction false} RunConcat(r: Run, x: seq<Byte>, y: seq<Byte>)
    ensures Clean(r, x + y) <==> Clean(r, x) && Clean(RunAll(r, x), y)
    ensures Clean(r, x + y) ==> RunAll(r, x + y) == RunAll(RunAll(r, x), y)
    decreases |x|
  {
    if x == [] {
      assert x + y == y;
    } else {
      assert (x + y)[1..] == x[1..] + y;
      if Fits(r.n, x[0]) { RunConcat(Next(r, x[0]), x[1..], y); }
    }
  }

  // Earlier output is kept and does not matter.
  lemma {:induction false} RunOut(pre: seq<nat>, r: Run, src: seq<Byte>)
    requires Clean(r, src)
    ensures Clean(r.(out := pre + r.out), src)
    ensures RunAll(r.(out := pre + r.out), src) == RunAll(r, src).(out := pre + RunAll(r, src).out)
    decreases |src|
  {
    if src != [] {
      var s := Next(r, src[0]);
      assert Next(r.(out := pre + r.out), src[0]) == s.(out := pre + s.out);
      RunOut(pre, s, src[1..]);
    }
  }

  lemma {:induction false} CleanMeansReading(m: Mode, src: seq<Byte>)
    requires m.Reading? && m.n >= 0 && Clean(Run(m.out, m.value, m.n), src)
    ensures FeedAll(m, src).Reading?
    ensures var r := RunAll(Run(m.out, m.value, m.n), src);
            FeedAll(m, src).out == r.out && FeedAll(m, src).value == r.value && FeedAll(m, src).n == r.n
    decreases |src|
  {
    if src != [] {
      CleanMeansReading(Feed(m, src[0]), src[1..]);
    }
  }

  // A run over a known sequence of bytes.
  lemma RunCons(r: Run, b: Byte, src: seq<Byte>)
    requires Fits(r.n, b) && Clean(Next(r, b), src)
    ensures Clean(r, [b] + src) && RunAll(r, [b] + src) == RunAll(Next(r, b), src)
  {
    assert ([b] + src)[1..] == src;
  }

  lemma Continuation(r: Run, x: nat)
    requires r.n > 0 && x < 64
    ensures Fits(r.n, 0x80 + x)
    ensures Next(r, 0x80 + x)
         == Run(if r.n == 1 then r.out + [r.value * 64 + x] else r.out, r.value * 64 + x, r.n - 1)
  {}

  // c without its low 6 * n bits.
  function High(c: nat, n: nat): nat {
    if n == 0 then c else High(c / 64, n - 1)
  }

  // Reading n of n + more missing bytes of c.
  lemma {:induction false} TailRuns(out: seq<nat>, c: nat, n: nat, more: nat)
    requires n > 0
    ensures Clean(Run(out, High(c, n), n + more), Tail(c, n))
    ensures RunAll(Run(out, High(c, n), n + more), Tail(c, n)) == Run(if more == 0 then out + [c] else out, c, more)
    decreases n
  {
    var r := Run(out, High(c, n), n + more);
    var mid := Run(out, c / 64, 1 + more);
    if n == 1 {
      assert High(c, 1) == c / 64;
      assert Tail(c / 64, 0) == [];
    } else {
      TailRuns(out, c / 64, n - 1, more + 1);
    }
    assert RunAll(r, Tail(c / 64, n - 1)) == mid;
    Continuation(mid, c % 64);
    RunCons(mid, 0x80 + c % 64, []);
    assert [0x80 + c % 64] + [] == [0x80 + c % 64];
    RunConcat(r, Tail(c / 64, n - 1), [0x80 + c % 64]);
  }

  lemma HighValues(c: nat)
    ensures High(c, 1) == c / 64 && High(c, 2) == c / 64 / 64 && High(c, 3) == c / 64 / 64 / 64
  {
    assert High(c, 2) == High(c / 64, 1) && High(c, 3) == High(c / 64, 2) == High(c / 64 / 64, 1);
  }

  lemma LeadFacts(x: nat)
    ensures x < 32 ==> Lookup((0xC0 + x) / 16) == 2 && LeadBits(0xC0 + x, 1) == x
    ensures x < 16 ==> Lookup((0xE0 + x) / 16) == 3 && LeadBits(0xE0 + x, 2) == x
    ensures x < 8 ==> Lookup((0xF0 + x) / 16) == 4 && LeadBits(0xF0 + x, 3) == x
  {}

  lemma LeadByteFacts(c: nat)
    requires IsCodePoint(c)
    ensures LeadByte(c) != 0 && Lookup(LeadByte(c) / 16) == TailLen(c) + 1
    ensures LeadBits(LeadByte(c), TailLen(c)) == High(c, TailLen(c))
  {
    HighValues(c);
    LeadFacts(High(c, TailLen(c)));
  }

  lemma LeadRuns(r: Run, c: nat)
    requires r.n == 0 && IsCodePoint(c)
    ensures Fits(0, LeadByte(c))
    ensures Next(r, LeadByte(c)) == Run(if TailLen(c) == 0 then r.out + [c] else r.out, High(c, TailLen(c)), TailLen(c))
  {
    LeadByteFacts(c);
  }

  lemma EncodeRuns(r: Run, c: nat)
    requires r.n == 0 && IsCodePoint(c)
    ensures Clean(r, Encode(c)) && RunAll(r, Encode(c)) == Run(r.out + [c], c, 0)
  {
    LeadRuns(r, c);
    if TailLen(c) > 0 {
      TailRuns(r.out, c, TailLen(c), 0);
    }
    RunCons(r, LeadByte(c), Tail(c, TailLen(c)));
  }

  lemma {:induction false} EncodeAllRuns(r: Run, cps: seq<nat>)
    requires r.n == 0 && IsText(cps)
    ensures Clean(r, EncodeAll(cps))
    ensures RunAll(r, EncodeAll(cps)).out == r.out + cps && RunAll(r, EncodeAll(cps)).n == 0
    decreases |cps|
  {
    if cps != [] {
      EncodeRuns(r, cps[0]);
      var s := Run(r.out + [cps[0]], cps[0], 0);
      EncodeAllRuns(s, cps[1..]);
      RunConcat(r, Encode(cps[0]), EncodeAll(cps[1..]));
      assert r.out + [cps[0]] + cps[1..] == r.out + cps;
    }
  }

  function Flatten(pieces: seq<seq<Byte>>): seq<Byte> {
    if pieces == [] then [] else pieces[0] + Flatten(pieces[1..])
  }

  // Decode the pieces one after the other, threading the partial state; terminators are dropped.
  function DecodePieces(pieces: seq<seq<Byte>>, start: Partial): (seq<nat>, Partial) {
    if pieces == [] then ([], start)
    else
      var (cps, p) := Decode(pieces[0], start);
      var (rest, q) := DecodePieces(pieces[1..], p);
      (cps[..|cps| - 1] + rest, q)
  }

  lemma JoinPoints(x: seq<nat>, y: seq<nat>, z: seq<nat>)
    requires x != [] && z != []
    ensures x[..|x| - 1] + (y + z[..|z| - 1]) == (x[..|x| - 1] + y) + z[..|z| - 1]
  {}

  lemma {:induction false} DecodeOneMore(pieces: seq<seq<Byte>>, piece: seq<Byte>, start: Partial)
    ensures var r := DecodePieces(pieces, start);
            var d := Decode(piece, r.1);
            DecodePieces(pieces + [piece], start) == (r.0 + d.0[..|d.0| - 1], d.1)
    decreases |pieces|
  {
    if pieces == [] {
      assert [piece][1..] == [] && pieces + [piece] == [piece];
      var d := Decode(piece, start);
      assert DecodePieces([], d.1) == ([], d.1);
      assert d.0[..|d.0| - 1] + [] == [] + d.0[..|d.0| - 1];
    } else {
      var first := Decode(pieces[0], start);
      var rest := DecodePieces(pieces[1..], first.1);
      DecodeOneMore(pieces[1..], piece, first.1);
      assert (pieces + [piece])[0] == pieces[0] && (pieces + [piece])[1..] == pieces[1..] + [piece];
      JoinPoints(first.0, rest.0, Decode(piece, rest.1).0);
    }
  }

  lemma {:induction false} PiecesRun(pieces: seq<seq<Byte>>, p: Partial)
    requires p.nRemain >= 0 && Clean(Run([], p.value, p.nRemain), Flatten(pieces))
    ensures var r := RunAll(Run([], p.value, p.nRemain), Flatten(pieces));
            DecodePieces(pieces, p) == (r.out, Partial(r.value, r.n))
    decreases |pieces|
  {
    if pieces != [] {
      var start := Run([], p.value, p.nRemain);
      RunConcat(start, pieces[0], Flatten(pieces[1..]));
      CleanMeansReading(Reading([], p.value, p.nRemain, true), pieces[0]);
      var mid := RunAll(start, pieces[0]);
      var clear := Run([], mid.value, mid.n);
      assert mid == clear.(out := mid.out + clear.out);
      CleanOutIrrelevant(mid, clear, Flatten(pieces[1..]));
      RunOut(mid.out, clear, Flatten(pieces[1..]));
      PiecesRun(pieces[1..], Partial(mid.value, mid.n));
      assert (mid.out + [0])[..|mid.out|] == mid.out;
    }
  }

  lemma {:induction false} CleanOutIrrelevant(r: Run, s: Run, src: seq<Byte>)
    requires r.value == s.value && r.n == s.n && Clean(r, src)
    ensures Clean(s, src)
    decreases |src|
  {
    if src != [] { CleanOutIrrelevant(Next(r, src[0]), Next(s, src[0]), src[1..]); }
  }

  // However the encoded text is cut, decoding the pieces gives the text and leaves nothing pending.
  lemma CutsDoNotMatter(cps: seq<nat>, pieces: seq<seq<Byte>>, start: Partial)
    requires IsText(cps) && start.nRemain == 0 && Flatten(pieces) == EncodeAll(cps)
    ensures DecodePieces(pieces, start).0 == cps
    ensures DecodePieces(pieces, start).1.nRemain == 0
  {
    EncodeAllRuns(Run([], start.value, 0), cps);
    PiecesRun(pieces, start);
  }

  // ---------- texts that stop in the middle of a character ----------

  lemma {:induction false} TailBytes(c: nat, n: nat)
    ensures |Tail(c, n)| == n && forall i :: 0 <= i < n ==> Tail(c, n)[i] / 64 == 2
    decreases n
  {
    if n > 0 { TailBytes(c / 64, n - 1); }
  }

  // Fewer continuation bytes than are due complete nothing.
  lemma {:induction false} TooFew(r: Run, src: seq<Byte>)
    requires |src| < r.n && forall i :: 0 <= i < |src| ==> src[i] / 64 == 2
    ensures Clean(r, src) && RunAll(r, src).out == r.out && RunAll(r, src).n == r.n - |src|
    decreases |src|
  {
    if src != [] { TooFew(Next(r, src[0]), src[1..]); }
  }

  lemma PartOfCharacter(r: Run, c: nat, src: seq<Byte>)
    requires r.n == 0 && IsCodePoint(c) && 0 < |src| < |Encode(c)| && src == Encode(c)[..|src|]
    ensures Clean(r, src) && RunAll(r, src).out == r.out && RunAll(r, src).n > 0
  {
    TailBytes(c, TailLen(c));
    LeadRuns(r, c);
    assert src[0] == LeadByte(c);
    forall i | 0 <= i < |src[1..]| ensures src[1..][i] / 64 == 2 {
      assert src[1..][i] == Encode(c)[i + 1] == Tail(c, TailLen(c))[i];
    }
    TooFew(Next(r, src[0]), src[1..]);
  }

  // What the first bytes of a text decode to: its first k characters, and nothing is pending exactly if
  // the bytes end with the last of them.
  predicate DecodesPrefix(r: Run, cps: seq<nat>, bytes: seq<Byte>, k: nat)
    requires IsText(cps)
  {
    && k <= |cps| && Clean(r, bytes) && RunAll(r, bytes).out == r.out + cps[..k]
    && (RunAll(r, bytes).n == 0 <==> bytes == EncodeAll(cps[..k]))
  }

  lemma OneMoreCharacter(r: Run, cps: seq<nat>, rest: seq<Byte>, k: nat)
    requires r.n == 0 && IsText(cps) && cps != []
    requires DecodesPrefix(Run(r.out + [cps[0]], cps[0], 0), cps[1..], rest, k)
    ensures DecodesPrefix(r, cps, Encode(cps[0]) + rest, k + 1)
  {
    EncodeRuns(r, cps[0]);
    RunConcat(r, Encode(cps[0]), rest);
    assert r.out + [cps[0]] + cps[1..][..k] == r.out + cps[..k + 1];
    assert cps[..k + 1][1..] == cps[1..][..k];
    SamePrefix(Encode(cps[0]), rest, EncodeAll(cps[1..][..k]));
  }

  lemma FirstCharacter(cps: seq<nat>, bytes: seq<Byte>)
    requires IsText(cps) && cps != [] && bytes <= EncodeAll(cps) && |bytes| < |Encode(cps[0])|
    ensures bytes == Encode(cps[0])[..|bytes|]
  {
    assert bytes == EncodeAll(cps)[..|bytes|];
  }

  lemma {:induction false} PrefixRuns(r: Run, cps: seq<nat>, bytes: seq<Byte>) returns (k: nat)
    requires r.n == 0 && IsText(cps) && bytes <= EncodeAll(cps)
    ensures DecodesPrefix(r, cps, bytes, k)
    decreases |cps|
  {
    if cps != [] && |bytes| >= |Encode(cps[0])| {
      var rest := bytes[|Encode(cps[0])|..];
      PrefixRest(Encode(cps[0]), EncodeAll(cps[1..]), bytes);
      k := PrefixRuns(Run(r.out + [cps[0]], cps[0], 0), cps[1..], rest);
      OneMoreCharacter(r, cps, rest, k);
      k := k + 1;
    } else {
      k := 0;
      assert r.out + cps[..0] == r.out;
      if bytes != [] {
        FirstCharacter(cps, bytes);
        PartOfCharacter(r, cps[0], bytes);
      }
    }
  }

  lemma PrefixRest(x: seq<Byte>, y: seq<Byte>, z: seq<Byte>)
    requires z <= x + y && |z| >= |x|
    ensures z == x + z[|x|..] && z[|x|..] <= y
  {
    assert z == (x + y)[..|z|];
  }

  lemma SamePrefix(x: seq<Byte>, y: seq<Byte>, z: seq<Byte>)
    ensures x + y == x + z <==> y == z
  {
    assert (x + y)[|x|..] == y && (x + z)[|x|..] == z;
  }

  // Pieces that begin the encoding of a text, up to any byte: what has been decoded is all there is exactly
  // if nothing is pending.
  lemma NothingPending(cps: seq<nat>, pieces: seq<seq<Byte>>, start: Partial)
    requires IsText(cps) && start.nRemain == 0 && Flatten(pieces) <= EncodeAll(cps)
    ensures var r := DecodePieces(pieces, start);
      r.0 <= cps && (r.1.nRemain == 0 <==> Flatten(pieces) == EncodeAll(r.0))
  {
    var k := PrefixRuns(Run([], start.value, 0), cps, Flatten(pieces));
    PiecesRun(pieces, start);
    assert [] + cps[..k] == cps[..k];
  }
}
