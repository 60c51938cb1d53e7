/**
 Character classes: `llama_grammar_match_char` and `llama_grammar_match_partial_char`.

 The second one judges a class by a code point of which only the first bytes are known.  It looks at
 the interval of code points that the pending bytes can still become; that interval is shown to be
 exact with respect to the encoding.
 */
module CharClass {
  import opened GrammarRules
  import opened Utf8

  predicate ClassAt(r: Rule, i: nat) {
    i < |r| && IsClassStart(r[i])
  }

  predicate SomeRange(ranges: seq<Range>, c: nat) {
    exists i :: 0 <= i < |ranges| && InRange(ranges[i], c)
  }

  // Index of the item after the one at index i.
  function NextItem(r: Rule, i: nat): (k: nat)
    requires i < |r|
    ensures i < k <= |r|
  {
    if i + 1 < |r| && r[i + 1].typ.CharRngUpper? then i + 2 else i + 1
  }

  predicate HasNextItem(r: Rule, i: nat)
    requires i < |r|
  {
    NextItem(r, i) < |r| && r[NextItem(r, i)].typ.CharAlt?
  }

  function ItemAt(r: Rule, i: nat): Range
    requires i < |r|
  {
    if i + 1 < |r| && r[i + 1].typ.CharRngUpper? then Range(r[i].value, r[i + 1].value)
    else if r[i].typ.CharAny? then AnyChar
    else Range(r[i].value, r[i].value)
  }

  lemma ClassUnfold(r: Rule, i: nat)
    requires i < |r|
    ensures ClassRanges(r[i..])
         == [ItemAt(r, i)] + (if HasNextItem(r, i) then ClassRanges(r[NextItem(r, i)..]) else [])
    ensures i + ClassLen(r[i..])
         == if HasNextItem(r, i) then NextItem(r, i) + ClassLen(r[NextItem(r, i)..]) else NextItem(r, i)
  {
    assert r[i..][ItemLen(r[i..])..] == r[NextItem(r, i)..];
  }

  // Some item from index i on holds c.
  predicate RestHolds(r: Rule, i: nat, c: nat)
    requires i < |r|
    decreases |r| - i
  {
    InRange(ItemAt(r, i), c) || (HasNextItem(r, i) && RestHolds(r, NextItem(r, i), c))
  }

  lemma SomeRangeCons(x: Range, rest: seq<Range>, c: nat)
    ensures SomeRange([x] + rest, c) <==> InRange(x, c) || SomeRange(rest, c)
  {
    assert ([x] + rest)[0] == x;
    forall i | 0 <= i < |rest| && InRange(rest[i], c) ensures SomeRange([x] + rest, c) {
      assert ([x] + rest)[i + 1] == rest[i];
    }
  }

  lemma {:induction false} RestHoldsMeans(r: Rule, i: nat, c: nat)
    requires i < |r|
    ensures RestHolds(r, i, c) <==> SomeRange(ClassRanges(r[i..]), c)
    decreases |r| - i
  {
    ClassUnfold(r, i);
    if HasNextItem(r, i) {
      RestHoldsMeans(r, NextItem(r, i), c);
      SomeRangeCons(ItemAt(r, i), ClassRanges(r[NextItem(r, i)..]), c);
    } else {
      SomeRangeCons(ItemAt(r, i), [], c);
    }
  }

  // Index after the class that the item at index i belongs to.
  function RestEnd(r: Rule, i: nat): nat
    requires i < |r|
    decreases |r| - i
  {
    if HasNextItem(r, i) then RestEnd(r, NextItem(r, i)) else NextItem(r, i)
  }

  lemma {:induction false} RestEndMeans(r: Rule, i: nat)
    requires i < |r|
    ensures RestEnd(r, i) == i + ClassLen(r[i..])
    decreases |r| - i
  {
    ClassUnfold(r, i);
    if HasNextItem(r, i) { RestEndMeans(r, NextItem(r, i)); }
  }

  // The scan over the items of a class.
  method FindItem(r: Rule, start: nat, chr: nat) returns (found: bool, pos: nat)
    requires start < |r|
    ensures found == RestHolds(r, start, chr)
    ensures pos == RestEnd(r, start)
  {
    found := false;
    pos := start;
    while true
      invariant start <= pos < |r|
      invariant RestEnd(r, start) == RestEnd(r, pos)
      invariant RestHolds(r, start, chr) == (found || RestHolds(r, pos, chr))
      decreases |r| - pos
    {
      if pos + 1 < |r| && r[pos + 1].typ.CharRngUpper? {
        found := found || (r[pos].value <= chr <= r[pos + 1].value);
        pos := pos + 2;
      } else if r[pos].typ.CharAny? {
        found := true;
        pos := pos + 1;
      } else {
        found := found || r[pos].value == chr;
        pos := pos + 1;
      }
      if pos >= |r| || !r[pos].typ.CharAlt? { break; }
    }
  }

  // llama_grammar_match_char: whether the class at index start accepts chr, and where it ends.
  method MatchChar(r: Rule, start: nat, chr: nat) returns (ok: bool, pos: nat)
    requires ClassAt(r, start)
    ensures ok == Accepts(ClassSym(r[start..]), chr)
    ensures pos == start + ClassLen(r[start..])
  {
    var isPositive := !r[start].typ.CharNot?;
    var found;
    found, pos := FindItem(r, start, chr);
    RestHoldsMeans(r, start, chr);
    RestEndMeans(r, start);
    ok := found == isPositive;
  }

  // ---------- pending bytes ----------

  // A state the decoder can be left in; all its arithmetic fits in 32 bits.
  predicate IsPartial(p: Partial) {
    -1 <= p.nRemain <= 3
  }

  // The pending bytes can still become a code point in shortest form.
  predicate Live(p: Partial) {
    p.nRemain >= 0 && !(p.nRemain == 1 && p.value < 2)
  }

  // 1 << 6n
  function Bit(n: nat): nat
    requires n <= 3
  {
    if n == 0 then 1 else if n == 1 then 64 else if n == 2 then 4096 else 262144
  }

  // Smallest and largest code point that the pending bytes are taken to become.
  function Low(p: Partial): nat
    requires 0 <= p.nRemain <= 3
  {
    var low := p.value * Bit(p.nRemain);
    if low == 0 && p.nRemain == 2 then 0x800 else if low == 0 && p.nRemain == 3 then 0x10000 else low
  }

  function Top(p: Partial): nat
    requires 0 <= p.nRemain <= 3
  {
    p.value * Bit(p.nRemain) + Bit(p.nRemain) - 1
  }

  predicate InInterval(p: Partial, c: nat)
    requires 0 <= p.nRemain <= 3
  {
    Low(p) <= c <= Top(p)
  }

  // Some code point of the interval lies in the range.
  predicate Overlaps(r: Range, low: nat, top: nat) {
    r.AnyChar? || (r.lo <= top && low <= r.hi)
  }

  predicate SomeOverlap(ranges: seq<Range>, low: nat, top: nat) {
    exists i :: 0 <= i < |ranges| && Overlaps(ranges[i], low, top)
  }

  lemma SomeOverlapCons(x: Range, rest: seq<Range>, low: nat, top: nat)
    ensures SomeOverlap([x] + rest, low, top) <==> Overlaps(x, low, top) || SomeOverlap(rest, low, top)
  {
    assert ([x] + rest)[0] == x;
    forall i | 0 <= i < |rest| && Overlaps(rest[i], low, top) ensures SomeOverlap([x] + rest, low, top) {
      assert ([x] + rest)[i + 1] == rest[i];
    }
  }

  // Some item from index i on overlaps the interval.
  predicate RestOverlaps(r: Rule, i: nat, low: nat, top: nat)
    requires i < |r|
    decreases |r| - i
  {
    Overlaps(ItemAt(r, i), low, top) || (HasNextItem(r, i) && RestOverlaps(r, NextItem(r, i), low, top))
  }

  lemma {:induction false} RestOverlapsMeans(r: Rule, i: nat, low: nat, top: nat)
    requires i < |r|
    ensures RestOverlaps(r, i, low, top) <==> SomeOverlap(ClassRanges(r[i..]), low, top)
    decreases |r| - i
  {
    ClassUnfold(r, i);
    if HasNextItem(r, i) {
      RestOverlapsMeans(r, NextItem(r, i), low, top);
      SomeOverlapCons(ItemAt(r, i), ClassRanges(r[NextItem(r, i)..]), low, top);
    } else {
      SomeOverlapCons(ItemAt(r, i), [], low, top);
    }
  }

  // The verdict on a class for pending bytes.
  predicate PartialOk(s: Sym, p: Partial)
    requires s.Class? && IsPartial(p)
  {
    Live(p) && (SomeOverlap(s.ranges, Low(p), Top(p)) <==> s.positive)
  }

  // The scan for an item that overlaps the interval; a wildcard always does.
  method FindOverlap(r: Rule, start: nat, low: nat, top: nat) returns (found: bool)
    requires start < |r|
    ensures found == RestOverlaps(r, start, low, top)
  {
    var pos := start;
    while true
      invariant start <= pos < |r|
      invariant RestOverlaps(r, start, low, top) == RestOverlaps(r, pos, low, top)
      decreases |r| - pos
    {
      if pos + 1 < |r| && r[pos + 1].typ.CharRngUpper? {
        if r[pos].value <= top && low <= r[pos + 1].value {
          return true;
        }
        pos := pos + 2;
      } else if r[pos].typ.CharAny? {
        return true;
      } else {
        if low <= r[pos].value <= top {
          return true;
        }
        pos := pos + 1;
      }
      if pos >= |r| || !r[pos].typ.CharAlt? { break; }
    }
    found := false;
  }

  // llama_grammar_match_partial_char
  method MatchPartialChar(r: Rule, start: nat, partial: Partial) returns (ok: bool)
    requires ClassAt(r, start) && IsPartial(partial)
    ensures ok == PartialOk(ClassSym(r[start..]), partial)
  {
    var isPositive := !r[start].typ.CharNot?;
    var value: nat, n: int := partial.value, partial.nRemain;
    if n < 0 || (n == 1 && value < 2) {
      return false;
    }
    var low := value * Bit(n);
    var top := low + (Bit(n) - 1);
    if low == 0 {
      if n == 2 {
        low := 0x800;
      } else if n == 3 {
        low := 0x10000;
      }
    }
    var found := FindOverlap(r, start, low, top);
    RestOverlapsMeans(r, start, low, top);
    ok := found == isPositive;
  }

  // ---------- exactness ----------

  // The encoding of c passes through the pending state p.
  ghost predicate PassesThrough(c: nat, p: Partial)
    requires c < 0x110000
  {
    exists j :: 0 < j < |Encode(c)| && PrefixState(c, j) == p
  }

  // The decoder's state after the first j bytes of a code point.
  function PrefixState(c: nat, j: nat): Partial
    requires c < 0x110000 && j <= |Encode(c)|
  {
    Decode(Encode(c)[..j], NoPartial).1
  }

  lemma {:induction false} HighHigh(c: nat, k: nat, n: nat)
    ensures High(High(c, k), n) == High(c, k + n)
    decreases k
  {
    if k > 0 { HighHigh(c / 64, k - 1, n); }
  }

  lemma {:induction false} TailPrefix(c: nat, n: nat, k: nat)
    requires k <= n
    ensures Tail(c, n)[..n - k] == Tail(High(c, k), n - k)
    decreases n
  {
    if k > 0 {
      TailPrefix(c / 64, n - 1, k - 1);
      assert Tail(c, n)[..n - k] == Tail(c / 64, n - 1)[..n - k];
    }
  }

  // After all but m of its bytes, the decoder holds the high bits of c.
  lemma PrefixStateIs(c: nat, m: nat)
    requires IsCodePoint(c) && 0 < m <= TailLen(c)
    ensures PrefixState(c, 1 + TailLen(c) - m) == Partial(High(c, m), m)
  {
    var n := TailLen(c);
    var start := Run([], 0, 0);
    var lead := LeadByte(c);
    var bytes := Tail(High(c, m), n - m);
    TailPrefix(c, n, m);
    assert Encode(c)[..1 + n - m] == [lead] + bytes;
    LeadRuns(start, c);
    HighHigh(c, m, n - m);
    if n > m {
      TailRuns([], High(c, m), n - m, m);
    }
    RunCons(start, lead, bytes);
    CleanMeansReading(Start(NoPartial), [lead] + bytes);
  }

  // The interval holds exactly the code points whose encoding continues the pending bytes.
  lemma IntervalIsExact(p: Partial, c: nat)
    requires 1 <= p.nRemain <= 3 && IsCodePoint(c)
    ensures PassesThrough(c, p) <==> Live(p) && InInterval(p, c)
  {
    HighValues(c);
    var n := TailLen(c);
    if PassesThrough(c, p) {
      var j :| 0 < j < |Encode(c)| && PrefixState(c, j) == p;
      PrefixStateIs(c, 1 + n - j);
    }
    if Live(p) && InInterval(p, c) {
      IntervalHigh(p, c);
      PrefixStateIs(c, p.nRemain);
      assert PrefixState(c, 1 + n - p.nRemain) == p;
    }
  }

  lemma DivChain(c: nat, v: nat)
    ensures v * 64 <= c < v * 64 + 64 ==> c / 64 == v
    ensures v * 4096 <= c < v * 4096 + 4096 ==> c / 64 / 64 == v
    ensures v * 262144 <= c < v * 262144 + 262144 ==> c / 64 / 64 / 64 == v
  {
    if v * 4096 <= c < v * 4096 + 4096 {
      assert v * 64 <= c / 64 < v * 64 + 64;
    }
    if v * 262144 <= c < v * 262144 + 262144 {
      assert v * 4096 <= c / 64 < v * 4096 + 4096;
      assert v * 64 <= c / 64 / 64 < v * 64 + 64;
    }
  }

  lemma IntervalHigh(p: Partial, c: nat)
    requires 1 <= p.nRemain <= 3 && IsCodePoint(c) && Live(p) && InInterval(p, c)
    ensures p.nRemain <= TailLen(c) && High(c, p.nRemain) == p.value
  {
    HighValues(c);
    DivChain(c, p.value);
  }

  // Every range of the class is ordered.
  predicate Ordered(s: Sym) {
    s.Class? ==> forall i :: 0 <= i < |s.ranges| && s.ranges[i].Range? ==> s.ranges[i].lo <= s.ranges[i].hi
  }

  lemma OverlapMeans(r: Range, p: Partial)
    requires 1 <= p.nRemain <= 3 && (r.Range? ==> r.lo <= r.hi)
    ensures Overlaps(r, Low(p), Top(p)) <==> exists c :: InInterval(p, c) && InRange(r, c)
  {
    if Overlaps(r, Low(p), Top(p)) {
      var c := if r.Range? && r.lo > Low(p) then r.lo else Low(p);
      assert InInterval(p, c) && InRange(r, c);
    }
  }

  // For a positive class the verdict is exact ...
  lemma PositiveExact(s: Sym, p: Partial)
    requires s.Class? && s.positive && Ordered(s) && 1 <= p.nRemain <= 3
    ensures PartialOk(s, p) <==> Live(p) && exists c :: InInterval(p, c) && Accepts(s, c)
  {
    if SomeOverlap(s.ranges, Low(p), Top(p)) {
      var i :| 0 <= i < |s.ranges| && Overlaps(s.ranges[i], Low(p), Top(p));
      OverlapMeans(s.ranges[i], p);
      var c :| InInterval(p, c) && InRange(s.ranges[i], c);
      assert Accepts(s, c);
    }
    if c :| InInterval(p, c) && Accepts(s, c) {
      var i :| 0 <= i < |s.ranges| && InRange(s.ranges[i], c);
      OverlapMeans(s.ranges[i], p);
    }
  }

  // ... and for a negated one it holds only if nothing in the interval is excluded.
  lemma NegatedNeedsAll(s: Sym, p: Partial)
    requires s.Class? && !s.positive && Ordered(s) && 1 <= p.nRemain <= 3
    ensures PartialOk(s, p) <==> Live(p) && forall c :: InInterval(p, c) ==> Accepts(s, c)
  {
    if SomeOverlap(s.ranges, Low(p), Top(p)) {
      var i :| 0 <= i < |s.ranges| && Overlaps(s.ranges[i], Low(p), Top(p));
      OverlapMeans(s.ranges[i], p);
      var c :| InInterval(p, c) && InRange(s.ranges[i], c);
      assert !Accepts(s, c);
    }
    if c :| InInterval(p, c) && !Accepts(s, c) {
      var i :| 0 <= i < |s.ranges| && InRange(s.ranges[i], c);
      OverlapMeans(s.ranges[i], p);
    }
  }

  // The promise about pending bytes: some code point that completes them is accepted.
  ghost predicate SomeAccepted(s: Sym, p: Partial)
    requires 1 <= p.nRemain <= 3
  {
    Live(p) && exists c :: InInterval(p, c) && Accepts(s, c)
  }

  // The class treats all code points that complete the pending bytes alike.
  ghost predicate TreatsAlike(s: Sym, p: Partial)
    requires 1 <= p.nRemain <= 3
  {
    (forall c :: InInterval(p, c) ==> Accepts(s, c)) || (forall c :: InInterval(p, c) ==> !Accepts(s, c))
  }

  // The verdict on a negated class keeps the promise exactly if the class excludes all code points that
  // complete the pending bytes or none of them.
  lemma NegatedExactIffAlike(s: Sym, p: Partial)
    requires s.Class? && !s.positive && Ordered(s) && 1 <= p.nRemain <= 3
    ensures (PartialOk(s, p) <==> SomeAccepted(s, p)) <==> (Live(p) ==> TreatsAlike(s, p))
  {
    NegatedNeedsAll(s, p);
    if Live(p) {
      assert InInterval(p, Low(p));
    }
  }

  // So a negated class turns pending bytes away although they could still become an accepted code
  // point: [^é] after the first byte of è.
  lemma NegatedRejectsTooMuch()
    ensures var s, p := Class(false, [Range(0xE9, 0xE9)]), Partial(3, 1);
            !PartialOk(s, p) && PassesThrough(0xE8, p) && Accepts(s, 0xE8)
  {
    var s, p := Class(false, [Range(0xE9, 0xE9)]), Partial(3, 1);
    IntervalIsExact(p, 0xE8);
    assert Overlaps(s.ranges[0], Low(p), Top(p));
  }
}
