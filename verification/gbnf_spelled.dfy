/**
 Nothing else is read: whatever the reader accepts is a spelled grammar.  Together with its converse this says
 what the texts of grammars are, and what each of them means.
 */
module GbnfSpelled {
  import opened Gbnf
  import opened Decimals
  import opened GbnfSymbols
  import opened GbnfCompile
  import opened GbnfText
  import opened GbnfSyntax
  import opened GbnfReads

  // ---------- slices ----------

  lemma {:induction false} Join(t: string, a: nat, b: nat, c: nat)
    requires a <= b <= c <= |t|
    ensures t[a..b] + t[b..c] == t[a..c]
  {}

  lemma {:induction false} OneAt(t: string, a: nat, c: char)
    requires a < |t| && At(t, a) == c
    ensures t[a..a + 1] == [c]
  {}

  // A character and a slice.
  lemma {:induction false} JoinChar(t: string, a: nat, b: nat, c: char)
    requires a < b <= |t| && At(t, a) == c
    ensures [c] + t[a + 1..b] == t[a..b]
  {}

  // A slice, a character and a slice.
  lemma {:induction false} JoinAround(t: string, a: nat, b: nat, c: char, d: nat)
    requires a <= b < d <= |t| && At(t, b) == c
    ensures t[a..b] + ([c] + t[b + 1..d]) == t[a..d]
  {}

  lemma {:induction false} FirstOfSlice(t: string, a: nat, b: nat)
    requires a <= b <= |t|
    ensures First(t[a..b], At(t, b)) == At(t, a)
  {}

  // ---------- white space ----------

  // What parse_space skips is a gap, and what SkipLine leaves of a comment goes on as one.
  lemma {:induction false} SpaceIsGap(t: string, pos: nat, newlines: bool, comment: bool, end: nat)
    requires pos <= |t| && SkipSpace(t, if comment then SkipLine(t, pos) else pos, newlines) == end
    ensures pos <= end <= |t| && GapUpTo(t[pos..end], newlines, comment, At(t, end))
    decreases |t| - pos
  {
    if comment && At(t, pos) != NUL && !IsLineEnd(At(t, pos)) {
      SpaceIsGap(t, pos + 1, newlines, true, end);
      assert t[pos..end][1..] == t[pos + 1..end];
    } else if IsBlank(At(t, pos), newlines) {
      SpaceIsGap(t, pos + 1, newlines, false, end);
      assert t[pos..end][1..] == t[pos + 1..end];
    } else if At(t, pos) == '#' {
      assert SkipLine(t, pos) == SkipLine(t, pos + 1);
      SpaceIsGap(t, pos + 1, newlines, true, end);
      assert t[pos..end][1..] == t[pos + 1..end];
    }
  }

  // The white space from pos on.
  lemma {:induction false} GapAt(t: string, pos: nat, newlines: bool) returns (end: nat)
    requires pos <= |t|
    ensures end == SkipSpace(t, pos, newlines) && pos <= end <= |t| && GapOk(t[pos..end], newlines, At(t, end))
  {
    end := SkipSpace(t, pos, newlines);
    SpaceIsGap(t, pos, newlines, false, end);
  }

  // ---------- characters ----------

  lemma {:induction false} HexIsDigit(c: char) returns (d: HexChar)
    requires HexDigit(c).Some?
    ensures d.value < 16 && HexDigit(c) == Some(d.value) && HexText([d]) == [c]
  {
    d := HexChar(HexDigit(c).value, 'A' <= c <= 'F');
    HexTable(c, d.value);
    assert [d][1..] == [];
  }

  lemma HexTable(c: char, value: nat)
    requires HexDigit(c) == Some(value) && value < 16
    ensures (if 'A' <= c <= 'F' then UPPER[value] else LOWER[value]) == c
  {}

  lemma {:induction false} HexIsSpelled(t: string, pos: nat, n: nat, value: nat) returns (digits: seq<HexChar>)
    requires pos <= |t| && ReadHex(t, pos, n, value).Good?
    ensures |digits| == n && pos + n <= |t| && HexText(digits) == t[pos..pos + n]
    ensures forall i :: 0 <= i < |digits| ==> digits[i].value < 16
    ensures ReadHex(t, pos, n, value).v == HexFrom(value, digits)
    decreases n
  {
    if n == 0 {
      digits := [];
    } else {
      var d := HexIsDigit(At(t, pos));
      var rest := HexIsSpelled(t, pos + 1, n - 1, value * 16 + d.value);
      digits := [d] + rest;
      assert digits[1..] == rest;
      JoinChar(t, pos, pos + n, At(t, pos));
      assert HexText([d])[0] == At(t, pos);
    }
  }

  // The bytes that ReadTail takes: all of them, unless a NUL follows.
  lemma {:induction false} TailIsSpelled(t: string, pos: nat, n: nat, value: nat, p: nat)
    requires pos <= |t| && p == ReadTail(t, pos, n, value).pos && At(t, p) != NUL
    ensures p == pos + n <= |t| && NUL !in t[pos..p] && ReadTail(t, pos, n, value).v == MoreBits(value, t[pos..p])
    decreases n
  {
    if n > 0 && At(t, pos) != NUL {
      TailIsSpelled(t, pos + 1, n - 1, value * 64 + t[pos] as nat % 64, p);
      JoinChar(t, pos, p, At(t, pos));
      assert t[pos..p][1..] == t[pos + 1..p];
    }
  }

  lemma {:induction false} RawIsSpelled(t: string, pos: nat, stop: char, p: nat) returns (c: SChar)
    requires pos < |t| && At(t, pos) != NUL && At(t, pos) != '\\' && At(t, pos) != stop && At(t, p) != NUL
    requires ReadUtf8(t, pos).pos == p
    ensures pos < p <= |t| && CharOk(c, stop) && CharText(c) == t[pos..p] && CharMeaning(c) == ReadUtf8(t, pos).v
  {
    var first := t[pos] as nat % 256;
    RawTable(first);
    TailIsSpelled(t, pos + 1, Utf8Len(first) - 1, LeadValue(first), p);
    c := Raw(t[pos..p]);
    JoinChar(t, pos, p, At(t, pos));
    assert t[pos..p][1..] == t[pos + 1..p];
  }

  lemma {:induction false} HexCharIsSpelled(t: string, pos: nat, n: nat, stop: char) returns (c: SChar)
    requires pos + 2 <= |t| && At(t, pos) == '\\' && (n == 2 || n == 4 || n == 8) && At(t, pos + 1) == HexMark(n)
    requires ReadHex(t, pos + 2, n, 0).Good?
    ensures pos + 2 + n <= |t| && CharOk(c, stop) && CharText(c) == t[pos..pos + 2 + n]
    ensures CharMeaning(c) == ReadHex(t, pos + 2, n, 0).v
  {
    var digits := HexIsSpelled(t, pos + 2, n, 0);
    HexFromIsValue(digits);
    c := Hex(digits);
    assert t[pos..pos + 2 + n] == [t[pos], t[pos + 1]] + t[pos + 2..pos + 2 + n];
  }

  // A character read, other than at the end of the text, is a spelling of its code point.
  lemma {:induction false} CharIsSpelled(t: string, pos: nat, stop: char, v: nat, p: nat) returns (c: SChar)
    requires pos <= |t| && ReadChar(t, pos) == Good(v, p) && At(t, p) != NUL && At(t, pos) != stop
    ensures pos < p <= |t| && CharOk(c, stop) && CharText(c) == t[pos..p] && CharMeaning(c) == v
  {
    if At(t, pos) == '\\' {
      var e := At(t, pos + 1);
      if e == 'x' {
        c := HexCharIsSpelled(t, pos, 2, stop);
      } else if e == 'u' {
        c := HexCharIsSpelled(t, pos, 4, stop);
      } else if e == 'U' {
        c := HexCharIsSpelled(t, pos, 8, stop);
      } else {
        c := Escaped(e);
        assert t[pos..p] == ['\\', e];
      }
    } else {
      c := RawIsSpelled(t, pos, stop, p);
    }
  }

  lemma {:induction false} LiteralIsSpelled(t: string, pos: nat, q: nat) returns (chars: seq<SChar>)
    requires pos <= |t| && ReadLiteral(t, pos).Good? && q + 1 == ReadLiteral(t, pos).pos
    ensures pos <= q < |t| && At(t, q) == '"' && CharsOk(chars) && CharsText(chars) == t[pos..q]
    ensures CharsMeaning(chars) == ReadLiteral(t, pos).v
    decreases |t| - pos
  {
    if At(t, pos) == '"' {
      chars := [];
    } else {
      var r := ReadChar(t, pos);
      var rest := LiteralIsSpelled(t, r.pos, q);
      var c := CharIsSpelled(t, pos, '"', r.v, r.pos);
      chars := [c] + rest;
      assert chars[1..] == rest;
      Join(t, pos, r.pos, q);
    }
  }

  // ---------- classes ----------

  // after is the rest of the class.
  lemma {:induction false} LastDash(t: string, p: nat, after: string)
    requires Has(t, p, after) && after != "" && after[|after| - 1] == ']' && !(At(t, p) == '-' && At(t, p + 1) != ']')
    ensures First(after, NUL) == '-' ==> |after| > 1 && after[1] == ']'
  {
    AtFirst(t, p, after);
    if after[0] == '-' { HasAt(t, p, after, 1); }
  }

  // What has been read of a class item: a character, or two with a dash between them.
  lemma {:induction false} ClassItemIsRead(t: string, pos: nat)
    requires pos <= |t| && ReadClassItem(t, pos).Good?
    ensures var lo := ReadChar(t, pos);
      && lo.Good? && lo.pos <= |t|
      && (if At(t, lo.pos) == '-' && At(t, lo.pos + 1) != ']' then
            var hi := ReadChar(t, lo.pos + 1);
            lo.pos < |t| && hi.Good? && ReadClassItem(t, pos) == Good(Span(lo.v, hi.v), hi.pos)
          else ReadClassItem(t, pos) == Good(One(lo.v), lo.pos))
  {}

  lemma {:induction false} ClassItemIsSpelled(t: string, pos: nat, item: ClassItem, p: nat, after: string)
    returns (x: SClassItem)
    requires pos <= |t| && ReadClassItem(t, pos) == Good(item, p) && At(t, pos) != ']' && At(t, p) != NUL
    requires Has(t, p, after) && after != "" && after[|after| - 1] == ']'
    ensures pos < p <= |t| && ClassItemOk(x, after) && ClassItemText(x) == t[pos..p] && ClassItemMeaning(x) == item
  {
    ClassItemIsRead(t, pos);
    var lo := ReadChar(t, pos);
    var first := CharIsSpelled(t, pos, ']', lo.v, lo.pos);
    if At(t, lo.pos) == '-' && At(t, lo.pos + 1) != ']' {
      var hi := ReadChar(t, lo.pos + 1);
      var last := CharIsSpelled(t, lo.pos + 1, ']', hi.v, hi.pos);
      x := SSpan(first, last);
      JoinAround(t, pos, lo.pos, '-', p);
    } else {
      x := SOne(first);
      LastDash(t, p, after);
    }
  }

  lemma {:induction false} ClassIsRead(t: string, pos: nat)
    requires pos <= |t| && ReadClass(t, pos).Good? && At(t, pos) != ']'
    ensures var r := ReadClassItem(t, pos);
      && r.Good? && pos < r.pos <= |t| && ReadClass(t, r.pos).Good? && At(t, r.pos) != NUL
      && ReadClass(t, pos) == Good([r.v] + ReadClass(t, r.pos).v, ReadClass(t, r.pos).pos)
  {}

  lemma {:induction false} UpToBracket(t: string, p: nat, q: nat)
    requires p <= q < |t| && At(t, q) == ']'
    ensures Has(t, p, t[p..q] + "]")
  {
    OneAt(t, q, ']');
    Join(t, p, q, q + 1);
    HasFrom(t, p, t[p..q] + "]");
  }

  // The first item of a class, with the others spelled.
  lemma {:induction false} ClassHead(t: string, pos: nat, item: ClassItem, p: nat, rest: seq<SClassItem>, q: nat)
    returns (items: seq<SClassItem>)
    requires pos < p <= q < |t| && ReadClassItem(t, pos) == Good(item, p) && At(t, pos) != ']' && At(t, p) != NUL && At(t, q) == ']'
    requires ClassOk(rest) && ClassText(rest) == t[p..q]
    ensures ClassOk(items) && ClassText(items) == t[pos..q] && ClassMeaning(items) == [item] + ClassMeaning(rest)
  {
    var after := ClassText(rest) + "]";
    UpToBracket(t, p, q);
    var x := ClassItemIsSpelled(t, pos, item, p, after);
    items := [x] + rest;
    assert items[1..] == rest;
    Join(t, pos, p, q);
  }

  lemma {:induction false} ClassIsSpelled(t: string, pos: nat, q: nat) returns (items: seq<SClassItem>)
    requires pos <= |t| && ReadClass(t, pos).Good? && q + 1 == ReadClass(t, pos).pos
    ensures pos <= q < |t| && At(t, q) == ']' && ClassOk(items) && ClassText(items) == t[pos..q]
    ensures ClassMeaning(items) == ReadClass(t, pos).v
    decreases |t| - pos
  {
    if At(t, pos) == ']' {
      items := [];
    } else {
      ClassIsRead(t, pos);
      var r := ReadClassItem(t, pos);
      var rest := ClassIsSpelled(t, r.pos, q);
      items := ClassHead(t, pos, r.v, r.pos, rest, q);
    }
  }

  // ---------- numbers, tokens and names ----------

  lemma {:induction false} DigitsAre(t: string, pos: nat, end: nat)
    requires pos <= |t| && end == DigitsEnd(t, pos)
    ensures pos <= end <= |t| && (forall i :: pos <= i < end ==> IsDigit(t[i])) && !IsDigit(At(t, end))
    decreases |t| - pos
  {
    if pos < |t| && IsDigit(t[pos]) { DigitsAre(t, pos + 1, end); }
  }

  lemma {:induction false} NumberIsSpelled(t: string, pos: nat, v: nat, p: nat)
    requires pos <= |t| && ReadInt(t, pos) == Good(v, p)
    ensures pos < p <= |t| && IsNumber(t[pos..p]) && ValueOf(t[pos..p]) == v && !IsDigit(At(t, p))
  {
    DigitsAre(t, pos, p);
  }

  lemma {:induction false} TokenTextIs(t: string, pos: nat, end: nat)
    requires pos <= |t| && end == TokenEnd(t, pos)
    ensures pos <= end <= |t| && '>' !in t[pos..end] && NUL !in t[pos..end]
    decreases |t| - pos
  {
    if At(t, pos) != NUL && At(t, pos) != '>' {
      TokenTextIs(t, pos + 1, end);
      JoinChar(t, pos, end, At(t, pos));
    }
  }

  lemma {:induction false} TokenIsSpelled(vocab: Vocabulary, t: string, pos: nat, id: nat, p: nat) returns (token: SToken)
    requires pos <= |t| && ReadToken(vocab, t, pos) == Good(id, p)
    ensures pos < p <= |t| && At(t, pos) == '<'
    ensures TokenOk(vocab, token) && TokenText(token) == t[pos..p] && TokenMeaning(vocab, token) == id
  {
    if At(t, pos + 1) == '[' {
      var r := ReadInt(t, pos + 2);
      NumberIsSpelled(t, pos + 2, id, r.pos);
      token := ById(t[pos + 2..r.pos]);
      assert t[pos..p] == "<[" + (t[pos + 2..r.pos] + "]>");
    } else {
      var end := TokenEnd(t, pos + 1);
      TokenTextIs(t, pos + 1, end);
      token := ByText(t[pos + 1..end]);
      assert t[pos..p] == "<" + (t[pos + 1..end] + ">");
    }
  }

  lemma {:induction false} NameStops(t: string, pos: nat)
    requires pos <= |t|
    ensures !IsWordChar(At(t, NameEnd(t, pos)))
    decreases |t| - pos
  {
    if pos < |t| && IsWordChar(t[pos]) { NameStops(t, pos + 1); }
  }

  // ---------- repetition marks ----------

  // The mark is written from pos to end.
  predicate MarkAt(t: string, pos: nat, end: nat, nested: bool, mark: SMark, b: Bounds) {
    && pos < end <= |t| && MarkText(mark) == t[pos..end] && MarkMeaning(mark) == b && MarkOk(mark, nested, At(t, end))
  }

  lemma {:induction false} SignIsSpelled(t: string, pos: nat, nested: bool) returns (mark: SMark, end: nat)
    requires pos < |t| && IsMark(At(t, pos)) && At(t, pos) != '{'
    ensures end == SkipSpace(t, pos + 1, nested) && pos < end <= |t|
    ensures ReadMark(t, pos, nested).Good? && MarkAt(t, pos, end, nested, mark, ReadMark(t, pos, nested).v)
  {
    end := GapAt(t, pos + 1, nested);
    var gap := t[pos + 1..end];
    JoinChar(t, pos, end, At(t, pos));
    mark := if At(t, pos) == '*' then Star(gap) else if At(t, pos) == '+' then Plus(gap) else Maybe(gap);
  }

  // The opening brace, its gap, the lower bound and the gap behind it: a is where the number begins, e where it
  // ends, and u where the rest of the mark begins.
  predicate LowerAt(t: string, pos: nat, nested: bool, a: nat, e: nat, u: nat, min: nat) {
    && pos < a < e <= u <= |t| && At(t, pos) == '{'
    && IsNumber(t[a..e]) && ValueOf(t[a..e]) == min
    && GapOk(t[pos + 1..a], nested, t[a]) && GapOk(t[e..u], nested, At(t, u))
  }

  lemma {:induction false} LowerIsSpelled(t: string, pos: nat, nested: bool) returns (a: nat, e: nat, u: nat)
    requires pos < |t| && At(t, pos) == '{' && ReadMark(t, pos, nested).Good?
    ensures LowerAt(t, pos, nested, a, e, u, ReadMark(t, pos, nested).v.min)
    ensures ReadMark(t, pos, nested) == ReadUpper(t, u, nested, ReadMark(t, pos, nested).v.min)
  {
    a := GapAt(t, pos + 1, nested);
    var r := ReadInt(t, a);
    e := r.pos;
    NumberIsSpelled(t, a, r.v, e);
    u := GapAt(t, e, nested);
  }

  // Up to u, the text of a mark in braces is this and what follows.
  lemma {:induction false} LowerText(t: string, pos: nat, nested: bool, a: nat, e: nat, u: nat, min: nat, end: nat)
    requires LowerAt(t, pos, nested, a, e, u, min) && u <= end <= |t|
    ensures t[pos..end] == "{" + (t[pos + 1..a] + (t[a..e] + (t[e..u] + t[u..end])))
  {
    Join(t, e, u, end);
    Join(t, a, e, end);
    Join(t, pos + 1, a, end);
    JoinChar(t, pos, end, '{');
  }

  lemma {:induction false} ExactIsSpelled(t: string, pos: nat, nested: bool, a: nat, e: nat, u: nat, min: nat)
    returns (mark: SMark, end: nat)
    requires LowerAt(t, pos, nested, a, e, u, min) && At(t, u) == '}'
    ensures ReadUpper(t, u, nested, min) == Good(Bounds(min, Some(min)), end)
    ensures MarkAt(t, pos, end, nested, mark, Bounds(min, Some(min)))
  {
    end := GapAt(t, u + 1, nested);
    mark := Exactly(t[pos + 1..a], t[a..e], t[e..u], t[u + 1..end]);
    LowerText(t, pos, nested, a, e, u, min, end);
    JoinChar(t, u, end, '}');
  }

  lemma {:induction false} OpenText(t: string, u: nat, p: nat, end: nat)
    requires u < p < end <= |t| && At(t, u) == ',' && At(t, p) == '}'
    ensures t[u..end] == "," + (t[u + 1..p] + ("}" + t[p + 1..end]))
  {
    JoinChar(t, p, end, '}');
    Join(t, u + 1, p, end);
    JoinChar(t, u, end, ',');
  }

  lemma {:induction false} OpenIsSpelled(t: string, pos: nat, nested: bool, a: nat, e: nat, u: nat, min: nat, p: nat,
                                         end: nat)
    returns (mark: SMark)
    requires LowerAt(t, pos, nested, a, e, u, min) && u < p < end <= |t| && At(t, u) == ',' && At(t, p) == '}'
    requires GapOk(t[u + 1..p], nested, '}') && GapOk(t[p + 1..end], nested, At(t, end))
    ensures MarkAt(t, pos, end, nested, mark, Bounds(min, None))
  {
    mark := AtLeast(t[pos + 1..a], t[a..e], t[e..u], t[u + 1..p], t[p + 1..end]);
    LowerText(t, pos, nested, a, e, u, min, end);
    OpenText(t, u, p, end);
  }

  lemma {:induction false} OpenLayout(t: string, u: nat, nested: bool, min: nat) returns (p: nat, end: nat)
    requires u < |t| && At(t, u) == ',' && !IsDigit(At(t, SkipSpace(t, u + 1, nested))) && ReadUpper(t, u, nested, min).Good?
    ensures ReadUpper(t, u, nested, min) == Good(Bounds(min, None), end) && u < p < end <= |t| && At(t, p) == '}'
    ensures GapOk(t[u + 1..p], nested, '}') && GapOk(t[p + 1..end], nested, At(t, end))
  {
    p := GapAt(t, u + 1, nested);
    end := GapAt(t, p + 1, nested);
  }

  // The comma, the upper bound from p to e, the closing brace at q, and the gaps between them.
  predicate UpperAt(t: string, u: nat, nested: bool, p: nat, e: nat, q: nat, end: nat, max: nat) {
    && u < p < e <= q < end <= |t| && At(t, u) == ',' && At(t, q) == '}'
    && IsNumber(t[p..e]) && ValueOf(t[p..e]) == max
    && GapOk(t[u + 1..p], nested, t[p]) && GapOk(t[e..q], nested, '}') && GapOk(t[q + 1..end], nested, At(t, end))
  }

  lemma {:induction false} UpperIsSpelled(t: string, u: nat, nested: bool, min: nat)
    returns (p: nat, e: nat, q: nat, end: nat, max: nat)
    requires u < |t| && At(t, u) == ',' && IsDigit(At(t, SkipSpace(t, u + 1, nested))) && ReadUpper(t, u, nested, min).Good?
    ensures ReadUpper(t, u, nested, min) == Good(Bounds(min, Some(max)), end) && UpperAt(t, u, nested, p, e, q, end, max)
  {
    p := GapAt(t, u + 1, nested);
    max := ReadInt(t, p).v;
    e := ReadInt(t, p).pos;
    NumberIsSpelled(t, p, max, e);
    q := GapAt(t, e, nested);
    end := GapAt(t, q + 1, nested);
  }

  lemma {:induction false} UpperText(t: string, u: nat, nested: bool, p: nat, e: nat, q: nat, end: nat, max: nat)
    requires UpperAt(t, u, nested, p, e, q, end, max)
    ensures t[u..end] == "," + (t[u + 1..p] + (t[p..e] + (t[e..q] + ("}" + t[q + 1..end]))))
  {
    JoinChar(t, q, end, '}');
    Join(t, e, q, end);
    Join(t, p, e, end);
    Join(t, u + 1, p, end);
    JoinChar(t, u, end, ',');
  }

  lemma {:induction false} BoundIsSpelled(t: string, pos: nat, nested: bool, a: nat, e: nat, u: nat, min: nat,
                                          p: nat, f: nat, q: nat, end: nat, max: nat) returns (mark: SMark)
    requires LowerAt(t, pos, nested, a, e, u, min) && UpperAt(t, u, nested, p, f, q, end, max)
    ensures MarkAt(t, pos, end, nested, mark, Bounds(min, Some(max)))
  {
    mark := Between(t[pos + 1..a], t[a..e], t[e..u], t[u + 1..p], t[p..f], t[f..q], t[q + 1..end]);
    LowerText(t, pos, nested, a, e, u, min, end);
    UpperText(t, u, nested, p, f, q, end, max);
  }

  lemma {:induction false} MarkIsSpelled(t: string, pos: nat, nested: bool) returns (mark: SMark)
    requires pos < |t| && IsMark(At(t, pos)) && ReadMark(t, pos, nested).Good?
    ensures MarkAt(t, pos, ReadMark(t, pos, nested).pos, nested, mark, ReadMark(t, pos, nested).v)
  {
    var end: nat;
    if At(t, pos) != '{' {
      mark, end := SignIsSpelled(t, pos, nested);
    } else {
      var a, e, u := LowerIsSpelled(t, pos, nested);
      var min := ReadMark(t, pos, nested).v.min;
      if At(t, u) == '}' {
        mark, end := ExactIsSpelled(t, pos, nested, a, e, u, min);
      } else if IsDigit(At(t, SkipSpace(t, u + 1, nested))) {
        var p, f, q, stop, max := UpperIsSpelled(t, u, nested, min);
        mark := BoundIsSpelled(t, pos, nested, a, e, u, min, p, f, q, stop, max);
      } else {
        var p, stop := OpenLayout(t, u, nested, min);
        mark := OpenIsSpelled(t, pos, nested, a, e, u, min, p, stop);
      }
    }
  }

  // ---------- items, sequences, alternates ----------

  predicate ItemAt(vocab: Vocabulary, t: string, pos: nat, end: nat, nested: bool, x: SItem, item: Item) {
    && pos < end <= |t| && ItemText(x) == t[pos..end] && ItemMeaning(vocab, x) == item
    && ItemOk(vocab, x, nested, At(t, end))
  }

  predicate ItemsAt(vocab: Vocabulary, t: string, pos: nat, end: nat, nested: bool, xs: SItems, items: Items) {
    && pos <= end <= |t| && ItemsText(xs) == t[pos..end] && ItemsMeaning(vocab, xs) == items
    && ItemsOk(vocab, xs, nested, At(t, end))
  }

  predicate AltsAt(vocab: Vocabulary, t: string, pos: nat, end: nat, nested: bool, alts: SAlts, meaning: Alts) {
    && pos <= end <= |t| && AltsText(alts) == t[pos..end] && AltsMeaning(vocab, alts) == meaning
    && AltsOk(vocab, alts, nested, At(t, end))
  }

  // The text from pos to end is a spelling of the item, the items, the alternates.
  ghost predicate SpellsItem(vocab: Vocabulary, t: string, pos: nat, end: nat, nested: bool, item: Item) {
    exists x :: ItemAt(vocab, t, pos, end, nested, x, item)
  }

  ghost predicate SpellsItems(vocab: Vocabulary, t: string, pos: nat, end: nat, nested: bool, items: Items) {
    exists xs :: ItemsAt(vocab, t, pos, end, nested, xs, items)
  }

  ghost predicate SpellsAlts(vocab: Vocabulary, t: string, pos: nat, end: nat, nested: bool, alts: Alts) {
    exists x :: AltsAt(vocab, t, pos, end, nested, x, alts)
  }

  lemma {:induction false} LiteralIsRead(vocab: Vocabulary, t: string, pos: nat, nested: bool)
    requires pos < |t| && At(t, pos) == '"' && ReadAtom(vocab, t, pos, nested).Good?
    ensures var r := ReadLiteral(t, pos + 1);
      r.Good? && r.pos <= |t| && ReadAtom(vocab, t, pos, nested) == Good(Literal(r.v), SkipSpace(t, r.pos, nested))
  {}

  lemma {:induction false} QuoteText(t: string, pos: nat, q: nat, end: nat)
    requires pos < q < end <= |t| && At(t, pos) == '"' && At(t, q) == '"'
    ensures t[pos..end] == "\"" + (t[pos + 1..q] + ("\"" + t[q + 1..end]))
  {
    JoinAround(t, pos + 1, q, '"', end);
    JoinChar(t, pos, end, '"');
  }

  lemma {:induction false} LiteralIsOk(vocab: Vocabulary, chars: seq<SChar>, gap: string, nested: bool, next: char)
    requires CharsOk(chars) && GapOk(gap, nested, next)
    ensures ItemOk(vocab, SLiteral(chars, gap), nested, next)
  {}

  lemma {:induction false} LiteralAt(vocab: Vocabulary, t: string, pos: nat, nested: bool, chars: seq<SChar>, q: nat,
                                     end: nat)
    requires pos < q < |t| && At(t, pos) == '"' && At(t, q) == '"' && end == SkipSpace(t, q + 1, nested)
    requires CharsOk(chars) && CharsText(chars) == t[pos + 1..q]
    ensures SpellsItem(vocab, t, pos, end, nested, Literal(CharsMeaning(chars)))
  {
    var e := GapAt(t, q + 1, nested);
    QuoteText(t, pos, q, end);
    LiteralIsOk(vocab, chars, t[q + 1..end], nested, At(t, end));
    assert ItemAt(vocab, t, pos, end, nested, SLiteral(chars, t[q + 1..end]), Literal(CharsMeaning(chars)));
  }

  lemma {:induction false} LiteralAtomIsSpelled(vocab: Vocabulary, t: string, pos: nat, nested: bool, end: nat)
    requires pos < |t| && At(t, pos) == '"' && ReadAtom(vocab, t, pos, nested).Good?
    requires end == ReadAtom(vocab, t, pos, nested).pos
    ensures SpellsItem(vocab, t, pos, end, nested, ReadAtom(vocab, t, pos, nested).v)
  {
    LiteralIsRead(vocab, t, pos, nested);
    var q := ReadLiteral(t, pos + 1).pos - 1;
    var chars := LiteralIsSpelled(t, pos + 1, q);
    LiteralAt(vocab, t, pos, nested, chars, q, end);
  }

  lemma {:induction false} ClassTextAt(t: string, pos: nat, negated: bool, p: nat, q: nat, end: nat)
    requires p == (if negated then pos + 2 else pos + 1) && p <= q < end <= |t| && At(t, pos) == '[' && At(t, q) == ']'
    requires negated ==> At(t, pos + 1) == '^'
    ensures t[pos..end] == (if negated then "[^" else "[") + (t[p..q] + ("]" + t[q + 1..end]))
  {
    JoinAround(t, p, q, ']', end);
    if negated {
      JoinChar(t, pos + 1, end, '^');
      JoinChar(t, pos, end, '[');
      assert "[^" == ['['] + ['^'];
    } else {
      JoinChar(t, pos, end, '[');
    }
  }

  lemma {:induction false} ClassIsOk(vocab: Vocabulary, negated: bool, items: seq<SClassItem>, gap: string, nested: bool,
                                     next: char)
    requires ClassOk(items) && (!negated ==> First(ClassText(items), ']') != '^') && GapOk(gap, nested, next)
    ensures ItemOk(vocab, SClass(negated, items, gap), nested, next)
  {}

  lemma {:induction false} ClassAt(vocab: Vocabulary, t: string, pos: nat, nested: bool, negated: bool,
                                   items: seq<SClassItem>, p: nat, q: nat, end: nat)
    requires p == (if negated then pos + 2 else pos + 1) && p <= q < |t| && At(t, pos) == '[' && At(t, q) == ']'
    requires (At(t, pos + 1) == '^') == negated && ClassOk(items) && ClassText(items) == t[p..q]
    requires end == SkipSpace(t, q + 1, nested)
    ensures SpellsItem(vocab, t, pos, end, nested, CharClass(negated, ClassMeaning(items)))
  {
    var e := GapAt(t, q + 1, nested);
    FirstOfSlice(t, p, q);
    ClassTextAt(t, pos, negated, p, q, end);
    ClassIsOk(vocab, negated, items, t[q + 1..end], nested, At(t, end));
    assert ItemAt(vocab, t, pos, end, nested, SClass(negated, items, t[q + 1..end]), CharClass(negated, ClassMeaning(items)));
  }

  // Reading an item that begins with a bracket has read a class.
  lemma {:induction false} BracketIsRead(vocab: Vocabulary, t: string, pos: nat, nested: bool, p: nat)
    requires pos < |t| && At(t, pos) == '[' && ReadAtom(vocab, t, pos, nested).Good?
    requires p == if At(t, pos + 1) == '^' then pos + 2 else pos + 1
    ensures p <= |t| && ReadClass(t, p).Good? && ReadClass(t, p).pos <= |t|
    ensures ReadAtom(vocab, t, pos, nested)
         == Good(CharClass(At(t, pos + 1) == '^', ReadClass(t, p).v), SkipSpace(t, ReadClass(t, p).pos, nested))
  {}

  lemma {:induction false} ClassFrom(vocab: Vocabulary, t: string, pos: nat, nested: bool, negated: bool, p: nat)
    requires pos < |t| && At(t, pos) == '[' && (At(t, pos + 1) == '^') == negated && p == (if negated then pos + 2 else pos + 1)
    requires p <= |t| && ReadClass(t, p).Good? && ReadClass(t, p).pos <= |t|
    ensures var r := ReadClass(t, p);
      SpellsItem(vocab, t, pos, SkipSpace(t, r.pos, nested), nested, CharClass(negated, r.v))
  {
    var r := ReadClass(t, p);
    var items := ClassIsSpelled(t, p, r.pos - 1);
    ClassAt(vocab, t, pos, nested, negated, items, p, r.pos - 1, SkipSpace(t, r.pos, nested));
  }

  lemma {:induction false} ClassAtomIsSpelled(vocab: Vocabulary, t: string, pos: nat, nested: bool, end: nat)
    requires pos < |t| && At(t, pos) == '[' && ReadAtom(vocab, t, pos, nested).Good?
    requires end == ReadAtom(vocab, t, pos, nested).pos
    ensures SpellsItem(vocab, t, pos, end, nested, ReadAtom(vocab, t, pos, nested).v)
  {
    var negated := At(t, pos + 1) == '^';
    var p := if negated then pos + 2 else pos + 1;
    BracketIsRead(vocab, t, pos, nested, p);
    ClassFrom(vocab, t, pos, nested, negated, p);
  }

  lemma {:induction false} TokenAt(vocab: Vocabulary, t: string, pos: nat, nested: bool, negated: bool, p: nat,
                                   token: SToken,
                                   q: nat, end: nat)
    requires p == (if negated then pos + 1 else pos) && pos < |t| && (negated ==> At(t, pos) == '!')
    requires p < q <= |t| && TokenOk(vocab, token) && TokenText(token) == t[p..q] && end == SkipSpace(t, q, nested)
    ensures SpellsItem(vocab, t, pos, end, nested, TokenId(negated, TokenMeaning(vocab, token)))
  {
    var e := GapAt(t, q, nested);
    Join(t, p, q, end);
    if negated { JoinChar(t, pos, end, '!'); } else { assert "" + t[pos..end] == t[pos..end]; }
    assert ItemAt(vocab, t, pos, end, nested, STokenItem(negated, token, t[q..end]), TokenId(negated, TokenMeaning(vocab, token)));
  }

  lemma {:induction false} TokenAtomIsSpelled(vocab: Vocabulary, t: string, pos: nat, nested: bool, negated: bool, end: nat)
    requires pos < |t| && At(t, pos) == (if negated then '!' else '<') && ReadAtom(vocab, t, pos, nested).Good?
    requires end == ReadAtom(vocab, t, pos, nested).pos
    ensures SpellsItem(vocab, t, pos, end, nested, ReadAtom(vocab, t, pos, nested).v)
  {
    var p := if negated then pos + 1 else pos;
    var r := ReadToken(vocab, t, p);
    var token := TokenIsSpelled(vocab, t, p, r.v, r.pos);
    TokenAt(vocab, t, pos, nested, negated, p, token, r.pos, end);
  }

  lemma {:induction false} NameIsSpelled(vocab: Vocabulary, t: string, pos: nat, nested: bool, end: nat)
    requires pos < |t| && IsWordChar(At(t, pos)) && ReadAtom(vocab, t, pos, nested).Good?
    requires end == ReadAtom(vocab, t, pos, nested).pos
    ensures SpellsItem(vocab, t, pos, end, nested, ReadAtom(vocab, t, pos, nested).v)
  {
    var p := NameEnd(t, pos);
    var e := GapAt(t, p, nested);
    NameStops(t, pos);
    FirstOfSlice(t, p, end);
    Join(t, pos, p, end);
    assert ItemAt(vocab, t, pos, end, nested, SName(t[pos..p], t[p..end]), ReadAtom(vocab, t, pos, nested).v);
  }

  lemma {:induction false} GroupText(t: string, pos: nat, p: nat, q: nat, end: nat)
    requires pos < p <= q < end <= |t| && At(t, pos) == '(' && At(t, q) == ')'
    ensures t[pos..end] == "(" + (t[pos + 1..p] + (t[p..q] + (")" + t[q + 1..end])))
  {
    JoinAround(t, p, q, ')', end);
    Join(t, pos + 1, p, end);
    JoinChar(t, pos, end, '(');
  }

  lemma {:induction false} GroupOk(vocab: Vocabulary, open: string, alts: SAlts, gap: string, nested: bool, next: char)
    requires GapOk(open, true, First(AltsText(alts), ')')) && AltsOk(vocab, alts, true, ')') && GapOk(gap, nested, next)
    ensures ItemOk(vocab, SGroup(open, alts, gap), nested, next)
    ensures ItemText(SGroup(open, alts, gap)) == "(" + (open + (AltsText(alts) + (")" + gap)))
    ensures ItemMeaning(vocab, SGroup(open, alts, gap)) == Group(AltsMeaning(vocab, alts))
  {}

  lemma {:induction false} GroupAt(vocab: Vocabulary, t: string, pos: nat, nested: bool, p: nat, x: SAlts, q: nat, end: nat)
    requires pos < p <= q < end <= |t| && At(t, pos) == '(' && At(t, q) == ')'
    requires AltsText(x) == t[p..q] && AltsOk(vocab, x, true, ')')
    requires GapOk(t[pos + 1..p], true, At(t, p)) && GapOk(t[q + 1..end], nested, At(t, end))
    ensures SpellsItem(vocab, t, pos, end, nested, Group(AltsMeaning(vocab, x)))
  {
    var open, gap := t[pos + 1..p], t[q + 1..end];
    FirstOfSlice(t, p, q);
    GroupText(t, pos, p, q, end);
    GroupOk(vocab, open, x, gap, nested, At(t, end));
    assert ItemAt(vocab, t, pos, end, nested, SGroup(open, x, gap), Group(AltsMeaning(vocab, x)));
  }

  lemma {:induction false} GroupFrom(vocab: Vocabulary, t: string, pos: nat, nested: bool, alts: Alts, q: nat)
    requires pos < |t| && At(t, pos) == '(' && SkipSpace(t, pos + 1, true) <= q < |t| && At(t, q) == ')'
    requires SpellsAlts(vocab, t, SkipSpace(t, pos + 1, true), q, true, alts)
    ensures SpellsItem(vocab, t, pos, SkipSpace(t, q + 1, nested), nested, Group(alts))
  {
    var p := GapAt(t, pos + 1, true);
    var end := GapAt(t, q + 1, nested);
    var x :| AltsAt(vocab, t, p, q, true, x, alts);
    GroupAt(vocab, t, pos, nested, p, x, q, end);
  }

  lemma {:induction false} GroupParts(vocab: Vocabulary, t: string, pos: nat, nested: bool, p: nat)
    requires pos < |t| && At(t, pos) == '(' && p == SkipSpace(t, pos + 1, true) && ReadAtom(vocab, t, pos, nested).Good?
    ensures var r := ReadAlts(vocab, t, p, true);
      && r.Good? && r.pos < |t| && At(t, r.pos) == ')'
      && ReadAtom(vocab, t, pos, nested) == Good(Group(r.v), SkipSpace(t, r.pos + 1, nested))
  {}

  lemma {:induction false} GroupIsSpelled(vocab: Vocabulary, t: string, pos: nat, nested: bool, end: nat)
    requires pos < |t| && At(t, pos) == '(' && ReadAtom(vocab, t, pos, nested).Good?
    requires end == ReadAtom(vocab, t, pos, nested).pos
    ensures SpellsItem(vocab, t, pos, end, nested, ReadAtom(vocab, t, pos, nested).v)
    decreases |t| - pos, 0
  {
    var p := SkipSpace(t, pos + 1, true);
    GroupParts(vocab, t, pos, nested, p);
    AltsAreSpelled(vocab, t, p, true);
    var r := ReadAlts(vocab, t, p, true);
    GroupFrom(vocab, t, pos, nested, r.v, r.pos);
  }

  lemma {:induction false} AtomIsSpelled(vocab: Vocabulary, t: string, pos: nat, nested: bool, end: nat)
    requires pos < |t| && StartsAtom(At(t, pos)) && ReadAtom(vocab, t, pos, nested).Good?
    requires end == ReadAtom(vocab, t, pos, nested).pos
    ensures SpellsItem(vocab, t, pos, end, nested, ReadAtom(vocab, t, pos, nested).v)
    decreases |t| - pos, 1
  {
    var c := At(t, pos);
    if c == '"' {
      LiteralAtomIsSpelled(vocab, t, pos, nested, end);
    } else if c == '[' {
      ClassAtomIsSpelled(vocab, t, pos, nested, end);
    } else if c == '<' || c == '!' {
      TokenAtomIsSpelled(vocab, t, pos, nested, c == '!', end);
    } else if IsWordChar(c) {
      NameIsSpelled(vocab, t, pos, nested, end);
    } else if c == '(' {
      GroupIsSpelled(vocab, t, pos, nested, end);
    } else {
      var e := GapAt(t, pos + 1, nested);
      JoinChar(t, pos, end, '.');
      assert ItemAt(vocab, t, pos, end, nested, SDot(t[pos + 1..end]), Dot);
    }
  }

  // An item with a mark.
  lemma {:induction false} MarkedIsSpelled(vocab: Vocabulary, t: string, start: nat, pos: nat, nested: bool, cur: Item)
    requires SpellsItem(vocab, t, start, pos, nested, cur) && start <= pos < |t| && IsMark(At(t, pos)) && ReadMark(t, pos, nested).Good?
    ensures var r := ReadMark(t, pos, nested); SpellsItem(vocab, t, start, r.pos, nested, Repeat(cur, r.v.min, r.v.max))
  {
    var x :| ItemAt(vocab, t, start, pos, nested, x, cur);
    var r := ReadMark(t, pos, nested);
    var mark := MarkIsSpelled(t, pos, nested);
    Join(t, start, pos, r.pos);
    assert MarkText(mark)[0] == At(t, pos);
    assert ItemAt(vocab, t, start, r.pos, nested, SRepeat(x, mark), Repeat(cur, r.v.min, r.v.max));
  }

  // An item and the items behind it.
  lemma {:induction false} ItemThenItems(vocab: Vocabulary, t: string, start: nat, pos: nat, end: nat, nested: bool,
                                         item: Item, items: Items)
    requires SpellsItem(vocab, t, start, pos, nested, item) && SpellsItems(vocab, t, pos, end, nested, items)
    ensures SpellsItems(vocab, t, start, end, nested, MoreItems(item, items))
  {
    var x :| ItemAt(vocab, t, start, pos, nested, x, item);
    var xs :| ItemsAt(vocab, t, pos, end, nested, xs, items);
    FirstOfSlice(t, pos, end);
    Join(t, start, pos, end);
    assert ItemsAt(vocab, t, start, end, nested, SMoreItems(x, xs), MoreItems(item, items));
  }

  // The item read so far, from start to pos, its marks, and the rest of the sequence.
  lemma {:induction false} MoreIsSpelled(vocab: Vocabulary, t: string, start: nat, pos: nat, nested: bool, cur: Item)
    requires start <= pos <= |t| && SpellsItem(vocab, t, start, pos, nested, cur) && ReadMore(vocab, t, pos, nested, cur).Good?
    ensures var r := ReadMore(vocab, t, pos, nested, cur); SpellsItems(vocab, t, start, r.pos, nested, r.v)
    decreases |t| - pos, 3
  {
    if IsMark(At(t, pos)) {
      var b := ReadMark(t, pos, nested);
      MarkedIsSpelled(vocab, t, start, pos, nested, cur);
      MoreIsSpelled(vocab, t, start, b.pos, nested, Repeat(cur, b.v.min, b.v.max));
    } else {
      var r := ReadSeq(vocab, t, pos, nested);
      SeqIsSpelled(vocab, t, pos, nested);
      ItemThenItems(vocab, t, start, pos, r.pos, nested, cur, r.v);
    }
  }

  lemma {:induction false} SeqIsSpelled(vocab: Vocabulary, t: string, pos: nat, nested: bool)
    requires pos <= |t| && ReadSeq(vocab, t, pos, nested).Good?
    ensures var r := ReadSeq(vocab, t, pos, nested); SpellsItems(vocab, t, pos, r.pos, nested, r.v)
    decreases |t| - pos, 2
  {
    if StartsAtom(At(t, pos)) {
      var r := ReadAtom(vocab, t, pos, nested);
      AtomIsSpelled(vocab, t, pos, nested, r.pos);
      MoreIsSpelled(vocab, t, pos, r.pos, nested, r.v);
    } else {
      assert ItemsAt(vocab, t, pos, pos, nested, SNoItems, NoItems);
    }
  }

  lemma {:induction false} OneAltAt(vocab: Vocabulary, t: string, pos: nat, end: nat, nested: bool, items: Items)
    requires SpellsItems(vocab, t, pos, end, nested, items)
    ensures SpellsAlts(vocab, t, pos, end, nested, LastAlt(items))
  {
    var xs :| ItemsAt(vocab, t, pos, end, nested, xs, items);
    assert AltsAt(vocab, t, pos, end, nested, SLastAlt(xs), LastAlt(items));
  }

  lemma {:induction false} MoreAltsAt(vocab: Vocabulary, t: string, pos: nat, nested: bool, first: Items, q: nat, p: nat,
                                      rest: Alts, end: nat)
    requires SpellsItems(vocab, t, pos, q, nested, first) && SpellsAlts(vocab, t, p, end, nested, rest)
    requires q < p <= |t| && At(t, q) == '|' && GapOk(t[q + 1..p], true, At(t, p))
    ensures SpellsAlts(vocab, t, pos, end, nested, MoreAlts(first, rest))
  {
    var xs :| ItemsAt(vocab, t, pos, q, nested, xs, first);
    var alts :| AltsAt(vocab, t, p, end, nested, alts, rest);
    FirstOfSlice(t, p, end);
    Join(t, q + 1, p, end);
    JoinAround(t, pos, q, '|', end);
    assert AltsAt(vocab, t, pos, end, nested, SMoreAlts(xs, t[q + 1..p], alts), MoreAlts(first, rest));
  }

  lemma {:induction false} AltsAreRead(vocab: Vocabulary, t: string, pos: nat, nested: bool)
    requires pos <= |t| && ReadAlts(vocab, t, pos, nested).Good?
    ensures var first := ReadSeq(vocab, t, pos, nested);
      && first.Good? && first.pos <= |t|
      && (At(t, first.pos) != '|' ==> ReadAlts(vocab, t, pos, nested) == Good(LastAlt(first.v), first.pos))
      && (At(t, first.pos) == '|' ==>
            var r := ReadAlts(vocab, t, SkipSpace(t, first.pos + 1, true), nested);
            r.Good? && ReadAlts(vocab, t, pos, nested) == Good(MoreAlts(first.v, r.v), r.pos))
  {}

  lemma {:induction false} AltsBehindBar(vocab: Vocabulary, t: string, pos: nat, nested: bool, first: Items, q: nat,
                                         rest: Alts, end: nat)
    requires SpellsItems(vocab, t, pos, q, nested, first) && q < |t| && At(t, q) == '|'
    requires SpellsAlts(vocab, t, SkipSpace(t, q + 1, true), end, nested, rest)
    ensures SpellsAlts(vocab, t, pos, end, nested, MoreAlts(first, rest))
  {
    var p := GapAt(t, q + 1, true);
    MoreAltsAt(vocab, t, pos, nested, first, q, p, rest, end);
  }

  lemma {:induction false} AltsAreSpelled(vocab: Vocabulary, t: string, pos: nat, nested: bool)
    requires pos <= |t| && ReadAlts(vocab, t, pos, nested).Good?
    ensures var r := ReadAlts(vocab, t, pos, nested); SpellsAlts(vocab, t, pos, r.pos, nested, r.v)
    decreases |t| - pos, 4
  {
    AltsAreRead(vocab, t, pos, nested);
    var first := ReadSeq(vocab, t, pos, nested);
    SeqIsSpelled(vocab, t, pos, nested);
    if At(t, first.pos) == '|' {
      var r := ReadAlts(vocab, t, SkipSpace(t, first.pos + 1, true), nested);
      AltsAreSpelled(vocab, t, SkipSpace(t, first.pos + 1, true), nested);
      AltsBehindBar(vocab, t, pos, nested, first.v, first.pos, r.v, r.pos);
    } else {
      OneAltAt(vocab, t, pos, first.pos, nested, first.v);
    }
  }

  // ---------- whole texts ----------

  predicate DefAt(vocab: Vocabulary, t: string, pos: nat, end: nat, d: SDef, def: Definition) {
    && pos < end <= |t| && DefText(d) == t[pos..end] && DefMeaning(vocab, d) == def && DefOk(vocab, d, At(t, end))
  }

  // The end of the line is from pos to p.
  lemma {:induction false} EndIsSpelled(t: string, pos: nat) returns (p: nat, end: nat)
    requires pos <= |t| && ReadEnd(t, pos).Good?
    ensures ReadEnd(t, pos).pos == end && pos <= p <= end <= |t|
    ensures EndOk(t[pos..p], t[p..end], At(t, end)) && GapOk(t[p..end], true, At(t, end))
  {
    if At(t, pos) == '\r' {
      p := if At(t, pos + 1) == '\n' then pos + 2 else pos + 1;
      end := GapAt(t, p, true);
      FirstOfSlice(t, p, end);
      assert t[pos..p] == if At(t, pos + 1) == '\n' then "\r\n" else "\r";
    } else {
      p := if At(t, pos) == '\n' then pos + 1 else pos;
      end := GapAt(t, p, true);
      assert t[pos..p] == if At(t, pos) == '\n' then "\n" else "";
    }
  }

  lemma {:induction false} DefTextAt(t: string, pos: nat, n: nat, e: nat, p: nat, q: nat, l: nat, end: nat)
    requires pos <= n <= e && e + 3 <= p <= q <= l <= end <= |t| && At(t, e) == ':' && At(t, e + 1) == ':' && At(t, e + 2) == '='
    ensures t[pos..end] == t[pos..n] + (t[n..e] + ("::=" + (t[e + 3..p] + (t[p..q] + (t[q..l] + t[l..end])))))
  {
    Join(t, q, l, end);
    Join(t, p, q, end);
    Join(t, e + 3, p, end);
    assert t[e..e + 3] == "::=";
    Join(t, e, e + 3, end);
    Join(t, n, e, end);
    Join(t, pos, n, end);
  }

  // Where the parts of a rule that has been read are: n is the end of its name, e its sign, p and q the ends of
  // its alternates.
  lemma {:induction false} RuleLayout(vocab: Vocabulary, t: string, pos: nat) returns (n: nat, e: nat, p: nat, q: nat)
    requires pos <= |t| && ReadRule(vocab, t, pos).Good?
    ensures pos < n <= e && e + 3 <= p <= q <= |t| && IsName(t[pos..n]) && !IsWordChar(At(t, n))
    ensures GapOk(t[n..e], false, ':') && At(t, e) == ':' && At(t, e + 1) == ':' && At(t, e + 2) == '='
    ensures GapOk(t[e + 3..p], true, At(t, p))
    ensures var r := ReadAlts(vocab, t, p, false);
      && r.Good? && r.pos == q && ReadEnd(t, q).Good? && ReadRule(vocab, t, pos).pos == ReadEnd(t, q).pos
      && ReadRule(vocab, t, pos).v == Definition(t[pos..n], r.v)
  {
    n := NameEnd(t, pos);
    NameStops(t, pos);
    e := GapAt(t, n, false);
    p := GapAt(t, e + 3, true);
    q := ReadAlts(vocab, t, p, false).pos;
  }

  lemma {:induction false} RuleAt(vocab: Vocabulary, t: string, pos: nat, n: nat, e: nat, p: nat, q: nat, l: nat, end: nat,
                                  alts: SAlts, meaning: Alts)
    requires pos < n <= e && e + 3 <= p <= q <= l <= end <= |t| && IsName(t[pos..n]) && AltsAt(vocab, t, p, q, false, alts, meaning)
    requires GapOk(t[n..e], false, ':') && At(t, e) == ':' && At(t, e + 1) == ':' && At(t, e + 2) == '='
    requires GapOk(t[e + 3..p], true, At(t, p)) && EndOk(t[q..l], t[l..end], At(t, end)) && GapOk(t[l..end], true, At(t, end))
    ensures DefAt(vocab, t, pos, end, SDef(t[pos..n], t[n..e], t[e + 3..p], alts, t[q..l], t[l..end]), Definition(t[pos..n], meaning))
  {
    DefTextAt(t, pos, n, e, p, q, l, end);
    FirstOfSlice(t, p, q);
    Join(t, q, l, end);
    FirstOfSlice(t, q, end);
  }

  lemma {:induction false} RuleIsSpelled(vocab: Vocabulary, t: string, pos: nat) returns (d: SDef)
    requires pos <= |t| && ReadRule(vocab, t, pos).Good?
    ensures DefAt(vocab, t, pos, ReadRule(vocab, t, pos).pos, d, ReadRule(vocab, t, pos).v)
  {
    var n, e, p, q := RuleLayout(vocab, t, pos);
    var meaning := ReadAlts(vocab, t, p, false).v;
    AltsAreSpelled(vocab, t, p, false);
    var alts :| AltsAt(vocab, t, p, q, false, alts, meaning);
    var l, end := EndIsSpelled(t, q);
    d := SDef(t[pos..n], t[n..e], t[e + 3..p], alts, t[q..l], t[l..end]);
    RuleAt(vocab, t, pos, n, e, p, q, l, end, alts, meaning);
  }

  lemma {:induction false} RulesAreSpelled(vocab: Vocabulary, t: string, pos: nat) returns (defs: seq<SDef>)
    requires pos <= |t| && ReadRules(vocab, t, pos).Good?
    ensures var end := ReadRules(vocab, t, pos).pos;
      pos <= end <= |t| && DefsText(defs) == t[pos..end] && DefsOk(vocab, defs) && At(t, end) == NUL
    ensures DefsMeaning(vocab, defs) == ReadRules(vocab, t, pos).v
    decreases |t| - pos
  {
    if At(t, pos) == NUL {
      defs := [];
    } else {
      var r := ReadRule(vocab, t, pos);
      var end := ReadRules(vocab, t, pos).pos;
      var d := RuleIsSpelled(vocab, t, pos);
      var rest := RulesAreSpelled(vocab, t, r.pos);
      defs := [d] + rest;
      assert defs[1..] == rest;
      FirstOfSlice(t, r.pos, end);
      Join(t, pos, r.pos, end);
    }
  }

  // The text spells these definitions up to p, where it ends.
  ghost predicate IsSpelling(vocab: Vocabulary, t: string, defs: seq<Definition>, p: nat) {
    exists c :: TextOk(vocab, c) && DefsMeaning(vocab, c.defs) == defs && p <= |t| && TextOf(c) == t[..p] && At(t, p) == NUL
  }

  lemma {:induction false} TextIsSpelled(vocab: Vocabulary, t: string)
    requires ReadText(vocab, t).Good?
    ensures IsSpelling(vocab, t, ReadText(vocab, t).v, ReadText(vocab, t).pos)
  {
    var g := GapAt(t, 0, true);
    var p := ReadText(vocab, t).pos;
    var defs := RulesAreSpelled(vocab, t, g);
    var c := SText(t[0..g], defs);
    FirstOfSlice(t, g, p);
    Join(t, 0, g, p);
    assert TextOk(vocab, c) && TextOf(c) == t[..p];
  }

  /**
   The definitions that a text is read as are those that it spells, and there are no others: reading succeeds
   exactly for the spelled grammars, whatever their white space, comments, characters and marks.
   */
  lemma {:induction false} ReadsExactlySpellings(vocab: Vocabulary, t: string, defs: seq<Definition>, p: nat)
    ensures ReadText(vocab, t) == Good(defs, p) <==> IsSpelling(vocab, t, defs, p)
  {
    if ReadText(vocab, t) == Good(defs, p) { TextIsSpelled(vocab, t); }
    if IsSpelling(vocab, t, defs, p) {
      var c :| TextOk(vocab, c) && DefsMeaning(vocab, c.defs) == defs && p <= |t| && TextOf(c) == t[..p] && At(t, p) == NUL;
      assert t[0..p] == t[..p];
      HasFrom(t, 0, TextOf(c));
      ReadsText(vocab, c, t);
    }
  }
}
