/**
 The reader reads every spelled grammar: whatever the spelling, it gets the meaning and stops where the
 text of the spelling ends.
 */
module GbnfReads {
  import opened Gbnf
  import opened Decimals
  import opened GbnfSymbols
  import opened GbnfCompile
  import opened GbnfText
  import opened GbnfSyntax

  // ---------- texts within a text ----------

  // The text s stands at pos.
  predicate Has(t: string, pos: nat, s: string)
    decreases |s|
  {
    if s == [] then pos <= |t| else pos < |t| && t[pos] == s[0] && Has(t, pos + 1, s[1..])
  }

  lemma {:induction false} HasBoth(t: string, pos: nat, x: string, y: string)
    requires Has(t, pos, x + y)
    ensures Has(t, pos, x) && Has(t, pos + |x|, y)
    decreases |x|
  {
    if x == [] {
      assert x + y == y;
    } else {
      assert (x + y)[1..] == x[1..] + y;
      HasBoth(t, pos + 1, x[1..], y);
    }
  }

  lemma {:induction false} HasInside(t: string, pos: nat, s: string)
    requires Has(t, pos, s)
    ensures pos + |s| <= |t| && t[pos..pos + |s|] == s
    decreases |s|
  {
    if s != [] {
      HasInside(t, pos + 1, s[1..]);
      assert t[pos..pos + |s|] == [t[pos]] + t[pos + 1..pos + |s|];
      assert s == [s[0]] + s[1..];
    }
  }

  lemma {:induction false} HasFrom(t: string, pos: nat, s: string)
    requires pos + |s| <= |t| && t[pos..pos + |s|] == s
    ensures Has(t, pos, s)
    decreases |s|
  {
    if s != [] {
      assert t[pos..pos + |s|][0] == t[pos];
      assert t[pos + 1..pos + |s|] == t[pos..pos + |s|][1..];
      HasFrom(t, pos + 1, s[1..]);
    }
  }

  // What stands where s begins.
  lemma {:induction false} AtFirst(t: string, pos: nat, s: string)
    requires Has(t, pos, s)
    ensures pos <= |t| && At(t, pos) == First(s, At(t, pos + |s|)) && (s != "" ==> pos < |t|)
  {}

  // A character and what follows it.
  lemma {:induction false} HasChar(t: string, pos: nat, c: char, rest: string)
    requires Has(t, pos, [c] + rest)
    ensures pos < |t| && At(t, pos) == c && Has(t, pos + 1, rest)
  {
    assert ([c] + rest)[1..] == rest;
  }

  lemma {:induction false} HasTwo(t: string, pos: nat, c: char, d: char, rest: string)
    requires Has(t, pos, [c, d] + rest)
    ensures pos + 1 < |t| && At(t, pos) == c && At(t, pos + 1) == d && Has(t, pos + 2, rest)
  {
    assert [c, d] + rest == [c] + ([d] + rest);
    HasChar(t, pos, c, [d] + rest);
    HasChar(t, pos + 1, d, rest);
  }

  // ---------- white space ----------

  // parse_space takes the whole gap, and within a comment SkipLine takes the rest of the line.
  lemma {:induction false} SkipsTo(t: string, pos: nat, g: string, newlines: bool, comment: bool, end: nat)
    requires Has(t, pos, g) && end == pos + |g| && GapUpTo(g, newlines, comment, At(t, end))
    ensures pos <= end <= |t|
    ensures SkipSpace(t, if comment then SkipLine(t, pos) else pos, newlines) == end
    decreases |g|
  {
    HasInside(t, pos, g);
    if g == "" {
      assert comment ==> SkipLine(t, pos) == pos;
    } else if comment && !IsLineEnd(g[0]) {
      SkipsTo(t, pos + 1, g[1..], newlines, true, end);
    } else if g[0] == '#' {
      SkipsTo(t, pos + 1, g[1..], newlines, true, end);
      assert SkipLine(t, pos) == SkipLine(t, pos + 1);
    } else {
      SkipsTo(t, pos + 1, g[1..], newlines, false, end);
    }
  }

  lemma {:induction false} SkipsGap(t: string, pos: nat, g: string, newlines: bool, end: nat)
    requires Has(t, pos, g) && end == pos + |g| && GapOk(g, newlines, At(t, end))
    ensures pos <= end <= |t| && SkipSpace(t, pos, newlines) == end
  {
    SkipsTo(t, pos, g, newlines, false, end);
  }

  lemma {:induction false} HasAt(t: string, pos: nat, s: string, k: nat)
    requires Has(t, pos, s) && k <= |s|
    ensures pos + k <= |t| && Has(t, pos + k, s[k..]) && (k < |s| ==> At(t, pos + k) == s[k])
  {
    assert s == s[..k] + s[k..];
    HasBoth(t, pos, s[..k], s[k..]);
    HasInside(t, pos, s[..k]);
  }

  // What a gap begins with.
  lemma {:induction false} GapStart(g: string, newlines: bool, next: char)
    requires GapOk(g, newlines, next)
    ensures First(g, next) == next || IsBlank(First(g, next), newlines) || First(g, next) == '#'
  {}

  // ---------- characters ----------

  function HexFrom(value: nat, digits: seq<HexChar>): nat
    decreases |digits|
  {
    if digits == [] then value else HexFrom(value * 16 + digits[0].value, digits[1..])
  }

  lemma {:induction false} HexFromLast(value: nat, digits: seq<HexChar>)
    requires digits != []
    ensures HexFrom(value, digits) == HexFrom(value, digits[..|digits| - 1]) * 16 + digits[|digits| - 1].value
    decreases |digits|
  {
    if |digits| > 1 {
      var more := value * 16 + digits[0].value;
      HexFromLast(more, digits[1..]);
      assert digits[1..][..|digits| - 2] == digits[..|digits| - 1][1..];
    } else {
      assert digits[1..] == [] && digits[..0] == [];
    }
  }

  lemma {:induction false} HexFromIsValue(digits: seq<HexChar>)
    ensures HexFrom(0, digits) == HexValue(digits)
    decreases |digits|
  {
    if digits != [] {
      HexFromLast(0, digits);
      HexFromIsValue(digits[..|digits| - 1]);
    }
  }

  lemma {:induction false} HexDigitTable(value: nat)
    requires value < 16
    ensures HexDigit(LOWER[value]) == Some(value) && HexDigit(UPPER[value]) == Some(value)
  {}

  lemma {:induction false} ReadsHex(t: string, pos: nat, digits: seq<HexChar>, value: nat)
    requires Has(t, pos, HexText(digits)) && forall i :: 0 <= i < |digits| ==> digits[i].value < 16
    ensures pos <= |t| && ReadHex(t, pos, |digits|, value) == Good(HexFrom(value, digits), pos + |digits|)
    decreases |digits|
  {
    if digits != [] {
      HexDigitTable(digits[0].value);
      assert HexText(digits)[1..] == HexText(digits[1..]);
      ReadsHex(t, pos + 1, digits[1..], value * 16 + digits[0].value);
    }
  }

  lemma {:induction false} ReadsBytes(t: string, pos: nat, bytes: string, value: nat)
    requires Has(t, pos, bytes) && NUL !in bytes
    ensures pos <= |t| && ReadTail(t, pos, |bytes|, value) == Good(MoreBits(value, bytes), pos + |bytes|)
    decreases |bytes|
  {
    if bytes != "" {
      assert bytes[0] in bytes && forall c :: c in bytes[1..] ==> c in bytes;
      ReadsBytes(t, pos + 1, bytes[1..], value * 64 + bytes[0] as nat % 64);
    }
  }

  lemma {:induction false} RawTable(first: nat)
    requires first < 256
    ensures Utf8Len(first) == RawLen(first) && LeadValue(first) == RawBits(first)
  {}

  lemma {:induction false} ReadsRaw(t: string, pos: nat, c: SChar, stop: char)
    requires c.Raw? && CharOk(c, stop) && Has(t, pos, CharText(c))
    ensures pos < |t| && ReadChar(t, pos) == Good(CharMeaning(c), pos + |CharText(c)|)
    ensures At(t, pos) != NUL && At(t, pos) != stop
  {
    assert c.bytes[0] in c.bytes && forall x :: x in c.bytes[1..] ==> x in c.bytes;
    RawTable(c.bytes[0] as nat % 256);
    ReadsBytes(t, pos + 1, c.bytes[1..], RawBits(c.bytes[0] as nat % 256));
  }

  lemma {:induction false} HexCharParts(t: string, pos: nat, n: nat, r: Read<nat>)
    requires pos + 2 <= |t| && At(t, pos) == '\\' && (n == 2 || n == 4 || n == 8) && At(t, pos + 1) == HexMark(n)
    requires ReadHex(t, pos + 2, n, 0) == r
    ensures ReadChar(t, pos) == r
  {}

  lemma {:induction false} ReadsHexChar(t: string, pos: nat, digits: seq<HexChar>)
    requires CharOk(Hex(digits), NUL) && Has(t, pos, CharText(Hex(digits)))
    ensures pos < |t| && ReadChar(t, pos) == Good(HexValue(digits), pos + 2 + |digits|) && At(t, pos) == '\\'
  {
    HasTwo(t, pos, '\\', HexMark(|digits|), HexText(digits));
    ReadsHex(t, pos + 2, digits, 0);
    HexFromIsValue(digits);
    HexCharParts(t, pos, |digits|, Good(HexValue(digits), pos + 2 + |digits|));
  }

  lemma {:induction false} ReadsEscape(t: string, pos: nat, c: SChar, stop: char)
    requires c.Escaped? && CharOk(c, stop) && Has(t, pos, CharText(c))
    ensures pos < |t| && ReadChar(t, pos) == Good(CharMeaning(c), pos + |CharText(c)|) && At(t, pos) == '\\'
  {
    assert CharText(c) == ['\\', c.c] + "";
    HasTwo(t, pos, '\\', c.c, "");
  }

  // parse_char reads every spelling of a character.
  lemma {:induction false} ReadsChar(t: string, pos: nat, c: SChar, stop: char)
    requires CharOk(c, stop) && stop != '\\' && Has(t, pos, CharText(c))
    ensures pos < |t| && ReadChar(t, pos) == Good(CharMeaning(c), pos + |CharText(c)|)
    ensures At(t, pos) != NUL && At(t, pos) != stop && CharText(c) != "" && At(t, pos) == CharText(c)[0]
  {
    match c
    case Raw(_) => ReadsRaw(t, pos, c, stop);
    case Hex(digits) => ReadsHexChar(t, pos, digits);
    case Escaped(_) => ReadsEscape(t, pos, c, stop);
  }

  lemma {:induction false} LiteralOfChar(t: string, pos: nat, c: nat, p: nat, rest: seq<nat>, q: nat)
    requires pos <= |t| && p <= |t| && At(t, pos) != NUL && At(t, pos) != '"'
    requires ReadChar(t, pos) == Good(c, p) && ReadLiteral(t, p) == Good(rest, q)
    ensures ReadLiteral(t, pos) == Good([c] + rest, q)
  {}

  lemma {:induction false} ReadsChars(t: string, pos: nat, chars: seq<SChar>, q: nat)
    requires CharsOk(chars) && Has(t, pos, CharsText(chars)) && q == pos + |CharsText(chars)| && At(t, q) == '"'
    ensures pos <= |t| && ReadLiteral(t, pos) == Good(CharsMeaning(chars), q + 1)
    decreases |chars|
  {
    if chars != [] {
      var p := pos + |CharText(chars[0])|;
      HasBoth(t, pos, CharText(chars[0]), CharsText(chars[1..]));
      ReadsChars(t, p, chars[1..], q);
      ReadsLiteralChar(t, pos, chars[0], p, CharsMeaning(chars[1..]), q + 1);
    }
  }

  lemma {:induction false} ReadsLiteralChar(t: string, pos: nat, c: SChar, p: nat, rest: seq<nat>, q: nat)
    requires CharOk(c, '"') && Has(t, pos, CharText(c)) && p == pos + |CharText(c)| <= |t|
    requires ReadLiteral(t, p) == Good(rest, q)
    ensures pos <= |t| && ReadLiteral(t, pos) == Good([CharMeaning(c)] + rest, q)
  {
    ReadsChar(t, pos, c, '"');
    LiteralOfChar(t, pos, CharMeaning(c), p, rest, q);
  }

  // ---------- classes ----------

  lemma {:induction false} ReadsOne(t: string, pos: nat, c: SChar, after: string)
    requires ClassItemOk(SOne(c), after) && Has(t, pos, CharText(c) + after) && after != ""
    ensures pos < |t| && ReadClassItem(t, pos) == Good(One(CharMeaning(c)), pos + |CharText(c)|)
    ensures At(t, pos) != NUL && At(t, pos) != ']'
  {
    HasBoth(t, pos, CharText(c), after);
    ReadsChar(t, pos, c, ']');
    AtFirst(t, pos + |CharText(c)|, after);
    if after[0] == '-' { HasAt(t, pos + |CharText(c)|, after, 1); }
  }

  lemma {:induction false} SpanParts(t: string, pos: nat, lo: nat, p: nat, hi: nat, q: nat)
    requires pos <= |t| && p < |t| && ReadChar(t, pos) == Good(lo, p) && At(t, p) == '-'
    requires At(t, p + 1) != ']' && At(t, p + 1) != NUL && ReadChar(t, p + 1) == Good(hi, q)
    ensures ReadClassItem(t, pos) == Good(Span(lo, hi), q)
  {}

  lemma {:induction false} ReadsSpan(t: string, pos: nat, lo: SChar, hi: SChar, p: nat, q: nat)
    requires CharOk(lo, ']') && CharOk(hi, ']') && Has(t, pos, CharText(lo) + ("-" + CharText(hi)))
    requires p == pos + |CharText(lo)| && q == p + 1 + |CharText(hi)|
    ensures pos < |t| && ReadClassItem(t, pos) == Good(Span(CharMeaning(lo), CharMeaning(hi)), q)
    ensures At(t, pos) != NUL && At(t, pos) != ']'
  {
    HasBoth(t, pos, CharText(lo), "-" + CharText(hi));
    ReadsChar(t, pos, lo, ']');
    HasChar(t, p, '-', CharText(hi));
    ReadsChar(t, p + 1, hi, ']');
    SpanParts(t, pos, CharMeaning(lo), p, CharMeaning(hi), q);
  }

  lemma {:induction false} ReadsClassItem(t: string, pos: nat, x: SClassItem, after: string)
    requires ClassItemOk(x, after) && Has(t, pos, ClassItemText(x) + after) && after != ""
    ensures pos < |t| && ReadClassItem(t, pos) == Good(ClassItemMeaning(x), pos + |ClassItemText(x)|)
    ensures At(t, pos) != NUL && At(t, pos) != ']'
  {
    match x
    case SOne(c) => ReadsOne(t, pos, c, after);
    case SSpan(lo, hi) =>
      HasBoth(t, pos, ClassItemText(x), after);
      ReadsSpan(t, pos, lo, hi, pos + |CharText(lo)|, pos + |ClassItemText(x)|);
  }

  lemma {:induction false} ClassOfItem(t: string, pos: nat, item: ClassItem, p: nat, rest: seq<ClassItem>, q: nat)
    requires pos <= |t| && p <= |t| && At(t, pos) != NUL && At(t, pos) != ']'
    requires ReadClassItem(t, pos) == Good(item, p) && ReadClass(t, p) == Good(rest, q)
    ensures ReadClass(t, pos) == Good([item] + rest, q)
  {}

  lemma {:induction false} Associate(x: string, y: string, z: string)
    ensures (x + y) + z == x + (y + z)
  {}

  // The first item, when the rest of the class has been read.
  lemma {:induction false} ReadsClassHead(t: string, pos: nat, x: SClassItem, after: string, p: nat, rest: seq<ClassItem>,
                                          q: nat)
    requires ClassItemOk(x, after) && after != "" && Has(t, pos, ClassItemText(x) + after) && p == pos + |ClassItemText(x)|
    requires p <= |t| && ReadClass(t, p) == Good(rest, q)
    ensures pos < |t| && ReadClass(t, pos) == Good([ClassItemMeaning(x)] + rest, q)
  {
    ReadsClassItem(t, pos, x, after);
    ClassOfItem(t, pos, ClassItemMeaning(x), p, rest, q);
  }

  lemma {:induction false} ReadsClass(t: string, pos: nat, items: seq<SClassItem>)
    requires ClassOk(items) && Has(t, pos, ClassText(items) + "]")
    ensures pos < |t| && ReadClass(t, pos) == Good(ClassMeaning(items), pos + |ClassText(items)| + 1)
    decreases |items|
  {
    if items == [] {
      assert ClassText(items) + "]" == [']'] + "";
      HasChar(t, pos, ']', "");
    } else {
      var x, after := items[0], ClassText(items[1..]) + "]";
      var p := pos + |ClassItemText(x)|;
      Associate(ClassItemText(x), ClassText(items[1..]), "]");
      HasBoth(t, pos, ClassItemText(x), after);
      ReadsClass(t, p, items[1..]);
      ReadsClassHead(t, pos, x, after, p, ClassMeaning(items[1..]), p + |after|);
    }
  }

  // ---------- numbers, tokens and names ----------

  lemma {:induction false} DigitsUpTo(t: string, pos: nat, s: string)
    requires Has(t, pos, s) && (forall i :: 0 <= i < |s| ==> IsDigit(s[i])) && !IsDigit(At(t, pos + |s|))
    ensures pos <= |t| && DigitsEnd(t, pos) == pos + |s|
    decreases |s|
  {
    if s != [] { DigitsUpTo(t, pos + 1, s[1..]); }
  }

  lemma {:induction false} ReadsNumber(t: string, pos: nat, n: string)
    requires IsNumber(n) && Has(t, pos, n) && !IsDigit(At(t, pos + |n|))
    ensures pos <= |t| && ReadInt(t, pos) == Good(ValueOf(n), pos + |n|) && At(t, pos) == n[0] && IsDigit(n[0])
  {
    HasInside(t, pos, n);
    DigitsUpTo(t, pos, n);
  }

  lemma {:induction false} TokenUpTo(t: string, pos: nat, s: string)
    requires Has(t, pos, s) && '>' !in s && NUL !in s && At(t, pos + |s|) == '>'
    ensures pos <= |t| && TokenEnd(t, pos) == pos + |s|
    decreases |s|
  {
    if s != [] {
      assert s[0] in s && forall c :: c in s[1..] ==> c in s;
      TokenUpTo(t, pos + 1, s[1..]);
    }
  }

  lemma {:induction false} TokenIdParts(vocab: Vocabulary, t: string, pos: nat, id: nat, q: nat)
    requires pos + 2 <= |t| && At(t, pos) == '<' && At(t, pos + 1) == '['
    requires ReadInt(t, pos + 2) == Good(id, q) && id < TOKEN_IDS && At(t, q) == ']' && At(t, q + 1) == '>'
    ensures ReadToken(vocab, t, pos) == Good(id, q + 2)
  {}

  lemma {:induction false} TokenIdLayout(t: string, pos: nat, digits: string, q: nat)
    requires Has(t, pos, "<[" + (digits + "]>")) && q == pos + 2 + |digits|
    ensures pos + 2 <= |t| && At(t, pos) == '<' && At(t, pos + 1) == '[' && Has(t, pos + 2, digits)
    ensures At(t, q) == ']' && At(t, q + 1) == '>'
  {
    HasTwo(t, pos, '<', '[', digits + "]>");
    HasBoth(t, pos + 2, digits, "]>");
    assert "]>" == [']', '>'] + "";
    HasTwo(t, q, ']', '>', "");
  }

  lemma {:induction false} ReadsTokenId(vocab: Vocabulary, t: string, pos: nat, digits: string)
    requires TokenOk(vocab, ById(digits)) && Has(t, pos, "<[" + (digits + "]>"))
    ensures pos < |t| && At(t, pos) == '<' && ReadToken(vocab, t, pos) == Good(ValueOf(digits), pos + |digits| + 4)
  {
    var q := pos + 2 + |digits|;
    TokenIdLayout(t, pos, digits, q);
    ReadsNumber(t, pos + 2, digits);
    TokenIdParts(vocab, t, pos, ValueOf(digits), q);
  }

  lemma {:induction false} TokenTextLayout(t: string, pos: nat, text: string, q: nat)
    requires Has(t, pos, "<" + (text + ">")) && q == pos + 1 + |text|
    ensures pos < |t| && At(t, pos) == '<' && Has(t, pos + 1, text)
    ensures q < |t| && At(t, q) == '>' && t[pos..q + 1] == "<" + (text + ">")
  {
    HasInside(t, pos, "<" + (text + ">"));
    HasChar(t, pos, '<', text + ">");
    HasBoth(t, pos + 1, text, ">");
    HasAt(t, q, ">", 0);
  }

  lemma {:induction false} ReadsTokenText(vocab: Vocabulary, t: string, pos: nat, text: string)
    requires TokenOk(vocab, ByText(text)) && Has(t, pos, "<" + (text + ">"))
    ensures pos < |t| && At(t, pos) == '<'
    ensures ReadToken(vocab, t, pos) == Good(TokenMeaning(vocab, ByText(text)), pos + |text| + 2)
  {
    TokenTextLayout(t, pos, text, pos + 1 + |text|);
    AtFirst(t, pos + 1, text);
    TokenUpTo(t, pos + 1, text);
  }

  // parse_token reads both forms of a token.
  lemma {:induction false} ReadsToken(vocab: Vocabulary, t: string, pos: nat, token: SToken)
    requires TokenOk(vocab, token) && Has(t, pos, TokenText(token))
    ensures pos < |t| && At(t, pos) == '<'
    ensures ReadToken(vocab, t, pos) == Good(TokenMeaning(vocab, token), pos + |TokenText(token)|)
  {
    match token
    case ById(digits) => ReadsTokenId(vocab, t, pos, digits);
    case ByText(text) => ReadsTokenText(vocab, t, pos, text);
  }

  lemma {:induction false} NameUpTo(t: string, pos: nat, s: string)
    requires Has(t, pos, s) && IsName(s) && !IsWordChar(At(t, pos + |s|))
    ensures pos <= |t| && NameEnd(t, pos) == pos + |s|
    decreases |s|
  {
    if s != [] {
      assert IsName(s[1..]);
      NameUpTo(t, pos + 1, s[1..]);
    }
  }

  // ---------- repetition marks ----------

  // A gap and the text behind it.
  lemma {:induction false} ReadsGapBefore(t: string, pos: nat, g: string, newlines: bool, tail: string, p: nat)
    requires Has(t, pos, g + tail) && tail != "" && GapOk(g, newlines, tail[0]) && p == pos + |g|
    ensures pos <= p < |t| && SkipSpace(t, pos, newlines) == p && At(t, p) == tail[0] && Has(t, p, tail)
  {
    HasBoth(t, pos, g, tail);
    AtFirst(t, p, tail);
    SkipsGap(t, pos, g, newlines, p);
  }

  // A number, the gap behind it, and the text behind that.
  lemma {:induction false} ReadsNumberAndGap(t: string, pos: nat, n: string, g: string, newlines: bool, tail: string,
                                             e: nat, u: nat)
    requires Has(t, pos, n + (g + tail)) && e == pos + |n| && u == e + |g|
    requires IsNumber(n) && tail != "" && GapOk(g, newlines, tail[0]) && !IsDigit(tail[0])
    ensures pos < |t| && IsDigit(At(t, pos)) && ReadInt(t, pos) == Good(ValueOf(n), e) && pos <= e <= u < |t|
    ensures SkipSpace(t, e, newlines) == u && At(t, u) == tail[0] && Has(t, u, tail)
  {
    HasBoth(t, pos, n, g + tail);
    ReadsGapBefore(t, e, g, newlines, tail, u);
    GapStart(g, newlines, tail[0]);
    HasBoth(t, e, g, tail);
    AtFirst(t, e, g);
    ReadsNumber(t, pos, n);
  }

  // The brace, the lower bound and what stands behind it.
  lemma {:induction false} ReadsLower(t: string, pos: nat, g1: string, n: string, g2: string, nested: bool, tail: string,
                                      u: nat)
    requires Has(t, pos, "{" + (g1 + (n + (g2 + tail)))) && u == pos + 1 + |g1| + |n| + |g2| && tail != ""
    requires IsNumber(n) && GapOk(g1, nested, n[0]) && GapOk(g2, nested, tail[0]) && !IsDigit(tail[0])
    ensures pos < |t| && At(t, pos) == '{' && u < |t| && Has(t, u, tail)
    ensures ReadMark(t, pos, nested) == ReadUpper(t, u, nested, ValueOf(n))
  {
    var p := pos + 1 + |g1|;
    OpenBrace(t, pos, g1, nested, n + (g2 + tail), p);
    ReadsNumberAndGap(t, p, n, g2, nested, tail, p + |n|, u);
    MarkParts(t, pos, nested, p, ValueOf(n), p + |n|, u);
  }

  lemma {:induction false} OpenBrace(t: string, pos: nat, g1: string, nested: bool, tail: string, p: nat)
    requires Has(t, pos, "{" + (g1 + tail)) && tail != "" && GapOk(g1, nested, tail[0]) && p == pos + 1 + |g1|
    ensures pos < p < |t| && At(t, pos) == '{' && SkipSpace(t, pos + 1, nested) == p && Has(t, p, tail)
  {
    HasChar(t, pos, '{', g1 + tail);
    ReadsGapBefore(t, pos + 1, g1, nested, tail, p);
  }

  lemma {:induction false} MarkParts(t: string, pos: nat, nested: bool, p: nat, min: nat, e: nat, u: nat)
    requires pos < |t| && At(t, pos) == '{' && SkipSpace(t, pos + 1, nested) == p && ReadInt(t, p) == Good(min, e)
    requires SkipSpace(t, e, nested) == u
    ensures ReadMark(t, pos, nested) == ReadUpper(t, u, nested, min)
  {}

  lemma {:induction false} UpperGiven(t: string, u: nat, nested: bool, min: nat, p: nat, max: nat, e: nat, q: nat, end: nat)
    requires u < |t| && At(t, u) == ',' && SkipSpace(t, u + 1, nested) == p && IsDigit(At(t, p))
    requires ReadInt(t, p) == Good(max, e) && SkipSpace(t, e, nested) == q < |t| && At(t, q) == '}'
    requires SkipSpace(t, q + 1, nested) == end
    ensures ReadUpper(t, u, nested, min) == Good(Bounds(min, Some(max)), end)
  {}

  lemma {:induction false} UpperOpen(t: string, u: nat, nested: bool, min: nat, p: nat, end: nat)
    requires u < |t| && At(t, u) == ',' && SkipSpace(t, u + 1, nested) == p < |t| && At(t, p) == '}'
    requires SkipSpace(t, p + 1, nested) == end
    ensures ReadUpper(t, u, nested, min) == Good(Bounds(min, None), end)
  {}

  lemma {:induction false} UpperSame(t: string, u: nat, nested: bool, min: nat, end: nat)
    requires u < |t| && At(t, u) == '}' && SkipSpace(t, u + 1, nested) == end
    ensures ReadUpper(t, u, nested, min) == Good(Bounds(min, Some(min)), end)
  {}

  lemma {:induction false} ReadsExactly(t: string, pos: nat, g1: string, n: string, g2: string, gap: string, nested: bool,
                                        end: nat)
    requires Has(t, pos, "{" + (g1 + (n + (g2 + ("}" + gap))))) && end == pos + 2 + |g1| + |n| + |g2| + |gap|
    requires IsNumber(n) && GapOk(g1, nested, n[0]) && GapOk(g2, nested, '}') && GapOk(gap, nested, At(t, end))
    ensures pos < |t| && At(t, pos) == '{'
    ensures ReadMark(t, pos, nested) == Good(Bounds(ValueOf(n), Some(ValueOf(n))), end)
  {
    var u := pos + 1 + |g1| + |n| + |g2|;
    ReadsLower(t, pos, g1, n, g2, nested, "}" + gap, u);
    HasChar(t, u, '}', gap);
    SkipsGap(t, u + 1, gap, nested, end);
    UpperSame(t, u, nested, ValueOf(n), end);
  }

  lemma {:induction false} ReadsAtLeast(t: string, pos: nat, g1: string, n: string, g2: string, g3: string, gap: string,
                                        nested: bool, end: nat)
    requires Has(t, pos, "{" + (g1 + (n + (g2 + ("," + (g3 + ("}" + gap)))))))
    requires end == pos + 3 + |g1| + |n| + |g2| + |g3| + |gap|
    requires IsNumber(n) && GapOk(g1, nested, n[0]) && GapOk(g2, nested, ',') && GapOk(g3, nested, '}')
    requires GapOk(gap, nested, At(t, end))
    ensures pos < |t| && At(t, pos) == '{' && ReadMark(t, pos, nested) == Good(Bounds(ValueOf(n), None), end)
  {
    var u := pos + 1 + |g1| + |n| + |g2|;
    ReadsLower(t, pos, g1, n, g2, nested, "," + (g3 + ("}" + gap)), u);
    HasChar(t, u, ',', g3 + ("}" + gap));
    var p := u + 1 + |g3|;
    ReadsGapBefore(t, u + 1, g3, nested, "}" + gap, p);
    HasChar(t, p, '}', gap);
    SkipsGap(t, p + 1, gap, nested, end);
    UpperOpen(t, u, nested, ValueOf(n), p, end);
  }

  // From the comma on.
  lemma {:induction false} ReadsBound(t: string, u: nat, g3: string, m: string, g4: string, gap: string, nested: bool,
                                      min: nat, end: nat)
    requires u < |t| && At(t, u) == ',' && Has(t, u + 1, g3 + (m + (g4 + ("}" + gap))))
    requires IsNumber(m) && GapOk(g3, nested, m[0]) && GapOk(g4, nested, '}') && GapOk(gap, nested, At(t, end))
    requires end == u + 2 + |g3| + |m| + |g4| + |gap|
    ensures ReadUpper(t, u, nested, min) == Good(Bounds(min, Some(ValueOf(m))), end)
  {
    var p := u + 1 + |g3|;
    var e := p + |m|;
    var q := e + |g4|;
    ReadsGapBefore(t, u + 1, g3, nested, m + (g4 + ("}" + gap)), p);
    ReadsNumberAndGap(t, p, m, g4, nested, "}" + gap, e, q);
    HasChar(t, q, '}', gap);
    SkipsGap(t, q + 1, gap, nested, end);
    UpperGiven(t, u, nested, min, p, ValueOf(m), e, q, end);
  }

  lemma {:induction false} ReadsBetween(t: string, pos: nat, g1: string, n: string, g2: string, g3: string, m: string,
                                        g4: string,
                     gap: string, nested: bool, end: nat)
    requires Has(t, pos, "{" + (g1 + (n + (g2 + ("," + (g3 + (m + (g4 + ("}" + gap)))))))))
    requires end == pos + 3 + |g1| + |n| + |g2| + |g3| + |m| + |g4| + |gap|
    requires IsNumber(n) && GapOk(g1, nested, n[0]) && GapOk(g2, nested, ',')
    requires IsNumber(m) && GapOk(g3, nested, m[0]) && GapOk(g4, nested, '}') && GapOk(gap, nested, At(t, end))
    ensures pos < |t| && At(t, pos) == '{'
    ensures ReadMark(t, pos, nested) == Good(Bounds(ValueOf(n), Some(ValueOf(m))), end)
  {
    var u := pos + 1 + |g1| + |n| + |g2|;
    ReadsLower(t, pos, g1, n, g2, nested, "," + (g3 + (m + (g4 + ("}" + gap)))), u);
    HasChar(t, u, ',', g3 + (m + (g4 + ("}" + gap))));
    ReadsBound(t, u, g3, m, g4, gap, nested, ValueOf(n), end);
  }

  /**
   Every mark is read with the bounds it means, and the gap behind it: none or more for a star, one or more for a
   plus, none or one for a question mark, and what the numbers in braces say.
   */
  lemma {:induction false} ReadsMark(t: string, pos: nat, mark: SMark, nested: bool, end: nat)
    requires Has(t, pos, MarkText(mark)) && end == pos + |MarkText(mark)| && MarkOk(mark, nested, At(t, end))
    ensures pos < |t| && IsMark(At(t, pos)) && ReadMark(t, pos, nested) == Good(MarkMeaning(mark), end)
  {
    match mark
    case Star(gap) =>
      HasChar(t, pos, '*', gap);
      SkipsGap(t, pos + 1, gap, nested, end);
    case Plus(gap) =>
      HasChar(t, pos, '+', gap);
      SkipsGap(t, pos + 1, gap, nested, end);
    case Maybe(gap) =>
      HasChar(t, pos, '?', gap);
      SkipsGap(t, pos + 1, gap, nested, end);
    case Exactly(g1, n, g2, gap) => ReadsExactly(t, pos, g1, n, g2, gap, nested, end);
    case AtLeast(g1, n, g2, g3, gap) => ReadsAtLeast(t, pos, g1, n, g2, g3, gap, nested, end);
    case Between(g1, n, g2, g3, m, g4, gap) => ReadsBetween(t, pos, g1, n, g2, g3, m, g4, gap, nested, end);
  }

  // ---------- items, sequences, alternates ----------

  lemma {:induction false} LiteralParts(vocab: Vocabulary, t: string, pos: nat, nested: bool, chars: seq<nat>, q: nat,
                                        end: nat)
    requires pos < |t| && At(t, pos) == '"' && ReadLiteral(t, pos + 1) == Good(chars, q) && SkipSpace(t, q, nested) == end
    ensures ReadAtom(vocab, t, pos, nested) == Good(Literal(chars), end)
  {}

  // A text in quotes from pos to q, and the gap behind it.
  lemma {:induction false} QuoteLayout(t: string, pos: nat, s: string, gap: string, nested: bool, q: nat, end: nat)
    requires Has(t, pos, "\"" + (s + ("\"" + gap))) && q == pos + 1 + |s| && end == q + 1 + |gap|
    requires GapOk(gap, nested, At(t, end))
    ensures pos < q < end <= |t| && At(t, pos) == '"' && Has(t, pos + 1, s) && At(t, q) == '"'
    ensures SkipSpace(t, q + 1, nested) == end
  {
    HasChar(t, pos, '"', s + ("\"" + gap));
    HasBoth(t, pos + 1, s, "\"" + gap);
    HasChar(t, q, '"', gap);
    SkipsGap(t, q + 1, gap, nested, end);
  }

  lemma {:induction false} ReadsLiteral(vocab: Vocabulary, t: string, pos: nat, chars: seq<SChar>, gap: string,
                                        nested: bool, end: nat)
    requires CharsOk(chars) && Has(t, pos, "\"" + (CharsText(chars) + ("\"" + gap)))
    requires end == pos + 2 + |CharsText(chars)| + |gap| && GapOk(gap, nested, At(t, end))
    ensures pos < |t| && At(t, pos) == '"' && ReadAtom(vocab, t, pos, nested) == Good(Literal(CharsMeaning(chars)), end)
  {
    var q := pos + 1 + |CharsText(chars)|;
    QuoteLayout(t, pos, CharsText(chars), gap, nested, q, end);
    ReadsChars(t, pos + 1, chars, q);
    LiteralParts(vocab, t, pos, nested, CharsMeaning(chars), q + 1, end);
  }

  // Where the items of a class begin, and whether it is negated.
  lemma {:induction false} ClassLayout(t: string, pos: nat, negated: bool, items: seq<SClassItem>, gap: string, p: nat,
                                       q: nat)
    requires Has(t, pos, (if negated then "[^" else "[") + (ClassText(items) + ("]" + gap)))
    requires p == (if negated then pos + 2 else pos + 1) && q == p + |ClassText(items)| + 1
    requires !negated ==> First(ClassText(items), ']') != '^'
    ensures p <= |t| && At(t, pos) == '[' && Has(t, p, ClassText(items) + "]") && Has(t, q, gap)
    ensures (At(t, pos + 1) == '^') == negated
  {
    var rest := ClassText(items) + ("]" + gap);
    if negated { HasTwo(t, pos, '[', '^', rest); } else { HasChar(t, pos, '[', rest); }
    Associate(ClassText(items), "]", gap);
    HasBoth(t, p, ClassText(items) + "]", gap);
    AtFirst(t, p, ClassText(items) + "]");
  }

  lemma {:induction false} ClassParts(vocab: Vocabulary, t: string, pos: nat, nested: bool, negated: bool, p: nat,
                                      items: seq<ClassItem>, q: nat, end: nat)
    requires pos < |t| && At(t, pos) == '[' && (At(t, pos + 1) == '^') == negated
    requires p == (if negated then pos + 2 else pos + 1) && p <= |t| && ReadClass(t, p) == Good(items, q)
    requires SkipSpace(t, q, nested) == end
    ensures ReadAtom(vocab, t, pos, nested) == Good(CharClass(negated, items), end)
  {}

  lemma {:induction false} ReadsClassAtom(vocab: Vocabulary, t: string, pos: nat, negated: bool, items: seq<SClassItem>,
                                          gap: string, nested: bool, p: nat, q: nat, end: nat)
    requires ClassOk(items) && Has(t, pos, (if negated then "[^" else "[") + (ClassText(items) + ("]" + gap)))
    requires p == (if negated then pos + 2 else pos + 1) && q == p + |ClassText(items)| + 1 && end == q + |gap|
    requires (!negated ==> First(ClassText(items), ']') != '^') && GapOk(gap, nested, At(t, end))
    ensures pos < |t| && At(t, pos) == '['
    ensures ReadAtom(vocab, t, pos, nested) == Good(CharClass(negated, ClassMeaning(items)), end)
  {
    ClassLayout(t, pos, negated, items, gap, p, q);
    ReadsClass(t, p, items);
    SkipsGap(t, q, gap, nested, end);
    ClassParts(vocab, t, pos, nested, negated, p, ClassMeaning(items), q, end);
  }

  lemma {:induction false} ReadsTokenAtom(vocab: Vocabulary, t: string, pos: nat, x: SItem, nested: bool, end: nat)
    requires x.STokenItem? && Has(t, pos, ItemText(x)) && end == pos + |ItemText(x)| && ItemOk(vocab, x, nested, At(t, end))
    ensures pos < |t| && At(t, pos) == (if x.negated then '!' else '<')
    ensures ReadAtom(vocab, t, pos, nested) == Good(ItemMeaning(vocab, x), end)
  {
    var p := if x.negated then pos + 1 else pos;
    var rest := TokenText(x.token) + x.gap;
    if x.negated { HasChar(t, pos, '!', rest); } else { assert "" + rest == rest; }
    HasBoth(t, p, TokenText(x.token), x.gap);
    ReadsToken(vocab, t, p, x.token);
    SkipsGap(t, p + |TokenText(x.token)|, x.gap, nested, end);
  }

  lemma {:induction false} ReadsName(vocab: Vocabulary, t: string, pos: nat, name: string, gap: string, nested: bool,
                                     end: nat)
    requires Has(t, pos, name + gap) && end == pos + |name| + |gap| && GapOk(gap, nested, At(t, end))
    requires name != "" && IsName(name) && !IsWordChar(First(gap, At(t, end)))
    ensures pos < |t| && IsWordChar(At(t, pos)) && ReadAtom(vocab, t, pos, nested) == Good(Item.Name(name), end)
  {
    var p := pos + |name|;
    HasBoth(t, pos, name, gap);
    HasInside(t, pos, name);
    AtFirst(t, pos, name);
    AtFirst(t, p, gap);
    NameUpTo(t, pos, name);
    SkipsGap(t, p, gap, nested, end);
  }

  // Items without marks and brackets.
  lemma {:induction false} ReadsAtom(vocab: Vocabulary, t: string, pos: nat, x: SItem, nested: bool, end: nat)
    requires !x.SRepeat? && !x.SGroup? && Has(t, pos, ItemText(x)) && end == pos + |ItemText(x)|
    requires ItemOk(vocab, x, nested, At(t, end))
    ensures pos < |t| && StartsAtom(At(t, pos)) && ReadAtom(vocab, t, pos, nested) == Good(ItemMeaning(vocab, x), end)
  {
    match x
    case SLiteral(chars, gap) => ReadsLiteral(vocab, t, pos, chars, gap, nested, end);
    case SClass(negated, items, gap) =>
      var p := if negated then pos + 2 else pos + 1;
      ReadsClassAtom(vocab, t, pos, negated, items, gap, nested, p, p + |ClassText(items)| + 1, end);
    case SDot(gap) =>
      HasChar(t, pos, '.', gap);
      SkipsGap(t, pos + 1, gap, nested, end);
    case STokenItem(_, _, _) => ReadsTokenAtom(vocab, t, pos, x, nested, end);
    case SName(name, gap) => ReadsName(vocab, t, pos, name, gap, nested, end);
  }

  lemma {:induction false} SeqOfAtom(vocab: Vocabulary, t: string, pos: nat, nested: bool, item: Item, p: nat)
    requires pos <= |t| && StartsAtom(At(t, pos)) && ReadAtom(vocab, t, pos, nested) == Good(item, p)
    ensures p <= |t| && ReadSeq(vocab, t, pos, nested) == ReadMore(vocab, t, p, nested, item)
  {}

  lemma {:induction false} MoreOfMark(vocab: Vocabulary, t: string, pos: nat, nested: bool, x: Item, b: Bounds, p: nat)
    requires pos <= |t| && IsMark(At(t, pos)) && ReadMark(t, pos, nested) == Good(b, p)
    ensures p <= |t| && ReadMore(vocab, t, pos, nested, x) == ReadMore(vocab, t, p, nested, Repeat(x, b.min, b.max))
  {}

  lemma {:induction false} SeqOfItem(vocab: Vocabulary, t: string, pos: nat, nested: bool, item: Item, p: nat, rest: Items,
                                     end: nat)
    requires pos <= |t| && p <= |t| && ReadSeq(vocab, t, pos, nested) == ReadMore(vocab, t, p, nested, item)
    requires !IsMark(At(t, p)) && ReadSeq(vocab, t, p, nested) == Good(rest, end)
    ensures ReadSeq(vocab, t, pos, nested) == Good(MoreItems(item, rest), end)
  {}

  lemma {:induction false} AltsOfSeq(vocab: Vocabulary, t: string, pos: nat, nested: bool, first: Items, p: nat, rest: Alts,
                                     end: nat)
    requires pos <= |t| && p < |t| && ReadSeq(vocab, t, pos, nested) == Good(first, p) && At(t, p) == '|'
    requires ReadAlts(vocab, t, SkipSpace(t, p + 1, true), nested) == Good(rest, end)
    ensures ReadAlts(vocab, t, pos, nested) == Good(MoreAlts(first, rest), end)
  {}

  // Neither a mark nor an item begins with c, so a sequence ends there.
  predicate Ends(c: char) {
    !IsMark(c) && !StartsAtom(c)
  }

  // The brackets of a group: its alternates are from p to q.
  lemma {:induction false} GroupLayout(t: string, pos: nat, open: string, alts: SAlts, gap: string, nested: bool, p: nat,
                                       q: nat, end: nat)
    requires Has(t, pos, "(" + (open + (AltsText(alts) + (")" + gap)))) && GapOk(open, true, First(AltsText(alts), ')'))
    requires p == pos + 1 + |open| && q == p + |AltsText(alts)| && end == q + 1 + |gap| && GapOk(gap, nested, At(t, end))
    ensures pos < |t| && At(t, pos) == '(' && SkipSpace(t, pos + 1, true) == p <= q < end <= |t| && Has(t, p, AltsText(alts))
    ensures At(t, q) == ')' && SkipSpace(t, q + 1, nested) == end
  {
    var tail := AltsText(alts) + (")" + gap);
    HasChar(t, pos, '(', open + tail);
    ReadsGapBefore(t, pos + 1, open, true, tail, p);
    HasBoth(t, p, AltsText(alts), ")" + gap);
    HasChar(t, q, ')', gap);
    SkipsGap(t, q + 1, gap, nested, end);
  }

  lemma {:induction false} ReadsGroup(vocab: Vocabulary, t: string, pos: nat, x: SItem, nested: bool, end: nat)
    requires x.SGroup? && Has(t, pos, ItemText(x)) && end == pos + |ItemText(x)| && ItemOk(vocab, x, nested, At(t, end))
    ensures pos < |t| && At(t, pos) == '(' && ReadAtom(vocab, t, pos, nested) == Good(ItemMeaning(vocab, x), end)
    decreases x, 0
  {
    var p := pos + 1 + |x.open|;
    var q := p + |AltsText(x.alts)|;
    GroupLayout(t, pos, x.open, x.alts, x.gap, nested, p, q, end);
    ReadsAlts(vocab, t, p, x.alts, true, q);
  }

  // The mark behind an item that has been read.
  lemma {:induction false} ReadsMarked(vocab: Vocabulary, t: string, pos: nat, x: Item, p: nat, mark: SMark, nested: bool,
                                       end: nat)
    requires pos <= |t| && p <= |t| && ReadSeq(vocab, t, pos, nested) == ReadMore(vocab, t, p, nested, x)
    requires Has(t, p, MarkText(mark)) && end == p + |MarkText(mark)| && MarkOk(mark, nested, At(t, end))
    ensures var b := MarkMeaning(mark);
      end <= |t| && ReadSeq(vocab, t, pos, nested) == ReadMore(vocab, t, end, nested, Repeat(x, b.min, b.max))
  {
    ReadsMark(t, p, mark, nested, end);
    MoreOfMark(vocab, t, p, nested, x, MarkMeaning(mark), end);
  }

  // An item with its marks is read, and reading goes on behind it.
  lemma {:induction false} ReadsItem(vocab: Vocabulary, t: string, pos: nat, x: SItem, nested: bool, end: nat)
    requires Has(t, pos, ItemText(x)) && end == pos + |ItemText(x)| && ItemOk(vocab, x, nested, At(t, end))
    ensures pos < |t| && end <= |t| && StartsAtom(At(t, pos))
    ensures ReadSeq(vocab, t, pos, nested) == ReadMore(vocab, t, end, nested, ItemMeaning(vocab, x))
    decreases x, 1
  {
    if x.SRepeat? {
      var p := pos + |ItemText(x.item)|;
      HasBoth(t, pos, ItemText(x.item), MarkText(x.mark));
      AtFirst(t, p, MarkText(x.mark));
      ReadsItem(vocab, t, pos, x.item, nested, p);
      ReadsMarked(vocab, t, pos, ItemMeaning(vocab, x.item), p, x.mark, nested, end);
    } else {
      if x.SGroup? { ReadsGroup(vocab, t, pos, x, nested, end); } else { ReadsAtom(vocab, t, pos, x, nested, end); }
      SeqOfAtom(vocab, t, pos, nested, ItemMeaning(vocab, x), end);
    }
  }

  lemma {:induction false} ReadsItems(vocab: Vocabulary, t: string, pos: nat, xs: SItems, nested: bool, end: nat)
    requires Has(t, pos, ItemsText(xs)) && end == pos + |ItemsText(xs)| && ItemsOk(vocab, xs, nested, At(t, end)) && Ends(At(t, end))
    ensures pos <= |t| && !IsMark(At(t, pos)) && ReadSeq(vocab, t, pos, nested) == Good(ItemsMeaning(vocab, xs), end)
    decreases xs
  {
    if xs.SMoreItems? {
      var p := pos + |ItemText(xs.head)|;
      HasBoth(t, pos, ItemText(xs.head), ItemsText(xs.tail));
      AtFirst(t, p, ItemsText(xs.tail));
      ReadsItem(vocab, t, pos, xs.head, nested, p);
      ReadsItems(vocab, t, p, xs.tail, nested, end);
      SeqOfItem(vocab, t, pos, nested, ItemMeaning(vocab, xs.head), p, ItemsMeaning(vocab, xs.tail), end);
    }
  }

  // The bar between two alternates, and the gap behind it up to r.
  lemma {:induction false} BarLayout(t: string, p: nat, gap: string, rest: string, r: nat, end: nat)
    requires Has(t, p, "|" + (gap + rest)) && r == p + 1 + |gap| && end == r + |rest| && GapOk(gap, true, First(rest, At(t, end)))
    ensures p < r <= |t| && At(t, p) == '|' && SkipSpace(t, p + 1, true) == r && Has(t, r, rest)
  {
    HasChar(t, p, '|', gap + rest);
    HasBoth(t, p + 1, gap, rest);
    AtFirst(t, r, rest);
    SkipsGap(t, p + 1, gap, true, r);
  }

  lemma {:induction false} ReadsAlts(vocab: Vocabulary, t: string, pos: nat, alts: SAlts, nested: bool, end: nat)
    requires Has(t, pos, AltsText(alts)) && end == pos + |AltsText(alts)| && AltsOk(vocab, alts, nested, At(t, end))
    requires Ends(At(t, end)) && At(t, end) != '|'
    ensures pos <= |t| && ReadAlts(vocab, t, pos, nested) == Good(AltsMeaning(vocab, alts), end)
    decreases alts
  {
    match alts
    case SLastAlt(only) => ReadsItems(vocab, t, pos, only, nested, end);
    case SMoreAlts(first, gap, rest) =>
      var p := pos + |ItemsText(first)|;
      var r := p + 1 + |gap|;
      HasBoth(t, pos, ItemsText(first), "|" + (gap + AltsText(rest)));
      BarLayout(t, p, gap, AltsText(rest), r, end);
      ReadsItems(vocab, t, pos, first, nested, p);
      ReadsAlts(vocab, t, r, rest, nested, end);
      AltsOfSeq(vocab, t, pos, nested, ItemsMeaning(vocab, first), p, AltsMeaning(vocab, rest), end);
  }

  // ---------- whole texts ----------

  // The end of a line, and the gap behind it.
  lemma {:induction false} ReadsEnd(t: string, pos: nat, e: string, gap: string, p: nat, end: nat)
    requires Has(t, pos, e + gap) && p == pos + |e| && end == p + |gap| && EndOk(e, gap, At(t, end)) && GapOk(gap, true, At(t, end))
    ensures pos <= |t| && Ends(At(t, pos)) && At(t, pos) != '|' && ReadEnd(t, pos) == Good((), end)
  {
    HasBoth(t, pos, e, gap);
    SkipsGap(t, p, gap, true, end);
    AtFirst(t, p, gap);
    AtFirst(t, pos, e);
    if e == "\r\n" { HasAt(t, pos, e, 1); }
  }

  // The name of a rule and the sign behind it, with its gaps; the alternates begin at p.
  lemma {:induction false} ReadsSign(t: string, pos: nat, name: string, g1: string, g2: string, tail: string, e: nat, p: nat)
    requires Has(t, pos, name + (g1 + ("::=" + (g2 + tail)))) && name != "" && IsName(name) && GapOk(g1, false, ':')
    requires e == pos + |name| + |g1| && p == e + 3 + |g2| && GapOk(g2, true, First(tail, At(t, p + |tail|)))
    ensures pos < e && p <= |t| && IsWordChar(At(t, pos)) && NameEnd(t, pos) == pos + |name| && t[pos..pos + |name|] == name
    ensures SkipSpace(t, pos + |name|, false) == e && At(t, e) == ':' && At(t, e + 1) == ':' && At(t, e + 2) == '='
    ensures e + 3 <= |t| && SkipSpace(t, e + 3, true) == p && Has(t, p, tail)
  {
    var n := pos + |name|;
    HasBoth(t, pos, name, g1 + ("::=" + (g2 + tail)));
    HasInside(t, pos, name);
    AtFirst(t, pos, name);
    ReadsGapBefore(t, n, g1, false, "::=" + (g2 + tail), e);
    HasBoth(t, n, g1, "::=" + (g2 + tail));
    AtFirst(t, n, g1);
    GapStart(g1, false, ':');
    NameUpTo(t, pos, name);
    HasBoth(t, e, "::=", g2 + tail);
    HasAt(t, e, "::=", 1);
    HasAt(t, e, "::=", 2);
    HasBoth(t, e + 3, g2, tail);
    AtFirst(t, p, tail);
    SkipsGap(t, e + 3, g2, true, p);
  }

  lemma {:induction false} RuleParts(vocab: Vocabulary, t: string, pos: nat, name: string, e: nat, p: nat, alts: Alts,
                                     q: nat, end: nat)
    requires pos <= |t| && pos < NameEnd(t, pos) && t[pos..NameEnd(t, pos)] == name && SkipSpace(t, NameEnd(t, pos), false) == e
    requires At(t, e) == ':' && At(t, e + 1) == ':' && At(t, e + 2) == '=' && SkipSpace(t, e + 3, true) == p
    requires ReadAlts(vocab, t, p, false) == Good(alts, q) && ReadEnd(t, q) == Good((), end)
    ensures ReadRule(vocab, t, pos) == Good(Definition(name, alts), end)
  {}

  // The alternates of a rule and the end of its line.
  lemma {:induction false} ReadsBody(vocab: Vocabulary, t: string, p: nat, alts: SAlts, e: string, gap: string, q: nat,
                                     end: nat)
    requires Has(t, p, AltsText(alts) + (e + gap)) && q == p + |AltsText(alts)| && end == q + |e| + |gap|
    requires AltsOk(vocab, alts, false, First(e + gap, At(t, end))) && EndOk(e, gap, At(t, end)) && GapOk(gap, true, At(t, end))
    ensures p <= |t| && ReadAlts(vocab, t, p, false) == Good(AltsMeaning(vocab, alts), q) && ReadEnd(t, q) == Good((), end)
  {
    HasBoth(t, p, AltsText(alts), e + gap);
    AtFirst(t, q, e + gap);
    ReadsEnd(t, q, e, gap, q + |e|, end);
    ReadsAlts(vocab, t, p, alts, false, q);
  }

  lemma {:induction false} ReadsRuleOf(vocab: Vocabulary, t: string, pos: nat, name: string, g1: string, g2: string,
                                       alts: SAlts,
                                       e: string, gap: string, sign: nat, p: nat, q: nat, end: nat)
    requires Has(t, pos, name + (g1 + ("::=" + (g2 + (AltsText(alts) + (e + gap)))))) && end <= |t|
    requires sign == pos + |name| + |g1| && p == sign + 3 + |g2| && q == p + |AltsText(alts)| && end == q + |e| + |gap|
    requires name != "" && IsName(name) && GapOk(g1, false, ':') && EndOk(e, gap, At(t, end)) && GapOk(gap, true, At(t, end))
    requires var stop := First(e + gap, At(t, end)); GapOk(g2, true, First(AltsText(alts), stop)) && AltsOk(vocab, alts, false, stop)
    ensures pos < |t| && IsWordChar(At(t, pos)) && ReadRule(vocab, t, pos) == Good(Definition(name, AltsMeaning(vocab, alts)), end)
  {
    var tail := AltsText(alts) + (e + gap);
    assert p + |tail| == end;
    ReadsSign(t, pos, name, g1, g2, tail, sign, p);
    ReadsBody(vocab, t, p, alts, e, gap, q, end);
    RuleParts(vocab, t, pos, name, sign, p, AltsMeaning(vocab, alts), q, end);
  }

  lemma {:induction false} ReadsRule(vocab: Vocabulary, t: string, pos: nat, d: SDef, end: nat)
    requires Has(t, pos, DefText(d)) && end == pos + |DefText(d)| && DefOk(vocab, d, At(t, end))
    ensures pos < |t| && end <= |t| && IsWordChar(At(t, pos)) && ReadRule(vocab, t, pos) == Good(DefMeaning(vocab, d), end)
  {
    var sign := pos + |d.name| + |d.beforeSign|;
    var p := sign + 3 + |d.afterSign|;
    HasInside(t, pos, DefText(d));
    ReadsRuleOf(vocab, t, pos, d.name, d.beforeSign, d.afterSign, d.alts, d.end, d.gap, sign, p, p + |AltsText(d.alts)|, end);
  }

  lemma {:induction false} ReadsRules(vocab: Vocabulary, t: string, pos: nat, defs: seq<SDef>, end: nat)
    requires Has(t, pos, DefsText(defs)) && end == pos + |DefsText(defs)| && DefsOk(vocab, defs) && At(t, end) == NUL
    ensures pos <= |t| && ReadRules(vocab, t, pos) == Good(DefsMeaning(vocab, defs), end)
    decreases |defs|
  {
    if defs != [] {
      var p := pos + |DefText(defs[0])|;
      HasBoth(t, pos, DefText(defs[0]), DefsText(defs[1..]));
      AtFirst(t, p, DefsText(defs[1..]));
      ReadsRule(vocab, t, pos, defs[0], p);
      ReadsRules(vocab, t, p, defs[1..], end);
    }
  }

  /**
   Every spelled grammar is read: the reader gets the definitions that it means, and stops where its text ends.
   */
  lemma {:induction false} ReadsText(vocab: Vocabulary, c: SText, t: string)
    requires TextOk(vocab, c) && Has(t, 0, TextOf(c)) && At(t, |TextOf(c)|) == NUL
    ensures ReadText(vocab, t) == Good(DefsMeaning(vocab, c.defs), |TextOf(c)|)
  {
    HasBoth(t, 0, c.gap, DefsText(c.defs));
    AtFirst(t, |c.gap|, DefsText(c.defs));
    SkipsGap(t, 0, c.gap, true, |c.gap|);
    ReadsRules(vocab, t, |c.gap|, c.defs, |TextOf(c)|);
  }
}
