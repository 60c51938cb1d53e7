/**
 The characters of a grammar text and the surface grammar they spell (the parse_* helpers and the
 recursive descent of llama-grammar.cpp), as functions from a position to what is read there.  A text is
 a sequence of bytes; past its end there is a NUL.
 */
module GbnfText {
  import opened Gbnf
  import opened Decimals
  import opened GbnfSymbols
  import opened GbnfCompile

  // Bad stands for an exception.
  datatype Read<T> = Bad | Good(v: T, pos: nat)

  const NUL: char := 0 as char

  function At(t: string, i: nat): char {
    if i < |t| then t[i] else NUL
  }

  predicate IsDigit(c: char) {
    '0' <= c <= '9'
  }

  // ---------- white space, names, numbers ----------

  // To the end of the line.
  function SkipLine(t: string, pos: nat): (r: nat)
    requires pos <= |t|
    ensures pos <= r <= |t|
    ensures At(t, pos) != NUL && At(t, pos) != '\r' && At(t, pos) != '\n' ==> pos < r
    decreases |t| - pos
  {
    if At(t, pos) == NUL || At(t, pos) == '\r' || At(t, pos) == '\n' then pos else SkipLine(t, pos + 1)
  }

  // parse_space: blanks and comments, and line ends if allowed.
  function SkipSpace(t: string, pos: nat, newlineOk: bool): (r: nat)
    requires pos <= |t|
    ensures pos <= r <= |t|
    decreases |t| - pos
  {
    var c := At(t, pos);
    if c == ' ' || c == '\t' || (newlineOk && (c == '\r' || c == '\n')) then SkipSpace(t, pos + 1, newlineOk)
    else if c == '#' then SkipSpace(t, SkipLine(t, pos), newlineOk)
    else pos
  }

  function NameEnd(t: string, pos: nat): (r: nat)
    requires pos <= |t|
    ensures pos <= r <= |t| && IsName(t[pos..r])
    ensures IsWordChar(At(t, pos)) ==> pos < r
    decreases |t| - pos
  {
    if pos < |t| && IsWordChar(t[pos]) then
      var r := NameEnd(t, pos + 1);
      assert t[pos..r] == [t[pos]] + t[pos + 1..r];
      r
    else pos
  }

  function DigitsEnd(t: string, pos: nat): (r: nat)
    requires pos <= |t|
    ensures pos <= r <= |t|
    ensures IsDigit(At(t, pos)) ==> pos < r
    decreases |t| - pos
  {
    if pos < |t| && IsDigit(t[pos]) then DigitsEnd(t, pos + 1) else pos
  }

  // parse_int and stoull: digits of a number below 2^64.
  function ReadInt(t: string, pos: nat): (r: Read<nat>)
    requires pos <= |t|
    ensures r.Good? ==> pos < r.pos <= |t| && r.v < WORD
  {
    var end := DigitsEnd(t, pos);
    if end == pos || ValueOf(t[pos..end]) >= WORD then Bad else Good(ValueOf(t[pos..end]), end)
  }

  // ---------- characters ----------

  function HexDigit(c: char): (r: Option<nat>)
    ensures r.Some? ==> r.value < 16 && c != NUL
  {
    if 'a' <= c <= 'f' then Some(c as nat - 'a' as nat + 10)
    else if 'A' <= c <= 'F' then Some(c as nat - 'A' as nat + 10)
    else if '0' <= c <= '9' then Some(c as nat - '0' as nat)
    else None
  }

  // parse_hex: exactly size digits.
  function ReadHex(t: string, pos: nat, size: nat, value: nat): (r: Read<nat>)
    requires pos <= |t|
    ensures r.Good? ==> r.pos == pos + size <= |t|
    decreases size
  {
    if size == 0 then Good(value, pos)
    else
      match HexDigit(At(t, pos))
      case None => Bad
      case Some(d) => ReadHex(t, pos + 1, size - 1, value * 16 + d)
  }

  function Utf8Len(first: nat): nat {
    if first / 16 < 12 then 1 else if first / 16 < 14 then 2 else if first / 16 == 14 then 3 else 4
  }

  function LeadValue(first: nat): nat {
    if Utf8Len(first) == 1 then first % 128
    else if Utf8Len(first) == 2 then first % 64
    else if Utf8Len(first) == 3 then first % 32
    else first % 16
  }

  // The bytes that follow, up to n, as long as there are any.
  function ReadTail(t: string, pos: nat, n: nat, value: nat): (r: Read<nat>)
    requires pos <= |t|
    ensures r.Good? && pos <= r.pos <= |t|
    decreases n
  {
    if n == 0 || At(t, pos) == NUL then Good(value, pos)
    else ReadTail(t, pos + 1, n - 1, value * 64 + t[pos] as nat % 64)
  }

  // decode_utf8 for one character of the text; bytes have codes below 256.
  function ReadUtf8(t: string, pos: nat): (r: Read<nat>)
    requires pos < |t|
    ensures r.Good? && pos < r.pos <= |t|
  {
    var first := t[pos] as nat % 256;
    ReadTail(t, pos + 1, Utf8Len(first) - 1, LeadValue(first))
  }

  // parse_char: an escape or a character.
  function ReadChar(t: string, pos: nat): (r: Read<nat>)
    requires pos <= |t|
    ensures r.Good? ==> pos < r.pos <= |t|
  {
    if At(t, pos) == '\\' then
      var c := At(t, pos + 1);
      if c == 'x' then ReadHex(t, pos + 2, 2, 0)
      else if c == 'u' then ReadHex(t, pos + 2, 4, 0)
      else if c == 'U' then ReadHex(t, pos + 2, 8, 0)
      else if c == 't' then Good('\t' as nat, pos + 2)
      else if c == 'r' then Good('\r' as nat, pos + 2)
      else if c == 'n' then Good('\n' as nat, pos + 2)
      else if c == '\\' || c == '"' || c == '[' || c == ']' || c == '-' then Good(c as nat, pos + 2)
      else Bad
    else if At(t, pos) != NUL then ReadUtf8(t, pos)
    else Bad
  }

  // ---------- terminals ----------

  // The characters of a literal and its closing quote.
  function ReadLiteral(t: string, pos: nat): (r: Read<seq<nat>>)
    requires pos <= |t|
    ensures r.Good? ==> pos < r.pos <= |t|
    decreases |t| - pos
  {
    if At(t, pos) == '"' then Good([], pos + 1)
    else if At(t, pos) == NUL then Bad
    else
      match ReadChar(t, pos)
      case Bad => Bad
      case Good(c, p) =>
        match ReadLiteral(t, p)
        case Bad => Bad
        case Good(rest, q) => Good([c] + rest, q)
  }

  // One item of a class: a character, or a range if a dash follows that does not end the class.
  function ReadClassItem(t: string, pos: nat): (r: Read<ClassItem>)
    requires pos <= |t|
    ensures r.Good? ==> pos < r.pos <= |t|
  {
    match ReadChar(t, pos)
    case Bad => Bad
    case Good(lo, p) =>
      if At(t, p) == '-' && At(t, p + 1) != ']' then
        if At(t, p + 1) == NUL then Bad
        else
          match ReadChar(t, p + 1)
          case Bad => Bad
          case Good(hi, q) => Good(Span(lo, hi), q)
      else Good(One(lo), p)
  }

  // The items of a class and its closing bracket.
  function ReadClass(t: string, pos: nat): (r: Read<seq<ClassItem>>)
    requires pos <= |t|
    ensures r.Good? ==> pos < r.pos <= |t|
    decreases |t| - pos
  {
    if At(t, pos) == ']' then Good([], pos + 1)
    else if At(t, pos) == NUL then Bad
    else
      match ReadClassItem(t, pos)
      case Bad => Bad
      case Good(item, p) =>
        match ReadClass(t, p)
        case Bad => Bad
        case Good(rest, q) => Good([item] + rest, q)
  }

  const TOKEN_IDS: nat := 0x1_0000_0000

  function TokenEnd(t: string, pos: nat): (r: nat)
    requires pos <= |t|
    ensures pos <= r <= |t|
    decreases |t| - pos
  {
    if At(t, pos) != NUL && At(t, pos) != '>' then TokenEnd(t, pos + 1) else pos
  }

  // parse_token: an id in brackets, or a text that the vocabulary knows as a single token.
  function ReadToken(vocab: string -> Option<nat>, t: string, pos: nat): (r: Read<nat>)
    requires pos <= |t|
    ensures r.Good? ==> pos < r.pos <= |t|
  {
    if At(t, pos) != '<' then Bad
    else if At(t, pos + 1) == '[' then
      match ReadInt(t, pos + 2)
      case Bad => Bad
      case Good(id, p) =>
        if id >= TOKEN_IDS || At(t, p) != ']' || At(t, p + 1) != '>' then Bad else Good(id, p + 2)
    else
      var end := TokenEnd(t, pos + 1);
      if At(t, end) != '>' then Bad
      else
        match vocab(t[pos..end + 1])
        case None => Bad
        case Some(id) => Good(id, end + 1)
  }

  // ---------- repetition marks ----------

  datatype Bounds = Bounds(min: nat, max: Option<nat>)

  predicate IsMark(c: char) {
    c == '*' || c == '+' || c == '?' || c == '{'
  }

  // What follows the lower bound: the closing brace, or a comma, perhaps an upper bound, and the brace.
  function ReadUpper(t: string, pos: nat, nested: bool, min: nat): (r: Read<Bounds>)
    requires pos <= |t|
    ensures r.Good? ==> pos < r.pos <= |t| && r.v.min == min
  {
    if At(t, pos) == '}' then Good(Bounds(min, Some(min)), SkipSpace(t, pos + 1, nested))
    else if At(t, pos) == ',' then
      var p := SkipSpace(t, pos + 1, nested);
      if IsDigit(At(t, p)) then
        match ReadInt(t, p)
        case Bad => Bad
        case Good(max, e) =>
          var q := SkipSpace(t, e, nested);
          if At(t, q) != '}' then Bad else Good(Bounds(min, Some(max)), SkipSpace(t, q + 1, nested))
      else if At(t, p) != '}' then Bad
      else Good(Bounds(min, None), SkipSpace(t, p + 1, nested))
    else Bad
  }

  // A mark, and the white space behind it.
  function ReadMark(t: string, pos: nat, nested: bool): (r: Read<Bounds>)
    requires pos <= |t| && IsMark(At(t, pos))
    ensures r.Good? ==> pos < r.pos <= |t| && r.v.min < WORD
  {
    var p := SkipSpace(t, pos + 1, nested);
    if At(t, pos) == '*' then Good(Bounds(0, None), p)
    else if At(t, pos) == '+' then Good(Bounds(1, None), p)
    else if At(t, pos) == '?' then Good(Bounds(0, Some(1)), p)
    else
      match ReadInt(t, p)
      case Bad => Bad
      case Good(min, e) => ReadUpper(t, SkipSpace(t, e, nested), nested, min)
  }

  // ---------- items, sequences, alternates ----------

  predicate StartsAtom(c: char) {
    c == '"' || c == '[' || c == '<' || c == '!' || IsWordChar(c) || c == '(' || c == '.'
  }

  function Then<A, B>(r: Read<A>, f: A -> B, t: string, nested: bool): (s: Read<B>)
    requires r.Good? ==> r.pos <= |t|
    ensures s.Good? <==> r.Good?
    ensures s.Good? ==> r.pos <= s.pos <= |t| && s.pos == SkipSpace(t, r.pos, nested) && s.v == f(r.v)
  {
    match r
    case Bad => Bad
    case Good(v, p) => Good(f(v), SkipSpace(t, p, nested))
  }

  // One item without its marks, and the white space behind it.
  function ReadAtom(vocab: string -> Option<nat>, t: string, pos: nat, nested: bool): (r: Read<Item>)
    requires pos <= |t| && StartsAtom(At(t, pos))
    ensures r.Good? ==> pos < r.pos <= |t|
    decreases |t| - pos, 0
  {
    var c := At(t, pos);
    if c == '"' then Then(ReadLiteral(t, pos + 1), chars => Literal(chars), t, nested)
    else if c == '[' then
      var negated := At(t, pos + 1) == '^';
      Then(ReadClass(t, if negated then pos + 2 else pos + 1), items => CharClass(negated, items), t, nested)
    else if c == '<' then Then(ReadToken(vocab, t, pos), id => TokenId(false, id), t, nested)
    else if c == '!' then Then(ReadToken(vocab, t, pos + 1), id => TokenId(true, id), t, nested)
    else if IsWordChar(c) then Good(Name(t[pos..NameEnd(t, pos)]), SkipSpace(t, NameEnd(t, pos), nested))
    else if c == '(' then
      match ReadAlts(vocab, t, SkipSpace(t, pos + 1, true), true)
      case Bad => Bad
      case Good(alts, p) => if At(t, p) != ')' then Bad else Good(Group(alts), SkipSpace(t, p + 1, nested))
    else Good(Dot, SkipSpace(t, pos + 1, nested))
  }

  // The rest of a sequence whose last item so far is `cur`.
  function ReadMore(vocab: string -> Option<nat>, t: string, pos: nat, nested: bool, cur: Item): (r: Read<Items>)
    requires pos <= |t|
    ensures r.Good? ==> pos <= r.pos <= |t|
    decreases |t| - pos, 2
  {
    if IsMark(At(t, pos)) then
      match ReadMark(t, pos, nested)
      case Bad => Bad
      case Good(b, p) => ReadMore(vocab, t, p, nested, Repeat(cur, b.min, b.max))
    else
      match ReadSeq(vocab, t, pos, nested)
      case Bad => Bad
      case Good(rest, p) => Good(MoreItems(cur, rest), p)
  }

  // A sequence: an item and more, or nothing.
  function ReadSeq(vocab: string -> Option<nat>, t: string, pos: nat, nested: bool): (r: Read<Items>)
    requires pos <= |t|
    ensures r.Good? ==> pos <= r.pos <= |t|
    decreases |t| - pos, 1
  {
    if IsMark(At(t, pos)) then Bad
    else if StartsAtom(At(t, pos)) then
      match ReadAtom(vocab, t, pos, nested)
      case Bad => Bad
      case Good(item, p) => ReadMore(vocab, t, p, nested, item)
    else Good(NoItems, pos)
  }

  function ReadAlts(vocab: string -> Option<nat>, t: string, pos: nat, nested: bool): (r: Read<Alts>)
    requires pos <= |t|
    ensures r.Good? ==> pos <= r.pos <= |t|
    decreases |t| - pos, 3
  {
    match ReadSeq(vocab, t, pos, nested)
    case Bad => Bad
    case Good(first, p) =>
      if At(t, p) == '|' then
        match ReadAlts(vocab, t, SkipSpace(t, p + 1, true), nested)
        case Bad => Bad
        case Good(rest, q) => Good(MoreAlts(first, rest), q)
      else Good(LastAlt(first), p)
  }

  // ---------- rules ----------

  // The end of a rule: a line end or the end of the text, and white space.
  function ReadEnd(t: string, pos: nat): (r: Read<()>)
    requires pos <= |t|
    ensures r.Good? ==> pos <= r.pos <= |t|
  {
    if At(t, pos) == '\r' then
      Good((), SkipSpace(t, if At(t, pos + 1) == '\n' then pos + 2 else pos + 1, true))
    else if At(t, pos) == '\n' then Good((), SkipSpace(t, pos + 1, true))
    else if At(t, pos) == NUL then Good((), SkipSpace(t, pos, true))
    else Bad
  }

  // parse_rule
  function ReadRule(vocab: string -> Option<nat>, t: string, pos: nat): (r: Read<Definition>)
    requires pos <= |t|
    ensures r.Good? ==> pos < r.pos <= |t|
  {
    var end := NameEnd(t, pos);
    var p := SkipSpace(t, end, false);
    if end == pos || !(At(t, p) == ':' && At(t, p + 1) == ':' && At(t, p + 2) == '=') then Bad
    else
      match ReadAlts(vocab, t, SkipSpace(t, p + 3, true), false)
      case Bad => Bad
      case Good(alts, q) =>
        match ReadEnd(t, q)
        case Bad => Bad
        case Good(_, e) => Good(Definition(t[pos..end], alts), e)
  }

  function ReadRules(vocab: string -> Option<nat>, t: string, pos: nat): (r: Read<seq<Definition>>)
    requires pos <= |t|
    decreases |t| - pos
  {
    if At(t, pos) == NUL then Good([], pos)
    else
      match ReadRule(vocab, t, pos)
      case Bad => Bad
      case Good(d, p) =>
        match ReadRules(vocab, t, p)
        case Bad => Bad
        case Good(rest, q) => Good([d] + rest, q)
  }

  // The definitions that a grammar text spells.
  function ReadText(vocab: string -> Option<nat>, t: string): Read<seq<Definition>> {
    ReadRules(vocab, t, SkipSpace(t, 0, true))
  }
}
