/**
 The concrete syntax of grammar texts: every way in which a surface grammar can be written down, with its
 white space and comments, the spellings of its characters, numbers, tokens and repetition marks.  A spelled
 grammar has a text and a meaning; what the source reads is compared with it elsewhere.
 */
module GbnfSyntax {
  import opened Gbnf
  import opened Decimals
  import opened GbnfSymbols
  import opened GbnfCompile
  import opened GbnfText

  type Vocabulary = string -> Option<nat>

  // The first character of s, or next if there is none.
  function First(s: string, next: char): char {
    if s == "" then next else s[0]
  }

  // ---------- white space ----------

  predicate IsLineEnd(c: char) {
    c == '\r' || c == '\n'
  }

  predicate IsBlank(c: char, newlines: bool) {
    c == ' ' || c == '\t' || (newlines && IsLineEnd(c))
  }

  // Blanks and comments up to next, which is neither; a comment goes from a number sign to the end of the
  // line or of the text.
  predicate GapUpTo(s: string, newlines: bool, comment: bool, next: char) {
    if s == "" then
      if comment then next == NUL || (IsLineEnd(next) && !newlines) else !IsBlank(next, newlines) && next != '#'
    else if comment && !IsLineEnd(s[0]) then s[0] != NUL && GapUpTo(s[1..], newlines, true, next)
    else if s[0] == '#' then GapUpTo(s[1..], newlines, true, next)
    else IsBlank(s[0], newlines) && GapUpTo(s[1..], newlines, false, next)
  }

  // The gap before next: all the white space that there is.
  predicate GapOk(s: string, newlines: bool, next: char) {
    GapUpTo(s, newlines, false, next)
  }

  // ---------- characters ----------

  const LOWER := "0123456789abcdef"
  const UPPER := "0123456789ABCDEF"

  datatype HexChar = HexChar(value: nat, upper: bool)

  function HexText(digits: seq<HexChar>): (s: string)
    ensures |s| == |digits|
  {
    if digits == [] then ""
    else
      var d := digits[0];
      [if d.value >= 16 then '?' else if d.upper then UPPER[d.value] else LOWER[d.value]] + HexText(digits[1..])
  }

  function HexValue(digits: seq<HexChar>): nat {
    if digits == [] then 0 else HexValue(digits[..|digits| - 1]) * 16 + digits[|digits| - 1].value
  }

  // The letter that says how many hexadecimal digits follow.
  function HexMark(n: nat): char {
    if n == 2 then 'x' else if n == 4 then 'u' else 'U'
  }

  // The characters that a backslash can stand before, and the code points they mean there.
  const ESCAPES: map<char, nat> :=
    map['t' := 9, 'n' := 10, 'r' := 13, '"' := 34, '-' := 45, '[' := 91, '\\' := 92, ']' := 93]

  // The number of bytes of a character by its first byte, as far as the reader looks.
  function RawLen(first: nat): nat {
    if first < 0xC0 then 1 else if first < 0xE0 then 2 else if first < 0xF0 then 3 else 4
  }

  // What the first byte contributes; the reader takes any bytes.
  function RawBits(first: nat): nat {
    if first < 0x80 then first else if first < 0xC0 then first - 0x80 else if first < 0xE0 then first - 0xC0
    else if first < 0xF0 then first - 0xE0 else first - 0xF0
  }

  function MoreBits(value: nat, bytes: string): nat
    decreases |bytes|
  {
    if bytes == "" then value else MoreBits(value * 64 + bytes[0] as nat % 64, bytes[1..])
  }

  // A character as it is, as a hexadecimal code, or as an escape.
  datatype SChar = Raw(bytes: string) | Hex(digits: seq<HexChar>) | Escaped(c: char)

  function CharText(c: SChar): string {
    match c
    case Raw(bytes) => bytes
    case Hex(digits) => ['\\', HexMark(|digits|)] + HexText(digits)
    case Escaped(e) => ['\\', e]
  }

  function CharMeaning(c: SChar): nat {
    match c
    case Raw(bytes) => if bytes == "" then 0 else MoreBits(RawBits(bytes[0] as nat % 256), bytes[1..])
    case Hex(digits) => HexValue(digits)
    case Escaped(e) => if e in ESCAPES then ESCAPES[e] else 0
  }

  // stop is the character that cannot stand for itself here, besides the backslash.
  predicate CharOk(c: SChar, stop: char) {
    match c
    case Raw(bytes) =>
      bytes != "" && bytes[0] != '\\' && bytes[0] != stop && NUL !in bytes && |bytes| == RawLen(bytes[0] as nat % 256)
    case Hex(digits) => |digits| in {2, 4, 8} && forall i :: 0 <= i < |digits| ==> digits[i].value < 16
    case Escaped(e) => e in ESCAPES
  }

  function CharsText(chars: seq<SChar>): string {
    if chars == [] then "" else CharText(chars[0]) + CharsText(chars[1..])
  }

  function CharsMeaning(chars: seq<SChar>): (cs: seq<nat>) {
    if chars == [] then [] else [CharMeaning(chars[0])] + CharsMeaning(chars[1..])
  }

  predicate CharsOk(chars: seq<SChar>) {
    chars == [] || (CharOk(chars[0], '"') && CharsOk(chars[1..]))
  }

  // ---------- classes ----------

  datatype SClassItem = SOne(c: SChar) | SSpan(lo: SChar, hi: SChar)

  function ClassItemText(x: SClassItem): string {
    match x
    case SOne(c) => CharText(c)
    case SSpan(lo, hi) => CharText(lo) + ("-" + CharText(hi))
  }

  function ClassText(items: seq<SClassItem>): string {
    if items == [] then "" else ClassItemText(items[0]) + ClassText(items[1..])
  }

  function ClassItemMeaning(x: SClassItem): ClassItem {
    match x
    case SOne(c) => One(CharMeaning(c))
    case SSpan(lo, hi) => Span(CharMeaning(lo), CharMeaning(hi))
  }

  function ClassMeaning(items: seq<SClassItem>): seq<ClassItem> {
    if items == [] then [] else [ClassItemMeaning(items[0])] + ClassMeaning(items[1..])
  }

  // after is what follows the item: a dash behind a single character must be the last one of the class.
  predicate ClassItemOk(x: SClassItem, after: string) {
    match x
    case SOne(c) => CharOk(c, ']') && (First(after, NUL) == '-' ==> |after| > 1 && after[1] == ']')
    case SSpan(lo, hi) => CharOk(lo, ']') && CharOk(hi, ']')
  }

  predicate ClassOk(items: seq<SClassItem>) {
    items == [] || (ClassItemOk(items[0], ClassText(items[1..]) + "]") && ClassOk(items[1..]))
  }

  // ---------- tokens, numbers and marks ----------

  predicate IsNumber(digits: string) {
    digits != "" && (forall i :: 0 <= i < |digits| ==> IsDigit(digits[i])) && ValueOf(digits) < WORD
  }

  // A token by its number or by its text.
  datatype SToken = ById(digits: string) | ByText(text: string)

  function TokenText(token: SToken): string {
    match token
    case ById(digits) => "<[" + (digits + "]>")
    case ByText(text) => "<" + (text + ">")
  }

  function TokenMeaning(vocab: Vocabulary, token: SToken): nat {
    match token
    case ById(digits) => ValueOf(digits)
    case ByText(text) => if vocab(TokenText(token)).Some? then vocab(TokenText(token)).value else 0
  }

  predicate TokenOk(vocab: Vocabulary, token: SToken) {
    match token
    case ById(digits) => IsNumber(digits) && ValueOf(digits) < TOKEN_IDS
    case ByText(text) => First(text, '>') != '[' && '>' !in text && NUL !in text && vocab(TokenText(token)).Some?
  }

  // The marks behind an item, with their gaps.
  datatype SMark =
    | Star(gap: string)
    | Plus(gap: string)
    | Maybe(gap: string)
    | Exactly(g1: string, n: string, g2: string, gap: string)
    | AtLeast(g1: string, n: string, g2: string, g3: string, gap: string)
    | Between(g1: string, n: string, g2: string, g3: string, m: string, g4: string, gap: string)

  function MarkText(mark: SMark): (s: string)
    ensures s != "" && IsMark(s[0])
  {
    match mark
    case Star(gap) => "*" + gap
    case Plus(gap) => "+" + gap
    case Maybe(gap) => "?" + gap
    case Exactly(g1, n, g2, gap) => "{" + (g1 + (n + (g2 + ("}" + gap))))
    case AtLeast(g1, n, g2, g3, gap) => "{" + (g1 + (n + (g2 + ("," + (g3 + ("}" + gap))))))
    case Between(g1, n, g2, g3, m, g4, gap) => "{" + (g1 + (n + (g2 + ("," + (g3 + (m + (g4 + ("}" + gap))))))))
  }

  // How often the item is wanted.
  function MarkMeaning(mark: SMark): Bounds {
    match mark
    case Star(_) => Bounds(0, None)
    case Plus(_) => Bounds(1, None)
    case Maybe(_) => Bounds(0, Some(1))
    case Exactly(_, n, _, _) => Bounds(ValueOf(n), Some(ValueOf(n)))
    case AtLeast(_, n, _, _, _) => Bounds(ValueOf(n), None)
    case Between(_, n, _, _, m, _, _) => Bounds(ValueOf(n), Some(ValueOf(m)))
  }

  predicate MarkOk(mark: SMark, nested: bool, next: char) {
    match mark
    case Star(gap) => GapOk(gap, nested, next)
    case Plus(gap) => GapOk(gap, nested, next)
    case Maybe(gap) => GapOk(gap, nested, next)
    case Exactly(g1, n, g2, gap) =>
      IsNumber(n) && GapOk(g1, nested, n[0]) && GapOk(g2, nested, '}') && GapOk(gap, nested, next)
    case AtLeast(g1, n, g2, g3, gap) =>
      && IsNumber(n) && GapOk(g1, nested, n[0]) && GapOk(g2, nested, ',') && GapOk(g3, nested, '}')
      && GapOk(gap, nested, next)
    case Between(g1, n, g2, g3, m, g4, gap) =>
      && IsNumber(n) && IsNumber(m) && GapOk(g1, nested, n[0]) && GapOk(g2, nested, ',') && GapOk(g3, nested, m[0])
      && GapOk(g4, nested, '}') && GapOk(gap, nested, next)
  }

  // ---------- items, sequences, alternates ----------

  datatype SItem =
    | SLiteral(chars: seq<SChar>, gap: string)
    | SClass(negated: bool, items: seq<SClassItem>, gap: string)
    | SDot(gap: string)
    | STokenItem(negated: bool, token: SToken, gap: string)
    | SName(name: string, gap: string)
    | SGroup(open: string, alts: SAlts, gap: string)
    | SRepeat(item: SItem, mark: SMark)

  datatype SItems = SNoItems | SMoreItems(head: SItem, tail: SItems)

  datatype SAlts = SLastAlt(only: SItems) | SMoreAlts(first: SItems, gap: string, rest: SAlts)

  function ItemText(x: SItem): string {
    match x
    case SLiteral(chars, gap) => "\"" + (CharsText(chars) + ("\"" + gap))
    case SClass(negated, items, gap) => (if negated then "[^" else "[") + (ClassText(items) + ("]" + gap))
    case SDot(gap) => "." + gap
    case STokenItem(negated, token, gap) => (if negated then "!" else "") + (TokenText(token) + gap)
    case SName(name, gap) => name + gap
    case SGroup(open, alts, gap) => "(" + (open + (AltsText(alts) + (")" + gap)))
    case SRepeat(item, mark) => ItemText(item) + MarkText(mark)
  }

  function ItemsText(xs: SItems): string {
    if xs.SNoItems? then "" else ItemText(xs.head) + ItemsText(xs.tail)
  }

  function AltsText(alts: SAlts): string {
    match alts
    case SLastAlt(only) => ItemsText(only)
    case SMoreAlts(first, gap, rest) => ItemsText(first) + ("|" + (gap + AltsText(rest)))
  }

  function ItemMeaning(vocab: Vocabulary, x: SItem): Item {
    match x
    case SLiteral(chars, _) => Literal(CharsMeaning(chars))
    case SClass(negated, items, _) => CharClass(negated, ClassMeaning(items))
    case SDot(_) => Dot
    case STokenItem(negated, token, _) => TokenId(negated, TokenMeaning(vocab, token))
    case SName(name, _) => Name(name)
    case SGroup(_, alts, _) => Group(AltsMeaning(vocab, alts))
    case SRepeat(item, mark) => Repeat(ItemMeaning(vocab, item), MarkMeaning(mark).min, MarkMeaning(mark).max)
  }

  function ItemsMeaning(vocab: Vocabulary, xs: SItems): Items {
    if xs.SNoItems? then NoItems else MoreItems(ItemMeaning(vocab, xs.head), ItemsMeaning(vocab, xs.tail))
  }

  function AltsMeaning(vocab: Vocabulary, alts: SAlts): Alts {
    match alts
    case SLastAlt(only) => LastAlt(ItemsMeaning(vocab, only))
    case SMoreAlts(first, _, rest) => MoreAlts(ItemsMeaning(vocab, first), AltsMeaning(vocab, rest))
  }

  // Within parentheses a gap may contain line ends; next is the character behind the item.
  predicate ItemOk(vocab: Vocabulary, x: SItem, nested: bool, next: char) {
    match x
    case SLiteral(chars, gap) => CharsOk(chars) && GapOk(gap, nested, next)
    case SClass(negated, items, gap) =>
      ClassOk(items) && (!negated ==> First(ClassText(items), ']') != '^') && GapOk(gap, nested, next)
    case SDot(gap) => GapOk(gap, nested, next)
    case STokenItem(_, token, gap) => TokenOk(vocab, token) && GapOk(gap, nested, next)
    case SName(name, gap) => name != "" && IsName(name) && !IsWordChar(First(gap, next)) && GapOk(gap, nested, next)
    case SGroup(open, alts, gap) =>
      GapOk(open, true, First(AltsText(alts), ')')) && AltsOk(vocab, alts, true, ')') && GapOk(gap, nested, next)
    case SRepeat(item, mark) => ItemOk(vocab, item, nested, MarkText(mark)[0]) && MarkOk(mark, nested, next)
  }

  predicate ItemsOk(vocab: Vocabulary, xs: SItems, nested: bool, next: char) {
    xs.SMoreItems? ==>
      ItemOk(vocab, xs.head, nested, First(ItemsText(xs.tail), next)) && ItemsOk(vocab, xs.tail, nested, next)
  }

  predicate AltsOk(vocab: Vocabulary, alts: SAlts, nested: bool, next: char) {
    match alts
    case SLastAlt(only) => ItemsOk(vocab, only, nested, next)
    case SMoreAlts(first, gap, rest) =>
      ItemsOk(vocab, first, nested, '|') && GapOk(gap, true, First(AltsText(rest), next)) && AltsOk(vocab, rest, nested, next)
  }

  // ---------- whole texts ----------

  // A rule: its name, the sign, its alternates, the end of its line, and what lies before the next rule.
  datatype SDef = SDef(name: string, beforeSign: string, afterSign: string, alts: SAlts, end: string, gap: string)

  datatype SText = SText(gap: string, defs: seq<SDef>)

  function DefText(d: SDef): string {
    d.name + (d.beforeSign + ("::=" + (d.afterSign + (AltsText(d.alts) + (d.end + d.gap)))))
  }

  function DefsText(defs: seq<SDef>): string {
    if defs == [] then "" else DefText(defs[0]) + DefsText(defs[1..])
  }

  function TextOf(c: SText): string {
    c.gap + DefsText(c.defs)
  }

  function DefMeaning(vocab: Vocabulary, d: SDef): Definition {
    Definition(d.name, AltsMeaning(vocab, d.alts))
  }

  function DefsMeaning(vocab: Vocabulary, defs: seq<SDef>): seq<Definition> {
    if defs == [] then [] else [DefMeaning(vocab, defs[0])] + DefsMeaning(vocab, defs[1..])
  }

  // A line ends with a carriage return, a line feed, or both; only at the end of the text with nothing.
  predicate EndOk(end: string, gap: string, next: char) {
    || end == "\r\n" || end == "\n" || (end == "\r" && First(gap, next) != '\n')
    || (end == "" && gap == "" && next == NUL)
  }

  predicate DefOk(vocab: Vocabulary, d: SDef, next: char) {
    var stop := First(d.end + d.gap, next);
    && d.name != "" && IsName(d.name) && GapOk(d.beforeSign, false, ':')
    && GapOk(d.afterSign, true, First(AltsText(d.alts), stop)) && AltsOk(vocab, d.alts, false, stop)
    && EndOk(d.end, d.gap, next) && GapOk(d.gap, true, next)
  }

  predicate DefsOk(vocab: Vocabulary, defs: seq<SDef>) {
    defs == [] || (DefOk(vocab, defs[0], First(DefsText(defs[1..]), NUL)) && DefsOk(vocab, defs[1..]))
  }

  predicate TextOk(vocab: Vocabulary, c: SText) {
    GapOk(c.gap, true, First(DefsText(c.defs), NUL)) && DefsOk(vocab, c.defs)
  }
}
