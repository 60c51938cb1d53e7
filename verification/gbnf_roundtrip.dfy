/**
 Writing a surface grammar as text and reading it back.  The printer is part of the proof, not of the source: it
 shows that every surface grammar has a text, and when the plain way to write it down is read as it was meant.
 */
module GbnfRoundTrip {
  import opened Gbnf
  import opened Decimals
  import opened GbnfSymbols
  import opened GbnfCompile
  import opened GbnfText
  import opened GbnfSyntax
  import opened GbnfReads
  import Utf8

  // ---------- characters as they are ----------

  function AsText(bytes: seq<Utf8.Byte>): (s: string)
    ensures |s| == |bytes|
  {
    if bytes == [] then "" else [bytes[0] as char] + AsText(bytes[1..])
  }

  lemma {:induction false} AsTextConcat(x: seq<Utf8.Byte>, y: seq<Utf8.Byte>)
    ensures AsText(x + y) == AsText(x) + AsText(y)
    decreases |x|
  {
    if x == [] {
      assert x + y == y;
    } else {
      AsTextConcat(x[1..], y);
      assert (x + y)[0] == x[0] && (x + y)[1..] == x[1..] + y;
      Associate([x[0] as char], AsText(x[1..]), AsText(y));
    }
  }

  lemma {:induction false} MoreBitsConcat(value: nat, x: string, y: string)
    ensures MoreBits(value, x + y) == MoreBits(MoreBits(value, x), y)
    decreases |x|
  {
    if x == "" {
      assert x + y == y;
    } else {
      MoreBitsConcat(value * 64 + x[0] as nat % 64, x[1..], y);
      assert (x + y)[1..] == x[1..] + y;
    }
  }

  // The continuation bytes of c give its low bits.
  lemma {:induction false} TailBits(c: nat, n: nat)
    ensures MoreBits(Utf8.High(c, n), AsText(Utf8.Tail(c, n))) == c && NUL !in AsText(Utf8.Tail(c, n))
    decreases n
  {
    if n > 0 {
      var front, last := Utf8.Tail(c / 64, n - 1), [(0x80 + c % 64) as Utf8.Byte];
      TailBits(c / 64, n - 1);
      AsTextConcat(front, last);
      MoreBitsConcat(Utf8.High(c, n), AsText(front), AsText(last));
      assert AsText(last) == [(0x80 + c % 64) as char] && AsText(last)[1..] == "";
    }
  }

  lemma LeadsAgree(c: nat)
    requires Utf8.IsCodePoint(c)
    ensures Utf8.LeadByte(c) > 0 && RawLen(Utf8.LeadByte(c)) == Utf8.TailLen(c) + 1
    ensures RawBits(Utf8.LeadByte(c)) == Utf8.High(c, Utf8.TailLen(c))
    ensures Utf8.LeadByte(c) < 0x80 ==> Utf8.LeadByte(c) == c
  {
    Utf8.LeadByteFacts(c);
  }

  // A character other than the backslash and the one that ends the place it stands in may stand for itself,
  // encoded as section 3 of RFC 3629 says.
  lemma {:induction false} RawCharMeansItself(c: nat, stop: char)
    requires Utf8.IsCodePoint(c) && c != '\\' as nat && c != stop as nat && (stop as nat) < 0x80
    ensures var raw := Raw(AsText(Utf8.Encode(c))); CharOk(raw, stop) && CharMeaning(raw) == c
  {
    var n, first := Utf8.TailLen(c), Utf8.LeadByte(c);
    LeadsAgree(c);
    AsTextConcat([first], Utf8.Tail(c, n));
    assert AsText([first]) == [first as char] && AsText(Utf8.Encode(c))[1..] == AsText(Utf8.Tail(c, n));
    TailBits(c, n);
  }

  // ---------- the plain spelling ----------

  const CODES: nat := 0x1_0000_0000

  function Pow16(k: nat): (p: nat)
    ensures p > 0
  {
    if k == 0 then 1 else 16 * Pow16(k - 1)
  }

  // The k hexadecimal digits of c.
  function HexOf(c: nat, k: nat): (digits: seq<HexChar>)
    ensures |digits| == k && forall i :: 0 <= i < k ==> digits[i].value < 16
  {
    if k == 0 then [] else HexOf(c / 16, k - 1) + [HexChar(c % 16, false)]
  }

  lemma {:induction false} HexOfValue(c: nat, k: nat)
    requires c < Pow16(k)
    ensures HexValue(HexOf(c, k)) == c
    decreases k
  {
    if k > 0 {
      HexOfValue(c / 16, k - 1);
      assert HexOf(c, k)[..k - 1] == HexOf(c / 16, k - 1);
    }
  }

  lemma CodesAreEight()
    ensures Pow16(8) == CODES
  {
    assert Pow16(4) == 0x10000;
    assert Pow16(8) == 16 * (16 * (16 * (16 * Pow16(4))));
  }

  function SpellChar(c: nat): SChar {
    Hex(HexOf(c, 8))
  }

  lemma SpelledChar(c: nat, stop: char)
    requires c < CODES
    ensures CharOk(SpellChar(c), stop) && CharMeaning(SpellChar(c)) == c
  {
    CodesAreEight();
    HexOfValue(c, 8);
  }

  predicate Codes(chars: seq<nat>) {
    chars == [] || (chars[0] < CODES && Codes(chars[1..]))
  }

  function SpellChars(chars: seq<nat>): seq<SChar> {
    if chars == [] then [] else [SpellChar(chars[0])] + SpellChars(chars[1..])
  }

  lemma {:induction false} SpelledChars(chars: seq<nat>)
    requires Codes(chars)
    ensures CharsOk(SpellChars(chars)) && CharsMeaning(SpellChars(chars)) == chars
    decreases |chars|
  {
    if chars != [] {
      SpelledChar(chars[0], '"');
      SpelledChars(chars[1..]);
      assert SpellChars(chars)[1..] == SpellChars(chars[1..]);
    }
  }

  predicate ClassFits(items: seq<ClassItem>) {
    items == [] || ((match items[0] case One(c) => c < CODES case Span(lo, hi) => lo < CODES && hi < CODES) && ClassFits(items[1..]))
  }

  function SpellClassItem(item: ClassItem): SClassItem {
    match item
    case One(c) => SOne(SpellChar(c))
    case Span(lo, hi) => SSpan(SpellChar(lo), SpellChar(hi))
  }

  function SpellClass(items: seq<ClassItem>): seq<SClassItem> {
    if items == [] then [] else [SpellClassItem(items[0])] + SpellClass(items[1..])
  }

  lemma {:induction false} SpelledClass(items: seq<ClassItem>)
    requires ClassFits(items)
    ensures ClassOk(SpellClass(items)) && ClassMeaning(SpellClass(items)) == items
    ensures First(ClassText(SpellClass(items)), ']') == '\\' || ClassText(SpellClass(items)) == ""
    decreases |items|
  {
    if items != [] {
      SpelledClass(items[1..]);
      assert SpellClass(items)[1..] == SpellClass(items[1..]);
      match items[0]
      case One(c) => SpelledChar(c, ']');
      case Span(lo, hi) =>
        SpelledChar(lo, ']');
        SpelledChar(hi, ']');
    }
  }

  function SpellMark(min: nat, max: Option<nat>): SMark {
    match max
    case None => AtLeast("", Decimal(min), "", "", " ")
    case Some(n) => Between("", Decimal(min), "", "", Decimal(n), "", " ")
  }

  lemma {:induction false} DecimalIsNumber(n: nat)
    requires n < WORD
    ensures IsNumber(Decimal(n)) && ValueOf(Decimal(n)) == n
  {
    DecimalDigits(n);
    ValueOfDecimal(n);
  }

  // Neither white space nor a comment begins with c.
  predicate Solid(c: char, newlines: bool) {
    !IsBlank(c, newlines) && c != '#'
  }

  lemma {:induction false} SpelledMark(min: nat, max: Option<nat>, nested: bool, next: char)
    requires min < WORD && (max.Some? ==> max.value < WORD) && Solid(next, nested)
    ensures MarkOk(SpellMark(min, max), nested, next) && MarkMeaning(SpellMark(min, max)) == Bounds(min, max)
  {
    DecimalIsNumber(min);
    if max.Some? { DecimalIsNumber(max.value); }
  }

  // ---------- items, sequences, alternates ----------

  // Surface grammars that can be written down: characters, token ids and bounds are in their ranges.
  predicate ItemFits(item: Item) {
    match item
    case Literal(chars) => Codes(chars)
    case CharClass(_, items) => ClassFits(items)
    case Dot => true
    case TokenId(_, id) => id < TOKEN_IDS
    case Name(name) => name != "" && IsName(name)
    case Group(alts) => AltsFit(alts)
    case Repeat(x, min, max) => ItemFits(x) && min < WORD && (max.Some? ==> max.value < WORD)
  }

  predicate ItemsFit(items: Items) {
    items.NoItems? || (ItemFits(items.head) && ItemsFit(items.tail))
  }

  predicate AltsFit(alts: Alts) {
    match alts
    case LastAlt(only) => ItemsFit(only)
    case MoreAlts(first, rest) => ItemsFit(first) && AltsFit(rest)
  }

  // Every item with a blank behind it.
  function SpellItem(item: Item): SItem {
    match item
    case Literal(chars) => SLiteral(SpellChars(chars), " ")
    case CharClass(negated, items) => SClass(negated, SpellClass(items), " ")
    case Dot => SDot(" ")
    case TokenId(negated, id) => STokenItem(negated, ById(Decimal(id)), " ")
    case Name(name) => SName(name, " ")
    case Group(alts) => SGroup(Lead(alts, ""), SpellAlts(alts, "", SNoItems), " ")
    case Repeat(x, min, max) => SRepeat(SpellItem(x), SpellMark(min, max))
  }

  function SpellItems(items: Items): SItems {
    if items.NoItems? then SNoItems else SMoreItems(SpellItem(items.head), SpellItems(items.tail))
  }

  // The gap before the alternates: a blank, and if there is nothing in them also what follows.
  function Lead(alts: Alts, follows: string): string {
    if alts == LastAlt(NoItems) then " " + follows else " "
  }

  // The alternates; if the last of them is empty, the gap before it takes in what follows, and then come the
  // items in last.
  function SpellAlts(alts: Alts, follows: string, last: SItems): SAlts {
    match alts
    case LastAlt(only) => SLastAlt(if only.NoItems? then last else SpellItems(only))
    case MoreAlts(first, rest) => SMoreAlts(SpellItems(first), Lead(rest, follows), SpellAlts(rest, follows, last))
  }

  // The last alternate is not empty: an empty one at the end of a line lets the reader run on into the
  // next line.
  predicate EndsWell(alts: Alts) {
    match alts
    case LastAlt(only) => only.MoreItems?
    case MoreAlts(_, rest) => EndsWell(rest)
  }

  // The alternates with x for the last of them, if that is empty.
  function WithLast(alts: Alts, x: Items): Alts {
    match alts
    case LastAlt(only) => if only.NoItems? then LastAlt(x) else alts
    case MoreAlts(first, rest) => MoreAlts(first, WithLast(rest, x))
  }

  lemma {:induction false} WithNothing(alts: Alts)
    ensures WithLast(alts, NoItems) == alts
    decreases alts
  {
    if alts.MoreAlts? { WithNothing(alts.rest); }
  }

  lemma {:induction false} WellAlone(alts: Alts, follows: string, last: SItems)
    requires EndsWell(alts)
    ensures SpellAlts(alts, follows, last) == SpellAlts(alts, "", SNoItems) && Lead(alts, follows) == Lead(alts, "") == " "
    decreases alts
  {
    if alts.MoreAlts? { WellAlone(alts.rest, follows, last); }
  }

  // What is put behind an empty last alternate is the same text as what follows behind the alternates.
  lemma {:induction false} OpenText(alts: Alts, follows: string, last: SItems)
    requires !EndsWell(alts)
    ensures Lead(alts, follows) + AltsText(SpellAlts(alts, follows, last))
         == (Lead(alts, "") + AltsText(SpellAlts(alts, "", SNoItems))) + (follows + ItemsText(last))
    decreases alts
  {
    if alts.MoreAlts? { OpenText(alts.rest, follows, last); }
  }

  // What an item and alternates begin with.
  lemma {:induction false} ItemStarts(item: Item)
    requires ItemFits(item)
    ensures var s := ItemText(SpellItem(item)); s != "" && StartsAtom(s[0])
    decreases item
  {
    match item
    case Repeat(x, _, _) => ItemStarts(x);
    case _ =>
  }

  lemma {:induction false} ItemsStart(items: Items)
    requires ItemsFit(items) && items.MoreItems?
    ensures var s := ItemsText(SpellItems(items)); s != "" && StartsAtom(s[0])
  {
    ItemStarts(items.head);
  }

  // Behind the gap before the alternates there is no white space.
  lemma {:induction false} LeadOk(alts: Alts, follows: string, last: SItems, next: char)
    requires AltsFit(alts) && GapOk(" " + follows, true, First(ItemsText(last), next))
    ensures GapOk(Lead(alts, follows), true, First(AltsText(SpellAlts(alts, follows, last)), next))
  {
    match alts
    case LastAlt(only) => if only.MoreItems? { ItemsStart(only); }
    case MoreAlts(first, _) => if first.MoreItems? { ItemsStart(first); }
  }

  lemma {:induction false} SpelledItem(vocab: Vocabulary, item: Item, nested: bool, next: char)
    requires ItemFits(item) && Solid(next, nested)
    ensures ItemOk(vocab, SpellItem(item), nested, next) && ItemMeaning(vocab, SpellItem(item)) == item
    decreases item
  {
    match item
    case Literal(chars) => SpelledChars(chars);
    case CharClass(_, items) => SpelledClass(items);
    case Dot =>
    case TokenId(_, id) => DecimalIsNumber(id);
    case Name(name) =>
    case Group(alts) =>
      LeadOk(alts, "", SNoItems, ')');
      SpelledAlts(vocab, alts, "", SNoItems, NoItems, true, ')');
      WithNothing(alts);
    case Repeat(x, min, max) =>
      SpelledItem(vocab, x, nested, '{');
      SpelledMark(min, max, nested, next);
  }

  lemma {:induction false} SpelledItems(vocab: Vocabulary, items: Items, nested: bool, next: char)
    requires ItemsFit(items) && Solid(next, nested)
    ensures ItemsOk(vocab, SpellItems(items), nested, next) && ItemsMeaning(vocab, SpellItems(items)) == items
    decreases items
  {
    if items.MoreItems? {
      if items.tail.MoreItems? { ItemsStart(items.tail); }
      SpelledItem(vocab, items.head, nested, First(ItemsText(SpellItems(items.tail)), next));
      SpelledItems(vocab, items.tail, nested, next);
    }
  }

  lemma {:induction false} SpelledAlts(vocab: Vocabulary, alts: Alts, follows: string, last: SItems, x: Items, nested: bool,
                                       next: char)
    requires AltsFit(alts) && Solid(next, nested)
    requires !EndsWell(alts) ==> GapOk(" " + follows, true, First(ItemsText(last), next))
    requires ItemsOk(vocab, last, nested, next) && ItemsMeaning(vocab, last) == x
    ensures var s := SpellAlts(alts, follows, last); AltsOk(vocab, s, nested, next) && AltsMeaning(vocab, s) == WithLast(alts, x)
    decreases alts
  {
    match alts
    case LastAlt(only) => SpelledItems(vocab, only, nested, next);
    case MoreAlts(first, rest) =>
      SpelledItems(vocab, first, nested, '|');
      SpelledAlts(vocab, rest, follows, last, x, nested, next);
      if EndsWell(rest) { WellStarts(rest, follows, last, next); } else { LeadOk(rest, follows, last, next); }
  }

  lemma {:induction false} WellStarts(alts: Alts, follows: string, last: SItems, next: char)
    requires AltsFit(alts) && EndsWell(alts)
    ensures GapOk(Lead(alts, follows), true, First(AltsText(SpellAlts(alts, follows, last)), next))
  {
    match alts
    case LastAlt(only) => ItemsStart(only);
    case MoreAlts(first, _) => if first.MoreItems? { ItemsStart(first); }
  }

  // ---------- whole texts ----------

  predicate DefFits(d: Definition) {
    d.name != "" && IsName(d.name) && AltsFit(d.alts)
  }

  predicate DefsFit(defs: seq<Definition>) {
    defs == [] || (DefFits(defs[0]) && DefsFit(defs[1..]))
  }

  // A rule on a line of its own.
  function ShowDef(d: Definition): string {
    d.name + (" " + ("::=" + ((Lead(d.alts, "") + AltsText(SpellAlts(d.alts, "", SNoItems))) + "\n")))
  }

  function ShowDefs(defs: seq<Definition>): string {
    if defs == [] then "" else ShowDef(defs[0]) + ShowDefs(defs[1..])
  }

  // The line as a spelling; if the last alternate is empty, the line end belongs to the gap before it.
  function SpellDef(d: Definition): SDef {
    if EndsWell(d.alts) then SDef(d.name, " ", " ", SpellAlts(d.alts, "", SNoItems), "\n", "")
    else SDef(d.name, " ", Lead(d.alts, "\n"), SpellAlts(d.alts, "\n", SNoItems), "", "")
  }

  lemma {:induction false} SpelledText(d: Definition)
    ensures DefText(SpellDef(d)) == ShowDef(d)
  {
    var shown := Lead(d.alts, "") + AltsText(SpellAlts(d.alts, "", SNoItems));
    if EndsWell(d.alts) {
      WellAlone(d.alts, "", SNoItems);
      assert shown + "\n" == " " + (AltsText(SpellAlts(d.alts, "", SNoItems)) + ("\n" + ""));
    } else {
      OpenText(d.alts, "\n", SNoItems);
      var s := AltsText(SpellAlts(d.alts, "\n", SNoItems));
      assert Lead(d.alts, "\n") + (s + ("" + "")) == Lead(d.alts, "\n") + s == shown + "\n";
    }
  }

  // A line is a rule if its last alternate is not empty, or if nothing follows.
  lemma {:induction false} SpelledDef(vocab: Vocabulary, d: Definition, next: char)
    requires DefFits(d) && Solid(next, true) && (EndsWell(d.alts) || next == NUL)
    ensures DefOk(vocab, SpellDef(d), next) && DefMeaning(vocab, SpellDef(d)) == d
  {
    WithNothing(d.alts);
    if EndsWell(d.alts) {
      WellAlone(d.alts, "", SNoItems);
      WellStarts(d.alts, "", SNoItems, '\n');
      SpelledAlts(vocab, d.alts, "", SNoItems, NoItems, false, '\n');
    } else {
      LeadOk(d.alts, "\n", SNoItems, NUL);
      SpelledAlts(vocab, d.alts, "\n", SNoItems, NoItems, false, NUL);
    }
  }

  lemma {:induction false} ReadShownRule(vocab: Vocabulary, t: string, pos: nat, d: Definition, end: nat)
    requires DefFits(d) && Has(t, pos, ShowDef(d)) && end == pos + |ShowDef(d)| && Solid(At(t, end), true)
    requires EndsWell(d.alts) || At(t, end) == NUL
    ensures pos < |t| && end <= |t| && At(t, pos) != NUL && ReadRule(vocab, t, pos) == Good(d, end)
  {
    SpelledText(d);
    SpelledDef(vocab, d, At(t, end));
    ReadsRule(vocab, t, pos, SpellDef(d), end);
  }

  // ---------- a line that ends behind the sign or a bar ----------

  // The sign of the next rule ends the items of this one.
  lemma {:induction false} RuleEndsBadly(vocab: Vocabulary, t: string, pos: nat, e: nat, p: nat, alts: Alts, q: nat)
    requires pos <= |t| && SkipSpace(t, NameEnd(t, pos), false) == e && e + 3 <= |t| && SkipSpace(t, e + 3, true) == p
    requires ReadAlts(vocab, t, p, false) == Good(alts, q) && At(t, q) == ':'
    ensures ReadRule(vocab, t, pos).Bad?
  {}

  // The text of a line, up to the sign in the next one, as a rule that has the next name for its last item.
  lemma {:induction false} OpenLine(d: Definition, name: string, rest: string)
    requires !EndsWell(d.alts)
    ensures var last := SMoreItems(SName(name, " "), SNoItems);
      ShowDef(d) + (name + (" " + rest))
      == d.name + (" " + ("::=" + (Lead(d.alts, "\n") + (AltsText(SpellAlts(d.alts, "\n", last)) + rest))))
  {
    var last := SMoreItems(SName(name, " "), SNoItems);
    var shown := Lead(d.alts, "") + AltsText(SpellAlts(d.alts, "", SNoItems));
    var line, next := shown + "\n", name + (" " + rest);
    Associate(d.name, " " + ("::=" + line), next);
    Associate(" ", "::=" + line, next);
    Associate("::=", line, next);
    OpenText(d.alts, "\n", last);
    assert ItemsText(last) == name + " ";
    Associate(Lead(d.alts, "\n"), AltsText(SpellAlts(d.alts, "\n", last)), rest);
    assert line + next == (shown + ("\n" + (name + " "))) + rest;
  }

  // The items of a line that runs on into the next one, up to its sign.
  lemma {:induction false} OpenAlts(vocab: Vocabulary, t: string, p: nat, d: Definition, name: string, alts: SAlts,
                                    rest: string, q: nat)
    requires DefFits(d) && !EndsWell(d.alts) && name != "" && IsName(name)
    requires alts == SpellAlts(d.alts, "\n", SMoreItems(SName(name, " "), SNoItems))
    requires Has(t, p, AltsText(alts) + ("::=" + rest)) && q == p + |AltsText(alts)|
    ensures p <= |t| && ReadAlts(vocab, t, p, false) == Good(WithLast(d.alts, MoreItems(Item.Name(name), NoItems)), q)
    ensures At(t, q) == ':'
  {
    HasBoth(t, p, AltsText(alts), "::=" + rest);
    AtFirst(t, q, "::=" + rest);
    SpelledAlts(vocab, d.alts, "\n", SMoreItems(SName(name, " "), SNoItems), MoreItems(Item.Name(name), NoItems), false, ':');
    ReadsAlts(vocab, t, p, alts, false, q);
  }

  // A rule that is not the last takes the name of the next rule for its own item, stops at its sign, and is refused.
  lemma {:induction false} ReadOpenRule(vocab: Vocabulary, t: string, pos: nat, d: Definition, name: string, rest: string)
    requires DefFits(d) && !EndsWell(d.alts) && name != "" && IsName(name)
    requires Has(t, pos, ShowDef(d) + (name + (" " + ("::=" + rest))))
    ensures pos < |t| && At(t, pos) != NUL && ReadRule(vocab, t, pos).Bad?
  {
    var last := SMoreItems(SName(name, " "), SNoItems);
    var alts := SpellAlts(d.alts, "\n", last);
    var tail := AltsText(alts) + ("::=" + rest);
    OpenLine(d, name, "::=" + rest);
    var e := pos + |d.name| + 1;
    var p := e + 3 + |Lead(d.alts, "\n")|;
    var q := p + |AltsText(alts)|;
    LeadOk(d.alts, "\n", last, ':');
    ReadsSign(t, pos, d.name, " ", Lead(d.alts, "\n"), tail, e, p);
    OpenAlts(vocab, t, p, d, name, alts, rest, q);
    RuleEndsBadly(vocab, t, pos, e, p, WithLast(d.alts, MoreItems(Item.Name(name), NoItems)), q);
  }

  // ---------- all rules ----------

  // Every definition but the last ends well.
  predicate LinesEnd(defs: seq<Definition>) {
    forall i :: 0 <= i < |defs| - 1 ==> EndsWell(defs[i].alts)
  }

  lemma LinesEndSplit(defs: seq<Definition>)
    requires |defs| > 1
    ensures LinesEnd(defs) <==> EndsWell(defs[0].alts) && LinesEnd(defs[1..])
  {
    if EndsWell(defs[0].alts) && LinesEnd(defs[1..]) {
      forall i | 0 <= i < |defs| - 1 ensures EndsWell(defs[i].alts) {
        assert i > 0 ==> defs[i] == defs[1..][i - 1];
      }
    }
  }

  // What reading must give for the text of these definitions.
  function Expected(t: string, defs: seq<Definition>): Read<seq<Definition>> {
    if LinesEnd(defs) then Good(defs, |t|) else Bad
  }

  // The text of the rules begins with a name and its sign.
  lemma {:induction false} ShownFirst(defs: seq<Definition>) returns (rest: string)
    requires DefsFit(defs) && defs != []
    ensures ShowDefs(defs) == defs[0].name + (" " + ("::=" + rest)) && IsWordChar(ShowDefs(defs)[0])
  {
    var d := defs[0];
    rest := ((Lead(d.alts, "") + AltsText(SpellAlts(d.alts, "", SNoItems))) + "\n") + ShowDefs(defs[1..]);
  }

  lemma {:induction false} RulesOfRule(vocab: Vocabulary, t: string, pos: nat, d: Definition, p: nat)
    requires pos < |t| && At(t, pos) != NUL && ReadRule(vocab, t, pos) == Good(d, p)
    ensures p <= |t|
    ensures var r := ReadRules(vocab, t, p); ReadRules(vocab, t, pos) == if r.Bad? then Bad else Good([d] + r.v, r.pos)
  {}

  // The first rule is read as it is written, unless its line ends badly and another rule follows.
  lemma {:induction false} ReadFirstRule(vocab: Vocabulary, t: string, pos: nat, defs: seq<Definition>, p: nat)
    requires DefsFit(defs) && defs != [] && Has(t, pos, ShowDefs(defs)) && pos + |ShowDefs(defs)| == |t|
    requires p == pos + |ShowDef(defs[0])|
    ensures pos < |t| && p <= |t| && At(t, pos) != NUL
    ensures ReadRule(vocab, t, pos) == if EndsWell(defs[0].alts) || |defs| == 1 then Good(defs[0], p) else Bad
  {
    HasBoth(t, pos, ShowDef(defs[0]), ShowDefs(defs[1..]));
    AtFirst(t, p, ShowDefs(defs[1..]));
    if |defs| == 1 {
      ReadShownRule(vocab, t, pos, defs[0], p);
    } else {
      var rest := ShownFirst(defs[1..]);
      if EndsWell(defs[0].alts) {
        ReadShownRule(vocab, t, pos, defs[0], p);
      } else {
        ReadOpenRule(vocab, t, pos, defs[0], defs[1].name, rest);
      }
    }
  }

  lemma {:induction false} ReadShownRules(vocab: Vocabulary, t: string, pos: nat, defs: seq<Definition>)
    requires DefsFit(defs) && Has(t, pos, ShowDefs(defs)) && pos + |ShowDefs(defs)| == |t|
    ensures ReadRules(vocab, t, pos) == Expected(t, defs)
    decreases |defs|
  {
    if defs != [] {
      var p := pos + |ShowDef(defs[0])|;
      HasBoth(t, pos, ShowDef(defs[0]), ShowDefs(defs[1..]));
      ReadShownRules(vocab, t, p, defs[1..]);
      ReadFirstRule(vocab, t, pos, defs, p);
      if |defs| > 1 { LinesEndSplit(defs); }
      if EndsWell(defs[0].alts) || |defs| == 1 {
        RulesOfRule(vocab, t, pos, defs[0], p);
        assert [defs[0]] + defs[1..] == defs;
      }
    }
  }

  /**
   Reading recovers a surface grammar from its text exactly if every definition but the last ends in an
   alternate that is not empty.  Otherwise a line ends behind the sign or a bar, the name on the next line
   is taken for an item of this one, and the text is refused.
   */
  lemma {:induction false} RoundTrip(vocab: Vocabulary, defs: seq<Definition>)
    requires DefsFit(defs)
    ensures LinesEnd(defs) ==> ReadText(vocab, ShowDefs(defs)) == Good(defs, |ShowDefs(defs)|)
    ensures !LinesEnd(defs) ==> ReadText(vocab, ShowDefs(defs)).Bad?
  {
    var t := ShowDefs(defs);
    assert t[0..0 + |t|] == t;
    HasFrom(t, 0, t);
    ReadShownRules(vocab, t, 0, defs);
    if defs != [] { var rest := ShownFirst(defs); }
    assert SkipSpace(t, 0, true) == 0;
  }
}
