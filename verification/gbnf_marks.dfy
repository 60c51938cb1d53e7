/**
 What the marks behind an item mean, from the text down to the words.
 */
module GbnfMarks {
  import opened Gbnf
  import opened Decimals
  import opened GbnfSymbols
  import opened GbnfCompile
  import opened GbnfParse
  import opened GbnfText
  import opened GbnfSyntax
  import opened GbnfReads

  function Concat(words: seq<seq<nat>>): seq<nat> {
    if words == [] then [] else words[0] + Concat(words[1..])
  }

  // The words are words of the item, and w is all of them in order.
  ghost predicate Copies(defs: Defs, x: Item, words: seq<seq<nat>>, w: seq<nat>) {
    (forall i :: 0 <= i < |words| ==> Denotes(defs, x, words[i])) && w == Concat(words)
  }

  lemma {:induction false} CopiesOf(defs: Defs, x: Item, d: Deriv) returns (words: seq<seq<nat>>)
    requires MeansCopies(defs, x, d)
    ensures |words| == Length(d) && Copies(defs, x, words, Spells(d))
    decreases d
  {
    if d.Nil? {
      words := [];
    } else {
      var rest := CopiesOf(defs, x, d.tail);
      words := [Spells(d.head)] + rest;
      assert words[1..] == rest;
    }
  }

  lemma {:induction false} DerivationOf(defs: Defs, x: Item, words: seq<seq<nat>>) returns (d: Deriv)
    requires forall i :: 0 <= i < |words| ==> Denotes(defs, x, words[i])
    ensures MeansCopies(defs, x, d) && Length(d) == |words| && Spells(d) == Concat(words)
    decreases |words|
  {
    if words == [] {
      d := Nil;
    } else {
      var rest := words[1..];
      assert forall i :: 0 <= i < |rest| ==> rest[i] == words[i + 1];
      var tail := DerivationOf(defs, x, rest);
      var head :| Means(defs, x, head) && Spells(head) == words[0];
      d := Cons(head, tail);
    }
  }

  // The bounds in effect admit k copies.
  predicate InBounds(min: nat, max: Option<nat>, k: nat) {
    min <= k && (Upper(min, max).Some? ==> k <= Upper(min, max).value)
  }

  // How many copies a mark asks for; numbers in braces as far as they are in effect.
  predicate Wanted(mark: SMark, k: nat) {
    match mark
    case Star(_) => true
    case Plus(_) => k >= 1
    case Maybe(_) => k <= 1
    case Exactly(_, n, _, _) => InBounds(ValueOf(n), Some(ValueOf(n)), k)
    case AtLeast(_, n, _, _, _) => k >= ValueOf(n)
    case Between(_, n, _, _, m, _, _) => InBounds(ValueOf(n), Some(ValueOf(m)), k)
  }

  // w consists of as many words of the item as the mark asks for.
  ghost predicate IsMarked(defs: Defs, x: Item, mark: SMark, w: seq<nat>) {
    exists words :: Copies(defs, x, words, w) && Wanted(mark, |words|)
  }

  lemma {:induction false} MarkedWord(defs: Defs, item: Item, mark: SMark, w: seq<nat>)
    requires Denotes(defs, Repeat(item, MarkMeaning(mark).min, MarkMeaning(mark).max), w)
    ensures IsMarked(defs, item, mark, w)
  {
    var b := MarkMeaning(mark);
    var d :| Means(defs, Repeat(item, b.min, b.max), d) && Spells(d) == w;
    var words := CopiesOf(defs, item, d);
    assert Wanted(mark, |words|);
  }

  lemma {:induction false} WordMarked(defs: Defs, item: Item, mark: SMark, w: seq<nat>)
    requires IsMarked(defs, item, mark, w)
    ensures Denotes(defs, Repeat(item, MarkMeaning(mark).min, MarkMeaning(mark).max), w)
  {
    var b := MarkMeaning(mark);
    var words :| Copies(defs, item, words, w) && Wanted(mark, |words|);
    var d := DerivationOf(defs, item, words);
    assert Means(defs, Repeat(item, b.min, b.max), d);
  }

  /**
   What an item with a mark means: one or more words of the item for a plus, any number for a star, none or
   one for a question mark, and what the numbers in braces say.
   */
  lemma {:induction false} MarkMeans(vocab: Vocabulary, defs: Defs, x: SItem, mark: SMark, w: seq<nat>)
    ensures Denotes(defs, ItemMeaning(vocab, SRepeat(x, mark)), w) <==> IsMarked(defs, ItemMeaning(vocab, x), mark, w)
  {
    var item := ItemMeaning(vocab, x);
    if Denotes(defs, ItemMeaning(vocab, SRepeat(x, mark)), w) { MarkedWord(defs, item, mark, w); }
    if IsMarked(defs, item, mark, w) { WordMarked(defs, item, mark, w); }
  }

  // One rule with one item and its mark, as a spelling.
  function OneRule(name: string, x: SItem, mark: SMark): SText {
    SText("", [SDef(name, " ", " ", SLastAlt(SMoreItems(SRepeat(x, mark), SNoItems)), "", "")])
  }

  lemma {:induction false} OneRuleText(name: string, x: SItem, mark: SMark)
    ensures TextOf(OneRule(name, x, mark)) == name + (" ::= " + (ItemText(x) + MarkText(mark)))
  {
    var marked := ItemText(x) + MarkText(mark);
    var alts := SLastAlt(SMoreItems(SRepeat(x, mark), SNoItems));
    assert ItemText(SRepeat(x, mark)) == marked && marked + "" == marked;
    assert ItemsText(alts.only) == marked;
    OneLineText(name, alts, marked);
    OneDefText(SDef(name, " ", " ", alts, "", ""));
  }

  lemma {:induction false} OneLineText(name: string, alts: SAlts, s: string)
    requires AltsText(alts) == s
    ensures DefText(SDef(name, " ", " ", alts, "", "")) == name + (" ::= " + s)
  {
    assert s + ("" + "") == s;
    assert " " + ("::=" + (" " + s)) == " ::= " + s;
  }

  lemma {:induction false} OneDefText(d: SDef)
    ensures TextOf(SText("", [d])) == DefText(d)
  {
    assert [d][1..] == [] && DefText(d) + "" == DefText(d);
    assert DefsText([d]) == DefText(d) && "" + DefText(d) == DefText(d);
  }

  // A spelled item begins like an item.
  lemma {:induction false} ItemStarts(vocab: Vocabulary, x: SItem, nested: bool, next: char)
    requires ItemOk(vocab, x, nested, next)
    ensures ItemText(x) != "" && StartsAtom(ItemText(x)[0])
    decreases x
  {
    if x.SRepeat? { ItemStarts(vocab, x.item, nested, MarkText(x.mark)[0]); }
  }

  lemma {:induction false} OneRuleOk(vocab: Vocabulary, name: string, x: SItem, mark: SMark)
    requires name != "" && IsName(name) && ItemOk(vocab, SRepeat(x, mark), false, NUL)
    ensures TextOk(vocab, OneRule(name, x, mark))
  {
    var alts := SLastAlt(SMoreItems(SRepeat(x, mark), SNoItems));
    ItemStarts(vocab, SRepeat(x, mark), false, NUL);
    var item := ItemText(SRepeat(x, mark));
    assert AltsText(alts) == ItemsText(alts.only) == item + "";
    assert AltsText(alts)[0] == item[0];
    assert ItemsOk(vocab, alts.only, false, NUL);
    OneDefOk(vocab, name, alts);
  }

  lemma {:induction false} OneDefOk(vocab: Vocabulary, name: string, alts: SAlts)
    requires name != "" && IsName(name) && AltsOk(vocab, alts, false, NUL) && StartsAtom(First(AltsText(alts), NUL))
    ensures TextOk(vocab, SText("", [SDef(name, " ", " ", alts, "", "")]))
  {
    var d := SDef(name, " ", " ", alts, "", "");
    assert [d][1..] == [] && First(d.end + d.gap, NUL) == NUL;
    assert DefOk(vocab, d, NUL) && DefsOk(vocab, []);
    OneDefText(d);
    assert First(DefText(d), NUL) == name[0];
  }

  // A spelled grammar and nothing else.
  lemma {:induction false} ReadsWhole(vocab: Vocabulary, c: SText)
    requires TextOk(vocab, c)
    ensures ReadText(vocab, TextOf(c)) == Good(DefsMeaning(vocab, c.defs), |TextOf(c)|)
  {
    var t := TextOf(c);
    assert t[0..0 + |t|] == t;
    HasFrom(t, 0, t);
    ReadsText(vocab, c, t);
  }

  lemma {:induction false} OneRuleReads(vocab: Vocabulary, name: string, x: SItem, mark: SMark)
    requires name != "" && IsName(name) && ItemOk(vocab, SRepeat(x, mark), false, NUL)
    ensures var r := ReadText(vocab, name + (" ::= " + (ItemText(x) + MarkText(mark))));
      r.Good? && r.v == [Definition(name, LastAlt(MoreItems(ItemMeaning(vocab, SRepeat(x, mark)), NoItems)))]
  {
    OneRuleText(name, x, mark);
    OneRuleOk(vocab, name, x, mark);
    ReadsWhole(vocab, OneRule(name, x, mark));
    OneRuleMeaning(vocab, name, x, mark);
  }

  lemma {:induction false} OneRuleMeaning(vocab: Vocabulary, name: string, x: SItem, mark: SMark)
    ensures DefsMeaning(vocab, OneRule(name, x, mark).defs)
         == [Definition(name, LastAlt(MoreItems(ItemMeaning(vocab, SRepeat(x, mark)), NoItems)))]
  {
    var d := OneRule(name, x, mark).defs[0];
    assert OneRule(name, x, mark).defs[1..] == [];
    assert ItemsMeaning(vocab, d.alts.only) == MoreItems(ItemMeaning(vocab, SRepeat(x, mark)), NoItems);
  }

  lemma {:induction false} OneOverlay(name: string, alts: Alts)
    ensures Overlay(map[], [Definition(name, alts)]) == map[name := alts]
  {
    assert [Definition(name, alts)][1..] == [];
  }

  // A name with alternates of a single item means what the item means.
  lemma {:induction false} NameOfItem(defs: Defs, name: string, item: Item, w: seq<nat>)
    requires name in defs && defs[name] == LastAlt(MoreItems(item, NoItems))
    ensures Denotes(defs, Item.Name(name), w) <==> Denotes(defs, item, w)
  {
    var alts := defs[name];
    if Denotes(defs, Item.Name(name), w) {
      var d :| Means(defs, Item.Name(name), d) && Spells(d) == w;
      assert MeansAlt(defs, alts, d.alt, d.body);
      assert MeansItems(defs, alts.only, d.body) && MeansItems(defs, NoItems, d.body.tail) && Spells(d.body) == Spells(d.body.head) + [];
      assert Means(defs, item, d.body.head) && Spells(d.body.head) == w;
    }
    if Denotes(defs, item, w) {
      var d :| Means(defs, item, d) && Spells(d) == w;
      var body := Cons(d, Nil);
      assert MeansItems(defs, alts.only.tail, Nil);
      assert MeansItems(defs, alts.only, body) && Spells(body) == w + [] == w;
      assert MeansAlt(defs, alts, 0, body);
      assert Means(defs, Item.Name(name), Pick(0, body)) && Spells(Pick(0, body)) == w;
    }
  }

  /**
   The text of a rule with one marked item, however the item and the mark are spelled: it is read, and its name
   means exactly the words that consist of as many words of the item as the mark asks for.
   */
  lemma {:induction false} MarkedRule(vocab: Vocabulary, name: string, x: SItem, mark: SMark, w: seq<nat>)
    requires name != "" && IsName(name) && ItemOk(vocab, SRepeat(x, mark), false, NUL)
    ensures var r := ReadText(vocab, name + (" ::= " + (ItemText(x) + MarkText(mark))));
      r.Good? && var defs := Overlay(map[], r.v);
      Denotes(defs, Item.Name(name), w) <==> IsMarked(defs, ItemMeaning(vocab, x), mark, w)
  {
    OneRuleReads(vocab, name, x, mark);
    var alts := LastAlt(MoreItems(ItemMeaning(vocab, SRepeat(x, mark)), NoItems));
    OneOverlay(name, alts);
    NameOfItem(map[name := alts], name, ItemMeaning(vocab, SRepeat(x, mark)), w);
    MarkMeans(vocab, map[name := alts], x, mark, w);
  }
}
