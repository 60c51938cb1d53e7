/**
 Correctness of the translation in both directions: parses of the flat rules are derivations of the
 grammar text, and derivations are parses.
 */
module GbnfCorrect {
  import opened GrammarRules
  import opened GrammarLanguage
  import opened Gbnf
  import opened GbnfSymbols
  import opened GbnfCompile
  import opened GbnfRepetition
  import opened GbnfMeaning

  // ---------- alternates of a translated rule ----------

  // The alternates of a rule, each with all that follows it.
  function AltTails(rule: Rule): set<Rule> {
    set a: nat | a < |rule| && IsAltStart(rule, a) :: rule[a..]
  }

  lemma AltTailsHas(rule: Rule, a: nat)
    requires IsAltStart(rule, a)
    ensures rule[a..] in AltTails(rule)
  {}

  lemma LastAltTails(seg: Rule)
    requires NoEnds(seg)
    ensures AltTails(seg + [END_ELEM]) == {seg + [END_ELEM]}
  {
    var rule := seg + [END_ELEM];
    assert rule[0..] == rule;
    AltTailsHas(rule, 0);
    forall a: nat | a < |rule| && IsAltStart(rule, a) ensures rule[a..] == rule {
      assert forall i :: 0 <= i < |seg| ==> rule[i] == seg[i];
    }
  }

  lemma MoreAltStarts(seg: Rule, rest: Rule, a: nat)
    requires NoEnds(seg) && rest != []
    ensures IsAltStart(seg + ([ALT_ELEM] + rest), a) <==> a == 0 || (a > |seg| && IsAltStart(rest, a - |seg| - 1))
  {
    var rule := seg + ([ALT_ELEM] + rest);
    assert rule[|seg|] == ALT_ELEM;
    if 0 < a < |rule| {
      if a <= |seg| { assert rule[a - 1] == seg[a - 1]; }
      if a > |seg| + 1 { assert rule[a - 1] == rest[a - |seg| - 2]; }
    }
  }

  lemma MoreDrop(seg: Rule, rest: Rule, a: nat)
    requires |seg| < a <= |seg| + 1 + |rest|
    ensures (seg + ([ALT_ELEM] + rest))[a..] == rest[a - |seg| - 1..]
  {}

  lemma MoreAltTails(seg: Rule, rest: Rule)
    requires NoEnds(seg) && rest != []
    ensures AltTails(seg + ([ALT_ELEM] + rest)) == {seg + ([ALT_ELEM] + rest)} + AltTails(rest)
  {
    var rule := seg + ([ALT_ELEM] + rest);
    assert rule[0..] == rule;
    MoreAltStarts(seg, rest, 0);
    AltTailsHas(rule, 0);
    forall a: nat | a < |rule| && IsAltStart(rule, a) ensures rule[a..] in {rule} + AltTails(rest) {
      MoreAltStarts(seg, rest, a);
      if a > 0 {
        MoreDrop(seg, rest, a);
        AltTailsHas(rest, a - |seg| - 1);
      }
    }
    forall i: nat | i < |rest| && IsAltStart(rest, i) ensures rest[i..] in AltTails(rule) {
      MoreAltStarts(seg, rest, i + |seg| + 1);
      MoreDrop(seg, rest, i + |seg| + 1);
      AltTailsHas(rule, i + |seg| + 1);
    }
  }

  lemma SymsBeforeEnd(seg: Rule, rest: Rule)
    requires NoEnds(seg) && rest != [] && IsEndOfSequence(rest[0])
    ensures Syms(seg + rest) == Syms(seg)
  {
    SymsConcat(seg, rest);
    SymsOfEnd(rest);
  }

  lemma {:induction false} CompiledAltsNonempty(st: State, name: string, alts: Alts)
    ensures var c := CompileAlts(st, name, alts); c.Compiled? ==> c.seg != []
    decreases alts
  {}

  lemma ItemsNoEnds(st: State, name: string, items: Items)
    ensures var c := CompileItems(st, name, items); c.Compiled? ==> NoEnds(c.seg)
  {
    CompileItemsGood(st, name, items);
  }

  // ---------- one step of the translation ----------

  ghost predicate Ready(b: Linkage, st: State, name: string) {
    ValidState(st) && IsName(name)
  }

  ghost predicate ItemReady(b: Linkage, st: State, name: string, item: Item) {
    && Ready(b, st, name) && GoodNames(item)
    && CompileItem(st, name, item).Compiled? && Covers(b.g, b.ids, CompileItem(st, name, item).st)
  }

  ghost predicate ItemsReady(b: Linkage, st: State, name: string, items: Items) {
    && Ready(b, st, name) && GoodNamesItems(items)
    && CompileItems(st, name, items).Compiled? && Covers(b.g, b.ids, CompileItems(st, name, items).st)
  }

  ghost predicate AltsReady(b: Linkage, st: State, name: string, alts: Alts) {
    && Ready(b, st, name) && GoodNamesAlts(alts)
    && CompileAlts(st, name, alts).Compiled? && Covers(b.g, b.ids, CompileAlts(st, name, alts).st)
  }

  function ItemSyms(st: State, name: string, item: Item): seq<Sym>
    requires CompileItem(st, name, item).Compiled?
  {
    Syms(CompileItem(st, name, item).seg)
  }

  function ItemsSyms(st: State, name: string, items: Items): seq<Sym>
    requires CompileItems(st, name, items).Compiled?
  {
    Syms(CompileItems(st, name, items).seg)
  }

  lemma ItemsStep(b: Linkage, st: State, name: string, items: Items)
    requires items.MoreItems? && ItemsReady(b, st, name, items)
    ensures ItemReady(b, st, name, items.head)
    ensures ItemsReady(b, CompileItem(st, name, items.head).st, name, items.tail)
    ensures ItemsSyms(st, name, items)
         == ItemSyms(st, name, items.head) + ItemsSyms(CompileItem(st, name, items.head).st, name, items.tail)
  {
    var c := CompileItem(st, name, items.head);
    var e := CompileItems(c.st, name, items.tail);
    CompileItemValid(st, name, items.head);
    CompileItemsValid(c.st, name, items.tail);
    CoversEarlier(b.g, b.ids, c.st, e.st);
    CompileItemGood(st, name, items.head);
    CompileItemsGood(c.st, name, items.tail);
    GoodSegStarts(e.seg);
    GoodSegNoEnds(c.seg);
    SymsConcat(c.seg, e.seg);
  }

  lemma AltsStep(b: Linkage, st: State, name: string, alts: Alts)
    requires AltsReady(b, st, name, alts)
    ensures alts.LastAlt? ==> ItemsReady(b, st, name, alts.only)
    ensures alts.MoreAlts? ==> ItemsReady(b, st, name, alts.first)
                               && AltsReady(b, CompileItems(st, name, alts.first).st, name, alts.rest)
  {
    if alts.MoreAlts? {
      var c := CompileItems(st, name, alts.first);
      CompileItemsValid(st, name, alts.first);
      CompileAltsValid(c.st, name, alts.rest);
      CoversEarlier(b.g, b.ids, c.st, CompileAlts(c.st, name, alts.rest).st);
    }
  }

  // The alternates of a translated rule are those of its first part and of the rest.
  lemma TranslatedTails(st: State, name: string, alts: Alts)
    requires CompileAlts(st, name, alts).Compiled?
    ensures var rule := CompileAlts(st, name, alts).seg;
            match alts
            case LastAlt(only) => AltTails(rule) == {rule} && Syms(rule) == ItemsSyms(st, name, only)
            case MoreAlts(first, rest) =>
              Syms(rule) == ItemsSyms(st, name, first)
              && AltTails(rule) == {rule} + AltTails(CompileAlts(CompileItems(st, name, first).st, name, rest).seg)
  {
    match alts
    case LastAlt(only) =>
      ItemsNoEnds(st, name, only);
      LastAltTails(CompileItems(st, name, only).seg);
      SymsBeforeEnd(CompileItems(st, name, only).seg, [END_ELEM]);
    case MoreAlts(first, rest) =>
      var c := CompileItems(st, name, first);
      var e := CompileAlts(c.st, name, rest);
      ItemsNoEnds(st, name, first);
      CompiledAltsNonempty(c.st, name, rest);
      MoreAltTails(c.seg, e.seg);
      SymsBeforeEnd(c.seg, [ALT_ELEM] + e.seg);
      ConcatAssoc(c.seg, [ALT_ELEM], e.seg);
  }

  // A reference to a name leads to its definition.
  lemma NameStep(b: Linkage, st: State, name: string, ref: string)
    requires ItemReady(b, st, name, Item.Name(ref))
    ensures ref in b.ids && ItemSyms(st, name, Item.Name(ref)) == [Ref(b.ids[ref])]
    ensures ref in b.defs ==> ref in b.starts && AltsReady(b, b.starts[ref], ref, b.defs[ref])
                              && RuleAt(b.g, b.ids[ref]) == CompileAlts(b.starts[ref], ref, b.defs[ref]).seg
    ensures RuleAt(b.g, b.ids[ref]) != [] ==> ref in b.defs
  {
    GetIdEffect(st, ref);
    SymsOfRefElem(b.ids[ref]);
    assert LinkedName(b, ref) && DefinedName(b, ref);
  }

  // A reference to a group leads to its alternates.
  lemma GroupStep(b: Linkage, st: State, name: string, alts: Alts)
    requires ItemReady(b, st, name, Group(alts))
    ensures ItemSyms(st, name, Group(alts)) == [Ref(|st.ids|)]
    ensures AltsReady(b, Generate(st, name).0, name, alts)
    ensures RuleAt(b.g, |st.ids|) == CompileAlts(Generate(st, name).0, name, alts).seg
  {
    var t := Generate(st, name).0;
    GenerateEffect(st, name);
    CompileAltsValid(t, name, alts);
    var c := CompileAlts(t, name, alts);
    CompiledAltsNonempty(t, name, alts);
    GroupCovered(b.g, b.ids, st, name, c.st, c.seg);
    SymsOfRefElem(|st.ids|);
  }

  // A repetition's rules are in place.
  lemma RepeatStep(b: Linkage, st: State, name: string, x: Item, min: nat, max: Option<nat>) returns (n: nat, last: nat)
    requires ItemReady(b, st, name, Repeat(x, min, max))
    ensures min <= MAX_REPETITION_THRESHOLD && ItemReady(b, st, name, x) && GoodSeg(CompileItem(st, name, x).seg)
    ensures n == OptCount(min, EffectiveMax(max))
    ensures OptionalIn(b.g, CompileItem(st, name, x).seg, last, n, EffectiveMax(max).None?)
    ensures ItemSyms(st, name, Repeat(x, min, max)) == Syms(RepetitionSeg(CompileItem(st, name, x).seg, min, n, last))
  {
    var c := CompileItem(st, name, x);
    CompileItemValid(st, name, x);
    CompileItemGood(st, name, x);
    var e := Repetition(c.st, name, c.seg, c.weight, min, EffectiveMax(max));
    RepetitionValid(c.st, name, c.seg, c.weight, min, EffectiveMax(max));
    CoversEarlier(b.g, b.ids, c.st, e.st);
    RepetitionCovered(b.g, b.ids, c.st, name, c.seg, c.weight, min, EffectiveMax(max));
    n := OptCount(min, EffectiveMax(max));
    last := Optional(c.st, name, c.seg, n, EffectiveMax(max).None?).1;
  }

  // ---------- from parses to derivations ----------

  lemma {:induction false} ItemToDeriv(b: Linkage, st: State, name: string, item: Item, p: Parse, n: nat) returns (d: Deriv)
    requires ItemReady(b, st, name, item) && Parses(b.g, ItemSyms(st, name, item), p) && Size(p) <= n
    ensures Means(b.defs, item, d) && Spells(d) == Yield(p)
    decreases n, item, 0, 0
  {
    match item
    case Name(ref) =>
      NameStep(b, st, name, ref);
      ParseOfRef(b.g, b.ids[ref], p);
      AltTailsHas(b.g[b.ids[ref]], p.alt);
      var k, e := AltsToDeriv(b, b.starts[ref], ref, b.defs[ref], b.g[b.ids[ref]][p.alt..], p.inner, n - 1);
      d := Pick(k, e);
    case Group(alts) =>
      GroupStep(b, st, name, alts);
      ParseOfRef(b.g, |st.ids|, p);
      AltTailsHas(b.g[|st.ids|], p.alt);
      var k, e := AltsToDeriv(b, Generate(st, name).0, name, alts, b.g[|st.ids|][p.alt..], p.inner, n - 1);
      d := Pick(k, e);
    case Repeat(x, min, max) =>
      var m, last := RepeatStep(b, st, name, x, min, max);
      var cs := RepetitionToCopies(b.g, CompileItem(st, name, x).seg, min, m, EffectiveMax(max).None?, last, p);
      BoundsRealised(min, max, |cs|);
      d := CopiesToDeriv(b, st, name, x, cs, n);
    case _ =>
      d := TerminalToDeriv(b.defs, b.g, st, name, item, p);
  }

  lemma {:induction false} CopiesToDeriv(b: Linkage, st: State, name: string, item: Item, cs: seq<Parse>, n: nat) returns (d: Deriv)
    requires ItemReady(b, st, name, item) && AllParse(b.g, ItemSyms(st, name, item), cs) && AllWithin(cs, n)
    ensures MeansCopies(b.defs, item, d) && Length(d) == |cs| && Spells(d) == YieldAll(cs)
    decreases n, item, 1, |cs|
  {
    if cs == [] {
      d := Nil;
    } else {
      var e := ItemToDeriv(b, st, name, item, cs[0], n);
      var f := CopiesToDeriv(b, st, name, item, cs[1..], n);
      d := Cons(e, f);
    }
  }

  lemma {:induction false} ItemsToDeriv(b: Linkage, st: State, name: string, items: Items, form: seq<Sym>, p: Parse, n: nat)
    returns (d: Deriv)
    requires ItemsReady(b, st, name, items) && form == ItemsSyms(st, name, items) && Parses(b.g, form, p) && Size(p) <= n
    ensures MeansItems(b.defs, items, d) && Spells(d) == Yield(p)
    decreases n, items, 0, 0
  {
    if items.NoItems? {
      d := Nil;
    } else {
      ItemsStep(b, st, name, items);
      var t := CompileItem(st, name, items.head).st;
      var q, r := ParsesSplit(b.g, ItemSyms(st, name, items.head), ItemsSyms(t, name, items.tail), p);
      var e := ItemToDeriv(b, st, name, items.head, q, n);
      var f := ItemsToDeriv(b, t, name, items.tail, ItemsSyms(t, name, items.tail), r, n);
      d := Cons(e, f);
    }
  }

  lemma {:induction false} AltsToDeriv(b: Linkage, st: State, name: string, alts: Alts, tail: Rule, p: Parse, n: nat)
    returns (k: nat, d: Deriv)
    requires AltsReady(b, st, name, alts) && tail in AltTails(CompileAlts(st, name, alts).seg)
    requires Parses(b.g, Syms(tail), p) && Size(p) <= n
    ensures MeansAlt(b.defs, alts, k, d) && Spells(d) == Yield(p)
    decreases n, alts, 1, 0
  {
    TranslatedTails(st, name, alts);
    if tail == CompileAlts(st, name, alts).seg {
      k := 0;
      d := FirstToDeriv(b, st, name, alts, p, n);
    } else {
      k, d := RestToDeriv(b, st, name, alts, tail, p, n);
    }
  }

  lemma {:induction false} FirstToDeriv(b: Linkage, st: State, name: string, alts: Alts, p: Parse, n: nat) returns (d: Deriv)
    requires AltsReady(b, st, name, alts)
    requires Parses(b.g, Syms(CompileAlts(st, name, alts).seg), p) && Size(p) <= n
    ensures MeansAlt(b.defs, alts, 0, d) && Spells(d) == Yield(p)
    decreases n, alts, 0, 0
  {
    var items := if alts.LastAlt? then alts.only else alts.first;
    AltsStep(b, st, name, alts);
    TranslatedTails(st, name, alts);
    d := ItemsToDeriv(b, st, name, items, Syms(CompileAlts(st, name, alts).seg), p, n);
  }

  lemma {:induction false} RestToDeriv(b: Linkage, st: State, name: string, alts: Alts, tail: Rule, p: Parse, n: nat)
    returns (k: nat, d: Deriv)
    requires alts.MoreAlts? && AltsReady(b, st, name, alts)
    requires tail in AltTails(CompileAlts(CompileItems(st, name, alts.first).st, name, alts.rest).seg)
    requires Parses(b.g, Syms(tail), p) && Size(p) <= n
    ensures k > 0 && MeansAlt(b.defs, alts, k, d) && Spells(d) == Yield(p)
    decreases n, alts, 0, 0
  {
    AltsStep(b, st, name, alts);
    k, d := AltsToDeriv(b, CompileItems(st, name, alts.first).st, name, alts.rest, tail, p, n);
    k := k + 1;
  }

  // ---------- from derivations to parses ----------

  lemma {:induction false} ItemFromDeriv(b: Linkage, st: State, name: string, item: Item, d: Deriv) returns (p: Parse)
    requires ItemReady(b, st, name, item) && Means(b.defs, item, d)
    ensures Parses(b.g, ItemSyms(st, name, item), p) && Yield(p) == Spells(d)
    decreases d, 1, item
  {
    match item
    case Name(ref) =>
      NameStep(b, st, name, ref);
      var tail, q := AltsFromDeriv(b, b.starts[ref], ref, b.defs[ref], d.alt, d.body);
      p := TailParse(b.g, b.ids[ref], tail, q);
    case Group(alts) =>
      GroupStep(b, st, name, alts);
      var tail, q := AltsFromDeriv(b, Generate(st, name).0, name, alts, d.alt, d.body);
      p := TailParse(b.g, |st.ids|, tail, q);
    case Repeat(x, min, max) =>
      var n, last := RepeatStep(b, st, name, x, min, max);
      var cs := CopiesFromDeriv(b, st, name, x, d);
      BoundsRealised(min, max, |cs|);
      p := CopiesToRepetition(b.g, CompileItem(st, name, x).seg, min, n, EffectiveMax(max).None?, last, cs);
    case _ =>
      p := TerminalFromDeriv(b.defs, b.g, st, name, item, d);
  }

  lemma {:induction false} CopiesFromDeriv(b: Linkage, st: State, name: string, item: Item, d: Deriv) returns (cs: seq<Parse>)
    requires ItemReady(b, st, name, item) && MeansCopies(b.defs, item, d)
    ensures |cs| == Length(d) && AllParse(b.g, ItemSyms(st, name, item), cs) && YieldAll(cs) == Spells(d)
    decreases d, 0, item
  {
    if d.Nil? {
      cs := [];
    } else {
      var c := ItemFromDeriv(b, st, name, item, d.head);
      var more := CopiesFromDeriv(b, st, name, item, d.tail);
      cs := [c] + more;
    }
  }

  lemma {:induction false} ItemsFromDeriv(b: Linkage, st: State, name: string, items: Items, d: Deriv) returns (p: Parse)
    requires ItemsReady(b, st, name, items) && MeansItems(b.defs, items, d)
    ensures Parses(b.g, ItemsSyms(st, name, items), p) && Yield(p) == Spells(d)
    decreases d, 2, items
  {
    if items.NoItems? {
      p := Done;
    } else {
      ItemsStep(b, st, name, items);
      var t := CompileItem(st, name, items.head).st;
      var q := ItemFromDeriv(b, st, name, items.head, d.head);
      var r := ItemsFromDeriv(b, t, name, items.tail, d.tail);
      ParsesAppend(b.g, ItemSyms(st, name, items.head), ItemsSyms(t, name, items.tail), q, r);
      p := Append(q, r);
    }
  }

  lemma {:induction false} AltsFromDeriv(b: Linkage, st: State, name: string, alts: Alts, k: nat, d: Deriv)
    returns (tail: Rule, p: Parse)
    requires AltsReady(b, st, name, alts) && MeansAlt(b.defs, alts, k, d)
    ensures tail in AltTails(CompileAlts(st, name, alts).seg)
    ensures Parses(b.g, Syms(tail), p) && Yield(p) == Spells(d)
    decreases d, 3, alts
  {
    AltsStep(b, st, name, alts);
    TranslatedTails(st, name, alts);
    if k == 0 {
      tail := CompileAlts(st, name, alts).seg;
      p := ItemsFromDeriv(b, st, name, if alts.LastAlt? then alts.only else alts.first, d);
    } else {
      tail, p := AltsFromDeriv(b, CompileItems(st, name, alts.first).st, name, alts.rest, k - 1, d);
    }
  }

  lemma TailParse(g: Rules, id: nat, tail: Rule, inner: Parse) returns (p: Parse)
    requires tail in AltTails(RuleAt(g, id)) && Parses(g, Syms(tail), inner)
    ensures Parses(g, [Ref(id)], p) && Yield(p) == Yield(inner)
  {
    var a: nat :| a < |RuleAt(g, id)| && IsAltStart(RuleAt(g, id), a) && tail == RuleAt(g, id)[a..];
    p := RefParse(g, id, a, Syms(tail), inner);
  }

  // A translated item generates exactly what it means.
  lemma ItemCorrect(b: Linkage, st: State, name: string, item: Item, w: seq<nat>)
    requires ItemReady(b, st, name, item)
    ensures InLang(b.g, ItemSyms(st, name, item), w) <==> Denotes(b.defs, item, w)
  {
    if InLang(b.g, ItemSyms(st, name, item), w) {
      var p :| Parses(b.g, ItemSyms(st, name, item), p) && Yield(p) == w;
      var d := ItemToDeriv(b, st, name, item, p, Size(p));
    }
    if Denotes(b.defs, item, w) {
      var d :| Means(b.defs, item, d) && Spells(d) == w;
      var p := ItemFromDeriv(b, st, name, item, d);
    }
  }
}
