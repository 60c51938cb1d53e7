/**
 The translation preserves meaning: the flat rules produced for a grammar text generate, for every
 rule name, exactly the words that the text means by it.  Nested groups and repetitions are covered.
 */
module GbnfMeaning {
  import opened GrammarRules
  import opened Gbnf
  import opened GbnfSymbols
  import opened GbnfCompile
  import opened GbnfRepetition

  // ---------- shape of the segments ----------

  predicate ClassElem(e: Elem) {
    e.typ.Char? || e.typ.CharNot? || IsContinuation(e)
  }

  // Further items of a class.
  predicate GoodMore(x: Rule) {
    && (x != [] ==> x[0].typ.CharAlt?)
    && (forall i :: 0 <= i < |x| ==> ClassElem(x[i]) && (i > 0 ==> GoodAt(x, i)))
  }

  lemma GoodMoreConcat(x: Rule, y: Rule)
    requires GoodMore(x) && GoodMore(y)
    ensures GoodMore(x + y)
  {
    forall i | 0 <= i < |x + y| ensures ClassElem((x + y)[i]) && (i > 0 ==> GoodAt(x + y, i)) {
      if i < |x| {
        assert ClassElem(x[i]) && (i > 0 ==> GoodAt(x, i));
      } else {
        assert (x + y)[i] == y[i - |x|] && ClassElem(y[i - |x|]);
        if i > |x| { assert GoodAt(y, i - |x|) && (x + y)[i - 1] == y[i - |x| - 1]; }
        else if |x| > 0 { assert (x + y)[i - 1] == x[|x| - 1] && ClassElem(x[|x| - 1]); }
      }
    }
  }

  lemma {:induction false} AltElemsGood(items: seq<ClassItem>)
    ensures GoodMore(AltElems(items))
    decreases |items|
  {
    if items != [] {
      AltElemsGood(items[1..]);
      assert GoodMore(ItemElems(CharAlt, items[0]));
      GoodMoreConcat(ItemElems(CharAlt, items[0]), AltElems(items[1..]));
    }
  }

  lemma ClassElemsGood(negated: bool, items: seq<ClassItem>)
    ensures GoodSeg(ClassElems(negated, items))
  {
    if items != [] {
      AltElemsGood(items[1..]);
      var x, y := ItemElems(if negated then CharNot else Char, items[0]), AltElems(items[1..]);
      forall i | 0 <= i < |x + y| ensures !IsEndOfSequence((x + y)[i]) && GoodAt(x + y, i) {
        if i > |x| {
          assert GoodAt(y, i - |x|) && (x + y)[i] == y[i - |x|] && (x + y)[i - 1] == y[i - |x| - 1] && ClassElem(y[i - |x|]);
        } else if i == |x| {
          assert (x + y)[i] == y[0] && ClassElem(y[0]) && (x + y)[i - 1] == x[|x| - 1];
        }
      }
    }
  }

  lemma {:induction false} CharElemsGood(chars: seq<nat>)
    ensures GoodSeg(CharElems(chars))
    decreases |chars|
  {
    if chars != [] {
      CharElemsGood(chars[1..]);
      assert GoodSeg([Elem(Char, chars[0])]);
      GoodSegConcat([Elem(Char, chars[0])], CharElems(chars[1..]));
    }
  }

  lemma RepetitionGood(st: State, name: string, prev: Rule, weight: nat, min: nat, max: Option<nat>)
    requires GoodSeg(prev) && min <= WORD
    ensures var c := Repetition(st, name, prev, weight, min, max); c.Compiled? ==> GoodSeg(c.seg)
  {
    TimesGood(prev, min);
    var n := OptCount(min, max);
    var last := Optional(st, name, prev, n, max.None?).1;
    var tail: Rule := if n == 0 then [] else [RefElem(last)];
    assert GoodSeg(tail);
    GoodSegConcat(Times(prev, min), tail);
  }

  lemma {:induction false} CompileItemGood(st: State, name: string, item: Item)
    ensures var c := CompileItem(st, name, item); c.Compiled? ==> GoodSeg(c.seg)
    decreases item
  {
    match item
    case Literal(chars) => CharElemsGood(chars);
    case CharClass(negated, items) => ClassElemsGood(negated, items);
    case Repeat(x, min, max) =>
      CompileItemGood(st, name, x);
      var c := CompileItem(st, name, x);
      if c.Compiled? && min <= MAX_REPETITION_THRESHOLD {
        RepetitionGood(c.st, name, c.seg, c.weight, min, EffectiveMax(max));
      }
    case _ =>
  }

  lemma {:induction false} CompileItemsGood(st: State, name: string, items: Items)
    ensures var c := CompileItems(st, name, items); c.Compiled? ==> GoodSeg(c.seg)
    decreases items
  {
    if items.MoreItems? {
      CompileItemGood(st, name, items.head);
      var c := CompileItem(st, name, items.head);
      if c.Compiled? {
        CompileItemsGood(c.st, name, items.tail);
        var e := CompileItems(c.st, name, items.tail);
        if e.Compiled? { GoodSegConcat(c.seg, e.seg); }
      }
    }
  }

  // ---------- terminals ----------

  function ToRange(i: ClassItem): Range {
    match i
    case One(c) => Range(c, c)
    case Span(lo, hi) => Range(lo, hi)
  }

  function Ranges(items: seq<ClassItem>): (rs: seq<Range>)
    ensures |rs| == |items| && forall i :: 0 <= i < |items| ==> rs[i] == ToRange(items[i])
  {
    if items == [] then [] else [ToRange(items[0])] + Ranges(items[1..])
  }

  lemma {:induction false} ClassOfItems(typ: ElemType, items: seq<ClassItem>)
    requires items != [] && (typ.Char? || typ.CharNot? || typ.CharAlt?)
    ensures var r := ItemElems(typ, items[0]) + AltElems(items[1..]);
            ClassLen(r) == |r| && ClassRanges(r) == Ranges(items)
    decreases |items|
  {
    var x, y := ItemElems(typ, items[0]), AltElems(items[1..]);
    var r := x + y;
    assert y != [] ==> y[0].typ.CharAlt? by { AltElemsGood(items[1..]); }
    assert ItemLen(r) == |x| && ItemRange(r) == ToRange(items[0]);
    assert r[|x|..] == y;
    if items[1..] != [] {
      ClassOfItems(CharAlt, items[1..]);
      assert r[|x|] == y[0];
    }
  }

  lemma ClassMeans(negated: bool, items: seq<ClassItem>, c: nat)
    ensures Accepts(Class(!negated, Ranges(items)), c) <==> InClass(negated, items, c)
  {
    var rs := Ranges(items);
    if i :| 0 <= i < |items| && InItem(items[i], c) { assert InRange(rs[i], c); }
    if i :| 0 <= i < |rs| && InRange(rs[i], c) { assert InItem(items[i], c); }
  }

  lemma SymsOfClass(negated: bool, items: seq<ClassItem>)
    requires items != []
    ensures Syms(ClassElems(negated, items)) == [Class(!negated, Ranges(items))]
  {
    var r := ClassElems(negated, items);
    ClassOfItems(if negated then CharNot else Char, items);
    assert r[|r|..] == [];
  }

  lemma SymsOfOne(e: Elem)
    requires e.typ.Char? || e.typ.CharAny?
    ensures Syms([e]) == [Class(true, [if e.typ.Char? then Range(e.value, e.value) else AnyChar])]
  {
    assert ClassLen([e]) == 1 && [e][1..] == [];
    assert ClassRanges([e]) == [ItemRange([e])];
  }

  // The single parse of a form of one class.
  lemma OneClass(g: Rules, s: Sym, p: Parse)
    requires s.Class?
    ensures Parses(g, [s], p) <==> p.Shift? && p.rest == Done && Accepts(s, p.c)
    ensures Parses(g, [s], p) ==> Yield(p) == [p.c]
  {
    assert [s][1..] == [];
    if p.Shift? { assert [p.c] + [] == [p.c]; }
  }

  function Shifts(chars: seq<nat>): (p: Parse)
    ensures Yield(p) == chars
  {
    if chars == [] then Done else Shift(chars[0], Shifts(chars[1..]))
  }

  lemma {:induction false} LiteralParses(g: Rules, chars: seq<nat>, p: Parse)
    ensures Parses(g, Syms(CharElems(chars)), p) <==> p == Shifts(chars)
    decreases |chars|
  {
    if chars != [] {
      var s := Class(true, [Range(chars[0], chars[0])]);
      var x, y := [Elem(Char, chars[0])], CharElems(chars[1..]);
      CharElemsGood(chars[1..]);
      SymsConcat(x, y);
      SymsOfOne(x[0]);
      assert ([s] + Syms(y))[1..] == Syms(y);
      forall c ensures Accepts(s, c) <==> c == chars[0] {
        if c == chars[0] { assert InRange(s.ranges[0], c); }
      }
      if p.Shift? { LiteralParses(g, chars[1..], p.rest); }
    }
  }

  // Items without names, groups or repetitions.
  predicate IsTerminal(item: Item) {
    item.Literal? || item.CharClass? || item.Dot? || item.TokenId?
  }

  lemma SymsOfDot()
    ensures Syms([Elem(CharAny, 0)]) == [Class(true, [AnyChar])]
  {
    SymsOfOne(Elem(CharAny, 0));
  }

  lemma DotAccepts(c: nat)
    ensures Accepts(Class(true, [AnyChar]), c)
  {
    assert InRange(Class(true, [AnyChar]).ranges[0], c);
  }

  lemma TokenParsesNothing(g: Rules, negated: bool, id: nat, p: Parse)
    ensures !Parses(g, Syms([Elem(if negated then TokenNot else Token, id)]), p)
  {}

  lemma TerminalToDeriv(defs: Defs, g: Rules, st: State, name: string, item: Item, p: Parse) returns (d: Deriv)
    requires IsTerminal(item) && Parses(g, Syms(CompileItem(st, name, item).seg), p)
    ensures Means(defs, item, d) && Spells(d) == Yield(p)
  {
    d := Chars(Yield(p));
    match item
    case Literal(chars) => LiteralParses(g, chars, p);
    case CharClass(negated, items) =>
      if items != [] {
        SymsOfClass(negated, items);
        OneClass(g, Class(!negated, Ranges(items)), p);
        ClassMeans(negated, items, p.c);
      }
    case Dot =>
      SymsOfDot();
      OneClass(g, Class(true, [AnyChar]), p);
    case TokenId(negated, id) => TokenParsesNothing(g, negated, id, p);
  }

  lemma TerminalFromDeriv(defs: Defs, g: Rules, st: State, name: string, item: Item, d: Deriv) returns (p: Parse)
    requires IsTerminal(item) && Means(defs, item, d)
    ensures Parses(g, Syms(CompileItem(st, name, item).seg), p) && Yield(p) == Spells(d)
  {
    match item
    case Literal(chars) =>
      p := Shifts(chars);
      LiteralParses(g, chars, p);
    case CharClass(negated, items) =>
      if items == [] {
        p := Done;
      } else {
        p := Shift(d.w[0], Done);
        SymsOfClass(negated, items);
        OneClass(g, Class(!negated, Ranges(items)), p);
        ClassMeans(negated, items, d.w[0]);
      }
    case Dot =>
      p := Shift(d.w[0], Done);
      SymsOfDot();
      OneClass(g, Class(true, [AnyChar]), p);
      DotAccepts(d.w[0]);
  }

  // ---------- the finished grammar and its intermediate states ----------

  // The finished grammar keeps the names of st and the generated rules that st has.
  ghost predicate Covers(g: Rules, ids: Ids, st: State) {
    && (forall s :: s in st.ids ==> s in ids && ids[s] == st.ids[s])
    && (forall s :: s in st.ids && !IsName(s) && RuleAt(st.rules, st.ids[s]) != [] ==>
                      RuleAt(g, st.ids[s]) == RuleAt(st.rules, st.ids[s]))
  }

  lemma CoversEarlier(g: Rules, ids: Ids, a: State, b: State)
    requires ValidState(a) && Grows(a, b) && Covers(g, ids, b)
    ensures Covers(g, ids, a)
  {
    forall s | s in a.ids && !IsName(s) && RuleAt(a.rules, a.ids[s]) != []
      ensures RuleAt(g, a.ids[s]) == RuleAt(a.rules, a.ids[s])
    {
      assert RuleAt(b.rules, b.ids[s]) == RuleAt(a.rules, a.ids[s]);
    }
  }

  lemma NewRuleCovered(g: Rules, ids: Ids, st: State, base: string, rule: Rule)
    requires ValidState(st) && IsName(base) && rule != [] && Covers(g, ids, NewRule(st, base, rule))
    ensures RuleAt(g, |st.ids|) == rule && Covers(g, ids, st)
  {
    NewRuleEffect(st, base, rule);
    CoversEarlier(g, ids, st, NewRule(st, base, rule));
  }

  lemma GroupCovered(g: Rules, ids: Ids, st: State, name: string, u: State, rule: Rule)
    requires ValidState(st) && IsName(name) && ValidState(u) && Grows(Generate(st, name).0, u)
    requires rule != [] && Covers(g, ids, AddRule(u, |st.ids|, rule))
    ensures RuleAt(g, |st.ids|) == rule && Covers(g, ids, u)
  {
    GenerateEffect(st, name);
    AddRuleEffect(u, |st.ids|, rule);
    assert RuleAt(u.rules, |st.ids|) == [];
    assert u.ids[GeneratedName(name, |st.ids|)] == |st.ids|;
  }

  lemma {:induction false} ChainCovered(g: Rules, ids: Ids, st: State, name: string, prev: Rule, k: nat)
    requires ValidState(st) && IsName(name) && Covers(g, ids, Chain(st, name, prev, k).0)
    ensures k > 0 ==> ChainIn(g, prev, Chain(st, name, prev, k).1, k)
    decreases k
  {
    if k > 0 {
      var (s, below) := Chain(st, name, prev, k - 1);
      ChainValid(st, name, prev, k - 1);
      ChainValid(st, name, prev, k);
      NewRuleCovered(g, ids, s, name, StepRule(prev, k, below));
      ChainCovered(g, ids, st, name, prev, k - 1);
    }
  }

  lemma RepetitionCovered(g: Rules, ids: Ids, st: State, name: string, prev: Rule, weight: nat, min: nat, max: Option<nat>)
    requires ValidState(st) && IsName(name) && min <= WORD
    requires var c := Repetition(st, name, prev, weight, min, max); c.Compiled? && Covers(g, ids, c.st)
    ensures var n := OptCount(min, max);
            var last := Optional(st, name, prev, n, max.None?).1;
            OptionalIn(g, prev, last, n, max.None?)
            && Repetition(st, name, prev, weight, min, max).seg == RepetitionSeg(prev, min, n, last)
  {
    if max.None? {
      NewRuleCovered(g, ids, st, name, LoopRule(prev, |st.ids|));
    } else {
      ChainCovered(g, ids, st, name, prev, OptCount(min, max));
    }
  }

  // The bounds that the translation of a repetition realises.
  lemma BoundsRealised(min: nat, max: Option<nat>, k: nat)
    requires min <= MAX_REPETITION_THRESHOLD
    ensures InCount(min, OptCount(min, EffectiveMax(max)), EffectiveMax(max).None?, k)
            <==> min <= k && (Upper(min, max).Some? ==> k <= Upper(min, max).value)
  {}

  // A finished grammar: rules, ids, the definition in force for every name, and the state in which
  // the translation of each definition began.
  datatype Built = Built(g: Rules, ids: Ids, defs: Defs, starts: map<string, State>)

  ghost predicate LinkedName(b: Built, s: string) {
    s in b.defs ==>
      && s in b.starts && s in b.ids && IsName(s) && GoodNamesAlts(b.defs[s]) && ValidState(b.starts[s])
      && var c := CompileAlts(b.starts[s], s, b.defs[s]);
         c.Compiled? && RuleAt(b.g, b.ids[s]) == c.seg && Covers(b.g, b.ids, c.st)
  }

  ghost predicate DefinedName(b: Built, s: string) {
    s in b.ids && IsName(s) && RuleAt(b.g, b.ids[s]) != [] ==> s in b.defs
  }

  ghost predicate Linked(b: Built) {
    && (forall s :: LinkedName(b, s))
    && (forall s :: DefinedName(b, s))
  }

  type Linkage = b: Built | Linked(b) ghost witness Built([], map[], map[], map[])
}
