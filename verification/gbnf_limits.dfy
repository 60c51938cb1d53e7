/**
 Which surface grammars the translation refuses, told from the surface grammar alone: a mark with nothing before
 it, a lower bound above the threshold, and nested repetitions whose numbers multiply to more than the threshold.
 A group counts as many times as it adds symbols, so the names met before it matter.
 */
module GbnfLimits {
  import opened GrammarRules
  import opened Gbnf
  import opened GbnfSymbols
  import opened GbnfCompile
  import opened GbnfParse

  // ---------- what an item adds to the symbol table ----------

  function NamesOf(item: Item): set<string> {
    match item
    case Name(s) => {s}
    case Group(alts) => NamesOfAlts(alts)
    case Repeat(x, _, _) => NamesOf(x)
    case _ => {}
  }

  function NamesOfItems(items: Items): set<string> {
    if items.NoItems? then {} else NamesOf(items.head) + NamesOfItems(items.tail)
  }

  function NamesOfAlts(alts: Alts): set<string> {
    match alts
    case LastAlt(only) => NamesOfItems(only)
    case MoreAlts(first, rest) => NamesOfItems(first) + NamesOfAlts(rest)
  }

  // The rules of a repetition: one that refers to itself, or one for each optional copy.
  function OptionalRules(min: nat, max: Option<nat>): nat {
    match Upper(min, max)
    case None => 1
    case Some(n) => if n >= min then n - min else 0
  }

  // The generated symbols: one for every group, and those of the repetitions.
  function Helpers(item: Item): nat {
    match item
    case Group(alts) => 1 + HelpersOfAlts(alts)
    case Repeat(x, min, max) => Helpers(x) + OptionalRules(min, max)
    case _ => 0
  }

  function HelpersOfItems(items: Items): nat {
    if items.NoItems? then 0 else Helpers(items.head) + HelpersOfItems(items.tail)
  }

  function HelpersOfAlts(alts: Alts): nat {
    match alts
    case LastAlt(only) => HelpersOfItems(only)
    case MoreAlts(first, rest) => HelpersOfItems(first) + HelpersOfAlts(rest)
  }

  // ---------- what is refused ----------

  // The number a repetition is counted with: its upper bound, its lower bound if there is no upper bound or it
  // is zero, and at least one.
  function Counted(min: nat, max: Option<nat>): (n: nat)
    ensures n >= 1
  {
    if max.Some? && 0 < max.value <= MAX_REPETITION_THRESHOLD then max.value
    else if min == 0 then 1 else min
  }

  // known: the names met before the item
  function Weight(known: set<string>, item: Item): (n: nat)
    ensures n >= 1
    decreases item
  {
    match item
    case Group(alts) => 1 + HelpersOfAlts(alts) + |NamesOfAlts(alts) - known|
    case Repeat(x, min, max) =>
      AtLeastOne(Weight(known, x), Counted(min, max));
      Weight(known, x) * Counted(min, max)
    case _ => 1
  }

  lemma AtLeastOne(a: nat, b: nat)
    requires a >= 1 && b >= 1
    ensures a * b >= 1
  {}

  // The item stands for the empty text by being nothing at all.
  predicate Empty(item: Item) {
    match item
    case Literal(chars) => chars == []
    case CharClass(_, items) => items == []
    case Repeat(_, min, max) => min == 0 && max == Some(0)
    case _ => false
  }

  predicate Refused(known: set<string>, item: Item)
    decreases item
  {
    match item
    case Group(alts) => RefusedAlts(known, alts)
    case Repeat(x, min, max) =>
      || Refused(known, x) || Empty(x) || min > MAX_REPETITION_THRESHOLD
      || Weight(known, x) * Counted(min, max) > MAX_REPETITION_THRESHOLD
    case _ => false
  }

  predicate RefusedItems(known: set<string>, items: Items)
    decreases items
  {
    items.MoreItems? && (Refused(known, items.head) || RefusedItems(known + NamesOf(items.head), items.tail))
  }

  predicate RefusedAlts(known: set<string>, alts: Alts)
    decreases alts
  {
    match alts
    case LastAlt(only) => RefusedItems(known, only)
    case MoreAlts(first, rest) => RefusedItems(known, first) || RefusedAlts(known + NamesOfItems(first), rest)
  }

  predicate RefusedDefs(known: set<string>, defs: seq<Definition>)
    decreases |defs|
  {
    defs != [] &&
    (var met := known + {defs[0].name};
     RefusedAlts(met, defs[0].alts) || RefusedDefs(met + NamesOfAlts(defs[0].alts), defs[1..]))
  }

  // ---------- the translation ----------

  // Of a symbol table: the names from the text in it, and its size.
  datatype Tally = Tally(names: set<string>, size: nat)

  function Known(st: State): set<string> {
    set s | s in st.ids && IsName(s)
  }

  function TallyOf(st: State): Tally {
    Tally(Known(st), |st.ids|)
  }

  // With these names and so many generated symbols more.
  function Grown(t: Tally, names: set<string>, helpers: nat): Tally {
    Tally(t.names + names, t.size + |names - t.names| + helpers)
  }

  lemma {:induction false} GrownTwice(t: Tally, a: set<string>, m: nat, b: set<string>, n: nat)
    ensures Grown(Grown(t, a, m), b, n) == Grown(t, a + b, m + n)
  {
    assert (a + b) - t.names == (a - t.names) + (b - (t.names + a));
    assert (a - t.names) !! (b - (t.names + a));
    assert (t.names + a) + b == t.names + (a + b);
  }

  lemma {:induction false} GrownByHelpers(t: Tally, names: set<string>, m: nat, n: nat)
    ensures Grown(Grown(t, names, m), {}, n) == Grown(t, names, m + n)
    ensures Grown(Grown(t, {}, m), names, n) == Grown(t, names, m + n)
    ensures Grown(t, {}, 0) == t
  {
    GrownTwice(t, names, m, {}, n);
    GrownTwice(t, {}, m, names, n);
    assert names + {} == names && {} + names == names;
    assert t.names + {} == t.names && {} - t.names == {};
  }

  lemma {:induction false} GetIdAdds(st: State, s: string)
    requires IsName(s)
    ensures TallyOf(GetId(st, s).0) == Grown(TallyOf(st), {s}, 0)
  {
    if s in st.ids {
      assert {s} - Known(st) == {} && Known(st) + {s} == Known(st);
    } else {
      var u := GetId(st, s).0;
      assert u.ids.Keys == st.ids.Keys + {s};
      assert {s} - Known(st) == {s};
      assert Known(u) == Known(st) + {s};
    }
  }

  lemma {:induction false} GenerateAdds(st: State, base: string)
    requires ValidState(st) && IsName(base)
    ensures TallyOf(Generate(st, base).0) == Grown(TallyOf(st), {}, 1)
  {
    GenerateEffect(st, base);
    var u := Generate(st, base).0;
    assert {} - Known(st) == {};
    assert u.ids.Keys == st.ids.Keys + {GeneratedName(base, |st.ids|)};
    assert Known(u) == Known(st) + {};
  }

  lemma {:induction false} AddRuleAddsNothing(u: State, id: nat, rule: Rule)
    ensures TallyOf(AddRule(u, id, rule)) == TallyOf(u)
  {
    assert Known(AddRule(u, id, rule)) == Known(u);
  }

  lemma {:induction false} NewRuleAdds(st: State, base: string, rule: Rule)
    requires ValidState(st) && IsName(base)
    ensures TallyOf(NewRule(st, base, rule)) == Grown(TallyOf(st), {}, 1)
  {
    GenerateAdds(st, base);
    AddRuleAddsNothing(Generate(st, base).0, |st.ids|, rule);
  }

  lemma {:induction false} OneRuleMore(start: Tally, s: State, name: string, rule: Rule, k: nat)
    requires ValidState(s) && IsName(name) && TallyOf(s) == Grown(start, {}, k)
    ensures TallyOf(NewRule(s, name, rule)) == Grown(start, {}, k + 1)
  {
    NewRuleAdds(s, name, rule);
    GrownByHelpers(start, {}, k, 1);
  }

  lemma {:induction false} ChainKeepsValid(st: State, name: string, prev: Rule, k: nat)
    requires ValidState(st) && IsName(name)
    ensures ValidState(Chain(st, name, prev, k).0)
  {
    ChainValid(st, name, prev, k);
  }

  lemma {:induction false} ChainAdds(st: State, name: string, prev: Rule, k: nat)
    requires ValidState(st) && IsName(name)
    ensures TallyOf(Chain(st, name, prev, k).0) == Grown(TallyOf(st), {}, k)
    decreases k
  {
    if k == 0 {
      GrownByHelpers(TallyOf(st), {}, 0, 0);
    } else {
      var before := Chain(st, name, prev, k - 1);
      ChainAdds(st, name, prev, k - 1);
      ChainKeepsValid(st, name, prev, k - 1);
      OneRuleMore(TallyOf(st), before.0, name, StepRule(prev, k, before.1), k - 1);
    }
  }

  // What a translated item must be, from the surface alone.
  predicate AsForetold(before: Tally, item: Item, c: Compiled) {
    if c.Failed? then Refused(before.names, item)
    else
      && !Refused(before.names, item) && TallyOf(c.st) == Grown(before, NamesOf(item), Helpers(item))
      && c.weight == Weight(before.names, item) && (c.seg == [] <==> Empty(item))
  }

  lemma {:induction false} TimesEmpty(seg: Rule, k: nat)
    requires seg != []
    ensures Times(seg, k) == [] <==> k == 0
  {}

  lemma {:induction false} OptionalAdds(st: State, name: string, prev: Rule, min: nat, max: Option<nat>)
    requires ValidState(st) && IsName(name) && min <= MAX_REPETITION_THRESHOLD
    ensures var e := EffectiveMax(max);
      TallyOf(Optional(st, name, prev, OptCount(min, e), e.None?).0) == Grown(TallyOf(st), {}, OptionalRules(min, max))
  {
    var e := EffectiveMax(max);
    if e.None? { NewRuleAdds(st, name, LoopRule(prev, |st.ids|)); } else { ChainAdds(st, name, prev, OptCount(min, e)); }
  }

  lemma {:induction false} RepetitionForetold(st: State, name: string, prev: Rule, weight: nat, min: nat, max: Option<nat>)
    requires ValidState(st) && IsName(name) && min <= MAX_REPETITION_THRESHOLD
    ensures var c := Repetition(st, name, prev, weight, min, EffectiveMax(max));
      && (c.Failed? <==> prev == [] || weight * Counted(min, max) > MAX_REPETITION_THRESHOLD)
      && (c.Compiled? ==> TallyOf(c.st) == Grown(TallyOf(st), {}, OptionalRules(min, max))
                          && c.weight == weight * Counted(min, max) && (c.seg == [] <==> min == 0 && max == Some(0)))
  {
    OptionalAdds(st, name, prev, min, max);
    assert TotalRules(min, EffectiveMax(max)) == Counted(min, max);
    if prev != [] { TimesEmpty(prev, min); }
  }

  lemma {:induction false} TerminalForetold(st: State, name: string, item: Item)
    requires !item.Name? && !item.Group? && !item.Repeat?
    ensures AsForetold(TallyOf(st), item, CompileItem(st, name, item))
  {
    GrownByHelpers(TallyOf(st), {}, 0, 0);
  }

  lemma {:induction false} ItemForetold(st: State, name: string, item: Item)
    requires ValidState(st) && IsName(name) && GoodNames(item)
    ensures AsForetold(TallyOf(st), item, CompileItem(st, name, item))
    decreases item, 0
  {
    match item
    case Name(s) => GetIdAdds(st, s);
    case Group(alts) => GroupForetold(st, name, alts);
    case Repeat(x, min, max) =>
      ItemForetold(st, name, x);
      CompileItemValid(st, name, x);
      RepeatForetold(st, name, x, min, max);
    case _ => TerminalForetold(st, name, item);
  }

  lemma {:induction false} RepeatForetold(st: State, name: string, x: Item, min: nat, max: Option<nat>)
    requires IsName(name) && AsForetold(TallyOf(st), x, CompileItem(st, name, x))
    requires CompileItem(st, name, x).Compiled? ==> ValidState(CompileItem(st, name, x).st)
    ensures AsForetold(TallyOf(st), Repeat(x, min, max), CompileItem(st, name, Repeat(x, min, max)))
  {
    var c := CompileItem(st, name, x);
    if c.Compiled? && min <= MAX_REPETITION_THRESHOLD {
      RepetitionForetold(c.st, name, c.seg, c.weight, min, max);
      RepeatOfItem(TallyOf(st), x, c, min, max, Repetition(c.st, name, c.seg, c.weight, min, EffectiveMax(max)));
    }
  }

  lemma {:induction false} RepeatOfItem(before: Tally, x: Item, c: Compiled, min: nat, max: Option<nat>, e: Compiled)
    requires c.Compiled? && AsForetold(before, x, c) && min <= MAX_REPETITION_THRESHOLD
    requires e.Failed? <==> c.seg == [] || c.weight * Counted(min, max) > MAX_REPETITION_THRESHOLD
    requires e.Compiled? ==> TallyOf(e.st) == Grown(TallyOf(c.st), {}, OptionalRules(min, max))
    requires e.Compiled? ==> e.weight == c.weight * Counted(min, max) && (e.seg == [] <==> min == 0 && max == Some(0))
    ensures AsForetold(before, Repeat(x, min, max), e)
  {
    GrownByHelpers(before, NamesOf(x), Helpers(x), OptionalRules(min, max));
  }

  // Whether the alternates are refused, and what they add to the table.
  predicate AltsAsForetold(before: Tally, alts: Alts, c: Compiled) {
    && (c.Failed? <==> RefusedAlts(before.names, alts))
    && (c.Compiled? ==> TallyOf(c.st) == Grown(before, NamesOfAlts(alts), HelpersOfAlts(alts)))
  }

  predicate ItemsAsForetold(before: Tally, items: Items, c: Compiled) {
    && (c.Failed? <==> RefusedItems(before.names, items))
    && (c.Compiled? ==> TallyOf(c.st) == Grown(before, NamesOfItems(items), HelpersOfItems(items)))
  }

  lemma {:induction false} GroupOfAlts(st: State, name: string, alts: Alts)
    requires var t := Generate(st, name).0;
      TallyOf(t) == Grown(TallyOf(st), {}, 1) && AltsAsForetold(TallyOf(t), alts, CompileAlts(t, name, alts))
    ensures AsForetold(TallyOf(st), Group(alts), CompileItem(st, name, Group(alts)))
  {
    var t := Generate(st, name).0;
    var c := CompileAlts(t, name, alts);
    assert TallyOf(t).names == TallyOf(st).names + {} == TallyOf(st).names;
    if c.Compiled? {
      AddRuleAddsNothing(c.st, |st.ids|, c.seg);
      GroupTally(TallyOf(st), alts, TallyOf(c.st));
    }
  }

  // What is added to the table is what the group counts for.
  lemma {:induction false} GroupTally(before: Tally, alts: Alts, after: Tally)
    requires after == Grown(Grown(before, {}, 1), NamesOfAlts(alts), HelpersOfAlts(alts))
    ensures after == Grown(before, NamesOfAlts(alts), Helpers(Group(alts)))
    ensures after.size == before.size + Weight(before.names, Group(alts)) > before.size
  {
    GrownByHelpers(before, NamesOfAlts(alts), 1, HelpersOfAlts(alts));
    GrownTwice(before, {}, 1, NamesOfAlts(alts), HelpersOfAlts(alts));
    assert {} + NamesOfAlts(alts) == NamesOfAlts(alts);
  }

  lemma {:induction false} GroupForetold(st: State, name: string, alts: Alts)
    requires ValidState(st) && IsName(name) && GoodNamesAlts(alts)
    ensures AsForetold(TallyOf(st), Group(alts), CompileItem(st, name, Group(alts)))
    decreases alts, 1
  {
    GenerateEffect(st, name);
    GenerateAdds(st, name);
    AltsForetold(Generate(st, name).0, name, alts);
    GroupOfAlts(st, name, alts);
  }

  lemma {:induction false} HeadThenTail(before: Tally, head: Item, c: Compiled, tail: Items, e: Compiled)
    requires c.Compiled? && AsForetold(before, head, c) && ItemsAsForetold(TallyOf(c.st), tail, e)
    ensures e.Failed? <==> RefusedItems(before.names, MoreItems(head, tail))
    ensures e.Compiled? ==>
              TallyOf(e.st) == Grown(before, NamesOfItems(MoreItems(head, tail)), HelpersOfItems(MoreItems(head, tail)))
  {
    GrownTwice(before, NamesOf(head), Helpers(head), NamesOfItems(tail), HelpersOfItems(tail));
  }

  lemma {:induction false} ItemsForetold(st: State, name: string, items: Items)
    requires ValidState(st) && IsName(name) && GoodNamesItems(items)
    ensures ItemsAsForetold(TallyOf(st), items, CompileItems(st, name, items))
    decreases items, 0
  {
    if items.NoItems? {
      GrownByHelpers(TallyOf(st), {}, 0, 0);
    } else {
      ItemForetold(st, name, items.head);
      CompileItemValid(st, name, items.head);
      var c := CompileItem(st, name, items.head);
      if c.Compiled? {
        ItemsForetold(c.st, name, items.tail);
        HeadThenTail(TallyOf(st), items.head, c, items.tail, CompileItems(c.st, name, items.tail));
      }
    }
  }

  lemma {:induction false} FirstThenRest(before: Tally, first: Items, c: Compiled, rest: Alts, e: Compiled)
    requires c.Compiled? && ItemsAsForetold(before, first, c) && AltsAsForetold(TallyOf(c.st), rest, e)
    ensures e.Failed? <==> RefusedAlts(before.names, MoreAlts(first, rest))
    ensures e.Compiled? ==>
              TallyOf(e.st) == Grown(before, NamesOfAlts(MoreAlts(first, rest)), HelpersOfAlts(MoreAlts(first, rest)))
  {
    GrownTwice(before, NamesOfItems(first), HelpersOfItems(first), NamesOfAlts(rest), HelpersOfAlts(rest));
  }

  lemma {:induction false} AltsForetold(st: State, name: string, alts: Alts)
    requires ValidState(st) && IsName(name) && GoodNamesAlts(alts)
    ensures AltsAsForetold(TallyOf(st), alts, CompileAlts(st, name, alts))
    decreases alts, 0
  {
    match alts
    case LastAlt(only) => ItemsForetold(st, name, only);
    case MoreAlts(first, rest) =>
      ItemsForetold(st, name, first);
      CompileItemsValid(st, name, first);
      var c := CompileItems(st, name, first);
      if c.Compiled? {
        AltsForetold(c.st, name, rest);
        FirstThenRest(TallyOf(st), first, c, rest, CompileAlts(c.st, name, rest));
      }
  }

  lemma {:induction false} FirstDef(st: State, t: State, id: nat, d: Definition, defs: seq<Definition>)
    requires (t, id) == GetId(st, d.name) && IsName(d.name)
    requires var c := CompileAlts(t, d.name, d.alts);
      && AltsAsForetold(TallyOf(t), d.alts, c)
      && (c.Compiled? ==>
            var u := AddRule(c.st, id, c.seg); CompileDefs(u, defs).ParseFailed? <==> RefusedDefs(Known(u), defs))
    ensures CompileDefs(st, [d] + defs).ParseFailed? <==> RefusedDefs(Known(st), [d] + defs)
  {
    GetIdAdds(st, d.name);
    var c := CompileAlts(t, d.name, d.alts);
    if c.Compiled? { AddRuleAddsNothing(c.st, id, c.seg); }
    assert ([d] + defs)[1..] == defs;
  }

  lemma {:induction false} DefsForetold(st: State, defs: seq<Definition>)
    requires ValidState(st) && GoodDefs(defs)
    ensures CompileDefs(st, defs).ParseFailed? <==> RefusedDefs(Known(st), defs)
    decreases |defs|
  {
    if defs != [] {
      var d := defs[0];
      var (t, id) := GetId(st, d.name);
      GetIdEffect(st, d.name);
      AltsForetold(t, d.name, d.alts);
      CompileAltsValid(t, d.name, d.alts);
      var c := CompileAlts(t, d.name, d.alts);
      if c.Compiled? { DefsForetold(AddRule(c.st, id, c.seg), defs[1..]); }
      FirstDef(st, t, id, d, defs[1..]);
      assert [d] + defs[1..] == defs;
    }
  }

  /**
   The translation fails exactly for the definitions that are refused, whatever their names are numbered.
   */
  lemma FailsIffRefused(defs: seq<Definition>)
    requires GoodDefs(defs)
    ensures CompileDefs(EMPTY, defs).ParseFailed? <==> RefusedDefs({}, defs)
  {
    assert Known(EMPTY) == {};
    DefsForetold(EMPTY, defs);
  }
}
