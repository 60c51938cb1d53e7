/**
 The main results about the grammar parser: the rules it returns are well-formed, and they generate
 for every defined name exactly the words the text means by it.
 */
module GbnfParse {
  import opened GrammarRules
  import opened Gbnf
  import opened GbnfSymbols
  import opened GbnfCompile
  import opened GbnfRepetition
  import opened GbnfMeaning
  import opened GbnfCorrect

  // ---------- the produced rules are well-formed ----------

  lemma WfLast(seg: Rule)
    requires GoodSeg(seg)
    ensures WfRule(seg + [END_ELEM])
  {
    var r := seg + [END_ELEM];
    forall i | 0 <= i < |r| ensures GoodAt(r, i) && (i < |r| - 1 ==> !r[i].typ.End?) {
      if i < |seg| { assert GoodAt(seg, i) && r[i] == seg[i]; }
    }
  }

  lemma WfMore(seg: Rule, rest: Rule)
    requires GoodSeg(seg) && WfRule(rest)
    ensures WfRule(seg + [ALT_ELEM] + rest)
  {
    var r := seg + [ALT_ELEM] + rest;
    assert GoodAt(rest, 0);
    forall i | 0 <= i < |r| ensures GoodAt(r, i) && (i < |r| - 1 ==> !r[i].typ.End?) {
      if i < |seg| {
        assert GoodAt(seg, i) && r[i] == seg[i];
      } else if i > |seg| {
        var j := i - |seg| - 1;
        assert GoodAt(rest, j) && r[i] == rest[j];
        if j > 0 { assert r[i - 1] == rest[j - 1]; }
      }
    }
    assert r[|r| - 1] == rest[|rest| - 1];
  }

  ghost predicate AllWf(st: State) {
    forall i: nat :: RuleAt(st.rules, i) == [] || WfRule(RuleAt(st.rules, i))
  }

  lemma AddRuleWf(st: State, id: nat, rule: Rule)
    requires AllWf(st) && WfRule(rule)
    ensures AllWf(AddRule(st, id, rule))
  {
    AddRuleEffect(st, id, rule);
  }

  lemma OptionalRuleWf(prev: Rule, below: Rule)
    requires GoodSeg(prev) && (below == [] || (|below| == 1 && below[0].typ.RuleRef?))
    ensures WfRule(prev + below + [ALT_ELEM, END_ELEM])
  {
    GoodSegConcat(prev, below);
    WfLast([]);
    assert [] + [END_ELEM] == [END_ELEM];
    WfMore(prev + below, [END_ELEM]);
    assert prev + below + [ALT_ELEM, END_ELEM] == (prev + below) + [ALT_ELEM] + [END_ELEM];
  }

  lemma {:induction false} ChainWf(st: State, name: string, prev: Rule, k: nat)
    requires AllWf(st) && GoodSeg(prev)
    ensures AllWf(Chain(st, name, prev, k).0)
    decreases k
  {
    if k > 0 {
      var (s, below) := Chain(st, name, prev, k - 1);
      ChainWf(st, name, prev, k - 1);
      OptionalRuleWf(prev, if k > 1 then [RefElem(below)] else []);
      AddRuleWf(Generate(s, name).0, |s.ids|, StepRule(prev, k, below));
    }
  }

  lemma RepetitionWf(st: State, name: string, prev: Rule, weight: nat, min: nat, max: Option<nat>)
    requires AllWf(st) && GoodSeg(prev) && min <= WORD
    ensures var c := Repetition(st, name, prev, weight, min, max); c.Compiled? ==> AllWf(c.st)
  {
    if max.None? {
      OptionalRuleWf(prev, [RefElem(|st.ids|)]);
      AddRuleWf(Generate(st, name).0, |st.ids|, LoopRule(prev, |st.ids|));
    } else {
      ChainWf(st, name, prev, OptCount(min, max));
    }
  }

  lemma {:induction false} ItemWf(st: State, name: string, item: Item)
    requires AllWf(st)
    ensures var c := CompileItem(st, name, item); c.Compiled? ==> AllWf(c.st)
    decreases item
  {
    match item
    case Group(alts) =>
      var t := Generate(st, name).0;
      AltsWf(t, name, alts);
      var c := CompileAlts(t, name, alts);
      if c.Compiled? { AddRuleWf(c.st, |st.ids|, c.seg); }
    case Repeat(x, min, max) =>
      ItemWf(st, name, x);
      CompileItemGood(st, name, x);
      var c := CompileItem(st, name, x);
      if c.Compiled? && min <= MAX_REPETITION_THRESHOLD {
        RepetitionWf(c.st, name, c.seg, c.weight, min, EffectiveMax(max));
      }
    case _ =>
  }

  lemma {:induction false} ItemsWf(st: State, name: string, items: Items)
    requires AllWf(st)
    ensures var c := CompileItems(st, name, items); c.Compiled? ==> AllWf(c.st)
    decreases items
  {
    if items.MoreItems? {
      ItemWf(st, name, items.head);
      var c := CompileItem(st, name, items.head);
      if c.Compiled? { ItemsWf(c.st, name, items.tail); }
    }
  }

  lemma {:induction false} AltsWf(st: State, name: string, alts: Alts)
    requires AllWf(st)
    ensures var c := CompileAlts(st, name, alts); c.Compiled? ==> AllWf(c.st) && WfRule(c.seg)
    decreases alts
  {
    var items := if alts.LastAlt? then alts.only else alts.first;
    ItemsWf(st, name, items);
    CompileItemsGood(st, name, items);
    var c := CompileItems(st, name, items);
    if c.Compiled? {
      if alts.LastAlt? {
        WfLast(c.seg);
      } else {
        AltsWf(c.st, name, alts.rest);
        var e := CompileAlts(c.st, name, alts.rest);
        if e.Compiled? { WfMore(c.seg, e.seg); }
      }
    }
  }

  lemma {:induction false} DefsWf(st: State, defs: seq<Definition>)
    requires AllWf(st)
    ensures var r := CompileDefs(st, defs); r.Parsed? ==> AllWf(r.st)
    decreases |defs|
  {
    if defs != [] {
      var (t, id) := GetId(st, defs[0].name);
      AltsWf(t, defs[0].name, defs[0].alts);
      var c := CompileAlts(t, defs[0].name, defs[0].alts);
      if c.Compiled? {
        AddRuleWf(c.st, id, c.seg);
        DefsWf(AddRule(c.st, id, c.seg), defs[1..]);
      }
    }
  }

  const EMPTY := State(map[], [])

  // What parse returns meets the format that the machine relies on.
  lemma ParsedIsWellFormed(defs: seq<Definition>)
    ensures var r := CompileDefs(EMPTY, defs); r.Parsed? && AllDefined(r.st.rules) ==> WfRules(r.st.rules)
  {
    DefsWf(EMPTY, defs);
    var r := CompileDefs(EMPTY, defs);
    if r.Parsed? && AllDefined(r.st.rules) {
      forall i | 0 <= i < |r.st.rules| ensures WfRule(r.st.rules[i]) {
        assert RuleAt(r.st.rules, i) == r.st.rules[i];
      }
    }
  }

  // ---------- the produced rules mean what the text means ----------

  predicate GoodDefs(defs: seq<Definition>) {
    forall i :: 0 <= i < |defs| ==> IsName(defs[i].name) && GoodNamesAlts(defs[i].alts)
  }

  // The definitions in force: a later one replaces an earlier one of the same name.
  function Overlay(m: Defs, defs: seq<Definition>): Defs
    decreases |defs|
  {
    if defs == [] then m else Overlay(m[defs[0].name := defs[0].alts], defs[1..])
  }

  lemma CoversLater(a: State, st: State, later: State)
    requires ValidState(st) && Covers(st.rules, st.ids, a) && Grows(st, later)
    ensures Covers(later.rules, later.ids, a)
  {
    forall s | s in a.ids && !IsName(s) && RuleAt(a.rules, a.ids[s]) != []
      ensures RuleAt(later.rules, a.ids[s]) == RuleAt(a.rules, a.ids[s])
    {
      assert st.ids[s] < |st.ids|;
    }
  }

  lemma CoversDefinition(a: State, u: State, name: string, rule: Rule)
    requires ValidState(u) && Covers(u.rules, u.ids, a) && IsName(name) && name in u.ids
    ensures Covers(AddRule(u, u.ids[name], rule).rules, u.ids, a)
  {
    AddRuleEffect(u, u.ids[name], rule);
  }

  lemma CoversSelf(st: State)
    ensures Covers(st.rules, st.ids, st)
  {}

  function Of(st: State, m: Defs, starts: map<string, State>): Built {
    Built(st.rules, st.ids, m, starts)
  }

  lemma KeepsLinked(st: State, m: Defs, starts: map<string, State>, u: State, name: string, rule: Rule, x: string)
    requires ValidState(st) && ValidState(u) && Grows(st, u) && IsName(name) && name in u.ids
    requires x != name && x in m && LinkedName(Of(st, m, starts), x)
    ensures LinkedName(Of(AddRule(u, u.ids[name], rule), m, starts), x)
  {
    var c := CompileAlts(starts[x], x, m[x]);
    AddRuleEffect(u, u.ids[name], rule);
    CoversLater(c.st, st, u);
    CoversDefinition(c.st, u, name, rule);
    assert u.ids[x] != u.ids[name];
  }

  lemma LinkOne(st: State, m: Defs, starts: map<string, State>, d: Definition) returns (later: State, m': Defs, starts': map<string, State>)
    requires ValidState(st) && Linked(Of(st, m, starts)) && IsName(d.name) && GoodNamesAlts(d.alts)
    requires CompileAlts(GetId(st, d.name).0, d.name, d.alts).Compiled?
    ensures var (t, id) := GetId(st, d.name);
            var c := CompileAlts(t, d.name, d.alts);
            later == AddRule(c.st, id, c.seg) && m' == m[d.name := d.alts]
    ensures ValidState(later) && Linked(Of(later, m', starts'))
  {
    var (t, id) := GetId(st, d.name);
    var c := CompileAlts(t, d.name, d.alts);
    later, m', starts' := AddRule(c.st, id, c.seg), m[d.name := d.alts], starts[d.name := t];
    GetIdEffect(st, d.name);
    CompileAltsValid(t, d.name, d.alts);
    GrowsTrans(st, t, c.st);
    AddRuleEffect(c.st, id, c.seg);
    CoversSelf(c.st);
    CoversDefinition(c.st, c.st, d.name, c.seg);
    forall x ensures LinkedName(Of(later, m', starts'), x) {
      if x != d.name && x in m {
        assert LinkedName(Of(st, m, starts), x);
        KeepsLinked(st, m, starts, c.st, d.name, c.seg, x);
      }
    }
    forall x ensures DefinedName(Of(later, m', starts'), x) {
      if x != d.name && x in later.ids && IsName(x) && RuleAt(later.rules, later.ids[x]) != [] {
        assert x in st.ids && DefinedName(Of(st, m, starts), x);
      }
    }
  }

  lemma {:induction false} LinkAll(st: State, m: Defs, starts: map<string, State>, defs: seq<Definition>) returns (starts': map<string, State>)
    requires ValidState(st) && Linked(Of(st, m, starts)) && GoodDefs(defs) && CompileDefs(st, defs).Parsed?
    ensures ValidState(CompileDefs(st, defs).st)
    ensures Linked(Of(CompileDefs(st, defs).st, Overlay(m, defs), starts'))
    decreases |defs|
  {
    if defs == [] {
      starts' := starts;
    } else {
      var later, m1, s1 := LinkOne(st, m, starts, defs[0]);
      starts' := LinkAll(later, m1, s1, defs[1..]);
    }
  }

  /**
   The translation preserves meaning.  If the text is accepted, the rule of a defined name generates
   exactly the words that the definitions in force mean by the name.
   */
  lemma ParsePreservesMeaning(defs: seq<Definition>, name: string, w: seq<nat>)
    requires GoodDefs(defs) && CompileDefs(EMPTY, defs).Parsed? && name in Overlay(map[], defs)
    ensures var st := CompileDefs(EMPTY, defs).st;
            name in st.ids && (InLang(st.rules, [Ref(st.ids[name])], w) <==> Denotes(Overlay(map[], defs), Name(name), w))
  {
    assert Linked(Of(EMPTY, map[], map[]));
    var starts := LinkAll(EMPTY, map[], map[], defs);
    var st := CompileDefs(EMPTY, defs).st;
    var b := Of(st, Overlay(map[], defs), starts);
    assert LinkedName(b, name);
    CoversSelf(st);
    ItemCorrect(b, st, name, Item.Name(name), w);
    SymsOfRefElem(st.ids[name]);
  }
}
