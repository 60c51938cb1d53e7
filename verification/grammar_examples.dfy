/**
 Grammars on which the left-recursion check and the machine part, each as a text that the reader accepts,
 as the rules it is translated to, and by the condition on the rules that it meets or fails.
 */
module GrammarExamples {
  import opened GrammarRules
  import opened GrammarMachine
  import opened GrammarTermination
  import opened GrammarCorners
  import opened GrammarHeights
  import opened GrammarSettling
  import opened LeftRecursion
  import opened RuleGraphs
  import opened Gbnf
  import opened GbnfSymbols
  import opened GbnfCompile
  import opened GbnfParse
  import opened GbnfParser
  import opened GbnfRoundTrip
  import opened GrammarText

  // ---------- texts and what they are translated to ----------

  predicate Gives(st: State, name: string, items: Items, u: State, seg: Rule) {
    ItemsFit(items) && CompileItems(st, name, items) == Compiled(u, seg, 0)
  }

  predicate AltsGive(st: State, name: string, alts: Alts, u: State, rule: Rule) {
    AltsFit(alts) && CompileAlts(st, name, alts) == Compiled(u, rule, 0)
  }

  predicate DefsGive(st: State, defs: seq<Definition>, u: State) {
    DefsFit(defs) && LinesEnd(defs) && CompileDefs(st, defs) == Parsed(u)
  }

  lemma NameGives(st: State, name: string, s: string, t: State, id: nat, tail: Items, u: State, seg: Rule)
    requires s != "" && IsName(s) && GetId(st, s) == (t, id) && Gives(t, name, tail, u, seg)
    ensures Gives(st, name, MoreItems(Item.Name(s), tail), u, [RefElem(id)] + seg)
  {}

  lemma CharGives(st: State, name: string, c: nat, tail: Items, u: State, seg: Rule)
    requires c < CODES && Gives(st, name, tail, u, seg)
    ensures Gives(st, name, MoreItems(Literal([c]), tail), u, [Elem(Char, c)] + seg)
  {
    assert [c][1..] == [] && Codes([]) && CharElems([]) == [];
    assert CharElems([c]) == [Elem(Char, c)] + CharElems([c][1..]);
  }

  lemma StarGives(st: State, name: string, c: nat)
    requires c < CODES
    ensures Gives(st, name, MoreItems(Repeat(Literal([c]), 0, None), NoItems),
                  NewRule(st, name, LoopRule([Elem(Char, c)], |st.ids|)), [RefElem(|st.ids|)])
  {
    CharGives(st, name, c, NoItems, st, []);
    var u := NewRule(st, name, LoopRule([Elem(Char, c)], |st.ids|));
    assert CompileItem(st, name, Literal([c])) == Compiled(st, [Elem(Char, c)], 1) by {
      assert [c][1..] == [] && CharElems([]) == [] && CharElems([c]) == [Elem(Char, c)] + CharElems([c][1..]);
    }
    assert Repetition(st, name, [Elem(Char, c)], 1, 0, None) == Compiled(u, [] + [RefElem(|st.ids|)], 1) by {
      assert Times([Elem(Char, c)], 0) == [];
    }
    assert CompileItem(st, name, Repeat(Literal([c]), 0, None)) == Compiled(u, [RefElem(|st.ids|)], 1);
    assert CompileItems(u, name, NoItems) == Compiled(u, [], 0);
  }

  lemma OneAltGives(st: State, name: string, items: Items, u: State, seg: Rule)
    requires Gives(st, name, items, u, seg)
    ensures AltsGive(st, name, LastAlt(items), u, seg + [END_ELEM])
  {}

  lemma TwoAltsGive(st: State, name: string, items: Items, t: State, seg: Rule, last: Items, u: State, rest: Rule)
    requires Gives(st, name, items, t, seg) && Gives(t, name, last, u, rest)
    ensures AltsGive(st, name, MoreAlts(items, LastAlt(last)), u, seg + [ALT_ELEM] + (rest + [END_ELEM]))
  {
    OneAltGives(t, name, last, u, rest);
  }

  lemma LastDefGives(st: State, d: Definition, t: State, id: nat, u: State, rule: Rule)
    requires d.name != "" && IsName(d.name) && GetId(st, d.name) == (t, id) && AltsGive(t, d.name, d.alts, u, rule)
    ensures DefsGive(st, [d], AddRule(u, id, rule))
  {
    assert [d][1..] == [] && DefsFit([]) && CompileDefs(AddRule(u, id, rule), []) == Parsed(AddRule(u, id, rule));
  }

  lemma DefsGiveMore(st: State, d: Definition, t: State, id: nat, u: State, rule: Rule, rest: seq<Definition>, v: State)
    requires d.name != "" && IsName(d.name) && GetId(st, d.name) == (t, id) && AltsGive(t, d.name, d.alts, u, rule)
    requires EndsWell(d.alts) && rest != [] && DefsGive(AddRule(u, id, rule), rest, v)
    ensures DefsGive(st, [d] + rest, v)
  {
    assert ([d] + rest)[1..] == rest;
    LinesEndSplit([d] + rest);
  }

  // The definitions are translated to the rules, with the root at id 0.
  ghost predicate TranslateTo(defs: seq<Definition>, g: Rules) {
    exists u :: DefsGive(EMPTY, defs, u) && u.rules == g && "root" in u.ids && u.ids["root"] == 0
  }

  predicate IsRead(vocab: Vocab, defs: seq<Definition>, st: State) {
    DefsFit(defs) && Accepted(vocab, ShowDefs(defs)) && RulesOf(vocab, ShowDefs(defs)) == st
  }

  // The text of the definitions is accepted and gives the rules, with the root at id 0.
  ghost predicate ReadsAs(vocab: Vocab, defs: seq<Definition>, g: Rules) {
    exists st :: IsRead(vocab, defs, st) && st.rules == g && "root" in st.ids && st.ids["root"] == 0
  }

  lemma TextGives(vocab: Vocab, defs: seq<Definition>, g: Rules)
    requires TranslateTo(defs, g) && WfRules(g)
    ensures ReadsAs(vocab, defs, g)
  {
    var u :| DefsGive(EMPTY, defs, u) && u.rules == g && "root" in u.ids && u.ids["root"] == 0;
    RoundTrip(vocab, defs);
    assert IsRead(vocab, defs, u);
  }

  // The symbol table once root and one or two more names have been met.
  function Two(a: string, rules: Rules): State {
    State(map["root" := 0, a := 1], rules)
  }

  function Three(a: string, b: string, rules: Rules): State {
    State(map["root" := 0, a := 1, b := 2], rules)
  }

  lemma FirstNames(a: string, rules: Rules)
    requires a != "root"
    ensures GetId(EMPTY, "root") == (State(map["root" := 0], []), 0)
    ensures GetId(State(map["root" := 0], rules), "root") == (State(map["root" := 0], rules), 0)
    ensures GetId(State(map["root" := 0], rules), a) == (Two(a, rules), 1)
    ensures GetId(Two(a, rules), "root") == (Two(a, rules), 0) && GetId(Two(a, rules), a) == (Two(a, rules), 1)
  {
    assert map[]["root" := 0] == map["root" := 0];
    assert map["root" := 0][a := 1] == map["root" := 0, a := 1];
  }

  lemma ThirdName(a: string, b: string, rules: Rules)
    requires a != "root" && b != "root" && a != b
    ensures GetId(Two(a, rules), b) == (Three(a, b, rules), 2) && GetId(Three(a, b, rules), b) == (Three(a, b, rules), 2)
  {
    assert map["root" := 0, a := 1][b := 2] == map["root" := 0, a := 1, b := 2];
    assert |Two(a, rules).ids| == 2 by { assert Two(a, rules).ids.Keys == {"root", a}; }
  }

  // The definition of a as c*, after root: one rule for a and one for the repetition.
  lemma StarDefGives(a: string, c: nat, first: Rule) returns (v: State)
    requires a != "" && a != "root" && IsName(a) && c < CODES
    ensures DefsGive(Two(a, [first]), [Definition(a, LastAlt(MoreItems(Repeat(Literal([c]), 0, None), NoItems)))], v)
    ensures "root" in v.ids && v.ids["root"] == 0
    ensures v.rules == [first, [RefElem(2), END_ELEM], [Elem(Char, c), RefElem(2), ALT_ELEM, END_ELEM]]
  {
    var st := Two(a, [first]);
    FirstNames(a, [first]);
    assert |st.ids| == 2 by { assert st.ids.Keys == {"root", a}; }
    StarGives(st, a, c);
    var items := MoreItems(Repeat(Literal([c]), 0, None), NoItems);
    var u := NewRule(st, a, LoopRule([Elem(Char, c)], 2));
    OneAltGives(st, a, items, u, [RefElem(2)]);
    LastDefGives(st, Definition(a, LastAlt(items)), st, 1, u, [RefElem(2)] + [END_ELEM]);
    v := AddRule(u, 1, [RefElem(2)] + [END_ELEM]);
    GeneratedIsNoName(a, 2);
    assert IsName("root");
    assert PadTo([first], 3) == [first, [], []] && |Generate(st, a).0.rules| == 1;
    assert LoopRule([Elem(Char, c)], 2) == [Elem(Char, c), RefElem(2), ALT_ELEM, END_ELEM];
    assert u.rules == [first, [], [Elem(Char, c), RefElem(2), ALT_ELEM, END_ELEM]] && PadTo(u.rules, 2) == u.rules;
    assert [RefElem(2)] + [END_ELEM] == [RefElem(2), END_ELEM];
  }

  // ---------- hidden left recursion ----------

  // root ::= a root "z" | "y",  a ::= s,  s ::= "x" s |
  // where a and s are what the parser makes of a ::= "x"*.
  const HIDDEN: Rules := [
    [Elem(RuleRef, 1), Elem(RuleRef, 0), Elem(Char, 122), Elem(Alt, 0), Elem(Char, 121), Elem(End, 0)],
    [Elem(RuleRef, 2), Elem(End, 0)],
    [Elem(Char, 120), Elem(RuleRef, 2), Elem(Alt, 0), Elem(End, 0)]
  ]

  lemma HiddenIsWellFormed()
    ensures WfRules(HIDDEN)
  {}

  lemma HiddenEmptyRules()
    ensures EmptyRules(HIDDEN) == {2}
  {
    assert IsAltStart(HIDDEN[2], 3) && IsEndOfSequence(HIDDEN[2][3]);
  }

  // The search finds nothing in it ...
  lemma HiddenPasses()
    ensures PassesCheck(HIDDEN)
  {
    HiddenIsWellFormed();
    HiddenEmptyRules();
    var rank: map<nat, nat> := map[0 := 2, 1 := 1, 2 := 0];
    assert PartialRank(HIDDEN, rank);
    RankOfMap(HIDDEN, rank);
  }

  // ... yet the machine can grow its stack by one for ever.
  lemma HiddenGrows(u: set<Stack>, base: Stack)
    requires ClosedUnderExpansion(HIDDEN, u) && ValidStack(HIDDEN, base) && base + [Pos(0, 0)] in u
    ensures (base + [Pos(0, 2)]) + [Pos(0, 0)] in u && ValidStack(HIDDEN, base + [Pos(0, 2)])
  {
    HiddenIsWellFormed();
    var s0 := base + [Pos(0, 0)];
    assert s0[..|base|] == base;
    assert CanExpand(HIDDEN, s0, 0);
    var s1 := (base + [Pos(0, 1)]) + [Pos(1, 0)];
    assert ExpandTop(HIDDEN, s0, 0) == s1;
    assert s1[..|base| + 1] == base + [Pos(0, 1)];
    assert CanExpand(HIDDEN, s1, 3);
    var s2 := base + [Pos(0, 1)];
    assert ExpandTop(HIDDEN, s1, 3) == s2;
    assert s2[..|base|] == base;
    assert CanExpand(HIDDEN, s2, 0);
    assert ExpandTop(HIDDEN, s2, 0) == (base + [Pos(0, 2)]) + [Pos(0, 0)];
  }

  lemma {:induction false} HiddenReaches(u: set<Stack>, n: nat) returns (base: Stack)
    requires ClosedUnderExpansion(HIDDEN, u) && [Pos(0, 0)] in u
    ensures ValidStack(HIDDEN, base) && |base| == n && base + [Pos(0, 0)] in u
    decreases n
  {
    if n == 0 {
      base := [];
      assert base + [Pos(0, 0)] == [Pos(0, 0)];
    } else {
      base := HiddenReaches(u, n - 1);
      HiddenGrows(u, base);
      base := base + [Pos(0, 2)];
    }
  }

  // So no finite set bounds the worklist: advance_stack does not terminate on the root of HIDDEN,
  // although left recursion was not reported.
  lemma HiddenDiverges(u: set<Stack>)
    requires [Pos(0, 0)] in u
    ensures !ClosedUnderExpansion(HIDDEN, u)
  {
    if ClosedUnderExpansion(HIDDEN, u) {
      var m := LongestStack(u);
      var base := HiddenReaches(u, m);
    }
  }

  const HIDDEN_ROOT := MoreItems(Item.Name("a"), MoreItems(Item.Name("root"), MoreItems(Literal([122]), NoItems)))
  const HIDDEN_Y := MoreItems(Literal([121]), NoItems)
  const HIDDEN_A := MoreItems(Repeat(Literal([120]), 0, None), NoItems)
  const HIDDEN_DEFS := [Definition("root", MoreAlts(HIDDEN_ROOT, LastAlt(HIDDEN_Y)))] + [Definition("a", LastAlt(HIDDEN_A))]

  lemma HiddenFirst()
    ensures AltsGive(State(map["root" := 0], []), "root", MoreAlts(HIDDEN_ROOT, LastAlt(HIDDEN_Y)), Two("a", []), HIDDEN[0])
  {
    var t0, t1 := State(map["root" := 0], []), Two("a", []);
    assert "root" != "a" by { assert |"root"| != |"a"|; }
    FirstNames("a", []);
    CharGives(t1, "root", 122, NoItems, t1, []);
    NameGives(t1, "root", "root", t1, 0, MoreItems(Literal([122]), NoItems), t1, [Elem(Char, 122)] + []);
    NameGives(t0, "root", "a", t1, 1, HIDDEN_ROOT.tail, t1, [RefElem(0)] + ([Elem(Char, 122)] + []));
    CharGives(t1, "root", 121, NoItems, t1, []);
    var seg, rest := [RefElem(1)] + ([RefElem(0)] + ([Elem(Char, 122)] + [])), [Elem(Char, 121)] + [];
    TwoAltsGive(t0, "root", HIDDEN_ROOT, t1, seg, HIDDEN_Y, t1, rest);
    assert HIDDEN[0] == seg + [ALT_ELEM] + (rest + [END_ELEM]);
  }

  // The root and one more name with a repetition: what the text is translated to.
  lemma RootThenStar(a: string, alts: Alts, rule: Rule, c: nat)
    requires a != "" && a != "root" && IsName(a) && c < CODES && EndsWell(alts)
    requires AltsGive(State(map["root" := 0], []), "root", alts, Two(a, []), rule)
    ensures TranslateTo([Definition("root", alts)] + [Definition(a, LastAlt(MoreItems(Repeat(Literal([c]), 0, None), NoItems)))],
                        [rule, [RefElem(2), END_ELEM], [Elem(Char, c), RefElem(2), ALT_ELEM, END_ELEM]])
  {
    FirstNames(a, []);
    var v := StarDefGives(a, c, rule);
    assert AddRule(Two(a, []), 0, rule) == Two(a, [rule]);
    DefsGiveMore(EMPTY, Definition("root", alts), State(map["root" := 0], []), 0, Two(a, []), rule,
                 [Definition(a, LastAlt(MoreItems(Repeat(Literal([c]), 0, None), NoItems)))], v);
  }

  lemma HiddenText(vocab: Vocab)
    ensures ReadsAs(vocab, HIDDEN_DEFS, HIDDEN)
  {
    HiddenFirst();
    assert "root" != "a" by { assert |"root"| != |"a"|; }
    RootThenStar("a", MoreAlts(HIDDEN_ROOT, LastAlt(HIDDEN_Y)), HIDDEN[0], 120);
    HiddenIsWellFormed();
    TextGives(vocab, HIDDEN_DEFS, HIDDEN);
  }

  lemma HiddenNullable()
    ensures 1 in Nullable(HIDDEN) && 2 in Nullable(HIDDEN)
  {
    assert HIDDEN[1][0..][1..] == [Elem(End, 0)];
    assert Syms(HIDDEN[1][0..]) == [Ref(2)] && Syms(HIDDEN[2][3..]) == [];
    var inner := Expand(3, Done, Done);
    assert Parses(HIDDEN, [Ref(2)], inner) && Yield(inner) == [];
    var d := Expand(0, inner, Done);
    assert Parses(HIDDEN, [Ref(1)], d) && Yield(d) == [];
  }

  // The reference to root in its own rule stands behind one to a rule that derives the empty word.
  lemma HiddenHasCycle()
    ensures WfRules(HIDDEN) && GrowingCycle(HIDDEN, 0, 1, 0)
  {
    HiddenIsWellFormed();
    HiddenNullable();
    LeadsToItself(CornerEdges(HIDDEN), 0);
  }

  lemma OtherStartHasNoCycle()
    ensures NoGrowingCycle(HIDDEN, {1, 2})
  {}

  lemma OtherScope()
    ensures ClosedScope(HIDDEN, {1, 2})
  {}

  // Started from a, which does not use root, the same rules do no harm.
  lemma OtherStartWorks()
    ensures WorksFrom(HIDDEN, 1)
  {
    HiddenIsWellFormed();
    HiddenNullable();
    OtherScope();
    OtherStartHasNoCycle();
    WorkableIff(HIDDEN, {1, 2});
    assert Workable(HIDDEN, {1, 2});
  }

  // ---------- a rule that is nullable without an empty alternate ----------

  // root ::= ws "x",  ws ::= s,  s ::= " " s |
  // where ws and s are what the parser makes of ws ::= " "*.
  const STAR: Rules := [
    [Elem(RuleRef, 1), Elem(Char, 120), Elem(End, 0)], [Elem(RuleRef, 2), Elem(End, 0)],
    [Elem(Char, 32), Elem(RuleRef, 2), Elem(Alt, 0), Elem(End, 0)]
  ]

  const STAR_ROOT := MoreItems(Item.Name("ws"), MoreItems(Literal([120]), NoItems))
  const STAR_WS := MoreItems(Repeat(Literal([32]), 0, None), NoItems)
  const STAR_DEFS := [Definition("root", LastAlt(STAR_ROOT))] + [Definition("ws", LastAlt(STAR_WS))]

  lemma StarFirst()
    ensures AltsGive(State(map["root" := 0], []), "root", LastAlt(STAR_ROOT), Two("ws", []), STAR[0])
  {
    assert "root" != "ws" by { assert |"root"| != |"ws"|; }
    var t0, t1 := State(map["root" := 0], []), Two("ws", []);
    FirstNames("ws", []);
    CharGives(t1, "root", 120, NoItems, t1, []);
    NameGives(t0, "root", "ws", t1, 1, STAR_ROOT.tail, t1, [Elem(Char, 120)] + []);
    OneAltGives(t0, "root", STAR_ROOT, t1, [RefElem(1)] + ([Elem(Char, 120)] + []));
    assert STAR[0] == [RefElem(1)] + ([Elem(Char, 120)] + []) + [END_ELEM];
  }

  lemma StarText(vocab: Vocab)
    ensures ReadsAs(vocab, STAR_DEFS, STAR)
  {
    StarFirst();
    assert "root" != "ws" by { assert |"root"| != |"ws"|; }
    RootThenStar("ws", LastAlt(STAR_ROOT), STAR[0], 32);
    StarIsWellFormed();
    TextGives(vocab, STAR_DEFS, STAR);
  }

  lemma StarIsWellFormed()
    ensures WfRules(STAR)
  {}

  lemma StarScope()
    ensures ClosedScope(STAR, {0, 1, 2})
  {}

  // It does no harm here.
  lemma StarWorks()
    ensures WfRules(STAR) && PassesCheck(STAR) && WorksFrom(STAR, 0)
  {
    StarRanks();
    StarRankable();
    StarScope();
    RankableIsWorkable(STAR, {0, 1, 2});
  }

  lemma StarRankable()
    ensures Rankable(STAR)
  {
    StarRanks();
    StarNullable();
    StarRanked();
  }

  lemma StarSyms()
    ensures Syms(STAR[0][0..]) == [Ref(1), Class(true, [Range(120, 120)])] && Syms(STAR[1][0..]) == [Ref(2)]
    ensures Syms(STAR[2][0..]) == [Class(true, [Range(32, 32)]), Ref(2)] && Syms(STAR[2][3..]) == []
  {
    assert STAR[0][0..][1..] == [Elem(Char, 120), Elem(End, 0)] && [Elem(Char, 120), Elem(End, 0)][1..] == [Elem(End, 0)];
    assert Syms([Elem(End, 0)]) == [] && ClassRanges([Elem(Char, 120), Elem(End, 0)]) == [Range(120, 120)];
    assert Syms([Elem(Char, 120), Elem(End, 0)]) == [Class(true, [Range(120, 120)])];
    assert STAR[1][0..][1..] == [Elem(End, 0)];
    assert ClassRanges(STAR[2][0..]) == [Range(32, 32)];
    assert STAR[2][0..][1..] == [Elem(RuleRef, 2), Elem(Alt, 0), Elem(End, 0)];
    assert Syms([Elem(RuleRef, 2), Elem(Alt, 0), Elem(End, 0)]) == [Ref(2)] by {
      assert [Elem(RuleRef, 2), Elem(Alt, 0), Elem(End, 0)][1..] == [Elem(Alt, 0), Elem(End, 0)];
    }
  }

  lemma StarStarts(r: nat, a: nat)
    requires r < 3 && IsAltStart(STAR[r], a)
    ensures a == 0 || (r == 2 && a == 3)
  {}

  lemma StarNullable()
    ensures NullableClosed(STAR, {1, 2})
  {
    StarSyms();
    assert !AllNullable(Syms(STAR[0][0..]), {1, 2}) by { assert Syms(STAR[0][0..])[1].Class?; }
    forall r: nat, a: nat | IsNullableAlt(STAR, {1, 2}, r, a) ensures r in {1, 2} {
      StarStarts(r, a);
    }
  }

  lemma StarCorners()
    ensures LeftCorners(Syms(STAR[0][0..]), {1, 2}) == [1] && LeftCorners(Syms(STAR[1][0..]), {1, 2}) == [2]
    ensures LeftCorners(Syms(STAR[2][0..]), {1, 2}) == [] && LeftCorners(Syms(STAR[2][3..]), {1, 2}) == []
  {
    StarSyms();
    assert Syms(STAR[0][0..])[1..] == [Class(true, [Range(120, 120)])];
    assert LeftCorners([Class(true, [Range(120, 120)])], {1, 2}) == [];
    assert Syms(STAR[1][0..])[1..] == [] && LeftCorners([], {1, 2}) == [];
  }

  lemma StarRanked()
    ensures Ranked(STAR, {1, 2}, [2, 1, 0])
  {
    StarCorners();
    forall r: nat, a: nat, x: nat | IsLeftCorner(STAR, {1, 2}, r, a, x) ensures x < 3 && [2, 1, 0][x] < [2, 1, 0][r] {
      StarStarts(r, a);
    }
  }

  lemma StarRanks()
    ensures WfRules(STAR) && PassesCheck(STAR)
  {
    assert IsAltStart(STAR[2], 3);
    assert EmptyRules(STAR) == {2};
    var rank: map<nat, nat> := map[0 := 2, 1 := 1, 2 := 0];
    assert PartialRank(STAR, rank);
    RankOfMap(STAR, rank);
  }

  // ---------- a cycle that leaves nothing behind ----------

  // root ::= root | "y"
  const UNITLOOP: Rules := [[Elem(RuleRef, 0), Elem(Alt, 0), Elem(Char, 121), Elem(End, 0)]]

  const UNITLOOP_ROOT := MoreItems(Item.Name("root"), NoItems)
  const UNITLOOP_DEFS := [Definition("root", MoreAlts(UNITLOOP_ROOT, LastAlt(HIDDEN_Y)))]

  lemma UnitLoopText(vocab: Vocab)
    ensures ReadsAs(vocab, UNITLOOP_DEFS, UNITLOOP)
  {
    UnitLoopDefs();
    TextGives(vocab, UNITLOOP_DEFS, UNITLOOP);
  }

  lemma UnitLoopDefs()
    ensures TranslateTo(UNITLOOP_DEFS, UNITLOOP)
  {
    var t := State(map["root" := 0], []);
    assert "root" != "a" by { assert |"root"| != |"a"|; }
    FirstNames("a", []);
    NameGives(t, "root", "root", t, 0, NoItems, t, []);
    CharGives(t, "root", 121, NoItems, t, []);
    TwoAltsGive(t, "root", UNITLOOP_ROOT, t, [RefElem(0)] + [], HIDDEN_Y, t, [Elem(Char, 121)] + []);
    assert UNITLOOP[0] == [RefElem(0)] + [] + [ALT_ELEM] + ([Elem(Char, 121)] + [] + [END_ELEM]);
    LastDefGives(EMPTY, UNITLOOP_DEFS[0], t, 0, t, UNITLOOP[0]);
    assert AddRule(t, 0, UNITLOOP[0]).rules == UNITLOOP;
  }

  // Reported as left-recursive, although nothing is left behind and the machine ends.
  lemma UnitLoopWorks()
    ensures WfRules(UNITLOOP) && !PassesCheck(UNITLOOP) && WorksFrom(UNITLOOP, 0)
  {
    forall rank ensures !Ranked(UNITLOOP, EmptyRules(UNITLOOP), rank) {
      assert Syms(UNITLOOP[0][0..])[0] == Ref(0);
      assert IsLeftCorner(UNITLOOP, EmptyRules(UNITLOOP), 0, 0, 0);
    }
    var used: set<nat> := {0};
    assert ClosedScope(UNITLOOP, used) && OpenTerminal(UNITLOOP, 0, 2);
    LeadsToItself(CornerEdges(UNITLOOP), 0);
    WorkableIff(UNITLOOP, used);
  }

  // ---------- a rule that never comes to a terminal ----------

  // root ::= q root,  q ::= e,  e ::=
  const UNSETTLED: Rules := [
    [Elem(RuleRef, 1), Elem(RuleRef, 0), Elem(End, 0)], [Elem(RuleRef, 2), Elem(End, 0)], [Elem(End, 0)]
  ]

  const UNSETTLED_ROOT := MoreItems(Item.Name("q"), MoreItems(Item.Name("root"), NoItems))
  const UNSETTLED_Q := MoreItems(Item.Name("e"), NoItems)
  const UNSETTLED_DEFS := [Definition("root", LastAlt(UNSETTLED_ROOT))]
                          + ([Definition("q", LastAlt(UNSETTLED_Q))] + [Definition("e", LastAlt(NoItems))])

  lemma UnsettledNames()
    ensures "root" != "q" && "root" != "e" && "q" != "e"
  {
    assert |"root"| != |"q"| && |"root"| != |"e"| && "q"[0] != "e"[0];
  }

  // The definitions of q and e behind that of root.
  lemma UnsettledLast() returns (v: State)
    ensures DefsGive(Two("q", [UNSETTLED[0]]), [Definition("q", LastAlt(UNSETTLED_Q))] + [Definition("e", LastAlt(NoItems))], v)
    ensures v == Three("q", "e", UNSETTLED)
  {
    UnsettledNames();
    var st, t := Two("q", [UNSETTLED[0]]), Three("q", "e", [UNSETTLED[0]]);
    FirstNames("q", [UNSETTLED[0]]);
    ThirdName("q", "e", [UNSETTLED[0]]);
    ThirdName("q", "e", [UNSETTLED[0], UNSETTLED[1]]);
    NameGives(st, "q", "e", t, 2, NoItems, t, []);
    OneAltGives(st, "q", UNSETTLED_Q, t, [RefElem(2)] + []);
    assert [RefElem(2)] + [] + [END_ELEM] == UNSETTLED[1];
    var next := Three("q", "e", [UNSETTLED[0], UNSETTLED[1]]);
    assert AddRule(t, 1, UNSETTLED[1]) == next;
    OneAltGives(next, "e", NoItems, next, []);
    assert [] + [END_ELEM] == UNSETTLED[2];
    v := AddRule(next, 2, UNSETTLED[2]);
    LastDefGives(next, Definition("e", LastAlt(NoItems)), next, 2, next, UNSETTLED[2]);
    DefsGiveMore(st, Definition("q", LastAlt(UNSETTLED_Q)), st, 1, t, UNSETTLED[1], [Definition("e", LastAlt(NoItems))], v);
    assert v.rules == UNSETTLED;
  }

  lemma UnsettledFirst()
    ensures AltsGive(State(map["root" := 0], []), "root", LastAlt(UNSETTLED_ROOT), Two("q", []), UNSETTLED[0])
  {
    UnsettledNames();
    var t0, t1 := State(map["root" := 0], []), Two("q", []);
    FirstNames("q", []);
    NameGives(t1, "root", "root", t1, 0, NoItems, t1, []);
    NameGives(t0, "root", "q", t1, 1, UNSETTLED_ROOT.tail, t1, [RefElem(0)] + []);
    OneAltGives(t0, "root", UNSETTLED_ROOT, t1, [RefElem(1)] + ([RefElem(0)] + []));
    assert [RefElem(1)] + ([RefElem(0)] + []) + [END_ELEM] == UNSETTLED[0];
  }

  lemma UnsettledText(vocab: Vocab)
    ensures ReadsAs(vocab, UNSETTLED_DEFS, UNSETTLED)
  {
    UnsettledDefs();
    UnsettledIsWellFormed();
    TextGives(vocab, UNSETTLED_DEFS, UNSETTLED);
  }

  lemma UnsettledDefs()
    ensures TranslateTo(UNSETTLED_DEFS, UNSETTLED)
  {
    UnsettledNames();
    FirstNames("q", []);
    UnsettledFirst();
    var t0, t1 := State(map["root" := 0], []), Two("q", []);
    assert AddRule(t1, 0, UNSETTLED[0]) == Two("q", [UNSETTLED[0]]);
    var v := UnsettledLast();
    DefsGiveMore(EMPTY, Definition("root", LastAlt(UNSETTLED_ROOT)), t0, 0, t1, UNSETTLED[0],
                 [Definition("q", LastAlt(UNSETTLED_Q))] + [Definition("e", LastAlt(NoItems))], v);
  }

  lemma UnsettledIsWellFormed()
    ensures WfRules(UNSETTLED)
  {}

  lemma UnsettledSyms()
    ensures |Syms(UNSETTLED[0][0..])| > 1 && Syms(UNSETTLED[0][0..])[1] == Ref(0)
  {
    assert UNSETTLED[0][0..][1..] == [Elem(RuleRef, 0), Elem(End, 0)];
    assert Syms([Elem(RuleRef, 0), Elem(End, 0)])[0] == Ref(0);
  }

  lemma UnsettledNullable()
    ensures Nullable(UNSETTLED) <= {1, 2}
  {
    UnsettledSyms();
    forall r: nat, a: nat | IsNullableAlt(UNSETTLED, {1, 2}, r, a) ensures r in {1, 2} {
      assert r == 0 ==> a == 0;
    }
    NullableIsLeast(UNSETTLED, {1, 2});
  }

  lemma UnsettledHasNoTerminal(x: nat, i: nat)
    ensures !OpenTerminal(UNSETTLED, x, i)
  {}

  // root derives no word at all and there is no terminal for it to rest on.
  lemma UnsettledCannotRest()
    ensures !CanRest(UNSETTLED, 0)
  {
    UnsettledNullable();
    forall x: nat, i: nat ensures !OpenTerminal(UNSETTLED, x, i) {
      UnsettledHasNoTerminal(x, i);
    }
  }

  // Not reported, and the machine ends, but without a stack to rest on: the rule fails the condition.
  lemma UnsettledPasses()
    ensures WfRules(UNSETTLED) && PassesCheck(UNSETTLED) && GrammarTermination.Ends(UNSETTLED, {0, 1, 2})
    ensures !CanRest(UNSETTLED, 0) && !SettlesOn(UNSETTLED, [Pos(0, 0)])
  {
    UnsettledRanks();
    var used: set<nat> := {0, 1, 2};
    assert ClosedScope(UNSETTLED, used) && Bounded(UNSETTLED, used, [1, 0, 0]);
    EndsIffBounded(UNSETTLED, used);
    UnsettledCannotRest();
    AltStartIsBoundary(UNSETTLED, 0, 0);
    assert Push(UNSETTLED, [], Pos(0, 0)) == [Pos(0, 0)];
    if SettlesOn(UNSETTLED, [Pos(0, 0)]) {
      SettlesMeansRest(UNSETTLED, 0, 0);
    }
  }

  lemma UnsettledRanks()
    ensures WfRules(UNSETTLED) && PassesCheck(UNSETTLED)
  {
    assert IsAltStart(UNSETTLED[2], 0);
    assert EmptyRules(UNSETTLED) == {2};
    var rank: map<nat, nat> := map[0 := 2, 1 := 1, 2 := 0];
    assert PartialRank(UNSETTLED, rank);
    RankOfMap(UNSETTLED, rank);
  }
}
