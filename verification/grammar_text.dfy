/**
 From the text of a grammar to the text it accepts: `llama_grammar_init_impl` for a grammar string, and
 the reader, the translation, the checks and the machine taken together.
 */
module GrammarText {
  import opened GrammarRules
  import opened GrammarTermination
  import opened GrammarState
  import opened Grammar
  import opened GrammarInit
  import opened LeftRecursion
  import opened Utf8
  import opened Gbnf
  import opened GbnfSymbols
  import opened GbnfCompile
  import opened GbnfMeaning
  import opened GbnfParse
  import opened GbnfText
  import opened GbnfParser
  import opened GbnfRoundTrip

  lemma SegmentNotEmpty(st: State, name: string, alts: Alts)
    ensures var c := CompileAlts(st, name, alts); c.Compiled? ==> c.seg != []
  {
  }

  /**
   The rule that generation starts from exists exactly if the root name is defined.  A name can be in
   the symbol table without a rule at its id: a reference that a repetition of zero times removed
   leaves its name behind, and validation looks at references only.
   */
  lemma StartInRange(defs: seq<Definition>, root: string)
    requires GoodDefs(defs) && IsName(root) && CompileDefs(EMPTY, defs).Parsed?
    requires var st := CompileDefs(EMPTY, defs).st; AllDefined(st.rules) && root in st.ids
    ensures var st := CompileDefs(EMPTY, defs).st;
            st.ids[root] < |st.rules| <==> root in Overlay(map[], defs)
  {
    assert Linked(Of(EMPTY, map[], map[]));
    var starts := LinkAll(EMPTY, map[], map[], defs);
    var st := CompileDefs(EMPTY, defs).st;
    var b := Of(st, Overlay(map[], defs), starts);
    assert LinkedName(b, root) && DefinedName(b, root);
    if root in b.defs {
      SegmentNotEmpty(b.starts[root], root, b.defs[root]);
    }
  }

  // a ::= root{0} "x"
  const DROPPED_ROOT := [Definition("a", LastAlt(MoreItems(Repeat(Name("root"), 0, Some(0)), MoreItems(Literal(['x' as nat]), NoItems))))]

  // The grammar parses and validates, the root name is known, and its rule does not exist.
  lemma DroppedRoot()
    ensures var r := CompileDefs(EMPTY, DROPPED_ROOT);
            r.Parsed? && AllDefined(r.st.rules) && "root" in r.st.ids && r.st.ids["root"] >= |r.st.rules|
  {
    var t0 := GetId(EMPTY, "a").0;
    assert t0 == State(map["a" := 0], []);
    var root := Item.Name("root");
    var t1 := GetId(t0, "root").0;
    assert "root" != "a" by { assert |"root"| != |"a"|; }
    assert t1 == State(map["a" := 0, "root" := 1], []);
    var rep := Repeat(root, 0, Some(0));
    assert CompileItem(t0, "a", root) == Compiled(t1, [RefElem(1)], 1);
    assert CompileItem(t0, "a", rep) == Compiled(t1, [], 1) by {
      assert Times([RefElem(1)], 0) == [];
      assert Optional(t1, "a", [RefElem(1)], 0, false) == (t1, 0);
    }
    var lit := Literal(['x' as nat]);
    assert CompileItem(t1, "a", lit) == Compiled(t1, [Elem(Char, 'x' as nat)], 1) by {
      assert CharElems([]) == [];
      assert CharElems(['x' as nat]) == [Elem(Char, 'x' as nat)] + CharElems(['x' as nat][1..]);
    }
    var tail := MoreItems(lit, NoItems);
    assert CompileItems(t1, "a", NoItems) == Compiled(t1, [], 0);
    assert CompileItems(t1, "a", tail) == Compiled(t1, [Elem(Char, 'x' as nat)], 0);
    assert CompileItems(t0, "a", MoreItems(rep, tail)) == Compiled(t1, [Elem(Char, 'x' as nat)], 0);
    var rule := [Elem(Char, 'x' as nat), END_ELEM];
    assert CompileAlts(t0, "a", LastAlt(MoreItems(rep, tail))) == Compiled(t1, rule, 0);
    var st := AddRule(t1, 0, rule);
    assert CompileDefs(EMPTY, DROPPED_ROOT) == CompileDefs(st, []);
    assert st.rules == [rule];
  }

  // The same as a text.
  lemma DroppedRootText(vocab: Vocab)
    ensures DefsFit(DROPPED_ROOT)
    ensures Accepted(vocab, ShowDefs(DROPPED_ROOT))
    ensures var st := RulesOf(vocab, ShowDefs(DROPPED_ROOT)); "root" in st.ids && st.ids["root"] >= |st.rules|
  {
    assert DROPPED_ROOT[1..] == [];
    var d := DROPPED_ROOT[0];
    assert ItemFits(Repeat(Item.Name("root"), 0, Some(0)));
    assert ['x' as nat][1..] == [] && Codes([]);
    assert ItemFits(Literal(['x' as nat]));
    var tail := MoreItems(Literal(['x' as nat]), NoItems);
    assert ItemsFit(tail);
    assert ItemsFit(MoreItems(Repeat(Item.Name("root"), 0, Some(0)), tail));
    assert AltsFit(d.alts);
    assert DefFits(d);
    RoundTrip(vocab, DROPPED_ROOT);
    DroppedRoot();
  }

  // ---------- names that are read ----------

  lemma ReadAtomGood(vocab: Vocab, t: string, pos: nat, nested: bool)
    requires pos <= |t| && StartsAtom(At(t, pos)) && At(t, pos) != '('
    ensures ReadAtom(vocab, t, pos, nested).Good? ==> GoodNames(ReadAtom(vocab, t, pos, nested).v)
  {
  }

  lemma {:induction false} ReadGroupGood(vocab: Vocab, t: string, pos: nat, nested: bool)
    requires pos <= |t| && StartsAtom(At(t, pos))
    ensures ReadAtom(vocab, t, pos, nested).Good? ==> GoodNames(ReadAtom(vocab, t, pos, nested).v)
    decreases |t| - pos, 0
  {
    if At(t, pos) == '(' {
      ReadAltsGood(vocab, t, SkipSpace(t, pos + 1, true), true);
    } else {
      ReadAtomGood(vocab, t, pos, nested);
    }
  }

  lemma {:induction false} ReadMoreGood(vocab: Vocab, t: string, pos: nat, nested: bool, cur: Item)
    requires pos <= |t| && GoodNames(cur)
    ensures ReadMore(vocab, t, pos, nested, cur).Good? ==> GoodNamesItems(ReadMore(vocab, t, pos, nested, cur).v)
    decreases |t| - pos, 2
  {
    if IsMark(At(t, pos)) {
      var m := ReadMark(t, pos, nested);
      if m.Good? {
        ReadMoreGood(vocab, t, m.pos, nested, Repeat(cur, m.v.min, m.v.max));
      }
    } else {
      ReadSeqGood(vocab, t, pos, nested);
    }
  }

  lemma {:induction false} ReadSeqGood(vocab: Vocab, t: string, pos: nat, nested: bool)
    requires pos <= |t|
    ensures ReadSeq(vocab, t, pos, nested).Good? ==> GoodNamesItems(ReadSeq(vocab, t, pos, nested).v)
    decreases |t| - pos, 1
  {
    if !IsMark(At(t, pos)) && StartsAtom(At(t, pos)) {
      ReadGroupGood(vocab, t, pos, nested);
      var atom := ReadAtom(vocab, t, pos, nested);
      if atom.Good? {
        ReadMoreGood(vocab, t, atom.pos, nested, atom.v);
      }
    }
  }

  lemma {:induction false} ReadAltsGood(vocab: Vocab, t: string, pos: nat, nested: bool)
    requires pos <= |t|
    ensures ReadAlts(vocab, t, pos, nested).Good? ==> GoodNamesAlts(ReadAlts(vocab, t, pos, nested).v)
    decreases |t| - pos, 3
  {
    ReadSeqGood(vocab, t, pos, nested);
    var first := ReadSeq(vocab, t, pos, nested);
    if first.Good? && At(t, first.pos) == '|' {
      ReadAltsGood(vocab, t, SkipSpace(t, first.pos + 1, true), nested);
    }
  }

  lemma ReadRuleGood(vocab: Vocab, t: string, pos: nat)
    requires pos <= |t| && ReadRule(vocab, t, pos).Good?
    ensures IsName(ReadRule(vocab, t, pos).v.name) && GoodNamesAlts(ReadRule(vocab, t, pos).v.alts)
  {
    ReadAltsGood(vocab, t, SkipSpace(t, SkipSpace(t, NameEnd(t, pos), false) + 3, true), false);
  }

  lemma {:induction false} ReadRulesGood(vocab: Vocab, t: string, pos: nat)
    requires pos <= |t|
    ensures ReadRules(vocab, t, pos).Good? ==> GoodDefs(ReadRules(vocab, t, pos).v)
    decreases |t| - pos
  {
    if At(t, pos) != NUL && ReadRule(vocab, t, pos).Good? {
      ReadRuleGood(vocab, t, pos);
      ReadRulesGood(vocab, t, ReadRule(vocab, t, pos).pos);
    }
  }

  // Names in a text that can be read consist of word characters, so no generated name is among them.
  lemma ReadTextGood(vocab: Vocab, t: string)
    ensures ReadText(vocab, t).Good? ==> GoodDefs(ReadText(vocab, t).v)
  {
    ReadRulesGood(vocab, t, SkipSpace(t, 0, true));
  }

  // ---------- the whole ----------

  // The definitions of the text, if it can be read.
  function DefsOf(vocab: Vocab, t: string): seq<Definition> {
    var r := ReadText(vocab, t);
    if r.Good? then r.v else []
  }

  // The text can be read and translated, and every rule it refers to is defined.
  predicate Accepted(vocab: Vocab, t: string) {
    ReadText(vocab, t).Good? && CompileDefs(EMPTY, DefsOf(vocab, t)).Parsed? && AllDefined(CompileDefs(EMPTY, DefsOf(vocab, t)).st.rules)
  }

  function RulesOf(vocab: Vocab, t: string): State
    requires Accepted(vocab, t)
  {
    CompileDefs(EMPTY, DefsOf(vocab, t)).st
  }

  /**
   llama_grammar_init_impl for a grammar text.  Null is returned exactly if the text is not accepted, the
   root name does not occur, or the rules are left-recursive.
   */
  method InitText(vocab: Vocab, t: string, root: string) returns (grammar: LlamaGrammar?)
    requires IsName(root)
    requires Accepted(vocab, t) ==>
               var st := RulesOf(vocab, t);
               root in st.ids ==> root in Overlay(map[], DefsOf(vocab, t))
                                  && (PassesCheck(st.rules) ==> WorksFrom(st.rules, st.ids[root]))
    ensures grammar != null <==>
              Accepted(vocab, t) && var st := RulesOf(vocab, t);
              root in st.ids && PassesCheck(st.rules)
    ensures grammar != null ==>
              var st := RulesOf(vocab, t);
              && fresh(grammar) && grammar.Valid() && grammar.rules == st.rules && grammar.partial == NoPartial
              && root in st.ids && grammar.start == st.ids[root] && grammar.stacks != []
              && Tracks(st.rules, st.ids[root], grammar.stacks, [])
  {
    ReadTextGood(vocab, t);
    ghost var defs := DefsOf(vocab, t);
    var parser := new Parser(vocab);
    var ok := parser.Parse(t);
    if !ok || parser.rules == [] {
      if Accepted(vocab, t) { EmptyHasNoName(defs, root); }
      return null;
    }
    if root !in parser.symbolIds {
      return null;
    }
    ParsedIsWellFormed(defs);
    StartInRange(defs, root);
    var start := parser.symbolIds[root];
    grammar := Init(parser.rules, start);
  }

  lemma EmptyHasNoName(defs: seq<Definition>, root: string)
    requires GoodDefs(defs) && IsName(root)
    requires var r := CompileDefs(EMPTY, defs);
             r.Parsed? && AllDefined(r.st.rules) && root in r.st.ids ==> root in Overlay(map[], defs)
    ensures var r := CompileDefs(EMPTY, defs);
            r.Parsed? && AllDefined(r.st.rules) && root in r.st.ids ==> r.st.rules != []
  {
    var r := CompileDefs(EMPTY, defs);
    if r.Parsed? && AllDefined(r.st.rules) && root in r.st.ids {
      StartInRange(defs, root);
    }
  }

  /**
   The grammar engine as a whole.  The grammar was read from a text, and the encoded text arrived in any
   pieces: generation may end exactly if the definitions in the grammar text mean the text by the root
   name, and any continuation is accepted exactly if they mean the whole.
   */
  lemma EngineTheorem(vocab: Vocab, t: string, root: string, trace: seq<seq<Stack>>, pieces: seq<seq<Byte>>,
                      text: seq<nat>, w: seq<nat>)
    requires Accepted(vocab, t) && root in Overlay(map[], DefsOf(vocab, t))
    requires var st := RulesOf(vocab, t);
             && root in st.ids
             && |trace| == |pieces| + 1 && StrRun(st.rules, trace, NoPartial, pieces)
             && AllSettled(st.rules, trace[0]) && Tracks(st.rules, st.ids[root], trace[0], [])
    requires IsText(text) && Flatten(pieces) == EncodeAll(text)
    ensures [] in trace[|pieces|] <==> Denotes(Overlay(map[], DefsOf(vocab, t)), Item.Name(root), text)
    ensures StacksAccept(RulesOf(vocab, t).rules, trace[|pieces|], w)
            <==> Denotes(Overlay(map[], DefsOf(vocab, t)), Item.Name(root), text + w)
  {
    ReadTextGood(vocab, t);
    var defs := DefsOf(vocab, t);
    var st := RulesOf(vocab, t);
    ParsedIsWellFormed(defs);
    TextTheorem(st.rules, st.ids[root], trace, pieces, text);
    ParsePreservesMeaning(defs, root, text);
    ParsePreservesMeaning(defs, root, text + w);
  }
}
