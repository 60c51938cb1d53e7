/**
 The parser object (`llama_grammar_parser`): one pass over the text that reads and translates at the same
 time.  Its methods are proved against the two separately: what the text spells, and what that
 translates to.
 */
module GbnfParser {
  import opened GrammarRules
  import opened Gbnf
  import opened GbnfSymbols
  import opened GbnfCompile
  import opened GbnfText

  // ---------- reading and translating in one ----------

  // Fail stands for an exception; seg is what is appended to the open rule.
  datatype Outcome = Fail | Got(st: State, seg: Rule, pos: nat)

  function Prefix(pre: Rule, o: Outcome): Outcome {
    match o
    case Fail => Fail
    case Got(st, seg, pos) => Got(st, pre + seg, pos)
  }

  lemma PrefixTwice(x: Rule, y: Rule, o: Outcome)
    ensures Prefix(x, Prefix(y, o)) == Prefix(x + y, o)
  {
    if o.Got? { ConcatAssoc(x, y, o.seg); }
  }

  lemma PrefixNothing(o: Outcome)
    ensures Prefix([], o) == o
  {
    if o.Got? { assert [] + o.seg == o.seg; }
  }

  function ItemsOutcome(st: State, name: string, r: Read<Items>): Outcome {
    match r
    case Bad => Fail
    case Good(items, pos) =>
      match CompileItems(st, name, items)
      case Failed => Fail
      case Compiled(t, seg, _) => Got(t, seg, pos)
  }

  function AltsOutcome(st: State, name: string, r: Read<Alts>): Outcome {
    match r
    case Bad => Fail
    case Good(alts, pos) =>
      match CompileAlts(st, name, alts)
      case Failed => Fail
      case Compiled(t, seg, _) => Got(t, seg, pos)
  }

  type Vocab = string -> Option<nat>

  // What reading and translating from here on gives, when an item has been read and its marks may follow.
  function MoreOutcome(vocab: Vocab, st: State, name: string, t: string, pos: nat, nested: bool, cur: Item): Outcome
    requires pos <= |t|
  {
    ItemsOutcome(st, name, ReadMore(vocab, t, pos, nested, cur))
  }

  function SeqOutcome(vocab: Vocab, st: State, name: string, t: string, pos: nat, nested: bool): Outcome
    requires pos <= |t|
  {
    ItemsOutcome(st, name, ReadSeq(vocab, t, pos, nested))
  }

  // An item that cannot be translated makes the sequence fail, whatever follows.
  lemma {:induction false} FailedItemFails(vocab: Vocab, st: State, name: string, t: string, pos: nat, nested: bool, cur: Item)
    requires pos <= |t| && CompileItem(st, name, cur).Failed?
    ensures MoreOutcome(vocab, st, name, t, pos, nested, cur) == Fail
    decreases |t| - pos
  {
    if IsMark(At(t, pos)) {
      var m := ReadMark(t, pos, nested);
      if m.Good? {
        FailedItemFails(vocab, st, name, t, m.pos, nested, Repeat(cur, m.v.min, m.v.max));
      }
    }
  }

  // An item without further marks is finished.
  lemma FinishedItem(vocab: Vocab, st: State, name: string, t: string, pos: nat, nested: bool, cur: Item)
    requires pos <= |t| && !IsMark(At(t, pos)) && CompileItem(st, name, cur).Compiled?
    ensures var c := CompileItem(st, name, cur);
            MoreOutcome(vocab, st, name, t, pos, nested, cur)
            == Prefix(c.seg, SeqOutcome(vocab, c.st, name, t, pos, nested))
  {
  }

  // At a mark the item before it becomes a repetition; without an item there is an exception.
  lemma MarkStep(vocab: Vocab, st: State, name: string, t: string, pos: nat, nested: bool, cur: Item)
    requires pos <= |t| && IsMark(At(t, pos))
    ensures var m := ReadMark(t, pos, nested);
            MoreOutcome(vocab, st, name, t, pos, nested, cur)
            == if m.Bad? then Fail else MoreOutcome(vocab, st, name, t, m.pos, nested, Repeat(cur, m.v.min, m.v.max))
  {
  }

  // Alternates are a sequence, and after a bar more alternates.
  lemma AltsUnfold(vocab: Vocab, st: State, name: string, t: string, pos: nat, nested: bool)
    requires pos <= |t|
    ensures var o := SeqOutcome(vocab, st, name, t, pos, nested);
            o.Got? ==> pos <= o.pos <= |t|
    ensures var o := SeqOutcome(vocab, st, name, t, pos, nested);
            AltsOutcome(st, name, ReadAlts(vocab, t, pos, nested))
            == if o.Fail? then Fail
               else if At(t, o.pos) == '|' then
                 Prefix(o.seg + [ALT_ELEM], AltsOutcome(o.st, name, ReadAlts(vocab, t, SkipSpace(t, o.pos + 1, true), nested)))
               else Got(o.st, o.seg + [END_ELEM], o.pos)
  {
  }

  function ItemType(started: bool, negated: bool): ElemType {
    if started then CharAlt else if negated then CharNot else Char
  }

  // The last item with the marks read so far, and the state and the elements of the sequence before it.
  datatype Pending = Pending(item: Option<Item>, st: State, pre: Rule)

  // Between the rounds of the loop: the open rule is in order, and reading on gives the whole.
  ghost predicate Todo(vocab: Vocab, now: State, name: string, t: string, p: nat, nested: bool, rule: Rule, out: Rule,
                       lastSymStart: nat, nPrev: nat, cur: Pending, whole: Outcome)
    requires p <= |t|
  {
    && lastSymStart <= |out| && out[..lastSymStart] == rule + cur.pre
    && (cur.item.None? ==> now == cur.st && lastSymStart == |out|
                           && whole == Prefix(cur.pre, SeqOutcome(vocab, now, name, t, p, nested)))
    && (cur.item.Some? ==> CompileItem(cur.st, name, cur.item.value) == Compiled(now, out[lastSymStart..], nPrev)
                           && whole == Prefix(cur.pre, MoreOutcome(vocab, cur.st, name, t, p, nested, cur.item.value)))
  }

  // No mark follows, so the last item is finished.
  lemma Finish(vocab: Vocab, now: State, name: string, t: string, p: nat, nested: bool, rule: Rule, out: Rule,
               lastSymStart: nat, nPrev: nat, cur: Pending, whole: Outcome) returns (pre: Rule)
    requires p <= |t| && !IsMark(At(t, p)) && Todo(vocab, now, name, t, p, nested, rule, out, lastSymStart, nPrev, cur, whole)
    ensures out == rule + pre && whole == Prefix(pre, SeqOutcome(vocab, now, name, t, p, nested))
  {
    assert out == out[..lastSymStart] + out[lastSymStart..];
    pre := cur.pre;
    if cur.item.Some? {
      pre := cur.pre + out[lastSymStart..];
      FinishedItem(vocab, cur.st, name, t, p, nested, cur.item.value);
      PrefixTwice(cur.pre, out[lastSymStart..], SeqOutcome(vocab, now, name, t, p, nested));
      ConcatAssoc(rule, cur.pre, out[lastSymStart..]);
    }
  }

  // A group is read as its alternates and translated as them, under a name of its own.
  lemma ReadGroup(vocab: Vocab, t: string, pos: nat, nested: bool)
    requires pos <= |t| && At(t, pos) == '('
    ensures var a := ReadAlts(vocab, t, SkipSpace(t, pos + 1, true), true);
            ReadAtom(vocab, t, pos, nested)
            == if a.Bad? || At(t, a.pos) != ')' then Bad else Good(Group(a.v), SkipSpace(t, a.pos + 1, nested))
  {
  }

  lemma GroupUnfold(vocab: Vocab, st: State, name: string, t: string, pos: nat, nested: bool)
    requires pos <= |t| && At(t, pos) == '('
    ensures var (u, id) := Generate(st, name);
            var o := AltsOutcome(u, name, ReadAlts(vocab, t, SkipSpace(t, pos + 1, true), true));
            var r := ReadAtom(vocab, t, pos, nested);
            if o.Fail? then r.Bad? || CompileItem(st, name, r.v).Failed?
            else if At(t, o.pos) != ')' then r.Bad?
            else o.pos < |t| && r.Good? && r.pos == SkipSpace(t, o.pos + 1, nested)
                 && CompileItem(st, name, r.v) == Compiled(AddRule(o.st, id, o.seg), [RefElem(id)],
                                                           if |o.st.ids| > |st.ids| then |o.st.ids| - |st.ids| else 1)
  {
    ReadGroup(vocab, t, pos, nested);
  }

  // The elements of further class items, or of the first ones.
  function ClassRest(started: bool, negated: bool, items: seq<ClassItem>): Rule {
    if started then AltElems(items) else ClassElems(negated, items)
  }

  lemma ClassRestStep(started: bool, negated: bool, item: ClassItem, rest: seq<ClassItem>)
    ensures ClassRest(started, negated, [item] + rest)
         == ItemElems(ItemType(started, negated), item) + ClassRest(true, negated, rest)
  {
    assert ([item] + rest)[1..] == rest;
  }

  // ---------- helpers of the methods ----------

  method CheckDefined(rules: Rules) returns (ok: bool)
    ensures ok == AllDefined(rules)
  {
    for r := 0 to |rules|
      invariant forall q :: 0 <= q < r ==> rules[q] != []
      invariant forall q, i :: 0 <= q < r && 0 <= i < |rules[q]| && rules[q][i].typ.RuleRef? ==> rules[q][i].value < |rules|
    {
      if rules[r] == [] {
        return false;
      }
      for i := 0 to |rules[r]|
        invariant forall j :: 0 <= j < i && rules[r][j].typ.RuleRef? ==> rules[r][j].value < |rules|
      {
        // a reference to an empty rule is found when that rule itself is visited
        if rules[r][i].typ.RuleRef? && rules[r][i].value >= |rules| {
          return false;
        }
      }
    }
    ok := true;
  }

  // The elements from lastSymStart on, repeated min times.
  method Copies(rule: Rule, lastSymStart: nat, min: nat) returns (out: Rule)
    requires lastSymStart <= |rule|
    ensures out == rule[..lastSymStart] + Times(rule[lastSymStart..], min)
  {
    var prev := rule[lastSymStart..];
    if min == 0 {
      out := rule[..lastSymStart];
    } else {
      out := rule;
      assert out == rule[..lastSymStart] + Times(prev, 1) by {
        assert Times(prev, 1) == Times(prev, 0) + prev;
      }
      for i := 1 to min
        invariant out == rule[..lastSymStart] + Times(prev, i)
      {
        ConcatAssoc(rule[..lastSymStart], Times(prev, i), prev);
        out := out + prev;
      }
    }
  }

  // ---------- the parser object ----------

  class Parser {
    const vocab: string -> Option<nat>    // the single token that a text is, if it is one
    var symbolIds: Ids
    var rules: Rules

    constructor (vocab: string -> Option<nat>)
      ensures Now() == State(map[], []) && this.vocab == vocab
    {
      this.vocab := vocab;
      symbolIds, rules := map[], [];
    }

    function Now(): State
      reads this
    {
      State(symbolIds, rules)
    }

    method GetSymbolId(s: string) returns (id: nat)
      modifies this
      ensures (Now(), id) == GetId(old(Now()), s)
    {
      if s !in symbolIds {
        symbolIds := symbolIds[s := |symbolIds|];
      }
      id := symbolIds[s];
    }

    method GenerateSymbolId(base: string) returns (id: nat)
      modifies this
      ensures (Now(), id) == Generate(old(Now()), base)
    {
      id := |symbolIds|;
      symbolIds := symbolIds[GeneratedName(base, id) := id];
    }

    method AddRuleAt(id: nat, rule: Rule)
      modifies this
      ensures Now() == AddRule(old(Now()), id, rule)
    {
      if |rules| <= id {
        rules := PadTo(rules, id + 1);
      }
      rules := rules[id := rule];
    }

    /**
     handle_repetitions: rewrite the item that starts at lastSymStart into its repetition.
     False stands for an exception.
     */
    method HandleRepetitions(name: string, rule: Rule, lastSymStart: nat, nPrev: nat, min: nat, max: Option<nat>)
      returns (ok: bool, out: Rule, weight: nat)
      requires lastSymStart <= |rule| && min <= WORD
      modifies this
      ensures var c := Repetition(old(Now()), name, rule[lastSymStart..], nPrev, min, max);
              ok == c.Compiled? && (ok ==> Now() == c.st && out == rule[..lastSymStart] + c.seg && weight == c.weight)
    {
      out, weight := rule, 0;
      if lastSymStart == |rule| {
        return false, out, weight;
      }
      var prev := rule[lastSymStart..];
      var total := 1;
      if max.Some? && max.value > 0 {
        total := max.value;
      } else if min > 0 {
        total := min;
      }
      weight := nPrev * total;
      if weight > MAX_REPETITION_THRESHOLD {
        return false, out, weight;
      }
      out := Copies(rule, lastSymStart, min);
      var nOpt := OptCount(min, max);
      var lastId := AddOptional(name, prev, nOpt, max.None?);
      if nOpt > 0 {
        ConcatAssoc(rule[..lastSymStart], Times(prev, min), [RefElem(lastId)]);
        out := out + [RefElem(lastId)];
      }
      ok := true;
    }

    // The rules for the optional copies; the result is the id of the last one.
    method AddOptional(name: string, prev: Rule, nOpt: nat, noMax: bool) returns (lastId: nat)
      requires noMax ==> nOpt == 1
      modifies this
      ensures (Now(), lastId) == Optional(old(Now()), name, prev, nOpt, noMax)
    {
      lastId := 0;
      for i := 0 to nOpt
        invariant noMax && i > 0 ==> (Now(), lastId) == Loop(old(Now()), name, prev)
        invariant noMax && i == 0 ==> Now() == old(Now())
        invariant !noMax ==> (Now(), lastId) == Chain(old(Now()), name, prev, i)
      {
        var id := GenerateSymbolId(name);
        var recRule := prev;
        if i > 0 || noMax {
          recRule := recRule + [RefElem(if noMax then id else lastId)];
        }
        recRule := recRule + [ALT_ELEM] + [END_ELEM];
        assert recRule == if noMax then LoopRule(prev, id) else StepRule(prev, i + 1, lastId);
        AddRuleAt(id, recRule);
        lastId := id;
      }
    }

    // The loop over the characters of a literal.
    method ParseLiteral(t: string, pos: nat, rule: Rule) returns (ok: bool, p: nat, out: Rule)
      requires pos <= |t|
      ensures var r := ReadLiteral(t, pos);
              ok == r.Good? && (ok ==> p == r.pos && out == rule + CharElems(r.v))
    {
      p, out := pos, rule;
      ghost var whole := ReadLiteral(t, pos);
      while At(t, p) != '"'
        invariant pos <= p <= |t|
        invariant var r := ReadLiteral(t, p);
                  r.Good? == whole.Good? && (r.Good? ==> r.pos == whole.pos && out + CharElems(r.v) == rule + CharElems(whole.v))
        decreases |t| - p
      {
        if At(t, p) == NUL {
          return false, p, out;
        }
        var c := ReadChar(t, p);
        if c.Bad? {
          return false, p, out;
        }
        ghost var rest := ReadLiteral(t, c.pos);
        if rest.Good? {
          assert ([c.v] + rest.v)[1..] == rest.v;
          ConcatAssoc(out, [Elem(Char, c.v)], CharElems(rest.v));
        }
        p := c.pos;
        out := out + [Elem(Char, c.v)];
      }
      p := p + 1;
      ok := true;
    }

    // One item of a class; started tells whether the class has items already.
    method ParseClassItem(t: string, pos: nat, negated: bool, started: bool, rule: Rule) returns (ok: bool, p: nat, out: Rule)
      requires pos <= |t|
      ensures var r := ReadClassItem(t, pos);
              ok == r.Good? && (ok ==> p == r.pos && out == rule + ItemElems(ItemType(started, negated), r.v))
    {
      var lo := ReadChar(t, pos);
      if lo.Bad? {
        return false, pos, rule;
      }
      p := lo.pos;
      out := rule + [Elem(ItemType(started, negated), lo.v)];
      if At(t, p) == '-' && At(t, p + 1) != ']' {
        if At(t, p + 1) == NUL {
          return false, p, out;
        }
        var hi := ReadChar(t, p + 1);
        if hi.Bad? {
          return false, p, out;
        }
        p := hi.pos;
        out := out + [Elem(CharRngUpper, hi.v)];
      }
      ok := true;
    }

    // What is still to be read of a class.
    ghost predicate ClassTodo(t: string, p: nat, negated: bool, started: bool, rule: Rule, out: Rule, whole: Read<seq<ClassItem>>)
      requires p <= |t|
    {
      var r := ReadClass(t, p);
      r.Good? == whole.Good? && (r.Good? ==>
        r.pos == whole.pos && out + ClassRest(started, negated, r.v) == rule + ClassElems(negated, whole.v))
    }

    lemma ClassTodoStep(t: string, p: nat, negated: bool, started: bool, rule: Rule, out: Rule, whole: Read<seq<ClassItem>>)
      requires p <= |t| && At(t, p) != ']' && ClassTodo(t, p, negated, started, rule, out, whole)
      ensures At(t, p) == NUL || ReadClassItem(t, p).Bad? ==> whole.Bad?
      ensures var item := ReadClassItem(t, p);
              At(t, p) != NUL && item.Good? ==>
                ClassTodo(t, item.pos, negated, true, rule,
                          out + ItemElems(ItemType(started, negated), item.v), whole)
    {
      var item := ReadClassItem(t, p);
      if At(t, p) != NUL && item.Good? {
        var rest := ReadClass(t, item.pos);
        if rest.Good? {
          ClassRestStep(started, negated, item.v, rest.v);
          ConcatAssoc(out, ItemElems(ItemType(started, negated), item.v),
                      ClassRest(true, negated, rest.v));
        }
      }
    }

    // The loop over the items of a class.
    method ParseClass(t: string, pos: nat, negated: bool, rule: Rule) returns (ok: bool, p: nat, out: Rule)
      requires pos <= |t|
      ensures var r := ReadClass(t, pos);
              ok == r.Good? && (ok ==> p == r.pos && out == rule + ClassElems(negated, r.v))
    {
      p, out := pos, rule;
      var lastSymStart := |rule|;
      ghost var whole := ReadClass(t, pos);
      while At(t, p) != ']'
        invariant pos <= p <= |t| && |out| >= lastSymStart
        invariant ClassTodo(t, p, negated, lastSymStart < |out|, rule, out, whole)
        decreases |t| - p
      {
        ClassTodoStep(t, p, negated, lastSymStart < |out|, rule, out, whole);
        if At(t, p) == NUL {
          return false, p, out;
        }
        ok, p, out := ParseClassItem(t, p, negated, lastSymStart < |out|, out);
        if !ok {
          return;
        }
      }
      p := p + 1;
      ok := true;
    }

    // A group: its alternates become a rule of their own.
    method ParseGroup(name: string, t: string, pos: nat, nested: bool) returns (ok: bool, p: nat, id: nat, nPrev: nat)
      requires pos <= |t| && At(t, pos) == '('
      modifies this
      ensures var r := ReadAtom(vocab, t, pos, nested);
              if r.Bad? then !ok
              else var c := CompileItem(old(Now()), name, r.v);
                   ok == c.Compiled? && (ok ==> Now() == c.st && p == r.pos && c.seg == [RefElem(id)] && nPrev == c.weight)
      decreases |t| - pos, 0
    {
      GroupUnfold(vocab, Now(), name, t, pos, nested);
      p := SkipSpace(t, pos + 1, true);
      var before := |symbolIds|;
      id := GenerateSymbolId(name);
      ok, p := ParseAlternates(name, t, p, id, true);
      if !ok || At(t, p) != ')' {
        return false, p, id, 1;
      }
      nPrev := if |symbolIds| > before then |symbolIds| - before else 1;
      p := SkipSpace(t, p + 1, nested);
    }

    // One item without its marks.
    method ParseAtom(name: string, t: string, pos: nat, nested: bool, rule: Rule)
      returns (ok: bool, p: nat, out: Rule, nPrev: nat)
      requires pos <= |t| && StartsAtom(At(t, pos))
      modifies this
      ensures var r := ReadAtom(vocab, t, pos, nested);
              if r.Bad? then !ok
              else var c := CompileItem(old(Now()), name, r.v);
                   ok == c.Compiled? && (ok ==> Now() == c.st && p == r.pos && out == rule + c.seg && nPrev == c.weight)
      decreases |t| - pos, 1
    {
      var c := At(t, pos);
      if c == '(' {
        var id;
        ok, p, id, nPrev := ParseGroup(name, t, pos, nested);
        out := rule + [RefElem(id)];
      } else if IsWordChar(c) {
        p := NameEnd(t, pos);
        var id := GetSymbolId(t[pos..p]);
        ok, p, out, nPrev := true, SkipSpace(t, p, nested), rule + [RefElem(id)], 1;
      } else {
        ok, p, out := ParseTerminal(t, pos, nested, rule);
        nPrev := 1;
      }
    }

    // An item that stands for characters or a token.
    method ParseTerminal(t: string, pos: nat, nested: bool, rule: Rule) returns (ok: bool, p: nat, out: Rule)
      requires pos <= |t| && StartsAtom(At(t, pos)) && At(t, pos) != '(' && !IsWordChar(At(t, pos))
      ensures ok == ReadAtom(vocab, t, pos, nested).Good?
      ensures ok ==> p == ReadAtom(vocab, t, pos, nested).pos
      ensures ok ==> forall st, name ::
        CompileItem(st, name, ReadAtom(vocab, t, pos, nested).v)
        == Compiled(st, CompileItem(st, name, ReadAtom(vocab, t, pos, nested).v).seg, 1)
      ensures ok ==> forall st, name :: out == rule + CompileItem(st, name, ReadAtom(vocab, t, pos, nested).v).seg
    {
      ok, p, out := true, pos, rule;
      var c := At(t, pos);
      if c == '"' {
        ok, p, out := ParseLiteral(t, pos + 1, rule);
      } else if c == '[' {
        var negated := At(t, pos + 1) == '^';
        ok, p, out := ParseClass(t, if negated then pos + 2 else pos + 1, negated, rule);
      } else if c == '<' || c == '!' {
        var id := ReadToken(vocab, t, if c == '!' then pos + 1 else pos);
        if id.Bad? {
          return false, p, out;
        }
        p := id.pos;
        out := rule + [Elem(if c == '!' then TokenNot else Token, id.v)];
      } else {
        out := rule + [Elem(CharAny, 0)];
        p := pos + 1;
      }
      if ok {
        p := SkipSpace(t, p, nested);
      }
    }

    // A mark and the rewriting of the item before it.
    method ParseMark(name: string, t: string, pos: nat, nested: bool, rule: Rule, lastSymStart: nat, nPrev: nat)
      returns (ok: bool, p: nat, out: Rule, weight: nat, ghost b: Bounds)
      requires pos <= |t| && IsMark(At(t, pos)) && lastSymStart <= |rule|
      modifies this
      ensures var m := ReadMark(t, pos, nested);
              if m.Bad? || m.v.min > MAX_REPETITION_THRESHOLD then !ok
              else var c := Repetition(old(Now()), name, rule[lastSymStart..], nPrev, m.v.min, EffectiveMax(m.v.max));
                   ok == c.Compiled? && (ok ==> b == m.v && p == m.pos && Now() == c.st
                                                && out == rule[..lastSymStart] + c.seg && weight == c.weight)
    {
      var m := ReadMark(t, pos, nested);
      out, weight, b := rule, nPrev, Bounds(0, None);
      if m.Bad? {
        return false, pos, out, weight, b;
      }
      p, b := m.pos, m.v;
      if m.v.min > MAX_REPETITION_THRESHOLD {
        return false, p, out, weight, b;
      }
      var bound := if m.v.max.Some? && m.v.max.value > MAX_REPETITION_THRESHOLD then None else m.v.max;
      ok, out, weight := HandleRepetitions(name, rule, lastSymStart, nPrev, m.v.min, bound);
    }

    // The next item of a sequence, once the one before is finished.
    method NextAtom(name: string, t: string, pos: nat, nested: bool, rule: Rule, out: Rule, ghost pre: Rule, ghost whole: Outcome)
      returns (ok: bool, p: nat, out': Rule, nPrev: nat, ghost cur: Pending)
      requires pos <= |t| && StartsAtom(At(t, pos))
      requires out == rule + pre && whole == Prefix(pre, SeqOutcome(vocab, Now(), name, t, pos, nested))
      modifies this
      ensures !ok ==> whole == Fail
      ensures ok ==> pos < p <= |t| && cur.item.Some? && Todo(vocab, Now(), name, t, p, nested, rule, out', |out|, nPrev, cur, whole)
      decreases |t| - pos, 2
    {
      ghost var atom := ReadAtom(vocab, t, pos, nested);
      ghost var st := Now();
      ok, p, out', nPrev := ParseAtom(name, t, pos, nested, out);
      cur := Pending(None, st, pre);
      if ok {
        cur := Pending(Some(atom.v), st, pre);
        assert out'[|out|..] == CompileItem(st, name, atom.v).seg;
      } else if atom.Good? {
        FailedItemFails(vocab, st, name, t, atom.pos, nested, atom.v);
      }
    }

    // A mark behind the last item.
    method NextMark(name: string, t: string, pos: nat, nested: bool, rule: Rule, out: Rule, lastSymStart: nat, nPrev: nat,
                    ghost cur: Pending, ghost whole: Outcome)
      returns (ok: bool, p: nat, out': Rule, weight: nat, ghost cur': Pending)
      requires pos <= |t| && IsMark(At(t, pos))
      requires Todo(vocab, Now(), name, t, pos, nested, rule, out, lastSymStart, nPrev, cur, whole)
      modifies this
      ensures !ok ==> whole == Fail
      ensures ok ==> pos < p <= |t| && Todo(vocab, Now(), name, t, p, nested, rule, out', lastSymStart, weight, cur', whole)
    {
      ghost var mark := ReadMark(t, pos, nested);
      ghost var b;
      ok, p, out', weight, b := ParseMark(name, t, pos, nested, out, lastSymStart, nPrev);
      cur' := cur;
      if cur.item.Some? {
        MarkStep(vocab, cur.st, name, t, pos, nested, cur.item.value);
        if ok {
          cur' := cur.(item := Some(Repeat(cur.item.value, b.min, b.max)));
          assert out'[..lastSymStart] == out[..lastSymStart];
        } else if mark.Good? {
          FailedItemFails(vocab, cur.st, name, t, mark.pos, nested, Repeat(cur.item.value, mark.v.min, mark.v.max));
        }
      }
    }

    // parse_sequence
    method ParseSequence(name: string, t: string, pos: nat, nested: bool, rule: Rule) returns (ok: bool, p: nat, out: Rule)
      requires pos <= |t|
      modifies this
      ensures var o := SeqOutcome(vocab, old(Now()), name, t, pos, nested);
              ok == o.Got? && (ok ==> Now() == o.st && p == o.pos && out == rule + o.seg)
      decreases |t| - pos, 3
    {
      ok, p, out := true, pos, rule;
      var lastSymStart: nat, nPrev: nat := |rule|, 1;
      ghost var whole := SeqOutcome(vocab, Now(), name, t, pos, nested);
      ghost var cur := Pending(None, Now(), []);
      PrefixNothing(whole);
      while At(t, p) != NUL
        invariant pos <= p <= |t| && Todo(vocab, Now(), name, t, p, nested, rule, out, lastSymStart, nPrev, cur, whole)
        decreases |t| - p
      {
        if StartsAtom(At(t, p)) {
          ghost var pre := Finish(vocab, Now(), name, t, p, nested, rule, out, lastSymStart, nPrev, cur, whole);
          lastSymStart := |out|;
          ok, p, out, nPrev, cur := NextAtom(name, t, p, nested, rule, out, pre, whole);
        } else if IsMark(At(t, p)) {
          ok, p, out, nPrev, cur := NextMark(name, t, p, nested, rule, out, lastSymStart, nPrev, cur, whole);
        } else {
          break;
        }
        if !ok {
          return;
        }
      }
      ghost var pre := Finish(vocab, Now(), name, t, p, nested, rule, out, lastSymStart, nPrev, cur, whole);
      assert pre + [] == pre;
      ok := true;
    }

    // What remains of the alternates once a sequence has been read.
    ghost predicate AltsTodo(now: State, name: string, t: string, p: nat, nested: bool, rule: Rule, whole: Outcome)
      requires p <= |t|
    {
      whole == if At(t, p) == '|' then
                 Prefix(rule + [ALT_ELEM], AltsOutcome(now, name, ReadAlts(vocab, t, SkipSpace(t, p + 1, true), nested)))
               else Got(now, rule + [END_ELEM], p)
    }

    // One more alternate.
    method NextAlternate(name: string, t: string, pos: nat, nested: bool, rule: Rule, ghost whole: Outcome)
      returns (ok: bool, p: nat, out: Rule)
      requires pos <= |t| && whole == Prefix(rule, AltsOutcome(Now(), name, ReadAlts(vocab, t, pos, nested)))
      modifies this
      ensures !ok ==> whole == Fail
      ensures ok ==> pos <= p <= |t| && AltsTodo(Now(), name, t, p, nested, out, whole)
      decreases |t| - pos, 4
    {
      ghost var o := SeqOutcome(vocab, Now(), name, t, pos, nested);
      AltsUnfold(vocab, Now(), name, t, pos, nested);
      ok, p, out := ParseSequence(name, t, pos, nested, rule);
      if ok {
        ConcatAssoc(rule, o.seg, [ALT_ELEM]);
        ConcatAssoc(rule, o.seg, [END_ELEM]);
        if At(t, p) == '|' {
          PrefixTwice(rule, o.seg + [ALT_ELEM], AltsOutcome(o.st, name, ReadAlts(vocab, t, SkipSpace(t, p + 1, true), nested)));
        }
      }
    }

    // parse_alternates
    method ParseAlternates(name: string, t: string, pos: nat, id: nat, nested: bool) returns (ok: bool, p: nat)
      requires pos <= |t|
      modifies this
      ensures var o := AltsOutcome(old(Now()), name, ReadAlts(vocab, t, pos, nested));
              ok == o.Got? && (ok ==> Now() == AddRule(o.st, id, o.seg) && p == o.pos)
      decreases |t| - pos, 5
    {
      var rule: Rule := [];
      ghost var whole := AltsOutcome(Now(), name, ReadAlts(vocab, t, pos, nested));
      PrefixNothing(whole);
      ok, p, rule := NextAlternate(name, t, pos, nested, rule, whole);
      while ok && At(t, p) == '|'
        invariant if ok then pos <= p <= |t| && AltsTodo(Now(), name, t, p, nested, rule, whole) else whole == Fail
        decreases ok, if ok then |t| - p else 0
      {
        ok, p, rule := NextAlternate(name, t, SkipSpace(t, p + 1, true), nested, rule + [ALT_ELEM], whole);
      }
      if ok {
        rule := rule + [END_ELEM];
        AddRuleAt(id, rule);
      }
    }

    // parse_rule
    method ParseRule(t: string, pos: nat) returns (ok: bool, p: nat)
      requires pos <= |t|
      modifies this
      ensures var r := ReadRule(vocab, t, pos);
              if r.Bad? then !ok
              else var c := CompileAlts(GetId(old(Now()), r.v.name).0, r.v.name, r.v.alts);
                   ok == c.Compiled? && (ok ==> p == r.pos && Now() == AddRule(c.st, GetId(old(Now()), r.v.name).1, c.seg))
    {
      var end := NameEnd(t, pos);
      if end == pos {
        return false, pos;
      }
      p := SkipSpace(t, end, false);
      var name := t[pos..end];
      var id := GetSymbolId(name);
      if !(At(t, p) == ':' && At(t, p + 1) == ':' && At(t, p + 2) == '=') {
        return false, p;
      }
      p := SkipSpace(t, p + 3, true);
      ok, p := ParseAlternates(name, t, p, id, false);
      if !ok {
        return;
      }
      ok, p := ParseEnd(t, p);
    }

    // The end of the line, or of the text.
    method ParseEnd(t: string, pos: nat) returns (ok: bool, p: nat)
      requires pos <= |t|
      ensures var r := ReadEnd(t, pos);
              ok == r.Good? && (ok ==> p == r.pos)
    {
      p := pos;
      if At(t, p) == '\r' {
        p := if At(t, p + 1) == '\n' then p + 2 else p + 1;
      } else if At(t, p) == '\n' {
        p := p + 1;
      } else if At(t, p) != NUL {
        return false, p;
      }
      return true, SkipSpace(t, p, true);
    }

    // parse: all rules in order, then the validation of the result.
    method Parse(t: string) returns (ok: bool)
      modifies this
      ensures var r := ReadText(vocab, t);
              if r.Bad? then !ok && rules == []
              else var d := CompileDefs(old(Now()), r.v);
                   ok == (d.Parsed? && AllDefined(d.st.rules)) && (if ok then Now() == d.st else rules == [])
    {
      var pos := SkipSpace(t, 0, true);
      ghost var whole := RulesOutcome(vocab, Now(), t, pos);
      while At(t, pos) != NUL
        invariant pos <= |t| && whole == RulesOutcome(vocab, Now(), t, pos)
        decreases |t| - pos
      {
        ok, pos := ParseRule(t, pos);
        if !ok {
          rules := [];
          return;
        }
      }
      ok := CheckDefined(rules);
      if !ok {
        rules := [];
      }
    }
  }

  // What reading and translating the rules from here on gives.
  function RulesOutcome(vocab: Vocab, st: State, t: string, pos: nat): Parsed
    requires pos <= |t|
  {
    match ReadRules(vocab, t, pos)
    case Bad => ParseFailed
    case Good(defs, _) => CompileDefs(st, defs)
  }
}
