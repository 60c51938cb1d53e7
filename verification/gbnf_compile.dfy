/**
 Translation of the surface grammar to flat rules: `parse_sequence` with `handle_repetitions`,
 `parse_alternates` and `parse`.  The functions say what is produced.
 */
module GbnfCompile {
  import opened GrammarRules
  import opened Gbnf
  import opened GbnfSymbols

  // seg: the elements appended to the current rule; weight: n_prev_rules afterwards
  datatype Compiled = Failed | Compiled(st: State, seg: Rule, weight: nat)

  const END_ELEM := Elem(End, 0)
  const ALT_ELEM := Elem(Alt, 0)

  function RefElem(id: nat): Elem {
    Elem(RuleRef, id)
  }

  // ---------- terminals ----------

  function CharElems(chars: seq<nat>): (r: Rule)
    ensures |r| == |chars|
  {
    if chars == [] then [] else [Elem(Char, chars[0])] + CharElems(chars[1..])
  }

  function ItemElems(typ: ElemType, item: ClassItem): Rule {
    match item
    case One(c) => [Elem(typ, c)]
    case Span(lo, hi) => [Elem(typ, lo), Elem(CharRngUpper, hi)]
  }

  function AltElems(items: seq<ClassItem>): Rule {
    if items == [] then [] else ItemElems(CharAlt, items[0]) + AltElems(items[1..])
  }

  function ClassElems(negated: bool, items: seq<ClassItem>): Rule {
    if items == [] then []
    else ItemElems(if negated then CharNot else Char, items[0]) + AltElems(items[1..])
  }

  // ---------- repetitions ----------

  function Times(seg: Rule, k: nat): Rule {
    if k == 0 then [] else Times(seg, k - 1) + seg
  }

  // max_times - min_times in 64 bits
  function OptCount(min: nat, max: Option<nat>): nat
    requires min <= WORD
  {
    if max.None? then 1
    else if max.value >= min then max.value - min
    else WORD + max.value - min
  }

  function TotalRules(min: nat, max: Option<nat>): nat {
    if max.Some? && max.value > 0 then max.value else if min > 0 then min else 1
  }

  // S'(k) ::= S S'(k-1) |    with S'(1) ::= S |
  function StepRule(prev: Rule, k: nat, below: nat): Rule {
    prev + (if k > 1 then [RefElem(below)] else []) + [ALT_ELEM, END_ELEM]
  }

  // The state after k rules of a bounded repetition have been added, and the id of the last one.
  function Chain(st: State, name: string, prev: Rule, k: nat): (State, nat) {
    if k == 0 then (st, 0)
    else
      var (s, below) := Chain(st, name, prev, k - 1);
      (NewRule(s, name, StepRule(prev, k, below)), |s.ids|)
  }

  // S' ::= S S' |
  function LoopRule(prev: Rule, id: nat): Rule {
    prev + [RefElem(id)] + [ALT_ELEM, END_ELEM]
  }

  function Loop(st: State, name: string, prev: Rule): (State, nat) {
    (NewRule(st, name, LoopRule(prev, |st.ids|)), |st.ids|)
  }

  // The rules for the optional copies.
  function Optional(st: State, name: string, prev: Rule, n: nat, noMax: bool): (State, nat) {
    if noMax then Loop(st, name, prev) else Chain(st, name, prev, n)
  }

  // handle_repetitions
  function Repetition(st: State, name: string, prev: Rule, weight: nat, min: nat, max: Option<nat>): Compiled
    requires min <= WORD
  {
    if prev == [] || weight * TotalRules(min, max) > MAX_REPETITION_THRESHOLD then Failed
    else
      var n := OptCount(min, max);
      var (st', last) := Optional(st, name, prev, n, max.None?);
      Compiled(st', Times(prev, min) + (if n == 0 then [] else [RefElem(last)]), weight * TotalRules(min, max))
  }

  // An upper bound above the threshold is dropped.
  function EffectiveMax(max: Option<nat>): Option<nat> {
    if max.Some? && max.value > MAX_REPETITION_THRESHOLD then None else max
  }

  // ---------- items, sequences, alternates ----------

  function CompileItem(st: State, name: string, item: Item): Compiled
    decreases item
  {
    match item
    case Literal(chars) => Compiled(st, CharElems(chars), 1)
    case CharClass(negated, items) => Compiled(st, ClassElems(negated, items), 1)
    case Dot => Compiled(st, [Elem(CharAny, 0)], 1)
    case TokenId(negated, id) => Compiled(st, [Elem(if negated then TokenNot else Token, id)], 1)
    case Name(ref) =>
      var (t, id) := GetId(st, ref);
      Compiled(t, [RefElem(id)], 1)
    case Group(alts) =>
      var (t, id) := Generate(st, name);
      (match CompileAlts(t, name, alts)
       case Failed => Failed
       case Compiled(u, rule, _) =>
         Compiled(AddRule(u, id, rule), [RefElem(id)], if |u.ids| > |st.ids| then |u.ids| - |st.ids| else 1))
    case Repeat(x, min, max) =>
      if min > MAX_REPETITION_THRESHOLD then Failed
      else
        match CompileItem(st, name, x)
        case Failed => Failed
        case Compiled(t, prev, weight) =>
          Repetition(t, name, prev, weight, min, EffectiveMax(max))
  }

  function CompileItems(st: State, name: string, items: Items): Compiled
    decreases items
  {
    match items
    case NoItems => Compiled(st, [], 0)
    case MoreItems(head, tail) =>
      match CompileItem(st, name, head)
      case Failed => Failed
      case Compiled(t, seg, _) =>
        match CompileItems(t, name, tail)
        case Failed => Failed
        case Compiled(u, rest, _) => Compiled(u, seg + rest, 0)
  }

  function CompileAlts(st: State, name: string, alts: Alts): Compiled
    decreases alts
  {
    match alts
    case LastAlt(only) =>
      (match CompileItems(st, name, only)
       case Failed => Failed
       case Compiled(t, seg, _) => Compiled(t, seg + [END_ELEM], 0))
    case MoreAlts(first, rest) =>
      match CompileItems(st, name, first)
      case Failed => Failed
      case Compiled(t, seg, _) =>
        match CompileAlts(t, name, rest)
        case Failed => Failed
        case Compiled(u, rule, _) => Compiled(u, seg + [ALT_ELEM] + rule, 0)
  }

  // ---------- whole texts ----------

  // One line of the text: a name and its alternates.
  datatype Definition = Definition(name: string, alts: Alts)

  datatype Parsed = ParseFailed | Parsed(st: State)

  function CompileDefs(st: State, defs: seq<Definition>): Parsed
    decreases |defs|
  {
    if defs == [] then Parsed(st)
    else
      var (t, id) := GetId(st, defs[0].name);
      match CompileAlts(t, defs[0].name, defs[0].alts)
      case Failed => ParseFailed
      case Compiled(u, rule, _) => CompileDefs(AddRule(u, id, rule), defs[1..])
  }

  // Every rule is defined and refers to defined rules only.
  predicate AllDefined(rules: Rules) {
    && (forall r :: 0 <= r < |rules| ==> rules[r] != [])
    && (forall r, i :: 0 <= r < |rules| && 0 <= i < |rules[r]| && rules[r][i].typ.RuleRef? ==> rules[r][i].value < |rules|)
  }

  // ---------- names from the text ----------

  predicate GoodNames(item: Item) {
    match item
    case Name(s) => IsName(s)
    case Group(alts) => GoodNamesAlts(alts)
    case Repeat(x, _, _) => GoodNames(x)
    case _ => true
  }

  predicate GoodNamesItems(items: Items) {
    items.MoreItems? ==> GoodNames(items.head) && GoodNamesItems(items.tail)
  }

  predicate GoodNamesAlts(alts: Alts) {
    match alts
    case LastAlt(only) => GoodNamesItems(only)
    case MoreAlts(first, rest) => GoodNamesItems(first) && GoodNamesAlts(rest)
  }

  // ---------- the table stays valid ----------

  lemma {:induction false} ChainValid(st: State, name: string, prev: Rule, k: nat)
    requires ValidState(st) && IsName(name)
    ensures var (s, last) := Chain(st, name, prev, k);
            ValidState(s) && Grows(st, s) && |s.ids| == |st.ids| + k && (k > 0 ==> last == |st.ids| + k - 1)
    decreases k
  {
    if k > 0 {
      var (s, below) := Chain(st, name, prev, k - 1);
      ChainValid(st, name, prev, k - 1);
      NewRuleEffect(s, name, StepRule(prev, k, below));
      GrowsTrans(st, s, Chain(st, name, prev, k).0);
    }
  }

  lemma RepetitionValid(st: State, name: string, prev: Rule, weight: nat, min: nat, max: Option<nat>)
    requires ValidState(st) && IsName(name) && min <= WORD
    ensures var c := Repetition(st, name, prev, weight, min, max);
            c.Compiled? ==> ValidState(c.st) && Grows(st, c.st)
  {
    if max.None? {
      NewRuleEffect(st, name, LoopRule(prev, |st.ids|));
    } else {
      ChainValid(st, name, prev, OptCount(min, max));
    }
  }

  // A group's rule is added under the id generated before its alternates were translated.
  lemma GroupValid(st: State, name: string, u: State, rule: Rule)
    requires ValidState(st) && IsName(name)
    requires ValidState(u) && Grows(Generate(st, name).0, u)
    ensures ValidState(AddRule(u, |st.ids|, rule)) && Grows(st, AddRule(u, |st.ids|, rule))
  {
    GenerateEffect(st, name);
    AddRuleEffect(u, |st.ids|, rule);
  }

  lemma RepeatValid(st: State, name: string, c: Compiled, min: nat, max: Option<nat>)
    requires IsName(name) && min <= WORD && c.Compiled? && ValidState(c.st) && Grows(st, c.st)
    ensures var e := Repetition(c.st, name, c.seg, c.weight, min, max);
            e.Compiled? ==> ValidState(e.st) && Grows(st, e.st)
  {
    RepetitionValid(c.st, name, c.seg, c.weight, min, max);
    var e := Repetition(c.st, name, c.seg, c.weight, min, max);
    if e.Compiled? { GrowsTrans(st, c.st, e.st); }
  }

  lemma {:induction false} CompileItemValid(st: State, name: string, item: Item)
    requires ValidState(st) && IsName(name) && GoodNames(item)
    ensures var c := CompileItem(st, name, item); c.Compiled? ==> ValidState(c.st) && Grows(st, c.st)
    decreases item
  {
    match item
    case Name(ref) => GetIdEffect(st, ref);
    case Group(alts) =>
      GenerateEffect(st, name);
      var t := Generate(st, name).0;
      CompileAltsValid(t, name, alts);
      var c := CompileAlts(t, name, alts);
      if c.Compiled? { GroupValid(st, name, c.st, c.seg); }
    case Repeat(x, min, max) =>
      CompileItemValid(st, name, x);
      var c := CompileItem(st, name, x);
      if c.Compiled? && min <= MAX_REPETITION_THRESHOLD { RepeatValid(st, name, c, min, EffectiveMax(max)); }
    case _ =>
  }

  lemma {:induction false} CompileItemsValid(st: State, name: string, items: Items)
    requires ValidState(st) && IsName(name) && GoodNamesItems(items)
    ensures var c := CompileItems(st, name, items); c.Compiled? ==> ValidState(c.st) && Grows(st, c.st)
    decreases items
  {
    if items.MoreItems? {
      CompileItemValid(st, name, items.head);
      var c := CompileItem(st, name, items.head);
      if c.Compiled? {
        CompileItemsValid(c.st, name, items.tail);
        var e := CompileItems(c.st, name, items.tail);
        if e.Compiled? { GrowsTrans(st, c.st, e.st); }
      }
    }
  }

  lemma {:induction false} CompileAltsValid(st: State, name: string, alts: Alts)
    requires ValidState(st) && IsName(name) && GoodNamesAlts(alts)
    ensures var c := CompileAlts(st, name, alts); c.Compiled? ==> ValidState(c.st) && Grows(st, c.st)
    decreases alts
  {
    match alts
    case LastAlt(only) => CompileItemsValid(st, name, only);
    case MoreAlts(first, rest) =>
      CompileItemsValid(st, name, first);
      var c := CompileItems(st, name, first);
      if c.Compiled? {
        CompileAltsValid(c.st, name, rest);
        var e := CompileAlts(c.st, name, rest);
        if e.Compiled? { GrowsTrans(st, c.st, e.st); }
      }
  }

  lemma ConcatAssoc(x: Rule, y: Rule, z: Rule)
    ensures (x + y) + z == x + (y + z)
  {}
}
