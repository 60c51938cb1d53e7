/**
 The flat rule format of the grammar engine (llama-grammar.h): a rule is one vector of
 elements holding all its alternates, separated by Alt and closed by End.

 This module gives the format a meaning.  `Syms` reads the symbols from a position to the end of
 its alternate, and `Gen` is the usual parse-tree semantics of a context-free grammar over those
 symbols.  Neither mentions the pushdown machine that the engine runs.
 */
module GrammarRules {

  datatype ElemType =
    | End | Alt | RuleRef | Char | CharNot | CharRngUpper | CharAlt | CharAny | Token | TokenNot

  // value: a code point, a rule id or a token id, depending on the type
  datatype Elem = Elem(typ: ElemType, value: nat)

  type Rule = seq<Elem>
  type Rules = seq<Rule>

  // The engine keeps pointers into its rules; here an element is named by rule and index.
  datatype Pos = Pos(rule: nat, idx: nat)

  // The top of a stack is its last position.
  type Stack = seq<Pos>

  predicate IsEndOfSequence(e: Elem) {
    e.typ.End? || e.typ.Alt?
  }

  // Elements that only continue a character class.
  predicate IsContinuation(e: Elem) {
    e.typ.CharAlt? || e.typ.CharRngUpper?
  }

  predicate IsClassStart(e: Elem) {
    e.typ.Char? || e.typ.CharNot? || e.typ.CharAny?
  }

  predicate IsTokenElem(e: Elem) {
    e.typ.Token? || e.typ.TokenNot?
  }

  // ---------- symbols ----------

  datatype Range = AnyChar | Range(lo: nat, hi: nat)

  datatype Sym =
    | Ref(rule: nat)
    | Class(positive: bool, ranges: seq<Range>)
    | Tok(positive: bool, id: nat)

  predicate InRange(r: Range, c: nat) {
    r.AnyChar? || r.lo <= c <= r.hi
  }

  // Membership in a character class.
  predicate Accepts(s: Sym, c: nat) {
    s.Class? && ((exists i :: 0 <= i < |s.ranges| && InRange(s.ranges[i], c)) <==> s.positive)
  }

  // Number of elements of the first item of a class: two for lo-hi, one otherwise.
  function ItemLen(r: Rule): (k: nat)
    requires r != []
    ensures 1 <= k <= 2 && k <= |r|
  {
    if |r| > 1 && r[1].typ.CharRngUpper? then 2 else 1
  }

  function ItemRange(r: Rule): Range
    requires r != []
  {
    if |r| > 1 && r[1].typ.CharRngUpper? then Range(r[0].value, r[1].value)
    else if r[0].typ.CharAny? then AnyChar
    else Range(r[0].value, r[0].value)
  }

  // Number of elements of the class that starts r.
  function ClassLen(r: Rule): (k: nat)
    requires r != []
    ensures 1 <= k <= |r|
    ensures k < |r| ==> !r[k].typ.CharAlt?
    decreases |r|
  {
    var k := ItemLen(r);
    if k < |r| && r[k].typ.CharAlt? then k + ClassLen(r[k..]) else k
  }

  function ClassRanges(r: Rule): (rs: seq<Range>)
    requires r != []
    ensures rs != []
    decreases |r|
  {
    var k := ItemLen(r);
    [ItemRange(r)] + (if k < |r| && r[k].typ.CharAlt? then ClassRanges(r[k..]) else [])
  }

  function ClassSym(r: Rule): Sym
    requires r != []
  {
    Class(!r[0].typ.CharNot?, ClassRanges(r))
  }

  // Number of elements of the symbol that starts r.
  function SymLen(r: Rule): (k: nat)
    requires r != [] && !IsEndOfSequence(r[0])
    ensures 1 <= k <= |r|
  {
    if r[0].typ.RuleRef? || IsTokenElem(r[0]) then 1 else ClassLen(r)
  }

  function HeadSym(r: Rule): Sym
    requires r != [] && !IsEndOfSequence(r[0])
  {
    if r[0].typ.RuleRef? then Ref(r[0].value)
    else if IsTokenElem(r[0]) then Tok(r[0].typ.Token?, r[0].value)
    else ClassSym(r)
  }

  // The symbols from the start of r to the end of its alternate.
  function Syms(r: Rule): (s: seq<Sym>)
    ensures (s == []) <==> (r == [] || IsEndOfSequence(r[0]))
    decreases |r|
  {
    if r == [] || IsEndOfSequence(r[0]) then []
    else [HeadSym(r)] + Syms(r[SymLen(r)..])
  }

  predicate IsAltStart(r: Rule, a: nat) {
    a < |r| && (a == 0 || r[a - 1].typ.Alt?)
  }

  // ---------- well-formed rules ----------

  // Element i may follow its predecessor: continuations only extend a class.
  predicate GoodAt(r: Rule, i: nat)
    requires i < |r|
  {
    && (r[i].typ.CharAlt? ==> i > 0 && (r[i - 1].typ.Char? || r[i - 1].typ.CharNot? || IsContinuation(r[i - 1])))
    && (r[i].typ.CharRngUpper? ==> i > 0 && (r[i - 1].typ.Char? || r[i - 1].typ.CharNot? || r[i - 1].typ.CharAlt?))
  }

  // End closes the rule and occurs nowhere else, continuations only extend a class.
  predicate WfRule(r: Rule) {
    && r != [] && r[|r| - 1].typ.End?
    && (forall i :: 0 <= i < |r| - 1 ==> !r[i].typ.End?)
    && (forall i :: 0 <= i < |r| ==> GoodAt(r, i))
  }

  // Every rule is well-formed and every reference names a rule.
  predicate WfRules(g: Rules) {
    && (forall r :: 0 <= r < |g| ==> WfRule(g[r]))
    && (forall r, i :: 0 <= r < |g| && 0 <= i < |g[r]| && g[r][i].typ.RuleRef? ==> g[r][i].value < |g|)
  }

  // A position the machine may rest on: the first element of a symbol.
  predicate ValidPos(g: Rules, p: Pos) {
    && p.rule < |g| && p.idx < |g[p.rule]|
    && !IsEndOfSequence(g[p.rule][p.idx])
    && !IsContinuation(g[p.rule][p.idx])
  }

  predicate ValidStack(g: Rules, s: Stack) {
    forall i :: 0 <= i < |s| ==> ValidPos(g, s[i])
  }

  function ElemAt(g: Rules, p: Pos): Elem
    requires p.rule < |g| && p.idx < |g[p.rule]|
  {
    g[p.rule][p.idx]
  }

  function RestAt(g: Rules, p: Pos): Rule
    requires p.rule < |g| && p.idx <= |g[p.rule]|
  {
    g[p.rule][p.idx..]
  }

  // ---------- language ----------

  // A parse of a form, read from its left end: a code point for a leading class, or for a leading
  // reference one of its alternates with a parse of that alternate.
  datatype Parse =
    | Done
    | Shift(c: nat, rest: Parse)
    | Expand(alt: nat, inner: Parse, rest: Parse)

  // Number of rule applications.
  function Size(d: Parse): nat {
    match d
    case Done => 0
    case Shift(_, rest) => Size(rest)
    case Expand(_, inner, rest) => 1 + Size(inner) + Size(rest)
  }

  // The word that a parse spells.
  function Yield(d: Parse): seq<nat> {
    match d
    case Done => []
    case Shift(c, rest) => [c] + Yield(rest)
    case Expand(_, inner, rest) => Yield(inner) + Yield(rest)
  }

  // d is a parse of the form.
  predicate Parses(g: Rules, form: seq<Sym>, d: Parse)
    decreases d
  {
    match d
    case Done => form == []
    case Shift(c, rest) => form != [] && Accepts(form[0], c) && Parses(g, form[1..], rest)
    case Expand(a, inner, rest) =>
      && form != [] && form[0].Ref? && form[0].rule < |g|
      && IsAltStart(g[form[0].rule], a)
      && Parses(g, Syms(g[form[0].rule][a..]), inner)
      && Parses(g, form[1..], rest)
  }

  // The language of a form.
  ghost predicate InLang(g: Rules, form: seq<Sym>, w: seq<nat>) {
    exists d :: Parses(g, form, d) && Yield(d) == w
  }

  // The symbols still to be matched by a stack, top first.
  ghost function Form(g: Rules, s: Stack): seq<Sym>
    requires ValidStack(g, s)
  {
    if s == [] then []
    else Syms(RestAt(g, s[|s| - 1])) + Form(g, s[..|s| - 1])
  }
}
