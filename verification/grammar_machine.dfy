/**
 The pushdown machine of llama-grammar.cpp: `llama_grammar_advance_stack` closes a stack under
 expansion of the reference on its top.
 */
module GrammarMachine {
  import opened GrammarRules
  import opened GrammarLanguage

  // ---------- moving past a symbol ----------

  lemma {:induction false} ClassLenInRule(r: Rule)
    requires r != [] && IsEndOfSequence(r[|r| - 1]) && !IsEndOfSequence(r[0])
    ensures ClassLen(r) < |r|
    decreases |r|
  {
    var k := ItemLen(r);
    if k < |r| && r[k].typ.CharAlt? {
      ClassLenInRule(r[k..]);
    }
  }

  // The element before the end of a class never lets a range bound follow.
  lemma {:induction false} AfterClassIsStart(r: Rule, i: nat)
    requires WfRule(r) && i < |r| - 1
    requires IsClassStart(r[i]) || r[i].typ.CharAlt?
    ensures i + ClassLen(r[i..]) < |r| && !IsContinuation(r[i + ClassLen(r[i..])])
    decreases |r| - i
  {
    ClassLenInRule(r[i..]);
    var k := ItemLen(r[i..]);
    assert GoodAt(r, i + k);
    if i + k < |r| && r[i + k].typ.CharAlt? {
      assert r[i..][k..] == r[i + k..];
      AfterClassIsStart(r, i + k);
    }
  }

  // Index of the element after the symbol at p.
  function NextIdx(g: Rules, p: Pos): (i: nat)
    requires WfRules(g) && ValidPos(g, p)
    ensures p.idx < i < |g[p.rule]| && !IsContinuation(g[p.rule][i])
  {
    var r := g[p.rule];
    assert GoodAt(r, p.idx + 1);
    if IsClassStart(r[p.idx]) then
      AfterClassIsStart(r, p.idx);
      p.idx + ClassLen(r[p.idx..])
    else
      p.idx + 1
  }

  // A position that is the start of a symbol or the end of an alternate.
  predicate IsBoundary(g: Rules, p: Pos) {
    p.rule < |g| && p.idx < |g[p.rule]| && !IsContinuation(ElemAt(g, p))
  }

  // Positions at the end of an alternate are never put on a stack.
  function Push(g: Rules, s: Stack, p: Pos): (t: Stack)
    requires ValidStack(g, s) && IsBoundary(g, p)
    ensures ValidStack(g, t)
  {
    if IsEndOfSequence(ElemAt(g, p)) then s else s + [p]
  }

  // The stack once its top symbol has been matched.
  function After(g: Rules, s: Stack): (t: Stack)
    requires WfRules(g) && ValidStack(g, s) && s != []
    ensures ValidStack(g, t)
  {
    var p := s[|s| - 1];
    Push(g, s[..|s| - 1], Pos(p.rule, NextIdx(g, p)))
  }

  function TopElem(g: Rules, s: Stack): Elem
    requires ValidStack(g, s) && s != []
  {
    ElemAt(g, s[|s| - 1])
  }

  function TopSym(g: Rules, s: Stack): Sym
    requires ValidStack(g, s) && s != []
  {
    HeadSym(RestAt(g, s[|s| - 1]))
  }

  lemma FormOfPush(g: Rules, s: Stack, p: Pos)
    requires ValidStack(g, s) && IsBoundary(g, p)
    ensures Form(g, Push(g, s, p)) == Syms(RestAt(g, p)) + Form(g, s)
  {
    if IsEndOfSequence(ElemAt(g, p)) {
      assert [] + Form(g, s) == Form(g, s);
    } else {
      assert (s + [p])[..|s|] == s;
    }
  }

  lemma SymsSplit(g: Rules, p: Pos)
    requires WfRules(g) && ValidPos(g, p)
    ensures Syms(RestAt(g, p)) == [HeadSym(RestAt(g, p))] + Syms(g[p.rule][NextIdx(g, p)..])
  {
    assert RestAt(g, p)[SymLen(RestAt(g, p))..] == g[p.rule][NextIdx(g, p)..];
  }

  lemma FormSplitsTop(g: Rules, s: Stack)
    requires WfRules(g) && ValidStack(g, s) && s != []
    ensures Form(g, s) == [TopSym(g, s)] + Form(g, After(g, s))
  {
    var p := s[|s| - 1];
    var q := Pos(p.rule, NextIdx(g, p));
    assert Syms(RestAt(g, p)) == [TopSym(g, s)] + Syms(RestAt(g, q)) by { SymsSplit(g, p); }
    FormOfPush(g, s[..|s| - 1], q);
    ConcatAssociates([TopSym(g, s)], Syms(RestAt(g, q)), Form(g, s[..|s| - 1]));
  }

  // ---------- expansion ----------

  // Alternate a of the reference on top of s can be chosen.
  predicate CanExpand(g: Rules, s: Stack, a: nat) {
    && WfRules(g) && ValidStack(g, s) && s != []
    && TopElem(g, s).typ.RuleRef?
    && IsAltStart(g[TopElem(g, s).value], a)
  }

  lemma AltStartIsBoundary(g: Rules, r: nat, a: nat)
    requires WfRules(g) && r < |g| && IsAltStart(g[r], a)
    ensures IsBoundary(g, Pos(r, a))
  {
    assert GoodAt(g[r], a);
  }

  // Replace the reference on top by its alternate a, below which the rest of its own alternate stays.
  function ExpandTop(g: Rules, s: Stack, a: nat): (t: Stack)
    requires CanExpand(g, s, a)
    ensures ValidStack(g, t)
  {
    var r := TopElem(g, s).value;
    AltStartIsBoundary(g, r, a);
    Push(g, After(g, s), Pos(r, a))
  }

  lemma FormOfExpand(g: Rules, s: Stack, a: nat)
    requires CanExpand(g, s, a)
    ensures Form(g, s) == [Ref(TopElem(g, s).value)] + Form(g, After(g, s))
    ensures Form(g, ExpandTop(g, s, a)) == Syms(g[TopElem(g, s).value][a..]) + Form(g, After(g, s))
  {
    FormSplitsTop(g, s);
    AltStartIsBoundary(g, TopElem(g, s).value, a);
    FormOfPush(g, After(g, s), Pos(TopElem(g, s).value, a));
  }

  // A stack the machine can rest on: empty, or topped by a terminal.
  predicate Settled(g: Rules, s: Stack) {
    ValidStack(g, s) && (s == [] || !TopElem(g, s).typ.RuleRef?)
  }

  // The alternates chosen on the way from one stack to another.
  datatype Trail = Here | Choose(alt: nat, rest: Trail)

  ghost predicate ReachBy(g: Rules, s: Stack, c: Trail, t: Stack)
    decreases c
  {
    match c
    case Here => s == t
    case Choose(a, rest) => CanExpand(g, s, a) && ReachBy(g, ExpandTop(g, s, a), rest, t)
  }

  ghost predicate Reach(g: Rules, s: Stack, t: Stack) {
    exists c :: ReachBy(g, s, c, t)
  }

  // What advance_stack must produce from s.
  ghost predicate Advances(g: Rules, s: Stack, t: Stack) {
    Reach(g, s, t) && Settled(g, t)
  }

  lemma ReachSelf(g: Rules, s: Stack)
    ensures Reach(g, s, s)
  {
    assert ReachBy(g, s, Here, s);
  }

  function TrailStep(c: Trail, a: nat): Trail {
    match c
    case Here => Choose(a, Here)
    case Choose(b, rest) => Choose(b, TrailStep(rest, a))
  }

  lemma {:induction false} ReachStep(g: Rules, s: Stack, c: Trail, t: Stack, a: nat)
    requires ReachBy(g, s, c, t) && CanExpand(g, t, a)
    ensures ReachBy(g, s, TrailStep(c, a), ExpandTop(g, t, a))
    decreases c
  {
    match c
    case Here =>
    case Choose(b, rest) => ReachStep(g, ExpandTop(g, s, b), rest, t, a);
  }

  lemma ReachExtends(g: Rules, s: Stack, t: Stack, a: nat)
    requires Reach(g, s, t) && CanExpand(g, t, a)
    ensures Reach(g, s, ExpandTop(g, t, a))
  {
    var c :| ReachBy(g, s, c, t);
    ReachStep(g, s, c, t, a);
  }

  // ---------- expansion preserves the language ----------

  lemma {:induction false} ReachSound(g: Rules, s: Stack, c: Trail, t: Stack, w: seq<nat>)
    requires ValidStack(g, s) && ReachBy(g, s, c, t) && ValidStack(g, t) && InLang(g, Form(g, t), w)
    ensures InLang(g, Form(g, s), w)
    decreases c
  {
    match c
    case Here =>
    case Choose(a, rest) =>
      ReachSound(g, ExpandTop(g, s, a), rest, t, w);
      FormOfExpand(g, s, a);
      RefLanguage(g, TopElem(g, s).value, Form(g, After(g, s)), w);
  }

  // Every word of a stack is a word of some settled stack the machine reaches.
  lemma {:induction false} ReachComplete(g: Rules, s: Stack, d: Parse) returns (c: Trail, t: Stack)
    requires WfRules(g) && ValidStack(g, s) && Parses(g, Form(g, s), d)
    ensures ReachBy(g, s, c, t) && Settled(g, t) && InLang(g, Form(g, t), Yield(d))
    decreases Size(d)
  {
    if Settled(g, s) {
      c, t := Here, s;
    } else {
      FormSplitsTop(g, s);
      var r := TopElem(g, s).value;
      var a, e := ParsesUnfold(g, r, Form(g, After(g, s)), d);
      FormOfExpand(g, s, a);
      c, t := ReachComplete(g, ExpandTop(g, s, a), e);
      c := Choose(a, c);
    }
  }

  // The language of a stack is the union of the languages of the stacks it advances to.
  lemma AdvanceLanguage(g: Rules, s: Stack, w: seq<nat>)
    requires WfRules(g) && ValidStack(g, s)
    ensures InLang(g, Form(g, s), w) <==> exists t :: Advances(g, s, t) && InLang(g, Form(g, t), w)
  {
    if InLang(g, Form(g, s), w) {
      var d :| Parses(g, Form(g, s), d) && Yield(d) == w;
      var c, t := ReachComplete(g, s, d);
      assert Reach(g, s, t);
    }
    if t :| Advances(g, s, t) && InLang(g, Form(g, t), w) {
      var c :| ReachBy(g, s, c, t);
      ReachSound(g, s, c, t, w);
    }
  }

  // ---------- the worklist ----------

  ghost predicate ClosedUnderExpansion(g: Rules, u: set<Stack>) {
    forall s, a: nat :: s in u && CanExpand(g, s, a) ==> ExpandTop(g, s, a) in u
  }

  lemma {:induction false} ClosedContainsReach(g: Rules, u: set<Stack>, s: Stack, c: Trail, t: Stack)
    requires ClosedUnderExpansion(g, u) && s in u && ReachBy(g, s, c, t)
    ensures t in u
    decreases c
  {
    match c
    case Here =>
    case Choose(a, rest) => ClosedContainsReach(g, u, ExpandTop(g, s, a), rest, t);
  }

  ghost predicate NoDuplicates(ss: seq<Stack>) {
    forall i, j :: 0 <= i < j < |ss| ==> ss[i] != ss[j]
  }

  method AddIfNew(stacks: seq<Stack>, s: Stack) returns (out: seq<Stack>)
    ensures forall t :: t in out <==> t in stacks || t == s
    ensures stacks <= out && (NoDuplicates(stacks) ==> NoDuplicates(out))
  {
    out := if s in stacks then stacks else stacks + [s];
  }

  // Scan from an alternate start to the element that ends the alternate.
  method ScanToEnd(rule: Rule, start: nat) returns (i: nat)
    requires WfRule(rule) && start < |rule|
    ensures start <= i < |rule| && IsEndOfSequence(rule[i])
    ensures forall a: nat :: start < a <= i ==> !IsAltStart(rule, a)
  {
    i := start;
    while !IsEndOfSequence(rule[i])
      invariant start <= i < |rule|
      invariant forall k :: start <= k < i ==> !IsEndOfSequence(rule[k])
      decreases |rule| - i
    {
      i := i + 1;
    }
  }

  lemma AltFollows(rule: Rule, i: nat)
    requires WfRule(rule) && i < |rule| && rule[i].typ.Alt?
    ensures IsAltStart(rule, i + 1)
  {}

  // t is the expansion of s by an alternate that starts before index n.
  ghost predicate ExpandsBelow(g: Rules, s: Stack, n: nat, t: Stack) {
    exists a: nat :: a < n && CanExpand(g, s, a) && t == ExpandTop(g, s, a)
  }

  lemma ExpandsBelowNext(g: Rules, s: Stack, m: nat, n: nat, t: Stack)
    requires m < n && CanExpand(g, s, m)
    requires forall a: nat :: m < a < n ==> !CanExpand(g, s, a)
    ensures ExpandsBelow(g, s, n, t) <==> ExpandsBelow(g, s, m, t) || t == ExpandTop(g, s, m)
  {}

  // Push every expansion of the reference on top of cur onto the work list.
  method PushExpansions(g: Rules, cur: Stack, todo: seq<Stack>) returns (out: seq<Stack>)
    requires WfRules(g) && ValidStack(g, cur) && cur != [] && TopElem(g, cur).typ.RuleRef?
    ensures forall t :: t in out <==> t in todo || ExpandsBelow(g, cur, |g[TopElem(g, cur).value]|, t)
  {
    out := todo;
    var r := TopElem(g, cur).value;
    var subpos := 0;
    while true
      invariant IsAltStart(g[r], subpos)
      invariant forall t :: t in out <==> t in todo || ExpandsBelow(g, cur, subpos, t)
      decreases |g[r]| - subpos
    {
      var start := subpos;
      var next := ExpandTop(g, cur, start);
      out := out + [next];
      subpos := ScanToEnd(g[r], start);
      forall t ensures ExpandsBelow(g, cur, subpos + 1, t) <==> ExpandsBelow(g, cur, start, t) || t == next {
        ExpandsBelowNext(g, cur, start, subpos + 1, t);
      }
      if !g[r][subpos].typ.Alt? {
        assert subpos + 1 == |g[r]|;
        return;
      }
      subpos := subpos + 1;
    }
  }

  /**
   llama_grammar_advance_stack.  It terminates on every stack that lies in some finite set closed
   under expansion, and appends to newStacks exactly the settled stacks reachable from it, without
   duplicates.  The branch that aborts cannot be reached.
   */
  method AdvanceStack(g: Rules, stack: Stack, newStacks: seq<Stack>, ghost universe: set<Stack>)
    returns (out: seq<Stack>)
    requires WfRules(g) && ValidStack(g, stack)
    requires stack in universe && ClosedUnderExpansion(g, universe)
    ensures forall t :: t in out <==> t in newStacks || Advances(g, stack, t)
    ensures newStacks <= out && (NoDuplicates(newStacks) ==> NoDuplicates(out))
  {
    out := newStacks;
    var todo := [stack];
    var seen: set<Stack> := {};
    ReachSelf(g, stack);
    while todo != []
      invariant seen <= universe && forall s :: s in todo ==> s in universe
      invariant forall s :: s in seen || s in todo ==> ValidStack(g, s) && Reach(g, stack, s)
      invariant stack in seen || stack in todo
      invariant forall s, a: nat :: s in seen && CanExpand(g, s, a) ==>
                                 ExpandTop(g, s, a) in seen || ExpandTop(g, s, a) in todo
      invariant forall t :: t in out <==> t in newStacks || (t in seen && Settled(g, t))
      invariant newStacks <= out && (NoDuplicates(newStacks) ==> NoDuplicates(out))
      decreases universe - seen, |todo|
    {
      var cur := todo[|todo| - 1];
      ghost var before := todo;
      todo := todo[..|todo| - 1];
      assert forall s :: s in before <==> s in todo || s == cur;
      if cur in seen { continue; }
      seen := seen + {cur};
      if cur == [] {
        out := AddIfNew(out, cur);
        continue;
      }
      assert ValidPos(g, cur[|cur| - 1]);
      match TopElem(g, cur).typ
      case RuleRef =>
        forall a: nat | CanExpand(g, cur, a) ensures Reach(g, stack, ExpandTop(g, cur, a)) {
          ReachExtends(g, stack, cur, a);
        }
        todo := PushExpansions(g, cur, todo);
      case Char | CharNot | CharAny | Token | TokenNot =>
        out := AddIfNew(out, cur);
      case End | Alt | CharRngUpper | CharAlt =>
        assert false;
    }
    assert ClosedUnderExpansion(g, seen);
    forall t | Reach(g, stack, t) ensures t in seen {
      var c :| ReachBy(g, stack, c, t);
      ClosedContainsReach(g, seen, stack, c, t);
    }
  }
}
