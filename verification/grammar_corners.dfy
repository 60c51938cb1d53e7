/**
 What the rules look like from the left: which rules derive the empty word, which references the
 machine meets before any terminal, and how a stack evolves on the way to them.
 */
module GrammarCorners {
  import opened GrammarRules
  import opened GrammarLanguage
  import opened GrammarMachine
  import opened GrammarTermination
  import opened RuleGraphs

  // The rules that derive the empty word.
  ghost function Nullable(g: Rules): set<nat> {
    set r: nat | r < |g| && InLang(g, [Ref(r)], [])
  }

  // Everything before index i of rule r, in its alternate, derives the empty word.
  ghost predicate OpenAt(g: Rules, r: nat, i: nat) {
    r < |g| && i <= |g[r]| && Open(g[r], i, Nullable(g))
  }

  // Rule r refers to rule x at index i, in a place the machine reaches before any terminal.
  ghost predicate Corner(g: Rules, r: nat, i: nat, x: nat) {
    r < |g| && i < |g[r]| && g[r][i] == Elem(RuleRef, x) && OpenAt(g, r, i)
  }

  ghost predicate MeetsFirst(g: Rules, r: nat, x: nat) {
    exists i: nat :: Corner(g, r, i, x)
  }

  // The graph of the left corners.
  ghost function CornerEdges(g: Rules): Edges {
    set r: nat, x: nat | r < |g| && x < |g| && MeetsFirst(g, r, x) :: (r, x)
  }

  lemma CornerIsEdge(g: Rules, r: nat, i: nat, x: nat)
    requires WfRules(g) && Corner(g, r, i, x)
    ensures (r, x) in CornerEdges(g) && i + 1 < |g[r]|
  {
    assert g[r][i].value < |g| && MeetsFirst(g, r, x);
    NotLast(g, r, i);
  }

  lemma CornersStayWithin(g: Rules, used: set<nat>)
    requires ClosedScope(g, used)
    ensures Closed(CornerEdges(g), used)
  {
    forall r: nat, x: nat | r in used && (r, x) in CornerEdges(g) ensures x in used {
      var i: nat :| Corner(g, r, i, x);
      assert Refers(g, r, i, x);
    }
  }

  lemma NotLast(g: Rules, r: nat, i: nat)
    requires WfRules(g) && r < |g| && i < |g[r]| && !IsEndOfSequence(g[r][i])
    ensures i + 1 < |g[r]|
  {
    assert WfRule(g[r]);
  }

  // ---------- the rules that derive the empty word ----------

  lemma EmptyFormIsNullable(g: Rules, s: Stack)
    requires s == []
    ensures InLang(g, Form(g, s), [])
  {
    assert Parses(g, Form(g, s), Done) && Yield(Done) == [];
  }

  // A rule with an alternate that derives the empty word is nullable.
  lemma AltIsNullable(g: Rules, x: nat, a: nat)
    requires x < |g| && IsAltStart(g[x], a) && InLang(g, Syms(g[x][a..]), [])
    ensures x in Nullable(g)
  {
    assert [Ref(x)] + [] == [Ref(x)] && Syms(g[x][a..]) + [] == Syms(g[x][a..]);
    RefLanguage(g, x, [], []);
  }

  lemma ClearedIsNullable(g: Rules, x: nat, a: nat)
    requires x < |g| && IsAltStart(g[x], a) && IsBoundary(g, Pos(x, a)) && InLang(g, Form(g, Push(g, [], Pos(x, a))), [])
    ensures x in Nullable(g)
  {
    FormOfPush(g, [], Pos(x, a));
    assert Syms(g[x][a..]) + [] == Syms(g[x][a..]);
    AltIsNullable(g, x, a);
  }

  lemma OpenPast(g: Rules, r: nat, i: nat, x: nat)
    requires OpenAt(g, r, i) && i < |g[r]| && g[r][i] == Elem(RuleRef, x) && x in Nullable(g)
    ensures OpenAt(g, r, i + 1)
  {}

  lemma AltStartIsOpen(g: Rules, x: nat, a: nat)
    requires x < |g| && IsAltStart(g[x], a)
    ensures OpenAt(g, x, a)
  {}

  lemma {:induction false} EmptyParseIsNullable(g: Rules, nullable: set<nat>, form: seq<Sym>, d: Parse)
    requires NullableClosed(g, nullable) && Parses(g, form, d) && Yield(d) == []
    ensures AllNullable(form, nullable)
    decreases d
  {
    match d
    case Done =>
    case Expand(a, inner, rest) =>
      EmptyParseIsNullable(g, nullable, Syms(g[form[0].rule][a..]), inner);
      EmptyParseIsNullable(g, nullable, form[1..], rest);
      assert IsNullableAlt(g, nullable, form[0].rule, a);
      AllNullableSplit(form, nullable);
  }

  lemma {:induction false} NullableFormIsEmpty(g: Rules, form: seq<Sym>)
    requires AllNullable(form, Nullable(g))
    ensures InLang(g, form, [])
    decreases |form|
  {
    if form == [] {
      assert Parses(g, form, Done) && Yield(Done) == [];
    } else {
      NullableFormIsEmpty(g, form[1..]);
      var d :| Parses(g, [Ref(form[0].rule)], d) && Yield(d) == [];
      var e :| Parses(g, form[1..], e) && Yield(e) == [];
      ParsesAppend(g, [Ref(form[0].rule)], form[1..], d, e);
      assert [Ref(form[0].rule)] + form[1..] == form;
    }
  }

  // The rules that derive the empty word are the smallest set that holds every rule with an alternate of such
  // rules only, so they are found by adding rules until nothing changes.
  lemma NullableIsLeast(g: Rules, nullable: set<nat>)
    ensures NullableClosed(g, Nullable(g))
    ensures NullableClosed(g, nullable) ==> Nullable(g) <= nullable
  {
    forall r: nat, a: nat | IsNullableAlt(g, Nullable(g), r, a) ensures r in Nullable(g) {
      NullableFormIsEmpty(g, Syms(g[r][a..]));
      AltIsNullable(g, r, a);
    }
    if NullableClosed(g, nullable) {
      forall r | r in Nullable(g) ensures r in nullable {
        var d :| Parses(g, [Ref(r)], d) && Yield(d) == [];
        EmptyParseIsNullable(g, nullable, [Ref(r)], d);
        assert [Ref(r)][0] == Ref(r);
      }
    }
  }

  // ---------- what a stack does above a base ----------

  lemma ExpandAbove(g: Rules, base: Stack, s: Stack, a: nat)
    requires ValidStack(g, base) && CanExpand(g, s, a)
    ensures CanExpand(g, base + s, a) && ExpandTop(g, base + s, a) == base + ExpandTop(g, s, a)
  {
    assert (base + s)[..|base + s| - 1] == base + s[..|s| - 1];
    assert After(g, base + s) == base + After(g, s);
  }

  lemma {:induction false} ReachAbove(g: Rules, base: Stack, s: Stack, c: Trail, t: Stack)
    requires ValidStack(g, base) && ReachBy(g, s, c, t)
    ensures ReachBy(g, base + s, c, base + t)
    decreases c
  {
    match c
    case Here =>
    case Choose(a, rest) =>
      ExpandAbove(g, base, s, a);
      ReachAbove(g, base, ExpandTop(g, s, a), rest, t);
  }

  lemma {:induction false} ReachByThen(g: Rules, s: Stack, c: Trail, t: Stack, d: Trail, u: Stack)
    requires ReachBy(g, s, c, t) && ReachBy(g, t, d, u)
    ensures Reach(g, s, u)
    decreases c
  {
    match c
    case Here =>
    case Choose(a, rest) =>
      ReachByThen(g, ExpandTop(g, s, a), rest, t, d, u);
      var e :| ReachBy(g, ExpandTop(g, s, a), e, u);
      assert ReachBy(g, s, Choose(a, e), u);
  }

  lemma ReachThen(g: Rules, s: Stack, t: Stack, u: Stack)
    requires Reach(g, s, t) && Reach(g, t, u)
    ensures Reach(g, s, u)
  {
    var c :| ReachBy(g, s, c, t);
    var d :| ReachBy(g, t, d, u);
    ReachByThen(g, s, c, t, d, u);
  }

  lemma ReachFirst(g: Rules, s: Stack, a: nat, t: Stack)
    requires CanExpand(g, s, a) && Reach(g, ExpandTop(g, s, a), t)
    ensures Reach(g, s, t)
  {
    var c :| ReachBy(g, ExpandTop(g, s, a), c, t);
    assert ReachBy(g, s, Choose(a, c), t);
  }

  // What follows p derives the empty word, so the machine can clear it off the stack.
  lemma {:induction false} Erase(g: Rules, base: Stack, p: Pos, d: Parse)
    requires WfRules(g) && ValidStack(g, base) && IsBoundary(g, p)
    requires Parses(g, Syms(RestAt(g, p)), d) && Yield(d) == []
    ensures Reach(g, Push(g, base, p), base)
    decreases d
  {
    match d
    case Done => ReachSelf(g, base);
    case Expand(a, inner, rest) =>
      var s := base + [p];
      var x := ElemAt(g, p).value;
      assert s[..|s| - 1] == base;
      SymsSplit(g, p);
      AltStartIsBoundary(g, x, a);
      Erase(g, After(g, s), Pos(x, a), inner);
      Erase(g, base, Pos(p.rule, NextIdx(g, p)), rest);
      ReachFirst(g, s, a, After(g, s));
      ReachThen(g, s, After(g, s), base);
  }

  lemma SettledAbove(g: Rules, base: Stack, t: Stack)
    requires ValidStack(g, base) && Settled(g, t) && t != []
    ensures Settled(g, base + t)
  {
    assert (base + t)[|base + t| - 1] == t[|t| - 1];
  }

  // ---------- from a rule to its left corners ----------

  ghost predicate GrowsTo(g: Rules, r: nat, a: nat, t: Stack) {
    r < |g| && IsAltStart(g[r], a) && IsBoundary(g, Pos(r, a)) && Reach(g, Push(g, [], Pos(r, a)), t)
  }

  // The machine gets from the start of an alternate to every index it leaves open.
  lemma {:induction false} ReachOpen(g: Rules, r: nat, i: nat) returns (a: nat)
    requires WfRules(g) && OpenAt(g, r, i) && i < |g[r]| && !IsEndOfSequence(g[r][i])
    ensures GrowsTo(g, r, a, [Pos(r, i)])
    decreases i
  {
    assert WfRule(g[r]);
    if IsAltStart(g[r], i) {
      a := i;
      AltStartIsBoundary(g, r, a);
      assert Push(g, [], Pos(r, a)) == [Pos(r, i)];
      ReachSelf(g, [Pos(r, i)]);
    } else {
      a := ReachOpen(g, r, i - 1);
      ClearRef(g, r, i - 1);
      ReachThen(g, Push(g, [], Pos(r, a)), [Pos(r, i - 1)], [Pos(r, i)]);
    }
  }

  // A reference to a rule that derives the empty word can be passed.
  lemma ClearRef(g: Rules, r: nat, i: nat)
    requires WfRules(g) && r < |g| && i + 1 < |g[r]| && g[r][i].typ.RuleRef? && !IsEndOfSequence(g[r][i + 1])
    requires g[r][i].value in Nullable(g)
    ensures Reach(g, [Pos(r, i)], [Pos(r, i + 1)])
  {
    var x := g[r][i].value;
    var d :| Parses(g, [Ref(x)], d) && Yield(d) == [];
    var s, rest := OverRef(g, r, i, d.alt);
    Erase(g, [], Pos(x, d.alt), d.inner);
    GrowOver(g, s, d.alt, rest, x, []);
    assert rest + [] == [Pos(r, i + 1)];
  }

  // Choosing alternate b of rule x on top of s puts its start above rest.
  ghost predicate ExpandsOver(g: Rules, s: Stack, b: nat, rest: Stack, x: nat) {
    CanExpand(g, s, b) && IsBoundary(g, Pos(x, b)) && ExpandTop(g, s, b) == rest + Push(g, [], Pos(x, b))
  }

  lemma OverRef(g: Rules, r: nat, i: nat, b: nat) returns (s: Stack, rest: Stack)
    requires WfRules(g) && r < |g| && i < |g[r]| && g[r][i].typ.RuleRef? && IsAltStart(g[g[r][i].value], b)
    ensures i + 1 < |g[r]| && s == [Pos(r, i)] && ValidStack(g, s) && ValidStack(g, rest) && rest == After(g, s)
    ensures |rest| == if IsEndOfSequence(g[r][i + 1]) then 0 else 1
    ensures ExpandsOver(g, s, b, rest, g[r][i].value)
  {
    NotLast(g, r, i);
    s := [Pos(r, i)];
    assert s[..0] == [];
    rest := After(g, s);
    AltStartIsBoundary(g, g[r][i].value, b);
    assert ExpandTop(g, s, b) == rest + Push(g, [], Pos(g[r][i].value, b));
  }

  lemma GrowOver(g: Rules, s: Stack, b: nat, rest: Stack, x: nat, t: Stack)
    requires ValidStack(g, rest) && ExpandsOver(g, s, b, rest, x) && Reach(g, Push(g, [], Pos(x, b)), t)
    ensures Reach(g, s, rest + t)
  {
    var c :| ReachBy(g, Push(g, [], Pos(x, b)), c, t);
    ReachAbove(g, rest, Push(g, [], Pos(x, b)), c, t);
    ReachFirst(g, s, b, rest + t);
  }

  // What x grows to, r grows to as well, above what follows the reference to x.
  lemma GrowsThrough(g: Rules, r: nat, i: nat, x: nat, b: nat, t: Stack) returns (a: nat, u: Stack)
    requires WfRules(g) && Corner(g, r, i, x) && GrowsTo(g, x, b, t)
    ensures i + 1 < |g[r]| && GrowsTo(g, r, a, u) && |u| == |t| + if IsEndOfSequence(g[r][i + 1]) then 0 else 1
    ensures t != [] && Settled(g, t) ==> Settled(g, u)
  {
    a := ReachOpen(g, r, i);
    var s, rest := OverRef(g, r, i, b);
    GrowOver(g, s, b, rest, x, t);
    u := rest + t;
    if t != [] && Settled(g, t) { SettledAbove(g, rest, t); }
    ReachThen(g, Push(g, [], Pos(r, a)), s, u);
  }

  // ---------- an expansion keeps what is open ----------

  // The parts of an expanded stack.
  lemma Expanded(g: Rules, t: Stack, a: nat) returns (x: nat, below: Stack, rest: Stack, top: Stack)
    requires CanExpand(g, t, a)
    ensures TopElem(g, t) == Elem(RuleRef, x) && x < |g| && below == t[..|t| - 1]
    ensures ExpandTop(g, t, a) == (below + rest) + top && IsBoundary(g, Pos(x, a)) && top == Push(g, [], Pos(x, a))
    ensures t[|t| - 1].idx + 1 < |g[t[|t| - 1].rule]|
    ensures rest == if IsEndOfSequence(g[t[|t| - 1].rule][t[|t| - 1].idx + 1]) then []
                    else [Pos(t[|t| - 1].rule, t[|t| - 1].idx + 1)]
  {
    x := TopElem(g, t).value;
    assert ElemAt(g, t[|t| - 1]) == Elem(RuleRef, x);
    NotLast(g, t[|t| - 1].rule, t[|t| - 1].idx);
    AltStartIsBoundary(g, x, a);
    below, top := t[..|t| - 1], Push(g, [], Pos(x, a));
    rest := if IsEndOfSequence(g[t[|t| - 1].rule][t[|t| - 1].idx + 1]) then []
            else [Pos(t[|t| - 1].rule, t[|t| - 1].idx + 1)];
    assert After(g, t) == below + rest;
  }

  // Once everything above t[i] has been cleared, what t[i] rests on is open.
  ghost predicate Cleared(g: Rules, t: Stack, i: nat)
    requires ValidStack(g, t) && i < |t|
  {
    InLang(g, Form(g, t[i + 1..]), []) ==> OpenAt(g, t[i].rule, t[i].idx)
  }

  // A reference on top of the stack stands for a left corner.
  lemma TopIsCorner(g: Rules, t: Stack, x: nat)
    requires WfRules(g) && ValidStack(g, t) && t != [] && TopElem(g, t) == Elem(RuleRef, x) && Cleared(g, t, |t| - 1)
    ensures x < |g| && Corner(g, t[|t| - 1].rule, t[|t| - 1].idx, x)
  {
    assert t[|t|..] == [];
    EmptyFormIsNullable(g, t[|t|..]);
    assert g[t[|t| - 1].rule][t[|t| - 1].idx].value < |g|;
  }

  // Below the top nothing changes, and what is above can be cleared only if it could before.
  lemma ClearedBelow(g: Rules, t: Stack, a: nat, i: nat)
    requires CanExpand(g, t, a) && i < |t| - 1 && Cleared(g, t, i)
    ensures i < |ExpandTop(g, t, a)| && ExpandTop(g, t, a)[i] == t[i] && Cleared(g, ExpandTop(g, t, a), i)
  {
    var above, u := t[i + 1..], ExpandTop(g, t, a);
    assert t == t[..i + 1] + above;
    ExpandAbove(g, t[..i + 1], above, a);
    var next := ExpandTop(g, above, a);
    assert u == t[..i + 1] + next && u[i + 1..] == next;
    if InLang(g, Form(g, next), []) {
      assert ReachBy(g, next, Here, next);
      assert ReachBy(g, above, Choose(a, Here), next);
      ReachSound(g, above, Choose(a, Here), next, []);
    }
  }

  // Moving past a reference to x leaves the place open once the alternate of x is cleared.
  lemma ClearedPast(g: Rules, below: Stack, r: nat, i: nat, x: nat, a: nat, top: Stack)
    requires ValidStack(g, (below + [Pos(r, i + 1)]) + top)
    requires x < |g| && IsAltStart(g[x], a) && IsBoundary(g, Pos(x, a)) && top == Push(g, [], Pos(x, a))
    requires Corner(g, r, i, x)
    ensures Cleared(g, (below + [Pos(r, i + 1)]) + top, |below|)
  {
    assert ((below + [Pos(r, i + 1)]) + top)[|below| + 1..] == top;
    if InLang(g, Form(g, top), []) {
      ClearedIsNullable(g, x, a);
      OpenPast(g, r, i, x);
    }
  }

  // The new position is the start of an alternate.
  lemma ClearedAtStart(g: Rules, t: Stack, a: nat, i: nat)
    requires CanExpand(g, t, a) && |After(g, t)| <= i < |ExpandTop(g, t, a)|
    ensures Cleared(g, ExpandTop(g, t, a), i)
  {
    var x, below, rest, top := Expanded(g, t, a);
    AltStartIsOpen(g, x, a);
  }

  lemma ClearedOnTop(g: Rules, t: Stack, a: nat)
    requires CanExpand(g, t, a) && Cleared(g, t, |t| - 1) && |After(g, t)| == |t|
    ensures |t| <= |ExpandTop(g, t, a)| && Cleared(g, ExpandTop(g, t, a), |t| - 1)
  {
    var x, below, rest, top := Expanded(g, t, a);
    TopIsCorner(g, t, x);
    ClearedPast(g, below, t[|t| - 1].rule, t[|t| - 1].idx, x, a, top);
  }

  lemma ClearedStep(g: Rules, t: Stack, a: nat, i: nat)
    requires CanExpand(g, t, a) && i < |ExpandTop(g, t, a)|
    requires Cleared(g, t, |t| - 1) && (i < |t| ==> Cleared(g, t, i))
    ensures Cleared(g, ExpandTop(g, t, a), i)
  {
    if i < |t| - 1 {
      ClearedBelow(g, t, a, i);
    } else if i < |After(g, t)| {
      ClearedOnTop(g, t, a);
    } else {
      ClearedAtStart(g, t, a, i);
    }
  }
}
