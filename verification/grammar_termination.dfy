/**
 When the worklist of `llama_grammar_advance_stack` terminates: a rank that strictly decreases along
 left-corner references bounds the set of stacks it can visit.  Left corners are counted through
 nullable prefixes.
 */
module GrammarTermination {
  import opened GrammarRules
  import opened GrammarMachine

  // Every symbol is a reference to a rule in nullable.
  predicate AllNullable(form: seq<Sym>, nullable: set<nat>) {
    forall i :: 0 <= i < |form| ==> form[i].Ref? && form[i].rule in nullable
  }

  // nullable contains every rule that has an alternate made of references to rules in nullable.
  ghost predicate NullableClosed(g: Rules, nullable: set<nat>) {
    forall r: nat, a: nat :: IsNullableAlt(g, nullable, r, a) ==> r in nullable
  }

  // Alternate a of rule r consists of references to rules in nullable.
  predicate IsNullableAlt(g: Rules, nullable: set<nat>, r: nat, a: nat) {
    r < |g| && IsAltStart(g[r], a) && AllNullable(Syms(g[r][a..]), nullable)
  }

  // The rules that can stand leftmost in what the form expands to before any terminal.
  function LeftCorners(form: seq<Sym>, nullable: set<nat>): (rs: seq<nat>)
    ensures |rs| <= |form|
  {
    if form == [] || !form[0].Ref? then []
    else if form[0].rule in nullable then [form[0].rule] + LeftCorners(form[1..], nullable)
    else [form[0].rule]
  }

  // Rule x can stand leftmost in what alternate a of rule r expands to before any terminal.
  predicate IsLeftCorner(g: Rules, nullable: set<nat>, r: nat, a: nat, x: nat) {
    r < |g| && IsAltStart(g[r], a) && x in LeftCorners(Syms(g[r][a..]), nullable)
  }

  ghost predicate Ranked(g: Rules, nullable: set<nat>, rank: seq<nat>) {
    && |rank| == |g|
    && forall r: nat, a: nat, x: nat :: IsLeftCorner(g, nullable, r, a, x) ==> x < |g| && rank[x] < rank[r]
  }

  // Only references to rules in nullable stand between the start of the alternate and index i.
  predicate Open(r: Rule, i: nat, nullable: set<nat>)
    requires i <= |r|
    decreases i
  {
    i == 0 || IsEndOfSequence(r[i - 1])
    || (r[i - 1].typ.RuleRef? && Open(r, i - 1, nullable) && r[i - 1].value in nullable)
  }

  // ---------- the rules that matter ----------

  // Rule r refers to rule x at index i.
  predicate Refers(g: Rules, r: nat, i: nat, x: nat) {
    r < |g| && i < |g[r]| && g[r][i] == Elem(RuleRef, x)
  }

  // used holds rules only, and with each of them those it refers to.
  ghost predicate ClosedScope(g: Rules, used: set<nat>) {
    && (forall r: nat :: r in used ==> r < |g|)
    && (forall r: nat, i: nat, x: nat :: r in used && Refers(g, r, i, x) ==> x in used)
  }

  // All positions of the stack are in rules of used.
  predicate StaysIn(used: set<nat>, s: Stack) {
    forall i :: 0 <= i < |s| ==> s[i].rule in used
  }

  ghost predicate AllIn(used: set<nat>, stacks: seq<Stack>) {
    forall s :: s in stacks ==> StaysIn(used, s)
  }

  lemma AfterStaysWithin(g: Rules, used: set<nat>, s: Stack)
    requires WfRules(g) && ValidStack(g, s) && s != [] && StaysIn(used, s)
    ensures StaysIn(used, After(g, s))
  {}

  lemma ExpandStaysWithin(g: Rules, used: set<nat>, s: Stack, a: nat)
    requires ClosedScope(g, used) && CanExpand(g, s, a) && StaysIn(used, s)
    ensures StaysIn(used, ExpandTop(g, s, a))
  {
    var p := s[|s| - 1];
    assert Refers(g, p.rule, p.idx, TopElem(g, s).value);
    AfterStaysWithin(g, used, s);
  }

  lemma {:induction false} ReachStaysWithin(g: Rules, used: set<nat>, s: Stack, c: Trail, t: Stack)
    requires ClosedScope(g, used) && StaysIn(used, s) && ReachBy(g, s, c, t)
    ensures StaysIn(used, t)
    decreases c
  {
    match c
    case Here =>
    case Choose(a, rest) =>
      ExpandStaysWithin(g, used, s, a);
      ReachStaysWithin(g, used, ExpandTop(g, s, a), rest, t);
  }

  lemma AdvanceStaysWithin(g: Rules, used: set<nat>, s: Stack, t: Stack)
    requires ClosedScope(g, used) && StaysIn(used, s) && Advances(g, s, t)
    ensures StaysIn(used, t)
  {
    var c :| ReachBy(g, s, c, t);
    ReachStaysWithin(g, used, s, c, t);
  }

  // ---------- what the machine needs ----------

  // The worklist started from s ends: finitely many stacks can be reached.
  ghost predicate EndsOn(g: Rules, s: Stack) {
    exists u: set<Stack> :: s in u && ClosedUnderExpansion(g, u)
  }

  ghost predicate Ends(g: Rules, used: set<nat>) {
    forall s {:trigger EndsOn(g, s)} :: ValidStack(g, s) && StaysIn(used, s) ==> EndsOn(g, s)
  }

  lemma {:induction false} LongestStack(u: set<Stack>) returns (m: nat)
    ensures forall s :: s in u ==> |s| <= m
    decreases |u|
  {
    if u == {} {
      m := 0;
    } else {
      var s :| s in u;
      m := LongestStack(u - {s});
      m := if m < |s| then |s| else m;
    }
  }

  // s advances to some stack: advance_stack does not return without one.
  ghost predicate SettlesOn(g: Rules, s: Stack) {
    exists t :: Advances(g, s, t)
  }

  ghost predicate Settles(g: Rules, used: set<nat>) {
    forall s {:trigger SettlesOn(g, s)} :: ValidStack(g, s) && StaysIn(used, s) ==> SettlesOn(g, s)
  }

  // On stacks in these rules the machine neither runs for ever nor reaches its assertion.
  ghost predicate Workable(g: Rules, used: set<nat>) {
    WfRules(g) && ClosedScope(g, used) && Ends(g, used) && Settles(g, used)
  }

  lemma WorkableUniverse(g: Rules, used: set<nat>, s: Stack) returns (u: set<Stack>)
    requires Workable(g, used) && ValidStack(g, s) && StaysIn(used, s)
    ensures s in u && ClosedUnderExpansion(g, u)
  {
    assert EndsOn(g, s);
    u :| s in u && ClosedUnderExpansion(g, u);
  }

  // The machine works on some rules that hold the start rule and whatever they refer to.
  ghost predicate WorksFrom(g: Rules, start: nat) {
    exists used: set<nat> :: start in used && Workable(g, used)
  }

  // advance_stack on a stack in such rules.
  method AdvanceWithin(g: Rules, stack: Stack, newStacks: seq<Stack>, ghost used: set<nat>) returns (out: seq<Stack>)
    requires Workable(g, used) && ValidStack(g, stack) && StaysIn(used, stack)
    ensures forall t :: t in out <==> t in newStacks || Advances(g, stack, t)
    ensures newStacks <= out && (NoDuplicates(newStacks) ==> NoDuplicates(out))
  {
    ghost var u := WorkableUniverse(g, used, stack);
    out := AdvanceStack(g, stack, newStacks, u);
  }

  // A rank that falls along left corners suffices.
  ghost predicate Rankable(g: Rules) {
    WfRules(g) && exists nullable, rank :: NullableClosed(g, nullable) && Ranked(g, nullable, rank)
  }

  // ---------- from ranks to weights ----------

  function Pow(b: nat, e: nat): (p: nat) {
    if e == 0 then 1 else b * Pow(b, e - 1)
  }

  lemma {:induction false} PowMonotone(b: nat, d: nat, e: nat)
    requires b >= 1 && d <= e
    ensures 1 <= Pow(b, d) <= Pow(b, e)
    decreases e
  {
    if d < e {
      PowMonotone(b, d, e - 1);
      assert Pow(b, e) >= Pow(b, e - 1) by { MulGrows(b, Pow(b, e - 1)); }
    } else if e > 0 {
      PowMonotone(b, d - 1, e - 1);
      MulGrows(b, Pow(b, e - 1));
    }
  }

  lemma MulGrows(b: nat, x: nat)
    requires b >= 1
    ensures b * x >= x
  {}

  lemma MulStrict(n: nat, b: nat, x: nat)
    requires n < b && x >= 1
    ensures n * x < b * x
  {}

  function Sum(xs: seq<nat>, weight: seq<nat>): (t: nat) {
    if xs == [] then 0 else (if xs[0] < |weight| then weight[xs[0]] else 0) + Sum(xs[1..], weight)
  }

  // Expansion work of a form: the weights of its left corners.
  function Work(form: seq<Sym>, nullable: set<nat>, weight: seq<nat>): nat {
    Sum(LeftCorners(form, nullable), weight)
  }

  ghost predicate Weighted(g: Rules, nullable: set<nat>, weight: seq<nat>) {
    && WfRules(g) && |weight| == |g| && NullableClosed(g, nullable)
    && forall r: nat, a: nat :: AltIsLighter(g, nullable, weight, r, a)
  }

  // Choosing alternate a of rule r leaves less work than the reference to r had.
  predicate AltIsLighter(g: Rules, nullable: set<nat>, weight: seq<nat>, r: nat, a: nat) {
    r < |g| && r < |weight| && IsAltStart(g[r], a) ==> Work(Syms(g[r][a..]), nullable, weight) < weight[r]
  }

  // Longest rule.
  function MaxLen(g: Rules): (m: nat)
    ensures forall r: nat :: r < |g| ==> |g[r]| <= m
  {
    if g == [] then 0
    else
      var m := MaxLen(g[..|g| - 1]);
      if m < |g[|g| - 1]| then |g[|g| - 1]| else m
  }

  lemma {:induction false} SymsShort(r: Rule)
    ensures |Syms(r)| <= |r|
    decreases |r|
  {
    if r != [] && !IsEndOfSequence(r[0]) { SymsShort(r[SymLen(r)..]); }
  }

  lemma {:induction false} SumBound(xs: seq<nat>, weight: seq<nat>, bound: nat)
    requires forall x :: x in xs && x < |weight| ==> weight[x] <= bound
    ensures Sum(xs, weight) <= |xs| * bound
    decreases |xs|
  {
    if xs != [] {
      SumBound(xs[1..], weight, bound);
      assert |xs| * bound == bound + |xs[1..]| * bound;
    }
  }

  lemma RankGivesWeight(g: Rules, nullable: set<nat>, rank: seq<nat>) returns (weight: seq<nat>)
    requires WfRules(g) && NullableClosed(g, nullable) && Ranked(g, nullable, rank)
    ensures Weighted(g, nullable, weight)
  {
    var b := MaxLen(g) + 1;
    weight := seq(|g|, (r: int) requires 0 <= r < |g| => Pow(b, rank[r]));
    forall r: nat, a: nat ensures AltIsLighter(g, nullable, weight, r, a) {
      if r < |g| && IsAltStart(g[r], a) { AltWork(g, nullable, rank, b, weight, r, a); }
    }
  }

  lemma AltWork(g: Rules, nullable: set<nat>, rank: seq<nat>, b: nat, weight: seq<nat>, r: nat, a: nat)
    requires Ranked(g, nullable, rank) && b == MaxLen(g) + 1
    requires |weight| == |g| && forall x: nat :: x < |g| ==> weight[x] == Pow(b, rank[x])
    requires r < |g| && IsAltStart(g[r], a)
    ensures Work(Syms(g[r][a..]), nullable, weight) < weight[r]
  {
    var xs := LeftCorners(Syms(g[r][a..]), nullable);
    SymsShort(g[r][a..]);
    PowMonotone(b, 0, rank[r]);
    if xs != [] {
      assert IsLeftCorner(g, nullable, r, a, xs[0]);
      var top := Pow(b, rank[r] - 1);
      forall x | x in xs && x < |weight| ensures weight[x] <= top {
        assert IsLeftCorner(g, nullable, r, a, x);
        PowMonotone(b, rank[x], rank[r] - 1);
      }
      SumBound(xs, weight, top);
      PowMonotone(b, 0, rank[r] - 1);
      MulStrict(|xs|, b, top);
    }
  }

  // ---------- every expansion lowers the work ----------

  lemma AllNullableSplit(form: seq<Sym>, nullable: set<nat>)
    requires form != []
    ensures AllNullable(form, nullable) <==> form[0].Ref? && form[0].rule in nullable && AllNullable(form[1..], nullable)
  {
    if form[0].Ref? && form[0].rule in nullable && AllNullable(form[1..], nullable) {
      forall i | 0 <= i < |form| ensures form[i].Ref? && form[i].rule in nullable {
        assert i > 0 ==> form[i] == form[1..][i - 1];
      }
    }
  }

  lemma {:induction false} LeftCornersOfConcat(x: seq<Sym>, y: seq<Sym>, nullable: set<nat>)
    ensures LeftCorners(x + y, nullable)
         == if AllNullable(x, nullable) then LeftCorners(x, nullable) + LeftCorners(y, nullable) else LeftCorners(x, nullable)
    decreases |x|
  {
    if x == [] {
      assert x + y == y;
    } else {
      AllNullableSplit(x, nullable);
      assert (x + y)[1..] == x[1..] + y && (x + y)[0] == x[0];
      if x[0].Ref? && x[0].rule in nullable {
        LeftCornersOfConcat(x[1..], y, nullable);
        assert LeftCorners(x + y, nullable) == [x[0].rule] + LeftCorners(x[1..] + y, nullable);
      }
    }
  }

  lemma {:induction false} SumOfConcat(x: seq<nat>, y: seq<nat>, weight: seq<nat>)
    ensures Sum(x + y, weight) == Sum(x, weight) + Sum(y, weight)
    decreases |x|
  {
    if x == [] {
      assert x + y == y;
    } else {
      SumOfConcat(x[1..], y, weight);
      assert (x + y)[1..] == x[1..] + y;
    }
  }

  lemma ChoiceLowersWork(g: Rules, nullable: set<nat>, weight: seq<nat>, r: nat, a: nat, rest: seq<Sym>)
    requires Weighted(g, nullable, weight) && r < |g| && IsAltStart(g[r], a)
    ensures Work(Syms(g[r][a..]) + rest, nullable, weight) < Work([Ref(r)] + rest, nullable, weight)
  {
    var alt := Syms(g[r][a..]);
    assert ([Ref(r)] + rest)[1..] == rest;
    LeftCornersOfConcat(alt, rest, nullable);
    SumOfConcat(LeftCorners(alt, nullable), LeftCorners(rest, nullable), weight);
    SumOfConcat([r], LeftCorners(rest, nullable), weight);
    assert AltIsLighter(g, nullable, weight, r, a);
    assert IsNullableAlt(g, nullable, r, a) ==> r in nullable;
  }

  lemma ExpansionLowersWork(g: Rules, nullable: set<nat>, weight: seq<nat>, s: Stack, a: nat)
    requires Weighted(g, nullable, weight) && CanExpand(g, s, a)
    ensures Work(Form(g, ExpandTop(g, s, a)), nullable, weight) < Work(Form(g, s), nullable, weight)
  {
    FormOfExpand(g, s, a);
    ChoiceLowersWork(g, nullable, weight, TopElem(g, s).value, a, Form(g, After(g, s)));
  }

  lemma ClosedUnion(g: Rules, u: set<Stack>, v: set<Stack>, s: Stack, n: nat)
    requires ClosedUnderExpansion(g, u) && ClosedUnderExpansion(g, v)
    requires forall t :: ExpandsBelow(g, s, n, t) ==> t in u
    requires CanExpand(g, s, n) ==> ExpandTop(g, s, n) in v
    ensures ClosedUnderExpansion(g, u + v)
    ensures forall t :: ExpandsBelow(g, s, n + 1, t) ==> t in u + v
  {
    forall t | ExpandsBelow(g, s, n + 1, t) ensures t in u + v {
      if !ExpandsBelow(g, s, n, t) { assert t == ExpandTop(g, s, n); }
    }
  }

  lemma ClosedAdd(g: Rules, u: set<Stack>, s: Stack)
    requires ClosedUnderExpansion(g, u)
    requires forall a: nat :: CanExpand(g, s, a) ==> ExpandTop(g, s, a) in u
    ensures ClosedUnderExpansion(g, u + {s})
  {}

  lemma {:induction false} ReachableVia(g: Rules, nullable: set<nat>, weight: seq<nat>, s: Stack, a: nat, budget: nat)
    returns (u: set<Stack>)
    requires Weighted(g, nullable, weight) && CanExpand(g, s, a) && Work(Form(g, s), nullable, weight) <= budget
    ensures ClosedUnderExpansion(g, u) && ExpandTop(g, s, a) in u
    decreases budget, 0, 0
  {
    ExpansionLowersWork(g, nullable, weight, s, a);
    u := ReachableSet(g, nullable, weight, ExpandTop(g, s, a), budget - 1);
  }

  // The finitely many stacks the machine can visit after choosing one of the first n alternates of s.
  lemma {:induction false} ReachableBelow(g: Rules, nullable: set<nat>, weight: seq<nat>, s: Stack, n: nat, budget: nat)
    returns (u: set<Stack>)
    requires Weighted(g, nullable, weight) && ValidStack(g, s) && Work(Form(g, s), nullable, weight) <= budget
    ensures ClosedUnderExpansion(g, u)
    ensures forall t :: ExpandsBelow(g, s, n, t) ==> t in u
    decreases budget, 1, n
  {
    u := {};
    if n > 0 {
      u := ReachableBelow(g, nullable, weight, s, n - 1, budget);
      var v: set<Stack> := {};
      if CanExpand(g, s, n - 1) {
        v := ReachableVia(g, nullable, weight, s, n - 1, budget);
      }
      ClosedUnion(g, u, v, s, n - 1);
      u := u + v;
    }
  }

  // The finitely many stacks the machine can visit from s.
  lemma {:induction false} ReachableSet(g: Rules, nullable: set<nat>, weight: seq<nat>, s: Stack, budget: nat)
    returns (u: set<Stack>)
    requires Weighted(g, nullable, weight) && ValidStack(g, s) && Work(Form(g, s), nullable, weight) <= budget
    ensures s in u && ClosedUnderExpansion(g, u)
    decreases budget, 2, 0
  {
    var n := if Settled(g, s) then 0 else |g[TopElem(g, s).value]|;
    u := ReachableBelow(g, nullable, weight, s, n, budget);
    forall a: nat | CanExpand(g, s, a) ensures ExpandTop(g, s, a) in u {
      assert ExpandsBelow(g, s, n, ExpandTop(g, s, a));
    }
    ClosedAdd(g, u, s);
    u := u + {s};
  }

  lemma {:induction false} WeightedSettles(g: Rules, nullable: set<nat>, weight: seq<nat>, s: Stack, budget: nat)
    returns (c: Trail, t: Stack)
    requires Weighted(g, nullable, weight) && ValidStack(g, s) && Work(Form(g, s), nullable, weight) <= budget
    ensures ReachBy(g, s, c, t) && Settled(g, t)
    decreases budget
  {
    if Settled(g, s) {
      c, t := Here, s;
    } else {
      assert WfRule(g[TopElem(g, s).value]) && CanExpand(g, s, 0);
      ExpansionLowersWork(g, nullable, weight, s, 0);
      c, t := WeightedSettles(g, nullable, weight, ExpandTop(g, s, 0), budget - 1);
      c := Choose(0, c);
    }
  }

  // A ranked grammar meets the precondition of AdvanceStack on every stack.
  lemma RankableUniverse(g: Rules, s: Stack) returns (u: set<Stack>)
    requires Rankable(g) && ValidStack(g, s)
    ensures s in u && ClosedUnderExpansion(g, u)
  {
    var nullable, rank :| NullableClosed(g, nullable) && Ranked(g, nullable, rank);
    var weight := RankGivesWeight(g, nullable, rank);
    u := ReachableSet(g, nullable, weight, s, Work(Form(g, s), nullable, weight));
  }

  // On a ranked grammar every stack advances to at least one settled stack.
  lemma RankableSettles(g: Rules, s: Stack)
    requires Rankable(g) && ValidStack(g, s)
    ensures SettlesOn(g, s)
  {
    var nullable, rank :| NullableClosed(g, nullable) && Ranked(g, nullable, rank);
    var weight := RankGivesWeight(g, nullable, rank);
    var c, t := WeightedSettles(g, nullable, weight, s, Work(Form(g, s), nullable, weight));
    assert Reach(g, s, t) && Advances(g, s, t);
  }

  lemma RankableIsWorkable(g: Rules, used: set<nat>)
    requires Rankable(g) && ClosedScope(g, used)
    ensures Workable(g, used)
  {
    forall s | ValidStack(g, s) ensures EndsOn(g, s) && SettlesOn(g, s) {
      var u := RankableUniverse(g, s);
      RankableSettles(g, s);
    }
  }
}
