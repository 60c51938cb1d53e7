/**
 The grammar object (llama_grammar): its set of stacks and pending bytes, initialised from the root
 rule and moved forward by accepted code points and pieces.
 */
module GrammarState {
  import opened GrammarRules
  import opened GrammarLanguage
  import opened GrammarMachine
  import opened GrammarTermination
  import opened CharClass

  // ---------- one code point ----------

  // The stack s can match c and then rest on t.
  ghost predicate Consumes(g: Rules, s: Stack, c: nat, t: Stack) {
    && WfRules(g) && Settled(g, s) && s != []
    && Accepts(TopSym(g, s), c) && Advances(g, After(g, s), t)
  }

  // The stacks rested on after each code point.
  datatype Route = Arrived | Via(m: Stack, rest: Route)

  ghost predicate RunsBy(g: Rules, s: Stack, cps: seq<nat>, route: Route, t: Stack)
    decreases route
  {
    match route
    case Arrived => cps == [] && s == t
    case Via(m, rest) => cps != [] && Consumes(g, s, cps[0], m) && RunsBy(g, m, cps[1..], rest, t)
  }

  // The stack s can match the code points and then rest on t.
  ghost predicate RunsTo(g: Rules, s: Stack, cps: seq<nat>, t: Stack) {
    exists route :: RunsBy(g, s, cps, route, t)
  }

  // after holds exactly what the stacks in before can rest on once they have matched the code points.
  ghost predicate StacksRun(g: Rules, before: seq<Stack>, cps: seq<nat>, after: seq<Stack>) {
    forall t :: t in after <==> exists s :: s in before && RunsTo(g, s, cps, t)
  }

  ghost predicate AllSettled(g: Rules, stacks: seq<Stack>) {
    forall s :: s in stacks ==> Settled(g, s)
  }

  // The words that some stack still accepts.
  ghost predicate StacksAccept(g: Rules, stacks: seq<Stack>, w: seq<nat>) {
    exists s :: s in stacks && ValidStack(g, s) && InLang(g, Form(g, s), w)
  }

  lemma SettledTop(g: Rules, s: Stack)
    requires Settled(g, s) && s != []
    ensures IsTokenElem(TopElem(g, s)) || IsClassStart(TopElem(g, s))
  {
    assert ValidPos(g, s[|s| - 1]);
  }

  lemma NoWordStartsWithToken(g: Rules, s: Sym, rest: seq<Sym>, w: seq<nat>)
    requires s.Tok?
    ensures !InLang(g, [s] + rest, w)
  {
    forall d ensures !Parses(g, [s] + rest, d) {
      assert ([s] + rest)[0] == s;
    }
  }

  lemma EmptyFormLanguage(g: Rules, w: seq<nat>)
    ensures InLang(g, [], w) <==> w == []
  {
    if w == [] { assert Parses(g, [], Done) && Yield(Done) == w; }
  }

  // Consuming a code point is taking the derivative of the language of the stack.
  lemma ConsumesLanguage(g: Rules, s: Stack, c: nat, w: seq<nat>)
    requires WfRules(g) && Settled(g, s)
    ensures InLang(g, Form(g, s), [c] + w) <==> exists t :: Consumes(g, s, c, t) && InLang(g, Form(g, t), w)
  {
    if s == [] {
      EmptyFormLanguage(g, [c] + w);
    } else {
      SettledTop(g, s);
      FormSplitsTop(g, s);
      if IsTokenElem(TopElem(g, s)) {
        NoWordStartsWithToken(g, TopSym(g, s), Form(g, After(g, s)), [c] + w);
      } else {
        ClassLanguage(g, TopSym(g, s), Form(g, After(g, s)), c, w);
        AdvanceLanguage(g, After(g, s), w);
      }
    }
  }

  lemma StepSound(g: Rules, s: Stack, c: nat, t: Stack, w: seq<nat>)
    requires Consumes(g, s, c, t) && InLang(g, Form(g, t), w)
    ensures InLang(g, Form(g, s), [c] + w)
  {
    ConsumesLanguage(g, s, c, w);
  }

  lemma {:induction false} RunsSettled(g: Rules, s: Stack, cps: seq<nat>, route: Route, t: Stack)
    requires Settled(g, s) && RunsBy(g, s, cps, route, t)
    ensures Settled(g, t)
    decreases route
  {
    match route
    case Arrived =>
    case Via(m, rest) => RunsSettled(g, m, cps[1..], rest, t);
  }

  lemma {:induction false} RouteStaysWithin(g: Rules, used: set<nat>, s: Stack, cps: seq<nat>, route: Route, t: Stack)
    requires ClosedScope(g, used) && StaysIn(used, s) && RunsBy(g, s, cps, route, t)
    ensures StaysIn(used, t)
    decreases route
  {
    match route
    case Arrived =>
    case Via(m, rest) =>
      AfterStaysWithin(g, used, s);
      AdvanceStaysWithin(g, used, After(g, s), m);
      RouteStaysWithin(g, used, m, cps[1..], rest, t);
  }

  // Running over a text does not leave the rules in use.
  lemma RunStaysWithin(g: Rules, used: set<nat>, before: seq<Stack>, cps: seq<nat>, after: seq<Stack>)
    requires ClosedScope(g, used) && AllIn(used, before) && StacksRun(g, before, cps, after)
    ensures AllIn(used, after)
  {
    forall t | t in after ensures StaysIn(used, t) {
      var s :| s in before && RunsTo(g, s, cps, t);
      var route :| RunsBy(g, s, cps, route, t);
      RouteStaysWithin(g, used, s, cps, route, t);
    }
  }

  lemma {:induction false} RunsSound(g: Rules, s: Stack, cps: seq<nat>, route: Route, t: Stack, w: seq<nat>)
    requires WfRules(g) && Settled(g, s) && Settled(g, t) && RunsBy(g, s, cps, route, t) && InLang(g, Form(g, t), w)
    ensures InLang(g, Form(g, s), cps + w)
    decreases route
  {
    match route
    case Arrived => assert cps + w == w;
    case Via(m, rest) =>
      RunsSound(g, m, cps[1..], rest, t, w);
      StepSound(g, s, cps[0], m, cps[1..] + w);
      ConcatTail(cps, w);
  }

  lemma {:induction false} RunsComplete(g: Rules, s: Stack, cps: seq<nat>, w: seq<nat>) returns (route: Route, t: Stack)
    requires WfRules(g) && Settled(g, s) && InLang(g, Form(g, s), cps + w)
    ensures RunsBy(g, s, cps, route, t) && Settled(g, t) && InLang(g, Form(g, t), w)
    decreases |cps|
  {
    if cps == [] {
      assert cps + w == w;
      route, t := Arrived, s;
    } else {
      ConcatTail(cps, w);
      ConsumesLanguage(g, s, cps[0], cps[1..] + w);
      var m :| Consumes(g, s, cps[0], m) && InLang(g, Form(g, m), cps[1..] + w);
      route, t := RunsComplete(g, m, cps[1..], w);
      route := Via(m, route);
    }
  }

  // Matching code points takes the derivative of the language of a set of stacks.
  lemma StacksRunLanguage(g: Rules, before: seq<Stack>, cps: seq<nat>, after: seq<Stack>, w: seq<nat>)
    requires WfRules(g) && AllSettled(g, before) && StacksRun(g, before, cps, after)
    ensures AllSettled(g, after)
    ensures StacksAccept(g, after, w) <==> StacksAccept(g, before, cps + w)
  {
    forall t | t in after ensures Settled(g, t) {
      var s :| s in before && RunsTo(g, s, cps, t);
      var route :| RunsBy(g, s, cps, route, t);
      RunsSettled(g, s, cps, route, t);
    }
    if StacksAccept(g, before, cps + w) {
      var s :| s in before && ValidStack(g, s) && InLang(g, Form(g, s), cps + w);
      var route, t := RunsComplete(g, s, cps, w);
      assert RunsTo(g, s, cps, t) && t in after;
    }
    if StacksAccept(g, after, w) {
      var t :| t in after && ValidStack(g, t) && InLang(g, Form(g, t), w);
      var s :| s in before && RunsTo(g, s, cps, t);
      var route :| RunsBy(g, s, cps, route, t);
      RunsSound(g, s, cps, route, t, w);
    }
  }

  lemma {:induction false} RunsJoin(g: Rules, s: Stack, x: seq<nat>, r1: Route, m: Stack, y: seq<nat>, r2: Route, t: Stack)
    returns (r: Route)
    requires RunsBy(g, s, x, r1, m) && RunsBy(g, m, y, r2, t)
    ensures RunsBy(g, s, x + y, r, t)
    decreases r1
  {
    match r1
    case Arrived =>
      assert x + y == y;
      r := r2;
    case Via(k, rest) =>
      ConcatTail(x, y);
      r := RunsJoin(g, k, x[1..], rest, m, y, r2, t);
      r := Via(k, r);
  }

  lemma {:induction false} RunsCut(g: Rules, s: Stack, x: seq<nat>, y: seq<nat>, r: Route, t: Stack)
    returns (r1: Route, m: Stack, r2: Route)
    requires RunsBy(g, s, x + y, r, t)
    ensures RunsBy(g, s, x, r1, m) && RunsBy(g, m, y, r2, t)
    decreases |x|
  {
    if x == [] {
      assert x + y == y;
      r1, m, r2 := Arrived, s, r;
    } else {
      ConcatTail(x, y);
      r1, m, r2 := RunsCut(g, r.m, x[1..], y, r.rest, t);
      r1 := Via(r.m, r1);
    }
  }

  lemma RunsConcat(g: Rules, s: Stack, x: seq<nat>, y: seq<nat>, t: Stack)
    ensures RunsTo(g, s, x + y, t) <==> exists m :: RunsTo(g, s, x, m) && RunsTo(g, m, y, t)
  {
    if RunsTo(g, s, x + y, t) {
      var r :| RunsBy(g, s, x + y, r, t);
      var r1, m, r2 := RunsCut(g, s, x, y, r, t);
      assert RunsTo(g, s, x, m) && RunsTo(g, m, y, t);
    }
    if m :| RunsTo(g, s, x, m) && RunsTo(g, m, y, t) {
      var r1 :| RunsBy(g, s, x, r1, m);
      var r2 :| RunsBy(g, m, y, r2, t);
      var r := RunsJoin(g, s, x, r1, m, y, r2, t);
    }
  }

  lemma StacksRunConcat(g: Rules, before: seq<Stack>, x: seq<nat>, mid: seq<Stack>, y: seq<nat>, after: seq<Stack>)
    requires StacksRun(g, before, x, mid) && StacksRun(g, mid, y, after)
    ensures StacksRun(g, before, x + y, after)
  {
    forall t ensures t in after <==> exists s :: s in before && RunsTo(g, s, x + y, t) {
      if t in after {
        var m :| m in mid && RunsTo(g, m, y, t);
        var s :| s in before && RunsTo(g, s, x, m);
        RunsConcat(g, s, x, y, t);
        assert s in before && RunsTo(g, s, x + y, t);
      }
      if s :| s in before && RunsTo(g, s, x + y, t) {
        RunsConcat(g, s, x, y, t);
        var m :| RunsTo(g, s, x, m) && RunsTo(g, m, y, t);
        assert m in mid;
      }
    }
  }

  lemma StacksRunNothing(g: Rules, stacks: seq<Stack>)
    ensures StacksRun(g, stacks, [], stacks)
  {
    forall s, t ensures RunsTo(g, s, [], t) <==> s == t {
      if s == t { assert RunsBy(g, s, [], Arrived, t); }
    }
  }

  // llama_grammar_accept_chr
  method AcceptChr(g: Rules, stack: Stack, chr: nat, newStacks: seq<Stack>, ghost used: set<nat>) returns (out: seq<Stack>)
    requires Workable(g, used) && Settled(g, stack) && StaysIn(used, stack)
    ensures forall t :: t in out <==> t in newStacks || Consumes(g, stack, chr, t)
    ensures NoDuplicates(newStacks) ==> NoDuplicates(out)
  {
    out := newStacks;
    if stack == [] { return; }
    SettledTop(g, stack);
    if IsTokenElem(TopElem(g, stack)) { return; }
    var pos := stack[|stack| - 1];
    var ok, next := MatchChar(g[pos.rule], pos.idx, chr);
    if ok {
      assert next == NextIdx(g, pos);
      var newStack := stack[..|stack| - 1];
      if !IsEndOfSequence(g[pos.rule][next]) {
        newStack := newStack + [Pos(pos.rule, next)];
      }
      assert newStack == After(g, stack);
      AfterStaysWithin(g, used, stack);
      out := AdvanceWithin(g, newStack, out, used);
    }
  }

  // The loop of llama_grammar_accept over all stacks.
  method AcceptOnAll(g: Rules, stacks: seq<Stack>, chr: nat, ghost used: set<nat>) returns (out: seq<Stack>)
    requires Workable(g, used) && AllSettled(g, stacks) && AllIn(used, stacks)
    ensures StacksRun(g, stacks, [chr], out) && AllSettled(g, out) && NoDuplicates(out)
  {
    out := [];
    for i := 0 to |stacks|
      invariant forall t :: t in out <==> exists s :: s in stacks[..i] && Consumes(g, s, chr, t)
      invariant NoDuplicates(out)
    {
      assert stacks[..i + 1] == stacks[..i] + [stacks[i]];
      out := AcceptChr(g, stacks[i], chr, out, used);
    }
    assert stacks[..|stacks|] == stacks;
    forall s, t ensures RunsTo(g, s, [chr], t) <==> Consumes(g, s, chr, t) {
      RunsOne(g, s, chr, t);
    }
  }

  lemma RunsOne(g: Rules, s: Stack, c: nat, t: Stack)
    ensures RunsTo(g, s, [c], t) <==> Consumes(g, s, c, t)
  {
    assert [c][1..] == [];
    if Consumes(g, s, c, t) { assert RunsBy(g, s, [c], Via(t, Arrived), t); }
    if RunsTo(g, s, [c], t) {
      var route :| RunsBy(g, s, [c], route, t);
      assert RunsBy(g, route.m, [], route.rest, t);
    }
  }

  method AcceptSequence(g: Rules, stacks: seq<Stack>, cps: seq<nat>, ghost used: set<nat>) returns (out: seq<Stack>)
    requires Workable(g, used) && AllSettled(g, stacks) && AllIn(used, stacks) && NoDuplicates(stacks)
    ensures StacksRun(g, stacks, cps, out) && AllSettled(g, out) && NoDuplicates(out)
  {
    out := stacks;
    StacksRunNothing(g, stacks);
    for i := 0 to |cps|
      invariant StacksRun(g, stacks, cps[..i], out) && AllSettled(g, out) && NoDuplicates(out)
    {
      ghost var mid := out;
      RunStaysWithin(g, used, stacks, cps[..i], mid);
      out := AcceptOnAll(g, out, cps[i], used);
      StacksRunConcat(g, stacks, cps[..i], mid, [cps[i]], out);
      assert cps[..i + 1] == cps[..i] + [cps[i]];
    }
    assert cps[..|cps|] == cps;
  }
}
