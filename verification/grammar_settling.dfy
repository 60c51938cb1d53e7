/**
 Exactly when `llama_grammar_advance_stack` ends with a stack, that is, when the grammar object has
 anything to go on with.  A rule gets to such a stack if it derives the empty word or if left corners
 lead from it to a rule with a terminal that can stand first.  With the absence of growing cycles this
 decides, from the rules alone, which grammars the engine can run.
 */
module GrammarSettling {
  import opened GrammarRules
  import opened GrammarMachine
  import opened GrammarTermination
  import opened GrammarCorners
  import opened GrammarHeights
  import opened RuleGraphs

  // A terminal starts at index i of rule x, in a place the machine reaches before any other.
  ghost predicate OpenTerminal(g: Rules, x: nat, i: nat) {
    OpenAt(g, x, i) && i < |g[x]| && (IsClassStart(g[x][i]) || IsTokenElem(g[x][i]))
  }

  // Rule r derives the empty word, or left corners lead from it to a terminal.
  ghost predicate CanRest(g: Rules, r: nat) {
    r in Nullable(g) || exists x: nat, i: nat :: Leads(CornerEdges(g), r, x) && OpenTerminal(g, x, i)
  }

  ghost predicate AllRest(g: Rules, used: set<nat>) {
    forall r: nat :: r in used ==> CanRest(g, r)
  }

  // ---------- from single alternates to stacks ----------

  // From some alternate of rule r the machine gets to a stack it can rest on.
  ghost predicate RuleSettles(g: Rules, r: nat) {
    exists a: nat :: SettlesFrom(g, r, a)
  }

  ghost predicate SettlesFrom(g: Rules, r: nat, a: nat) {
    r < |g| && IsAltStart(g[r], a) && IsBoundary(g, Pos(r, a)) && SettlesOn(g, Push(g, [], Pos(r, a)))
  }

  ghost predicate AllRulesSettle(g: Rules, used: set<nat>) {
    forall r: nat :: r in used ==> RuleSettles(g, r)
  }

  lemma ExpandsOverAfter(g: Rules, s: Stack, a: nat)
    requires CanExpand(g, s, a) && IsBoundary(g, Pos(TopElem(g, s).value, a))
    ensures ExpandsOver(g, s, a, After(g, s), TopElem(g, s).value)
  {
    assert After(g, s) + [] == After(g, s);
  }


  lemma SettlesViaRule(g: Rules, s: Stack) returns (t: Stack)
    requires WfRules(g) && ValidStack(g, s) && s != [] && TopElem(g, s).typ.RuleRef? && RuleSettles(g, TopElem(g, s).value)
    ensures Settled(g, t) && Reach(g, s, After(g, s) + t) && (t != [] ==> Settled(g, After(g, s) + t))
  {
    var x := TopElem(g, s).value;
    var a: nat :| SettlesFrom(g, x, a);
    t :| Advances(g, Push(g, [], Pos(x, a)), t);
    ExpandsOverAfter(g, s, a);
    GrowOver(g, s, a, After(g, s), x, t);
    if t != [] { SettledAbove(g, After(g, s), t); }
  }


  lemma FormShrinks(g: Rules, s: Stack)
    requires WfRules(g) && ValidStack(g, s) && s != []
    ensures |Form(g, After(g, s))| < |Form(g, s)|
  {
    FormSplitsTop(g, s);
  }


  lemma {:induction false} RulesSettle(g: Rules, used: set<nat>, s: Stack) returns (t: Stack)
    requires ClosedScope(g, used) && AllRulesSettle(g, used)
    requires WfRules(g) && ValidStack(g, s) && StaysIn(used, s)
    ensures Advances(g, s, t)
    decreases |Form(g, s)|
  {
    if Settled(g, s) {
      t := s;
      ReachSelf(g, s);
    } else {
      var rest := After(g, s);
      FormShrinks(g, s);
      AfterStaysWithin(g, used, s);
      assert Refers(g, s[|s| - 1].rule, s[|s| - 1].idx, TopElem(g, s).value);
      var u := SettlesViaRule(g, s);
      if u == [] {
        assert rest + u == rest;
        t := RulesSettle(g, used, rest);
        ReachThen(g, s, rest, t);
      } else {
        t := rest + u;
      }
    }
  }


  // advance_stack finds a stack everywhere if it does from one alternate of each rule.
  lemma SettlesByRule(g: Rules, used: set<nat>)
    requires WfRules(g) && ClosedScope(g, used)
    ensures Settles(g, used) <==> AllRulesSettle(g, used)
  {
    if Settles(g, used) {
      forall r: nat | r in used ensures RuleSettles(g, r) {
        AltStartIsBoundary(g, r, 0);
        assert SettlesOn(g, Push(g, [], Pos(r, 0)));
        assert SettlesFrom(g, r, 0);
      }
    }
    if AllRulesSettle(g, used) {
      forall s | ValidStack(g, s) && StaysIn(used, s) ensures SettlesOn(g, s) {
        var t := RulesSettle(g, used, s);
      }
    }
  }


  // ---------- what the machine rests on was led to ----------

  // The rules of the stack are led to from r, and each position is open once what is above it is cleared.
  ghost predicate LedFrom(g: Rules, r: nat, t: Stack) {
    ValidStack(g, t) && forall i: nat :: i < |t| ==> LedAt(g, r, t, i)
  }

  ghost predicate LedAt(g: Rules, r: nat, t: Stack, i: nat)
    requires ValidStack(g, t) && i < |t|
  {
    Leads(CornerEdges(g), r, t[i].rule) && Cleared(g, t, i)
  }

  lemma TopLeadsOn(g: Rules, r: nat, t: Stack, x: nat)
    requires WfRules(g) && LedFrom(g, r, t) && t != [] && TopElem(g, t) == Elem(RuleRef, x)
    ensures Leads(CornerEdges(g), r, x)
  {
    assert LedAt(g, r, t, |t| - 1);
    TopIsCorner(g, t, x);
    CornerIsEdge(g, t[|t| - 1].rule, t[|t| - 1].idx, x);
    LeadsOn(CornerEdges(g), r, t[|t| - 1].rule, x);
  }

  lemma LedStep(g: Rules, r: nat, t: Stack, a: nat)
    requires CanExpand(g, t, a) && LedFrom(g, r, t)
    ensures LedFrom(g, r, ExpandTop(g, t, a))
  {
    var x, below, rest, top := Expanded(g, t, a);
    TopLeadsOn(g, r, t, x);
    forall i: nat | i < |ExpandTop(g, t, a)| ensures LedAt(g, r, ExpandTop(g, t, a), i) {
      assert LedAt(g, r, t, |t| - 1) && (i < |t| ==> LedAt(g, r, t, i));
      ClearedStep(g, t, a, i);
    }
  }

  lemma {:induction false} ReachIsLed(g: Rules, r: nat, s: Stack, c: Trail, t: Stack)
    requires LedFrom(g, r, s) && ReachBy(g, s, c, t)
    ensures LedFrom(g, r, t)
    decreases c
  {
    match c
    case Here =>
    case Choose(a, rest) =>
      LedStep(g, r, s, a);
      ReachIsLed(g, r, ExpandTop(g, s, a), rest, t);
  }

  lemma StartIsLed(g: Rules, r: nat, a: nat)
    requires r < |g| && IsAltStart(g[r], a) && IsBoundary(g, Pos(r, a))
    ensures LedFrom(g, r, Push(g, [], Pos(r, a)))
  {
    LeadsToItself(CornerEdges(g), r);
    AltStartIsOpen(g, r, a);
  }

  // Nothing left on the stack: the rule has derived the empty word.
  lemma EmptiedIsNullable(g: Rules, r: nat, a: nat)
    requires SettlesFrom(g, r, a) && Reach(g, Push(g, [], Pos(r, a)), [])
    ensures r in Nullable(g)
  {
    var c :| ReachBy(g, Push(g, [], Pos(r, a)), c, []);
    EmptyFormIsNullable(g, []);
    ReachSound(g, Push(g, [], Pos(r, a)), c, [], []);
    ClearedIsNullable(g, r, a);
  }

  lemma SettlesMeansRest(g: Rules, r: nat, a: nat)
    requires WfRules(g) && SettlesFrom(g, r, a)
    ensures CanRest(g, r)
  {
    var s := Push(g, [], Pos(r, a));
    var t: Stack :| Advances(g, s, t);
    if t == [] {
      EmptiedIsNullable(g, r, a);
    } else {
      var c :| ReachBy(g, s, c, t);
      StartIsLed(g, r, a);
      ReachIsLed(g, r, s, c, t);
      assert LedAt(g, r, t, |t| - 1) && t[|t|..] == [];
      EmptyFormIsNullable(g, t[|t|..]);
      assert OpenTerminal(g, t[|t| - 1].rule, t[|t| - 1].idx);
    }
  }

  // ---------- what is led to the machine can rest on ----------

  // From some alternate of r the machine gets to a stack with a terminal on top.
  ghost predicate Rests(g: Rules, r: nat) {
    exists a: nat, t: Stack :: GrowsTo(g, r, a, t) && t != [] && Settled(g, t)
  }

  lemma TerminalRests(g: Rules, x: nat, i: nat)
    requires WfRules(g) && OpenTerminal(g, x, i)
    ensures Rests(g, x)
  {
    var a := ReachOpen(g, x, i);
    assert WfRule(g[x]) && Settled(g, [Pos(x, i)]);
  }

  lemma CornerRests(g: Rules, r: nat, x: nat)
    requires WfRules(g) && (r, x) in CornerEdges(g) && Rests(g, x)
    ensures Rests(g, r)
  {
    var i: nat :| Corner(g, r, i, x);
    var b: nat, t: Stack :| GrowsTo(g, x, b, t) && t != [] && Settled(g, t);
    var a, u := GrowsThrough(g, r, i, x, b, t);
  }

  lemma LeaderRests(g: Rules, r: nat, x: nat)
    requires WfRules(g) && Leads(CornerEdges(g), r, x) && Rests(g, x)
    ensures Rests(g, r)
  {
    var good := set y: nat | y < |g| && Rests(g, y);
    forall y: nat, z: nat | (y, z) in CornerEdges(g) && z in good ensures y in good {
      CornerRests(g, y, z);
    }
    var n: nat :| Path(CornerEdges(g), r, x, n);
    PathComesFrom(CornerEdges(g), good, r, x, n);
  }

  lemma NullableSettles(g: Rules, r: nat)
    requires WfRules(g) && r in Nullable(g)
    ensures RuleSettles(g, r)
  {
    var d :| Parses(g, [Ref(r)], d) && Yield(d) == [];
    AltStartIsBoundary(g, r, d.alt);
    Erase(g, [], Pos(r, d.alt), d.inner);
    assert Advances(g, Push(g, [], Pos(r, d.alt)), []);
    assert SettlesFrom(g, r, d.alt);
  }

  lemma RestSettles(g: Rules, r: nat)
    requires WfRules(g) && CanRest(g, r)
    ensures RuleSettles(g, r)
  {
    if r in Nullable(g) {
      NullableSettles(g, r);
    } else {
      var x: nat, i: nat :| Leads(CornerEdges(g), r, x) && OpenTerminal(g, x, i);
      TerminalRests(g, x, i);
      LeaderRests(g, r, x);
      var a: nat, t: Stack :| GrowsTo(g, r, a, t) && t != [] && Settled(g, t);
      assert Advances(g, Push(g, [], Pos(r, a)), t);
      assert SettlesFrom(g, r, a);
    }
  }

  // ---------- the conditions on the rules ----------

  /**
   advance_stack finds a stack everywhere exactly if every rule derives the empty word or leads through
   left corners to a terminal that can stand first.
   */
  lemma SettlesIffRest(g: Rules, used: set<nat>)
    requires WfRules(g) && ClosedScope(g, used)
    ensures Settles(g, used) <==> AllRest(g, used)
  {
    SettlesByRule(g, used);
    if AllRulesSettle(g, used) {
      forall r: nat | r in used ensures CanRest(g, r) {
        var a: nat :| SettlesFrom(g, r, a);
        SettlesMeansRest(g, r, a);
      }
    }
    if AllRest(g, used) {
      forall r: nat | r in used ensures RuleSettles(g, r) {
        RestSettles(g, r);
      }
    }
  }

  /**
   The rules on which advance_stack always ends with a stack: exactly those without a growing cycle of left
   corners in which every rule derives the empty word or leads to a terminal.
   */
  lemma WorkableIff(g: Rules, used: set<nat>)
    requires WfRules(g) && ClosedScope(g, used)
    ensures Workable(g, used) <==> NoGrowingCycle(g, used) && AllRest(g, used)
  {
    EndsIffNoCycle(g, used);
    SettlesIffRest(g, used);
  }

  // ---------- the rules that the start rule uses ----------

  ghost predicate RefersTo(g: Rules, r: nat, x: nat) {
    exists i: nat :: Refers(g, r, i, x)
  }

  ghost function ReferenceEdges(g: Rules): Edges {
    set r: nat, x: nat | r < |g| && x < |g| && RefersTo(g, r, x) :: (r, x)
  }

  // The rules that start refers to, directly or through others.
  ghost function UsedBy(g: Rules, start: nat): set<nat> {
    Ahead(ReferenceEdges(g), start, |g|)
  }

  lemma UsedIsClosed(g: Rules, start: nat)
    requires WfRules(g) && start < |g|
    ensures start in UsedBy(g, start) && ClosedScope(g, UsedBy(g, start))
  {
    LeadsToItself(ReferenceEdges(g), start);
    forall r: nat, i: nat, x: nat | r in UsedBy(g, start) && Refers(g, r, i, x) ensures x in UsedBy(g, start) {
      assert g[r][i].value < |g| && RefersTo(g, r, x);
      LeadsOn(ReferenceEdges(g), start, r, x);
    }
  }

  lemma UsedIsLeast(g: Rules, start: nat, used: set<nat>)
    requires ClosedScope(g, used) && start in used
    ensures UsedBy(g, start) <= used
  {
    forall r: nat, x: nat | r in used && (r, x) in ReferenceEdges(g) ensures x in used {
      var i: nat :| Refers(g, r, i, x);
    }
    forall x: nat | x in UsedBy(g, start) ensures x in used {
      var n: nat :| Path(ReferenceEdges(g), start, x, n);
      PathStays(ReferenceEdges(g), used, start, x, n);
    }
  }

  // The precondition of the grammar object, decided on the rules its start rule uses.
  lemma WorksFromIff(g: Rules, start: nat)
    requires WfRules(g) && start < |g|
    ensures WorksFrom(g, start) <==> NoGrowingCycle(g, UsedBy(g, start)) && AllRest(g, UsedBy(g, start))
  {
    var own := UsedBy(g, start);
    UsedIsClosed(g, start);
    WorkableIff(g, own);
    if used :| start in used && Workable(g, used) {
      UsedIsLeast(g, start, used);
      WorkableIff(g, used);
    }
  }
}
