/**
 Exactly when the worklist of `llama_grammar_advance_stack` ends.  It does on every stack if and only if
 no left corner with something behind it in its alternate lies on a cycle of left corners, where left
 corners are counted through the rules that derive the empty word.  In between stand heights for the
 rules: they do not rise along left corners and fall wherever something is left on the stack.
 */
module GrammarHeights {
  import opened GrammarRules
  import opened GrammarMachine
  import opened GrammarTermination
  import opened GrammarCorners
  import opened RuleGraphs

  // Height x is allowed for a reference at index i of a rule of height r.
  predicate Below(rule: Rule, i: nat, x: nat, r: nat) {
    x <= r && (i + 1 < |rule| && !IsEndOfSequence(rule[i + 1]) ==> x < r)
  }


  ghost predicate Bounded(g: Rules, used: set<nat>, height: seq<nat>) {
    && |height| == |g|
    && forall r: nat, i: nat, x: nat ::
         r in used && Corner(g, r, i, x) ==> x < |g| && Below(g[r], i, height[x], height[r])
  }

  // ---------- the machine ends: heights ----------

  // From some alternate of rule r the machine reaches a stack of at least n positions.
  ghost predicate Grows(g: Rules, r: nat, n: nat) {
    exists a: nat, t: Stack :: GrowsTo(g, r, a, t) && |t| >= n
  }


  // The size to which the stack grows from rule r.
  ghost predicate HasHeight(g: Rules, r: nat, h: nat) {
    Grows(g, r, h) && !Grows(g, r, h + 1)
  }


  // A stack grown from a left corner grows from the rule too, above what follows the reference.
  lemma CornerGrows(g: Rules, r: nat, i: nat, x: nat, n: nat)
    requires WfRules(g) && Corner(g, r, i, x) && Grows(g, x, n)
    ensures i + 1 < |g[r]| && Grows(g, r, if IsEndOfSequence(g[r][i + 1]) then n else n + 1)
  {
    var b: nat, t: Stack :| GrowsTo(g, x, b, t) && |t| >= n;
    var a, u := GrowsThrough(g, r, i, x, b, t);
  }


  // Stacks grown from alternate a have at most m positions.
  ghost predicate AltBounded(g: Rules, r: nat, a: nat, m: nat) {
    forall t: Stack :: GrowsTo(g, r, a, t) ==> |t| <= m
  }


  lemma {:induction false} GrowthBound(g: Rules, used: set<nat>, r: nat, n: nat) returns (m: nat)
    requires WfRules(g) && Ends(g, used) && r in used && r < |g|
    ensures forall a: nat :: a < n ==> AltBounded(g, r, a, m)
    decreases n
  {
    m := 0;
    if n > 0 {
      var l := GrowthBound(g, used, r, n - 1);
      var k := AltBound(g, used, r, n - 1);
      m := l + k;
      forall a: nat | a < n ensures AltBounded(g, r, a, m) {
        assert AltBounded(g, r, a, if a < n - 1 then l else k);
      }
    }
  }


  lemma AltBound(g: Rules, used: set<nat>, r: nat, a: nat) returns (m: nat)
    requires WfRules(g) && Ends(g, used) && r in used && r < |g|
    ensures AltBounded(g, r, a, m)
  {
    m := 0;
    if IsAltStart(g[r], a) {
      AltStartIsBoundary(g, r, a);
      var s := Push(g, [], Pos(r, a));
      assert EndsOn(g, s);
      var u :| s in u && ClosedUnderExpansion(g, u);
      m := LongestStack(u);
      forall t | GrowsTo(g, r, a, t) ensures |t| <= m {
        var c :| ReachBy(g, s, c, t);
        ClosedContainsReach(g, u, s, c, t);
      }
    }
  }


  lemma {:induction false} LargestGrowth(g: Rules, r: nat, m: nat) returns (h: nat)
    requires Grows(g, r, 0) && !Grows(g, r, m)
    ensures HasHeight(g, r, h)
    decreases m
  {
    if m == 1 || Grows(g, r, m - 1) {
      h := m - 1;
    } else {
      h := LargestGrowth(g, r, m - 1);
    }
  }


  lemma HeightOf(g: Rules, used: set<nat>, r: nat) returns (h: nat)
    requires WfRules(g) && Ends(g, used) && r in used && r < |g|
    ensures HasHeight(g, r, h)
  {
    var m := GrowthBound(g, used, r, |g[r]|);
    AltStartIsBoundary(g, r, 0);
    ReachSelf(g, Push(g, [], Pos(r, 0)));
    assert GrowsTo(g, r, 0, Push(g, [], Pos(r, 0)));
    forall a: nat, t: Stack | GrowsTo(g, r, a, t) ensures |t| <= m {
      assert AltBounded(g, r, a, m);
    }
    h := LargestGrowth(g, r, m + 1);
  }


  ghost predicate HasHeights(g: Rules, used: set<nat>, height: seq<nat>) {
    forall r: nat :: r in used && r < |height| ==> HasHeight(g, r, height[r])
  }


  lemma {:induction false} Heights(g: Rules, used: set<nat>, n: nat) returns (height: seq<nat>)
    requires WfRules(g) && Ends(g, used) && n <= |g|
    ensures |height| == n && HasHeights(g, used, height)
    decreases n
  {
    height := [];
    if n > 0 {
      var rest := Heights(g, used, n - 1);
      var h: nat := 0;
      if n - 1 in used { h := HeightOf(g, used, n - 1); }
      height := rest + [h];
      forall r: nat | r in used && r < n ensures HasHeight(g, r, height[r]) {
        assert r < n - 1 ==> HasHeight(g, r, rest[r]);
      }
    }
  }


  lemma CornerIsBelow(g: Rules, r: nat, i: nat, x: nat, hr: nat, hx: nat)
    requires WfRules(g) && Corner(g, r, i, x) && HasHeight(g, r, hr) && HasHeight(g, x, hx)
    ensures Below(g[r], i, hx, hr)
  {
    CornerGrows(g, r, i, x, hx);
  }


  lemma EndsGivesHeights(g: Rules, used: set<nat>) returns (height: seq<nat>)
    requires WfRules(g) && ClosedScope(g, used) && Ends(g, used)
    ensures Bounded(g, used, height)
  {
    height := Heights(g, used, |g|);
    forall r: nat, i: nat, x: nat | r in used && Corner(g, r, i, x)
      ensures x < |g| && Below(g[r], i, height[x], height[r])
    {
      assert g[r][i].value < |g| && Refers(g, r, i, x);
      assert HasHeight(g, r, height[r]) && HasHeight(g, x, height[x]);
      CornerIsBelow(g, r, i, x, height[r], height[x]);
    }
  }


  // ---------- heights: the machine ends ----------

  // What t[i] rests on is open once everything above it has been cleared, and heights fall upwards.
  ghost predicate Resting(g: Rules, height: seq<nat>, t: Stack, i: nat)
    requires ValidStack(g, t) && i < |t| && |height| == |g|
  {
    Cleared(g, t, i) && (i + 1 < |t| ==> height[t[i + 1].rule] < height[t[i].rule])
  }

  // The positions from index k on were put there by the machine.
  ghost predicate Zone(g: Rules, height: seq<nat>, t: Stack, k: nat) {
    ValidStack(g, t) && |height| == |g| && k <= |t| && forall i: nat :: k <= i < |t| ==> Resting(g, height, t, i)
  }


  lemma {:induction false} ZoneIsShort(g: Rules, height: seq<nat>, t: Stack, k: nat, i: nat)
    requires Zone(g, height, t, k) && k <= i < |t|
    ensures height[t[i].rule] + (i - k) <= height[t[k].rule]
    decreases i
  {
    if i > k {
      ZoneIsShort(g, height, t, k, i - 1);
      assert Resting(g, height, t, i - 1);
    }
  }


  // An expansion keeps the zone, or starts it at the place of the new position.
  lemma ZoneStarts(g: Rules, height: seq<nat>, t: Stack, a: nat) returns (k: nat)
    requires CanExpand(g, t, a) && |height| == |g|
    ensures k <= |t| && Zone(g, height, ExpandTop(g, t, a), k)
  {
    var x, below, rest, top := Expanded(g, t, a);
    k := |below + rest|;
    forall i: nat | k <= i < |ExpandTop(g, t, a)| ensures Resting(g, height, ExpandTop(g, t, a), i) {
      ClearedAtStart(g, t, a, i);
    }
  }

  // The rule that takes a place is no higher than the one before, and lower than the one it is put on.
  lemma ExpansionFalls(g: Rules, used: set<nat>, height: seq<nat>, t: Stack, a: nat, i: nat)
    requires CanExpand(g, t, a) && StaysIn(used, t) && Bounded(g, used, height) && Resting(g, height, t, |t| - 1)
    requires i + 1 < |ExpandTop(g, t, a)| && (i < |t| ==> Resting(g, height, t, i))
    ensures height[ExpandTop(g, t, a)[i + 1].rule] < height[ExpandTop(g, t, a)[i].rule]
  {
    var x, below, rest, top := Expanded(g, t, a);
    TopIsCorner(g, t, x);
    assert Below(g[t[|t| - 1].rule], t[|t| - 1].idx, height[x], height[t[|t| - 1].rule]);
  }

  lemma ZoneStays(g: Rules, used: set<nat>, height: seq<nat>, t: Stack, k: nat, a: nat)
    requires CanExpand(g, t, a) && StaysIn(used, t) && Bounded(g, used, height) && Zone(g, height, t, k) && k < |t|
    ensures Zone(g, height, ExpandTop(g, t, a), k)
  {
    var u := ExpandTop(g, t, a);
    var x, below, rest, top := Expanded(g, t, a);
    assert Resting(g, height, t, |t| - 1);
    forall i: nat | k <= i < |u| ensures Resting(g, height, u, i) {
      assert i < |t| ==> Resting(g, height, t, i);
      ClearedStep(g, t, a, i);
      if i + 1 < |u| { ExpansionFalls(g, used, height, t, a, i); }
    }
  }

  lemma ZoneStep(g: Rules, used: set<nat>, height: seq<nat>, t: Stack, k: nat, a: nat, n: nat) returns (l: nat)
    requires CanExpand(g, t, a) && StaysIn(used, t) && Bounded(g, used, height) && Zone(g, height, t, k) && k <= n
    ensures l <= n && Zone(g, height, ExpandTop(g, t, a), l)
  {
    if k < |t| {
      ZoneStays(g, used, height, t, k, a);
      l := k;
    } else {
      l := ZoneStarts(g, height, t, a);
    }
  }

  // ---------- finitely many stacks ----------

  function Positions(g: Rules): (ps: set<Pos>)
    ensures forall p :: ValidPos(g, p) ==> p in ps
  {
    set r: nat, i: nat | r < |g| && i < MaxLen(g) :: Pos(r, i)
  }


  // All valid stacks of at most n positions.
  ghost function StacksUpTo(g: Rules, n: nat): (u: set<Stack>) {
    if n == 0 then {[]}
    else StacksUpTo(g, n - 1) + set s, p | s in StacksUpTo(g, n - 1) && p in Positions(g) :: s + [p]
  }


  lemma {:induction false} ShortIsListed(g: Rules, n: nat, s: Stack)
    requires ValidStack(g, s) && |s| <= n
    ensures s in StacksUpTo(g, n)
    decreases n
  {
    if |s| == n && n > 0 {
      var below := s[..n - 1];
      ShortIsListed(g, n - 1, below);
      assert s == below + [s[n - 1]] && ValidPos(g, s[n - 1]);
    } else if n > 0 {
      ShortIsListed(g, n - 1, s);
    }
  }


  function MaxOf(xs: seq<nat>): (m: nat)
    ensures forall i :: 0 <= i < |xs| ==> xs[i] <= m
  {
    if xs == [] then 0
    else
      var m := MaxOf(xs[..|xs| - 1]);
      if m < xs[|xs| - 1] then xs[|xs| - 1] else m
  }


  // The stack has a zone that starts within its first n positions.
  ghost predicate Zoned(g: Rules, used: set<nat>, height: seq<nat>, n: nat, t: Stack) {
    StaysIn(used, t) && exists k: nat :: k <= n && Zone(g, height, t, k)
  }

  lemma ZonedIsShort(g: Rules, used: set<nat>, height: seq<nat>, n: nat, t: Stack)
    requires Zoned(g, used, height, n, t)
    ensures ValidStack(g, t) && |t| <= n + MaxOf(height) + 1
  {
    var k: nat :| k <= n && Zone(g, height, t, k);
    if k < |t| {
      ZoneIsShort(g, height, t, k, |t| - 1);
    }
  }

  lemma ZonedStep(g: Rules, used: set<nat>, height: seq<nat>, n: nat, t: Stack, a: nat)
    requires ClosedScope(g, used) && Bounded(g, used, height) && Zoned(g, used, height, n, t) && CanExpand(g, t, a)
    ensures Zoned(g, used, height, n, ExpandTop(g, t, a))
  {
    var k: nat :| k <= n && Zone(g, height, t, k);
    var l := ZoneStep(g, used, height, t, k, a, n);
    ExpandStaysWithin(g, used, t, a);
  }

  lemma HeightsEnd(g: Rules, used: set<nat>, height: seq<nat>, s: Stack)
    requires WfRules(g) && ClosedScope(g, used) && Bounded(g, used, height) && ValidStack(g, s) && StaysIn(used, s)
    ensures EndsOn(g, s)
  {
    var n := |s| + MaxOf(height) + 1;
    var u := set t | t in StacksUpTo(g, n) && Zoned(g, used, height, |s|, t);
    forall t | Zoned(g, used, height, |s|, t) ensures t in u {
      ZonedIsShort(g, used, height, |s|, t);
      ShortIsListed(g, n, t);
    }
    assert Zone(g, height, s, |s|);
    forall t, a: nat | t in u && CanExpand(g, t, a) ensures ExpandTop(g, t, a) in u {
      ZonedStep(g, used, height, |s|, t, a);
    }
    assert s in u && ClosedUnderExpansion(g, u);
  }

  // The worklist of advance_stack ends on every stack exactly if the rules have heights.
  lemma EndsIffBounded(g: Rules, used: set<nat>)
    requires WfRules(g) && ClosedScope(g, used)
    ensures Ends(g, used) <==> exists height :: Bounded(g, used, height)
  {
    if Ends(g, used) {
      var height := EndsGivesHeights(g, used);
    }
    if height :| Bounded(g, used, height) {
      forall s | ValidStack(g, s) && StaysIn(used, s) ensures EndsOn(g, s) {
        HeightsEnd(g, used, height, s);
      }
    }
  }

  // ---------- heights are the absence of growing cycles ----------

  // The reference at index i of rule r leads back to r and leaves something behind on the stack.
  ghost predicate GrowingCycle(g: Rules, r: nat, i: nat, x: nat) {
    Corner(g, r, i, x) && Leads(CornerEdges(g), x, r) && i + 1 < |g[r]| && !IsEndOfSequence(g[r][i + 1])
  }

  ghost predicate NoGrowingCycle(g: Rules, used: set<nat>) {
    forall r: nat, i: nat, x: nat :: r in used ==> !GrowingCycle(g, r, i, x)
  }

  lemma CornerFalls(g: Rules, used: set<nat>, height: seq<nat>, r: nat, x: nat)
    requires WfRules(g) && ClosedScope(g, used) && Bounded(g, used, height)
    ensures FallsAlong(CornerEdges(g), used, height, r, x)
  {
    if r in used && (r, x) in CornerEdges(g) {
      var i: nat :| Corner(g, r, i, x);
      assert Refers(g, r, i, x) && Below(g[r], i, height[x], height[r]);
    }
  }

  lemma BoundedHasNoCycle(g: Rules, used: set<nat>, height: seq<nat>, r: nat, i: nat, x: nat)
    requires WfRules(g) && ClosedScope(g, used) && Bounded(g, used, height) && r in used
    ensures !GrowingCycle(g, r, i, x)
  {
    if GrowingCycle(g, r, i, x) {
      forall y: nat, z: nat ensures FallsAlong(CornerEdges(g), used, height, y, z) {
        CornerFalls(g, used, height, y, z);
      }
      var n: nat :| Path(CornerEdges(g), x, r, n);
      assert Refers(g, r, i, x) && Below(g[r], i, height[x], height[r]);
      PathFalls(CornerEdges(g), used, height, x, r, n);
    }
  }

  // The number of rules ahead of a rule serves as its height.
  lemma NoCycleIsBounded(g: Rules, used: set<nat>)
    requires WfRules(g) && NoGrowingCycle(g, used)
    ensures Bounded(g, used, AheadCounts(CornerEdges(g), |g|))
  {
    var height := AheadCounts(CornerEdges(g), |g|);
    forall r: nat, i: nat, x: nat | r in used && Corner(g, r, i, x)
      ensures x < |g| && Below(g[r], i, height[x], height[r])
    {
      CornerIsEdge(g, r, i, x);
      AheadShrinks(CornerEdges(g), r, x, |g|);
      assert !GrowingCycle(g, r, i, x);
    }
  }

  /**
   The worklist of advance_stack ends on every stack exactly if no rule comes back to itself through left
   corners with something left behind on the stack.
   */
  lemma EndsIffNoCycle(g: Rules, used: set<nat>)
    requires WfRules(g) && ClosedScope(g, used)
    ensures Ends(g, used) <==> NoGrowingCycle(g, used)
  {
    EndsIffBounded(g, used);
    if height :| Bounded(g, used, height) {
      forall r: nat, i: nat, x: nat | r in used ensures !GrowingCycle(g, r, i, x) {
        BoundedHasNoCycle(g, used, height, r, i, x);
      }
    }
    if NoGrowingCycle(g, used) {
      NoCycleIsBounded(g, used);
    }
  }
}
