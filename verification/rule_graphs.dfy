/**
 Paths in a finite graph whose nodes are rule ids.  The questions asked about a grammar below are
 questions about such graphs: which rules a rule refers to, which of them it can meet before any
 terminal, and which of those the left-recursion check looks at.
 */
module RuleGraphs {
  type Edges = set<(nat, nat)>

  // A path of n edges from r to x.
  ghost predicate Path(e: Edges, r: nat, x: nat, n: nat)
    decreases n
  {
    if n == 0 then r == x else exists y: nat :: Path(e, r, y, n - 1) && (y, x) in e
  }

  ghost predicate Leads(e: Edges, r: nat, x: nat) {
    exists n: nat :: Path(e, r, x, n)
  }

  // Some edge lies on a cycle.
  ghost predicate Cyclic(e: Edges) {
    exists r: nat, x: nat :: (r, x) in e && Leads(e, x, r)
  }

  lemma LeadsToItself(e: Edges, r: nat)
    ensures Leads(e, r, r)
  {
    assert Path(e, r, r, 0);
  }

  lemma LeadsOn(e: Edges, r: nat, y: nat, x: nat)
    requires Leads(e, r, y) && (y, x) in e
    ensures Leads(e, r, x)
  {
    var n: nat :| Path(e, r, y, n);
    assert Path(e, r, x, n + 1);
  }

  lemma {:induction false} PathThen(e: Edges, r: nat, y: nat, n: nat, x: nat, m: nat)
    requires Path(e, r, y, n) && Path(e, y, x, m)
    ensures Path(e, r, x, n + m)
    decreases m
  {
    if m > 0 {
      var z: nat :| Path(e, y, z, m - 1) && (z, x) in e;
      PathThen(e, r, y, n, z, m - 1);
      assert Path(e, r, z, n + m - 1);
    }
  }

  lemma LeadsThen(e: Edges, r: nat, y: nat, x: nat)
    requires Leads(e, r, y) && Leads(e, y, x)
    ensures Leads(e, r, x)
  {
    var n: nat :| Path(e, r, y, n);
    var m: nat :| Path(e, y, x, m);
    PathThen(e, r, y, n, x, m);
  }

  lemma EdgeLeads(e: Edges, r: nat, x: nat)
    requires (r, x) in e
    ensures Leads(e, r, x)
  {
    LeadsToItself(e, r);
    LeadsOn(e, r, r, x);
  }

  // ---------- what a path keeps ----------

  // Edges from used stay in used.
  ghost predicate Closed(e: Edges, used: set<nat>) {
    forall r: nat, x: nat :: r in used && (r, x) in e ==> x in used
  }

  lemma {:induction false} PathStays(e: Edges, used: set<nat>, r: nat, x: nat, n: nat)
    requires Closed(e, used) && r in used && Path(e, r, x, n)
    ensures x in used
    decreases n
  {
    if n > 0 {
      var y: nat :| Path(e, r, y, n - 1) && (y, x) in e;
      PathStays(e, used, r, y, n - 1);
    }
  }

  // Edges into good come from good.
  ghost predicate ClosedBackwards(e: Edges, good: set<nat>) {
    forall r: nat, x: nat :: (r, x) in e && x in good ==> r in good
  }

  lemma {:induction false} PathComesFrom(e: Edges, good: set<nat>, r: nat, x: nat, n: nat)
    requires ClosedBackwards(e, good) && x in good && Path(e, r, x, n)
    ensures r in good
    decreases n
  {
    if n > 0 {
      var y: nat :| Path(e, r, y, n - 1) && (y, x) in e;
      PathComesFrom(e, good, r, y, n - 1);
    }
  }

  // The edge, if it is one from used, stays in used and does not rise.
  predicate FallsAlong(e: Edges, used: set<nat>, height: seq<nat>, r: nat, x: nat) {
    r in used && (r, x) in e ==> r < |height| && x < |height| && x in used && height[x] <= height[r]
  }

  ghost predicate NeverRises(e: Edges, used: set<nat>, height: seq<nat>) {
    forall r: nat, x: nat :: FallsAlong(e, used, height, r, x)
  }

  lemma {:induction false} PathFalls(e: Edges, used: set<nat>, height: seq<nat>, r: nat, x: nat, n: nat)
    requires NeverRises(e, used, height) && r in used && r < |height| && Path(e, r, x, n)
    ensures x in used && x < |height| && height[x] <= height[r]
    decreases n
  {
    if n > 0 {
      var y: nat :| Path(e, r, y, n - 1) && (y, x) in e;
      PathFalls(e, used, height, r, y, n - 1);
      assert FallsAlong(e, used, height, y, x);
    }
  }

  // A path that is not one in the smaller graph has an edge outside it.
  lemma {:induction false} PathLeaves(e: Edges, sub: Edges, r: nat, x: nat, n: nat) returns (y: nat, z: nat)
    requires Path(e, r, x, n) && !Path(sub, r, x, n)
    ensures (y, z) in e && (y, z) !in sub && Leads(e, r, y) && Leads(e, z, x)
    decreases n
  {
    var p: nat :| Path(e, r, p, n - 1) && (p, x) in e;
    if (p, x) in sub {
      y, z := PathLeaves(e, sub, r, p, n - 1);
      LeadsOn(e, z, p, x);
    } else {
      y, z := p, x;
      LeadsToItself(e, x);
    }
  }

  // The numbers of n rules.
  function RuleIds(n: nat): (ids: set<nat>)
    ensures forall r: nat :: r in ids <==> r < n
  {
    if n == 0 then {} else RuleIds(n - 1) + {n - 1}
  }

  // ---------- counting what lies ahead ----------

  // The nodes below bound to which r leads.
  ghost function Ahead(e: Edges, r: nat, bound: nat): set<nat> {
    set x: nat | x < bound && Leads(e, r, x)
  }

  lemma SubsetIsSmaller(small: set<nat>, big: set<nat>)
    requires small <= big
    ensures |small| <= |big| && (small != big ==> |small| < |big|)
  {
    assert big == small + (big - small);
    if small != big {
      assert |big - small| > 0;
    }
  }

  // Less lies ahead of x than of its predecessor, unless x leads back.
  lemma AheadShrinks(e: Edges, r: nat, x: nat, bound: nat)
    requires (r, x) in e && r < bound
    ensures |Ahead(e, x, bound)| <= |Ahead(e, r, bound)|
    ensures !Leads(e, x, r) ==> |Ahead(e, x, bound)| < |Ahead(e, r, bound)|
  {
    EdgeLeads(e, r, x);
    LeadsToItself(e, r);
    forall y: nat | y in Ahead(e, x, bound) ensures y in Ahead(e, r, bound) {
      LeadsThen(e, r, x, y);
    }
    assert r in Ahead(e, r, bound) && (!Leads(e, x, r) ==> r !in Ahead(e, x, bound));
    SubsetIsSmaller(Ahead(e, x, bound), Ahead(e, r, bound));
  }

  ghost function AheadCounts(e: Edges, bound: nat): (counts: seq<nat>)
    ensures |counts| == bound && forall r :: 0 <= r < bound ==> counts[r] == |Ahead(e, r, bound)|
  {
    seq(bound, (r: int) requires 0 <= r < bound => |Ahead(e, r, bound)|)
  }
}
