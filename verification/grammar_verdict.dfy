/**
 What `llama_grammar_detect_left_recursion` reports, against what the machine does.  The check reports
 the cycles of the references it follows, growing or not; the machine runs for ever exactly on growing
 cycles of left corners.  The references followed are some of the left corners, so a cycle is missed
 only where it passes one that is not followed.
 */
module GrammarVerdict {
  import opened GrammarRules
  import opened GrammarTermination
  import opened GrammarCorners
  import opened GrammarHeights
  import opened LeftRecursion
  import opened RuleGraphs

  ghost predicate FollowsTo(g: Rules, r: nat, x: nat) {
    exists i: nat :: Follows(g, r, i, x)
  }

  // The graph that the search walks.
  ghost function FollowEdges(g: Rules): Edges {
    set r: nat, x: nat | r < |g| && x < |g| && FollowsTo(g, r, x) :: (r, x)
  }

  // ---------- what is followed is a left corner ----------

  lemma EmptyIsNullable(g: Rules)
    ensures EmptyRules(g) <= Nullable(g)
  {
    forall r: nat | r in EmptyRules(g) ensures r in Nullable(g) {
      var a: nat :| a < |g[r]| && IsAltStart(g[r], a) && IsEndOfSequence(g[r][a]);
      assert Parses(g, Syms(g[r][a..]), Done) && Yield(Done) == [];
      AltIsNullable(g, r, a);
    }
  }

  lemma {:induction false} OpenGrows(r: Rule, i: nat, few: set<nat>, many: set<nat>)
    requires i <= |r| && Open(r, i, few) && few <= many
    ensures Open(r, i, many)
    decreases i
  {
    if i > 0 && !IsEndOfSequence(r[i - 1]) {
      OpenGrows(r, i - 1, few, many);
    }
  }

  lemma FollowedIsEdge(g: Rules, r: nat, i: nat, x: nat)
    requires WfRules(g) && Follows(g, r, i, x)
    ensures Corner(g, r, i, x) && (r, x) in FollowEdges(g)
  {
    EmptyIsNullable(g);
    OpenGrows(g[r], i, EmptyRules(g), Nullable(g));
    assert g[r][i].value < |g| && FollowsTo(g, r, x);
  }

  // ---------- the check reports cycles ----------

  lemma FollowedFalls(g: Rules, rank: seq<nat>, r: nat, x: nat)
    requires WfRules(g) && Ranked(g, EmptyRules(g), rank) && (r, x) in FollowEdges(g)
    ensures r < |rank| && x < |rank| && rank[x] < rank[r]
  {
    FollowsIffCorner(g, r, x);
    var a: nat :| IsLeftCorner(g, EmptyRules(g), r, a, x);
  }

  lemma RankHasNoCycle(g: Rules, rank: seq<nat>, r: nat, x: nat)
    requires WfRules(g) && Ranked(g, EmptyRules(g), rank) && (r, x) in FollowEdges(g)
    ensures !Leads(FollowEdges(g), x, r)
  {
    var all := RuleIds(|g|);
    forall y: nat, z: nat ensures FallsAlong(FollowEdges(g), all, rank, y, z) {
      if (y, z) in FollowEdges(g) { FollowedFalls(g, rank, y, z); }
    }
    FollowedFalls(g, rank, r, x);
    if Leads(FollowEdges(g), x, r) {
      var n: nat :| Path(FollowEdges(g), x, r, n);
      PathFalls(FollowEdges(g), all, rank, x, r, n);
    }
  }

  lemma NoCycleIsRanked(g: Rules)
    requires WfRules(g) && !Cyclic(FollowEdges(g))
    ensures Ranked(g, EmptyRules(g), AheadCounts(FollowEdges(g), |g|))
  {
    var rank := AheadCounts(FollowEdges(g), |g|);
    forall r: nat, a: nat, x: nat | IsLeftCorner(g, EmptyRules(g), r, a, x) ensures x < |g| && rank[x] < rank[r] {
      FollowsIffCorner(g, r, x);
      var i: nat :| Follows(g, r, i, x);
      FollowedIsEdge(g, r, i, x);
      AheadShrinks(FollowEdges(g), r, x, |g|);
    }
  }

  // Left recursion is reported exactly if the references that the search follows make a cycle.
  lemma ReportedIffCycle(g: Rules)
    requires WfRules(g)
    ensures PassesCheck(g) <==> !Cyclic(FollowEdges(g))
  {
    if rank :| Ranked(g, EmptyRules(g), rank) {
      forall r: nat, x: nat | (r, x) in FollowEdges(g) ensures !Leads(FollowEdges(g), x, r) {
        RankHasNoCycle(g, rank, r, x);
      }
    }
    if !Cyclic(FollowEdges(g)) {
      NoCycleIsRanked(g);
    }
  }

  // ---------- what the check misses ----------

  /**
   A grammar that passes although the worklist does not end has a growing cycle of left corners that
   passes through a reference from y to z which the search does not follow.
   */
  lemma MissedCycle(g: Rules, used: set<nat>) returns (r: nat, i: nat, x: nat, y: nat, z: nat)
    requires WfRules(g) && ClosedScope(g, used) && PassesCheck(g) && !Ends(g, used)
    ensures r in used && GrowingCycle(g, r, i, x)
    ensures y in used && (y, z) in CornerEdges(g) - FollowEdges(g)
    ensures Leads(CornerEdges(g), r, y) && Leads(CornerEdges(g), z, r)
  {
    EndsIffNoCycle(g, used);
    r, i, x :| r in used && GrowingCycle(g, r, i, x);
    CornerIsEdge(g, r, i, x);
    ReportedIffCycle(g);
    var n: nat :| Path(CornerEdges(g), x, r, n);
    if (r, x) !in FollowEdges(g) {
      y, z := r, x;
      LeadsToItself(CornerEdges(g), r);
    } else {
      y, z := PathLeaves(CornerEdges(g), FollowEdges(g), x, r, n);
      EdgeLeads(CornerEdges(g), r, x);
      LeadsThen(CornerEdges(g), r, x, y);
    }
    CornersStayWithin(g, used);
    var m: nat :| Path(CornerEdges(g), r, y, m);
    PathStays(CornerEdges(g), used, r, y, m);
  }

  // If no such reference lies on a cycle, a clean verdict can be relied on.
  lemma PassingEnds(g: Rules, used: set<nat>)
    requires WfRules(g) && ClosedScope(g, used) && PassesCheck(g)
    requires forall y: nat, z: nat ::
               y in used && (y, z) in CornerEdges(g) - FollowEdges(g) ==> !Leads(CornerEdges(g), z, y)
    ensures Ends(g, used)
  {
    if !Ends(g, used) {
      var r, i, x, y, z := MissedCycle(g, used);
      LeadsThen(CornerEdges(g), z, r, y);
    }
  }
}
