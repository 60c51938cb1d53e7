/**
 `llama_grammar_detect_left_recursion`: a depth-first search over leftmost references, skipping
 references to rules with a literally empty alternate.  It is shown to be exact for that graph; what
 its verdict is worth for the machine is another matter.
 */
module LeftRecursion {
  import opened GrammarRules
  import opened GrammarTermination

  // One of the alternates is literally empty.
  predicate DirectlyEmpty(r: Rule) {
    exists a: nat :: a < |r| && IsAltStart(r, a) && IsEndOfSequence(r[a])
  }

  function EmptyRules(g: Rules): set<nat> {
    set r: nat | r < |g| && DirectlyEmpty(g[r])
  }

  // Rule r refers to rule x at index i, in a place the search follows.
  predicate Follows(g: Rules, r: nat, i: nat, x: nat) {
    r < |g| && i < |g[r]| && Open(g[r], i, EmptyRules(g)) && g[r][i] == Elem(RuleRef, x)
  }

  // ---------- the followed references are the left corners ----------

  lemma SymsOfRef(r: Rule, i: nat)
    requires i < |r| && r[i].typ.RuleRef?
    ensures Syms(r[i..]) == [Ref(r[i].value)] + Syms(r[i + 1..])
  {
    assert r[i..][1..] == r[i + 1..];
  }

  lemma CornersOfRef(r: Rule, i: nat, nullable: set<nat>)
    requires i < |r| && r[i].typ.RuleRef?
    ensures LeftCorners(Syms(r[i..]), nullable)
         == [r[i].value] + (if r[i].value in nullable then LeftCorners(Syms(r[i + 1..]), nullable) else [])
  {
    SymsOfRef(r, i);
    assert ([Ref(r[i].value)] + Syms(r[i + 1..]))[1..] == Syms(r[i + 1..]);
  }

  lemma NextCorner(g: Rules, r: nat, i: nat, x: nat)
    requires r < |g| && i <= |g[r]| && Open(g[r], i, EmptyRules(g))
    requires x in LeftCorners(Syms(g[r][i..]), EmptyRules(g))
    ensures i < |g[r]| && g[r][i].typ.RuleRef?
    ensures x == g[r][i].value || (Open(g[r], i + 1, EmptyRules(g)) && x in LeftCorners(Syms(g[r][i + 1..]), EmptyRules(g)))
  {
    if i < |g[r]| && g[r][i].typ.RuleRef? {
      CornersOfRef(g[r], i, EmptyRules(g));
    } else {
      NoCorners(g[r], i, EmptyRules(g));
    }
  }

  lemma {:induction false} CornerIsFollowed(g: Rules, r: nat, i: nat, x: nat) returns (j: nat)
    requires r < |g| && i <= |g[r]| && Open(g[r], i, EmptyRules(g))
    requires x in LeftCorners(Syms(g[r][i..]), EmptyRules(g))
    ensures Follows(g, r, j, x)
    decreases |g[r]| - i
  {
    NextCorner(g, r, i, x);
    if x == g[r][i].value {
      j := i;
    } else {
      j := CornerIsFollowed(g, r, i + 1, x);
    }
  }

  lemma NoCorners(r: Rule, i: nat, nullable: set<nat>)
    requires i <= |r| && (i < |r| ==> !r[i].typ.RuleRef?)
    ensures LeftCorners(Syms(r[i..]), nullable) == []
  {}

  lemma {:induction false} FollowedIsCorner(g: Rules, r: nat, i: nat, x: nat) returns (a: nat)
    requires WfRules(g) && r < |g| && i < |g[r]| && Open(g[r], i, EmptyRules(g))
    requires x in LeftCorners(Syms(g[r][i..]), EmptyRules(g))
    ensures IsLeftCorner(g, EmptyRules(g), r, a, x)
    decreases i
  {
    if IsAltStart(g[r], i) {
      a := i;
    } else {
      assert WfRule(g[r]);
      CornersOfRef(g[r], i - 1, EmptyRules(g));
      a := FollowedIsCorner(g, r, i - 1, x);
    }
  }

  // The graph searched is the left-corner graph in which exactly the directly empty rules are nullable.
  lemma FollowsIffCorner(g: Rules, r: nat, x: nat)
    requires WfRules(g)
    ensures (exists i: nat :: Follows(g, r, i, x)) <==> (exists a: nat :: IsLeftCorner(g, EmptyRules(g), r, a, x))
  {
    if i: nat :| Follows(g, r, i, x) {
      CornersOfRef(g[r], i, EmptyRules(g));
      var a := FollowedIsCorner(g, r, i, x);
    }
    if a: nat :| IsLeftCorner(g, EmptyRules(g), r, a, x) {
      OpenAtStart(g, r, a);
      var j := CornerIsFollowed(g, r, a, x);
    }
  }

  lemma OpenAtStart(g: Rules, r: nat, a: nat)
    requires r < |g| && IsAltStart(g[r], a)
    ensures Open(g[r], a, EmptyRules(g))
  {}

  // ---------- the search ----------

  // A rank for the rules of the map, all of whose followed references stay in it.
  ghost predicate PartialRank(g: Rules, rank: map<nat, nat>) {
    forall r, i: nat, x :: r in rank && Follows(g, r, i, x) ==> x in rank && rank[x] < rank[r]
  }

  ghost predicate Extends(rank: map<nat, nat>, more: map<nat, nat>) {
    forall r :: r in rank ==> r in more && more[r] == rank[r]
  }

  lemma {:induction false} RankBound(rank: map<nat, nat>) returns (b: nat)
    ensures forall r :: r in rank ==> rank[r] < b
    decreases |rank|
  {
    if rank == map[] {
      b := 0;
    } else {
      var r :| r in rank;
      var rest := rank - {r};
      b := RankBound(rest);
      b := if b <= rank[r] then rank[r] + 1 else b;
      assert forall s :: s in rank && s != r ==> s in rest && rest[s] == rank[s];
    }
  }

  // The flag vectors of the search.
  class Flags {
    var visited: seq<bool>
    var inProgress: seq<bool>
    var mayBeEmpty: seq<bool>

    constructor (n: nat)
      ensures visited == seq(n, _ => false) && inProgress == seq(n, _ => false) && mayBeEmpty == seq(n, _ => false)
    {
      visited, inProgress, mayBeEmpty := seq(n, _ => false), seq(n, _ => false), seq(n, _ => false);
    }

    // visited rules are ranked, and only directly empty rules are marked.
    ghost predicate Valid(g: Rules, rank: map<nat, nat>)
      reads this
    {
      && |visited| == |inProgress| == |mayBeEmpty| == |g|
      && PartialRank(g, rank)
      && (forall r :: 0 <= r < |g| && visited[r] ==> r in rank)
      && (forall r :: 0 <= r < |g| && mayBeEmpty[r] ==> r in EmptyRules(g))
    }
  }

  // The rules not in progress.
  ghost function Idle(inProgress: seq<bool>): set<nat> {
    set s: nat | s < |inProgress| && !inProgress[s]
  }

  lemma IdleShrinks(inProgress: seq<bool>, r: nat)
    requires r < |inProgress| && !inProgress[r]
    ensures Idle(inProgress[r := true]) < Idle(inProgress)
  {
    assert r in Idle(inProgress) && r !in Idle(inProgress[r := true]);
  }

  // Rule r, all of whose followed references are ranked, gets a rank unless it has one already.
  lemma AddRank(g: Rules, rank: map<nat, nat>, r: nat) returns (more: map<nat, nat>)
    requires PartialRank(g, rank) && forall i: nat, x :: Follows(g, r, i, x) ==> x in rank
    ensures PartialRank(g, more) && Extends(rank, more) && r in more
  {
    more := rank;
    if r !in rank {
      var b := RankBound(rank);
      more := rank[r := b];
    }
  }

  // First step of the search: whether some alternate of the rule is literally empty.
  method HasEmptyAlternate(rule: Rule) returns (empty: bool)
    requires WfRule(rule)
    ensures empty == DirectlyEmpty(rule)
  {
    var atRuleStart := true;
    for i := 0 to |rule|
      invariant atRuleStart <==> i == 0 || IsEndOfSequence(rule[i - 1])
      invariant forall a: nat :: a < i && IsAltStart(rule, a) ==> !IsEndOfSequence(rule[a])
    {
      if IsEndOfSequence(rule[i]) {
        if atRuleStart {
          return true;
        }
        atRuleStart := true;
      } else {
        atRuleStart := false;
      }
    }
    empty := false;
  }

  // No rank exists in which every rule in progress lies above rule r.
  ghost predicate BlocksRanks(g: Rules, inProgress: seq<bool>, r: nat) {
    forall rank :: Ranked(g, EmptyRules(g), rank) && r < |rank| ==>
      exists p :: 0 <= p < |inProgress| && p < |rank| && inProgress[p] && rank[p] <= rank[r]
  }

  lemma BlockedChildBlocks(g: Rules, before: seq<bool>, r: nat, i: nat, x: nat)
    requires WfRules(g) && r < |before| == |g| && Follows(g, r, i, x) && BlocksRanks(g, before[r := true], x)
    ensures BlocksRanks(g, before, r)
  {
    FollowsIffCorner(g, r, x);
    var a: nat :| IsLeftCorner(g, EmptyRules(g), r, a, x);
    forall rank | Ranked(g, EmptyRules(g), rank) && r < |rank|
      ensures exists p :: 0 <= p < |before| && p < |rank| && before[p] && rank[p] <= rank[r]
    {
      assert x < |g| && rank[x] < rank[r];
      var p :| 0 <= p < |before| && p < |rank| && before[r := true][p] && rank[p] <= rank[x];
    }
  }

  // The flags that were set still are.
  predicate Keeps(flags: seq<bool>, later: seq<bool>) {
    |flags| == |later| && forall s :: 0 <= s < |flags| && flags[s] ==> later[s]
  }

  // What rule r refers to below index n is ranked, where the search follows it.
  ghost predicate RankedBelow(g: Rules, r: nat, n: nat, rank: map<nat, nat>) {
    forall i: nat, x :: i < n && Follows(g, r, i, x) ==> x in rank
  }

  lemma RankedBelowNext(g: Rules, r: nat, n: nat, rank: map<nat, nat>, more: map<nat, nat>)
    requires RankedBelow(g, r, n, rank) && Extends(rank, more) && forall x :: Follows(g, r, n, x) ==> x in more
    ensures RankedBelow(g, r, n + 1, more)
  {}

  lemma OpenNext(g: Rules, r: nat, i: nat)
    requires r < |g| && i < |g[r]|
    ensures Open(g[r], i + 1, EmptyRules(g))
        <==> IsEndOfSequence(g[r][i])
             || (g[r][i].typ.RuleRef? && Open(g[r], i, EmptyRules(g)) && g[r][i].value in EmptyRules(g))
  {}

  /**
   llama_grammar_detect_left_recursion.  A negative answer extends the rank to rule r and all it
   reaches; a positive one rules out every rank in which the rules in progress lie above r.
   */
  method Detect(g: Rules, r: nat, flags: Flags, ghost rank: map<nat, nat>) returns (found: bool, ghost more: map<nat, nat>)
    requires WfRules(g) && r < |g| && flags.Valid(g, rank)
    modifies flags
    ensures flags.Valid(g, more) && Extends(rank, more)
    ensures !found ==> r in more && flags.inProgress == old(flags.inProgress)
    ensures !found ==> (flags.mayBeEmpty[r] <==> r in EmptyRules(g))
    ensures !found ==> flags.visited[r] && Keeps(old(flags.visited), flags.visited)
    ensures Keeps(old(flags.mayBeEmpty), flags.mayBeEmpty)
    ensures found ==> BlocksRanks(g, old(flags.inProgress), r)
    decreases Idle(flags.inProgress)
  {
    more := rank;
    ghost var before := flags.inProgress;
    if flags.inProgress[r] {
      found := true;
      return;
    }
    flags.inProgress := flags.inProgress[r := true];
    var rule := g[r];
    var empty := HasEmptyAlternate(rule);
    if empty {
      flags.mayBeEmpty := flags.mayBeEmpty[r := true];
    }
    var recurse := true;
    ghost var nullable := EmptyRules(g);
    for i := 0 to |rule|
      invariant flags.Valid(g, more) && Extends(rank, more)
      invariant flags.inProgress == before[r := true]
      invariant recurse == Open(rule, i, nullable)
      invariant RankedBelow(g, r, i, more)
      invariant r in nullable ==> flags.mayBeEmpty[r]
      invariant Keeps(old(flags.visited), flags.visited)
      invariant Keeps(old(flags.mayBeEmpty), flags.mayBeEmpty)
    {
      ghost var ranked := more;
      OpenNext(g, r, i);
      if rule[i].typ.RuleRef? && recurse {
        var x := rule[i].value;
        assert Follows(g, r, i, x) && x < |g|;
        IdleShrinks(before, r);
        found, more := Detect(g, x, flags, more);
        if found {
          BlockedChildBlocks(g, before, r, i, x);
          return;
        }
        if !flags.mayBeEmpty[x] {
          recurse := false;
        }
      } else if IsEndOfSequence(rule[i]) {
        recurse := true;
      } else {
        recurse := false;
      }
      RankedBelowNext(g, r, i, ranked, more);
    }
    flags.inProgress := flags.inProgress[r := false];
    assert flags.inProgress == before;
    more := AddRank(g, more, r);
    flags.visited := flags.visited[r := true];
    found := false;
  }

  /**
   The check over all rules in llama_grammar_init_impl: it reports left recursion exactly if the
   left-corner graph, with the directly empty rules as the nullable ones, admits no rank.
   */
  method DetectAll(g: Rules) returns (found: bool)
    requires WfRules(g)
    ensures found <==> !PassesCheck(g)
  {
    var flags := new Flags(|g|);
    ghost var rank: map<nat, nat> := map[];
    for i := 0 to |g|
      invariant fresh(flags) && flags.Valid(g, rank)
      invariant flags.inProgress == seq(|g|, _ => false)
      invariant forall s :: 0 <= s < i ==> flags.visited[s]
    {
      if !flags.visited[i] {
        ghost var idle := flags.inProgress;
        found, rank := Detect(g, i, flags, rank);
        if found {
          BlockedFromIdle(g, idle, i);
          return;
        }
      }
    }
    found := false;
    assert Ranked(g, EmptyRules(g), seq(|g|, (r: int) requires 0 <= r < |g| => rank[r])) by {
      RankOfMap(g, rank);
    }
  }

  lemma BlockedFromIdle(g: Rules, idle: seq<bool>, r: nat)
    requires r < |g| && BlocksRanks(g, idle, r) && forall p :: 0 <= p < |idle| ==> !idle[p]
    ensures !exists rank :: Ranked(g, EmptyRules(g), rank)
  {
    forall rank ensures !Ranked(g, EmptyRules(g), rank) {}
  }

  lemma RankOfMap(g: Rules, rank: map<nat, nat>)
    requires WfRules(g) && PartialRank(g, rank) && forall r: nat :: r < |g| ==> r in rank
    ensures Ranked(g, EmptyRules(g), seq(|g|, (r: int) requires 0 <= r < |g| => rank[r]))
  {
    var ranks := seq(|g|, (r: int) requires 0 <= r < |g| => rank[r]);
    forall r: nat, a: nat, x: nat | IsLeftCorner(g, EmptyRules(g), r, a, x) ensures x < |g| && ranks[x] < ranks[r] {
      FollowsIffCorner(g, r, x);
      var i: nat :| Follows(g, r, i, x);
      assert g[r][i].value < |g|;
    }
  }

  // ---------- what the verdict is worth ----------

  // The check over all rules reports nothing.
  ghost predicate PassesCheck(g: Rules) {
    exists rank :: Ranked(g, EmptyRules(g), rank)
  }

  // If the directly empty rules are all the nullable ones, a negative verdict makes the machine terminate.
  lemma VerdictTransfers(g: Rules, used: set<nat>)
    requires WfRules(g) && NullableClosed(g, EmptyRules(g)) && PassesCheck(g) && ClosedScope(g, used)
    ensures Workable(g, used)
  {
    assert Rankable(g);
    RankableIsWorkable(g, used);
  }
}
