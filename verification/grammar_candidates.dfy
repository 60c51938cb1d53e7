/**
 The masking side of the grammar engine: `llama_grammar_reject_candidates` decides which token pieces
 the stacks allow, without moving the stacks.  The committing side is `RunsTo`; the two are compared
 at the end.
 */
module GrammarCandidates {
  import opened GrammarRules
  import opened GrammarMachine
  import opened GrammarTermination
  import opened GrammarState
  import opened CharClass
  import opened Utf8

  // codePoints ends in a terminating 0; off is the position of the source's pointer into it.
  datatype Candidate = Candidate(index: nat, codePoints: seq<nat>, off: nat, partial: Partial, id: nat)

  predicate WfCandidate(c: Candidate) {
    c.off < |c.codePoints| && c.codePoints[|c.codePoints| - 1] == 0 && IsPartial(c.partial)
  }

  predicate WfCandidates(cs: seq<Candidate>) {
    forall c :: c in cs ==> WfCandidate(c)
  }

  // The code points read from a position: up to the first 0.
  function UpToZero(cps: seq<nat>): (r: seq<nat>)
    ensures |r| <= |cps| && r == cps[..|r|] && 0 !in r
    ensures |r| < |cps| ==> cps[|r|] == 0
  {
    if cps == [] || cps[0] == 0 then [] else [cps[0]] + UpToZero(cps[1..])
  }

  function Payload(c: Candidate): seq<nat>
    requires WfCandidate(c)
  {
    UpToZero(c.codePoints[c.off..])
  }

  // llama_grammar_match_token
  predicate MatchToken(e: Elem, id: nat)
    requires IsTokenElem(e)
  {
    if e.typ.Token? then e.value == id else e.value != id
  }

  // The stack allows a piece with these code points, these pending bytes and this token id.
  ghost predicate Keeps(g: Rules, s: Stack, cps: seq<nat>, p: Partial, id: nat)
    decreases |cps|
  {
    && WfRules(g) && Settled(g, s) && IsPartial(p)
    && if s == [] then cps == [] && p.nRemain == 0
       else if IsTokenElem(TopElem(g, s)) then (if cps == [] then p.nRemain == 0 else MatchToken(TopElem(g, s), id))
       else if cps == [] then TopSym(g, s).Class? && (p.nRemain == 0 || PartialOk(TopSym(g, s), p))
       else exists t :: Consumes(g, s, cps[0], t) && Keeps(g, t, cps[1..], p, id)
  }

  ghost predicate KeepsCandidate(g: Rules, s: Stack, c: Candidate)
    requires WfCandidate(c)
  {
    Keeps(g, s, Payload(c), c.partial, c.id)
  }

  ghost predicate SomeKeeps(g: Rules, stacks: seq<Stack>, c: Candidate)
    requires WfCandidate(c)
  {
    exists s :: s in stacks && KeepsCandidate(g, s, c)
  }

  // The candidate with its pointer moved past one code point, and back.
  function Forward(c: Candidate): Candidate {
    c.(off := c.off + 1)
  }

  function Backward(c: Candidate): Candidate {
    if c.off == 0 then c else c.(off := c.off - 1)
  }

  lemma PayloadForward(c: Candidate)
    requires WfCandidate(c) && c.codePoints[c.off] != 0
    ensures WfCandidate(Forward(c)) && Payload(c) == [c.codePoints[c.off]] + Payload(Forward(c))
  {
    assert c.codePoints[c.off..][1..] == c.codePoints[c.off + 1..];
  }

  lemma PayloadEmpty(c: Candidate)
    requires WfCandidate(c)
    ensures Payload(c) == [] <==> c.codePoints[c.off] == 0
  {}

  // Every candidate has at most bound code points left, counting the terminator.
  predicate Within(cs: seq<Candidate>, bound: nat) {
    forall c :: c in cs ==> |c.codePoints| - c.off <= bound
  }

  // The candidate matches the class on top of s with its next code point.
  ghost predicate Moves(g: Rules, s: Stack, c: Candidate)
    requires Settled(g, s) && s != [] && WfCandidate(c)
  {
    c.codePoints[c.off] != 0 && Accepts(TopSym(g, s), c.codePoints[c.off])
  }

  // A candidate that moves is kept exactly if some stack reached after the move keeps the rest.
  lemma KeepsMoved(g: Rules, s: Stack, c: Candidate, next: seq<Stack>)
    requires WfRules(g) && Settled(g, s) && s != [] && !IsTokenElem(TopElem(g, s))
    requires WfCandidate(c) && Moves(g, s, c) && WfCandidate(Forward(c))
    requires forall t :: t in next <==> Advances(g, After(g, s), t)
    ensures KeepsCandidate(g, s, c) <==> SomeKeeps(g, next, Forward(c))
  {
    PayloadForward(c);
    var cps := Payload(c);
    assert cps[1..] == Payload(Forward(c)) && cps[0] == c.codePoints[c.off];
    assert forall t :: Consumes(g, s, cps[0], t) <==> t in next;
    if KeepsCandidate(g, s, c) {
      var t :| Consumes(g, s, cps[0], t) && Keeps(g, t, cps[1..], c.partial, c.id);
      assert t in next && KeepsCandidate(g, t, Forward(c));
    }
  }

  // A candidate that cannot move and is not at its end is turned away.
  lemma KeepsStuck(g: Rules, s: Stack, c: Candidate)
    requires WfRules(g) && Settled(g, s) && s != [] && !IsTokenElem(TopElem(g, s))
    requires WfCandidate(c) && c.codePoints[c.off] != 0 && !Moves(g, s, c)
    ensures !KeepsCandidate(g, s, c)
  {
    PayloadForward(c);
  }

  // The class on top of s turns the candidate away at once.
  ghost predicate FailsOnTop(g: Rules, s: Stack, c: Candidate) {
    WfCandidate(c) && Settled(g, s) && s != [] && !Moves(g, s, c) && !KeepsCandidate(g, s, c)
  }

  // c is a candidate from before that has moved past the class on top of s.
  ghost predicate MovedFrom(g: Rules, s: Stack, before: seq<Candidate>, c: Candidate) {
    && c.off > 0 && Backward(c) in before
    && Settled(g, s) && s != [] && WfCandidate(Backward(c)) && Moves(g, s, Backward(c))
  }

  lemma MovedFromOne(g: Rules, s: Stack, tok: Candidate, c: Candidate)
    requires Settled(g, s) && s != [] && WfCandidate(tok)
    ensures MovedFrom(g, s, [tok], c) <==> Moves(g, s, tok) && c == Forward(tok)
  {}

  // One candidate against the class on top of the stack: it moves on, or is judged at once.
  method JudgeByTop(g: Rules, stack: Stack, tok: Candidate) returns (moves: bool, reject: bool)
    requires WfRules(g) && Settled(g, stack) && stack != [] && !IsTokenElem(TopElem(g, stack)) && WfCandidate(tok)
    ensures moves == Moves(g, stack, tok)
    ensures reject == FailsOnTop(g, stack, tok)
  {
    var pos := stack[|stack| - 1];
    SettledTop(g, stack);
    PayloadEmpty(tok);
    if tok.codePoints[tok.off] == 0 {
      moves := false;
      var ok := true;
      if tok.partial.nRemain != 0 {
        ok := MatchPartialChar(g[pos.rule], pos.idx, tok.partial);
      }
      reject := !ok;
    } else {
      var after;
      moves, after := MatchChar(g[pos.rule], pos.idx, tok.codePoints[tok.off]);
      if !moves { KeepsStuck(g, stack, tok); }
      reject := !moves;
    }
  }

  // rejects and next are the outcome of the first pass over the candidates in past.
  ghost predicate Filtered(g: Rules, s: Stack, past: seq<Candidate>, rejects: seq<Candidate>, next: seq<Candidate>) {
    && (forall c :: c in rejects <==> c in past && FailsOnTop(g, s, c))
    && (forall c :: c in next <==> MovedFrom(g, s, past, c))
  }

  method FilterOne(g: Rules, stack: Stack, tok: Candidate, ghost past: seq<Candidate>,
                   rejects: seq<Candidate>, next: seq<Candidate>)
    returns (rejects': seq<Candidate>, next': seq<Candidate>)
    requires WfRules(g) && Settled(g, stack) && stack != [] && !IsTokenElem(TopElem(g, stack))
    requires WfCandidate(tok) && Filtered(g, stack, past, rejects, next)
    ensures Filtered(g, stack, past + [tok], rejects', next')
  {
    var moves, reject := JudgeByTop(g, stack, tok);
    next' := if moves then next + [Forward(tok)] else next;
    rejects' := if reject then rejects + [tok] else rejects;
    forall c ensures MovedFrom(g, stack, past + [tok], c)
                     <==> MovedFrom(g, stack, past, c) || (moves && c == Forward(tok)) {
      MovedFromOne(g, stack, tok, c);
    }
  }

  // First pass of llama_grammar_reject_candidates_for_stack: turn away what fails on the top of the
  // stack, collect what moves on.
  method FilterByTop(g: Rules, stack: Stack, candidates: seq<Candidate>)
    returns (rejects: seq<Candidate>, next: seq<Candidate>)
    requires WfRules(g) && Settled(g, stack) && stack != [] && !IsTokenElem(TopElem(g, stack))
    requires WfCandidates(candidates)
    ensures Filtered(g, stack, candidates, rejects, next) && WfCandidates(next)
  {
    rejects, next := [], [];
    for i := 0 to |candidates|
      invariant Filtered(g, stack, candidates[..i], rejects, next)
    {
      rejects, next := FilterOne(g, stack, candidates[i], candidates[..i], rejects, next);
      assert candidates[..i + 1] == candidates[..i] + [candidates[i]];
    }
    assert candidates[..|candidates|] == candidates;
    forall c | c in next ensures WfCandidate(c) {
      PayloadForward(Backward(c));
    }
  }

  // llama_grammar_reject_candidates_for_stack: exactly the candidates that the stack does not allow.
  method RejectCandidatesForStack(g: Rules, stack: Stack, candidates: seq<Candidate>, ghost bound: nat, ghost used: set<nat>)
    returns (rejects: seq<Candidate>)
    requires Workable(g, used) && Settled(g, stack) && StaysIn(used, stack) && WfCandidates(candidates) && Within(candidates, bound)
    requires bound > 0
    ensures forall c :: c in rejects <==> c in candidates && !KeepsCandidate(g, stack, c)
    decreases bound, 1
  {
    rejects := [];
    if stack == [] || IsTokenElem(TopElem(g, stack)) {
      rejects := RejectWithoutClass(g, stack, candidates);
      return;
    }
    var next;
    rejects, next := FilterByTop(g, stack, candidates);
    var nextStacks := StacksAfterTop(g, stack, used);
    forall c | c in next ensures |c.codePoints| - c.off <= bound - 1 {
      assert Backward(c) in candidates;
    }
    var nextRejects := RejectCandidates(g, nextStacks, next, bound - 1, used);
    rejects := MergeRejects(g, stack, candidates, rejects, next, nextStacks, nextRejects);
  }

  // The two stack tops that need no class: the empty stack and a token terminal.
  method RejectWithoutClass(g: Rules, stack: Stack, candidates: seq<Candidate>) returns (rejects: seq<Candidate>)
    requires WfRules(g) && Settled(g, stack) && WfCandidates(candidates)
    requires stack == [] || IsTokenElem(TopElem(g, stack))
    ensures forall c :: c in rejects <==> c in candidates && !KeepsCandidate(g, stack, c)
  {
    rejects := [];
    for i := 0 to |candidates|
      invariant forall c :: c in rejects <==> c in candidates[..i] && !KeepsCandidate(g, stack, c)
    {
      var tok := candidates[i];
      assert candidates[..i + 1] == candidates[..i] + [tok];
      PayloadEmpty(tok);
      if stack == [] {
        if tok.codePoints[tok.off] != 0 || tok.partial.nRemain != 0 {
          rejects := rejects + [tok];
        }
      } else if tok.codePoints[tok.off] == 0 {
        if tok.partial.nRemain != 0 {
          rejects := rejects + [tok];
        }
      } else if !MatchToken(TopElem(g, stack), tok.id) {
        rejects := rejects + [tok];
      }
    }
    assert candidates[..|candidates|] == candidates;
  }

  // The stacks reached once the class on top has been matched.
  method StacksAfterTop(g: Rules, stack: Stack, ghost used: set<nat>) returns (next: seq<Stack>)
    requires Workable(g, used) && Settled(g, stack) && StaysIn(used, stack) && stack != []
    ensures forall t :: t in next <==> Advances(g, After(g, stack), t)
    ensures next != [] && AllSettled(g, next) && AllIn(used, next)
  {
    var stackAfter := After(g, stack);
    AfterStaysWithin(g, used, stack);
    assert SettlesOn(g, stackAfter);
    next := AdvanceWithin(g, stackAfter, [], used);
    forall t | t in next ensures StaysIn(used, t) {
      AdvanceStaysWithin(g, used, stackAfter, t);
    }
  }

  // Move the pointers of the later rejects back and add them to the earlier ones.
  method MergeRejects(g: Rules, stack: Stack, ghost candidates: seq<Candidate>, first: seq<Candidate>,
                      ghost next: seq<Candidate>, ghost nextStacks: seq<Stack>, nextRejects: seq<Candidate>)
    returns (rejects: seq<Candidate>)
    requires WfRules(g) && Settled(g, stack) && stack != [] && !IsTokenElem(TopElem(g, stack))
    requires WfCandidates(candidates) && WfCandidates(next)
    requires forall t :: t in nextStacks <==> Advances(g, After(g, stack), t)
    requires Filtered(g, stack, candidates, first, next)
    requires forall c :: c in nextRejects <==> c in next && !SomeKeeps(g, nextStacks, c)
    ensures forall c :: c in rejects <==> c in candidates && !KeepsCandidate(g, stack, c)
  {
    rejects := first;
    for i := 0 to |nextRejects|
      invariant forall c :: c in rejects <==> c in first || Forward(c) in nextRejects[..i]
    {
      assert nextRejects[..i + 1] == nextRejects[..i] + [nextRejects[i]];
      assert nextRejects[i] in nextRejects && nextRejects[i].off > 0;
      assert Forward(Backward(nextRejects[i])) == nextRejects[i];
      rejects := rejects + [Backward(nextRejects[i])];
    }
    assert nextRejects[..|nextRejects|] == nextRejects;
    forall c ensures c in rejects <==> c in candidates && !KeepsCandidate(g, stack, c) {
      assert Backward(Forward(c)) == c;
      if c in candidates && Moves(g, stack, c) {
        PayloadForward(c);
        KeepsMoved(g, stack, c, nextStacks);
      }
    }
  }

  // llama_grammar_reject_candidates: exactly the candidates that no stack allows.
  method RejectCandidates(g: Rules, stacks: seq<Stack>, candidates: seq<Candidate>, ghost bound: nat, ghost used: set<nat>)
    returns (rejects: seq<Candidate>)
    requires Workable(g, used) && stacks != [] && AllSettled(g, stacks) && AllIn(used, stacks)
    requires WfCandidates(candidates) && Within(candidates, bound)
    ensures forall c :: c in rejects <==> c in candidates && !SomeKeeps(g, stacks, c)
    decreases bound, 2
  {
    if candidates == [] {
      return [];
    }
    assert WfCandidate(candidates[0]);
    rejects := RejectCandidatesForStack(g, stacks[0], candidates, bound, used);
    for i := 1 to |stacks|
      invariant forall c :: c in rejects <==> c in candidates && !SomeKeeps(g, stacks[..i], c)
    {
      assert stacks[..i + 1] == stacks[..i] + [stacks[i]];
      rejects := RejectCandidatesForStack(g, stacks[i], rejects, bound, used);
    }
    assert stacks[..|stacks|] == stacks;
  }
}
