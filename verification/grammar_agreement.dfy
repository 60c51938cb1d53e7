/**
 Masking and committing agree: a piece that the mask lets through is one that `accept_token` can
 take, and conversely.
 */
module GrammarAgreement {
  import opened GrammarRules
  import opened GrammarMachine
  import opened GrammarState
  import opened GrammarCandidates
  import opened CharClass
  import opened Grammar
  import opened Utf8

  // All terminals are character classes.
  ghost predicate CharactersOnly(g: Rules) {
    forall r, i :: 0 <= r < |g| && 0 <= i < |g[r]| ==> !IsTokenElem(g[r][i])
  }

  // The stack can go on with the pending bytes.
  ghost predicate Compatible(g: Rules, s: Stack, p: Partial) {
    && Settled(g, s) && IsPartial(p)
    && (p.nRemain == 0 || (s != [] && TopSym(g, s).Class? && PartialOk(TopSym(g, s), p)))
  }

  lemma NoTokenOnTop(g: Rules, s: Stack)
    requires CharactersOnly(g) && Settled(g, s) && s != []
    ensures !IsTokenElem(TopElem(g, s)) && TopSym(g, s).Class?
  {
    assert ValidPos(g, s[|s| - 1]);
  }

  // The mask lets a piece through exactly if the stack can be run over its code points and the
  // result can go on with its pending bytes.
  lemma {:induction false} KeepsMeansRuns(g: Rules, s: Stack, cps: seq<nat>, p: Partial, id: nat)
    requires WfRules(g) && CharactersOnly(g) && Settled(g, s) && IsPartial(p)
    ensures Keeps(g, s, cps, p, id) <==> exists t :: RunsTo(g, s, cps, t) && Compatible(g, t, p)
    decreases |cps|
  {
    if cps == [] {
      if s != [] { NoTokenOnTop(g, s); }
      assert Keeps(g, s, cps, p, id) <==> Compatible(g, s, p);
      RunsNowhere(g, s);
      assert RunsTo(g, s, cps, s);
    } else {
      if s != [] { NoTokenOnTop(g, s); }
      if Keeps(g, s, cps, p, id) {
        var m :| Consumes(g, s, cps[0], m) && Keeps(g, m, cps[1..], p, id);
        KeepsMeansRuns(g, m, cps[1..], p, id);
        var t :| RunsTo(g, m, cps[1..], t) && Compatible(g, t, p);
        RunsVia(g, s, cps, m, t);
      }
      if t :| RunsTo(g, s, cps, t) && Compatible(g, t, p) {
        var m := FirstStop(g, s, cps, t);
        KeepsMeansRuns(g, m, cps[1..], p, id);
      }
    }
  }

  lemma RunsNowhere(g: Rules, s: Stack)
    ensures forall t :: RunsTo(g, s, [], t) <==> s == t
  {
    assert RunsBy(g, s, [], Arrived, s);
  }

  lemma RunsVia(g: Rules, s: Stack, cps: seq<nat>, m: Stack, t: Stack)
    requires cps != [] && Consumes(g, s, cps[0], m) && RunsTo(g, m, cps[1..], t)
    ensures RunsTo(g, s, cps, t)
  {
    var route :| RunsBy(g, m, cps[1..], route, t);
    assert RunsBy(g, s, cps, Via(m, route), t);
  }

  lemma FirstStop(g: Rules, s: Stack, cps: seq<nat>, t: Stack) returns (m: Stack)
    requires cps != [] && RunsTo(g, s, cps, t)
    ensures Consumes(g, s, cps[0], m) && RunsTo(g, m, cps[1..], t)
  {
    var route :| RunsBy(g, s, cps, route, t);
    m := route.m;
    assert RunsBy(g, m, cps[1..], route.rest, t);
  }

  // ---------- pieces ----------

  // A piece the sampler offers leaves a complete code point or something pending.
  lemma PieceLeavesSomething(piece: seq<Byte>, start: Partial)
    requires piece != [] && piece[0] != 0 && IsPartial(start)
    ensures Decode(piece, start).0 == [0] ==> Decode(piece, start).1.nRemain != 0
  {
    FeedNoReturn(Feed(Start(start), piece[0]), piece[1..]);
  }

  lemma {:induction false} FeedNoReturn(m: Mode, src: seq<Byte>)
    requires m.Reading? ==> m.n >= 0 && (m.n == 0 ==> m.out != [])
    ensures var f := FeedAll(m, src); f.Reading? ==> f.n >= 0 && (f.n == 0 ==> f.out != [])
    decreases |src|
  {
    if src != [] && src[0] != 0 && !m.Invalid? { FeedNoReturn(Feed(m, src[0]), src[1..]); }
  }

  lemma {:induction false} UpToZeroOfPoints(cps: seq<nat>)
    requires 0 !in cps
    ensures UpToZero(cps + [0]) == cps
    decreases |cps|
  {
    if cps != [] {
      assert (cps + [0])[1..] == cps[1..] + [0];
      UpToZeroOfPoints(cps[1..]);
    }
  }

  // The candidate of a decoded piece without zero code points carries exactly its code points.
  lemma CandidatePayload(index: nat, id: nat, piece: seq<Byte>, partial: Partial)
    requires IsPartial(partial) && 0 !in Points(Decode(piece, partial))
    ensures WfCandidate(CandidateOf(index, id, piece, partial))
    ensures Payload(CandidateOf(index, id, piece, partial)) == Points(Decode(piece, partial))
  {
    DecodedPartial(piece, partial);
    var cps := Points(Decode(piece, partial));
    assert Decode(piece, partial).0 == cps + [0] == (cps + [0])[0..];
    UpToZeroOfPoints(cps);
  }

  lemma KeptIffRuns(g: Rules, before: seq<Stack>, index: nat, id: nat, piece: seq<Byte>, partial: Partial)
    requires WfRules(g) && CharactersOnly(g) && AllSettled(g, before) && IsPartial(partial)
    requires Decode(piece, partial).0 != [] && 0 !in Points(Decode(piece, partial))
    requires WfCandidate(CandidateOf(index, id, piece, partial))
    ensures SomeKeeps(g, before, CandidateOf(index, id, piece, partial))
            <==> exists s, t :: s in before && RunsTo(g, s, Points(Decode(piece, partial)), t)
                                && Compatible(g, t, Decode(piece, partial).1)
  {
    var c := CandidateOf(index, id, piece, partial);
    CandidatePayload(index, id, piece, partial);
    forall s | s in before
      ensures KeepsCandidate(g, s, c) <==> exists t :: RunsTo(g, s, Points(Decode(piece, partial)), t) && Compatible(g, t, c.partial)
    {
      KeepsMeansRuns(g, s, Payload(c), c.partial, id);
    }
  }

  /**
   Let before be the stacks of a grammar over characters and after what accept_token leaves of them.
   The mask lets the piece through exactly if some stack that accept_token leaves can go on with the
   pending bytes of the piece.
   */
  lemma MaskAgreesWithAccept(g: Rules, before: seq<Stack>, index: nat, id: nat, piece: seq<Byte>, partial: Partial,
                             after: seq<Stack>)
    requires WfRules(g) && CharactersOnly(g) && AllSettled(g, before) && IsPartial(partial)
    requires piece != [] && piece[0] != 0
    requires Decode(piece, partial).0 != [] && 0 !in Points(Decode(piece, partial))
    requires TokenStep(g, before, id, Points(Decode(piece, partial)), after)
    ensures WfCandidate(CandidateOf(index, id, piece, partial))
    ensures SomeKeeps(g, before, CandidateOf(index, id, piece, partial))
            <==> exists t :: t in after && Compatible(g, t, Decode(piece, partial).1)
  {
    CandidatePayload(index, id, piece, partial);
    KeptIffRuns(g, before, index, id, piece, partial);
    PieceLeavesSomething(piece, partial);
    var cps, p := Points(Decode(piece, partial)), Decode(piece, partial).1;
    if s, t :| s in before && RunsTo(g, s, cps, t) && Compatible(g, t, p) {
      if s == [] {
        EmptyStackRunsNowhere(g, cps, t);
      } else {
        NoTokenOnTop(g, s);
        assert TakesToken(g, s, id, cps, t) && t in after;
      }
    }
    if t :| t in after && Compatible(g, t, p) {
      var s :| s in before && TakesToken(g, s, id, cps, t);
      NoTokenOnTop(g, s);
      assert RunsTo(g, s, cps, t);
    }
  }

  lemma EmptyStackRunsNowhere(g: Rules, cps: seq<nat>, t: Stack)
    requires RunsTo(g, [], cps, t)
    ensures cps == [] && t == []
  {
    var route :| RunsBy(g, [], cps, route, t);
  }

  // What the mask lets through never leaves accept_token without a stack; what it turns away with no
  // bytes pending always does.
  lemma MaskDecidesAccept(g: Rules, before: seq<Stack>, index: nat, id: nat, piece: seq<Byte>, partial: Partial,
                          after: seq<Stack>)
    requires WfRules(g) && CharactersOnly(g) && AllSettled(g, before) && IsPartial(partial)
    requires piece != [] && piece[0] != 0
    requires Decode(piece, partial).0 != [] && 0 !in Points(Decode(piece, partial))
    requires TokenStep(g, before, id, Points(Decode(piece, partial)), after)
    requires WfCandidate(CandidateOf(index, id, piece, partial))
    ensures SomeKeeps(g, before, CandidateOf(index, id, piece, partial)) ==> after != []
    ensures Decode(piece, partial).1.nRemain == 0 ==>
              (SomeKeeps(g, before, CandidateOf(index, id, piece, partial)) <==> after != [])
  {
    MaskAgreesWithAccept(g, before, index, id, piece, partial, after);
    if after != [] && Decode(piece, partial).1.nRemain == 0 {
      TokenStepSettled(g, before, id, Points(Decode(piece, partial)), after);
      DecodedPartial(piece, partial);
      assert after[0] in after && Compatible(g, after[0], Decode(piece, partial).1);
    }
  }

  lemma TokenStepSettled(g: Rules, before: seq<Stack>, id: nat, cps: seq<nat>, after: seq<Stack>)
    requires TokenStep(g, before, id, cps, after)
    ensures AllSettled(g, after)
  {
    forall t | t in after ensures Settled(g, t) {
      var s :| s in before && TakesToken(g, s, id, cps, t);
      if !IsTokenElem(TopElem(g, s)) {
        var route :| RunsBy(g, s, cps, route, t);
        RunsSettled(g, s, cps, route, t);
      }
    }
  }

  // For character classes and at least one code point, committing a token is running over its text.
  lemma TokenRuns(g: Rules, before: seq<Stack>, id: nat, cps: seq<nat>, after: seq<Stack>)
    requires WfRules(g) && CharactersOnly(g) && AllSettled(g, before) && cps != []
    requires TokenStep(g, before, id, cps, after)
    ensures StacksRun(g, before, cps, after)
  {
    forall t ensures t in after <==> exists s :: s in before && RunsTo(g, s, cps, t) {
      if t in after {
        var s :| s in before && TakesToken(g, s, id, cps, t);
        NoTokenOnTop(g, s);
        assert s in before && RunsTo(g, s, cps, t);
      }
      if s :| s in before && RunsTo(g, s, cps, t) {
        if s == [] { EmptyStackRunsNowhere(g, cps, t); }
        NoTokenOnTop(g, s);
        assert TakesToken(g, s, id, cps, t);
      }
    }
  }

  // accept_token and accept_str leave the same stacks for a piece with a complete code point.
  lemma TokenAndStrAgree(g: Rules, before: seq<Stack>, id: nat, cps: seq<nat>, byToken: seq<Stack>, byStr: seq<Stack>)
    requires WfRules(g) && CharactersOnly(g) && AllSettled(g, before) && cps != []
    requires TokenStep(g, before, id, cps, byToken) && StacksRun(g, before, cps, byStr)
    ensures forall t :: t in byToken <==> t in byStr
  {
    TokenRuns(g, before, id, cps, byToken);
  }

  // Without a complete code point they differ in exactly the empty stack.
  lemma TokenDropsEmptyStack(g: Rules, before: seq<Stack>, id: nat, byToken: seq<Stack>, byStr: seq<Stack>)
    requires WfRules(g) && CharactersOnly(g) && AllSettled(g, before)
    requires TokenStep(g, before, id, [], byToken) && StacksRun(g, before, [], byStr)
    ensures forall t :: t in byStr <==> t in before
    ensures forall t :: t in byToken <==> t in before && t != []
  {
    forall t ensures t in byStr <==> t in before {
      RunsNowhere(g, t);
      if t in byStr {
        var s :| s in before && RunsTo(g, s, [], t);
        RunsNowhere(g, s);
      }
    }
    forall t ensures t in byToken <==> t in before && t != [] {
      RunsNowhere(g, t);
      if t in byToken {
        var s :| s in before && TakesToken(g, s, id, [], t);
        NoTokenOnTop(g, s);
        RunsNowhere(g, s);
      }
      if t in before && t != [] {
        NoTokenOnTop(g, t);
        assert TakesToken(g, t, id, [], t);
      }
    }
  }

  // ---------- where agreement ends ----------

  // An overlong NUL decodes to the code point 0, at which the mask stops reading while accept_token
  // goes on: the mask lets it through before a class that does not contain 0.
  lemma OverlongNulDisagrees(g: Rules, s: Stack, id: nat, index: nat)
    requires WfRules(g) && CharactersOnly(g) && Settled(g, s) && s != [] && !Accepts(TopSym(g, s), 0)
    ensures var piece := [0xC0, 0x80];
            var c := CandidateOf(index, id, piece, NoPartial);
            WfCandidate(c) && SomeKeeps(g, [s], c)
            && Points(Decode(piece, NoPartial)) == [0] && TokenStep(g, [s], id, [0], [])
  {
    var piece: seq<Byte> := [0xC0, 0x80];
    OverlongNulDecodes();
    NoTokenOnTop(g, s);
    var c := CandidateOf(index, id, piece, NoPartial);
    assert c.codePoints[0..] == [0, 0];
    assert KeepsCandidate(g, s, c) && s in [s];
    forall x, t | x in [s] ensures !TakesToken(g, x, id, [0], t) {
      if RunsTo(g, s, [0], t) {
        var m := FirstStop(g, s, [0], t);
      }
    }
  }

  lemma OverlongNulDecodes()
    ensures Decode([0xC0, 0x80], NoPartial) == ([0, 0], Partial(0, 0))
  {
    var src: seq<Byte> := [0xC0, 0x80];
    assert src[1..] == [0x80] && src[1..][1..] == [];
    assert Feed(Start(NoPartial), 0xC0) == Reading([], 0, 1, false);
    assert Feed(Reading([], 0, 1, false), 0x80) == Reading([0], 0, 0, false);
    assert FeedAll(Reading([0], 0, 0, false), []) == Reading([0], 0, 0, false);
    assert FeedAll(Reading([], 0, 1, false), [0x80]) == Reading([0], 0, 0, false);
    assert FeedAll(Start(NoPartial), src) == Reading([0], 0, 0, false);
    assert [0] + [0] == [0, 0];
  }

  lemma SettledStaysPut(g: Rules, s: Stack, t: Stack)
    requires Settled(g, s) && Reach(g, s, t)
    ensures s == t
  {
    var c :| ReachBy(g, s, c, t);
  }

  // A token terminal reached in the middle of a piece: the mask compares the whole token with it,
  // accept_token wants to match the rest of the piece code point by code point and cannot.
  lemma TokenTerminalDisagrees(g: Rules, s: Stack, c: nat, d: nat, id: nat)
    requires WfRules(g) && Settled(g, s) && s != [] && Accepts(TopSym(g, s), c)
    requires Settled(g, After(g, s)) && After(g, s) != []
    requires IsTokenElem(TopElem(g, After(g, s))) && MatchToken(TopElem(g, After(g, s)), id)
    ensures Keeps(g, s, [c, d], NoPartial, id)
    ensures TokenStep(g, [s], id, [c, d], [])
  {
    var u := After(g, s);
    SettledTop(g, s);
    ReachSelf(g, u);
    assert Consumes(g, s, c, u) && [c, d][1..] == [d] && [c, d][0] == c;
    assert Keeps(g, u, [d], NoPartial, id);
    forall x, t | x in [s] ensures !TakesToken(g, x, id, [c, d], t) {
      if RunsTo(g, s, [c, d], t) {
        var m := FirstStop(g, s, [c, d], t);
        SettledStaysPut(g, u, m);
        var n := FirstStop(g, m, [d], t);
      }
    }
  }
}
