/**
 Where the bytes and the text part: characters that decode to NUL, for which the mask and `accept_token`
 disagree, and bytes of an unfinished character, which may be pending when generation is allowed to end.
 */
module GrammarPending {
  import opened GrammarRules
  import opened GrammarMachine
  import opened GrammarState
  import opened GrammarCandidates
  import opened CharClass
  import opened Grammar
  import opened GrammarAgreement
  import opened Utf8

  // ---------- where the mask and the commit agree ----------

  // The mask lets t through on a stack exactly if accept_token leaves a stack that can go on with the
  // bytes that are pending then.
  ghost predicate Agrees(g: Rules, s: Stack, partial: Partial, t: TokenData)
    requires IsPartial(partial)
  {
    LetThrough(g, [s], partial, t) <==> exists u :: TakesOn(g, s, partial, t, u)
  }

  ghost predicate TakesOn(g: Rules, s: Stack, partial: Partial, t: TokenData, u: Stack) {
    var d := Decode(t.piece, partial);
    TakesToken(g, s, t.id, Points(d), u) && Compatible(g, u, d.1)
  }

  // A piece of a token that does not end generation, for every grammar over characters and every stack of it.
  ghost predicate AlwaysAgrees(partial: Partial, t: TokenData)
    requires IsPartial(partial)
  {
    forall g, s :: WfRules(g) && CharactersOnly(g) && Settled(g, s) ==> Agrees(g, s, partial, t)
  }

  // The bytes pending after the piece can become a character, or there are none.
  predicate CanGoOn(p: Partial) {
    p.nRemain == 0 || Live(p)
  }

  lemma NoNulAgrees(g: Rules, s: Stack, partial: Partial, t: TokenData)
    requires WfRules(g) && CharactersOnly(g) && Settled(g, s) && IsPartial(partial)
    requires !t.isEog && !HasNoText(t.piece) && 0 !in Points(Decode(t.piece, partial))
    ensures Agrees(g, s, partial, t)
  {
    var d := Decode(t.piece, partial);
    var cps := Points(d);
    var c := CandidateOf(0, t.id, t.piece, partial);
    CandidatePayload(0, t.id, t.piece, partial);
    KeepsMeansRuns(g, s, cps, d.1, t.id);
    assert SomeKeeps(g, [s], c) <==> Keeps(g, s, cps, d.1, t.id) by {
      assert s in [s];
    }
    PieceLeavesSomething(t.piece, partial);
    if s != [] { NoTokenOnTop(g, s); }
    if s == [] {
      forall u | RunsTo(g, s, cps, u) ensures cps == [] && u == [] {
        EmptyStackRunsNowhere(g, cps, u);
      }
    }
    forall u ensures TakesOn(g, s, partial, t, u) <==> s != [] && RunsTo(g, s, cps, u) && Compatible(g, u, d.1) {}
  }

  // ---------- a grammar on which a NUL character tells them apart ----------

  // n times any character, then one from 1 to top
  function Dots(n: nat, top: nat): Rule {
    seq(n, _ => Elem(CharAny, 0)) + [Elem(Char, 1), Elem(CharRngUpper, top), Elem(End, 0)]
  }

  function DotRules(n: nat, top: nat): Rules {
    [Dots(n, top)]
  }

  lemma DotsWellFormed(n: nat, top: nat)
    ensures WfRules(DotRules(n, top)) && CharactersOnly(DotRules(n, top))
  {
    var r := Dots(n, top);
    forall i | 0 <= i < |r| ensures GoodAt(r, i) && !IsTokenElem(r[i]) && !r[i].typ.RuleRef? {}
    assert WfRule(r);
  }

  // The stack after i characters.
  function At(i: nat): Stack {
    [Pos(0, i)]
  }

  lemma DotsAt(n: nat, top: nat, i: nat)
    requires i <= n
    ensures var g := DotRules(n, top);
      && WfRules(g) && Settled(g, At(i))
      && TopSym(g, At(i)) == Class(true, [if i < n then AnyChar else Range(1, top)])
      && (i < n ==> After(g, At(i)) == At(i + 1))
  {
    DotsWellFormed(n, top);
    var g, r := DotRules(n, top), Dots(n, top);
    assert At(i)[..0] == [];
    assert RestAt(g, Pos(0, i)) == r[i..];
    if i < n {
      assert ClassRanges(r[i..]) == [AnyChar] && ClassLen(r[i..]) == 1;
    } else {
      assert ItemLen(r[i..]) == 2 && ClassRanges(r[i..]) == [Range(1, top)] + [];
    }
  }

  lemma DotAccepts(c: nat)
    ensures Accepts(Class(true, [AnyChar]), c)
  {
    assert InRange([AnyChar][0], c);
  }

  lemma {:induction false} DotsRun(n: nat, top: nat, i: nat, cps: seq<nat>)
    requires i <= n && |cps| == n - i
    ensures RunsTo(DotRules(n, top), At(i), cps, At(n))
    decreases n - i
  {
    var g := DotRules(n, top);
    if i == n {
      RunsNowhere(g, At(i));
    } else {
      DotsAt(n, top, i);
      DotsAt(n, top, i + 1);
      DotAccepts(cps[0]);
      ReachSelf(g, At(i + 1));
      DotsRun(n, top, i + 1, cps[1..]);
      RunsVia(g, At(i), cps, At(i + 1), At(n));
    }
  }

  lemma {:induction false} DotsStopAtNul(n: nat, top: nat, i: nat, cps: seq<nat>, t: Stack)
    requires i <= n && |cps| > n - i && cps[n - i] == 0
    ensures !RunsTo(DotRules(n, top), At(i), cps, t)
    decreases n - i
  {
    var g := DotRules(n, top);
    DotsAt(n, top, i);
    if RunsTo(g, At(i), cps, t) {
      var m := FirstStop(g, At(i), cps, t);
      if i < n {
        DotsAt(n, top, i + 1);
        SettledStaysPut(g, At(i + 1), m);
        DotsStopAtNul(n, top, i + 1, cps[1..], t);
      }
    }
  }

  // The class at the end can begin with the pending bytes.
  lemma EndCanGoOn(n: nat, p: Partial)
    requires IsPartial(p) && CanGoOn(p)
    ensures var top := if p.nRemain == 0 then 1 else Top(p); Compatible(DotRules(n, top), At(n), p)
  {
    var top := if p.nRemain == 0 then 1 else Top(p);
    DotsAt(n, top, n);
    if p.nRemain > 0 {
      assert Overlaps([Range(1, top)][0], Low(p), Top(p));
    }
  }

  // The characters before the first one that decodes to NUL.
  lemma NulPayload(partial: Partial, t: TokenData) returns (payload: seq<nat>)
    requires IsPartial(partial) && 0 in Points(Decode(t.piece, partial))
    ensures WfCandidate(CandidateOf(0, t.id, t.piece, partial))
    ensures payload == Payload(CandidateOf(0, t.id, t.piece, partial))
    ensures |payload| < |Points(Decode(t.piece, partial))| && Points(Decode(t.piece, partial))[|payload|] == 0
  {
    DecodedPartial(t.piece, partial);
    var d := Decode(t.piece, partial);
    var cps := Points(d);
    assert d.0[0..] == d.0 && d.0 == cps + [0];
    payload := UpToZero(d.0);
    var k :| 0 <= k < |cps| && cps[k] == 0;
    forall i | 0 <= i < |payload| ensures payload[i] == d.0[i] && payload[i] != 0 {}
    assert d.0[k] == 0 && |payload| <= k;
  }

  lemma NulIsKept(partial: Partial, t: TokenData, n: nat, top: nat)
    requires IsPartial(partial) && !t.isEog && !HasNoText(t.piece) && WfCandidate(CandidateOf(0, t.id, t.piece, partial))
    requires n == |Payload(CandidateOf(0, t.id, t.piece, partial))|
    requires Compatible(DotRules(n, top), At(n), Decode(t.piece, partial).1)
    ensures LetThrough(DotRules(n, top), [At(0)], partial, t)
  {
    var g, payload := DotRules(n, top), Payload(CandidateOf(0, t.id, t.piece, partial));
    DotsAt(n, top, 0);
    DotsWellFormed(n, top);
    DotsRun(n, top, 0, payload);
    KeepsMeansRuns(g, At(0), payload, Decode(t.piece, partial).1, t.id);
    assert At(0) in [At(0)];
  }

  lemma NulIsRefused(n: nat, top: nat, id: nat, cps: seq<nat>)
    requires n < |cps| && cps[n] == 0
    ensures TokenStep(DotRules(n, top), [At(0)], id, cps, [])
    ensures forall u :: !TakesToken(DotRules(n, top), At(0), id, cps, u)
  {
    var g := DotRules(n, top);
    DotsAt(n, top, 0);
    DotsWellFormed(n, top);
    NoTokenOnTop(g, At(0));
    forall u ensures !TakesToken(g, At(0), id, cps, u) {
      DotsStopAtNul(n, top, 0, cps, u);
    }
    assert forall x :: x in [At(0)] ==> x == At(0);
  }

  lemma NulDisagrees(partial: Partial, t: TokenData) returns (g: Rules, s: Stack)
    requires IsPartial(partial) && !t.isEog && !HasNoText(t.piece)
    requires 0 in Points(Decode(t.piece, partial)) && CanGoOn(Decode(t.piece, partial).1)
    ensures WfRules(g) && CharactersOnly(g) && Settled(g, s)
    ensures LetThrough(g, [s], partial, t) && TokenStep(g, [s], t.id, Points(Decode(t.piece, partial)), [])
    ensures !Agrees(g, s, partial, t)
  {
    var d := Decode(t.piece, partial);
    var payload := NulPayload(partial, t);
    DecodedPartial(t.piece, partial);
    var n, top := |payload|, if d.1.nRemain == 0 then 1 else Top(d.1);
    g, s := DotRules(n, top), At(0);
    EndCanGoOn(n, d.1);
    NulIsKept(partial, t, n, top);
    NulIsRefused(n, top, t.id, Points(d));
    DotsAt(n, top, 0);
    DotsWellFormed(n, top);
  }

  lemma DeadNeverKept(g: Rules, s: Stack, partial: Partial, t: TokenData)
    requires WfRules(g) && CharactersOnly(g) && Settled(g, s) && IsPartial(partial)
    requires !t.isEog && !CanGoOn(Decode(t.piece, partial).1)
    ensures Agrees(g, s, partial, t)
  {
    var d := Decode(t.piece, partial);
    DecodedPartial(t.piece, partial);
    var c := CandidateOf(0, t.id, t.piece, partial);
    KeepsMeansRuns(g, s, Payload(c), d.1, t.id);
    forall u ensures !Compatible(g, u, d.1) {}
  }

  /**
   The mask and accept_token agree on a piece, for every grammar over characters and every stack, exactly if
   none of its characters decodes to NUL or the bytes it leaves pending can become no character.
   */
  lemma AgreesIffNoNul(partial: Partial, t: TokenData)
    requires IsPartial(partial) && !t.isEog && !HasNoText(t.piece)
    ensures AlwaysAgrees(partial, t) <==>
              0 !in Points(Decode(t.piece, partial)) || !CanGoOn(Decode(t.piece, partial).1)
  {
    if 0 !in Points(Decode(t.piece, partial)) || !CanGoOn(Decode(t.piece, partial).1) {
      forall g, s | WfRules(g) && CharactersOnly(g) && Settled(g, s) ensures Agrees(g, s, partial, t) {
        if 0 !in Points(Decode(t.piece, partial)) {
          NoNulAgrees(g, s, partial, t);
        } else {
          DeadNeverKept(g, s, partial, t);
        }
      }
    } else {
      var g, s := NulDisagrees(partial, t);
    }
  }

  // ---------- generation may end in the middle of a character ----------

  // root ::= "a" | "a\u00E9"
  const ACCENT: Rules := [[Elem(Char, 0x61), Elem(Alt, 0), Elem(Char, 0x61), Elem(Char, 0xE9), Elem(End, 0)]]

  // "a" and the first of the two bytes of the accented letter
  const HALF: seq<Byte> := [0x61, 0xC3]

  lemma AccentRules()
    ensures WfRules(ACCENT) && CharactersOnly(ACCENT)
  {
    assert WfRule(ACCENT[0]);
  }

  lemma AccentAt(i: nat)
    requires i == 0 || i == 2 || i == 3
    ensures WfRules(ACCENT) && Settled(ACCENT, At(i))
    ensures var c := if i == 3 then 0xE9 else 0x61; TopSym(ACCENT, At(i)) == Class(true, [Range(c, c)])
    ensures After(ACCENT, At(i)) == if i == 2 then At(3) else []
  {
    AccentRules();
    assert At(i)[..0] == [];
    assert RestAt(ACCENT, Pos(0, i)) == ACCENT[0][i..];
    assert ClassRanges(ACCENT[0][i..]) == [Range(ACCENT[0][i].value, ACCENT[0][i].value)] + [];
    assert ClassLen(ACCENT[0][i..]) == 1;
  }

  lemma HalfDecodes()
    ensures Decode(HALF, NoPartial) == ([0x61, 0], Partial(3, 1))
  {
    assert HALF[1..] == [0xC3] && HALF[1..][1..] == [];
    assert Feed(Start(NoPartial), 0x61) == Reading([0x61], 0x61, 0, false);
    assert Feed(Reading([0x61], 0x61, 0, false), 0xC3) == Reading([0x61], 3, 1, false);
    assert FeedAll(Reading([0x61], 3, 1, false), []) == Reading([0x61], 3, 1, false);
    assert FeedAll(Reading([0x61], 0x61, 0, false), [0xC3]) == Reading([0x61], 3, 1, false);
    assert [0x61] + [0] == [0x61, 0];
  }

  lemma AccentRuns(i: nat)
    requires i == 0 || i == 2
    ensures RunsTo(ACCENT, At(i), [0x61], if i == 2 then At(3) else [])
  {
    var u := if i == 2 then At(3) else [];
    AccentAt(i);
    if i == 2 { AccentAt(3); }
    assert InRange([Range(0x61, 0x61)][0], 0x61);
    ReachSelf(ACCENT, u);
    assert Consumes(ACCENT, At(i), 0x61, u);
    RunsNowhere(ACCENT, u);
    assert [0x61][1..] == [];
    RunsVia(ACCENT, At(i), [0x61], u, u);
  }

  // The two alternates are the initial stacks.
  lemma AccentInitial(t: Stack)
    ensures InitialFrom(ACCENT, 0, |ACCENT[0]|, t) <==> t == At(0) || t == At(2)
  {
    AccentRules();
    forall a: nat ensures AdvancesFromAlt(ACCENT, 0, a, t) <==> (a == 0 || a == 2) && t == At(a) {
      if a == 0 || a == 2 {
        AccentAt(a);
        AltStartIsBoundary(ACCENT, 0, a);
        assert Push(ACCENT, [], Pos(0, a)) == At(a);
        ReachSelf(ACCENT, At(a));
        if Reach(ACCENT, At(a), t) { SettledStaysPut(ACCENT, At(a), t); }
      }
    }
    assert AdvancesFromAlt(ACCENT, 0, 0, t) <==> t == At(0);
    assert AdvancesFromAlt(ACCENT, 0, 2, t) <==> t == At(2);
  }

  lemma AccentSteps(before: seq<Stack>, id: nat, after: seq<Stack>)
    requires At(0) in before && At(2) in before && TokenStep(ACCENT, before, id, [0x61], after)
    ensures [] in after && At(3) in after
  {
    AccentAt(0);
    AccentAt(2);
    AccentRuns(0);
    AccentRuns(2);
    assert TakesToken(ACCENT, At(0), id, [0x61], []);
    assert TakesToken(ACCENT, At(2), id, [0x61], At(3));
  }

  lemma AccentGoesOn()
    ensures Compatible(ACCENT, At(3), Partial(3, 1))
  {
    AccentAt(3);
    assert Overlaps([Range(0xE9, 0xE9)][0], Low(Partial(3, 1)), Top(Partial(3, 1)));
  }

  lemma AccentSettled(before: seq<Stack>)
    requires forall t :: t in before <==> InitialFrom(ACCENT, 0, |ACCENT[0]|, t)
    ensures AllSettled(ACCENT, before) && At(0) in before && At(2) in before
  {
    AccentInitial(At(0));
    AccentInitial(At(2));
    AccentAt(0);
    AccentAt(2);
    forall s | s in before ensures Settled(ACCENT, s) { AccentInitial(s); }
  }

  /**
   "a" is a sentence that "a" with an accented letter extends.  A token of "a" and half of that letter is let
   through; once it is committed generation may end, with a byte pending that belongs to no character.
   */
  lemma EndsMidCharacter(before: seq<Stack>, id: nat, after: seq<Stack>)
    requires forall t :: t in before <==> InitialFrom(ACCENT, 0, |ACCENT[0]|, t)
    requires TokenStep(ACCENT, before, id, Points(Decode(HALF, NoPartial)), after)
    ensures LetThrough(ACCENT, before, NoPartial, TokenData(id, false, HALF))
    ensures [] in after && Decode(HALF, NoPartial).1.nRemain == 1
  {
    HalfDecodes();
    AccentRules();
    assert Points(([0x61, 0], Partial(3, 1))) == [0x61];
    AccentSettled(before);
    AccentSteps(before, id, after);
    AccentGoesOn();
    MaskAgreesWithAccept(ACCENT, before, 0, id, HALF, NoPartial, after);
  }
}
