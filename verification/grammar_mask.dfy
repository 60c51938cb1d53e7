/**
 What the mask and the commit come to in terms of the text and of the token terminals of a grammar, without
 looking at how a candidate is judged.
 */
module GrammarMask {
  import opened GrammarRules
  import opened GrammarMachine
  import opened GrammarState
  import opened GrammarCandidates
  import opened GrammarAgreement
  import opened CharClass
  import opened Grammar
  import opened Utf8
  import opened Utf8Pieces
  import opened Gbnf
  import opened GbnfSymbols
  import opened GbnfCompile

  // ---------- the end of generation ----------

  // An end of generation is let through exactly on a complete sentence.
  lemma EogIffSentence(g: Rules, start: nat, stacks: seq<Stack>, text: seq<nat>, partial: Partial, t: TokenData)
    requires WfRules(g) && AllSettled(g, stacks) && Tracks(g, start, stacks, text) && IsPartial(partial) && t.isEog
    ensures LetThrough(g, stacks, partial, t) <==> InLang(g, [Ref(start)], text)
  {
    CompleteIffEmptyStack(g, start, stacks, text);
  }

  // ---------- pieces of text ----------

  lemma EncodedText(cps: seq<nat>, start: Partial)
    requires IsText(cps) && start.nRemain == 0
    ensures Decode(EncodeAll(cps), start).0 == cps + [0] && Decode(EncodeAll(cps), start).1.nRemain == 0
    ensures cps != [] ==> !HasNoText(EncodeAll(cps))
  {
    var piece := EncodeAll(cps);
    var rest := [piece][1..];
    assert rest == [] && Flatten(rest) == [] && piece + Flatten(rest) == piece;
    CutsDoNotMatter(cps, [piece], start);
    var d := Decode(piece, start);
    DecodeEndsInZero(piece, start);
    assert DecodePieces(rest, d.1).0 == [] && d.0 == d.0[..|d.0| - 1] + [0];
    if cps != [] { LeadByteFacts(cps[0]); }
  }

  lemma DecodeEndsInZero(piece: seq<Byte>, start: Partial)
    ensures Decode(piece, start).0 != [] && Decode(piece, start).0[|Decode(piece, start).0| - 1] == 0
  {}

  lemma TextPayload(index: nat, id: nat, cps: seq<nat>, partial: Partial)
    requires IsText(cps) && IsPartial(partial) && partial.nRemain == 0
    ensures var c := CandidateOf(index, id, EncodeAll(cps), partial);
      WfCandidate(c) && Payload(c) == cps && c.partial.nRemain == 0
  {
    EncodedText(cps, partial);
    DecodedPartial(EncodeAll(cps), partial);
    assert 0 !in cps;
    UpToZeroOfPoints(cps);
    assert (cps + [0])[0..] == cps + [0];
  }

  // A stack that can be run over the code points keeps them, whatever the terminals of the grammar.
  lemma {:induction false} RunKeeps(g: Rules, s: Stack, cps: seq<nat>, p: Partial, id: nat, route: Route, t: Stack)
    requires WfRules(g) && Settled(g, s) && RunsBy(g, s, cps, route, t) && IsPartial(p) && p.nRemain == 0
    ensures Keeps(g, s, cps, p, id)
    decreases route
  {
    if s != [] { SettledTop(g, s); }
    match route
    case Arrived =>
    case Via(m, rest) => RunKeeps(g, m, cps[1..], p, id, rest, t);
  }

  /**
   The mask never hides text with which a sentence can go on: if some word of the language begins with the text so
   far and the code points of the piece, the piece is let through.
   */
  lemma PossibleIsLetThrough(g: Rules, start: nat, stacks: seq<Stack>, text: seq<nat>, cps: seq<nat>, w: seq<nat>,
                             partial: Partial, id: nat)
    requires WfRules(g) && AllSettled(g, stacks) && Tracks(g, start, stacks, text)
    requires IsText(cps) && cps != [] && IsPartial(partial) && partial.nRemain == 0
    requires InLang(g, [Ref(start)], text + (cps + w))
    ensures LetThrough(g, stacks, partial, TokenData(id, false, EncodeAll(cps)))
  {
    EncodedText(cps, partial);
    TextPayload(0, id, cps, partial);
    var c := CandidateOf(0, id, EncodeAll(cps), partial);
    assert StacksAccept(g, stacks, cps + w);
    var s :| s in stacks && ValidStack(g, s) && InLang(g, Form(g, s), cps + w);
    var route, t := RunsComplete(g, s, cps, w);
    RunKeeps(g, s, cps, c.partial, id, route, t);
    assert KeepsCandidate(g, s, c);
  }

  // ---------- invalid bytes ----------

  // A piece with a wrong byte is never let through, whatever the grammar.
  lemma WrongByteIsMasked(g: Rules, stacks: seq<Stack>, partial: Partial, t: TokenData)
    requires IsPartial(partial) && !t.isEog && HasWrongByte(t.piece, partial)
    ensures !LetThrough(g, stacks, partial, t)
  {
    InvalidIffWrongByte(t.piece, partial);
    DecodedPartial(t.piece, partial);
    var c := CandidateOf(0, t.id, t.piece, partial);
    assert c.codePoints[0..] == [0] && Payload(c) == [] && c.partial == Partial(0, -1);
    forall s ensures !KeepsCandidate(g, s, c) {}
  }

  // In particular, while bytes are owed only pieces that begin with a continuation byte are let through.
  lemma OwedByteComesFirst(g: Rules, stacks: seq<Stack>, partial: Partial, t: TokenData)
    requires IsPartial(partial) && partial.nRemain > 0 && !t.isEog && LetThrough(g, stacks, partial, t)
    ensures t.piece != [] && IsContinuationByte(t.piece[0])
  {
    if t.piece != [] && t.piece[0] != 0 && !IsContinuationByte(t.piece[0]) {
      assert UpToNul(t.piece)[0] == t.piece[0] && WrongAt(UpToNul(t.piece), partial, 0);
      WrongByteIsMasked(g, stacks, partial, t);
    }
  }

  // ---------- token terminals ----------

  // The elements stand at the top of the stack.
  predicate ToppedBy(g: Rules, s: Stack, seg: Rule)
    requires ValidStack(g, s)
  {
    s != [] && var p := s[|s| - 1]; p.idx + |seg| <= |g[p.rule]| && g[p.rule][p.idx..p.idx + |seg|] == seg
  }

  lemma TokenItemOnTop(st: State, name: string, negated: bool, k: nat, g: Rules, s: Stack)
    requires Settled(g, s) && CompileItem(st, name, TokenId(negated, k)).Compiled?
    requires ToppedBy(g, s, CompileItem(st, name, TokenId(negated, k)).seg)
    ensures IsTokenElem(TopElem(g, s)) && TopElem(g, s).value == k && TopElem(g, s).typ == if negated then TokenNot else Token
  {
    var p, seg := s[|s| - 1], CompileItem(st, name, TokenId(negated, k)).seg;
    assert g[p.rule][p.idx..p.idx + |seg|][0] == g[p.rule][p.idx];
  }

  /**
   A token terminal as the user writes it: <[k]> takes the token k and no other, !<[k]> every token but k, and
   what follows the terminal remains.
   */
  lemma TokenItemTakes(st: State, name: string, negated: bool, k: nat, g: Rules, s: Stack, id: nat, cps: seq<nat>, t: Stack)
    requires WfRules(g) && Settled(g, s) && CompileItem(st, name, TokenId(negated, k)).Compiled?
    requires ToppedBy(g, s, CompileItem(st, name, TokenId(negated, k)).seg)
    ensures TakesToken(g, s, id, cps, t) <==> (id == k) != negated && Advances(g, After(g, s), t)
  {
    TokenItemOnTop(st, name, negated, k, g, s);
  }

  // The mask says the same of a piece of text.
  lemma TokenItemLetThrough(st: State, name: string, negated: bool, k: nat, g: Rules, s: Stack, id: nat, cps: seq<nat>,
                            partial: Partial)
    requires WfRules(g) && Settled(g, s) && CompileItem(st, name, TokenId(negated, k)).Compiled?
    requires ToppedBy(g, s, CompileItem(st, name, TokenId(negated, k)).seg)
    requires IsText(cps) && cps != [] && IsPartial(partial) && partial.nRemain == 0
    ensures LetThrough(g, [s], partial, TokenData(id, false, EncodeAll(cps))) <==> (id == k) != negated
  {
    TokenItemOnTop(st, name, negated, k, g, s);
    EncodedText(cps, partial);
    TextPayload(0, id, cps, partial);
    var c := CandidateOf(0, id, EncodeAll(cps), partial);
    assert s in [s] && forall x :: x in [s] ==> x == s;
    assert KeepsCandidate(g, s, c) <==> (id == k) != negated;
  }

  // Where the user's terminal ends its rule and nothing is below, the token completes the sentence.
  lemma TokenItemLast(st: State, name: string, negated: bool, k: nat, g: Rules, p: Pos, id: nat, cps: seq<nat>)
    requires WfRules(g) && ValidPos(g, p) && CompileItem(st, name, TokenId(negated, k)).Compiled?
    requires Settled(g, [p]) && ToppedBy(g, [p], CompileItem(st, name, TokenId(negated, k)).seg)
    requires p.idx + 1 < |g[p.rule]| && IsEndOfSequence(g[p.rule][p.idx + 1])
    ensures TakesToken(g, [p], id, cps, []) <==> (id == k) != negated
  {
    TokenItemOnTop(st, name, negated, k, g, [p]);
    TokenItemTakes(st, name, negated, k, g, [p], id, cps, []);
    assert [p][..0] == [] && After(g, [p]) == [];
    ReachSelf(g, []);
  }
}
