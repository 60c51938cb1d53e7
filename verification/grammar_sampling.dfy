/**
 Sampling under a grammar: `apply` masks the vocabulary, a sampler picks an entry that is left, and
 `llama_grammar_accept_impl` commits it.  The two are used in turn for a whole generation.
 */
module GrammarSampling {
  import opened GrammarRules
  import opened GrammarLanguage
  import opened GrammarTermination
  import opened GrammarState
  import opened GrammarCandidates
  import opened Grammar
  import opened GrammarAgreement
  import opened LeftRecursion
  import opened Utf8
  import opened CharClass
  import opened Gbnf
  import opened GbnfSymbols
  import opened GbnfParser
  import opened GbnfParse
  import opened GrammarText

  // The stacks know the text, also while bytes are pending: what they accept beyond it is what may
  // follow, and an empty stack means that the text is a sentence.
  ghost predicate Knows(g: Rules, start: nat, stacks: seq<Stack>, text: seq<nat>) {
    && AllSettled(g, stacks)
    && (forall w :: w != [] ==> (StacksAccept(g, stacks, w) <==> InLang(g, [Ref(start)], text + w)))
    && ([] in stacks ==> InLang(g, [Ref(start)], text))
  }

  lemma TracksKnows(g: Rules, start: nat, stacks: seq<Stack>, text: seq<nat>)
    requires WfRules(g) && AllSettled(g, stacks) && Tracks(g, start, stacks, text)
    ensures Knows(g, start, stacks, text)
  {
    CompleteIffEmptyStack(g, start, stacks, text);
  }

  // An empty stack accepts the empty continuation and no other.
  lemma EmptyStackAccepts(g: Rules, stacks: seq<Stack>, w: seq<nat>, s: Stack)
    requires WfRules(g) && s == []
    ensures ValidStack(g, s) && (InLang(g, Form(g, s), w) <==> w == [])
  {
    EmptyFormLanguage(g, w);
  }

  lemma KnowsOn(g: Rules, start: nat, before: seq<Stack>, text: seq<nat>, id: nat, cps: seq<nat>, after: seq<Stack>)
    requires WfRules(g) && CharactersOnly(g) && Knows(g, start, before, text)
    requires TokenStep(g, before, id, cps, after)
    ensures Knows(g, start, after, text + cps)
  {
    if cps == [] {
      assert text + cps == text;
      StacksRunNothing(g, before);
      TokenDropsEmptyStack(g, before, id, after, before);
      forall w | w != [] ensures StacksAccept(g, after, w) <==> StacksAccept(g, before, w) {
        EmptyStackAccepts(g, before, w, []);
      }
    } else {
      TokenRuns(g, before, id, cps, after);
      forall w ensures StacksAccept(g, after, w) <==> InLang(g, [Ref(start)], (text + cps) + w) {
        StacksRunLanguage(g, before, cps, after, w);
        ConcatAssociates(text, cps, w);
        assert cps + w != [];
      }
      StacksRunLanguage(g, before, cps, after, []);
      TracksKnows(g, start, after, text + cps);
    }
  }

  // ---------- committing a token ----------

  // Finished: the end of generation.  Threw and Aborted are the exception of accept_token and the abort
  // on an end that is not allowed.
  datatype Committed = Went | Finished | Threw | Aborted

  // llama_grammar_accept_impl for a grammar that is not waiting for a trigger.
  method AcceptImpl(grammar: LlamaGrammar, t: TokenData, ghost text: seq<nat>) returns (r: Committed, ghost text': seq<nat>)
    requires grammar.Valid() && CharactersOnly(grammar.rules)
    requires Knows(grammar.rules, grammar.start, grammar.stacks, text)
    modifies grammar
    ensures grammar.Valid() && Knows(grammar.rules, grammar.start, grammar.stacks, text')
    ensures t.isEog ==> r == (if [] in old(grammar.stacks) then Finished else Aborted) && text' == text
    ensures t.isEog ==> grammar.stacks == old(grammar.stacks) && grammar.partial == old(grammar.partial)
    ensures !t.isEog ==> (r == if grammar.stacks != [] then Went else Threw)
    ensures !t.isEog ==> Decode(t.piece, old(grammar.partial)).0 != []
    ensures !t.isEog ==> text' == text + Points(Decode(t.piece, old(grammar.partial)))
    ensures !t.isEog ==> grammar.partial == Decode(t.piece, old(grammar.partial)).1
    ensures !t.isEog ==>
      TokenStep(grammar.rules, old(grammar.stacks), t.id, Points(Decode(t.piece, old(grammar.partial))), grammar.stacks)
  {
    if t.isEog {
      for i := 0 to |grammar.stacks|
        invariant [] !in grammar.stacks[..i]
      {
        assert grammar.stacks[..i + 1] == grammar.stacks[..i] + [grammar.stacks[i]];
        if grammar.stacks[i] == [] {
          return Finished, text;
        }
      }
      assert grammar.stacks[..|grammar.stacks|] == grammar.stacks;
      return Aborted, text;
    }
    ghost var before := grammar.stacks;
    DecodedPartial(t.piece, grammar.partial);
    ghost var cps := Points(Decode(t.piece, grammar.partial));
    var ok := grammar.AcceptToken(t.id, t.piece);
    KnowsOn(grammar.rules, grammar.start, before, text, t.id, cps, grammar.stacks);
    return if ok then Went else Threw, text + cps;
  }

  // ---------- one turn ----------

  // Sentence: the sampler ended the generation.  NulCharacter: it picked a piece in which a character
  // decodes to NUL.
  datatype Outcome = Limit | Sentence | NulCharacter | Failed

  method HasNul(cps: seq<nat>) returns (has: bool)
    ensures has <==> 0 in cps
  {
    has := false;
    for i := 0 to |cps|
      invariant has <==> 0 in cps[..i]
    {
      assert cps[..i + 1] == cps[..i] + [cps[i]];
      has := has || cps[i] == 0;
    }
    assert cps[..|cps|] == cps;
  }

  // A token that the mask lets through is committed without an exception and without an abort.
  lemma UnmaskedIsAccepted(g: Rules, before: seq<Stack>, t: TokenData, partial: Partial, after: seq<Stack>)
    requires WfRules(g) && CharactersOnly(g) && AllSettled(g, before) && IsPartial(partial)
    requires t.piece != [] && t.piece[0] != 0
    requires Decode(t.piece, partial).0 != [] && 0 !in Points(Decode(t.piece, partial))
    requires WfCandidate(CandidateOf(0, t.id, t.piece, partial)) && SomeKeeps(g, before, CandidateOf(0, t.id, t.piece, partial))
    requires TokenStep(g, before, t.id, Points(Decode(t.piece, partial)), after)
    ensures after != []
  {
    MaskDecidesAccept(g, before, 0, t.id, t.piece, partial, after);
  }

  // What a turn leaves behind: the stacks of the grammar and its pending bytes.
  datatype Moment = Moment(stacks: seq<Stack>, partial: Partial)

  // The code points that committing t adds to the text.
  function Adds(m: Moment, t: TokenData): seq<nat> {
    Points(Decode(t.piece, m.partial))
  }

  // A turn that goes on.  A proposal is taken exactly if the mask lets it through; then it is committed,
  // otherwise nothing changes.
  ghost predicate TurnStep(g: Rules, before: Moment, t: TokenData, taken: bool, after: Moment) {
    && IsPartial(before.partial)
    && (taken <==> LetThrough(g, before.stacks, before.partial, t))
    && if taken then
         && !t.isEog && 0 !in Adds(before, t)
         && after.partial == Decode(t.piece, before.partial).1
         && TokenStep(g, before.stacks, t.id, Adds(before, t), after.stacks)
       else after == before
  }

  // A proposal that the mask lets through is committed without an exception and without an abort.
  method Commit(grammar: LlamaGrammar, t: TokenData, ghost text: seq<nat>) returns (ended: bool)
    requires grammar.Valid() && CharactersOnly(grammar.rules)
    requires Knows(grammar.rules, grammar.start, grammar.stacks, text)
    requires LetThrough(grammar.rules, grammar.stacks, grammar.partial, t)
    requires !t.isEog ==> 0 !in Adds(Moment(grammar.stacks, grammar.partial), t)
    modifies grammar
    ensures ended == t.isEog && grammar.Valid()
    ensures ended ==> grammar.stacks == old(grammar.stacks) && grammar.partial == old(grammar.partial) && [] in grammar.stacks
    ensures !ended ==>
      && grammar.stacks != [] && grammar.partial == Decode(t.piece, old(grammar.partial)).1
      && TokenStep(grammar.rules, old(grammar.stacks), t.id, Points(Decode(t.piece, old(grammar.partial))), grammar.stacks)
      && Knows(grammar.rules, grammar.start, grammar.stacks, text + Points(Decode(t.piece, old(grammar.partial))))
  {
    ghost var stacks, partial := grammar.stacks, grammar.partial;
    DecodedPartial(t.piece, partial);
    var r;
    ghost var text';
    r, text' := AcceptImpl(grammar, t, text);
    if !t.isEog {
      UnmaskedIsAccepted(grammar.rules, stacks, t, partial, grammar.stacks);
    }
    ended := r == Finished;
  }

  // One turn: the proposal is looked up in the mask and, if it is let through, committed.
  method Turn(grammar: LlamaGrammar, t: TokenData, masked: bool, ghost text: seq<nat>) returns (outcome: Outcome)
    requires grammar.Valid() && CharactersOnly(grammar.rules) && grammar.stacks != []
    requires Knows(grammar.rules, grammar.start, grammar.stacks, text)
    requires !masked <==> LetThrough(grammar.rules, grammar.stacks, grammar.partial, t)
    modifies grammar
    ensures outcome != Failed && grammar.Valid() && grammar.stacks != []
    ensures var before, after := Moment(old(grammar.stacks), old(grammar.partial)), Moment(grammar.stacks, grammar.partial);
      && (outcome == Limit ==>
            && TurnStep(grammar.rules, before, t, !masked, after)
            && Knows(grammar.rules, grammar.start, after.stacks, if masked then text else text + Adds(before, t)))
      && (outcome == Sentence ==> after == before && t.isEog && [] in after.stacks)
      && (outcome == NulCharacter ==> after == before && !t.isEog && !masked && 0 in Adds(before, t))
  {
    if masked {
      return Limit;
    }
    DecodedPartial(t.piece, grammar.partial);
    var decoded, _ := DecodeUtf8(t.piece, grammar.partial);
    var nul := HasNul(decoded[..|decoded| - 1]);
    if !t.isEog && nul {
      return NulCharacter;
    }
    var ended := Commit(grammar, t, text);
    outcome := if ended then Sentence else Limit;
  }

  // ---------- a whole generation ----------

  // The entry that the sampler proposes in turn j.
  function Proposal(vocab: seq<TokenData>, pick: nat -> nat, j: nat): TokenData
    requires vocab != []
  {
    vocab[pick(j) % |vocab|]
  }

  // The pieces of the proposals that were taken.
  function TakenPieces(vocab: seq<TokenData>, pick: nat -> nat, taken: seq<bool>): seq<seq<Byte>>
    requires vocab != []
  {
    if taken == [] then []
    else
      var n := |taken| - 1;
      TakenPieces(vocab, pick, taken[..n]) + if taken[n] then [Proposal(vocab, pick, n).piece] else []
  }

  // trace holds the moments before, between and after the turns.
  ghost predicate Turns(g: Rules, vocab: seq<TokenData>, pick: nat -> nat, taken: seq<bool>, trace: seq<Moment>)
    requires vocab != []
  {
    && |trace| == |taken| + 1
    && forall j: nat :: j < |taken| ==> TurnStep(g, trace[j], Proposal(vocab, pick, j), taken[j], trace[j + 1])
  }

  lemma TurnsOn(g: Rules, vocab: seq<TokenData>, pick: nat -> nat, taken: seq<bool>, trace: seq<Moment>,
                took: bool, after: Moment)
    requires vocab != [] && Turns(g, vocab, pick, taken, trace)
    requires TurnStep(g, trace[|taken|], Proposal(vocab, pick, |taken|), took, after)
    ensures Turns(g, vocab, pick, taken + [took], trace + [after])
  {
    var more, longer := taken + [took], trace + [after];
    forall j: nat | j < |more| ensures TurnStep(g, longer[j], Proposal(vocab, pick, j), more[j], longer[j + 1]) {
      assert j < |taken| ==> TurnStep(g, trace[j], Proposal(vocab, pick, j), taken[j], trace[j + 1]);
    }
  }

  // The text so far and the bytes that are pending.
  function Written(vocab: seq<TokenData>, pick: nat -> nat, taken: seq<bool>, start: Partial): (seq<nat>, Partial)
    requires vocab != []
  {
    DecodePieces(TakenPieces(vocab, pick, taken), start)
  }

  lemma WrittenOn(vocab: seq<TokenData>, pick: nat -> nat, taken: seq<bool>, took: bool, start: Partial)
    requires vocab != []
    ensures var r := Written(vocab, pick, taken, start);
            var d := Decode(Proposal(vocab, pick, |taken|).piece, r.1);
            Written(vocab, pick, taken + [took], start) == if took then (r.0 + d.0[..|d.0| - 1], d.1) else r
  {
    assert (taken + [took])[..|taken|] == taken;
    var pieces := TakenPieces(vocab, pick, taken);
    if took {
      DecodeOneMore(pieces, Proposal(vocab, pick, |taken|).piece, start);
    } else {
      assert pieces + [] == pieces;
    }
  }

  // What holds between the turns of a generation that began at first.
  ghost predicate Running(g: Rules, start: nat, vocab: seq<TokenData>, pick: nat -> nat, first: Moment,
                          taken: seq<bool>, trace: seq<Moment>, now: Moment)
    requires vocab != []
  {
    && Turns(g, vocab, pick, taken, trace) && trace[0] == first && trace[|taken|] == now
    && Written(vocab, pick, taken, first.partial).1 == now.partial
    && Knows(g, start, now.stacks, Written(vocab, pick, taken, first.partial).0)
  }

  lemma RunningOn(g: Rules, start: nat, vocab: seq<TokenData>, pick: nat -> nat, first: Moment,
                  taken: seq<bool>, trace: seq<Moment>, now: Moment, took: bool, next: Moment)
    requires vocab != [] && Running(g, start, vocab, pick, first, taken, trace, now)
    requires TurnStep(g, now, Proposal(vocab, pick, |taken|), took, next)
    requires var text := Written(vocab, pick, taken, first.partial).0;
             Knows(g, start, next.stacks, if took then text + Adds(now, Proposal(vocab, pick, |taken|)) else text)
    ensures Running(g, start, vocab, pick, first, taken + [took], trace + [next], next)
  {
    WrittenOn(vocab, pick, taken, took, first.partial);
    TurnsOn(g, vocab, pick, taken, trace, took, next);
  }

  // Mask the vocabulary and take the turn of the entry that the sampler proposes.
  method NextTurn(grammar: LlamaGrammar, vocab: seq<TokenData>, pick: nat -> nat, ghost first: Moment,
                  taken: seq<bool>, ghost trace: seq<Moment>)
    returns (outcome: Outcome, took: bool)
    requires grammar.Valid() && CharactersOnly(grammar.rules) && grammar.stacks != [] && vocab != []
    requires Running(grammar.rules, grammar.start, vocab, pick, first, taken, trace, Moment(grammar.stacks, grammar.partial))
    modifies grammar
    ensures outcome != Failed && grammar.Valid() && grammar.stacks != []
    ensures outcome == Limit ==>
      Running(grammar.rules, grammar.start, vocab, pick, first, taken + [took],
              trace + [Moment(grammar.stacks, grammar.partial)], Moment(grammar.stacks, grammar.partial))
    ensures outcome != Limit ==> grammar.stacks == old(grammar.stacks) && grammar.partial == old(grammar.partial)
    ensures outcome == Sentence ==> Proposal(vocab, pick, |taken|).isEog && [] in grammar.stacks
    ensures outcome == NulCharacter ==>
      var t := Proposal(vocab, pick, |taken|);
      && !t.isEog && LetThrough(grammar.rules, grammar.stacks, grammar.partial, t)
      && 0 in Adds(Moment(grammar.stacks, grammar.partial), t)
  {
    ghost var now := Moment(grammar.stacks, grammar.partial);
    var k := pick(|taken|) % |vocab|;
    var masked := grammar.Apply(vocab);
    took := !masked[k];
    outcome := Turn(grammar, vocab[k], masked[k], Written(vocab, pick, taken, first.partial).0);
    if outcome == Limit {
      RunningOn(grammar.rules, grammar.start, vocab, pick, first, taken, trace, now, took,
                Moment(grammar.stacks, grammar.partial));
    }
  }

  /**
   A generation of any length, over any vocabulary and with any sampler.  taken says of every turn whether
   its proposal was let through and committed.  As long as no such piece has a NUL character in it, no
   exception and no abort is reached.  The stacks always know the text of the committed pieces, and when
   the sampler ends the generation that text is a sentence of the grammar.
   */
  method Generate(grammar: LlamaGrammar, vocab: seq<TokenData>, pick: nat -> nat, limit: nat)
    returns (outcome: Outcome, taken: seq<bool>, ghost trace: seq<Moment>)
    requires grammar.Valid() && CharactersOnly(grammar.rules) && grammar.stacks != [] && vocab != []
    requires Tracks(grammar.rules, grammar.start, grammar.stacks, [])
    modifies grammar
    ensures outcome != Failed && |taken| <= limit && (outcome == Limit <==> |taken| == limit)
    ensures Turns(grammar.rules, vocab, pick, taken, trace)
    ensures trace[0] == Moment(old(grammar.stacks), old(grammar.partial))
    ensures trace[|taken|] == Moment(grammar.stacks, grammar.partial)
    ensures grammar.partial == Written(vocab, pick, taken, old(grammar.partial)).1
    ensures Knows(grammar.rules, grammar.start, grammar.stacks, Written(vocab, pick, taken, old(grammar.partial)).0)
    ensures outcome == Sentence ==>
      && Proposal(vocab, pick, |taken|).isEog
      && InLang(grammar.rules, [Ref(grammar.start)], Written(vocab, pick, taken, old(grammar.partial)).0)
    ensures outcome == NulCharacter ==>
      var t := Proposal(vocab, pick, |taken|);
      !t.isEog && LetThrough(grammar.rules, grammar.stacks, grammar.partial, t) && 0 in Adds(trace[|taken|], t)
  {
    ghost var first := Moment(grammar.stacks, grammar.partial);
    taken, trace := [], [first];
    TracksKnows(grammar.rules, grammar.start, grammar.stacks, []);
    for step := 0 to limit
      invariant grammar.Valid() && grammar.stacks != [] && |taken| == step
      invariant Running(grammar.rules, grammar.start, vocab, pick, first, taken, trace, Moment(grammar.stacks, grammar.partial))
    {
      var took;
      outcome, took := NextTurn(grammar, vocab, pick, first, taken, trace);
      if outcome != Limit {
        return;
      }
      taken, trace := taken + [took], trace + [Moment(grammar.stacks, grammar.partial)];
    }
    outcome := Limit;
  }

  /**
   From a grammar text to a finished generation: what the sampler ends is a text that the definitions
   mean by the root name.
   */
  method GenerateByText(names: Vocab, t: string, root: string, vocab: seq<TokenData>, pick: nat -> nat, limit: nat)
    returns (outcome: Outcome, taken: seq<bool>, ghost trace: seq<Moment>)
    requires IsName(root) && vocab != []
    requires Accepted(names, t) ==>
               var st := RulesOf(names, t);
               && (root in st.ids ==> root in Overlay(map[], DefsOf(names, t))
                                      && (PassesCheck(st.rules) ==> WorksFrom(st.rules, st.ids[root])))
               && CharactersOnly(st.rules)
    ensures outcome == Failed <==>
      !(Accepted(names, t) && root in RulesOf(names, t).ids && PassesCheck(RulesOf(names, t).rules))
    ensures outcome != Failed ==>
      && Turns(RulesOf(names, t).rules, vocab, pick, taken, trace) && trace[0].partial == NoPartial
      && Tracks(RulesOf(names, t).rules, RulesOf(names, t).ids[root], trace[0].stacks, [])
      && |taken| <= limit && (outcome == Limit <==> |taken| == limit)
    ensures outcome == Sentence ==>
      && Proposal(vocab, pick, |taken|).isEog
      && Denotes(Overlay(map[], DefsOf(names, t)), Item.Name(root), Written(vocab, pick, taken, NoPartial).0)
  {
    var grammar := InitText(names, t, root);
    if grammar == null {
      return Failed, [], [];
    }
    outcome, taken, trace := Generate(grammar, vocab, pick, limit);
    if outcome == Sentence {
      ReadTextGood(names, t);
      ParsePreservesMeaning(DefsOf(names, t), root, Written(vocab, pick, taken, NoPartial).0);
    }
  }
}
