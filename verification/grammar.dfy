/**
 The grammar object of llama-grammar.h.  Its stacks start from the root rule, move forward with every
 accepted code point or piece, and decide which tokens may come next.
 */
module Grammar {
  import opened GrammarRules
  import opened GrammarLanguage
  import opened GrammarMachine
  import opened GrammarTermination
  import opened GrammarState
  import opened GrammarCandidates
  import opened CharClass
  import opened Utf8

  // ---------- initial stacks ----------

  // t is a stack reached from an alternate of the start rule that begins before index n.
  ghost predicate InitialFrom(g: Rules, start: nat, n: nat, t: Stack) {
    exists a: nat :: a < n && AdvancesFromAlt(g, start, a, t)
  }

  ghost predicate AdvancesFromAlt(g: Rules, start: nat, a: nat, t: Stack) {
    start < |g| && IsAltStart(g[start], a) && IsBoundary(g, Pos(start, a)) && Advances(g, Push(g, [], Pos(start, a)), t)
  }

  lemma InitialNext(g: Rules, start: nat, m: nat, n: nat, s: Stack, t: Stack)
    requires WfRules(g) && start < |g| && m < n && IsAltStart(g[start], m) && IsBoundary(g, Pos(start, m))
    requires forall a: nat :: m < a < n ==> !IsAltStart(g[start], a)
    requires s == Push(g, [], Pos(start, m))
    ensures InitialFrom(g, start, n, t) <==> InitialFrom(g, start, m, t) || Advances(g, s, t)
  {
    assert AdvancesFromAlt(g, start, m, t) <==> Advances(g, s, t);
    if a: nat :| a < n && AdvancesFromAlt(g, start, a, t) {
      assert IsAltStart(g[start], a) && a <= m;
    }
  }

  // The loop over the alternates of the start rule in llama_grammar_init_impl.
  method InitialStacks(g: Rules, start: nat, ghost used: set<nat>) returns (stacks: seq<Stack>)
    requires Workable(g, used) && start in used && start < |g|
    ensures forall t :: t in stacks <==> InitialFrom(g, start, |g[start]|, t)
    ensures NoDuplicates(stacks)
  {
    stacks := [];
    var pos := 0;
    while true
      invariant IsAltStart(g[start], pos)
      invariant forall t :: t in stacks <==> InitialFrom(g, start, pos, t)
      invariant NoDuplicates(stacks)
      decreases |g[start]| - pos
    {
      ghost var from := pos;
      AltStartIsBoundary(g, start, pos);
      var stack := if IsEndOfSequence(g[start][pos]) then [] else [Pos(start, pos)];
      assert stack == Push(g, [], Pos(start, pos));
      stacks := AdvanceWithin(g, stack, stacks, used);
      pos := ScanToEnd(g[start], pos);
      forall t ensures InitialFrom(g, start, pos + 1, t) <==> InitialFrom(g, start, from, t) || Advances(g, stack, t) {
        InitialNext(g, start, from, pos + 1, stack, t);
      }
      if !g[start][pos].typ.Alt? {
        return;
      }
      AltFollows(g[start], pos);
      pos := pos + 1;
    }
  }

  // There is always an initial stack.
  lemma InitialNotEmpty(g: Rules, start: nat, used: set<nat>, stacks: seq<Stack>)
    requires Workable(g, used) && start in used && start < |g|
    requires forall t :: t in stacks <==> InitialFrom(g, start, |g[start]|, t)
    ensures stacks != []
  {
    AltStartIsBoundary(g, start, 0);
    var s := Push(g, [], Pos(start, 0));
    assert SettlesOn(g, s);
    var t :| Advances(g, s, t);
    assert AdvancesFromAlt(g, start, 0, t);
    assert InitialFrom(g, start, |g[start]|, t);
  }

  lemma InitialWithin(g: Rules, start: nat, used: set<nat>, stacks: seq<Stack>)
    requires ClosedScope(g, used) && start in used && start < |g|
    requires forall t :: t in stacks <==> InitialFrom(g, start, |g[start]|, t)
    ensures AllIn(used, stacks)
  {
    forall t | t in stacks ensures StaysIn(used, t) {
      var a: nat :| a < |g[start]| && AdvancesFromAlt(g, start, a, t);
      AltStaysWithin(g, start, used, a, t);
    }
  }

  lemma AltStaysWithin(g: Rules, start: nat, used: set<nat>, a: nat, t: Stack)
    requires ClosedScope(g, used) && start in used && AdvancesFromAlt(g, start, a, t)
    ensures StaysIn(used, t)
  {
    AdvanceStaysWithin(g, used, Push(g, [], Pos(start, a)), t);
  }

  lemma AltStackLanguage(g: Rules, start: nat, a: nat, w: seq<nat>)
    requires WfRules(g) && start < |g| && IsAltStart(g[start], a)
    ensures InLang(g, Syms(g[start][a..]) + [], w)
            <==> exists t :: AdvancesFromAlt(g, start, a, t) && InLang(g, Form(g, t), w)
  {
    AltStartIsBoundary(g, start, a);
    var s := Push(g, [], Pos(start, a));
    FormOfPush(g, [], Pos(start, a));
    AdvanceLanguage(g, s, w);
  }

  // The initial stacks accept exactly the language of the start rule.
  lemma InitialLanguage(g: Rules, start: nat, stacks: seq<Stack>, w: seq<nat>)
    requires WfRules(g) && start < |g|
    requires forall t :: t in stacks <==> InitialFrom(g, start, |g[start]|, t)
    ensures StacksAccept(g, stacks, w) <==> InLang(g, [Ref(start)], w)
  {
    assert [Ref(start)] + [] == [Ref(start)];
    RefLanguage(g, start, [], w);
    if StacksAccept(g, stacks, w) {
      var t :| t in stacks && ValidStack(g, t) && InLang(g, Form(g, t), w);
      InitialSound(g, start, t, w);
    }
    if a: nat :| IsAltStart(g[start], a) && InLang(g, Syms(g[start][a..]) + [], w) {
      var t := InitialComplete(g, start, a, w);
      assert t in stacks;
    }
  }

  lemma AltOfAdvance(g: Rules, start: nat, a: nat, t: Stack)
    requires AdvancesFromAlt(g, start, a, t)
    ensures start < |g| && IsAltStart(g[start], a)
  {}

  lemma InitialSound(g: Rules, start: nat, t: Stack, w: seq<nat>)
    requires WfRules(g) && start < |g| && InitialFrom(g, start, |g[start]|, t) && InLang(g, Form(g, t), w)
    ensures exists a: nat :: IsAltStart(g[start], a) && InLang(g, Syms(g[start][a..]) + [], w)
  {
    var a: nat :| a < |g[start]| && AdvancesFromAlt(g, start, a, t);
    AltOfAdvance(g, start, a, t);
    AltStackLanguage(g, start, a, w);
  }

  lemma InitialComplete(g: Rules, start: nat, a: nat, w: seq<nat>) returns (t: Stack)
    requires WfRules(g) && start < |g| && IsAltStart(g[start], a) && InLang(g, Syms(g[start][a..]) + [], w)
    ensures InitialFrom(g, start, |g[start]|, t) && ValidStack(g, t) && InLang(g, Form(g, t), w)
  {
    AltStackLanguage(g, start, a, w);
    t :| AdvancesFromAlt(g, start, a, t) && InLang(g, Form(g, t), w);
  }

  // ---------- the object ----------

  // A vocabulary entry offered by the sampler.
  datatype TokenData = TokenData(id: nat, isEog: bool, piece: seq<Byte>)

  // Code points of a decoded piece without the terminator.
  function Points(decoded: (seq<nat>, Partial)): seq<nat>
    requires decoded.0 != []
  {
    decoded.0[..|decoded.0| - 1]
  }

  // The candidate that a piece becomes while partial is pending.
  function CandidateOf(index: nat, id: nat, piece: seq<Byte>, partial: Partial): Candidate {
    var d := Decode(piece, partial);
    Candidate(index, d.0, 0, d.1, id)
  }

  // The text has been consumed: the stacks accept exactly what may follow it.
  ghost predicate Tracks(g: Rules, start: nat, stacks: seq<Stack>, text: seq<nat>) {
    forall w :: StacksAccept(g, stacks, w) <==> InLang(g, [Ref(start)], text + w)
  }

  lemma TracksOn(g: Rules, start: nat, before: seq<Stack>, text: seq<nat>, cps: seq<nat>, after: seq<Stack>)
    requires WfRules(g) && AllSettled(g, before) && StacksRun(g, before, cps, after)
    requires Tracks(g, start, before, text)
    ensures Tracks(g, start, after, text + cps)
  {
    forall w ensures StacksAccept(g, after, w) <==> InLang(g, [Ref(start)], (text + cps) + w) {
      StacksRunLanguage(g, before, cps, after, w);
      ConcatAssociates(text, cps, w);
    }
  }

  // With nothing more to come, the text is a complete sentence exactly if some stack is empty.
  lemma CompleteIffEmptyStack(g: Rules, start: nat, stacks: seq<Stack>, text: seq<nat>)
    requires WfRules(g) && AllSettled(g, stacks) && Tracks(g, start, stacks, text)
    ensures [] in stacks <==> InLang(g, [Ref(start)], text)
  {
    assert text + [] == text;
    assert StacksAccept(g, stacks, []) <==> InLang(g, [Ref(start)], text + []);
    EmptyFormLanguage(g, []);
    if s :| s in stacks && ValidStack(g, s) && InLang(g, Form(g, s), []) {
      if s != [] { TerminalNeedsInput(g, s); }
    }
  }

  lemma TerminalNeedsInput(g: Rules, s: Stack)
    requires WfRules(g) && Settled(g, s) && s != []
    ensures !InLang(g, Form(g, s), [])
  {
    SettledTop(g, s);
    FormSplitsTop(g, s);
    forall d ensures !(Parses(g, Form(g, s), d) && Yield(d) == []) {
      assert Form(g, s)[0] == TopSym(g, s);
    }
  }

  // after holds exactly what accept_token leaves: empty stacks are dropped, a token terminal on top
  // takes the whole token, every other stack runs over the code points of the piece.
  ghost predicate TokenStep(g: Rules, before: seq<Stack>, id: nat, cps: seq<nat>, after: seq<Stack>) {
    forall t :: t in after <==> exists s :: s in before && TakesToken(g, s, id, cps, t)
  }

  ghost predicate TakesToken(g: Rules, s: Stack, id: nat, cps: seq<nat>, t: Stack) {
    && WfRules(g) && Settled(g, s) && s != []
    && if IsTokenElem(TopElem(g, s)) then MatchToken(TopElem(g, s), id) && Advances(g, After(g, s), t)
       else RunsTo(g, s, cps, t)
  }

  lemma TokenStaysWithin(g: Rules, used: set<nat>, before: seq<Stack>, id: nat, cps: seq<nat>, after: seq<Stack>)
    requires ClosedScope(g, used) && AllIn(used, before) && TokenStep(g, before, id, cps, after)
    ensures AllIn(used, after)
  {
    forall t | t in after ensures StaysIn(used, t) {
      var s :| s in before && TakesToken(g, s, id, cps, t);
      if IsTokenElem(TopElem(g, s)) {
        AfterStaysWithin(g, used, s);
        AdvanceStaysWithin(g, used, After(g, s), t);
      } else {
        var route :| RunsBy(g, s, cps, route, t);
        RouteStaysWithin(g, used, s, cps, route, t);
      }
    }
  }

  lemma DecodedPartial(piece: seq<Byte>, start: Partial)
    requires IsPartial(start)
    ensures IsPartial(Decode(piece, start).1)
    ensures Decode(piece, start).0 != [] && Decode(piece, start).0[|Decode(piece, start).0| - 1] == 0
  {
    FeedKeepsBounds(Start(start), piece);
  }

  lemma {:induction false} FeedKeepsBounds(m: Mode, src: seq<Byte>)
    requires m.Reading? ==> -1 <= m.n <= 3
    ensures FeedAll(m, src).Reading? ==> -1 <= FeedAll(m, src).n <= 3
    decreases |src|
  {
    if src != [] && src[0] != 0 && !m.Invalid? { FeedKeepsBounds(Feed(m, src[0]), src[1..]); }
  }

  // The machine works on some rules that hold the start rule and everything the stacks can come to.
  ghost predicate Serves(g: Rules, start: nat, stacks: seq<Stack>) {
    exists used: set<nat> :: start in used && Workable(g, used) && AllIn(used, stacks)
  }

  lemma ScopeOf(g: Rules, start: nat, stacks: seq<Stack>) returns (used: set<nat>)
    requires Serves(g, start, stacks)
    ensures start in used && Workable(g, used) && AllIn(used, stacks)
  {
    used :| start in used && Workable(g, used) && AllIn(used, stacks);
  }

  predicate HasNoText(piece: seq<Byte>) {
    piece == [] || piece[0] == 0
  }

  // What the mask of a grammar with these stacks and pending bytes lets through.
  ghost predicate LetThrough(g: Rules, stacks: seq<Stack>, partial: Partial, t: TokenData)
    requires IsPartial(partial)
  {
    DecodedPartial(t.piece, partial);
    if t.isEog then [] in stacks
    else !HasNoText(t.piece) && SomeKeeps(g, stacks, CandidateOf(0, t.id, t.piece, partial))
  }

  // The code points of a piece, without the terminator, and the bytes that are pending afterwards.
  method DecodePiece(piece: seq<Byte>, partial: Partial) returns (cps: seq<nat>, p: Partial)
    requires IsPartial(partial)
    ensures Decode(piece, partial).0 != [] && cps == Points(Decode(piece, partial))
    ensures p == Decode(piece, partial).1 && IsPartial(p)
  {
    DecodedPartial(piece, partial);
    var codePoints;
    codePoints, p := DecodeUtf8(piece, partial);
    cps := codePoints[..|codePoints| - 1];
  }

  class LlamaGrammar {
    const rules: Rules
    const start: nat
    var stacks: seq<Stack>
    var partial: Partial

    ghost predicate Valid()
      reads this
    {
      && WfRules(rules) && start < |rules| && Serves(rules, start, stacks)
      && AllSettled(rules, stacks) && NoDuplicates(stacks) && IsPartial(partial)
    }

    constructor (rules: Rules, start: nat)
      requires WorksFrom(rules, start)
      ensures Valid() && this.rules == rules && this.start == start && partial == NoPartial
      ensures Tracks(rules, start, stacks, []) && stacks != []
    {
      this.rules := rules;
      this.start := start;
      this.partial := NoPartial;
      ghost var used: set<nat> :| start in used && Workable(rules, used);
      var initial := InitialStacks(rules, start, used);
      stacks := initial;
      new;
      InitialNotEmpty(rules, start, used, stacks);
      InitialWithin(rules, start, used, stacks);
      forall w ensures StacksAccept(rules, stacks, w) <==> InLang(rules, [Ref(start)], [] + w) {
        InitialLanguage(rules, start, stacks, w);
        assert [] + w == w;
      }
      forall t | t in stacks ensures Settled(rules, t) {
        var a: nat :| AdvancesFromAlt(rules, start, a, t);
      }
    }

    // llama_grammar_accept
    method Accept(chr: nat)
      requires Valid()
      modifies this
      ensures Valid() && partial == old(partial)
      ensures StacksRun(rules, old(stacks), [chr], stacks)
      ensures forall text :: Tracks(rules, start, old(stacks), text) ==> Tracks(rules, start, stacks, text + [chr])
    {
      ghost var used := ScopeOf(rules, start, stacks);
      stacks := AcceptOnAll(rules, stacks, chr, used);
      RunStaysWithin(rules, used, old(stacks), [chr], stacks);
      forall text | Tracks(rules, start, old(stacks), text) ensures Tracks(rules, start, stacks, text + [chr]) {
        TracksOn(rules, start, old(stacks), text, [chr], stacks);
      }
    }

    // llama_grammar_accept_str; false stands for the exception thrown when no stack survives.
    method AcceptStr(piece: seq<Byte>) returns (ok: bool)
      requires Valid()
      modifies this
      ensures Valid() && partial == Decode(piece, old(partial)).1
      ensures Decode(piece, old(partial)).0 != []
      ensures StacksRun(rules, old(stacks), Points(Decode(piece, old(partial))), stacks)
      ensures forall text :: Tracks(rules, start, old(stacks), text) ==>
                               Tracks(rules, start, stacks, text + Points(Decode(piece, old(partial))))
      ensures ok == (stacks != [])
    {
      ghost var cps := Points(Decode(piece, partial));
      stacks, partial := RunPiece(rules, start, stacks, piece, partial);
      ok := stacks != [];
      forall text | Tracks(rules, start, old(stacks), text) ensures Tracks(rules, start, stacks, text + cps) {
        TracksOn(rules, start, old(stacks), text, cps, stacks);
      }
    }

    // llama_grammar_accept_token; false stands for the exception thrown when no stack survives.
    method AcceptToken(id: nat, piece: seq<Byte>) returns (ok: bool)
      requires Valid()
      modifies this
      ensures Valid() && partial == Decode(piece, old(partial)).1
      ensures Decode(piece, old(partial)).0 != []
      ensures TokenStep(rules, old(stacks), id, Points(Decode(piece, old(partial))), stacks)
      ensures ok == (stacks != [])
    {
      stacks, partial := TakePiece(rules, start, stacks, id, piece, partial);
      ok := stacks != [];
    }

    // Whether an end-of-generation token may come next.
    method AllowEog() returns (allow: bool)
      requires Valid()
      ensures allow == ([] in stacks)
      ensures forall text :: Tracks(rules, start, stacks, text) ==> (allow <==> InLang(rules, [Ref(start)], text))
    {
      allow := false;
      forall text | Tracks(rules, start, stacks, text) ensures [] in stacks <==> InLang(rules, [Ref(start)], text) {
        CompleteIffEmptyStack(rules, start, stacks, text);
      }
      for i := 0 to |stacks|
        invariant !allow && [] !in stacks[..i]
      {
        assert stacks[..i + 1] == stacks[..i] + [stacks[i]];
        if stacks[i] == [] {
          return true;
        }
      }
      assert stacks[..|stacks|] == stacks;
    }

    // llama_grammar_apply_impl: masked[i] stands for setting the logit of entry i to -infinity.
    method Apply(tokens: seq<TokenData>) returns (masked: seq<bool>)
      requires Valid() && stacks != []
      ensures |masked| == |tokens|
      ensures forall i :: 0 <= i < |tokens| ==> masked[i] == !Allowed(tokens[i])
    {
      var allowEog := AllowEog();
      var candidates: seq<Candidate> := [];
      ghost var bound: nat := 0;
      masked := seq(|tokens|, _ => false);
      for i := 0 to |tokens|
        invariant |masked| == |tokens|
        invariant WfCandidates(candidates) && Within(candidates, bound)
        invariant forall k :: 0 <= k < i ==>
            masked[k] == (if tokens[k].isEog then [] !in stacks else HasNoText(tokens[k].piece))
        invariant forall k :: 0 <= k < i && IsOffered(tokens[k]) ==> Offer(k, tokens[k]) in candidates
        invariant forall c :: c in candidates ==> c.index < i && IsOffered(tokens[c.index]) && c == Offer(c.index, tokens[c.index])
      {
        var piece := tokens[i].piece;
        if tokens[i].isEog {
          masked := masked[i := !allowEog];
        } else if piece == [] || piece[0] == 0 {
          masked := masked[i := true];
        } else {
          masked := masked[i := false];
          DecodedPartial(piece, partial);
          var codePoints, p := DecodeUtf8(piece, partial);
          candidates := candidates + [Candidate(i, codePoints, 0, p, tokens[i].id)];
          bound := bound + |codePoints|;
        }
      }
      ghost var used := ScopeOf(rules, start, stacks);
      var rejects := RejectCandidates(rules, stacks, candidates, bound, used);
      ghost var before := masked;
      for i := 0 to |rejects|
        invariant |masked| == |tokens|
        invariant forall k :: 0 <= k < |tokens| ==> masked[k] == (before[k] || exists j :: 0 <= j < i && rejects[j].index == k)
      {
        assert rejects[i] in rejects;
        masked := masked[rejects[i].index := true];
      }
      forall k | 0 <= k < |tokens| ensures masked[k] == !Allowed(tokens[k]) {
        OfferDecides(tokens, candidates, rejects, k);
      }
    }

    predicate IsOffered(t: TokenData) {
      !t.isEog && !HasNoText(t.piece)
    }

    function Offer(k: nat, t: TokenData): Candidate
      reads this
    {
      CandidateOf(k, t.id, t.piece, partial)
    }

    // What the mask must let through.
    ghost predicate Allowed(t: TokenData)
      reads this
      requires Valid()
    {
      LetThrough(rules, stacks, partial, t)
    }

    lemma OfferDecides(tokens: seq<TokenData>, candidates: seq<Candidate>, rejects: seq<Candidate>, k: nat)
      requires Valid() && k < |tokens| && WfCandidates(candidates)
      requires forall i :: 0 <= i < |tokens| && IsOffered(tokens[i]) ==> Offer(i, tokens[i]) in candidates
      requires forall c :: c in candidates ==> c.index < |tokens| && IsOffered(tokens[c.index]) && c == Offer(c.index, tokens[c.index])
      requires forall c :: c in rejects <==> c in candidates && !SomeKeeps(rules, stacks, c)
      ensures IsOffered(tokens[k]) ==> ((exists j :: 0 <= j < |rejects| && rejects[j].index == k) <==> !Allowed(tokens[k]))
      ensures !IsOffered(tokens[k]) ==> !exists j :: 0 <= j < |rejects| && rejects[j].index == k
    {
      DecodedPartial(tokens[k].piece, partial);
      var c := Offer(k, tokens[k]);
      forall s ensures KeepsCandidate(rules, s, c) <==> KeepsCandidate(rules, s, Offer(0, tokens[k])) {}
      if IsOffered(tokens[k]) && !Allowed(tokens[k]) {
        assert c in rejects;
        var j :| 0 <= j < |rejects| && rejects[j] == c;
      }
      forall j | 0 <= j < |rejects| && rejects[j].index == k ensures IsOffered(tokens[k]) && rejects[j] == c {
        assert rejects[j] in rejects;
      }
    }
  }

  // accept_str on values: the piece is decoded and all stacks run over its code points.
  method RunPiece(g: Rules, ghost start: nat, stacks: seq<Stack>, piece: seq<Byte>, partial: Partial)
    returns (out: seq<Stack>, p: Partial)
    requires IsPartial(partial) && Serves(g, start, stacks) && AllSettled(g, stacks) && NoDuplicates(stacks)
    ensures Decode(piece, partial).0 != []
    ensures StacksRun(g, stacks, Points(Decode(piece, partial)), out)
    ensures Serves(g, start, out) && AllSettled(g, out) && NoDuplicates(out)
    ensures p == Decode(piece, partial).1 && IsPartial(p)
  {
    var cps;
    cps, p := DecodePiece(piece, partial);
    ghost var used := ScopeOf(g, start, stacks);
    out := AcceptSequence(g, stacks, cps, used);
    RunStaysWithin(g, used, stacks, cps, out);
  }

  // accept_token on values.
  method TakePiece(g: Rules, ghost start: nat, stacks: seq<Stack>, id: nat, piece: seq<Byte>, partial: Partial)
    returns (out: seq<Stack>, p: Partial)
    requires IsPartial(partial) && Serves(g, start, stacks) && AllSettled(g, stacks)
    ensures Decode(piece, partial).0 != []
    ensures TokenStep(g, stacks, id, Points(Decode(piece, partial)), out)
    ensures Serves(g, start, out) && AllSettled(g, out) && NoDuplicates(out)
    ensures p == Decode(piece, partial).1 && IsPartial(p)
  {
    var cps;
    cps, p := DecodePiece(piece, partial);
    out := TakeTokenOnAll(g, start, stacks, id, cps);
  }

  // The loop of accept_token over all stacks.
  method TakeTokenOnAll(g: Rules, ghost start: nat, stacks: seq<Stack>, id: nat, cps: seq<nat>) returns (out: seq<Stack>)
    requires Serves(g, start, stacks) && AllSettled(g, stacks)
    ensures TokenStep(g, stacks, id, cps, out)
    ensures Serves(g, start, out) && AllSettled(g, out) && NoDuplicates(out)
  {
    ghost var used := ScopeOf(g, start, stacks);
    out := [];
    for i := 0 to |stacks|
      invariant forall t :: t in out <==> exists s :: s in stacks[..i] && TakesToken(g, s, id, cps, t)
      invariant AllSettled(g, out) && NoDuplicates(out)
    {
      var stack := stacks[i];
      assert stacks[..i + 1] == stacks[..i] + [stack];
      if stack != [] {
        out := TakeToken(g, stack, id, cps, out, used);
      }
    }
    assert stacks[..|stacks|] == stacks;
    TokenStaysWithin(g, used, stacks, id, cps, out);
  }

  // One stack of accept_token.
  method TakeToken(g: Rules, stack: Stack, id: nat, cps: seq<nat>, newStacks: seq<Stack>, ghost used: set<nat>)
    returns (out: seq<Stack>)
    requires Workable(g, used) && Settled(g, stack) && StaysIn(used, stack) && stack != []
    requires AllSettled(g, newStacks) && NoDuplicates(newStacks)
    ensures forall t :: t in out <==> t in newStacks || TakesToken(g, stack, id, cps, t)
    ensures AllSettled(g, out) && NoDuplicates(out)
  {
    out := newStacks;
    SettledTop(g, stack);
    if IsTokenElem(TopElem(g, stack)) {
      if MatchToken(TopElem(g, stack), id) {
        var newStack := After(g, stack);
        AfterStaysWithin(g, used, stack);
        out := AdvanceWithin(g, newStack, out, used);
      }
    } else {
      var current := RunStack(g, stack, cps, used);
      assert forall t :: t in current <==> RunsTo(g, stack, cps, t) by {
        assert forall s :: s in [stack] <==> s == stack;
      }
      for i := 0 to |current|
        invariant forall t :: t in out <==> t in newStacks || t in current[..i]
        invariant NoDuplicates(out)
      {
        assert current[..i + 1] == current[..i] + [current[i]];
        out := AddIfNew(out, current[i]);
      }
      assert current[..|current|] == current;
    }
  }

  // The inner loop of accept_token: run one stack over the code points, stopping when nothing is left.
  method RunStack(g: Rules, stack: Stack, cps: seq<nat>, ghost used: set<nat>) returns (current: seq<Stack>)
    requires Workable(g, used) && Settled(g, stack) && StaysIn(used, stack)
    ensures StacksRun(g, [stack], cps, current) && AllSettled(g, current)
  {
    current := [stack];
    StacksRunNothing(g, [stack]);
    assert cps[..0] == [];
    var i := 0;
    while i < |cps|
      invariant i <= |cps|
      invariant StacksRun(g, [stack], cps[..i], current) && AllSettled(g, current)
    {
      current := NextStacks(g, stack, cps, i, current, used);
      i := i + 1;
      if current == [] {
        NothingLeft(g, stack, cps, i);
        return;
      }
    }
    assert cps[..i] == cps;
  }

  method NextStacks(g: Rules, stack: Stack, cps: seq<nat>, i: nat, current: seq<Stack>, ghost used: set<nat>)
    returns (next: seq<Stack>)
    requires Workable(g, used) && StaysIn(used, stack) && i < |cps| && StacksRun(g, [stack], cps[..i], current) && AllSettled(g, current)
    ensures StacksRun(g, [stack], cps[..i + 1], next) && AllSettled(g, next)
  {
    RunStaysWithin(g, used, [stack], cps[..i], current);
    next := AcceptOnAll(g, current, cps[i], used);
    StacksRunConcat(g, [stack], cps[..i], current, [cps[i]], next);
    assert cps[..i + 1] == cps[..i] + [cps[i]];
  }

  lemma NothingLeft(g: Rules, s: Stack, cps: seq<nat>, i: nat)
    requires i <= |cps| && StacksRun(g, [s], cps[..i], [])
    ensures StacksRun(g, [s], cps, [])
  {
    forall t ensures !RunsTo(g, s, cps, t) {
      assert cps == cps[..i] + cps[i..];
      RunsConcat(g, s, cps[..i], cps[i..], t);
      forall m ensures !RunsTo(g, s, cps[..i], m) {
        assert s in [s];
        assert m !in [];
      }
    }
  }
}
