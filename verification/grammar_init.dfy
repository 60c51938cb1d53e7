/**
 `llama_grammar_init_impl` and what the grammar object guarantees over a whole run: text that arrives
 in arbitrary pieces of bytes is accepted exactly by the language of the root rule.
 */
module GrammarInit {
  import opened GrammarRules
  import opened GrammarLanguage
  import opened GrammarTermination
  import opened GrammarState
  import opened Grammar
  import opened LeftRecursion
  import opened Utf8

  predicate ReferencesDefined(g: Rules) {
    forall r, i :: 0 <= r < |g| && 0 <= i < |g[r]| && g[r][i].typ.RuleRef? ==> g[r][i].value < |g|
  }

  predicate AllWellFormed(g: Rules) {
    forall r :: 0 <= r < |g| ==> WfRule(g[r])
  }

  // Validation of the references.
  method CheckReferences(g: Rules) returns (ok: bool)
    ensures ok == ReferencesDefined(g)
  {
    for r := 0 to |g|
      invariant forall q, i :: 0 <= q < r && 0 <= i < |g[q]| && g[q][i].typ.RuleRef? ==> g[q][i].value < |g|
    {
      for i := 0 to |g[r]|
        invariant forall j :: 0 <= j < i && g[r][j].typ.RuleRef? ==> g[r][j].value < |g|
      {
        if g[r][i].typ.RuleRef? && g[r][i].value >= |g| {
          return false;
        }
      }
    }
    ok := true;
  }

  /**
   llama_grammar_init_impl.  The caller guarantees that the left-recursion check is conclusive: the
   machine works on the rules that the start rule uses if the check is clean.  Null is returned exactly for an undefined reference
   or a left-recursive grammar.
   */
  method Init(rules: Rules, start: nat) returns (grammar: LlamaGrammar?)
    requires AllWellFormed(rules) && start < |rules|
    requires ReferencesDefined(rules) && PassesCheck(rules) ==> WorksFrom(rules, start)
    ensures grammar == null <==> !(ReferencesDefined(rules) && PassesCheck(rules))
    ensures grammar != null ==>
              fresh(grammar) && grammar.Valid() && grammar.rules == rules && grammar.start == start
              && grammar.partial == NoPartial && Tracks(rules, start, grammar.stacks, []) && grammar.stacks != []
  {
    var ok := CheckReferences(rules);
    if !ok {
      return null;
    }
    var found := DetectAll(rules);
    if found {
      return null;
    }
    grammar := new LlamaGrammar(rules, start);
  }

  // ---------- whole runs ----------

  // trace holds the stacks before, between and after the pieces that accept_str was given.
  ghost predicate StrRun(g: Rules, trace: seq<seq<Stack>>, p: Partial, pieces: seq<seq<Byte>>)
    requires |trace| == |pieces| + 1
    decreases |pieces|
  {
    pieces == [] || (
      && Decode(pieces[0], p).0 != []
      && StacksRun(g, trace[0], Points(Decode(pieces[0], p)), trace[1])
      && StrRun(g, trace[1..], Decode(pieces[0], p).1, pieces[1..]))
  }

  lemma {:induction false} StrRunTracks(g: Rules, start: nat, trace: seq<seq<Stack>>, p: Partial, pieces: seq<seq<Byte>>, text: seq<nat>)
    requires WfRules(g) && |trace| == |pieces| + 1 && StrRun(g, trace, p, pieces)
    requires AllSettled(g, trace[0]) && Tracks(g, start, trace[0], text)
    ensures AllSettled(g, trace[|pieces|]) && Tracks(g, start, trace[|pieces|], text + DecodePieces(pieces, p).0)
    decreases |pieces|
  {
    if pieces == [] {
      assert text + [] == text;
    } else {
      var cps, q := Points(Decode(pieces[0], p)), Decode(pieces[0], p).1;
      StacksRunLanguage(g, trace[0], cps, trace[1], []);
      TracksOn(g, start, trace[0], text, cps, trace[1]);
      StrRunTracks(g, start, trace[1..], q, pieces[1..], text + cps);
      assert trace[1..][|pieces[1..]|] == trace[|pieces|];
      ConcatAssociates(text, cps, DecodePieces(pieces[1..], q).0);
    }
  }

  /**
   The engine accepts its language.  Start from the initial stacks and give accept_str the encoded text
   in any pieces: afterwards the stacks accept exactly what completes the text to a sentence, and the
   text is itself a sentence exactly if some stack is empty, which is when end-of-generation is allowed.
   */
  lemma TextTheorem(g: Rules, start: nat, trace: seq<seq<Stack>>, pieces: seq<seq<Byte>>, text: seq<nat>)
    requires WfRules(g) && |trace| == |pieces| + 1 && StrRun(g, trace, NoPartial, pieces)
    requires AllSettled(g, trace[0]) && Tracks(g, start, trace[0], [])
    requires IsText(text) && Flatten(pieces) == EncodeAll(text)
    ensures forall w :: StacksAccept(g, trace[|pieces|], w) <==> InLang(g, [Ref(start)], text + w)
    ensures [] in trace[|pieces|] <==> InLang(g, [Ref(start)], text)
  {
    StrRunTracks(g, start, trace, NoPartial, pieces, []);
    CutsDoNotMatter(text, pieces, NoPartial);
    assert [] + text == text;
    CompleteIffEmptyStack(g, start, trace[|pieces|], text);
  }
}
