/**
 The repetition rewrite preserves meaning: the elements and rules that `handle_repetitions` produces
 for S{m,n} generate exactly the words made of k copies of S with m <= k <= n, and without an upper
 bound those with m <= k.
 */
module GbnfRepetition {
  import opened GrammarRules
  import opened GrammarLanguage
  import opened GbnfCompile

  // ---------- segments ----------

  // Elements of whole symbols, without the end of an alternate.
  predicate GoodSeg(seg: Rule) {
    forall i :: 0 <= i < |seg| ==> !IsEndOfSequence(seg[i]) && GoodAt(seg, i)
  }

  predicate StartsSymbol(r: Rule) {
    r == [] || !IsContinuation(r[0])
  }

  lemma GoodSegStarts(seg: Rule)
    requires GoodSeg(seg)
    ensures StartsSymbol(seg)
  {}

  lemma GoodSegConcat(x: Rule, y: Rule)
    requires GoodSeg(x) && GoodSeg(y)
    ensures GoodSeg(x + y)
  {
    forall i | 0 <= i < |x + y| ensures !IsEndOfSequence((x + y)[i]) && GoodAt(x + y, i) {
      if i < |x| {
        assert GoodAt(x, i);
      } else {
        assert GoodAt(y, i - |x|) && (x + y)[i] == y[i - |x|];
        if i > |x| { assert (x + y)[i - 1] == y[i - |x| - 1]; }
      }
    }
  }

  lemma ItemConcat(x: Rule, y: Rule)
    requires x != [] && StartsSymbol(y)
    ensures ItemLen(x + y) == ItemLen(x) && ItemRange(x + y) == ItemRange(x)
    ensures (x + y)[ItemLen(x)..] == x[ItemLen(x)..] + y
  {}

  lemma {:induction false} ClassConcat(x: Rule, y: Rule)
    requires x != [] && StartsSymbol(y)
    ensures ClassLen(x + y) == ClassLen(x) && ClassRanges(x + y) == ClassRanges(x)
    decreases |x|
  {
    var k := ItemLen(x);
    ItemConcat(x, y);
    if k < |x| && x[k].typ.CharAlt? {
      assert (x + y)[k].typ.CharAlt?;
      ClassConcat(x[k..], y);
    } else {
      assert !(k < |x + y| && (x + y)[k].typ.CharAlt?);
    }
  }

  predicate NoEnds(x: Rule) {
    forall i :: 0 <= i < |x| ==> !IsEndOfSequence(x[i])
  }

  lemma ClassSymConcat(x: Rule, y: Rule)
    requires x != [] && StartsSymbol(y)
    ensures ClassLen(x + y) == ClassLen(x) && ClassSym(x + y) == ClassSym(x)
  {
    ClassConcat(x, y);
  }

  lemma DropConcat<T>(x: seq<T>, y: seq<T>, k: nat)
    requires k <= |x|
    ensures (x + y)[k..] == x[k..] + y
  {}

  lemma HeadConcat(x: Rule, y: Rule)
    requires x != [] && !IsEndOfSequence(x[0]) && StartsSymbol(y)
    ensures SymLen(x + y) == SymLen(x) && HeadSym(x + y) == HeadSym(x)
    ensures (x + y)[SymLen(x)..] == x[SymLen(x)..] + y
  {
    ClassSymConcat(x, y);
    DropConcat(x, y, SymLen(x));
  }

  lemma {:induction false} SymsConcat(x: Rule, y: Rule)
    requires NoEnds(x) && StartsSymbol(y)
    ensures Syms(x + y) == Syms(x) + Syms(y)
    decreases |x|
  {
    if x == [] {
      assert x + y == y;
    } else {
      HeadConcat(x, y);
      var k := SymLen(x);
      SymsConcat(x[k..], y);
      ConcatAssociates([HeadSym(x)], Syms(x[k..]), Syms(y));
    }
  }

  lemma SymsOfEnd(rest: Rule)
    requires rest != [] && IsEndOfSequence(rest[0])
    ensures Syms(rest) == []
  {}

  lemma SymsOfRefElem(id: nat)
    ensures Syms([RefElem(id)]) == [Ref(id)]
  {
    assert [RefElem(id)][1..] == [];
  }

  // ---------- copies ----------

  predicate AllParse(g: Rules, s: seq<Sym>, cs: seq<Parse>) {
    forall i :: 0 <= i < |cs| ==> Parses(g, s, cs[i])
  }

  predicate AllWithin(cs: seq<Parse>, n: nat) {
    forall i :: 0 <= i < |cs| ==> Size(cs[i]) <= n
  }

  function YieldAll(cs: seq<Parse>): seq<nat> {
    if cs == [] then [] else Yield(cs[0]) + YieldAll(cs[1..])
  }

  lemma {:induction false} YieldAllConcat(x: seq<Parse>, y: seq<Parse>)
    ensures YieldAll(x + y) == YieldAll(x) + YieldAll(y)
    decreases |x|
  {
    if x == [] {
      assert x + y == y;
    } else {
      ConcatTail(x, y);
      YieldAllConcat(x[1..], y);
      ConcatAssociates(Yield(x[0]), YieldAll(x[1..]), YieldAll(y));
    }
  }

  // cs are parses of s, none larger than n, that together spell w.
  predicate Copies(g: Rules, s: seq<Sym>, cs: seq<Parse>, w: seq<nat>, n: nat) {
    AllParse(g, s, cs) && AllWithin(cs, n) && YieldAll(cs) == w
  }

  lemma CopiesNone(g: Rules, s: seq<Sym>, n: nat)
    ensures Copies(g, s, [], [], n)
  {}

  lemma CopiesConcat(g: Rules, s: seq<Sym>, x: seq<Parse>, u: seq<nat>, y: seq<Parse>, v: seq<nat>, n: nat)
    requires Copies(g, s, x, u, n) && Copies(g, s, y, v, n)
    ensures Copies(g, s, x + y, u + v, n)
  {
    YieldAllConcat(x, y);
  }

  lemma CopiesOne(g: Rules, s: seq<Sym>, c: Parse, n: nat)
    requires Parses(g, s, c) && Size(c) <= n
    ensures Copies(g, s, [c], Yield(c), n)
  {
    assert [c][1..] == [] && Yield(c) + [] == Yield(c);
  }

  // One more copy in front of, or behind, copies of smaller size.
  lemma CopiesCons(g: Rules, s: seq<Sym>, c: Parse, cs: seq<Parse>, v: seq<nat>, m: nat, n: nat)
    requires Parses(g, s, c) && Copies(g, s, cs, v, m) && Size(c) <= n && m <= n
    ensures Copies(g, s, [c] + cs, Yield(c) + v, n)
  {
    CopiesOne(g, s, c, n);
    CopiesConcat(g, s, [c], Yield(c), cs, v, n);
  }

  lemma CopiesSnoc(g: Rules, s: seq<Sym>, cs: seq<Parse>, u: seq<nat>, c: Parse, m: nat, n: nat)
    requires Parses(g, s, c) && Copies(g, s, cs, u, m) && Size(c) <= n && m <= n
    ensures Copies(g, s, cs + [c], u + Yield(c), n)
  {
    CopiesOne(g, s, c, n);
    CopiesConcat(g, s, cs, u, [c], Yield(c), n);
  }

  lemma CopiesWithin(g: Rules, s: seq<Sym>, cs: seq<Parse>, w: seq<nat>, m: nat, n: nat)
    requires Copies(g, s, cs, w, m) && m <= n
    ensures Copies(g, s, cs, w, n)
  {}

  // ---------- the optional part ----------

  // The rules of a bounded chain of k rules ending in id last are in place.
  predicate ChainIn(g: Rules, prev: Rule, last: nat, k: nat)
    decreases k
  {
    k == 0 || (last < |g| && g[last] == StepRule(prev, k, if last == 0 then 0 else last - 1)
               && (k > 1 ==> last > 0 && ChainIn(g, prev, last - 1, k - 1)))
  }

  predicate LoopIn(g: Rules, prev: Rule, id: nat) {
    id < |g| && g[id] == LoopRule(prev, id)
  }

  // A rule S X | with S X = head has these two alternates.
  lemma OptionalAlternates(head: Rule, a: nat)
    requires NoEnds(head)
    ensures IsAltStart(head + [ALT_ELEM, END_ELEM], a) <==> a == 0 || a == |head| + 1
    ensures Syms((head + [ALT_ELEM, END_ELEM])[0..]) == Syms(head)
    ensures Syms((head + [ALT_ELEM, END_ELEM])[|head| + 1..]) == []
  {
    var rule := head + [ALT_ELEM, END_ELEM];
    assert rule[|head|] == ALT_ELEM && rule[|head| + 1] == END_ELEM;
    if 0 < a < |rule| {
      if a - 1 < |head| { assert rule[a - 1] == head[a - 1]; }
    }
    assert rule[0..] == rule;
    SymsConcat(head, [ALT_ELEM, END_ELEM]);
    SymsOfEnd([ALT_ELEM, END_ELEM]);
    assert rule[|head| + 1..] == [END_ELEM];
  }

  // The body of an optional rule: one copy followed by the rule below, if any.
  lemma NoEndsConcat(x: Rule, y: Rule)
    requires NoEnds(x) && NoEnds(y)
    ensures NoEnds(x + y)
  {}

  lemma GoodSegNoEnds(seg: Rule)
    requires GoodSeg(seg)
    ensures NoEnds(seg)
  {}

  lemma SymsOfBody(prev: Rule, below: Rule)
    requires GoodSeg(prev) && (below == [] || (|below| == 1 && below[0].typ.RuleRef?))
    ensures NoEnds(prev + below) && Syms(prev + below) == Syms(prev) + Syms(below)
  {
    GoodSegNoEnds(prev);
    NoEndsConcat(prev, below);
    SymsConcat(prev, below);
  }

  lemma ParseOfRef(g: Rules, id: nat, p: Parse)
    requires Parses(g, [Ref(id)], p)
    ensures p.Expand? && p.rest == Done && id < |g| && IsAltStart(g[id], p.alt) && Parses(g, Syms(g[id][p.alt..]), p.inner)
    ensures Yield(p) == Yield(p.inner) && Size(p) == 1 + Size(p.inner)
  {
    assert [Ref(id)][1..] == [];
  }

  lemma RefParse(g: Rules, id: nat, a: nat, form: seq<Sym>, inner: Parse) returns (p: Parse)
    requires id < |g| && IsAltStart(g[id], a) && form == Syms(g[id][a..]) && Parses(g, form, inner)
    ensures Parses(g, [Ref(id)], p) && Yield(p) == Yield(inner)
  {
    p := Expand(a, inner, Done);
    assert [Ref(id)][1..] == [];
  }

  // Rule id is  S X |  where X is empty or a reference.
  predicate IsOptionalRule(g: Rules, prev: Rule, below: Rule, id: nat) {
    && GoodSeg(prev) && (below == [] || (|below| == 1 && below[0].typ.RuleRef?))
    && id < |g| && g[id] == (prev + below) + [ALT_ELEM, END_ELEM]
  }

  // An optional rule derives nothing, or one copy and then what the elements below derive.
  lemma OptionalCases(g: Rules, prev: Rule, below: Rule, id: nat, p: Parse) returns (c: Parse, rest: Parse)
    requires IsOptionalRule(g, prev, below, id) && Parses(g, [Ref(id)], p)
    ensures p.Expand? && (p.alt == 0 || Yield(p) == [])
    ensures p.alt == 0 ==> Parses(g, Syms(prev), c) && Parses(g, Syms(below), rest)
    ensures p.alt == 0 ==> Yield(p) == Yield(c) + Yield(rest) && Size(p) == 1 + Size(c) + Size(rest)
  {
    ParseOfRef(g, id, p);
    SymsOfBody(prev, below);
    OptionalAlternates(prev + below, p.alt);
    c, rest := Done, Done;
    if p.alt == 0 {
      c, rest := ParsesSplit(g, Syms(prev), Syms(below), p.inner);
    }
  }

  lemma OptionalNone(g: Rules, prev: Rule, below: Rule, id: nat) returns (p: Parse)
    requires IsOptionalRule(g, prev, below, id)
    ensures Parses(g, [Ref(id)], p) && Yield(p) == []
  {
    SymsOfBody(prev, below);
    OptionalAlternates(prev + below, |prev + below| + 1);
    p := RefParse(g, id, |prev + below| + 1, [], Done);
  }

  lemma OptionalOne(g: Rules, prev: Rule, below: Rule, id: nat, c: Parse, rest: Parse) returns (p: Parse)
    requires IsOptionalRule(g, prev, below, id) && Parses(g, Syms(prev), c) && Parses(g, Syms(below), rest)
    ensures Parses(g, [Ref(id)], p) && Yield(p) == Yield(c) + Yield(rest)
  {
    SymsOfBody(prev, below);
    OptionalAlternates(prev + below, 0);
    ParsesAppend(g, Syms(prev), Syms(below), c, rest);
    p := RefParse(g, id, 0, Syms(prev) + Syms(below), Append(c, rest));
  }

  // The elements below rule k of a chain.
  function Below(last: nat, k: nat): Rule {
    if k > 1 then [RefElem(if last == 0 then 0 else last - 1)] else []
  }

  lemma ChainUnfold(g: Rules, prev: Rule, last: nat, k: nat)
    requires GoodSeg(prev) && k > 0 && ChainIn(g, prev, last, k)
    ensures IsOptionalRule(g, prev, Below(last, k), last)
    ensures k == 1 ==> Syms(Below(last, k)) == []
    ensures k > 1 ==> last > 0 && ChainIn(g, prev, last - 1, k - 1) && Syms(Below(last, k)) == [Ref(last - 1)]
  {
    if k > 1 { SymsOfRefElem(last - 1); }
  }

  lemma LoopUnfold(g: Rules, prev: Rule, id: nat)
    requires GoodSeg(prev) && LoopIn(g, prev, id)
    ensures IsOptionalRule(g, prev, [RefElem(id)], id) && Syms([RefElem(id)]) == [Ref(id)]
  {
    SymsOfRefElem(id);
  }

  lemma {:induction false} ChainToCopies(g: Rules, prev: Rule, last: nat, k: nat, p: Parse) returns (cs: seq<Parse>)
    requires GoodSeg(prev) && k > 0 && ChainIn(g, prev, last, k) && Parses(g, [Ref(last)], p)
    ensures |cs| <= k && Copies(g, Syms(prev), cs, Yield(p), Size(p))
    decreases k
  {
    ChainUnfold(g, prev, last, k);
    var c, rest := OptionalCases(g, prev, Below(last, k), last, p);
    if p.alt != 0 {
      CopiesNone(g, Syms(prev), Size(p));
      cs := [];
    } else {
      var more: seq<Parse> := [];
      if k > 1 {
        more := ChainToCopies(g, prev, last - 1, k - 1, rest);
      } else {
        CopiesNone(g, Syms(prev), Size(rest));
      }
      CopiesCons(g, Syms(prev), c, more, Yield(rest), Size(rest), Size(p));
      cs := [c] + more;
    }
  }

  lemma {:induction false} CopiesToChain(g: Rules, prev: Rule, last: nat, k: nat, cs: seq<Parse>) returns (p: Parse)
    requires GoodSeg(prev) && k > 0 && ChainIn(g, prev, last, k) && |cs| <= k && AllParse(g, Syms(prev), cs)
    ensures Parses(g, [Ref(last)], p) && Yield(p) == YieldAll(cs)
    decreases k
  {
    ChainUnfold(g, prev, last, k);
    if cs == [] {
      p := OptionalNone(g, prev, Below(last, k), last);
    } else {
      var rest := Done;
      if k > 1 {
        rest := CopiesToChain(g, prev, last - 1, k - 1, cs[1..]);
      }
      p := OptionalOne(g, prev, Below(last, k), last, cs[0], rest);
    }
  }

  lemma {:induction false} LoopToCopies(g: Rules, prev: Rule, id: nat, p: Parse) returns (cs: seq<Parse>)
    requires GoodSeg(prev) && LoopIn(g, prev, id) && Parses(g, [Ref(id)], p)
    ensures Copies(g, Syms(prev), cs, Yield(p), Size(p))
    decreases Size(p)
  {
    LoopUnfold(g, prev, id);
    var c, rest := OptionalCases(g, prev, [RefElem(id)], id, p);
    if p.alt != 0 {
      CopiesNone(g, Syms(prev), Size(p));
      cs := [];
    } else {
      var more := LoopToCopies(g, prev, id, rest);
      CopiesCons(g, Syms(prev), c, more, Yield(rest), Size(rest), Size(p));
      cs := [c] + more;
    }
  }

  lemma {:induction false} CopiesToLoop(g: Rules, prev: Rule, id: nat, cs: seq<Parse>) returns (p: Parse)
    requires GoodSeg(prev) && LoopIn(g, prev, id) && AllParse(g, Syms(prev), cs)
    ensures Parses(g, [Ref(id)], p) && Yield(p) == YieldAll(cs)
    decreases |cs|
  {
    LoopUnfold(g, prev, id);
    if cs == [] {
      p := OptionalNone(g, prev, [RefElem(id)], id);
    } else {
      var rest := CopiesToLoop(g, prev, id, cs[1..]);
      p := OptionalOne(g, prev, [RefElem(id)], id, cs[0], rest);
    }
  }

  // ---------- the mandatory part ----------

  lemma {:induction false} TimesGood(seg: Rule, k: nat)
    requires GoodSeg(seg)
    ensures GoodSeg(Times(seg, k))
    decreases k
  {
    if k > 0 {
      TimesGood(seg, k - 1);
      GoodSegConcat(Times(seg, k - 1), seg);
    }
  }

  function Repeated(s: seq<Sym>, k: nat): seq<Sym> {
    if k == 0 then [] else Repeated(s, k - 1) + s
  }

  lemma {:induction false} SymsOfTimes(prev: Rule, k: nat)
    requires GoodSeg(prev)
    ensures Syms(Times(prev, k)) == Repeated(Syms(prev), k)
    decreases k
  {
    if k > 0 {
      SymsOfTimes(prev, k - 1);
      TimesGood(prev, k - 1);
      SymsConcat(Times(prev, k - 1), prev);
    }
  }

  lemma {:induction false} RepeatedToCopies(g: Rules, s: seq<Sym>, k: nat, p: Parse) returns (cs: seq<Parse>)
    requires Parses(g, Repeated(s, k), p)
    ensures |cs| == k && Copies(g, s, cs, Yield(p), Size(p))
    decreases k
  {
    if k == 0 {
      CopiesNone(g, s, Size(p));
      cs := [];
    } else {
      var q, c := ParsesSplit(g, Repeated(s, k - 1), s, p);
      var less := RepeatedToCopies(g, s, k - 1, q);
      CopiesSnoc(g, s, less, Yield(q), c, Size(q), Size(p));
      cs := less + [c];
    }
  }

  lemma YieldAllSnoc(cs: seq<Parse>)
    requires cs != []
    ensures YieldAll(cs) == YieldAll(cs[..|cs| - 1]) + Yield(cs[|cs| - 1])
  {
    var c := cs[|cs| - 1];
    assert cs == cs[..|cs| - 1] + [c];
    YieldAllConcat(cs[..|cs| - 1], [c]);
    assert [c][1..] == [] && Yield(c) + [] == Yield(c);
  }

  lemma {:induction false} CopiesToRepeated(g: Rules, s: seq<Sym>, k: nat, cs: seq<Parse>) returns (p: Parse)
    requires |cs| == k && AllParse(g, s, cs)
    ensures Parses(g, Repeated(s, k), p) && Yield(p) == YieldAll(cs)
    decreases k
  {
    if k == 0 {
      p := Done;
    } else {
      var q := CopiesToRepeated(g, s, k - 1, cs[..k - 1]);
      ParsesAppend(g, Repeated(s, k - 1), s, q, cs[k - 1]);
      p := Append(q, cs[k - 1]);
      YieldAllSnoc(cs);
    }
  }

  // ---------- the whole repetition ----------

  // Rules in g for the optional part with n further copies, or any number of them.
  predicate OptionalIn(g: Rules, prev: Rule, last: nat, n: nat, noMax: bool) {
    if noMax then n == 1 && LoopIn(g, prev, last) else ChainIn(g, prev, last, n)
  }

  function RepetitionSeg(prev: Rule, min: nat, n: nat, last: nat): Rule {
    Times(prev, min) + (if n == 0 then [] else [RefElem(last)])
  }

  lemma OptionalToCopies(g: Rules, prev: Rule, n: nat, noMax: bool, last: nat, p: Parse) returns (cs: seq<Parse>)
    requires GoodSeg(prev) && n > 0 && OptionalIn(g, prev, last, n, noMax) && Parses(g, [Ref(last)], p)
    ensures (!noMax ==> |cs| <= n) && Copies(g, Syms(prev), cs, Yield(p), Size(p))
  {
    if noMax { cs := LoopToCopies(g, prev, last, p); } else { cs := ChainToCopies(g, prev, last, n, p); }
  }

  lemma CopiesToOptional(g: Rules, prev: Rule, n: nat, noMax: bool, last: nat, cs: seq<Parse>) returns (p: Parse)
    requires GoodSeg(prev) && n > 0 && OptionalIn(g, prev, last, n, noMax)
    requires (!noMax ==> |cs| <= n) && AllParse(g, Syms(prev), cs)
    ensures Parses(g, [Ref(last)], p) && Yield(p) == YieldAll(cs)
  {
    if noMax { p := CopiesToLoop(g, prev, last, cs); } else { p := CopiesToChain(g, prev, last, n, cs); }
  }

  lemma SymsOfRepetition(prev: Rule, min: nat, n: nat, last: nat)
    requires GoodSeg(prev)
    ensures Syms(RepetitionSeg(prev, min, n, last)) == Repeated(Syms(prev), min) + (if n == 0 then [] else [Ref(last)])
  {
    var tail: Rule := if n == 0 then [] else [RefElem(last)];
    TimesGood(prev, min);
    SymsConcat(Times(prev, min), tail);
    SymsOfTimes(prev, min);
    SymsOfRefElem(last);
  }

  lemma RepetitionToCopies(g: Rules, prev: Rule, min: nat, n: nat, noMax: bool, last: nat, p: Parse) returns (cs: seq<Parse>)
    requires GoodSeg(prev) && OptionalIn(g, prev, last, n, noMax)
    requires Parses(g, Syms(RepetitionSeg(prev, min, n, last)), p)
    ensures min <= |cs| && (!noMax ==> |cs| <= min + n)
    ensures Copies(g, Syms(prev), cs, Yield(p), Size(p))
  {
    SymsOfRepetition(prev, min, n, last);
    var q, r := ParsesSplit(g, Repeated(Syms(prev), min), if n == 0 then [] else [Ref(last)], p);
    var must := RepeatedToCopies(g, Syms(prev), min, q);
    CopiesWithin(g, Syms(prev), must, Yield(q), Size(q), Size(p));
    var may: seq<Parse> := [];
    CopiesNone(g, Syms(prev), Size(p));
    if n > 0 {
      may := OptionalToCopies(g, prev, n, noMax, last, r);
      CopiesWithin(g, Syms(prev), may, Yield(r), Size(r), Size(p));
    }
    CopiesConcat(g, Syms(prev), must, Yield(q), may, Yield(r), Size(p));
    cs := must + may;
  }

  lemma CopiesToRepetition(g: Rules, prev: Rule, min: nat, n: nat, noMax: bool, last: nat, cs: seq<Parse>) returns (p: Parse)
    requires GoodSeg(prev) && OptionalIn(g, prev, last, n, noMax)
    requires min <= |cs| && (!noMax ==> |cs| <= min + n) && AllParse(g, Syms(prev), cs)
    ensures Parses(g, Syms(RepetitionSeg(prev, min, n, last)), p) && Yield(p) == YieldAll(cs)
  {
    SymsOfRepetition(prev, min, n, last);
    var must, may := cs[..min], cs[min..];
    assert must + may == cs;
    YieldAllConcat(must, may);
    var q := CopiesToRepeated(g, Syms(prev), min, must);
    var r := Done;
    if n > 0 { r := CopiesToOptional(g, prev, n, noMax, last, may); }
    ParsesAppend(g, Repeated(Syms(prev), min), if n == 0 then [] else [Ref(last)], q, r);
    p := Append(q, r);
  }

  // w is made of k words of the form s.
  ghost predicate Power(g: Rules, s: seq<Sym>, k: nat, w: seq<nat>) {
    exists cs :: |cs| == k && AllParse(g, s, cs) && YieldAll(cs) == w
  }

  // k copies are allowed.
  predicate InCount(min: nat, n: nat, noMax: bool, k: nat) {
    min <= k && (!noMax ==> k <= min + n)
  }

  // The repetition S{m,m+n}, or S{m,} without an upper bound, generates exactly the powers of S in range.
  lemma RepetitionLanguage(g: Rules, prev: Rule, min: nat, n: nat, noMax: bool, last: nat, w: seq<nat>)
    requires GoodSeg(prev) && OptionalIn(g, prev, last, n, noMax)
    ensures InLang(g, Syms(RepetitionSeg(prev, min, n, last)), w)
            <==> exists k: nat :: InCount(min, n, noMax, k) && Power(g, Syms(prev), k, w)
  {
    var seg := Syms(RepetitionSeg(prev, min, n, last));
    if InLang(g, seg, w) {
      var p :| Parses(g, seg, p) && Yield(p) == w;
      var cs := RepetitionToCopies(g, prev, min, n, noMax, last, p);
      assert InCount(min, n, noMax, |cs|) && Power(g, Syms(prev), |cs|, w);
    }
    if k: nat :| InCount(min, n, noMax, k) && Power(g, Syms(prev), k, w) {
      var cs :| |cs| == k && AllParse(g, Syms(prev), cs) && YieldAll(cs) == w;
      var p := CopiesToRepetition(g, prev, min, n, noMax, last, cs);
    }
  }
}
