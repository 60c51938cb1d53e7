/**
 Laws of the language of a form: concatenation, expansion of the leftmost reference and
 consumption of a leading class.
 */
module GrammarLanguage {
  import opened GrammarRules

  lemma ConcatAssociates<T>(x: seq<T>, y: seq<T>, z: seq<T>)
    ensures (x + y) + z == x + (y + z)
  {}

  lemma ConcatTail<T>(x: seq<T>, y: seq<T>)
    requires x != []
    ensures x + y != [] && (x + y)[0] == x[0] && (x + y)[1..] == x[1..] + y
    ensures x + y == [x[0]] + (x[1..] + y)
  {}

  // Parse of a concatenation from parses of its parts.
  function Append(d: Parse, e: Parse): (r: Parse)
    ensures Size(r) == Size(d) + Size(e)
    ensures Yield(r) == Yield(d) + Yield(e)
  {
    match d
    case Done => e
    case Shift(c, rest) => ConcatAssociates([c], Yield(rest), Yield(e)); Shift(c, Append(rest, e))
    case Expand(a, inner, rest) =>
      ConcatAssociates(Yield(inner), Yield(rest), Yield(e));
      Expand(a, inner, Append(rest, e))
  }

  lemma {:induction false} ParsesAppend(g: Rules, x: seq<Sym>, y: seq<Sym>, d: Parse, e: Parse)
    requires Parses(g, x, d) && Parses(g, y, e)
    ensures Parses(g, x + y, Append(d, e))
    decreases d
  {
    match d
    case Done =>
      assert x + y == y;
    case Shift(_, rest) =>
      ParsesAppend(g, x[1..], y, rest, e);
      ConcatTail(x, y);
    case Expand(_, _, rest) =>
      ParsesAppend(g, x[1..], y, rest, e);
      ConcatTail(x, y);
  }

  // A parse of a concatenation splits into parses of its parts.
  lemma {:induction false} ParsesSplit(g: Rules, x: seq<Sym>, y: seq<Sym>, d: Parse) returns (dx: Parse, dy: Parse)
    requires Parses(g, x + y, d)
    ensures Parses(g, x, dx) && Parses(g, y, dy) && d == Append(dx, dy)
    decreases d
  {
    if x == [] {
      assert x + y == y;
      dx, dy := Done, d;
    } else {
      ConcatTail(x, y);
      match d
      case Shift(c, rest) =>
        dx, dy := ParsesSplit(g, x[1..], y, rest);
        dx := Shift(c, dx);
      case Expand(a, inner, rest) =>
        dx, dy := ParsesSplit(g, x[1..], y, rest);
        dx := Expand(a, inner, dx);
    }
  }

  // Expanding the leftmost reference by one of its alternates keeps derivability ...
  lemma ParsesFold(g: Rules, r: nat, a: nat, rest: seq<Sym>, d: Parse) returns (e: Parse)
    requires r < |g| && IsAltStart(g[r], a) && Parses(g, Syms(g[r][a..]) + rest, d)
    ensures Parses(g, [Ref(r)] + rest, e) && Size(e) == Size(d) + 1 && Yield(e) == Yield(d)
  {
    var inner, tail := ParsesSplit(g, Syms(g[r][a..]), rest, d);
    e := Expand(a, inner, tail);
    assert ([Ref(r)] + rest)[1..] == rest;
  }

  // ... and every derivation from a leading reference goes through one of its alternates.
  lemma ParsesUnfold(g: Rules, r: nat, rest: seq<Sym>, d: Parse) returns (a: nat, e: Parse)
    requires Parses(g, [Ref(r)] + rest, d)
    ensures r < |g| && IsAltStart(g[r], a) && Parses(g, Syms(g[r][a..]) + rest, e)
    ensures Size(d) == Size(e) + 1 && Yield(e) == Yield(d)
  {
    assert ([Ref(r)] + rest)[0] == Ref(r) && ([Ref(r)] + rest)[1..] == rest;
    a, e := d.alt, Append(d.inner, d.rest);
    ParsesAppend(g, Syms(g[r][a..]), rest, d.inner, d.rest);
  }

  // The language of a leading reference is the union over its alternates.
  lemma RefLanguage(g: Rules, r: nat, rest: seq<Sym>, w: seq<nat>)
    requires r < |g|
    ensures InLang(g, [Ref(r)] + rest, w)
            <==> exists a: nat :: IsAltStart(g[r], a) && InLang(g, Syms(g[r][a..]) + rest, w)
  {
    if InLang(g, [Ref(r)] + rest, w) {
      var d :| Parses(g, [Ref(r)] + rest, d) && Yield(d) == w;
      var a, e := ParsesUnfold(g, r, rest, d);
      assert InLang(g, Syms(g[r][a..]) + rest, w);
    }
    if a: nat :| IsAltStart(g[r], a) && InLang(g, Syms(g[r][a..]) + rest, w) {
      var d :| Parses(g, Syms(g[r][a..]) + rest, d) && Yield(d) == w;
      var e := ParsesFold(g, r, a, rest, d);
    }
  }

  // A leading class consumes exactly one accepted code point: a derivative.
  lemma ClassLanguage(g: Rules, s: Sym, rest: seq<Sym>, c: nat, w: seq<nat>)
    requires s.Class?
    ensures InLang(g, [s] + rest, [c] + w) <==> Accepts(s, c) && InLang(g, rest, w)
  {
    assert ([s] + rest)[1..] == rest && ([c] + w)[1..] == w;
    if Accepts(s, c) && InLang(g, rest, w) {
      var d :| Parses(g, rest, d) && Yield(d) == w;
      assert Parses(g, [s] + rest, Shift(c, d)) && Yield(Shift(c, d)) == [c] + w;
    }
    if InLang(g, [s] + rest, [c] + w) {
      var d :| Parses(g, [s] + rest, d) && Yield(d) == [c] + w;
      assert Yield(d)[0] == d.c && Yield(d)[1..] == Yield(d.rest);
      assert Parses(g, rest, d.rest);
    }
  }
}
