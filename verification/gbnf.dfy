/**
 The surface grammar (GBNF) as it is read from a text, and its meaning: what a user who writes a grammar
 means by it, independent of the flat rules it is translated to.
 */
module Gbnf {

  datatype Option<T> = None | Some(value: T)

  // A character class item: one character, or an inclusive range.
  datatype ClassItem = One(c: nat) | Span(lo: nat, hi: nat)

  datatype Item =
    | Literal(chars: seq<nat>)
    | CharClass(negated: bool, items: seq<ClassItem>)
    | Dot
    | TokenId(negated: bool, id: nat)
    | Name(name: string)
    | Group(alts: Alts)
    | Repeat(item: Item, min: nat, max: Option<nat>)

  datatype Items = NoItems | MoreItems(head: Item, tail: Items)

  datatype Alts = LastAlt(only: Items) | MoreAlts(first: Items, rest: Alts)

  // The alternates that each rule name stands for.
  type Defs = map<string, Alts>

  const MAX_REPETITION_THRESHOLD: nat := 2000

  // 1 << 64, the range of the unsigned repetition counts
  const WORD: nat := 0x1_0000_0000_0000_0000

  // The upper bound in effect.  It is the one written for ordered bounds up to the threshold; above the
  // threshold it is dropped, and below the lower bound the unsigned difference of the source wraps around.
  function Upper(min: nat, max: Option<nat>): Option<nat> {
    match max
    case None => None
    case Some(n) =>
      if n > MAX_REPETITION_THRESHOLD then None
      else if n >= min then Some(n)
      else Some(WORD + n)
  }

  predicate InItem(i: ClassItem, c: nat) {
    match i
    case One(d) => c == d
    case Span(lo, hi) => lo <= c <= hi
  }

  predicate InClass(negated: bool, items: seq<ClassItem>, c: nat) {
    (exists i :: 0 <= i < |items| && InItem(items[i], c)) != negated
  }

  // How a word is derived: characters, the choice of an alternate, or a list.
  datatype Deriv =
    | Chars(w: seq<nat>)
    | Pick(alt: nat, body: Deriv)
    | Nil
    | Cons(head: Deriv, tail: Deriv)

  function Spells(d: Deriv): seq<nat> {
    match d
    case Chars(w) => w
    case Pick(_, body) => Spells(body)
    case Nil => []
    case Cons(head, tail) => Spells(head) + Spells(tail)
  }

  function Length(d: Deriv): nat {
    if d.Cons? then 1 + Length(d.tail) else 0
  }

  predicate Means(defs: Defs, item: Item, d: Deriv)
    decreases d, 1, item
  {
    match item
    case Literal(chars) => d == Chars(chars)
    case CharClass(negated, items) =>
      if items == [] then d == Chars([]) else d.Chars? && |d.w| == 1 && InClass(negated, items, d.w[0])
    case Dot => d.Chars? && |d.w| == 1
    case TokenId(_, _) => false
    case Name(name) => name in defs && d.Pick? && MeansAlt(defs, defs[name], d.alt, d.body)
    case Group(alts) => d.Pick? && MeansAlt(defs, alts, d.alt, d.body)
    case Repeat(x, min, max) =>
      && min <= Length(d) && (Upper(min, max).Some? ==> Length(d) <= Upper(min, max).value)
      && MeansCopies(defs, x, d)
  }

  predicate MeansCopies(defs: Defs, item: Item, d: Deriv)
    decreases d, 0, item
  {
    d.Nil? || (d.Cons? && Means(defs, item, d.head) && MeansCopies(defs, item, d.tail))
  }

  predicate MeansItems(defs: Defs, items: Items, d: Deriv)
    decreases d, 2, items
  {
    match items
    case NoItems => d.Nil?
    case MoreItems(head, tail) => d.Cons? && Means(defs, head, d.head) && MeansItems(defs, tail, d.tail)
  }

  predicate MeansAlt(defs: Defs, alts: Alts, k: nat, d: Deriv)
    decreases d, 3, alts
  {
    match alts
    case LastAlt(only) => k == 0 && MeansItems(defs, only, d)
    case MoreAlts(first, rest) => if k == 0 then MeansItems(defs, first, d) else MeansAlt(defs, rest, k - 1, d)
  }

  // The language a user means by an item, where repetition bounds are those in effect.
  ghost predicate Denotes(defs: Defs, item: Item, w: seq<nat>) {
    exists d :: Means(defs, item, d) && Spells(d) == w
  }

  // The bound in effect is the bound written exactly for ordered bounds up to the threshold.
  lemma UpperIsAsWritten(min: nat, max: Option<nat>)
    requires min <= MAX_REPETITION_THRESHOLD
    ensures Upper(min, max) == max <==> (max.None? || min <= max.value <= MAX_REPETITION_THRESHOLD)
  {}
}
