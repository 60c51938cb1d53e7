/**
 The symbol table of the grammar parser: `get_symbol_id`, `generate_symbol_id`, `add_rule`.
 A generated name can never meet a name from the text, because names have no underscore, nor another
 generated name, because it ends in its own id.
 */
module GbnfSymbols {
  import opened GrammarRules
  import opened Decimals

  type Ids = map<string, nat>

  // ---------- names ----------

  predicate IsWordChar(c: char) {
    'a' <= c <= 'z' || 'A' <= c <= 'Z' || c == '-' || '0' <= c <= '9'
  }

  predicate IsName(s: string) {
    forall i :: 0 <= i < |s| ==> IsWordChar(s[i])
  }

  function GeneratedName(base: string, id: nat): string {
    base + "_" + Decimal(id)
  }

  ghost predicate IsGenerated(s: string, id: nat) {
    exists base :: IsName(base) && s == GeneratedName(base, id)
  }

  // Names are numbered without gaps or repetitions; every name is from the text or generated.
  ghost predicate ValidIds(ids: Ids) {
    && (forall s :: s in ids ==> ids[s] < |ids|)
    && (forall s, t :: s in ids && t in ids && ids[s] == ids[t] ==> s == t)
    && (forall s :: s in ids ==> IsName(s) || IsGenerated(s, ids[s]))
  }

  lemma UnderscorePosition(base: string, id: nat)
    requires IsName(base)
    ensures GeneratedName(base, id)[|base|] == '_'
    ensures forall i :: 0 <= i < |base| ==> GeneratedName(base, id)[i] != '_'
    ensures GeneratedName(base, id)[|base| + 1..] == Decimal(id)
  {
    forall i | 0 <= i < |base| ensures GeneratedName(base, id)[i] != '_' {
      assert GeneratedName(base, id)[i] == base[i];
    }
  }

  // The text after the first underscore of a generated name determines its id.
  lemma GeneratedIdsDiffer(b: string, m: nat, c: string, n: nat)
    requires IsName(b) && IsName(c) && GeneratedName(b, m) == GeneratedName(c, n)
    ensures m == n
  {
    UnderscorePosition(b, m);
    UnderscorePosition(c, n);
    assert |b| == |c|;
    ValueOfDecimal(m);
    ValueOfDecimal(n);
  }

  lemma GeneratedIsNoName(base: string, id: nat)
    ensures !IsName(GeneratedName(base, id))
  {
    assert GeneratedName(base, id)[|base|] == '_';
  }

  // The next generated name is new.
  lemma GeneratedIsFresh(ids: Ids, base: string)
    requires ValidIds(ids) && IsName(base)
    ensures GeneratedName(base, |ids|) !in ids
  {
    var s := GeneratedName(base, |ids|);
    GeneratedIsNoName(base, |ids|);
    if s in ids {
      var b :| IsName(b) && s == GeneratedName(b, ids[s]);
      GeneratedIdsDiffer(base, |ids|, b, ids[s]);
    }
  }

  // ---------- the table ----------

  datatype State = State(ids: Ids, rules: Rules)

  function GetId(st: State, s: string): (State, nat) {
    if s in st.ids then (st, st.ids[s]) else (st.(ids := st.ids[s := |st.ids|]), |st.ids|)
  }

  function Generate(st: State, base: string): (State, nat) {
    (st.(ids := st.ids[GeneratedName(base, |st.ids|) := |st.ids|]), |st.ids|)
  }

  function PadTo(rules: Rules, n: nat): (r: Rules)
    ensures |r| >= n && rules <= r && |r| == if |rules| < n then n else |rules|
    ensures forall i :: |rules| <= i < |r| ==> r[i] == []
    decreases n - |rules|
  {
    if |rules| >= n then rules else PadTo(rules + [[]], n)
  }

  function AddRule(st: State, id: nat, rule: Rule): State {
    st.(rules := PadTo(st.rules, id + 1)[id := rule])
  }

  // Undefined rules are empty.
  function RuleAt(g: Rules, id: nat): Rule {
    if id < |g| then g[id] else []
  }

  lemma AddRuleEffect(st: State, id: nat, rule: Rule)
    ensures forall i: nat :: RuleAt(AddRule(st, id, rule).rules, i) == if i == id then rule else RuleAt(st.rules, i)
  {}

  // The table is valid and every rule has an id.
  ghost predicate ValidState(st: State) {
    ValidIds(st.ids) && |st.rules| <= |st.ids|
  }

  // later keeps the names of st and the rules of all ids that st knows; no name from the text gains a rule.
  ghost predicate Grows(st: State, later: State) {
    && |st.ids| <= |later.ids|
    && (forall s :: s in st.ids ==> s in later.ids && later.ids[s] == st.ids[s])
    && (forall i: nat :: i < |st.ids| ==> RuleAt(later.rules, i) == RuleAt(st.rules, i))
    && (forall s :: s in later.ids && IsName(s) && RuleAt(later.rules, later.ids[s]) != [] ==> s in st.ids)
  }

  lemma AddIdValid(ids: Ids, s: string)
    requires ValidIds(ids) && s !in ids && (IsName(s) || IsGenerated(s, |ids|))
    ensures ValidIds(ids[s := |ids|]) && |ids[s := |ids|]| == |ids| + 1
  {
    assert ids[s := |ids|].Keys == ids.Keys + {s};
  }

  lemma GetIdEffect(st: State, s: string)
    requires ValidState(st) && IsName(s)
    ensures var (st', id) := GetId(st, s);
            ValidState(st') && Grows(st, st') && s in st'.ids && st'.ids[s] == id && st'.rules == st.rules
  {
    if s !in st.ids { AddIdValid(st.ids, s); }
  }

  lemma GenerateEffect(st: State, base: string)
    requires ValidState(st) && IsName(base)
    ensures var (st', id) := Generate(st, base);
            ValidState(st') && Grows(st, st') && st'.rules == st.rules
            && id == |st.ids| && |st'.ids| == |st.ids| + 1
            && GeneratedName(base, id) !in st.ids && GeneratedName(base, id) in st'.ids && st'.ids[GeneratedName(base, id)] == id
            && !IsName(GeneratedName(base, id))
  {
    GeneratedIsFresh(st.ids, base);
    GeneratedIsNoName(base, |st.ids|);
    assert IsGenerated(GeneratedName(base, |st.ids|), |st.ids|);
    AddIdValid(st.ids, GeneratedName(base, |st.ids|));
  }

  lemma GrowsTrans(a: State, b: State, c: State)
    requires ValidState(b) && Grows(a, b) && Grows(b, c)
    ensures Grows(a, c)
  {}

  // A generated name together with its rule.
  function NewRule(st: State, base: string, rule: Rule): State {
    AddRule(Generate(st, base).0, |st.ids|, rule)
  }

  lemma NewRuleEffect(st: State, base: string, rule: Rule)
    requires ValidState(st) && IsName(base)
    ensures ValidState(NewRule(st, base, rule)) && |NewRule(st, base, rule).ids| == |st.ids| + 1
    ensures Grows(st, NewRule(st, base, rule)) && RuleAt(NewRule(st, base, rule).rules, |st.ids|) == rule
    ensures GeneratedName(base, |st.ids|) in NewRule(st, base, rule).ids
    ensures NewRule(st, base, rule).ids[GeneratedName(base, |st.ids|)] == |st.ids| && !IsName(GeneratedName(base, |st.ids|))
  {
    GenerateEffect(st, base);
    AddRuleEffect(Generate(st, base).0, |st.ids|, rule);
  }
}
