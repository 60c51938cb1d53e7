/**
 What an equal split (`split_equal`, llama-batch.cpp) may choose and take: the specification side of
 the allocator, on sequences of flags.
 */
module BatchEqual {

  import opened BatchLists

  // ---------- what an equal split chooses ----------

  // The choice made so far is the first k of the sets, brought in by the first k tokens of intro.
  // May token i bring in the next set?
  predicate Admits(seqIds: seq<seq<nat>>, seqSet: seq<SeqSet>, sequential: bool, intro: seq<nat>, k: nat, i: nat)
    requires k <= |intro| && |seqIds| == |seqSet|
  {
    && i < |seqSet|
    && (forall m :: 0 <= m < k ==> intro[m] < |seqSet| && seqSet[intro[m]] !! seqSet[i])
    && (sequential && k > 0 ==>
          intro[k - 1] < |seqIds| && seqIds[i] != [] && seqIds[intro[k - 1]] != []
          && seqIds[i][0] == seqIds[intro[k - 1]][0] + 1)
  }

  // Token i lies after the first k tokens of intro and before the next one.
  predicate Between(intro: seq<nat>, k: nat, i: nat) {
    k <= |intro| && (k > 0 ==> intro[k - 1] < i) && (k < |intro| ==> i < intro[k])
  }

  // Token intro[k] was unused and could bring in its set.
  predicate Brought(seqIds: seq<seq<nat>>, seqSet: seq<SeqSet>, used: seq<bool>, sequential: bool,
                    intro: seq<nat>, k: nat)
    requires |seqIds| == |seqSet| == |used| && k < |intro|
  {
    intro[k] < |used| && !used[intro[k]] && Admits(seqIds, seqSet, sequential, intro, k, intro[k])
  }

  // Token i brought in no set: it was used, or it could not.
  predicate Passed(seqIds: seq<seq<nat>>, seqSet: seq<SeqSet>, used: seq<bool>, sequential: bool,
                   intro: seq<nat>, k: nat, i: nat)
    requires |seqIds| == |seqSet| == |used| && k <= |intro| && i < |used|
  {
    Between(intro, k, i) ==> used[i] || !Admits(seqIds, seqSet, sequential, intro, k, i)
  }

  // Reading the unused tokens below upto in order, each one that could bring in a set did so.
  ghost predicate Chosen(seqIds: seq<seq<nat>>, seqSet: seq<SeqSet>, used: seq<bool>, sequential: bool,
                         intro: seq<nat>, upto: nat) {
    && |seqIds| == |seqSet| == |used| && upto <= |used|
    && Increasing(intro) && Below(intro, upto)
    && (forall k :: 0 <= k < |intro| ==> Brought(seqIds, seqSet, used, sequential, intro, k))
    && (forall k, i :: 0 <= k <= |intro| && 0 <= i < upto ==> Passed(seqIds, seqSet, used, sequential, intro, k, i))
  }

  // A token that was not admitted, or is used, leaves the choice as it is.
  lemma ChosenSkip(seqIds: seq<seq<nat>>, seqSet: seq<SeqSet>, used: seq<bool>, sequential: bool, intro: seq<nat>, i: nat)
    requires Chosen(seqIds, seqSet, used, sequential, intro, i) && i < |used|
    requires used[i] || !Admits(seqIds, seqSet, sequential, intro, |intro|, i)
    ensures Chosen(seqIds, seqSet, used, sequential, intro, i + 1)
  {
    forall k | 0 <= k <= |intro| ensures Passed(seqIds, seqSet, used, sequential, intro, k, i) {
      assert k < |intro| ==> !Between(intro, k, i);
    }
  }

  lemma AdmitsEarlier(seqIds: seq<seq<nat>>, seqSet: seq<SeqSet>, sequential: bool, intro: seq<nat>, more: nat, k: nat, i: nat)
    requires k <= |intro| && |seqIds| == |seqSet|
    ensures Admits(seqIds, seqSet, sequential, intro + [more], k, i) <==> Admits(seqIds, seqSet, sequential, intro, k, i)
  {
    assert (intro + [more])[..k] == intro[..k];
    assert forall m :: 0 <= m < k ==> (intro + [more])[m] == intro[m];
  }

  lemma ChosenAdd(seqIds: seq<seq<nat>>, seqSet: seq<SeqSet>, used: seq<bool>, sequential: bool, intro: seq<nat>, i: nat)
    requires Chosen(seqIds, seqSet, used, sequential, intro, i) && i < |used|
    requires !used[i] && Admits(seqIds, seqSet, sequential, intro, |intro|, i)
    ensures Chosen(seqIds, seqSet, used, sequential, intro + [i], i + 1)
  {
    var next := intro + [i];
    forall k | 0 <= k < |next| ensures Brought(seqIds, seqSet, used, sequential, next, k) {
      AdmitsEarlier(seqIds, seqSet, sequential, intro, i, k, next[k]);
      assert k < |intro| ==> Brought(seqIds, seqSet, used, sequential, intro, k);
    }
    forall k, j | 0 <= k <= |next| && 0 <= j < i + 1 ensures Passed(seqIds, seqSet, used, sequential, next, k, j) {
      if k <= |intro| {
        AdmitsEarlier(seqIds, seqSet, sequential, intro, i, k, j);
        if j < i {
          assert Passed(seqIds, seqSet, used, sequential, intro, k, j);
          assert Between(next, k, j) ==> Between(intro, k, j);
        } else if k < |intro| {
          assert next[k] == intro[k] < i;
        }
      }
    }
  }

  // ---------- what an equal split takes ----------

  // The next |taken| tokens of the list of s, after the first `start`; now they are used too.
  predicate TakenFrom(used: seq<bool>, lists: map<SeqSet, seq<nat>>, s: SeqSet, start: nat, taken: seq<nat>) {
    && s in lists && start + |taken| <= |lists[s]|
    && taken == lists[s][start..start + |taken|]
    && CutAt(used, lists[s], start + |taken|)
  }

  // No token moves unless its set takes part.
  predicate Untouched(seqSet: seq<SeqSet>, used0: seq<bool>, used: seq<bool>, sets: seq<SeqSet>) {
    && |used| == |used0| == |seqSet|
    && forall i :: 0 <= i < |used| && seqSet[i] !in sets ==> used[i] == used0[i]
  }

  predicate Distinct(sets: seq<SeqSet>) {
    forall k, m :: 0 <= k < m < |sets| ==> sets[k] != sets[m]
  }

  ghost predicate Takes(seqSet: seq<SeqSet>, lists: map<SeqSet, seq<nat>>, used0: seq<bool>, used: seq<bool>,
                        sets: seq<SeqSet>, starts: seq<nat>, per: seq<seq<nat>>) {
    && |per| == |starts| == |sets|
    && Untouched(seqSet, used0, used, sets)
    && (forall k :: 0 <= k < |sets| ==> TakenFrom(used, lists, sets[k], starts[k], per[k]))
  }

  // Flags change only within one set: the other sets keep what they took.
  lemma TakesOne(seqSet: seq<SeqSet>, lists: map<SeqSet, seq<nat>>, used0: seq<bool>, used: seq<bool>, used': seq<bool>,
                 sets: seq<SeqSet>, starts: seq<nat>, per: seq<seq<nat>>, s: nat, taken: seq<nat>)
    requires ListsOf(seqSet, lists) && Distinct(sets)
    requires Takes(seqSet, lists, used0, used, sets, starts, per) && s < |sets|
    requires |used'| == |used| && forall i :: 0 <= i < |used| && seqSet[i] != sets[s] ==> used'[i] == used[i]
    requires TakenFrom(used', lists, sets[s], starts[s], taken)
    ensures Takes(seqSet, lists, used0, used', sets, starts, per[s := taken])
  {
    forall k | 0 <= k < |sets| ensures TakenFrom(used', lists, sets[k], starts[k], per[s := taken][k]) {
      if k != s {
        assert sets[k] != sets[s];
        assert ListOk(seqSet, sets[k], lists[sets[k]]);
        assert TakenFrom(used, lists, sets[k], starts[k], per[k]);
        CutSame(used, used', lists[sets[k]], starts[k] + |per[k]|);
      }
    }
  }

  lemma NoOverlap(x: SeqSet, y: SeqSet)
    requires x * y == {}
    ensures x !! y
  {
    forall e | e in x ensures e !in y {
      assert e !in x * y;
    }
  }

  lemma Overlap(x: SeqSet, y: SeqSet)
    requires !(x !! y)
    ensures x * y != {}
  {
    var e :| e in x && e in y;
    assert e in x * y;
  }

  // A set that was brought in does not overlap the earlier ones.
  lemma BroughtApart(seqIds: seq<seq<nat>>, seqSet: seq<SeqSet>, used: seq<bool>, sequential: bool,
                     intro: seq<nat>, k: nat, m: nat)
    requires |seqIds| == |seqSet| == |used| && k < m < |intro| && Brought(seqIds, seqSet, used, sequential, intro, m)
    ensures intro[k] < |seqSet| && seqSet[intro[k]] !! seqSet[intro[m]]
  {
  }

  lemma CutUp(used: seq<bool>, list: seq<nat>, c: nat)
    requires Increasing(list) && CutAt(used, list, c) && c < |list|
    ensures CutAt(used[list[c] := true], list, c + 1)
  {
  }

  lemma CutDown(used: seq<bool>, list: seq<nat>, c: nat)
    requires Increasing(list) && CutAt(used, list, c + 1)
    ensures CutAt(used[list[c] := false], list, c)
  {
  }

  // Every chosen set had its used tokens cut at starts[k], and then took per[k].
  lemma TakesEmits(seqSet: seq<SeqSet>, lists: map<SeqSet, seq<nat>>, used0: seq<bool>, used: seq<bool>,
                   sets: seq<SeqSet>, starts: seq<nat>, per: seq<seq<nat>>, i: nat)
    requires ListsOf(seqSet, lists)
    requires Takes(seqSet, lists, used0, used, sets, starts, per)
    requires forall k :: 0 <= k < |sets| ==> CutAt(used0, lists[sets[k]], starts[k])
    requires i < |used|
    ensures used[i] <==> used0[i] || exists k :: 0 <= k < |per| && i in per[k]
    ensures used0[i] ==> forall k :: 0 <= k < |per| ==> i !in per[k]
  {
    assert Listed(seqSet, lists, i);
    var list := lists[seqSet[i]];
    var p :| 0 <= p < |list| && list[p] == i;
    forall k | 0 <= k < |per|
      ensures i in per[k] <==> sets[k] == seqSet[i] && starts[k] <= p < starts[k] + |per[k]|
    {
      TakenHas(seqSet, used, lists, sets[k], starts[k], per[k], i, p);
    }
    if m :| 0 <= m < |sets| && sets[m] == seqSet[i] {
      assert TakenFrom(used, lists, sets[m], starts[m], per[m]);
      assert used[list[p]] <==> p < starts[m] + |per[m]|;
      assert used0[list[p]] <==> p < starts[m];
    } else {
      assert seqSet[i] !in sets;
    }
  }

  lemma TakenHas(seqSet: seq<SeqSet>, used: seq<bool>, lists: map<SeqSet, seq<nat>>, s: SeqSet, start: nat,
                 taken: seq<nat>, i: nat, p: nat)
    requires ListsOf(seqSet, lists) && TakenFrom(used, lists, s, start, taken)
    requires i < |seqSet| && seqSet[i] in lists && p < |lists[seqSet[i]]| && lists[seqSet[i]][p] == i
    ensures i in taken <==> s == seqSet[i] && start <= p < start + |taken|
  {
    assert ListOk(seqSet, s, lists[s]);
    if s == seqSet[i] && start <= p < start + |taken| {
      assert taken[p - start] == i;
    }
    if i in taken {
      var q :| 0 <= q < |taken| && taken[q] == i;
      assert lists[s][start + q] == i;
    }
  }

  // The micro-batch has no token twice and none that was used before.
  lemma TakesNoDup(seqSet: seq<SeqSet>, lists: map<SeqSet, seq<nat>>, used0: seq<bool>, used: seq<bool>,
                   sets: seq<SeqSet>, starts: seq<nat>, per: seq<seq<nat>>)
    requires ListsOf(seqSet, lists) && Distinct(sets)
    requires Takes(seqSet, lists, used0, used, sets, starts, per)
    ensures NoDup(Concat(per)) && Below(Concat(per), |seqSet|)
  {
    forall k | 0 <= k < |per|
      ensures NoDup(per[k]) && forall i :: i in per[k] ==> i < |seqSet| && seqSet[i] == sets[k]
    {
      assert TakenFrom(used, lists, sets[k], starts[k], per[k]);
      assert ListOk(seqSet, sets[k], lists[sets[k]]);
      forall m | 0 <= m < |per[k]| ensures per[k][m] < |seqSet| && seqSet[per[k][m]] == sets[k] {
        assert per[k][m] == lists[sets[k]][starts[k] + m];
      }
    }
    forall k, m | 0 <= k < m < |per| ensures Apart(per[k], per[m]) {
      assert sets[k] != sets[m];
    }
    NoDupConcat(per);
    ConcatElems(per);
    assert forall j :: 0 <= j < |Concat(per)| ==> Concat(per)[j] in Concat(per);
  }

  // Sets that took nothing may be left out.
  lemma TakesPrefix(seqSet: seq<SeqSet>, lists: map<SeqSet, seq<nat>>, used0: seq<bool>, used: seq<bool>,
                    sets: seq<SeqSet>, starts: seq<nat>, per: seq<seq<nat>>, m: nat)
    requires ListsOf(seqSet, lists) && Takes(seqSet, lists, used0, used, sets, starts, per)
    requires forall k :: 0 <= k < |sets| ==> CutAt(used0, lists[sets[k]], starts[k])
    requires m <= |per| && forall k :: m <= k < |per| ==> per[k] == []
    ensures Takes(seqSet, lists, used0, used, sets[..m], starts[..m], per[..m])
  {
    forall i | 0 <= i < |used| && seqSet[i] !in sets[..m] ensures used[i] == used0[i] {
      if seqSet[i] in sets {
        var k :| 0 <= k < |sets| && sets[k] == seqSet[i];
        assert forall j :: 0 <= j < m ==> sets[..m][j] == sets[j];
        assert k >= m;
        assert TakenFrom(used, lists, sets[k], starts[k], per[k]);
        assert Listed(seqSet, lists, i);
        var p :| 0 <= p < |lists[sets[k]]| && lists[sets[k]][p] == i;
        assert used[lists[sets[k]][p]] <==> p < starts[k];
      }
    }
  }

  // Every list is still used up to a point.
  lemma TakesPrefixed(seqSet: seq<SeqSet>, lists: map<SeqSet, seq<nat>>, used0: seq<bool>, used: seq<bool>,
                      sets: seq<SeqSet>, starts: seq<nat>, per: seq<seq<nat>>)
    requires ListsOf(seqSet, lists) && Takes(seqSet, lists, used0, used, sets, starts, per) && Prefixed(lists, used0)
    ensures Prefixed(lists, used)
  {
    forall s | s in lists ensures CutAt(used, lists[s], Cut(used, lists[s])) {
      if s in sets {
        var k :| 0 <= k < |sets| && sets[k] == s;
        assert TakenFrom(used, lists, sets[k], starts[k], per[k]);
        CutIs(used, lists[s], starts[k] + |per[k]|);
      } else {
        assert ListOk(seqSet, s, lists[s]);
        CutSame(used0, used, lists[s], Cut(used0, lists[s]));
        CutIs(used, lists[s], Cut(used0, lists[s]));
      }
    }
  }

  // Before anything is taken.
  lemma TakesNothing(seqSet: seq<SeqSet>, lists: map<SeqSet, seq<nat>>, used: seq<bool>, sets: seq<SeqSet>,
                     starts: seq<nat>, per: seq<seq<nat>>)
    requires |used| == |seqSet| && |starts| == |sets| && per == seq(|sets|, _ => [])
    requires forall k :: 0 <= k < |sets| ==> sets[k] in lists && CutAt(used, lists[sets[k]], starts[k])
    ensures Takes(seqSet, lists, used, used, sets, starts, per) && Concat(per) == []
  {
    ConcatUniform(per, 0);
  }

  // ---------- the shape of an equal split ----------

  // t columns are as many as fit: one always does, and another one would exceed the limit or
  // ask a set for more than it has.  lens holds what is left of each set.
  predicate Widest(lens: seq<nat>, t: nat, nUbatch: nat) {
    && t >= 1 && (forall k :: 0 <= k < |lens| ==> t <= lens[k])
    && (t == 1 || t * |lens| <= nUbatch)
    && ((t + 1) * |lens| > nUbatch || exists k :: 0 <= k < |lens| && lens[k] == t)
  }

  // Nothing left, or a whole tail.
  predicate TailSafe(left: int, nKeepTail: nat) {
    left == 0 || left >= nKeepTail
  }

  // The sets that stay and the number of columns, under the tail rule.
  predicate TailRule(lens: seq<nat>, t: nat, nUbatch: nat, nKeepTail: nat, nSeqs: nat, width: nat) {
    if nKeepTail == 0 then
      nSeqs == |lens| && width == t
    else if lens == [] then
      false
    else if TailSafe(lens[0] - t, nKeepTail) then
      && width == t && 1 <= nSeqs <= |lens|
      && (forall k :: 0 <= k < nSeqs ==> TailSafe(lens[k] - t, nKeepTail))
      && (nSeqs < |lens| ==> !TailSafe(lens[nSeqs] - t, nKeepTail))
    else
      nSeqs == 1 && width == if lens[0] <= nUbatch then lens[0] else lens[0] - nKeepTail
  }

  // What is left of each set.
  function Lens(used: seq<bool>, lists: map<SeqSet, seq<nat>>, sets: seq<SeqSet>): (lens: seq<nat>)
    requires forall k :: 0 <= k < |sets| ==> sets[k] in lists
  {
    seq(|sets|, k requires 0 <= k < |sets| => |lists[sets[k]]| - Cut(used, lists[sets[k]]))
  }

  // At least one token is taken, whatever the tail rule says.
  lemma EqualProgress(lens: seq<nat>, t: nat, nUbatch: nat, nKeepTail: nat, nSeqs: nat, slices: seq<seq<nat>>)
    requires |slices| == nSeqs >= 1 && |lens| >= nSeqs
    requires Widest(lens, t, nUbatch) && (nKeepTail > 0 ==> nUbatch > nKeepTail)
    requires TailRule(lens, t, nUbatch, nKeepTail, nSeqs, |slices[0]|)
    ensures |slices[0]| >= 1 && Concat(slices) != []
  {
  }
}
