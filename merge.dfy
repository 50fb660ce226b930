/**
  The server-wins merge inside `syncQuotes`, as a specification: the state of
  the `forEach` loop (`merged`, `conflicts`, `updated`) after each remote record,
  and what the whole run does to the local list.
 */
module ServerMerge {
  import opened Quotes

  /** The variables the loop of `syncQuotes` updates. */
  datatype MergeState = MergeState(merged: seq<Quote>, conflicts: nat, updated: bool)

  /** `const merged = [...quotes]`, `conflicts = 0`, `updated = false`. */
  function Start(local: seq<Quote>): MergeState {
    MergeState(local, 0, false)
  }

  /** One iteration of the loop body for the remote record `sq`. */
  function Step(st: MergeState, sq: Quote): MergeState {
    var i := IndexOfId(st.merged, sq.id);
    if i == -1 then MergeState(st.merged + [sq], st.conflicts, true)
    else if st.merged[i].text != sq.text then MergeState(st.merged[i := sq], st.conflicts + 1, true)
    else st
  }

  /** The loop run over the remote records `rs`, in order. */
  function Run(st: MergeState, rs: seq<Quote>): MergeState
    decreases |rs|
  {
    if rs == [] then st else Step(Run(st, rs[..|rs| - 1]), rs[|rs| - 1])
  }

  /** The merge of a non-empty remote list into the local list. */
  function Merge(local: seq<Quote>, rs: seq<Quote>): MergeState {
    Run(Start(local), rs)
  }

  /** The three-way outcome shown after a sync, plus the early return for an empty or missing remote list. */
  datatype SyncStatus = NoData | Resolved(conflicts: nat) | Updated | Unchanged

  function Report(st: MergeState): SyncStatus {
    if st.conflicts > 0 then Resolved(st.conflicts)
    else if st.updated then Updated
    else Unchanged
  }

  /**
    The ids the merge appends: each remote id that is not already `known`,
    once, in the order of its first remote occurrence.
   */
  function NewIds(known: seq<int>, rs: seq<Quote>): (n: seq<int>)
    ensures |n| <= |rs|
    ensures forall i, j :: 0 <= i < j < |n| ==> n[i] != n[j]
    ensures forall x :: x in n <==> x !in known && exists r :: r in rs && r.id == x
    decreases |rs|
  {
    if rs == [] then []
    else
      var init := rs[..|rs| - 1];
      var x := rs[|rs| - 1].id;
      var p := NewIds(known, init);
      assert rs == init + [rs[|rs| - 1]];
      if x in known || x in p then p else p + [x]
  }

  /** `rs[j]` is the last remote record carrying its id. */
  ghost predicate LastOfId(rs: seq<Quote>, j: int) {
    0 <= j < |rs| && forall k :: j < k < |rs| ==> rs[k].id != rs[j].id
  }

  /** No remote record carries `id`. */
  ghost predicate Unmentioned(rs: seq<Quote>, id: int) {
    forall r :: r in rs ==> r.id != id
  }

  /** The first record of `m` carrying `r`'s id exists and has `r`'s text. */
  ghost predicate Agrees(m: seq<Quote>, r: Quote) {
    0 <= IndexOfId(m, r.id) && m[IndexOfId(m, r.id)].text == r.text
  }

  // ---------------------------------------------------------------- one step

  lemma StepIds(st: MergeState, sq: Quote)
    ensures IdsOf(Step(st, sq).merged) ==
      if sq.id in IdsOf(st.merged) then IdsOf(st.merged) else IdsOf(st.merged) + [sq.id]
  {
  }

  /** An id the step does not look up keeps its first position and its record. */
  lemma StepFrame(st: MergeState, sq: Quote, y: int)
    requires y != sq.id && y in IdsOf(st.merged)
    ensures IndexOfId(Step(st, sq).merged, y) == IndexOfId(st.merged, y)
    ensures Step(st, sq).merged[IndexOfId(st.merged, y)] == st.merged[IndexOfId(st.merged, y)]
  {
    var m := st.merged;
    var i := IndexOfId(m, sq.id);
    if i == -1 {
      assert forall k :: 0 <= k < |m| ==> (m + [sq])[k] == m[k];
    } else if m[i].text != sq.text {
      assert IdsOf(m[i := sq]) == IdsOf(m);
      IndexOfIdSameIds(m[i := sq], m, y);
    }
  }

  /** After the step, the first record carrying `sq.id` has `sq`'s text. */
  lemma StepHit(st: MergeState, sq: Quote)
    ensures Agrees(Step(st, sq).merged, sq)
  {
    var i := IndexOfId(st.merged, sq.id);
    var m := Step(st, sq).merged;
    StepIds(st, sq);
    if i == -1 {
      assert m[|st.merged|] == sq;
      IndexOfIdSameIds(m, m, sq.id);
      assert IdsOf(m)[|st.merged|] == sq.id;
      assert forall k :: 0 <= k < |st.merged| ==> IdsOf(m)[k] == IdsOf(st.merged)[k] != sq.id;
    } else {
      IndexOfIdSameIds(m, st.merged, sq.id);
    }
  }

  /** A step for another id keeps every agreement of the list with a record. */
  lemma StepKeepsAgrees(st: MergeState, sq: Quote, r: Quote)
    requires r.id != sq.id && Agrees(st.merged, r)
    ensures Agrees(Step(st, sq).merged, r)
  {
    StepFrame(st, sq, r.id);
  }

  // ---------------------------------------------------------------- whole runs

  /** The loop over `a + b` is the loop over `a` followed by the loop over `b`. */
  lemma {:induction false} RunAppend(st: MergeState, a: seq<Quote>, b: seq<Quote>)
    ensures Run(st, a + b) == Run(Run(st, a), b)
    decreases |b|
  {
    if b == [] {
      assert a + b == a;
    } else {
      var init := b[..|b| - 1];
      assert (a + b)[..|a + b| - 1] == a + init;
      assert (a + b)[|a + b| - 1] == b[|b| - 1];
      RunAppend(st, a, init);
    }
  }

  /**
    Ids never change at a position and the list only grows by appends: the ids
    after the merge are the ids before it followed by the new remote ids.
   */
  lemma {:induction false} RunIds(st: MergeState, rs: seq<Quote>)
    ensures IdsOf(Run(st, rs).merged) == IdsOf(st.merged) + NewIds(IdsOf(st.merged), rs)
    decreases |rs|
  {
    if rs == [] {
      assert IdsOf(st.merged) + [] == IdsOf(st.merged);
    } else {
      var init := rs[..|rs| - 1];
      var sq := rs[|rs| - 1];
      RunIds(st, init);
      StepIds(Run(st, init), sq);
    }
  }

  /** Every record in the result is a local record left where it was, or a remote record. */
  lemma {:induction false} RunProvenance(st: MergeState, rs: seq<Quote>)
    ensures forall i :: 0 <= i < |Run(st, rs).merged| ==>
      Run(st, rs).merged[i] in rs || (i < |st.merged| && Run(st, rs).merged[i] == st.merged[i])
    decreases |rs|
  {
    if rs != [] {
      var init := rs[..|rs| - 1];
      RunProvenance(st, init);
      assert forall r :: r in init ==> r in rs;
      var p := Run(st, init);
      RunIds(st, init);
      assert |st.merged| <= |p.merged| by {
        assert |IdsOf(p.merged)| == |IdsOf(st.merged)| + |NewIds(IdsOf(st.merged), init)|;
      }
    }
  }

  /** The count of conflicts and additions: each remote record adds at most one of them. */
  lemma {:induction false} RunCounts(st: MergeState, rs: seq<Quote>)
    ensures Run(st, rs).conflicts + |NewIds(IdsOf(st.merged), rs)| <= st.conflicts + |rs|
    ensures Run(st, rs).conflicts >= st.conflicts
    ensures Run(st, rs).updated ==
      (st.updated || Run(st, rs).conflicts > st.conflicts || NewIds(IdsOf(st.merged), rs) != [])
    decreases |rs|
  {
    if rs != [] {
      var init := rs[..|rs| - 1];
      var sq := rs[|rs| - 1];
      RunCounts(st, init);
      RunIds(st, init);
      var p := Run(st, init);
      var known := IdsOf(st.merged);
      assert sq.id in IdsOf(p.merged) <==> sq.id in known || sq.id in NewIds(known, init);
    }
  }

  /** A run that sets no flag changed nothing. */
  lemma {:induction false} RunUnchanged(st: MergeState, rs: seq<Quote>)
    requires !st.updated
    ensures !Run(st, rs).updated ==> Run(st, rs) == st
    decreases |rs|
  {
    if rs != [] {
      RunUnchanged(st, rs[..|rs| - 1]);
    }
  }

  /** Server wins: the first record carrying a remote id ends with the text of the last remote record with that id. */
  lemma {:induction false} RunLastWins(st: MergeState, rs: seq<Quote>)
    ensures forall j :: LastOfId(rs, j) ==> Agrees(Run(st, rs).merged, rs[j])
    decreases |rs|
  {
    if rs != [] {
      var init := rs[..|rs| - 1];
      var sq := rs[|rs| - 1];
      RunLastWins(st, init);
      assert rs == init + [sq];
      LastWinsStep(Run(st, init), init, sq);
    }
  }

  /** One more step keeps the last-wins agreements of the records before it and adds its own. */
  lemma LastWinsStep(p: MergeState, init: seq<Quote>, sq: Quote)
    requires forall j :: LastOfId(init, j) ==> Agrees(p.merged, init[j])
    ensures forall j :: LastOfId(init + [sq], j) ==> Agrees(Step(p, sq).merged, (init + [sq])[j])
  {
    var rs := init + [sq];
    StepHit(p, sq);
    forall j | LastOfId(rs, j) ensures Agrees(Step(p, sq).merged, rs[j]) {
      if j < |init| {
        assert rs[j] == init[j] && rs[|init|] == sq;
        assert LastOfId(init, j) by {
          forall k | j < k < |init| ensures init[k].id != init[j].id {
            assert rs[k] == init[k];
          }
        }
        StepKeepsAgrees(p, sq, init[j]);
      } else {
        assert rs[j] == sq;
      }
    }
  }

  /**
    A local record is left exactly as it was unless it is the first record
    carrying its id and some remote record carries that id too.
   */
  lemma {:induction false} RunUntouched(st: MergeState, rs: seq<Quote>, i: int)
    requires 0 <= i < |st.merged|
    requires IndexOfId(st.merged, st.merged[i].id) != i || Unmentioned(rs, st.merged[i].id)
    ensures i < |Run(st, rs).merged| && Run(st, rs).merged[i] == st.merged[i]
    decreases |rs|
  {
    if rs != [] {
      var init := rs[..|rs| - 1];
      var sq := rs[|rs| - 1];
      var y := st.merged[i].id;
      assert forall r :: r in init ==> r in rs;
      assert IndexOfId(st.merged, y) != i || sq.id != y by {
        assert sq in rs;
      }
      RunUntouched(st, init, i);
      var p := Run(st, init);
      assert IdsOf(p.merged)[..|st.merged|] == IdsOf(st.merged) by {
        RunIds(st, init);
      }
      UntouchedStep(st.merged, p, sq, i);
      assert Run(st, rs) == Step(p, sq);
    }
  }

  /** The step for `sq` leaves position `i` alone in a list that extends `a` and still holds `a[i]` there. */
  lemma UntouchedStep(a: seq<Quote>, p: MergeState, sq: Quote, i: int)
    requires 0 <= i < |a| <= |p.merged| && p.merged[i] == a[i]
    requires IdsOf(p.merged)[..|a|] == IdsOf(a)
    requires IndexOfId(a, a[i].id) != i || sq.id != a[i].id
    ensures i < |Step(p, sq).merged| && Step(p, sq).merged[i] == a[i]
  {
    NotLookedUp(a, p.merged, sq.id, i);
  }

  /** Looking `id` up in a list whose ids extend `a`'s does not land on `i`, where `a` has another id or an earlier copy of it. */
  lemma NotLookedUp(a: seq<Quote>, m: seq<Quote>, id: int, i: int)
    requires 0 <= i < |a| <= |m| && m[i] == a[i]
    requires IdsOf(m)[..|a|] == IdsOf(a)
    requires IndexOfId(a, a[i].id) != i || id != a[i].id
    ensures IndexOfId(m, id) != i
  {
    var y := a[i].id;
    if id == y {
      var f := IndexOfId(a, y);
      assert IdsOf(a)[i] == y;
      assert 0 <= f && f != i;
      assert IdsOf(m)[f] == IdsOf(a)[f];
      forall k | 0 <= k < f ensures m[k].id != y {
        assert IdsOf(m)[k] == IdsOf(a)[k];
      }
    }
  }

  /** Records whose text already agrees with the list, by id, leave a run unchanged. */
  lemma {:induction false} RunAgreeing(st: MergeState, rs: seq<Quote>)
    requires forall k :: 0 <= k < |rs| ==> Agrees(st.merged, rs[k])
    ensures Run(st, rs) == st
    decreases |rs|
  {
    if rs != [] {
      RunAgreeing(st, rs[..|rs| - 1]);
    }
  }

  // ---------------------------------------------------------------- the merge

  /**
    Length and order: the local records keep their positions and ids, and the
    list grows by exactly one record per new remote id, appended in remote order.
   */
  lemma MergeShape(local: seq<Quote>, rs: seq<Quote>)
    ensures var m := Merge(local, rs).merged;
      && |m| == |local| + |NewIds(IdsOf(local), rs)|
      && (forall i :: 0 <= i < |local| ==> m[i].id == local[i].id && (m[i] == local[i] || m[i] in rs))
      && (forall i :: |local| <= i < |m| ==> m[i] in rs && m[i].id == NewIds(IdsOf(local), rs)[i - |local|])
  {
    RunIds(Start(local), rs);
    RunProvenance(Start(local), rs);
    ShapeOfIds(local, rs, Merge(local, rs).merged, NewIds(IdsOf(local), rs));
  }

  /** The shape of a list whose ids extend `local`'s by `n` and whose records come from `local` or `rs`. */
  lemma ShapeOfIds(local: seq<Quote>, rs: seq<Quote>, m: seq<Quote>, n: seq<int>)
    requires IdsOf(m) == IdsOf(local) + n
    requires forall i :: 0 <= i < |m| ==> m[i] in rs || (i < |local| && m[i] == local[i])
    ensures |m| == |local| + |n|
    ensures forall i :: 0 <= i < |local| ==> m[i].id == local[i].id && (m[i] == local[i] || m[i] in rs)
    ensures forall i :: |local| <= i < |m| ==> m[i] in rs && m[i].id == n[i - |local|]
  {
    assert |IdsOf(m)| == |m|;
    forall i | 0 <= i < |local|
      ensures m[i].id == local[i].id
    {
      assert IdsOf(m)[i] == IdsOf(local)[i];
    }
    forall i | |local| <= i < |m|
      ensures m[i].id == n[i - |local|]
    {
      assert IdsOf(m)[i] == n[i - |local|];
    }
  }

  /** The outcome reported after a sync says what the merge did. */
  lemma MergeReport(local: seq<Quote>, rs: seq<Quote>)
    ensures var st := Merge(local, rs);
      && (Report(st) == Unchanged <==> st.merged == local && st.conflicts == 0 && !st.updated)
      && (Report(st) == Unchanged <==> NewIds(IdsOf(local), rs) == [] && st.conflicts == 0)
      && (Report(st) == Updated ==> |st.merged| > |local|)
      && (Report(st).Resolved? ==> Report(st).conflicts == st.conflicts > 0)
      && st.conflicts + |NewIds(IdsOf(local), rs)| <= |rs|
  {
    var st := Merge(local, rs);
    RunCounts(Start(local), rs);
    RunUnchanged(Start(local), rs);
    MergeShape(local, rs);
  }

  /** Server wins on conflict: see `RunLastWins` and `RunUntouched`, stated for the merge. */
  lemma MergeServerWins(local: seq<Quote>, rs: seq<Quote>)
    ensures forall j :: LastOfId(rs, j) ==> Agrees(Merge(local, rs).merged, rs[j])
    ensures forall i :: 0 <= i < |local| && Unmentioned(rs, local[i].id) ==>
      i < |Merge(local, rs).merged| && Merge(local, rs).merged[i] == local[i]
  {
    RunLastWins(Start(local), rs);
    forall i | 0 <= i < |local| && Unmentioned(rs, local[i].id)
      ensures i < |Merge(local, rs).merged| && Merge(local, rs).merged[i] == local[i]
    {
      RunUntouched(Start(local), rs, i);
    }
  }

  /** Syncing again with the same server records (distinct ids) changes nothing and reports nothing. */
  lemma MergeResyncIsNoop(local: seq<Quote>, rs: seq<Quote>)
    requires forall j, k :: 0 <= j < k < |rs| ==> rs[j].id != rs[k].id
    ensures var m := Merge(local, rs).merged; Merge(m, rs) == Start(m)
  {
    var m := Merge(local, rs).merged;
    RunLastWins(Start(local), rs);
    forall k | 0 <= k < |rs| ensures Agrees(m, rs[k]) {
      assert LastOfId(rs, k);
    }
    RunAgreeing(Start(m), rs);
  }

  /**
    One remote record: a new id is appended; a known id with different text
    replaces the whole first record with that id (category included) and counts
    one conflict; a known id with equal text changes nothing, whatever the category.
   */
  lemma MergeOne(local: seq<Quote>, sq: Quote)
    ensures var st := Merge(local, [sq]); var i := IndexOfId(local, sq.id);
      && (sq.id !in IdsOf(local) ==> st == MergeState(local + [sq], 0, true))
      && (0 <= i && local[i].text != sq.text ==>
            st == MergeState(local[i := sq], 1, true) && st.merged[i] == sq)
      && (0 <= i && local[i].text == sq.text ==> st == Start(local))
  {
    var rs := [sq];
    assert rs[..|rs| - 1] == [] && rs[|rs| - 1] == sq;
    assert Merge(local, rs) == Step(Run(Start(local), []), sq);
  }

  /** The merged list of a run depends only on the list it starts from, not on the counters. */
  lemma {:induction false} RunMergedOnly(st: MergeState, rs: seq<Quote>)
    ensures Run(st, rs).merged == Run(Start(st.merged), rs).merged
    decreases |rs|
  {
    if rs != [] {
      RunMergedOnly(st, rs[..|rs| - 1]);
    }
  }

  /** Two sync cycles in a row leave the list a single cycle over both server answers would leave. */
  lemma MergeTwice(local: seq<Quote>, a: seq<Quote>, b: seq<Quote>)
    ensures Merge(Merge(local, a).merged, b).merged == Merge(local, a + b).merged
  {
    RunAppend(Start(local), a, b);
    RunMergedOnly(Merge(local, a), b);
  }

  /** The worked example: a conflicting record of the server overwrites the local one. */
  lemma MergeExample()
    ensures Merge([Quote(1, "A", "X")], [Quote(1, "B", "Y")]) == MergeState([Quote(1, "B", "Y")], 1, true)
  {
    MergeOne([Quote(1, "A", "X")], Quote(1, "B", "Y"));
  }
}
