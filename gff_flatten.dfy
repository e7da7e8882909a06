/** Merging of overlapping or adjacent features (gff_flatten_sub,
    gff_flatten and gff_flatten_within_groups, src/lib/feature/gff.c:1290-1397).

    The feature list is walked once, keeping the last kept feature `last`.
    A feature that can be merged into `last` extends it (its end becomes the
    feature's end, scores add when both are present) and is dropped;
    any other feature is kept and becomes `last`.  The new list only replaces
    the old one when something merged. */
module GffFlatten {
  import opened Util
  import opened GffFeature
  import opened GffSet

  /** The merge test of the source: `a` reaches at least the base before
      `b`, on the same strand, with the same type, and neither has a frame. */
  predicate Mergeable(a: Feature, b: Feature) {
    a.end >= b.start - 1 && a.strand == b.strand && a.feature == b.feature &&
    a.frame == NULL_FRAME && b.frame == NULL_FRAME
  }

  /** `a` after `b` has been merged into it: the end is copied from `b`
      (even when that shrinks `a`), and the scores add when both exist. */
  function Merge(a: Feature, b: Feature): Feature {
    a.(end := b.end, score := if !a.scoreIsNull && !b.scoreIsNull then a.score + b.score else a.score)
  }

  /** Removing the member at `p` of group `g`.  This is the evident intent of
      src/lib/feature/gff.c:1323, which passes the group structure itself,
      not its feature list, to the list deletion. */
  function DeleteMember(gs: seq<Group>, g: nat, p: nat): seq<Group>
    requires g < |gs| && p < |gs[g].members|
  {
    var ms := gs[g].members;
    gs[g := gs[g].(members := ms[..p] + ms[p + 1..])]
  }

  /** The state of the walk: the feature objects, the kept list, the last
      kept feature, the groups and whether anything merged. */
  datatype FlatState = FlatState(arena: seq<Feature>, keepers: seq<nat>, last: nat,
                                 groups: seq<Group>, changed: bool)

  /** One feature `x` of the walk.  With `keep` (groups kept), a mergeable
      pair whose features are in different groups is skipped, which drops
      `x` from the kept list; otherwise `x` leaves its group. */
  function Step(st: FlatState, x: nat, keep: bool): FlatState
    requires st.last < |st.arena| && x < |st.arena|
  {
    var last := st.arena[st.last];
    var cur := st.arena[x];
    if !Mergeable(last, cur) then st.(keepers := st.keepers + [x], last := x)
    else if keep then
      match (FindMember(st.groups, x, 0), FindMember(st.groups, st.last, 0))
      case (Some((tg, tp)), Some((lg, _))) =>
        if tg != lg then st
        else st.(arena := st.arena[st.last := Merge(last, cur)],
                 groups := DeleteMember(st.groups, tg, tp), changed := true)
      case _ => st
    else st.(arena := st.arena[st.last := Merge(last, cur)], changed := true)
  }

  /** The walk over fs[..n], starting from fs[0]. */
  function Fold(arena: seq<Feature>, gs: seq<Group>, fs: seq<nat>, n: nat, keep: bool): (r: FlatState)
    requires 1 <= n <= |fs| && InArena(fs, |arena|)
    ensures |r.arena| == |arena| && r.last < |arena|
    decreases n
  {
    if n == 1 then FlatState(arena, [fs[0]], fs[0], gs, false)
    else Step(Fold(arena, gs, fs, n - 1, keep), fs[n - 1], keep)
  }

  /** The new objects, feature list and grouping of gff_flatten_sub. */
  function FlattenResult(arena: seq<Feature>, fs: seq<nat>, grouping: Option<Grouping>, keepGroups: bool)
    : (seq<Feature>, seq<nat>, Option<Grouping>)
    requires InArena(fs, |arena|)
  {
    if |fs| <= 1 then (arena, fs, grouping)
    else
      var keep := keepGroups && grouping.Some?;
      var st := Fold(arena, if grouping.Some? then grouping.value.groups else [], fs, |fs|, keep);
      var g' := if keep then Some(grouping.value.(groups := st.groups)) else grouping;
      (st.arena, if st.changed then st.keepers else fs,
       if st.changed && !keepGroups then None else g')
  }

  // ---------------------------------------------------------------------
  // Properties of the walk
  // ---------------------------------------------------------------------

  /** No consecutive pair of `fs` passes the merge test. */
  predicate NoMergeablePair(arena: seq<Feature>, fs: seq<nat>)
    requires InArena(fs, |arena|)
  {
    forall k :: 0 <= k < |fs| - 1 ==> !Mergeable(arena[fs[k]], arena[fs[k + 1]])
  }

  predicate MergeableAt(arena: seq<Feature>, fs: seq<nat>, k: nat)
    requires InArena(fs, |arena|) && k + 1 < |fs|
  {
    Mergeable(arena[fs[k]], arena[fs[k + 1]])
  }

  /** The kept list is non-empty, ends with `last`, indexes the objects and
      is no longer than the part walked. */
  lemma {:induction false} FoldShape(arena: seq<Feature>, gs: seq<Group>, fs: seq<nat>, n: nat, keep: bool)
    requires 1 <= n <= |fs| && InArena(fs, |arena|)
    ensures var st := Fold(arena, gs, fs, n, keep);
      1 <= |st.keepers| <= n && st.keepers[|st.keepers| - 1] == st.last &&
      InArena(st.keepers, |arena|) && (st.changed ==> |st.keepers| < n)
    decreases n
  {
    if n > 1 {
      FoldShape(arena, gs, fs, n - 1, keep);
      var st := Fold(arena, gs, fs, n - 1, keep);
      StepShape(st, fs[n - 1], keep, n - 1);
      assert Fold(arena, gs, fs, n, keep) == Step(st, fs[n - 1], keep);
    }
  }

  /** One step keeps the kept list ending with `last`, grows it by at most
      one, and grows it by exactly one unless something merged. */
  lemma StepShape(st: FlatState, x: nat, keep: bool, n: nat)
    requires st.last < |st.arena| && x < |st.arena|
    requires 1 <= |st.keepers| <= n && st.keepers[|st.keepers| - 1] == st.last &&
             InArena(st.keepers, |st.arena|) && (st.changed ==> |st.keepers| < n)
    ensures var r := Step(st, x, keep);
      1 <= |r.keepers| <= n + 1 && r.keepers[|r.keepers| - 1] == r.last &&
      InArena(r.keepers, |st.arena|) && (r.changed ==> |r.keepers| < n + 1)
  {
    var r := Step(st, x, keep);
    if Mergeable(st.arena[st.last], st.arena[x]) {
      assert r.keepers == st.keepers && r.last == st.last;
    } else {
      assert r == st.(keepers := st.keepers + [x], last := x);
    }
  }

  /** With no duplicate in `fs`, neither the kept features nor `last` occur
      in the part not yet walked, and `last` occurs once in the kept list. */
  lemma {:induction false} FoldFresh(arena: seq<Feature>, gs: seq<Group>, fs: seq<nat>, n: nat, keep: bool)
    requires 1 <= n <= |fs| && InArena(fs, |arena|) && NoDup(fs)
    ensures var st := Fold(arena, gs, fs, n, keep);
      (forall k, j :: 0 <= k < |st.keepers| && n <= j < |fs| ==> st.keepers[k] != fs[j]) &&
      (forall j :: n <= j < |fs| ==> st.last != fs[j]) &&
      (forall k :: 0 <= k < |st.keepers| - 1 ==> st.keepers[k] != st.last)
    decreases n
  {
    if n > 1 {
      FoldFresh(arena, gs, fs, n - 1, keep);
      FoldShape(arena, gs, fs, n - 1, keep);
    }
  }

  /** The features not yet walked are untouched. */
  lemma {:induction false} FoldUntouched(arena: seq<Feature>, gs: seq<Group>, fs: seq<nat>, n: nat, keep: bool)
    requires 1 <= n <= |fs| && InArena(fs, |arena|) && NoDup(fs)
    ensures var st := Fold(arena, gs, fs, n, keep);
      forall j :: n <= j < |fs| ==> st.arena[fs[j]] == arena[fs[j]]
    decreases n
  {
    if n > 1 {
      FoldUntouched(arena, gs, fs, n - 1, keep);
      FoldFresh(arena, gs, fs, n - 1, keep);
    }
  }

  /** Merging changes only the end and the score. */
  lemma MergeKeeps(a: Feature, b: Feature)
    ensures var m := Merge(a, b);
      m.start == a.start && m.strand == a.strand && m.feature == a.feature && m.frame == a.frame &&
      m.end == b.end
  {
  }

  /** No consecutive pair of the kept list passes the merge test. */
  lemma {:induction false} FoldChain(arena: seq<Feature>, gs: seq<Group>, fs: seq<nat>, n: nat, keep: bool)
    requires 1 <= n <= |fs| && InArena(fs, |arena|) && NoDup(fs)
    ensures var st := Fold(arena, gs, fs, n, keep);
      InArena(st.keepers, |st.arena|) && NoMergeablePair(st.arena, st.keepers)
    decreases n
  {
    if n > 1 {
      FoldChain(arena, gs, fs, n - 1, keep);
      FoldChainStep(arena, gs, fs, n, keep);
    }
  }

  lemma FoldChainStep(arena: seq<Feature>, gs: seq<Group>, fs: seq<nat>, n: nat, keep: bool)
    requires 1 < n <= |fs| && InArena(fs, |arena|) && NoDup(fs)
    requires var p := Fold(arena, gs, fs, n - 1, keep);
      InArena(p.keepers, |p.arena|) && NoMergeablePair(p.arena, p.keepers)
    ensures var st := Fold(arena, gs, fs, n, keep);
      InArena(st.keepers, |st.arena|) && NoMergeablePair(st.arena, st.keepers)
  {
    FoldShape(arena, gs, fs, n - 1, keep);
    FoldFresh(arena, gs, fs, n - 1, keep);
    StepChain(Fold(arena, gs, fs, n - 1, keep), fs[n - 1], keep);
  }

  /** One step keeps the kept list free of mergeable neighbours. */
  lemma StepChain(st: FlatState, x: nat, keep: bool)
    requires InArena(st.keepers, |st.arena|) && |st.keepers| > 0 && x < |st.arena|
    requires st.keepers[|st.keepers| - 1] == st.last
    requires forall k :: 0 <= k < |st.keepers| - 1 ==> st.keepers[k] != st.last
    requires NoMergeablePair(st.arena, st.keepers)
    ensures var st' := Step(st, x, keep);
      InArena(st'.keepers, |st'.arena|) && NoMergeablePair(st'.arena, st'.keepers)
  {
    var m := Merge(st.arena[st.last], st.arena[x]);
    if !Mergeable(st.arena[st.last], st.arena[x]) {
      ChainPush(st.arena, st.keepers, x);
    } else {
      MergeKeeps(st.arena[st.last], st.arena[x]);
      ChainMerge(st.arena, st.keepers, m);
      var st' := Step(st, x, keep);
      assert st' == st || (st'.arena == st.arena[st.last := m] && st'.keepers == st.keepers);
    }
  }

  /** Appending a feature that does not merge with the last one keeps the
      chain. */
  lemma ChainPush(arena: seq<Feature>, ks: seq<nat>, x: nat)
    requires InArena(ks, |arena|) && x < |arena| && NoMergeablePair(arena, ks) && |ks| > 0
    requires !Mergeable(arena[ks[|ks| - 1]], arena[x])
    ensures InArena(ks + [x], |arena|) && NoMergeablePair(arena, ks + [x])
  {
    var r := ks + [x];
    forall k | 0 <= k < |r| - 1
      ensures !Mergeable(arena[r[k]], arena[r[k + 1]])
    {
      if k < |ks| - 1 {
        assert r[k] == ks[k] && r[k + 1] == ks[k + 1];
      }
    }
  }

  /** Replacing the last kept feature's object by one with the same start,
      strand, type and frame keeps the chain, when that feature occurs only
      at the end. */
  lemma ChainMerge(arena: seq<Feature>, ks: seq<nat>, m: Feature)
    requires InArena(ks, |arena|) && NoMergeablePair(arena, ks) && |ks| > 0
    requires forall k :: 0 <= k < |ks| - 1 ==> ks[k] != ks[|ks| - 1]
    requires var o := arena[ks[|ks| - 1]];
      m.start == o.start && m.strand == o.strand && m.feature == o.feature && m.frame == o.frame
    ensures var a := arena[ks[|ks| - 1] := m];
      InArena(ks, |a|) && NoMergeablePair(a, ks)
  {
    var a := arena[ks[|ks| - 1] := m];
    forall k | 0 <= k < |ks| - 1
      ensures !Mergeable(a[ks[k]], a[ks[k + 1]])
    {
      assert a[ks[k]] == arena[ks[k]];
      assert !Mergeable(arena[ks[k]], arena[ks[k + 1]]);
    }
  }

  /** Until something merges (without kept groups), the walk keeps every
      feature and touches nothing; it merges at some point exactly when some
      consecutive pair of the input passes the merge test. */
  lemma {:induction false} FoldQuiet(arena: seq<Feature>, gs: seq<Group>, fs: seq<nat>, n: nat)
    requires 1 <= n <= |fs| && InArena(fs, |arena|)
    ensures var st := Fold(arena, gs, fs, n, false);
      (st.changed <==> exists k :: 0 <= k < n - 1 && MergeableAt(arena, fs, k)) &&
      (!st.changed ==> st.arena == arena && st.keepers == fs[..n] && st.last == fs[n - 1]) &&
      st.groups == gs
    decreases n
  {
    if n > 1 {
      FoldQuiet(arena, gs, fs, n - 1);
      var st := Fold(arena, gs, fs, n - 1, false);
      assert Fold(arena, gs, fs, n, false) == Step(st, fs[n - 1], false);
      if !st.changed {
        assert fs[..n - 1] + [fs[n - 1]] == fs[..n];
        assert MergeableAt(arena, fs, n - 2) ==> exists k :: 0 <= k < n - 1 && MergeableAt(arena, fs, k);
      }
    }
  }

  /** Deleting another feature's membership keeps `y` grouped. */
  lemma DeleteKeepsOthers(gs: seq<Group>, g: nat, p: nat, y: nat)
    requires g < |gs| && p < |gs[g].members| && gs[g].members[p] != y && InSomeGroup(gs, y)
    ensures InSomeGroup(DeleteMember(gs, g, p), y)
  {
    var h :| 0 <= h < |gs| && y in gs[h].members;
    var d := DeleteMember(gs, g, p);
    if h == g {
      var ms := gs[g].members;
      var q :| 0 <= q < |ms| && ms[q] == y;
      if q < p {
        assert d[g].members[q] == y;
      } else {
        assert d[g].members[q - 1] == y;
      }
      assert y in d[g].members;
    } else {
      assert d[h] == gs[h];
    }
  }

  /** Every feature in a group (all of `fs`, at the start) that is still to
      be walked, and `last`, remain in some group during a walk that keeps
      groups. */
  predicate AllGrouped(gs: seq<Group>, fs: seq<nat>) {
    forall k :: 0 <= k < |fs| ==> InSomeGroup(gs, fs[k])
  }

  lemma {:induction false} FoldGrouped(arena: seq<Feature>, gs: seq<Group>, fs: seq<nat>, n: nat, keep: bool)
    requires 1 <= n <= |fs| && InArena(fs, |arena|) && NoDup(fs) && AllGrouped(gs, fs)
    ensures var st := Fold(arena, gs, fs, n, keep);
      InSomeGroup(st.groups, st.last) && forall j :: n <= j < |fs| ==> InSomeGroup(st.groups, fs[j])
    decreases n
  {
    if n > 1 {
      FoldGrouped(arena, gs, fs, n - 1, keep);
      FoldGroupedStep(arena, gs, fs, n, keep);
    }
  }

  lemma FoldGroupedStep(arena: seq<Feature>, gs: seq<Group>, fs: seq<nat>, n: nat, keep: bool)
    requires 1 < n <= |fs| && InArena(fs, |arena|) && NoDup(fs)
    requires var p := Fold(arena, gs, fs, n - 1, keep);
      InSomeGroup(p.groups, p.last) && forall j :: n - 1 <= j < |fs| ==> InSomeGroup(p.groups, fs[j])
    ensures var st := Fold(arena, gs, fs, n, keep);
      InSomeGroup(st.groups, st.last) && forall j :: n <= j < |fs| ==> InSomeGroup(st.groups, fs[j])
  {
    FoldFresh(arena, gs, fs, n - 1, keep);
    StepGrouped(Fold(arena, gs, fs, n - 1, keep), fs, n - 1, keep);
  }

  lemma StepGrouped(st: FlatState, fs: seq<nat>, i: nat, keep: bool)
    requires i < |fs| && NoDup(fs) && st.last < |st.arena| && fs[i] < |st.arena|
    requires st.last != fs[i]
    requires InSomeGroup(st.groups, st.last) && forall j :: i <= j < |fs| ==> InSomeGroup(st.groups, fs[j])
    ensures var st' := Step(st, fs[i], keep);
      InSomeGroup(st'.groups, st'.last) && forall j :: i + 1 <= j < |fs| ==> InSomeGroup(st'.groups, fs[j])
  {
    var x := fs[i];
    var r := FindMember(st.groups, x, 0);
    var rl := FindMember(st.groups, st.last, 0);
    if Mergeable(st.arena[st.last], st.arena[x]) && keep && r.Some? && rl.Some? && r.value.0 == rl.value.0 {
      var (tg, tp) := r.value;
      var d := DeleteMember(st.groups, tg, tp);
      assert Step(st, x, keep).groups == d && Step(st, x, keep).last == st.last;
      DeleteKeepsOthers(st.groups, tg, tp, st.last);
      forall j | i + 1 <= j < |fs|
        ensures InSomeGroup(d, fs[j])
      {
        DeleteKeepsOthers(st.groups, tg, tp, fs[j]);
      }
    }
  }

  /** The groups keep indexing the objects. */
  lemma {:induction false} FoldGroupsInArena(arena: seq<Feature>, gs: seq<Group>, fs: seq<nat>, n: nat, keep: bool)
    requires 1 <= n <= |fs| && InArena(fs, |arena|) && GroupsInArena(gs, |arena|)
    ensures GroupsInArena(Fold(arena, gs, fs, n, keep).groups, |arena|)
    decreases n
  {
    if n > 1 {
      FoldGroupsInArena(arena, gs, fs, n - 1, keep);
      var st := Fold(arena, gs, fs, n - 1, keep);
      var x := fs[n - 1];
      var r := FindMember(st.groups, x, 0);
      if Mergeable(st.arena[st.last], st.arena[x]) && keep && r.Some? {
        var (tg, tp) := r.value;
        DeleteInArena(st.groups, tg, tp, |arena|);
      }
    }
  }

  lemma DeleteInArena(gs: seq<Group>, g: nat, p: nat, n: nat)
    requires g < |gs| && p < |gs[g].members| && GroupsInArena(gs, n)
    ensures GroupsInArena(DeleteMember(gs, g, p), n)
  {
    var ms := gs[g].members;
    assert InArena(ms, n);
    var d := DeleteMember(gs, g, p);
    forall k | 0 <= k < |d[g].members|
      ensures d[g].members[k] < n
    {
      if k < p {
        assert d[g].members[k] == ms[k];
      } else {
        assert d[g].members[k] == ms[k + 1];
      }
    }
  }

  // ---------------------------------------------------------------------
  // Properties of the whole operation
  // ---------------------------------------------------------------------

  predicate HasMergeablePair(arena: seq<Feature>, fs: seq<nat>)
    requires InArena(fs, |arena|)
  {
    exists k :: 0 <= k < |fs| - 1 && MergeableAt(arena, fs, k)
  }

  /** The feature count never increases, and the new list indexes the
      objects. */
  lemma FlattenCount(arena: seq<Feature>, fs: seq<nat>, grouping: Option<Grouping>, keepGroups: bool)
    requires InArena(fs, |arena|)
    ensures var r := FlattenResult(arena, fs, grouping, keepGroups);
      |r.1| <= |fs| && |r.0| == |arena| && InArena(r.1, |r.0|)
  {
    if |fs| > 1 {
      FoldShape(arena, if grouping.Some? then grouping.value.groups else [], fs, |fs|,
                keepGroups && grouping.Some?);
    }
  }

  /** Without kept groups: if no consecutive pair passes the merge test,
      nothing changes; if one does, the grouping is dropped and the list
      gets strictly shorter. */
  lemma FlattenChangesIff(arena: seq<Feature>, fs: seq<nat>, grouping: Option<Grouping>)
    requires InArena(fs, |arena|)
    ensures var r := FlattenResult(arena, fs, grouping, false);
      (!HasMergeablePair(arena, fs) ==> r == (arena, fs, grouping)) &&
      (HasMergeablePair(arena, fs) ==> r.2 == None && |r.1| < |fs|)
  {
    if |fs| > 1 {
      var gs := if grouping.Some? then grouping.value.groups else [];
      FoldQuiet(arena, gs, fs, |fs|);
      FoldShape(arena, gs, fs, |fs|, false);
      assert fs[..|fs|] == fs;
    }
  }

  /** Without kept groups and with no feature listed twice, no consecutive
      pair of the result passes the merge test. */
  lemma FlattenLeavesNoPair(arena: seq<Feature>, fs: seq<nat>, grouping: Option<Grouping>)
    requires InArena(fs, |arena|) && NoDup(fs)
    ensures var r := FlattenResult(arena, fs, grouping, false);
      InArena(r.1, |r.0|) && NoMergeablePair(r.0, r.1)
  {
    FlattenCount(arena, fs, grouping, false);
    if |fs| > 1 {
      var gs := if grouping.Some? then grouping.value.groups else [];
      FoldQuiet(arena, gs, fs, |fs|);
      FoldChain(arena, gs, fs, |fs|, false);
      if !Fold(arena, gs, fs, |fs|, false).changed {
        forall k | 0 <= k < |fs| - 1
          ensures !Mergeable(arena[fs[k]], arena[fs[k + 1]])
        {
          assert !MergeableAt(arena, fs, k);
        }
      }
    }
  }

  /** Flattening twice changes nothing more than flattening once. */
  lemma FlattenIdempotent(arena: seq<Feature>, fs: seq<nat>, grouping: Option<Grouping>)
    requires InArena(fs, |arena|) && NoDup(fs)
    ensures var r := FlattenResult(arena, fs, grouping, false);
      InArena(r.1, |r.0|) && FlattenResult(r.0, r.1, r.2, false) == r
  {
    var r := FlattenResult(arena, fs, grouping, false);
    FlattenLeavesNoPair(arena, fs, grouping);
    FlattenChangesIff(r.0, r.1, r.2);
    forall k | 0 <= k < |r.1| - 1
      ensures !MergeableAt(r.0, r.1, k)
    {
      assert !Mergeable(r.0[r.1[k]], r.0[r.1[k + 1]]);
    }
  }

  // ---------------------------------------------------------------------
  // Examples
  // ---------------------------------------------------------------------

  /** Two overlapping scored exons merge into one spanning both, with the
      scores added. */
  lemma FlattenMergeScenario()
    ensures var f1 := Feature("chr1", "src", "exon", 1, 10, 2.0, Plus, NULL_FRAME, "", false);
      var f2 := Feature("chr1", "src", "exon", 5, 15, 3.0, Plus, NULL_FRAME, "", false);
      FlattenResult([f1, f2], [0, 1], None, false) ==
        ([f1.(end := 15, score := 5.0), f2], [0], None)
  {
    var f1 := Feature("chr1", "src", "exon", 1, 10, 2.0, Plus, NULL_FRAME, "", false);
    var f2 := Feature("chr1", "src", "exon", 5, 15, 3.0, Plus, NULL_FRAME, "", false);
    var st := FlatState([f1, f2], [0], 0, [], false);
    assert Fold([f1, f2], [], [0, 1], 1, false) == st;
    assert Mergeable(f1, f2);
    assert Merge(f1, f2) == f1.(end := 15, score := 5.0);
    assert Fold([f1, f2], [], [0, 1], 2, false) == Step(st, 1, false);
    assert Step(st, 1, false) == FlatState([Merge(f1, f2), f2], [0], 0, [], true);
    var r := FlattenResult([f1, f2], [0, 1], None, false);
    assert r.0 == [Merge(f1, f2), f2];
    assert r.1 == [0];
    assert r.2 == None;
  }

  /** A feature contained in the last one still sets its end, so the merged
      feature shrinks: [1,100] followed by [10,20] becomes [1,20]. */
  lemma FlattenShrinkScenario()
    ensures var f1 := Feature("chr1", "src", "exon", 1, 100, 0.0, Plus, NULL_FRAME, "", true);
      var f2 := Feature("chr1", "src", "exon", 10, 20, 0.0, Plus, NULL_FRAME, "", true);
      var r := FlattenResult([f1, f2], [0, 1], None, false);
      r.1 == [0] && r.0[0].start == 1 && r.0[0].end == 20
  {
    var f1 := Feature("chr1", "src", "exon", 1, 100, 0.0, Plus, NULL_FRAME, "", true);
    var f2 := Feature("chr1", "src", "exon", 10, 20, 0.0, Plus, NULL_FRAME, "", true);
    assert Fold([f1, f2], [], [0, 1], 1, false) == FlatState([f1, f2], [0], 0, [], false);
  }

  /** With kept groups, a mergeable neighbour from another group is skipped
      and so vanishes from the feature list once anything merges, although
      its group still holds it: f1 (group B) lies between f0 and f2 (group
      A), f2 merges into f0, and only f0 is listed afterwards. */
  lemma FlattenKeepGroupsScenario()
    ensures var f0 := Feature("chr1", "src", "exon", 1, 10, 0.0, Plus, NULL_FRAME, "", true);
      var f1 := Feature("chr1", "src", "exon", 5, 15, 0.0, Plus, NULL_FRAME, "", true);
      var f2 := Feature("chr1", "src", "exon", 11, 20, 0.0, Plus, NULL_FRAME, "", true);
      var g := Grouping("gene_id", [Group("A", [0, 2], 1, 20), Group("B", [1], 5, 15)]);
      var r := FlattenResult([f0, f1, f2], [0, 1, 2], Some(g), true);
      r.1 == [0] && r.2 == Some(Grouping("gene_id", [Group("A", [0], 1, 20), Group("B", [1], 5, 15)]))
  {
    var f0 := Feature("chr1", "src", "exon", 1, 10, 0.0, Plus, NULL_FRAME, "", true);
    var f1 := Feature("chr1", "src", "exon", 5, 15, 0.0, Plus, NULL_FRAME, "", true);
    var f2 := Feature("chr1", "src", "exon", 11, 20, 0.0, Plus, NULL_FRAME, "", true);
    var gs := [Group("A", [0, 2], 1, 20), Group("B", [1], 5, 15)];
    var arena := [f0, f1, f2];
    var st1 := FlatState(arena, [0], 0, gs, false);
    assert Fold(arena, gs, [0, 1, 2], 1, true) == st1;
    assert FindMember(gs, 1, 0) == Some((1, 0));
    assert FindMember(gs, 0, 0) == Some((0, 0));
    assert Fold(arena, gs, [0, 1, 2], 2, true) == st1;
    assert FindMember(gs, 2, 0) == Some((0, 1));
    assert [0, 2][..1] + [0, 2][2..] == [0];
    assert DeleteMember(gs, 0, 1) == [Group("A", [0], 1, 20), Group("B", [1], 5, 15)];
    assert Fold(arena, gs, [0, 1, 2], 3, true) == Step(st1, 2, true);
  }

  // ---------------------------------------------------------------------
  // The procedures
  // ---------------------------------------------------------------------

  /** The body of the walk for one feature `x`. */
  method FlattenStep(st: FlatState, x: nat, keep: bool) returns (st2: FlatState)
    requires st.last < |st.arena| && x < |st.arena|
    requires keep ==> InSomeGroup(st.groups, x) && InSomeGroup(st.groups, st.last)
    ensures st2 == Step(st, x, keep)
  {
    var last := st.arena[st.last];
    var cur := st.arena[x];
    if last.end >= cur.start - 1 && last.strand == cur.strand && last.feature == cur.feature &&
       last.frame == NULL_FRAME && cur.frame == NULL_FRAME
    {
      var groups := st.groups;
      if keep {
        var thisGrp, thisPos := FindInGroups(groups, x);
        var lastGrp, _ := FindInGroups(groups, st.last);
        if thisGrp != lastGrp {
          return st;
        }
        var ms := groups[thisGrp].members;
        groups := groups[thisGrp := groups[thisGrp].(members := ms[..thisPos] + ms[thisPos + 1..])];
      }
      var merged := last.(end := cur.end);
      if !last.scoreIsNull && !cur.scoreIsNull {
        merged := merged.(score := last.score + cur.score);
      }
      st2 := st.(arena := st.arena[st.last := merged], groups := groups, changed := true);
    } else {
      st2 := st.(keepers := st.keepers + [x], last := x);
    }
  }

  /** The walk over the whole feature list. */
  method FlattenWalk(arena: seq<Feature>, gs: seq<Group>, fs: seq<nat>, keep: bool) returns (st: FlatState)
    requires 1 <= |fs| && InArena(fs, |arena|)
    requires keep ==> NoDup(fs) && AllGrouped(gs, fs)
    ensures st == Fold(arena, gs, fs, |fs|, keep)
  {
    st := FlatState(arena, [fs[0]], fs[0], gs, false);
    var i := 1;
    while i < |fs|
      invariant 1 <= i <= |fs|
      invariant st == Fold(arena, gs, fs, i, keep)
      decreases |fs| - i
    {
      if keep {
        FoldGrouped(arena, gs, fs, i, keep);
      }
      st := FlattenStep(st, fs[i], keep);
      i := i + 1;
    }
  }

  /** gff_flatten_sub.  With `keepGroups` on a grouped set, every feature
      must be in some group (the source dies on a feature it cannot find)
      and listed once. */
  method FlattenSub(gff: FeatureSet, keepGroups: bool)
    requires gff.Valid()
    requires keepGroups && gff.grouping.Some? ==>
      NoDup(gff.features) && AllGrouped(gff.grouping.value.groups, gff.features)
    modifies gff
    ensures gff.Valid() && gff.header == old(gff.header)
    ensures (gff.arena, gff.features, gff.grouping) ==
      FlattenResult(old(gff.arena), old(gff.features), old(gff.grouping), keepGroups)
  {
    var arena := gff.arena;
    var fs := gff.features;
    var grouping := gff.grouping;
    FlattenCount(arena, fs, grouping, keepGroups);
    if |fs| <= 1 {
      return;
    }
    var keep := keepGroups && grouping.Some?;
    var gs := if grouping.Some? then grouping.value.groups else [];
    var st := FlattenWalk(arena, gs, fs, keep);
    FoldGroupsInArena(arena, gs, fs, |fs|, keep);
    gff.arena := st.arena;
    if keep {
      gff.grouping := Some(grouping.value.(groups := st.groups));
    }
    if st.changed {
      gff.features := st.keepers;
      if grouping.Some? && !keepGroups {
        Ungroup(gff);
      }
    }
  }

  /** gff_flatten: merging across groups, dropping the grouping when
      anything merged. */
  method Flatten(gff: FeatureSet)
    requires gff.Valid()
    modifies gff
    ensures gff.Valid() && gff.header == old(gff.header)
    ensures (gff.arena, gff.features, gff.grouping) ==
      FlattenResult(old(gff.arena), old(gff.features), old(gff.grouping), false)
  {
    FlattenSub(gff, false);
  }

  /** gff_flatten_within_groups: its loop never consults the groups, so it
      behaves exactly like gff_flatten. */
  method FlattenWithinGroups(gff: FeatureSet)
    requires gff.Valid()
    modifies gff
    ensures gff.Valid() && gff.header == old(gff.header)
    ensures (gff.arena, gff.features, gff.grouping) ==
      FlattenResult(old(gff.arena), old(gff.features), old(gff.grouping), false)
  {
    var arena := gff.arena;
    var fs := gff.features;
    var grouping := gff.grouping;
    FlattenCount(arena, fs, grouping, false);
    if |fs| <= 1 {
      return;
    }
    var gs := if grouping.Some? then grouping.value.groups else [];
    var st := FlattenWalk(arena, gs, fs, false);
    FoldQuiet(arena, gs, fs, |fs|);
    gff.arena := st.arena;
    if st.changed {
      gff.features := st.keepers;
      if grouping.Some? {
        Ungroup(gff);
      }
    }
  }
}
