/** Grouping of contiguous features into "exons" (gff_exon_group,
    src/lib/feature/gff.c:737-795).

    Within each existing group (or the whole set, when it is not grouped),
    the members are visited in sorted order and numbered by runs: a new run
    starts at the first member, at a member that begins beyond the end of the
    furthest-reaching member seen so far (plus one), and at a member whose
    strand differs from that one's.  Each member's attribute gets the tag with
    a label made of the group name and the run number, and the set is then
    regrouped by that tag. */
module GffExon {
  import opened Util
  import opened Sorting
  import opened GffFeature
  import opened GffSet
  import opened GffSort
  import opened GffGroup

  // ---------------------------------------------------------------------
  // Labels
  // ---------------------------------------------------------------------

  function DigitChar(d: nat): char
    requires d < 10
  {
    "0123456789"[d]
  }

  /** Decimal text of a number, as `%d` writes it. */
  function NatToString(n: nat): (r: string)
    ensures |r| > 0
    ensures n >= 10 ==> |r| >= 2
    ensures forall k :: 0 <= k < |r| ==> r[k] != '.'
    decreases n
  {
    if n < 10 then [DigitChar(n)] else NatToString(n / 10) + [DigitChar(n % 10)]
  }

  /** Different numbers have different decimal texts. */
  lemma {:induction false} NatToStringInjective(a: nat, b: nat)
    requires NatToString(a) == NatToString(b)
    ensures a == b
    decreases a
  {
    if a >= 10 && b >= 10 {
      var sa := NatToString(a);
      assert sa[..|sa| - 1] == NatToString(a / 10);
      assert sa[..|sa| - 1] == NatToString(b / 10);
      NatToStringInjective(a / 10, b / 10);
      assert DigitChar(a % 10) == DigitChar(b % 10);
    }
  }

  /** The value given to the new tag: the run number, prefixed by the outer
      group's name and a dot when the outer group has a name. */
  function ExonLabel(name: string, idx: nat): string {
    if name == "" then NatToString(idx) else name + "." + NatToString(idx)
  }

  /** In name + "." + digits, the dot after the name is the last dot. */
  lemma LastDot(n: string, i: nat)
    ensures var s := n + "." + NatToString(i);
      s[|n|] == '.' && forall k :: |n| < k < |s| ==> s[k] != '.'
  {
    var d := NatToString(i);
    var s := n + "." + d;
    forall k | |n| < k < |s|
      ensures s[k] != '.'
    {
      assert s[k] == d[k - |n| - 1];
    }
  }

  /** Labels identify runs: equal labels come from the same outer group name
      and the same run number. */
  lemma ExonLabelInjective(n1: string, i1: nat, n2: string, i2: nat)
    requires ExonLabel(n1, i1) == ExonLabel(n2, i2)
    ensures n1 == n2 && i1 == i2
  {
    var s := ExonLabel(n1, i1);
    LastDot(n1, i1);
    LastDot(n2, i2);
    assert (n1 == "") == (n2 == "");
    if n1 != "" {
      assert |n1| == |n2|;
      assert n1 == s[..|n1|] == n2;
      assert NatToString(i1) == s[|n1| + 1..] == NatToString(i2);
    }
    NatToStringInjective(i1, i2);
  }

  /** A member's new attribute: an empty or "." attribute is replaced, any
      other gets " ; " and the new tag appended. */
  function ExonAttr(attr: string, tag: string, name: string, idx: nat): string {
    (if attr == "" || attr == "." then "" else attr + " ; ") + tag + " \"" + ExonLabel(name, idx) + "\""
  }

  // ---------------------------------------------------------------------
  // Run numbering
  // ---------------------------------------------------------------------

  /** State after a prefix of one group's members: the arena with their
      attributes updated, the current run number and the furthest-reaching
      member seen so far. */
  datatype RunState = RunState(arena: seq<Feature>, idx: nat, last: Option<nat>)

  /** Member f opens a new run after `last`. */
  predicate NewRun(a: seq<Feature>, last: Option<nat>, f: Feature)
    requires last.Some? ==> last.value < |a|
  {
    last.None? || f.start > a[last.value].end + 1 || f.strand != a[last.value].strand
  }

  /** Visiting the members `ms` of the group called `name`. */
  function ExonPass(arena: seq<Feature>, ms: seq<nat>, tag: string, name: string): (r: RunState)
    requires InArena(ms, |arena|)
    ensures |r.arena| == |arena| && (r.last.Some? ==> r.last.value < |arena|)
    decreases |ms|
  {
    if |ms| == 0 then RunState(arena, 0, None)
    else ExonVisit(ExonPass(arena, ms[..|ms| - 1], tag, name), ms[|ms| - 1], tag, name)
  }

  /** Member x visited: it gets the current run number, which grows first
      when x opens a new run, and becomes the furthest-reaching member when
      it ends beyond the previous one. */
  function ExonVisit(s: RunState, x: nat, tag: string, name: string): (r: RunState)
    requires x < |s.arena| && (s.last.Some? ==> s.last.value < |s.arena|)
    ensures |r.arena| == |s.arena| && (r.last.Some? ==> r.last.value < |s.arena|)
  {
    var f := s.arena[x];
    var idx := if NewRun(s.arena, s.last, f) then s.idx + 1 else s.idx;
    var last := if s.last.None? || f.end > s.arena[s.last.value].end then Some(x) else s.last;
    RunState(s.arena[x := f.(attribute := ExonAttr(f.attribute, tag, name, idx))], idx, last)
  }

  /** Only attributes change, and only those of members. */
  predicate OnlyAttributes(a: seq<Feature>, b: seq<Feature>, ms: seq<nat>) {
    |a| == |b| &&
    forall y :: 0 <= y < |a| ==>
      b[y] == a[y].(attribute := b[y].attribute) && (y !in ms ==> b[y] == a[y])
  }

  /** The pass changes only member attributes. */
  lemma {:induction false} ExonPassOnlyAttributes(arena: seq<Feature>, ms: seq<nat>, tag: string, name: string)
    requires InArena(ms, |arena|)
    ensures OnlyAttributes(arena, ExonPass(arena, ms, tag, name).arena, ms)
    decreases |ms|
  {
    if |ms| > 0 {
      var ms' := ms[..|ms| - 1];
      ExonPassOnlyAttributes(arena, ms', tag, name);
      var s := ExonPass(arena, ms', tag, name).arena;
      var r := ExonPass(arena, ms, tag, name).arena;
      var x := ms[|ms| - 1];
      forall y | 0 <= y < |arena|
        ensures r[y] == arena[y].(attribute := r[y].attribute)
        ensures y !in ms ==> r[y] == arena[y]
      {
        if y != x {
          assert r[y] == s[y];
          if y !in ms {
            assert y !in ms';
          }
        }
      }
    }
  }

  /** Run numbers start at 1 and grow by at most one per member. */
  lemma {:induction false} ExonPassRuns(arena: seq<Feature>, ms: seq<nat>, tag: string, name: string)
    requires InArena(ms, |arena|)
    ensures var r := ExonPass(arena, ms, tag, name);
      (|ms| == 0 <==> r.idx == 0) && r.idx <= |ms| && (r.last.None? <==> |ms| == 0)
    decreases |ms|
  {
    if |ms| > 0 {
      ExonPassRuns(arena, ms[..|ms| - 1], tag, name);
    }
  }

  /** The furthest-reaching member is a member, and no member ends beyond it. */
  lemma {:induction false} ExonPassLast(arena: seq<Feature>, ms: seq<nat>, tag: string, name: string)
    requires InArena(ms, |arena|) && |ms| > 0
    ensures var r := ExonPass(arena, ms, tag, name);
      r.last.Some? && r.last.value in ms &&
      forall k :: 0 <= k < |ms| ==> arena[ms[k]].end <= arena[r.last.value].end
    decreases |ms|
  {
    var ms' := ms[..|ms| - 1];
    if |ms'| == 0 {
      ExonPassOnlyAttributes(arena, ms', tag, name);
      ExonPassRuns(arena, ms', tag, name);
    } else {
      ExonPassLast(arena, ms', tag, name);
      ExonPassLastStep(arena, ms, tag, name);
    }
  }

  /** The step of ExonPassLast: if the furthest-reaching member of all but
      the last member is right, so is the one after the last member. */
  lemma ExonPassLastStep(arena: seq<Feature>, ms: seq<nat>, tag: string, name: string)
    requires InArena(ms, |arena|) && |ms| > 1
    requires var s := ExonPass(arena, ms[..|ms| - 1], tag, name);
      s.last.Some? && s.last.value in ms[..|ms| - 1] &&
      forall k :: 0 <= k < |ms| - 1 ==> arena[ms[k]].end <= arena[s.last.value].end
    ensures var r := ExonPass(arena, ms, tag, name);
      r.last.Some? && r.last.value in ms &&
      forall k :: 0 <= k < |ms| ==> arena[ms[k]].end <= arena[r.last.value].end
  {
    var ms' := ms[..|ms| - 1];
    var x := ms[|ms| - 1];
    var r := ExonPass(arena, ms, tag, name);
    ExonPassOnlyAttributes(arena, ms', tag, name);
    var s := ExonPass(arena, ms', tag, name);
    assert s.arena[x].end == arena[x].end;
    assert s.arena[s.last.value].end == arena[s.last.value].end;
    var l := s.last.value;
    assert r.last == if arena[x].end > arena[l].end then Some(x) else s.last;
    assert forall k :: 0 <= k < |ms'| ==> ms[k] == ms'[k];
    if r.last == s.last {
      var k :| 0 <= k < |ms'| && ms'[k] == l;
      assert ms[k] == l;
    }
  }

  /** The furthest-reaching member of a non-empty member list, read from the
      original features: the first member whose end is maximal. */
  function Furthest(arena: seq<Feature>, ms: seq<nat>): (r: nat)
    requires InArena(ms, |arena|) && |ms| > 0
    ensures r in ms && r < |arena|
    ensures forall k :: 0 <= k < |ms| ==> arena[ms[k]].end <= arena[r].end
    decreases |ms|
  {
    if |ms| == 1 then ms[0]
    else
      var l := Furthest(arena, ms[..|ms| - 1]);
      assert forall k :: 0 <= k < |ms| - 1 ==> ms[k] == ms[..|ms| - 1][k];
      if arena[ms[|ms| - 1]].end > arena[l].end then ms[|ms| - 1] else l
  }

  /** The member the pass tracks as `lastfeat` is the furthest-reaching
      member of the original features. */
  lemma {:induction false} ExonPassTracks(arena: seq<Feature>, ms: seq<nat>, tag: string, name: string)
    requires InArena(ms, |arena|) && |ms| > 0
    ensures ExonPass(arena, ms, tag, name).last == Some(Furthest(arena, ms))
    decreases |ms|
  {
    var ms' := ms[..|ms| - 1];
    ExonPassOnlyAttributes(arena, ms', tag, name);
    ExonPassRuns(arena, ms', tag, name);
    if |ms| > 1 {
      ExonPassTracks(arena, ms', tag, name);
      var s := ExonPass(arena, ms', tag, name);
      assert s.arena[Furthest(arena, ms')].end == arena[Furthest(arena, ms')].end;
    }
  }

  /** The run-numbering rule of one group: the first member has run 1, and
      each later member keeps the current run number exactly when it starts at
      most one base past the furthest-reaching earlier member and lies on the
      same strand; otherwise it opens the next run.  The member's new
      attribute carries that run number. */
  lemma ExonRunBreak(arena: seq<Feature>, ms: seq<nat>, tag: string, name: string, k: nat)
    requires InArena(ms, |arena|) && k < |ms|
    ensures var before := ExonPass(arena, ms[..k], tag, name);
      var after := ExonPass(arena, ms[..k + 1], tag, name);
      (k == 0 ==> after.idx == 1) &&
      (k > 0 ==>
        var l := arena[Furthest(arena, ms[..k])];
        var f := arena[ms[k]];
        (after.idx == before.idx <==> f.start <= l.end + 1 && f.strand == l.strand) &&
        (after.idx == before.idx || after.idx == before.idx + 1)) &&
      after.arena[ms[k]].attribute ==
        ExonAttr(before.arena[ms[k]].attribute, tag, name, after.idx)
  {
    var pre := ms[..k];
    assert ms[..k + 1][..k] == pre;
    assert InArena(pre, |arena|);
    ExonPassOnlyAttributes(arena, pre, tag, name);
    ExonPassRuns(arena, pre, tag, name);
    var before := ExonPass(arena, pre, tag, name);
    assert before.arena[ms[k]].start == arena[ms[k]].start;
    assert before.arena[ms[k]].strand == arena[ms[k]].strand;
    if k > 0 {
      ExonPassTracks(arena, pre, tag, name);
      var l := Furthest(arena, pre);
      assert before.arena[l].end == arena[l].end && before.arena[l].strand == arena[l].strand;
    }
  }

  /** Visiting every group in order, each from the arena the previous ones
      left. */
  function GroupsPass(arena: seq<Feature>, gs: seq<Group>, tag: string): (r: seq<Feature>)
    requires GroupsInArena(gs, |arena|)
    ensures |r| == |arena|
    decreases |gs|
  {
    if |gs| == 0 then arena
    else
      var g := gs[|gs| - 1];
      var a := GroupsPass(arena, gs[..|gs| - 1], tag);
      ExonPass(a, g.members, tag, g.name).arena
  }

  /** Across all groups, only attributes change, and only those of features
      that are members of some group. */
  lemma {:induction false} GroupsPassProps(arena: seq<Feature>, gs: seq<Group>, tag: string)
    requires GroupsInArena(gs, |arena|)
    ensures OnlyAttributes(arena, GroupsPass(arena, gs, tag), AllMembers(gs))
    decreases |gs|
  {
    if |gs| > 0 {
      var gs' := gs[..|gs| - 1];
      var g := gs[|gs| - 1];
      assert gs == gs' + [g];
      GroupsPassProps(arena, gs', tag);
      var a := GroupsPass(arena, gs', tag);
      ExonPassOnlyAttributes(a, g.members, tag, g.name);
      AllMembersSnoc(gs', g);
    }
  }

  /** The groups the numbering runs over, after sorting: the sorted groups, or
      for an ungrouped set a single unnamed group of the sorted features. */
  function ExonGroups(arena: seq<Feature>, fs: seq<nat>, grouping: Option<Grouping>): (r: seq<Group>)
    requires InArena(fs, |arena|) && GroupingInArena(grouping, |arena|)
    ensures GroupsInArena(r, |arena|)
  {
    if grouping.None? then
      SortByPermutation(fs, FeatKey(arena));
      InArenaPermutation(fs, SortBy(fs, FeatKey(arena)), |arena|);
      [Group("", SortBy(fs, FeatKey(arena)), 0, 0)]
    else
      SortedGroupsInArena(arena, grouping.value.groups);
      SortedGroups(arena, grouping.value.groups)
  }

  /** One turn of the inner loop of gff_exon_group: member j gets its run
      number, which grows when it does not touch the furthest-reaching member
      so far or lies on another strand. */
  method NumberRunStep(arena: seq<Feature>, ms: seq<nat>, tag: string, name: string, j: nat,
                       a: seq<Feature>, idx: nat, last: Option<nat>)
    returns (a': seq<Feature>, idx': nat, last': Option<nat>)
    requires InArena(ms, |arena|) && j < |ms|
    requires RunState(a, idx, last) == ExonPass(arena, ms[..j], tag, name)
    ensures RunState(a', idx', last') == ExonPass(arena, ms[..j + 1], tag, name)
  {
    assert ms[..j + 1][..j] == ms[..j];
    assert ExonPass(arena, ms[..j + 1], tag, name) == ExonVisit(RunState(a, idx, last), ms[j], tag, name);
    var x := ms[j];
    var f := a[x];
    idx' := idx;
    if last.None? || f.start > a[last.value].end + 1 || f.strand != a[last.value].strand {
      idx' := idx + 1;
    }
    var attr := if f.attribute == "" || f.attribute == "." then "" else f.attribute + " ; ";
    attr := attr + tag + " \"" + ExonLabel(name, idx') + "\"";
    last' := last;
    if last.None? || f.end > a[last.value].end {
      last' := Some(x);
    }
    a' := a[x := f.(attribute := attr)];
  }

  /** The inner loop of gff_exon_group over one group's members. */
  method NumberRuns(arena: seq<Feature>, ms: seq<nat>, tag: string, name: string)
    returns (a: seq<Feature>)
    requires InArena(ms, |arena|)
    ensures a == ExonPass(arena, ms, tag, name).arena
  {
    a := arena;
    var idx: nat := 0;
    var last: Option<nat> := None;
    var j := 0;
    while j < |ms|
      invariant 0 <= j <= |ms|
      invariant RunState(a, idx, last) == ExonPass(arena, ms[..j], tag, name)
      decreases |ms| - j
    {
      a, idx, last := NumberRunStep(arena, ms, tag, name, j, a, idx, last);
      j := j + 1;
    }
    assert ms[..|ms|] == ms;
  }

  /** The outer loop of gff_exon_group over the groups. */
  method NumberAllRuns(arena: seq<Feature>, gs: seq<Group>, tag: string) returns (a: seq<Feature>)
    requires GroupsInArena(gs, |arena|)
    ensures a == GroupsPass(arena, gs, tag)
  {
    a := arena;
    var i := 0;
    while i < |gs|
      invariant 0 <= i <= |gs|
      invariant a == GroupsPass(arena, gs[..i], tag)
      decreases |gs| - i
    {
      assert gs[..i + 1][..i] == gs[..i];
      a := NumberRuns(a, gs[i].members, tag, gs[i].name);
      i := i + 1;
    }
    assert gs[..|gs|] == gs;
  }

  lemma AllMembersSingle(g: Group)
    ensures AllMembers([g]) == g.members
  {
    AllMembersSnoc([], g);
  }

  /** Sorts the set, labels every member with its run (gff_exon_group), and
      regroups by the new tag; `matchTag` is the pattern for `tag`.  The
      feature list ends up in the sorted order. */
  method ExonGroup(gff: FeatureSet, tag: string, matchTag: string -> Option<string>)
    requires gff.Valid()
    modifies gff
    ensures gff.Valid()
    ensures gff.header == old(gff.header)
    ensures var gs := ExonGroups(old(gff.arena), old(gff.features), old(gff.grouping));
      gff.arena == GroupsPass(old(gff.arena), gs, tag) && gff.features == AllMembers(gs)
    ensures gff.grouping == Some(Grouping(tag, GroupsOf(gff.arena, gff.features, TagKey(|tag|, matchTag))))
  {
    ghost var gs0 := ExonGroups(gff.arena, gff.features, gff.grouping);
    GffSort.GffSort(gff);
    var gs: seq<Group>;
    if gff.grouping.None? {
      gs := [Group("", gff.features, 0, 0)];
      AllMembersSingle(gs[0]);
    } else {
      gs := gff.grouping.value.groups;
    }
    assert gs == gs0;
    var arena := NumberAllRuns(gff.arena, gs, tag);
    gff.arena := arena;
    GroupByTag(gff, tag, matchTag);
  }
}
