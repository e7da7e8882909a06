/** Ordering of features and groups (src/lib/feature/gff.c:563-609). */
module GffSort {
  import opened Util
  import opened Sorting
  import opened GffFeature
  import opened GffSet

  /** The (start, end) key of the feature an index refers to. */
  function FeatKey(arena: seq<Feature>): nat -> (int, int) {
    (i: nat) => if i < |arena| then FeatureKey(arena[i]) else (0, 0)
  }

  /** Groups are ordered by their maintained span. */
  function GroupKey(g: Group): (int, int) {
    (g.start, g.end)
  }

  /** The group comparator (src/lib/feature/gff.c:576-586): a group without
      members compares level with every group. */
  function GroupCompare(a: Group, b: Group): int {
    if |a.members| == 0 || |b.members| == 0 then 0
    else if a.start != b.start then a.start - b.start
    else a.end - b.end
  }

  /** Between groups that have members, the comparator is the lexicographic
      order on spans. */
  lemma GroupCompareOrder(a: Group, b: Group)
    requires |a.members| > 0 && |b.members| > 0
    ensures GroupCompare(a, b) <= 0 <==> KeyLe(GroupKey(a), GroupKey(b))
    ensures GroupCompare(a, b) == 0 <==> GroupKey(a) == GroupKey(b)
    ensures GroupCompare(a, b) == -GroupCompare(b, a)
  {
  }

  /** Because of the empty-group rule, "compares level" is not transitive: an
      empty group is level with two groups that are themselves ordered, so the
      comparator is not a consistent ordering once an empty group is present. */
  lemma GroupCompareEmptyQuirk()
    ensures var late := Group("late", [0], 5, 9);
            var early := Group("early", [1], 1, 2);
            var empty := Group("empty", [], 3, 3);
      GroupCompare(late, empty) == 0 && GroupCompare(empty, early) == 0 &&
      GroupCompare(late, early) > 0
  {
  }

  /** Each group with its members in (start, end) order. */
  function SortMembers(arena: seq<Feature>, gs: seq<Group>): (r: seq<Group>)
    ensures |r| == |gs|
  {
    seq(|gs|, j requires 0 <= j < |gs| => gs[j].(members := SortBy(gs[j].members, FeatKey(arena))))
  }

  /** The groups with sorted members, ordered by span.  The C code sorts with
      the group comparator instead; the two agree on groups with members
      (SortedGroupsCompare). */
  function SortedGroups(arena: seq<Feature>, gs: seq<Group>): seq<Group> {
    SortBy(SortMembers(arena, gs), GroupKey)
  }

  /** Ungrouped sort: the feature list becomes a permutation of itself that is
      non-decreasing by (start, end); sorting it again changes nothing. */
  lemma SortUngrouped(arena: seq<Feature>, fs: seq<nat>)
    ensures var r := SortBy(fs, FeatKey(arena));
      SortedBy(r, FeatKey(arena)) && multiset(r) == multiset(fs) &&
      SortBy(r, FeatKey(arena)) == r
  {
    SortBySorted(fs, FeatKey(arena));
    SortByPermutation(fs, FeatKey(arena));
    SortByIdempotent(SortBy(fs, FeatKey(arena)), FeatKey(arena));
  }

  /** The same group, with its members possibly rearranged. */
  predicate SameGroupUpToOrder(a: Group, b: Group) {
    a.name == b.name && a.start == b.start && a.end == b.end &&
    multiset(a.members) == multiset(b.members)
  }

  /** Grouped sort: the groups are a permutation of the old groups (each
      keeping its name, span and members up to order), are ordered by span,
      and each has its members sorted by (start, end). */
  lemma SortGrouped(arena: seq<Feature>, gs: seq<Group>)
    ensures var r := SortedGroups(arena, gs);
      SortedBy(r, GroupKey) &&
      multiset(r) == multiset(SortMembers(arena, gs)) &&
      (forall j :: 0 <= j < |r| ==> SortedBy(r[j].members, FeatKey(arena))) &&
      (forall j :: 0 <= j < |r| ==> exists g :: 0 <= g < |gs| && SameGroupUpToOrder(r[j], gs[g]))
  {
    var sm := SortMembers(arena, gs);
    var r := SortedGroups(arena, gs);
    SortBySorted(sm, GroupKey);
    SortByPermutation(sm, GroupKey);
    forall j | 0 <= j < |r|
      ensures SortedBy(r[j].members, FeatKey(arena))
      ensures exists g :: 0 <= g < |gs| && SameGroupUpToOrder(r[j], gs[g])
    {
      assert r[j] in multiset(sm);
      var g :| 0 <= g < |sm| && sm[g] == r[j];
      SortBySorted(gs[g].members, FeatKey(arena));
      SortByPermutation(gs[g].members, FeatKey(arena));
    }
  }

  /** The sorted groups agree with the C group comparator on every pair of
      groups that have members: an earlier group never compares above a later
      one.  Pairs involving an empty group are left open, since the comparator
      puts such a group level with every other group. */
  lemma SortedGroupsCompare(arena: seq<Feature>, gs: seq<Group>, i: nat, j: nat)
    requires i < j < |SortedGroups(arena, gs)|
    requires |SortedGroups(arena, gs)[i].members| > 0 && |SortedGroups(arena, gs)[j].members| > 0
    ensures GroupCompare(SortedGroups(arena, gs)[i], SortedGroups(arena, gs)[j]) <= 0
  {
    var r := SortedGroups(arena, gs);
    SortBySorted(SortMembers(arena, gs), GroupKey);
    assert KeyLe(GroupKey(r[i]), GroupKey(r[j]));
    GroupCompareOrder(r[i], r[j]);
  }

  /** Sorting members keeps every group's indices in the arena. */
  lemma SortedGroupsInArena(arena: seq<Feature>, gs: seq<Group>)
    requires GroupsInArena(gs, |arena|)
    ensures GroupsInArena(SortedGroups(arena, gs), |arena|)
  {
    var sm := SortMembers(arena, gs);
    var sgs := SortedGroups(arena, gs);
    SortByPermutation(sm, GroupKey);
    forall j | 0 <= j < |sgs|
      ensures InArena(sgs[j].members, |arena|)
    {
      assert sgs[j] in multiset(sm);
      var g :| 0 <= g < |sm| && sm[g] == sgs[j];
      SortByPermutation(gs[g].members, FeatKey(arena));
      InArenaPermutation(gs[g].members, sm[g].members, |arena|);
    }
  }

  /** The first loop of the grouped sort: each group's members are sorted. */
  method SortEachGroup(arena: seq<Feature>, gs: seq<Group>) returns (sm: seq<Group>)
    ensures sm == SortMembers(arena, gs)
  {
    var key := FeatKey(arena);
    sm := gs;
    var i := 0;
    while i < |gs|
      invariant 0 <= i <= |gs| && |sm| == |gs|
      invariant forall k :: 0 <= k < i ==> sm[k] == SortMembers(arena, gs)[k]
      invariant forall k :: i <= k < |gs| ==> sm[k] == gs[k]
      decreases |gs| - i
    {
      sm := sm[i := sm[i].(members := SortBy(sm[i].members, key))];
      i := i + 1;
    }
  }

  /** The feature list rebuilt from the groups' members in group order. */
  method ConcatMembers(gs: seq<Group>) returns (feats: seq<nat>)
    ensures feats == AllMembers(gs)
  {
    feats := [];
    var i := 0;
    while i < |gs|
      invariant 0 <= i <= |gs|
      invariant feats == Flatten(MemberLists(gs[..i]))
      decreases |gs| - i
    {
      var ms := gs[i].members;
      assert MemberLists(gs[..i + 1])[..i] == MemberLists(gs[..i]);
      var j := 0;
      while j < |ms|
        invariant 0 <= j <= |ms|
        invariant feats == Flatten(MemberLists(gs[..i])) + ms[..j]
        decreases |ms| - j
      {
        assert ms[..j + 1] == ms[..j] + [ms[j]];
        feats := feats + [ms[j]];
        j := j + 1;
      }
      assert ms[..|ms|] == ms;
      i := i + 1;
    }
    assert gs[..|gs|] == gs;
  }

  /** Sorts the set (gff_sort).  Ungrouped: the feature list is sorted by
      (start, end).  Grouped: every group's members are sorted, the groups are
      sorted by span, and the feature list becomes the concatenation of the
      groups' members in the new group order. */
  method GffSort(gff: FeatureSet)
    requires gff.Valid()
    modifies gff
    ensures gff.Valid()
    ensures gff.header == old(gff.header) && gff.arena == old(gff.arena)
    ensures old(gff.grouping).None? ==>
      gff.grouping == None && gff.features == SortBy(old(gff.features), FeatKey(gff.arena))
    ensures old(gff.grouping).Some? ==>
      var sgs := SortedGroups(gff.arena, old(gff.grouping).value.groups);
      gff.grouping == Some(old(gff.grouping).value.(groups := sgs)) &&
      gff.features == AllMembers(sgs)
  {
    var key := FeatKey(gff.arena);
    if gff.grouping.None? {
      SortByPermutation(gff.features, key);
      InArenaPermutation(gff.features, SortBy(gff.features, key), |gff.arena|);
      gff.features := SortBy(gff.features, key);
      return;
    }
    var gs := gff.grouping.value.groups;
    var sm := SortEachGroup(gff.arena, gs);
    var sgs := SortBy(sm, GroupKey);
    SortedGroupsInArena(gff.arena, gs);
    var feats := ConcatMembers(sgs);
    AllMembersInArena(sgs, |gff.arena|);
    gff.grouping := Some(gff.grouping.value.(groups := sgs));
    gff.features := feats;
  }
}
