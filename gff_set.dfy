/** The feature set of src/lib/feature/gff.c and its optional grouping.

    The C set holds a list of references to features, and each group of a
    grouping holds further references to the same feature objects.  Here the
    feature objects live in an arena (`arena`), and both the set's feature list
    and every group's member list are lists of arena indices, so that changing
    a feature through one list is seen through the other, as in the C code.
    Freed features simply stay unreferenced in the arena. */
module GffSet {
  import opened Util
  import opened GffFeature

  /** A group: its name (the tag value), its member features and the span
      [start, end] maintained while members are added. */
  datatype Group = Group(name: string, members: seq<nat>, start: int, end: int)

  /** A grouping: the tag it was made from and its groups in order. */
  datatype Grouping = Grouping(tag: string, groups: seq<Group>)

  /** File-level metadata copied between sets. */
  datatype Header = Header(gffVersion: string, source: string, sourceVersion: string, date: string)

  predicate InArena(idx: seq<nat>, n: nat) {
    forall k :: 0 <= k < |idx| ==> idx[k] < n
  }

  predicate GroupsInArena(gs: seq<Group>, n: nat) {
    forall j :: 0 <= j < |gs| ==> InArena(gs[j].members, n)
  }

  predicate GroupingInArena(g: Option<Grouping>, n: nat) {
    g.Some? ==> GroupsInArena(g.value.groups, n)
  }

  /** The feature values an index list refers to. */
  function Deref(arena: seq<Feature>, idx: seq<nat>): (r: seq<Feature>)
    requires InArena(idx, |arena|)
  {
    seq(|idx|, k requires 0 <= k < |idx| => arena[idx[k]])
  }

  /** The member lists of a list of groups. */
  function MemberLists(gs: seq<Group>): seq<seq<nat>> {
    seq(|gs|, j requires 0 <= j < |gs| => gs[j].members)
  }

  /** The concatenation of all groups' members, in group order. */
  function AllMembers(gs: seq<Group>): seq<nat> {
    Flatten(MemberLists(gs))
  }

  /** A feature listed by the groups is a member of one of them. */
  lemma MemberGroup(gs: seq<Group>, x: nat) returns (j: nat)
    requires x in AllMembers(gs)
    ensures j < |gs| && x in gs[j].members
  {
    FlattenMembership(MemberLists(gs), x);
    j :| 0 <= j < |MemberLists(gs)| && x in MemberLists(gs)[j];
  }

  /** Every member of a group is listed by the groups. */
  lemma GroupMemberInAll(gs: seq<Group>, x: nat, j: nat)
    requires j < |gs| && x in gs[j].members
    ensures x in AllMembers(gs)
  {
    FlattenMembership(MemberLists(gs), x);
    assert x in MemberLists(gs)[j];
  }

  /** A rearrangement of indices into the arena still indexes the arena. */
  lemma InArenaPermutation(a: seq<nat>, b: seq<nat>, n: nat)
    requires InArena(a, n) && multiset(a) == multiset(b)
    ensures InArena(b, n)
  {
    forall k | 0 <= k < |b|
      ensures b[k] < n
    {
      assert b[k] in multiset(a);
      var m :| 0 <= m < |a| && a[m] == b[k];
    }
  }

  /** Appending a group appends its members. */
  lemma AllMembersSnoc(gs: seq<Group>, g: Group)
    ensures AllMembers(gs + [g]) == AllMembers(gs) + g.members
  {
    assert MemberLists(gs + [g])[..|gs|] == MemberLists(gs);
  }

  lemma AllMembersInArena(gs: seq<Group>, n: nat)
    requires GroupsInArena(gs, n)
    ensures InArena(AllMembers(gs), n)
  {
    forall k | 0 <= k < |AllMembers(gs)|
      ensures AllMembers(gs)[k] < n
    {
      var x := AllMembers(gs)[k];
      FlattenMembership(MemberLists(gs), x);
      var j :| 0 <= j < |MemberLists(gs)| && x in MemberLists(gs)[j];
      assert x in gs[j].members;
    }
  }

  class FeatureSet {
    var header: Header
    /** Every feature object the set has ever held. */
    var arena: seq<Feature>
    /** The set's feature list, as arena indices. */
    var features: seq<nat>
    /** The grouping, if the set is grouped. */
    var grouping: Option<Grouping>

    /** Every index the set holds refers to a feature object. */
    predicate Valid()
      reads this
    {
      InArena(features, |arena|) && GroupingInArena(grouping, |arena|)
    }

    /** The features of the set, in order. */
    function Feats(): seq<Feature>
      reads this
      requires Valid()
    {
      Deref(arena, features)
    }

    /** An empty, ungrouped set with empty metadata (gff_new_set). */
    constructor ()
      ensures Valid()
      ensures header == Header("", "", "", "")
      ensures arena == [] && features == [] && grouping == None
    {
      header := Header("", "", "", "");
      arena := [];
      features := [];
      grouping := None;
    }

    /** An ungrouped set with the given metadata holding copies of the given
        features, in order. */
    constructor WithFeatures(h: Header, feats: seq<Feature>)
      ensures Valid()
      ensures header == h && grouping == None
      ensures arena == feats
      ensures features == seq(|feats|, k => k)
      ensures Feats() == feats
    {
      header := h;
      arena := feats;
      features := seq(|feats|, k => k);
      grouping := None;
    }
  }

  /** Drops the grouping, keeping every feature (gff_ungroup). */
  method Ungroup(gff: FeatureSet)
    requires gff.Valid()
    modifies gff
    ensures gff.Valid()
    ensures gff.grouping == None
    ensures gff.header == old(gff.header) && gff.arena == old(gff.arena)
    ensures gff.features == old(gff.features)
  {
    gff.grouping := None;
  }

  /** Removes every feature and the grouping (gff_clear_set). */
  method ClearSet(gff: FeatureSet)
    requires gff.Valid()
    modifies gff
    ensures gff.Valid()
    ensures gff.features == [] && gff.arena == [] && gff.grouping == None
    ensures gff.header == old(gff.header)
  {
    if gff.grouping.Some? {
      Ungroup(gff);
    }
    gff.arena := [];
    gff.features := [];
  }

  /** The first position of `x` in `s`, if any. */
  function IndexOf(s: seq<nat>, x: nat): (r: Option<nat>)
    ensures r.Some? ==> r.value < |s| && s[r.value] == x &&
                        forall p :: 0 <= p < r.value ==> s[p] != x
    ensures r.None? <==> x !in s
    decreases |s|
  {
    if |s| == 0 then None
    else if s[0] == x then Some(0)
    else match IndexOf(s[1..], x)
      case None => None
      case Some(p) => Some(p + 1)
  }

  /** The first group (from index j on) that has `x` as a member, and the
      member's first position in it. */
  function FindMember(gs: seq<Group>, x: nat, j: nat): (r: Option<(nat, nat)>)
    requires j <= |gs|
    ensures r.Some? ==> j <= r.value.0 < |gs| && r.value.1 < |gs[r.value.0].members| &&
                        gs[r.value.0].members[r.value.1] == x
    decreases |gs| - j
  {
    if j == |gs| then None
    else match IndexOf(gs[j].members, x)
      case Some(p) => Some((j, p))
      case None => FindMember(gs, x, j + 1)
  }

  /** FindMember finds the first group containing `x`, at the first position
      of `x` in it, and fails exactly when no group from j on contains `x`. */
  lemma {:induction false} FindMemberFirst(gs: seq<Group>, x: nat, j: nat)
    requires j <= |gs|
    ensures var r := FindMember(gs, x, j);
      (r.None? <==> forall g :: j <= g < |gs| ==> x !in gs[g].members) &&
      (r.Some? ==> j <= r.value.0 < |gs| && r.value.1 < |gs[r.value.0].members| &&
                   gs[r.value.0].members[r.value.1] == x &&
                   (forall g :: j <= g < r.value.0 ==> x !in gs[g].members) &&
                   (forall p :: 0 <= p < r.value.1 ==> gs[r.value.0].members[p] != x))
    decreases |gs| - j
  {
    if j < |gs| && IndexOf(gs[j].members, x).None? {
      FindMemberFirst(gs, x, j + 1);
    }
  }

  predicate InSomeGroup(gs: seq<Group>, x: nat) {
    exists g :: 0 <= g < |gs| && x in gs[g].members
  }

  /** The search of gff_group_idx over a list of groups: the first group
      holding `f` and the first position of `f` in it. */
  method FindInGroups(gs: seq<Group>, f: nat) returns (gi: nat, pos: nat)
    requires InSomeGroup(gs, f)
    ensures FindMember(gs, f, 0) == Some((gi, pos))
  {
    FindMemberFirst(gs, f, 0);
    var i := 0;
    while i < |gs|
      invariant 0 <= i <= |gs|
      invariant FindMember(gs, f, i) == FindMember(gs, f, 0)
      decreases |gs| - i
    {
      var ms := gs[i].members;
      var j := 0;
      while j < |ms|
        invariant 0 <= j <= |ms|
        invariant forall p :: 0 <= p < j ==> ms[p] != f
        decreases |ms| - j
      {
        if ms[j] == f {
          return i, j;
        }
        j := j + 1;
      }
      i := i + 1;
    }
    assert false;
  }

  /** The index of the group holding feature `f` and its position in that
      group (gff_group_idx); (-1, -1) when the set is not grouped.  A feature
      that is in no group is a fatal error in the source, hence the
      precondition. */
  method GroupIdx(gff: FeatureSet, f: nat) returns (gi: int, pos: int)
    requires gff.Valid()
    requires gff.grouping.Some? ==> InSomeGroup(gff.grouping.value.groups, f)
    ensures gff.grouping.None? ==> gi == -1 && pos == -1
    ensures gff.grouping.Some? ==>
      var r := FindMember(gff.grouping.value.groups, f, 0);
      r.Some? && gi == r.value.0 && pos == r.value.1
  {
    if gff.grouping.None? {
      return -1, -1;
    }
    gi, pos := FindInGroups(gff.grouping.value.groups, f);
  }

  /** The name of the group holding feature `f` (gff_group_name), or None when
      the set is not grouped. */
  method GroupName(gff: FeatureSet, f: nat) returns (name: Option<string>)
    requires gff.Valid()
    requires gff.grouping.Some? ==> InSomeGroup(gff.grouping.value.groups, f)
    ensures gff.grouping.None? ==> name == None
    ensures gff.grouping.Some? ==>
      var r := FindMember(gff.grouping.value.groups, f, 0);
      r.Some? && name == Some(gff.grouping.value.groups[r.value.0].name)
  {
    var gi, pos := GroupIdx(gff, f);
    if gi == -1 {
      return None;
    }
    FindMemberFirst(gff.grouping.value.groups, f, 0);
    name := Some(gff.grouping.value.groups[gi].name);
  }
}
