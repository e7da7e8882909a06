/** Grouping of a feature set (src/lib/feature/gff.c:613-728), group-based
    filtering (:1032-1065) and partition by type (:1403-1416).

    Grouping is specified once, generically in the key a feature is grouped
    by: GroupsOf visits the feature list in order, opens a group the first
    time a key is seen, and otherwise appends the feature to the group with
    that key, widening the group's span. */
module GffGroup {
  import opened Util
  import opened GffFeature
  import opened GffSet

  /** The names of a list of groups, in order. */
  function Names(gs: seq<Group>): seq<string> {
    seq(|gs|, j requires 0 <= j < |gs| => gs[j].name)
  }

  /** The first position of `x` in `s`, if any. */
  function Position(s: seq<string>, x: string): (r: Option<nat>)
    ensures r.Some? ==> r.value < |s| && s[r.value] == x &&
                        forall p :: 0 <= p < r.value ==> s[p] != x
    ensures r.None? <==> x !in s
    decreases |s|
  {
    if |s| == 0 then None
    else if s[0] == x then Some(0)
    else match Position(s[1..], x)
      case None => None
      case Some(p) => Some(p + 1)
  }

  /** The first group called `name` (the hashtable lookup). */
  function FindGroup(gs: seq<Group>, name: string): Option<nat> {
    Position(Names(gs), name)
  }

  /** Adds feature x (with value f) under key `name`: to the existing group of
      that name, widening its span, or to a new group spanning f. */
  function AddMember(gs: seq<Group>, x: nat, f: Feature, name: string): seq<Group> {
    match FindGroup(gs, name)
    case None => gs + [Group(name, [x], f.start, f.end)]
    case Some(j) =>
      gs[j := gs[j].(members := gs[j].members + [x],
                     start := if f.start < gs[j].start then f.start else gs[j].start,
                     end := if f.end > gs[j].end then f.end else gs[j].end)]
  }

  /** The groups formed from the features `fs` refers to, keyed by `key`. */
  function GroupsOf(arena: seq<Feature>, fs: seq<nat>, key: Feature -> string): seq<Group>
    requires InArena(fs, |arena|)
    decreases |fs|
  {
    if |fs| == 0 then []
    else
      var x := fs[|fs| - 1];
      AddMember(GroupsOf(arena, fs[..|fs| - 1], key), x, arena[x], key(arena[x]))
  }

  /** The keys of the features `fs` refers to, in order. */
  function Keys(arena: seq<Feature>, fs: seq<nat>, key: Feature -> string): seq<string>
    requires InArena(fs, |arena|)
  {
    seq(|fs|, k requires 0 <= k < |fs| => key(arena[fs[k]]))
  }

  /** The distinct elements of a list in order of first occurrence. */
  function Distinct(s: seq<string>): (r: seq<string>)
    decreases |s|
  {
    if |s| == 0 then []
    else
      var p := Distinct(s[..|s| - 1]);
      if s[|s| - 1] in s[..|s| - 1] then p else p + [s[|s| - 1]]
  }

  lemma {:induction false} DistinctProps(s: seq<string>)
    ensures forall x :: x in Distinct(s) <==> x in s
    ensures NoDup(Distinct(s))
    decreases |s|
  {
    if |s| > 0 {
      var s' := s[..|s| - 1];
      DistinctProps(s');
      assert s == s' + [s[|s| - 1]];
    }
  }

  /** Groups appear in first-encounter order of their keys; in particular
      their names are pairwise distinct and are exactly the keys that occur. */
  lemma {:induction false} GroupsOfNames(arena: seq<Feature>, fs: seq<nat>, key: Feature -> string)
    requires InArena(fs, |arena|)
    ensures Names(GroupsOf(arena, fs, key)) == Distinct(Keys(arena, fs, key))
    decreases |fs|
  {
    if |fs| > 0 {
      var fs' := fs[..|fs| - 1];
      var x := fs[|fs| - 1];
      var ks := Keys(arena, fs, key);
      assert ks[..|ks| - 1] == Keys(arena, fs', key);
      GroupsOfNames(arena, fs', key);
      DistinctProps(Keys(arena, fs', key));
      var gs := GroupsOf(arena, fs', key);
      var f := arena[x];
      match FindGroup(gs, key(f))
      case None =>
        assert Names(gs + [Group(key(f), [x], f.start, f.end)]) == Names(gs) + [key(f)];
      case Some(j) =>
        var gs2 := AddMember(gs, x, f, key(f));
        assert Names(gs2) == Names(gs);
    }
  }

  /** Group names are pairwise distinct, and every feature's key names a group. */
  lemma GroupsOfDistinct(arena: seq<Feature>, fs: seq<nat>, key: Feature -> string)
    requires InArena(fs, |arena|)
    ensures var gs := GroupsOf(arena, fs, key);
      (forall i, j :: 0 <= i < j < |gs| ==> gs[i].name != gs[j].name) &&
      (forall k :: 0 <= k < |fs| ==> key(arena[fs[k]]) in Names(gs))
  {
    GroupsOfNames(arena, fs, key);
    DistinctProps(Keys(arena, fs, key));
    var gs := GroupsOf(arena, fs, key);
    assert forall k :: 0 <= k < |fs| ==> key(arena[fs[k]]) == Keys(arena, fs, key)[k];
    forall i, j | 0 <= i < j < |gs|
      ensures gs[i].name != gs[j].name
    {
      assert Names(gs)[i] == gs[i].name && Names(gs)[j] == gs[j].name;
    }
  }

  /** Has key `name`. */
  function HasKey(arena: seq<Feature>, key: Feature -> string, name: string): nat -> bool {
    (i: nat) => i < |arena| && key(arena[i]) == name
  }

  /** A group's members are exactly the features with its key, in their
      original order. */
  lemma {:induction false} GroupsOfMembers(arena: seq<Feature>, fs: seq<nat>, key: Feature -> string)
    requires InArena(fs, |arena|)
    ensures var gs := GroupsOf(arena, fs, key);
      forall j :: 0 <= j < |gs| ==> gs[j].members == Filter(fs, HasKey(arena, key, gs[j].name))
    decreases |fs|
  {
    if |fs| > 0 {
      var fs' := fs[..|fs| - 1];
      var x := fs[|fs| - 1];
      var f := arena[x];
      var n := key(f);
      GroupsOfMembers(arena, fs', key);
      GroupsOfDistinct(arena, fs', key);
      var gs := GroupsOf(arena, fs', key);
      var gs2 := GroupsOf(arena, fs, key);
      match FindGroup(gs, n)
      case None =>
        assert n !in Names(gs);
        forall k | 0 <= k < |fs'|
          ensures !HasKey(arena, key, n)(fs'[k])
        {
          assert key(arena[fs'[k]]) in Names(gs);
        }
        FilterNone(fs', HasKey(arena, key, n));
        forall j | 0 <= j < |gs2|
          ensures gs2[j].members == Filter(fs, HasKey(arena, key, gs2[j].name))
        {
          if j < |gs| {
            assert gs2[j] == gs[j];
            assert Names(gs)[j] == gs[j].name;
          }
        }
      case Some(i) =>
        forall j | 0 <= j < |gs2|
          ensures gs2[j].members == Filter(fs, HasKey(arena, key, gs2[j].name))
        {
          assert Names(gs)[j] == gs[j].name;
        }
    }
  }

  /** Every feature of the list is in exactly one group, and every member of a
      group comes from the list. */
  lemma GroupsOfPartition(arena: seq<Feature>, fs: seq<nat>, key: Feature -> string)
    requires InArena(fs, |arena|)
    ensures var gs := GroupsOf(arena, fs, key);
      (forall x :: x in fs ==> exists j :: 0 <= j < |gs| && x in gs[j].members) &&
      (forall x, i, j :: 0 <= i < |gs| && 0 <= j < |gs| && x in gs[i].members && x in gs[j].members ==> i == j) &&
      (forall j, x :: 0 <= j < |gs| && x in gs[j].members ==> x in fs && key(arena[x]) == gs[j].name)
  {
    var gs := GroupsOf(arena, fs, key);
    forall x | x in fs
      ensures exists j :: 0 <= j < |gs| && x in gs[j].members
    {
      GroupsOfCover(arena, fs, key, x);
    }
    forall x, i, j | 0 <= i < |gs| && 0 <= j < |gs| && x in gs[i].members && x in gs[j].members
      ensures i == j
    {
      GroupsOfMemberKey(arena, fs, key, i, x);
      GroupsOfMemberKey(arena, fs, key, j, x);
      GroupsOfDistinct(arena, fs, key);
    }
    forall j, x | 0 <= j < |gs| && x in gs[j].members
      ensures x in fs && key(arena[x]) == gs[j].name
    {
      GroupsOfMemberKey(arena, fs, key, j, x);
    }
  }

  /** Every feature is in some group. */
  lemma GroupsOfCover(arena: seq<Feature>, fs: seq<nat>, key: Feature -> string, x: nat)
    requires InArena(fs, |arena|) && x in fs
    ensures var gs := GroupsOf(arena, fs, key);
      exists j :: 0 <= j < |gs| && x in gs[j].members
  {
    var gs := GroupsOf(arena, fs, key);
    GroupsOfMembers(arena, fs, key);
    GroupsOfDistinct(arena, fs, key);
    var k :| 0 <= k < |fs| && fs[k] == x;
    var n := key(arena[x]);
    assert n in Names(gs);
    var j :| 0 <= j < |gs| && Names(gs)[j] == n;
    FilterMembership(fs, HasKey(arena, key, n), x);
    assert x in gs[j].members;
  }

  /** A member of a group is a feature of the list with the group's key. */
  lemma GroupsOfMemberKey(arena: seq<Feature>, fs: seq<nat>, key: Feature -> string, j: nat, x: nat)
    requires InArena(fs, |arena|)
    requires var gs := GroupsOf(arena, fs, key); j < |gs| && x in gs[j].members
    ensures var gs := GroupsOf(arena, fs, key);
      x in fs && x < |arena| && key(arena[x]) == gs[j].name
  {
    var gs := GroupsOf(arena, fs, key);
    GroupsOfMembers(arena, fs, key);
    assert gs[j].members == Filter(fs, HasKey(arena, key, gs[j].name));
    FilterMembership(fs, HasKey(arena, key, gs[j].name), x);
  }

  /** A group's span is the least start and the greatest end of its members,
      and no group is empty. */
  lemma {:induction false} GroupsOfSpan(arena: seq<Feature>, fs: seq<nat>, key: Feature -> string)
    requires InArena(fs, |arena|)
    ensures AllSpans(arena, GroupsOf(arena, fs, key))
    decreases |fs|
  {
    if |fs| > 0 {
      var fs' := fs[..|fs| - 1];
      var x := fs[|fs| - 1];
      GroupsOfSpan(arena, fs', key);
      AddMemberSpans(arena, GroupsOf(arena, fs', key), x, key(arena[x]));
    }
  }

  /** Adding a member keeps every group's span exact. */
  lemma AddMemberSpans(arena: seq<Feature>, gs: seq<Group>, x: nat, name: string)
    requires AllSpans(arena, gs) && x < |arena|
    ensures AllSpans(arena, AddMember(gs, x, arena[x], name))
  {
    var f := arena[x];
    var gs2 := AddMember(gs, x, f, name);
    match FindGroup(gs, name)
    case None =>
      var g := Group(name, [x], f.start, f.end);
      assert gs2 == gs + [g];
      assert SpanOf(arena, g) by {
        assert g.members[0] == x;
      }
      forall j | 0 <= j < |gs2|
        ensures SpanOf(arena, gs2[j])
      {
        if j < |gs| {
          assert gs2[j] == gs[j];
        }
      }
    case Some(i) =>
      assert i < |gs| by {
        assert |Names(gs)| == |gs|;
      }
      assert SpanOf(arena, gs[i]);
      SpanAdd(arena, gs[i], x);
      forall j | 0 <= j < |gs2|
        ensures SpanOf(arena, gs2[j])
      {
        if j != i {
          assert gs2[j] == gs[j];
        }
      }
  }

  predicate AllSpans(arena: seq<Feature>, gs: seq<Group>) {
    forall j :: 0 <= j < |gs| ==> SpanOf(arena, gs[j])
  }

  /** The span of a group is exactly that of its members. */
  predicate SpanOf(arena: seq<Feature>, g: Group) {
    |g.members| > 0 &&
    (forall k :: 0 <= k < |g.members| ==>
       g.members[k] < |arena| && g.start <= arena[g.members[k]].start && arena[g.members[k]].end <= g.end) &&
    (exists k :: 0 <= k < |g.members| && g.members[k] < |arena| && arena[g.members[k]].start == g.start) &&
    (exists k :: 0 <= k < |g.members| && g.members[k] < |arena| && arena[g.members[k]].end == g.end)
  }

  lemma SpanAdd(arena: seq<Feature>, g: Group, x: nat)
    requires SpanOf(arena, g) && x < |arena|
    ensures var f := arena[x];
      SpanOf(arena, g.(members := g.members + [x],
                       start := if f.start < g.start then f.start else g.start,
                       end := if f.end > g.end then f.end else g.end))
  {
    var f := arena[x];
    var g2 := g.(members := g.members + [x],
                 start := if f.start < g.start then f.start else g.start,
                 end := if f.end > g.end then f.end else g.end);
    var ks :| 0 <= ks < |g.members| && g.members[ks] < |arena| && arena[g.members[ks]].start == g.start;
    var ke :| 0 <= ke < |g.members| && g.members[ke] < |arena| && arena[g.members[ke]].end == g.end;
    assert g2.members[ks] == g.members[ks] && g2.members[ke] == g.members[ke];
    assert g2.members[|g.members|] == x;
  }

  // ---------------------------------------------------------------------
  // Tag extraction
  // ---------------------------------------------------------------------

  function StripSemicolon(v: string): string {
    if |v| > 0 && v[|v| - 1] == ';' then v[..|v| - 1] else v
  }

  /** Removes one pair of matching enclosing quotes (double or single). */
  function RemoveQuotes(v: string): string {
    if |v| >= 2 && v[0] == v[|v| - 1] && (v[0] == '"' || v[0] == '\'') then v[1..|v| - 1] else v
  }

  /** The group name read from an attribute: `matchTag` stands for the
      pattern `.*TAG[[:space:]]+("[^"]*"|[^[:space:]]+)` and yields its
      captured value, if the attribute matches.  Attributes no longer than
      the tag are not examined.  A trailing ';' and enclosing quotes are
      removed; no match gives the empty name. */
  function TagValue(attr: string, taglen: nat, matchTag: string -> Option<string>): string {
    if |attr| > taglen && matchTag(attr).Some? then RemoveQuotes(StripSemicolon(matchTag(attr).value))
    else ""
  }

  /** A quoted value followed by ';' reads back as the bare value. */
  lemma TagValueQuoted(attr: string, taglen: nat, matchTag: string -> Option<string>, v: string)
    requires |attr| > taglen && matchTag(attr) == Some("\"" + v + "\";")
    ensures TagValue(attr, taglen, matchTag) == v
  {
    var q := "\"" + v + "\";";
    assert StripSemicolon(q) == "\"" + v + "\"";
    assert ("\"" + v + "\"")[1..|v| + 1] == v;
  }

  /** Grouping key of gff_group: the tag value of the attribute. */
  function TagKey(taglen: nat, matchTag: string -> Option<string>): Feature -> string {
    (f: Feature) => TagValue(f.attribute, taglen, matchTag)
  }

  /** Grouping key of gff_group_by_feature: the feature type. */
  function TypeKey(): Feature -> string {
    (f: Feature) => f.feature
  }

  // ---------------------------------------------------------------------
  // The grouping operations
  // ---------------------------------------------------------------------

  /** The hashtable from names to group positions, kept consistent. */
  predicate HashFor(hash: map<string, nat>, gs: seq<Group>) {
    (forall n :: n in hash ==> hash[n] < |gs| && gs[hash[n]].name == n) &&
    (forall j :: 0 <= j < |gs| ==> gs[j].name in hash && hash[gs[j].name] == j)
  }

  lemma HashFind(hash: map<string, nat>, gs: seq<Group>, n: string)
    requires HashFor(hash, gs)
    ensures FindGroup(gs, n) == if n in hash then Some(hash[n]) else None
  {
    var r := FindGroup(gs, n);
    if r.Some? {
      assert Names(gs)[r.value] == gs[r.value].name;
    }
    if n in hash {
      assert Names(gs)[hash[n]] == n;
    }
  }

  /** One step of the grouping loop: add feature x under `name`. */
  method AddToGroups(gs: seq<Group>, hash: map<string, nat>, x: nat, f: Feature, name: string)
    returns (gs2: seq<Group>, hash2: map<string, nat>)
    requires HashFor(hash, gs)
    ensures gs2 == AddMember(gs, x, f, name) && HashFor(hash2, gs2)
  {
    HashFind(hash, gs, name);
    if name !in hash {
      gs2 := gs + [Group(name, [x], f.start, f.end)];
      hash2 := hash[name := |gs|];
    } else {
      var j := hash[name];
      var g := gs[j];
      if f.start < g.start {
        g := g.(start := f.start);
      }
      if f.end > g.end {
        g := g.(end := f.end);
      }
      g := g.(members := g.members + [x]);
      gs2 := gs[j := g];
      hash2 := hash;
    }
  }

  /** The tag value of one attribute, computed as the grouping loop does. */
  method ReadTag(attr: string, tag: string, matchTag: string -> Option<string>) returns (val: string)
    ensures val == TagValue(attr, |tag|, matchTag)
  {
    val := "";
    if |attr| > |tag| && matchTag(attr).Some? {
      val := matchTag(attr).value;
      if |val| > 0 && val[|val| - 1] == ';' {
        val := val[..|val| - 1];
      }
      val := RemoveQuotes(val);
    }
  }

  /** The grouping loop of gff_group over the features `fs` refers to. */
  method TagGroups(arena: seq<Feature>, fs: seq<nat>, tag: string, matchTag: string -> Option<string>)
    returns (gs: seq<Group>)
    requires InArena(fs, |arena|)
    ensures gs == GroupsOf(arena, fs, TagKey(|tag|, matchTag))
  {
    gs := [];
    var hash: map<string, nat> := map[];
    var i := 0;
    while i < |fs|
      invariant 0 <= i <= |fs|
      invariant gs == GroupsOf(arena, fs[..i], TagKey(|tag|, matchTag)) && HashFor(hash, gs)
      decreases |fs| - i
    {
      gs, hash := TagGroupsStep(arena, fs, tag, matchTag, i, gs, hash);
      i := i + 1;
    }
    assert fs[..|fs|] == fs;
  }

  /** One pass of the grouping loop: feature i joins the group its tag
      value names. */
  method TagGroupsStep(arena: seq<Feature>, fs: seq<nat>, tag: string, matchTag: string -> Option<string>,
                       i: nat, gs: seq<Group>, hash: map<string, nat>)
    returns (gs': seq<Group>, hash': map<string, nat>)
    requires InArena(fs, |arena|) && i < |fs|
    requires gs == GroupsOf(arena, fs[..i], TagKey(|tag|, matchTag)) && HashFor(hash, gs)
    ensures gs' == GroupsOf(arena, fs[..i + 1], TagKey(|tag|, matchTag)) && HashFor(hash', gs')
  {
    assert fs[..i + 1][..i] == fs[..i];
    var f := arena[fs[i]];
    var val := ReadTag(f.attribute, tag, matchTag);
    gs', hash' := AddToGroups(gs, hash, fs[i], f, val);
  }

  /** Groups the set by the value of `tag` in the attributes, replacing any
      previous grouping (gff_group).  The feature list is not changed. */
  method GroupByTag(gff: FeatureSet, tag: string, matchTag: string -> Option<string>)
    requires gff.Valid()
    modifies gff
    ensures gff.Valid()
    ensures gff.header == old(gff.header) && gff.arena == old(gff.arena)
    ensures gff.features == old(gff.features)
    ensures gff.grouping == Some(Grouping(tag, GroupsOf(gff.arena, gff.features, TagKey(|tag|, matchTag))))
  {
    if gff.grouping.Some? {
      Ungroup(gff);
    }
    var gs := TagGroups(gff.arena, gff.features, tag, matchTag);
    GroupsInArenaOf(gff.arena, gff.features, TagKey(|tag|, matchTag));
    gff.grouping := Some(Grouping(tag, gs));
  }

  lemma {:induction false} GroupsInArenaOf(arena: seq<Feature>, fs: seq<nat>, key: Feature -> string)
    requires InArena(fs, |arena|)
    ensures GroupsInArena(GroupsOf(arena, fs, key), |arena|)
    decreases |fs|
  {
    if |fs| > 0 {
      var fs' := fs[..|fs| - 1];
      var x := fs[|fs| - 1];
      assert InArena(fs', |arena|);
      GroupsInArenaOf(arena, fs', key);
      AddMemberInArena(GroupsOf(arena, fs', key), x, arena[x], key(arena[x]), |arena|);
    }
  }

  lemma AddMemberInArena(gs: seq<Group>, x: nat, f: Feature, name: string, n: nat)
    requires GroupsInArena(gs, n) && x < n
    ensures GroupsInArena(AddMember(gs, x, f, name), n)
  {
    var r := AddMember(gs, x, f, name);
    forall j | 0 <= j < |r|
      ensures InArena(r[j].members, n)
    {
      if j < |gs| && r[j] != gs[j] {
        assert r[j].members == gs[j].members + [x];
        assert InArena(gs[j].members, n);
      }
    }
  }

  /** The grouping loop of gff_group_by_feature. */
  method TypeGroups(arena: seq<Feature>, fs: seq<nat>) returns (gs: seq<Group>)
    requires InArena(fs, |arena|)
    ensures gs == GroupsOf(arena, fs, TypeKey())
  {
    gs := [];
    var hash: map<string, nat> := map[];
    var i := 0;
    while i < |fs|
      invariant 0 <= i <= |fs|
      invariant gs == GroupsOf(arena, fs[..i], TypeKey()) && HashFor(hash, gs)
      decreases |fs| - i
    {
      assert fs[..i + 1][..i] == fs[..i];
      var f := arena[fs[i]];
      gs, hash := AddToGroups(gs, hash, fs[i], f, f.feature);
      i := i + 1;
    }
    assert fs[..|fs|] == fs;
  }

  /** Groups the set by feature type, under the tag "feature"
      (gff_group_by_feature). */
  method GroupByFeature(gff: FeatureSet)
    requires gff.Valid()
    modifies gff
    ensures gff.Valid()
    ensures gff.header == old(gff.header) && gff.arena == old(gff.arena)
    ensures gff.features == old(gff.features)
    ensures gff.grouping == Some(Grouping("feature", GroupsOf(gff.arena, gff.features, TypeKey())))
  {
    if gff.grouping.Some? {
      Ungroup(gff);
    }
    var gs := TypeGroups(gff.arena, gff.features);
    GroupsInArenaOf(gff.arena, gff.features, TypeKey());
    gff.grouping := Some(Grouping("feature", gs));
  }

  /** How adding a member changes the names and the member lists. */
  lemma AddMemberLists(gs: seq<Group>, x: nat, f: Feature, name: string)
    ensures var gs2 := AddMember(gs, x, f, name);
      match FindGroup(gs, name)
      case None =>
        Names(gs2) == Names(gs) + [name] && MemberLists(gs2) == MemberLists(gs) + [[x]]
      case Some(j) =>
        Names(gs2) == Names(gs) &&
        MemberLists(gs2) == MemberLists(gs)[j := MemberLists(gs)[j] + [x]]
  {
  }

  /** The feature types in order of first occurrence and, for each, the
      features of that type in order (gff_partition_by_type). */
  method PartitionByType(gff: FeatureSet) returns (types: seq<string>, subsets: seq<seq<nat>>)
    requires gff.Valid()
    ensures types == Names(GroupsOf(gff.arena, gff.features, TypeKey()))
    ensures subsets == MemberLists(GroupsOf(gff.arena, gff.features, TypeKey()))
  {
    var arena := gff.arena;
    var fs := gff.features;
    ghost var gs: seq<Group> := [];
    types := [];
    subsets := [];
    var i := 0;
    while i < |fs|
      invariant 0 <= i <= |fs|
      invariant gs == GroupsOf(arena, fs[..i], TypeKey())
      invariant types == Names(gs) && subsets == MemberLists(gs)
      decreases |fs| - i
    {
      assert fs[..i + 1][..i] == fs[..i];
      var f := arena[fs[i]];
      AddMemberLists(gs, fs[i], f, f.feature);
      var idx := Position(types, f.feature);
      if idx.None? {
        types := types + [f.feature];
        subsets := subsets + [[fs[i]]];
      } else {
        subsets := subsets[idx.value := subsets[idx.value] + [fs[i]]];
      }
      gs := AddMember(gs, fs[i], f, f.feature);
      i := i + 1;
    }
    assert fs[..|fs|] == fs;
  }

  /** Partition by type: every feature is in exactly one subset, the subset of
      its type, in original order; the types are distinct and in order of
      first occurrence. */
  lemma PartitionByTypeProps(arena: seq<Feature>, fs: seq<nat>)
    requires InArena(fs, |arena|)
    ensures var gs := GroupsOf(arena, fs, TypeKey());
      Names(gs) == Distinct(Keys(arena, fs, TypeKey())) &&
      forall j :: 0 <= j < |gs| ==> MemberLists(gs)[j] == Filter(fs, HasKey(arena, TypeKey(), Names(gs)[j]))
  {
    GroupsOfNames(arena, fs, TypeKey());
    GroupsOfMembers(arena, fs, TypeKey());
  }

  /** Keeps group g when its name is listed. */
  function NameListed(names: seq<string>): Group -> bool {
    (g: Group) => g.name in names
  }

  /** Keeps the features of the groups whose names are listed, in group order,
      then regroups the set by the same tag (gff_filter_by_group).  `matchTag`
      is the tag pattern of the existing grouping's tag. */
  method FilterByGroup(gff: FeatureSet, names: seq<string>, matchTag: string -> Option<string>)
    requires gff.Valid() && gff.grouping.Some?
    modifies gff
    ensures gff.Valid()
    ensures gff.header == old(gff.header) && gff.arena == old(gff.arena)
    ensures gff.features == AllMembers(Filter(old(gff.grouping).value.groups, NameListed(names)))
    ensures gff.grouping == Some(Grouping(old(gff.grouping).value.tag,
              GroupsOf(gff.arena, gff.features, TagKey(|old(gff.grouping).value.tag|, matchTag))))
  {
    var gs := gff.grouping.value.groups;
    var tag := gff.grouping.value.tag;
    var keepers := KeptMembers(gs, names);
    FilteredMembersInArena(gs, names, |gff.arena|);
    gff.features := keepers;
    gff.grouping := None;
    GroupByTag(gff, tag, matchTag);
  }

  /** The filtering loop of gff_filter_by_group. */
  method KeptMembers(gs: seq<Group>, names: seq<string>) returns (keepers: seq<nat>)
    ensures keepers == AllMembers(Filter(gs, NameListed(names)))
  {
    keepers := [];
    var i := 0;
    while i < |gs|
      invariant 0 <= i <= |gs|
      invariant keepers == AllMembers(Filter(gs[..i], NameListed(names)))
      decreases |gs| - i
    {
      assert gs[..i + 1][..i] == gs[..i];
      ghost var kept := Filter(gs[..i], NameListed(names));
      if gs[i].name in names {
        assert Filter(gs[..i + 1], NameListed(names)) == kept + [gs[i]];
        AllMembersSnoc(kept, gs[i]);
        keepers := keepers + gs[i].members;
      } else {
        assert Filter(gs[..i + 1], NameListed(names)) == kept;
      }
      i := i + 1;
    }
    assert gs[..|gs|] == gs;
  }

  lemma FilteredMembersInArena(gs: seq<Group>, names: seq<string>, n: nat)
    requires GroupsInArena(gs, n)
    ensures InArena(AllMembers(Filter(gs, NameListed(names))), n)
  {
    var kept := Filter(gs, NameListed(names));
    forall j | 0 <= j < |kept|
      ensures InArena(kept[j].members, n)
    {
      FilterMembership(gs, NameListed(names), kept[j]);
    }
    AllMembersInArena(kept, n);
  }

  /** A feature survives the group filter exactly when it is a member of a
      group whose name is listed. */
  lemma FilterByGroupMembership(gs: seq<Group>, names: seq<string>, x: nat)
    ensures x in AllMembers(Filter(gs, NameListed(names))) <==>
            exists j :: 0 <= j < |gs| && gs[j].name in names && x in gs[j].members
  {
    if x in AllMembers(Filter(gs, NameListed(names))) {
      FilteredMemberListed(gs, names, x);
    }
    if exists j :: 0 <= j < |gs| && gs[j].name in names && x in gs[j].members {
      var j :| 0 <= j < |gs| && gs[j].name in names && x in gs[j].members;
      ListedMemberFiltered(gs, names, x, j);
    }
  }

  lemma FilteredMemberListed(gs: seq<Group>, names: seq<string>, x: nat)
    requires x in AllMembers(Filter(gs, NameListed(names)))
    ensures exists j :: 0 <= j < |gs| && gs[j].name in names && x in gs[j].members
  {
    var kept := Filter(gs, NameListed(names));
    var j := MemberGroup(kept, x);
    var h := kept[j];
    FilterElement(gs, NameListed(names), j);
    var g := PositionOf(gs, h);
    assert gs[g].name in names && x in gs[g].members;
  }

  lemma ListedMemberFiltered(gs: seq<Group>, names: seq<string>, x: nat, j: nat)
    requires j < |gs| && gs[j].name in names && x in gs[j].members
    ensures x in AllMembers(Filter(gs, NameListed(names)))
  {
    var kept := Filter(gs, NameListed(names));
    FilterMembership(gs, NameListed(names), gs[j]);
    var k :| 0 <= k < |kept| && kept[k] == gs[j];
    GroupMemberInAll(kept, x, k);
  }
}
