/** Creation of derived features in a grouped set: UTRs (gff_create_utrs,
    src/lib/feature/gff.c:1069-1122) and introns (gff_create_introns,
    src/lib/feature/gff.c:1125-1157).  Each group, in order, gets new feature
    objects built from its members; every new object is appended both to the
    set's feature list and to the group's member list. */
module GffCreate {
  import opened Util
  import opened Sorting
  import opened GffFeature
  import opened GffSet

  /** The parts of a grouped set that feature creation changes. */
  datatype SetState = SetState(arena: seq<Feature>, features: seq<nat>, groups: seq<Group>)

  predicate StateOk(st: SetState) {
    InArena(st.features, |st.arena|) && GroupsInArena(st.groups, |st.arena|)
  }

  /** What a dangling index reads as; no index of a valid set dangles. */
  const Blank: Feature := Feature("", "", "", 0, 0, 0.0, Unstranded, NULL_FRAME, "", true)

  /** The feature values an index list refers to, read without a validity
      precondition. */
  function Values(arena: seq<Feature>, idx: seq<nat>): (r: seq<Feature>)
    ensures |r| == |idx|
  {
    seq(|idx|, k requires 0 <= k < |idx| => if idx[k] < |arena| then arena[idx[k]] else Blank)
  }

  /** On indices into the arena, Values reads what Deref reads. */
  lemma ValuesDeref(arena: seq<Feature>, idx: seq<nat>)
    requires InArena(idx, |arena|)
    ensures Values(arena, idx) == Deref(arena, idx)
  {
  }

  /** The indices lo, lo + 1, ..., hi - 1. */
  function Range(lo: nat, hi: nat): (r: seq<nat>)
    requires lo <= hi
    ensures |r| == hi - lo && forall k :: 0 <= k < |r| ==> r[k] == lo + k
  {
    seq(hi - lo, k requires 0 <= k < hi - lo => lo + k)
  }

  /** Joining consecutive index ranges. */
  lemma RangeSplit(a: nat, b: nat, c: nat)
    requires a <= b <= c
    ensures Range(a, c) == Range(a, b) + Range(b, c)
  {
  }

  /** A new feature object appended to the set's list and to group i. */
  function Push(st: SetState, i: nat, f: Feature): (r: SetState)
    requires i < |st.groups|
  {
    var x := |st.arena|;
    SetState(st.arena + [f], st.features + [x],
             st.groups[i := st.groups[i].(members := st.groups[i].members + [x])])
  }

  /** The new objects fs pushed in order onto group i. */
  function PushAll(st: SetState, i: nat, fs: seq<Feature>): (r: SetState)
    requires i < |st.groups|
    ensures |r.groups| == |st.groups|
    decreases |fs|
  {
    if |fs| == 0 then st else Push(PushAll(st, i, fs[..|fs| - 1]), i, fs[|fs| - 1])
  }

  /** PushAll appends fs to the arena, their new indices to the set's list
      and to group i, and changes nothing else. */
  lemma {:induction false} PushAllShape(st: SetState, i: nat, fs: seq<Feature>)
    requires i < |st.groups|
    ensures var r := PushAll(st, i, fs);
      r.arena == st.arena + fs &&
      r.features == st.features + Range(|st.arena|, |st.arena| + |fs|) &&
      r.groups == st.groups[i := st.groups[i].(members := st.groups[i].members +
                                                           Range(|st.arena|, |st.arena| + |fs|))]
    decreases |fs|
  {
    if |fs| > 0 {
      var n := |fs|;
      var a := |st.arena|;
      PushAllShape(st, i, fs[..n - 1]);
      var p := PushAll(st, i, fs[..n - 1]);
      var r := PushAll(st, i, fs);
      assert r == Push(p, i, fs[n - 1]);
      assert fs == fs[..n - 1] + [fs[n - 1]];
      assert Range(a, a + n) == Range(a, a + n - 1) + [a + n - 1];
      var ms := st.groups[i].members;
      assert |p.arena| == a + n - 1;
      assert r.groups == st.groups[i := st.groups[i].(members := ms + Range(a, a + n - 1) + [a + n - 1])];
      assert ms + Range(a, a + n - 1) + [a + n - 1] == ms + Range(a, a + n);
    } else {
      assert st.groups[i].members + Range(|st.arena|, |st.arena|) == st.groups[i].members;
    }
  }

  /** Pushing keeps every index in range. */
  lemma PushAllOk(st: SetState, i: nat, fs: seq<Feature>)
    requires StateOk(st) && i < |st.groups|
    ensures StateOk(PushAll(st, i, fs))
  {
    PushAllShape(st, i, fs);
    var r := PushAll(st, i, fs);
    forall j | 0 <= j < |r.groups|
      ensures InArena(r.groups[j].members, |r.arena|)
    {
      assert InArena(st.groups[j].members, |st.arena|);
    }
  }

  /** Pushing one more object extends the pushes. */
  lemma PushAllSnoc(st: SetState, i: nat, fs: seq<Feature>, f: Feature)
    requires i < |st.groups|
    ensures PushAll(st, i, fs + [f]) == Push(PushAll(st, i, fs), i, f)
  {
    assert (fs + [f])[..|fs|] == fs;
  }

  /** Group i gets the objects `make` builds from its members' current
      values. */
  function AppendOne(s: SetState, i: nat, make: seq<Feature> -> seq<Feature>): (r: SetState)
    requires i < |s.groups|
    ensures |r.groups| == |s.groups|
  {
    PushAll(s, i, make(Values(s.arena, s.groups[i].members)))
  }

  /** Each of the first n groups, in order, gets the objects `make` builds
      from its members' current values. */
  function AppendGroups(st: SetState, make: seq<Feature> -> seq<Feature>, n: nat): (r: SetState)
    requires n <= |st.groups|
    ensures |r.groups| == |st.groups|
    decreases n
  {
    if n == 0 then st else AppendOne(AppendGroups(st, make, n - 1), n - 1, make)
  }

  /** Group j keeps its name, span and members, with new member indices
      appended behind them. */
  predicate Extends(g: Group, h: Group) {
    h == g.(members := h.members) && |g.members| <= |h.members| && h.members[..|g.members|] == g.members
  }

  lemma ExtendsTrans(g: Group, h: Group, k: Group)
    requires Extends(g, h) && Extends(h, k)
    ensures Extends(g, k)
  {
    assert k.members[..|g.members|] == k.members[..|h.members|][..|g.members|];
  }

  /** One step grows the arena and the set's list at the end only, the
      list by exactly the new objects; it extends group i and leaves every
      other group alone. */
  lemma AppendOneShape(s: SetState, i: nat, make: seq<Feature> -> seq<Feature>, j: nat)
    requires i < |s.groups| && j < |s.groups|
    ensures var r := AppendOne(s, i, make);
      |s.arena| <= |r.arena| && r.arena[..|s.arena|] == s.arena &&
      r.features == s.features + Range(|s.arena|, |r.arena|) &&
      Extends(s.groups[j], r.groups[j]) && (j != i ==> r.groups[j] == s.groups[j])
  {
    PushAllShape(s, i, make(Values(s.arena, s.groups[i].members)));
  }

  /** One step leaves the values of the existing objects alone, and the
      objects it appends to group i are those `make` builds from the values
      of its members. */
  lemma AppendOneValues(s: SetState, i: nat, make: seq<Feature> -> seq<Feature>, idx: seq<nat>)
    requires i < |s.groups| && InArena(idx, |s.arena|)
    ensures var r := AppendOne(s, i, make);
      InArena(idx, |r.arena|) && Values(r.arena, idx) == Values(s.arena, idx) &&
      |s.groups[i].members| <= |r.groups[i].members| &&
      Values(r.arena, r.groups[i].members[|s.groups[i].members|..]) == make(Values(s.arena, s.groups[i].members))
  {
    var made := make(Values(s.arena, s.groups[i].members));
    PushAllShape(s, i, made);
    var r := AppendOne(s, i, make);
    assert r.arena == s.arena + made;
    assert r.groups[i].members[|s.groups[i].members|..] == Range(|s.arena|, |s.arena| + |made|);
  }

  /** Every step keeps every index in range. */
  lemma {:induction false} AppendGroupsOk(st: SetState, make: seq<Feature> -> seq<Feature>, n: nat)
    requires StateOk(st) && n <= |st.groups|
    ensures StateOk(AppendGroups(st, make, n))
    decreases n
  {
    if n > 0 {
      AppendGroupsOk(st, make, n - 1);
      var s := AppendGroups(st, make, n - 1);
      PushAllOk(s, n - 1, make(Values(s.arena, s.groups[n - 1].members)));
    }
  }

  /** After the first n groups the arena and the set's list have only grown
      at the end, and the set's list has gained exactly the new objects, in
      order. */
  lemma {:induction false} AppendGroupsArena(st: SetState, make: seq<Feature> -> seq<Feature>, n: nat)
    requires n <= |st.groups|
    ensures var r := AppendGroups(st, make, n);
      |st.arena| <= |r.arena| && r.arena[..|st.arena|] == st.arena &&
      r.features == st.features + Range(|st.arena|, |r.arena|)
    decreases n
  {
    if n > 0 {
      AppendGroupsArena(st, make, n - 1);
      var s := AppendGroups(st, make, n - 1);
      var r := AppendGroups(st, make, n);
      AppendOneShape(s, n - 1, make, 0);
      assert r.arena[..|st.arena|] == r.arena[..|s.arena|][..|st.arena|];
      RangeSplit(|st.arena|, |s.arena|, |r.arena|);
    } else {
      assert st.features + Range(|st.arena|, |st.arena|) == st.features;
    }
  }

  /** After the first n groups, group j keeps its name and span and has only
      gained members at the end; from n on it is untouched. */
  lemma {:induction false} AppendGroupsGroup(st: SetState, make: seq<Feature> -> seq<Feature>, n: nat, j: nat)
    requires n <= |st.groups| && j < |st.groups|
    ensures var r := AppendGroups(st, make, n);
      Extends(st.groups[j], r.groups[j]) && (n <= j ==> r.groups[j] == st.groups[j])
    decreases n
  {
    if n > 0 {
      AppendGroupsGroup(st, make, n - 1, j);
      var s := AppendGroups(st, make, n - 1);
      AppendOneShape(s, n - 1, make, j);
      ExtendsTrans(st.groups[j], s.groups[j], AppendGroups(st, make, n).groups[j]);
    }
  }

  /** Building the first n groups' objects leaves the values of the existing
      objects alone. */
  lemma {:induction false} AppendGroupsValues(st: SetState, make: seq<Feature> -> seq<Feature>, n: nat, idx: seq<nat>)
    requires n <= |st.groups| && InArena(idx, |st.arena|)
    ensures var r := AppendGroups(st, make, n);
      InArena(idx, |r.arena|) && Values(r.arena, idx) == Values(st.arena, idx)
    decreases n
  {
    if n > 0 {
      AppendGroupsValues(st, make, n - 1, idx);
      AppendOneValues(AppendGroups(st, make, n - 1), n - 1, make, idx);
    }
  }

  /** The objects appended to group n - 1 by the n-th step are exactly
      those `make` builds from the original values of its original members. */
  lemma AppendGroupsMadeLast(st: SetState, make: seq<Feature> -> seq<Feature>, n: nat)
    requires StateOk(st) && 0 < n <= |st.groups|
    ensures var r := AppendGroups(st, make, n);
      |st.groups[n - 1].members| <= |r.groups[n - 1].members| &&
      Values(r.arena, r.groups[n - 1].members[|st.groups[n - 1].members|..]) ==
      make(Values(st.arena, st.groups[n - 1].members))
  {
    var s := AppendGroups(st, make, n - 1);
    AppendGroupsGroup(st, make, n - 1, n - 1);
    AppendGroupsValues(st, make, n - 1, st.groups[n - 1].members);
    AppendOneValues(s, n - 1, make, []);
  }

  /** The objects appended to group j are exactly those `make` builds from
      the original values of its original members. */
  lemma {:induction false} AppendGroupsMade(st: SetState, make: seq<Feature> -> seq<Feature>, n: nat, j: nat)
    requires StateOk(st) && j < n <= |st.groups|
    ensures var r := AppendGroups(st, make, n);
      |st.groups[j].members| <= |r.groups[j].members| &&
      Values(r.arena, r.groups[j].members[|st.groups[j].members|..]) ==
      make(Values(st.arena, st.groups[j].members))
    decreases n
  {
    if j == n - 1 {
      AppendGroupsMadeLast(st, make, n);
    } else {
      AppendGroupsMade(st, make, n - 1, j);
      AppendGroupsMadeStep(st, make, n, j);
    }
  }

  /** A later step leaves the objects already appended to group j alone. */
  lemma AppendGroupsMadeStep(st: SetState, make: seq<Feature> -> seq<Feature>, n: nat, j: nat)
    requires StateOk(st) && j < n - 1 && n <= |st.groups|
    requires var s := AppendGroups(st, make, n - 1);
      |st.groups[j].members| <= |s.groups[j].members| &&
      Values(s.arena, s.groups[j].members[|st.groups[j].members|..]) ==
      make(Values(st.arena, st.groups[j].members))
    ensures var r := AppendGroups(st, make, n);
      |st.groups[j].members| <= |r.groups[j].members| &&
      Values(r.arena, r.groups[j].members[|st.groups[j].members|..]) ==
      make(Values(st.arena, st.groups[j].members))
  {
    var s := AppendGroups(st, make, n - 1);
    AppendOneShape(s, n - 1, make, j);
    AppendGroupsOk(st, make, n - 1);
    AppendOneValues(s, n - 1, make, s.groups[j].members[|st.groups[j].members|..]);
  }

  // ---------------------------------------------------------------------
  // Scanning a group's members
  // ---------------------------------------------------------------------

  /** The smallest start of a CDS among the first n members, INFTY if none. */
  function CdsStart(fs: seq<Feature>, n: nat): int
    requires n <= |fs|
    decreases n
  {
    if n == 0 then INFTY
    else if fs[n - 1].feature == CDS_TYPE && fs[n - 1].start < CdsStart(fs, n - 1) then fs[n - 1].start
    else CdsStart(fs, n - 1)
  }

  /** The largest end of a CDS among the first n members, -1 if none. */
  function CdsEnd(fs: seq<Feature>, n: nat): int
    requires n <= |fs|
    decreases n
  {
    if n == 0 then -1
    else if fs[n - 1].feature == CDS_TYPE && fs[n - 1].end > CdsEnd(fs, n - 1) then fs[n - 1].end
    else CdsEnd(fs, n - 1)
  }

  /** The CDS bounds bound every CDS member, and are INFTY and -1 exactly
      when there is none. */
  lemma {:induction false} CdsBounds(fs: seq<Feature>, n: nat)
    requires n <= |fs|
    ensures forall k :: 0 <= k < n && fs[k].feature == CDS_TYPE ==>
              CdsStart(fs, n) <= fs[k].start && fs[k].end <= CdsEnd(fs, n)
    ensures (forall k :: 0 <= k < n ==> fs[k].feature != CDS_TYPE) ==>
              CdsStart(fs, n) == INFTY && CdsEnd(fs, n) == -1
    decreases n
  {
    if n > 0 {
      CdsBounds(fs, n - 1);
    }
  }

  /** The exon members among the first n, in member order. */
  function Exons(fs: seq<Feature>, n: nat): (r: seq<Feature>)
    requires n <= |fs|
    ensures |r| <= n
    decreases n
  {
    if n == 0 then []
    else if fs[n - 1].feature == EXON_TYPE then Exons(fs, n - 1) + [fs[n - 1]]
    else Exons(fs, n - 1)
  }

  /** Exons keeps exactly the exon members. */
  lemma {:induction false} ExonsMembers(fs: seq<Feature>, n: nat, e: Feature)
    requires n <= |fs|
    ensures e in Exons(fs, n) <==> exists k :: 0 <= k < n && fs[k] == e && e.feature == EXON_TYPE
    decreases n
  {
    if n > 0 {
      ExonsMembers(fs, n - 1, e);
    }
  }

  /** The strand of the first member, which decides the UTR types (none for
      an empty group). */
  function FirstStrand(fs: seq<Feature>): Option<Strand> {
    if |fs| == 0 then None else Some(fs[0].strand)
  }

  // ---------------------------------------------------------------------
  // gff_create_utrs
  // ---------------------------------------------------------------------

  /** The part of exon e before the CDS, typed 3'UTR on the minus strand and
      5'UTR otherwise. */
  function Upstream(e: Feature, cs: int, minus: bool): Feature {
    e.(end := if e.end >= cs then cs - 1 else e.end, feature := if minus then UTR3_TYPE else UTR5_TYPE)
  }

  /** The part of exon e after the CDS, typed 5'UTR on the minus strand and
      3'UTR otherwise. */
  function Downstream(e: Feature, ce: int, minus: bool): Feature {
    e.(start := if e.start <= ce then ce + 1 else e.start, feature := if minus then UTR5_TYPE else UTR3_TYPE)
  }

  /** The UTRs so far, then exon e's part before cs if it has one. */
  function WithUpstream(u: seq<Feature>, e: Feature, cs: int, minus: bool): seq<Feature> {
    if e.start < cs then u + [Upstream(e, cs, minus)] else u
  }

  /** The UTRs so far, then exon e's part after ce if it has one. */
  function WithDownstream(u: seq<Feature>, e: Feature, ce: int, minus: bool): seq<Feature> {
    if e.end > ce then u + [Downstream(e, ce, minus)] else u
  }

  /** The UTRs made from the first n exons, in order: for each exon its
      upstream part, then its downstream part. */
  function UtrsFrom(exons: seq<Feature>, cs: int, ce: int, minus: bool, n: nat): seq<Feature>
    requires n <= |exons|
    decreases n
  {
    if n == 0 then []
    else WithDownstream(WithUpstream(UtrsFrom(exons, cs, ce, minus, n - 1), exons[n - 1], cs, minus),
                        exons[n - 1], ce, minus)
  }

  /** The UTRs one group gets from its members' values: none unless some CDS
      ends beyond position 0. */
  function UtrsOf(fs: seq<Feature>): seq<Feature> {
    var ce := CdsEnd(fs, |fs|);
    if ce > 0 then UtrsFrom(Exons(fs, |fs|), CdsStart(fs, |fs|), ce, FirstStrand(fs) == Some(Minus),
                           |Exons(fs, |fs|)|)
    else []
  }

  /** u is a UTR clipped from exon e: its part before cs or its part after
      ce. */
  predicate UtrOf(u: Feature, e: Feature, cs: int, ce: int, minus: bool) {
    (e.start < cs && u == Upstream(e, cs, minus)) || (e.end > ce && u == Downstream(e, ce, minus))
  }

  /** Every UTR made comes from one of the exons. */
  lemma {:induction false} UtrsFromSource(exons: seq<Feature>, cs: int, ce: int, minus: bool, n: nat, u: Feature)
    requires n <= |exons| && u in UtrsFrom(exons, cs, ce, minus, n)
    ensures exists p :: 0 <= p < n && UtrOf(u, exons[p], cs, ce, minus)
    decreases n
  {
    if u in UtrsFrom(exons, cs, ce, minus, n - 1) {
      UtrsFromSource(exons, cs, ce, minus, n - 1, u);
    } else {
      assert UtrOf(u, exons[n - 1], cs, ce, minus);
    }
  }

  /** Every exon reaching before cs or beyond ce yields its UTR. */
  lemma {:induction false} UtrsFromComplete(exons: seq<Feature>, cs: int, ce: int, minus: bool, n: nat, p: nat)
    requires p < n <= |exons|
    ensures exons[p].start < cs ==> Upstream(exons[p], cs, minus) in UtrsFrom(exons, cs, ce, minus, n)
    ensures exons[p].end > ce ==> Downstream(exons[p], ce, minus) in UtrsFrom(exons, cs, ce, minus, n)
    decreases n
  {
    if p < n - 1 {
      UtrsFromComplete(exons, cs, ce, minus, n - 1, p);
    }
  }

  /** A UTR lies wholly before cs or wholly after ce. */
  lemma UtrClipped(u: Feature, e: Feature, cs: int, ce: int, minus: bool)
    requires UtrOf(u, e, cs, ce, minus)
    ensures u.end < cs || u.start > ce
  {
  }

  /** Every UTR a group gets is clipped from one of its exon members, the
      part before the first CDS base or after the last one, and typed by the
      first member's strand. */
  lemma UtrsOfSound(fs: seq<Feature>, u: Feature)
    requires u in UtrsOf(fs)
    ensures var cs := CdsStart(fs, |fs|);
      var ce := CdsEnd(fs, |fs|);
      ce > 0 &&
      (exists k :: 0 <= k < |fs| && fs[k].feature == EXON_TYPE &&
                   UtrOf(u, fs[k], cs, ce, FirstStrand(fs) == Some(Minus))) &&
      (u.end < cs || u.start > ce)
  {
    var cs := CdsStart(fs, |fs|);
    var ce := CdsEnd(fs, |fs|);
    var minus := FirstStrand(fs) == Some(Minus);
    var exons := Exons(fs, |fs|);
    UtrsFromSource(exons, cs, ce, minus, |exons|, u);
    var p :| 0 <= p < |exons| && UtrOf(u, exons[p], cs, ce, minus);
    var e := exons[p];
    ExonsMembers(fs, |fs|, e);
    var k :| 0 <= k < |fs| && fs[k] == e && e.feature == EXON_TYPE;
    UtrClipped(u, e, cs, ce, minus);
  }

  /** So no UTR a group gets overlaps any of its CDS members. */
  lemma UtrAvoidsCds(fs: seq<Feature>, u: Feature, k: nat)
    requires u in UtrsOf(fs) && k < |fs| && fs[k].feature == CDS_TYPE
    ensures u.end < fs[k].start || u.start > fs[k].end
  {
    UtrsOfSound(fs, u);
    CdsBounds(fs, |fs|);
  }

  /** Conversely, when some CDS ends beyond position 0, each exon member
      starting before the first CDS base gets its upstream UTR, and each one
      ending after the last CDS base its downstream UTR. */
  lemma UtrsOfComplete(fs: seq<Feature>, e: Feature)
    requires e in fs && e.feature == EXON_TYPE && CdsEnd(fs, |fs|) > 0
    ensures var cs := CdsStart(fs, |fs|);
      var ce := CdsEnd(fs, |fs|);
      var minus := FirstStrand(fs) == Some(Minus);
      (e.start < cs ==> Upstream(e, cs, minus) in UtrsOf(fs)) &&
      (e.end > ce ==> Downstream(e, ce, minus) in UtrsOf(fs))
  {
    var exons := Exons(fs, |fs|);
    var k :| 0 <= k < |fs| && fs[k] == e;
    ExonsMembers(fs, |fs|, e);
    var p :| 0 <= p < |exons| && exons[p] == e;
    UtrsFromComplete(exons, CdsStart(fs, |fs|), CdsEnd(fs, |fs|), FirstStrand(fs) == Some(Minus), |exons|, p);
  }

  /** A group without a CDS member gets no UTR. */
  lemma NoCdsNoUtrs(fs: seq<Feature>)
    requires forall k :: 0 <= k < |fs| ==> fs[k].feature != CDS_TYPE
    ensures UtrsOf(fs) == []
  {
    CdsBounds(fs, |fs|);
  }

  /** An exon spanning a CDS on the plus strand yields its 5'UTR before and
      its 3'UTR after the CDS. */
  lemma UtrScenario(cds: Feature, exon: Feature)
    requires cds.feature == CDS_TYPE && cds.start == 50 && cds.end == 150 && cds.strand == Plus
    requires exon.feature == EXON_TYPE && exon.start == 1 && exon.end == 200
    ensures UtrsOf([cds, exon]) ==
      [exon.(end := 49, feature := UTR5_TYPE), exon.(start := 151, feature := UTR3_TYPE)]
  {
    var fs := [cds, exon];
    assert CdsStart(fs, 1) == 50 && CdsEnd(fs, 1) == 150;
    assert Exons(fs, 1) == [];
    assert Exons(fs, 2) == [exon];
    assert UtrsFrom([exon], 50, 150, false, 1) == [Upstream(exon, 50, false), Downstream(exon, 150, false)];
  }

  /** The first scan of gff_create_utrs over one group's member values. */
  method ScanUtrGroup(fs: seq<Feature>) returns (cs: int, ce: int, exons: seq<Feature>, strand: Option<Strand>)
    ensures cs == CdsStart(fs, |fs|) && ce == CdsEnd(fs, |fs|)
    ensures exons == Exons(fs, |fs|) && strand == FirstStrand(fs)
  {
    cs, ce, exons, strand := INFTY, -1, [], None;
    var j := 0;
    while j < |fs|
      invariant 0 <= j <= |fs|
      invariant cs == CdsStart(fs, j) && ce == CdsEnd(fs, j) && exons == Exons(fs, j)
      invariant strand == if j == 0 then None else FirstStrand(fs)
      decreases |fs| - j
    {
      var f := fs[j];
      if f.feature == CDS_TYPE {
        if f.start < cs {
          cs := f.start;
        }
        if f.end > ce {
          ce := f.end;
        }
      } else if f.feature == EXON_TYPE {
        exons := exons + [f];
      }
      if strand.None? {
        strand := Some(f.strand);
      }
      j := j + 1;
    }
  }

  /** One turn of the exon loop of gff_create_utrs: exon j's part before
      the CDS span, if any, then its part after it, if any, pushed onto
      group i. */
  method PushExonUtrs(st: SetState, i: nat, exons: seq<Feature>, cs: int, ce: int, minus: bool, j: nat,
                      r: SetState) returns (r': SetState)
    requires i < |st.groups| && j < |exons|
    requires r == PushAll(st, i, UtrsFrom(exons, cs, ce, minus, j))
    ensures r' == PushAll(st, i, UtrsFrom(exons, cs, ce, minus, j + 1))
  {
    var f := exons[j];
    ghost var u := UtrsFrom(exons, cs, ce, minus, j);
    r' := r;
    if f.start < cs {
      PushAllSnoc(st, i, u, Upstream(f, cs, minus));
      r' := Push(r', i, Upstream(f, cs, minus));
      u := u + [Upstream(f, cs, minus)];
    }
    if f.end > ce {
      PushAllSnoc(st, i, u, Downstream(f, ce, minus));
      r' := Push(r', i, Downstream(f, ce, minus));
    }
  }

  /** The second scan of gff_create_utrs: the UTRs of the exons pushed onto
      group i. */
  method PushUtrsFrom(st: SetState, i: nat, exons: seq<Feature>, cs: int, ce: int, minus: bool)
    returns (r: SetState)
    requires i < |st.groups|
    ensures r == PushAll(st, i, UtrsFrom(exons, cs, ce, minus, |exons|))
  {
    r := st;
    var j := 0;
    while j < |exons|
      invariant 0 <= j <= |exons|
      invariant r == PushAll(st, i, UtrsFrom(exons, cs, ce, minus, j))
      decreases |exons| - j
    {
      r := PushExonUtrs(st, i, exons, cs, ce, minus, j, r);
      j := j + 1;
    }
  }

  /** The UTRs of one group pushed onto group i. */
  method PushUtrs(st: SetState, i: nat) returns (r: SetState)
    requires i < |st.groups|
    ensures r == AppendOne(st, i, UtrsOf)
  {
    var fs := Values(st.arena, st.groups[i].members);
    var cs, ce, exons, strand := ScanUtrGroup(fs);
    if ce > 0 {
      r := PushUtrsFrom(st, i, exons, cs, ce, strand == Some(Minus));
    } else {
      r := st;
    }
  }

  /** One turn of the group loop of gff_create_utrs: the state after the first i
      groups becomes the state after the first i + 1. */
  method UtrsStep(st: SetState, r: SetState, i: nat) returns (r': SetState)
    requires i < |st.groups| && r == AppendGroups(st, UtrsOf, i)
    ensures r' == AppendGroups(st, UtrsOf, i + 1)
  {
    r' := PushUtrs(r, i);
  }

  /** The loop of gff_create_utrs over the groups. */
  method AllUtrs(st: SetState) returns (r: SetState)
    ensures r == AppendGroups(st, UtrsOf, |st.groups|)
  {
    r := st;
    var i := 0;
    while i < |st.groups|
      invariant 0 <= i <= |st.groups|
      invariant r == AppendGroups(st, UtrsOf, i)
      decreases |st.groups| - i
    {
      r := UtrsStep(st, r, i);
      i := i + 1;
    }
  }

  /** Adds to each group the parts of its exons lying before or after its
      CDS span, as UTR features (gff_create_utrs).  The source stops with an
      error on an ungrouped set, hence the precondition. */
  method CreateUtrs(gff: FeatureSet)
    requires gff.Valid() && gff.grouping.Some?
    modifies gff
    ensures gff.Valid() && gff.header == old(gff.header)
    ensures gff.grouping.Some? && gff.grouping.value.tag == old(gff.grouping).value.tag
    ensures var r := AppendGroups(SetState(old(gff.arena), old(gff.features), old(gff.grouping).value.groups),
                                  UtrsOf, |old(gff.grouping).value.groups|);
      gff.arena == r.arena && gff.features == r.features && gff.grouping.value.groups == r.groups
  {
    var st := SetState(gff.arena, gff.features, gff.grouping.value.groups);
    var r := AllUtrs(st);
    AppendGroupsOk(st, UtrsOf, |st.groups|);
    gff.arena := r.arena;
    gff.features := r.features;
    gff.grouping := Some(gff.grouping.value.(groups := r.groups));
  }

  // ---------------------------------------------------------------------
  // gff_create_introns
  // ---------------------------------------------------------------------

  /** The intron between two exons: a copy of the first spanning the gap. */
  function Intron(e1: Feature, e2: Feature): Feature {
    e1.(start := e1.end + 1, end := e2.start - 1, feature := INTRON_TYPE)
  }

  /** A group's exons ordered by the feature comparator. */
  function SortedExons(fs: seq<Feature>): seq<Feature> {
    SortBy(Exons(fs, |fs|), FeatureKey)
  }

  /** The introns between consecutive sorted exons. */
  function IntronsFrom(ex: seq<Feature>): (r: seq<Feature>) {
    if |ex| <= 1 then [] else seq(|ex| - 1, j requires 0 <= j < |ex| - 1 => Intron(ex[j], ex[j + 1]))
  }

  /** The introns one group gets from its members' values. */
  function IntronsOf(fs: seq<Feature>): seq<Feature> {
    IntronsFrom(SortedExons(fs))
  }

  /** One intron fewer than exons (none without exons), the j-th spanning
      exactly the gap between exons j and j + 1. */
  lemma IntronsFromProps(ex: seq<Feature>)
    ensures |IntronsFrom(ex)| == (if |ex| == 0 then 0 else |ex| - 1)
    ensures forall j :: 0 <= j < |IntronsFrom(ex)| ==>
              IntronsFrom(ex)[j].start == ex[j].end + 1 && IntronsFrom(ex)[j].end == ex[j + 1].start - 1 &&
              IntronsFrom(ex)[j].feature == INTRON_TYPE
  {
    var r := IntronsFrom(ex);
    if |ex| > 1 {
      forall j | 0 <= j < |r|
        ensures r[j].start == ex[j].end + 1 && r[j].end == ex[j + 1].start - 1 && r[j].feature == INTRON_TYPE
      {
        assert r[j] == Intron(ex[j], ex[j + 1]);
      }
    }
  }

  /** A group gets one intron fewer than it has exon members (none without
      exons); the exons they lie between are all its exon members, sorted;
      and intron j spans exactly the gap after sorted exon j and before
      sorted exon j + 1. */
  lemma IntronsOfProps(fs: seq<Feature>)
    ensures var ex := SortedExons(fs);
      multiset(ex) == multiset(Exons(fs, |fs|)) && SortedBy(ex, FeatureKey) &&
      |IntronsOf(fs)| == (if |Exons(fs, |fs|)| == 0 then 0 else |Exons(fs, |fs|)| - 1) &&
      forall j :: 0 <= j < |IntronsOf(fs)| ==>
        IntronsOf(fs)[j].start == ex[j].end + 1 && IntronsOf(fs)[j].end == ex[j + 1].start - 1 &&
        IntronsOf(fs)[j].feature == INTRON_TYPE
  {
    var e0 := Exons(fs, |fs|);
    SortBySorted(e0, FeatureKey);
    SortByPermutation(e0, FeatureKey);
    IntronsFromProps(SortBy(e0, FeatureKey));
  }

  /** Between sorted, proper, non-overlapping exons, the intron after
      exon j overlaps none of them. */
  lemma IntronAvoids(ex: seq<Feature>, j: nat, p: nat)
    requires j + 1 < |ex| && p < |ex|
    requires forall p :: 0 <= p < |ex| ==> ex[p].start <= ex[p].end
    requires forall p, q :: 0 <= p < q < |ex| ==> ex[p].end < ex[q].start
    ensures Intron(ex[j], ex[j + 1]).end < ex[p].start || ex[p].end < Intron(ex[j], ex[j + 1]).start
  {
    if p < j {
      assert ex[p].end < ex[j].start;
    } else if j + 1 < p {
      assert ex[j + 1].end < ex[p].start;
    }
  }

  /** The intron after exon j of a proper, non-overlapping rearrangement
      of the exons overlaps none of them. */
  lemma IntronAvoidsMember(exons: seq<Feature>, ex: seq<Feature>, j: nat, e: Feature)
    requires multiset(ex) == multiset(exons) && j + 1 < |ex| && e in exons
    requires forall p :: 0 <= p < |ex| ==> ex[p].start <= ex[p].end
    requires forall p, q :: 0 <= p < q < |ex| ==> ex[p].end < ex[q].start
    ensures Intron(ex[j], ex[j + 1]).end < e.start || e.end < Intron(ex[j], ex[j + 1]).start
  {
    assert e in multiset(ex);
    var p :| 0 <= p < |ex| && ex[p] == e;
    IntronAvoids(ex, j, p);
  }

  /** When a rearrangement ex of the exons is proper and has no overlaps,
      no intron between consecutive ex overlaps any of the exons. */
  lemma IntronsFromAvoid(exons: seq<Feature>, ex: seq<Feature>)
    requires multiset(ex) == multiset(exons)
    requires forall p :: 0 <= p < |ex| ==> ex[p].start <= ex[p].end
    requires forall p, q :: 0 <= p < q < |ex| ==> ex[p].end < ex[q].start
    ensures forall j, e :: 0 <= j < |IntronsFrom(ex)| && e in exons ==>
              IntronsFrom(ex)[j].end < e.start || e.end < IntronsFrom(ex)[j].start
  {
    forall j, e | 0 <= j < |IntronsFrom(ex)| && e in exons
      ensures IntronsFrom(ex)[j].end < e.start || e.end < IntronsFrom(ex)[j].start
    {
      IntronAvoidsMember(exons, ex, j, e);
    }
  }

  /** When the sorted exons are proper and do not overlap, no intron
      overlaps any exon of the group. */
  lemma IntronsAvoidExons(fs: seq<Feature>)
    requires var ex := SortedExons(fs);
      (forall p :: 0 <= p < |ex| ==> ex[p].start <= ex[p].end) &&
      (forall p, q :: 0 <= p < q < |ex| ==> ex[p].end < ex[q].start)
    ensures forall j, e :: 0 <= j < |IntronsOf(fs)| && e in Exons(fs, |fs|) ==>
              IntronsOf(fs)[j].end < e.start || e.end < IntronsOf(fs)[j].start
  {
    SortByPermutation(Exons(fs, |fs|), FeatureKey);
    IntronsFromAvoid(Exons(fs, |fs|), SortedExons(fs));
  }

  /** Two exons listed out of order come out of the sort swapped. */
  lemma SortPairScenario(e1: Feature, e2: Feature)
    requires e1.feature == EXON_TYPE && e1.start == 21 && e1.end == 30
    requires e2.feature == EXON_TYPE && e2.start == 1 && e2.end == 10
    ensures SortedExons([e1, e2]) == [e2, e1]
  {
    ExonsPair(e1, e2);
    SortSingle(e1);
    InsertFront(e2, e1);
    assert [e1, e2][..1] == [e1];
  }

  lemma ExonsPair(e1: Feature, e2: Feature)
    requires e1.feature == EXON_TYPE && e2.feature == EXON_TYPE
    ensures Exons([e1, e2], 2) == [e1, e2]
  {
    assert Exons([e1, e2], 1) == [e1];
  }

  lemma SortSingle(e: Feature)
    ensures SortBy([e], FeatureKey) == [e]
  {
    assert [e][..0] == [];
  }

  lemma InsertFront(x: Feature, e: Feature)
    requires !KeyLe(FeatureKey(e), FeatureKey(x))
    ensures Insert(x, [e], FeatureKey) == [x, e]
  {
    assert [e][..0] == [];
  }

  /** Two exons, listed out of order, get the one intron filling their gap. */
  lemma IntronScenario(e1: Feature, e2: Feature)
    requires e1.feature == EXON_TYPE && e1.start == 21 && e1.end == 30
    requires e2.feature == EXON_TYPE && e2.start == 1 && e2.end == 10
    ensures IntronsOf([e1, e2]) == [e2.(start := 11, end := 20, feature := INTRON_TYPE)]
  {
    SortPairScenario(e1, e2);
    assert IntronsFrom([e2, e1]) == [Intron(e2, e1)];
  }

  /** The exon scan of gff_create_introns over one group's member values. */
  method ScanExons(fs: seq<Feature>) returns (exons: seq<Feature>)
    ensures exons == Exons(fs, |fs|)
  {
    exons := [];
    var j := 0;
    while j < |fs|
      invariant 0 <= j <= |fs| && exons == Exons(fs, j)
      decreases |fs| - j
    {
      if fs[j].feature == EXON_TYPE {
        exons := exons + [fs[j]];
      }
      j := j + 1;
    }
  }

  /** One turn of the loop of gff_create_introns over the sorted exons: the
      intron between exon j and exon j + 1 pushed onto group i. */
  method PushIntronStep(st: SetState, i: nat, ex: seq<Feature>, j: nat, r: SetState)
    returns (r': SetState)
    requires i < |st.groups| && j + 1 < |ex|
    requires r == PushAll(st, i, IntronsFrom(ex)[..j])
    ensures r' == PushAll(st, i, IntronsFrom(ex)[..j + 1])
  {
    var all := IntronsFrom(ex);
    PushAllSnoc(st, i, all[..j], Intron(ex[j], ex[j + 1]));
    assert all[..j + 1] == all[..j] + [Intron(ex[j], ex[j + 1])];
    r' := Push(r, i, Intron(ex[j], ex[j + 1]));
  }

  /** The loop of gff_create_introns over the sorted exons of group i. */
  method PushIntronsFrom(st: SetState, i: nat, ex: seq<Feature>) returns (r: SetState)
    requires i < |st.groups|
    ensures r == PushAll(st, i, IntronsFrom(ex))
  {
    r := st;
    var j := 0;
    while j + 1 < |ex|
      invariant 0 <= j <= |IntronsFrom(ex)| && r == PushAll(st, i, IntronsFrom(ex)[..j])
      decreases |ex| - j
    {
      r := PushIntronStep(st, i, ex, j, r);
      j := j + 1;
    }
    assert IntronsFrom(ex)[..j] == IntronsFrom(ex);
  }

  /** The introns of one group pushed onto group i. */
  method PushIntrons(st: SetState, i: nat) returns (r: SetState)
    requires i < |st.groups|
    ensures r == AppendOne(st, i, IntronsOf)
  {
    var fs := Values(st.arena, st.groups[i].members);
    var exons := ScanExons(fs);
    var ex := SortBy(exons, FeatureKey);
    r := PushIntronsFrom(st, i, ex);
  }

  /** One turn of the group loop of gff_create_introns: the state after the first i
      groups becomes the state after the first i + 1. */
  method IntronsStep(st: SetState, r: SetState, i: nat) returns (r': SetState)
    requires i < |st.groups| && r == AppendGroups(st, IntronsOf, i)
    ensures r' == AppendGroups(st, IntronsOf, i + 1)
  {
    r' := PushIntrons(r, i);
  }

  /** The loop of gff_create_introns over the groups. */
  method AllIntrons(st: SetState) returns (r: SetState)
    ensures r == AppendGroups(st, IntronsOf, |st.groups|)
  {
    r := st;
    var i := 0;
    while i < |st.groups|
      invariant 0 <= i <= |st.groups|
      invariant r == AppendGroups(st, IntronsOf, i)
      decreases |st.groups| - i
    {
      r := IntronsStep(st, r, i);
      i := i + 1;
    }
  }

  /** Adds to each group an intron feature between each pair of
      consecutive exons in sorted order (gff_create_introns).  The source
      stops with an error on an ungrouped set, hence the precondition. */
  method CreateIntrons(gff: FeatureSet)
    requires gff.Valid() && gff.grouping.Some?
    modifies gff
    ensures gff.Valid() && gff.header == old(gff.header)
    ensures gff.grouping.Some? && gff.grouping.value.tag == old(gff.grouping).value.tag
    ensures var r := AppendGroups(SetState(old(gff.arena), old(gff.features), old(gff.grouping).value.groups),
                                  IntronsOf, |old(gff.grouping).value.groups|);
      gff.arena == r.arena && gff.features == r.features && gff.grouping.value.groups == r.groups
  {
    var st := SetState(gff.arena, gff.features, gff.grouping.value.groups);
    var r := AllIntrons(st);
    AppendGroupsOk(st, IntronsOf, |st.groups|);
    gff.arena := r.arena;
    gff.features := r.features;
    gff.grouping := Some(gff.grouping.value.(groups := r.groups));
  }
}
