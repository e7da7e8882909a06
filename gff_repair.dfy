/** Coordinate and attribute repairs applied group by group to a grouped set
    (src/lib/feature/gff.c:918-1029): gff_fix_start_stop, gff_absorb_helpers
    and gff_add_gene_id.  Each visits the groups in order and, within a group,
    its members in order, changing the member feature objects in place; a
    feature listed twice is visited twice, each time as the previous visits
    left it. */
module GffRepair {
  import opened Util
  import opened GffFeature
  import opened GffSet

  /** Every feature object has start <= end. */
  predicate Proper(a: seq<Feature>) {
    forall y :: 0 <= y < |a| ==> a[y].start <= a[y].end
  }

  // ---------------------------------------------------------------------
  // gff_fix_start_stop
  // ---------------------------------------------------------------------

  /** Position of the last of the first n members whose type is t, or -1. */
  function LastPos(arena: seq<Feature>, ms: seq<nat>, t: string, n: nat): (r: int)
    requires InArena(ms, |arena|) && n <= |ms|
    ensures -1 <= r < n
    decreases n
  {
    if n == 0 then -1
    else if arena[ms[n - 1]].feature == t then n - 1
    else LastPos(arena, ms, t, n - 1)
  }

  /** LastPos finds a member of type t with none of that type after it, and
      finds none exactly when no member has that type. */
  lemma {:induction false} LastPosSpec(arena: seq<Feature>, ms: seq<nat>, t: string, n: nat)
    requires InArena(ms, |arena|) && n <= |ms|
    ensures var r := LastPos(arena, ms, t, n);
      (r >= 0 ==> arena[ms[r]].feature == t) &&
      (forall q :: r < q < n ==> arena[ms[q]].feature != t)
    decreases n
  {
    if n > 0 && arena[ms[n - 1]].feature != t {
      LastPosSpec(arena, ms, t, n - 1);
    }
  }

  /** The codon of type t the group's scan settles on: its last one. */
  function Codon(arena: seq<Feature>, ms: seq<nat>, t: string): Option<Feature>
    requires InArena(ms, |arena|)
  {
    var p := LastPos(arena, ms, t, |ms|);
    if p < 0 then None else Some(arena[ms[p]])
  }

  /** A CDS that starts right after the start codon is extended over it. */
  function StartRule(f: Feature, s: Feature): Feature {
    if f.strand == Plus && f.start == s.end + 1 then f.(start := s.start)
    else if f.strand == Minus && f.end == s.start - 1 then f.(end := s.end)
    else f
  }

  /** A CDS that ends with the stop codon is cut back to just before it,
      unless that would leave it empty. */
  function StopRule(f: Feature, s: Feature): Feature {
    if f.strand == Plus && f.end == s.end && s.start - 1 >= f.start then f.(end := s.start - 1)
    else if f.strand == Minus && f.start == s.start && s.end + 1 <= f.end then f.(start := s.end + 1)
    else f
  }

  /** One member visited by the adjusting loop. */
  function FixCds(f: Feature, start: Option<Feature>, stop: Option<Feature>): Feature {
    if f.feature != CDS_TYPE then f
    else
      var g := if start.Some? then StartRule(f, start.value) else f;
      if stop.Some? then StopRule(g, stop.value) else g
  }

  /** The adjusting loop over the first n members. */
  function FixMembers(arena: seq<Feature>, ms: seq<nat>, start: Option<Feature>, stop: Option<Feature>,
                      n: nat): (r: seq<Feature>)
    requires InArena(ms, |arena|) && n <= |ms|
    ensures |r| == |arena|
    decreases n
  {
    if n == 0 then arena
    else
      var a := FixMembers(arena, ms, start, stop, n - 1);
      var x := ms[n - 1];
      a[x := FixCds(a[x], start, stop)]
  }

  /** The first n groups, each with the codons found among its members. */
  function FixGroups(arena: seq<Feature>, gs: seq<Group>, n: nat): (r: seq<Feature>)
    requires GroupsInArena(gs, |arena|) && n <= |gs|
    ensures |r| == |arena|
    decreases n
  {
    if n == 0 then arena
    else
      var a := FixGroups(arena, gs, n - 1);
      var ms := gs[n - 1].members;
      FixMembers(a, ms, Codon(a, ms, START_TYPE), Codon(a, ms, STOP_TYPE), |ms|)
  }

  /** Only the start and end of CDS features among `ms` differ. */
  predicate OnlyCdsSpans(a: seq<Feature>, b: seq<Feature>, ms: seq<nat>) {
    |a| == |b| &&
    forall y :: 0 <= y < |a| ==>
      b[y] == a[y].(start := b[y].start, end := b[y].end) &&
      (y !in ms || a[y].feature != CDS_TYPE ==> b[y] == a[y])
  }

  /** Adjusting a CDS by proper codons keeps it proper. */
  lemma FixCdsProper(f: Feature, start: Option<Feature>, stop: Option<Feature>)
    requires f.start <= f.end
    requires start.Some? ==> start.value.start <= start.value.end
    ensures FixCds(f, start, stop).start <= FixCds(f, start, stop).end
  {
  }

  /** Adjusting an already adjusted CDS by the same proper codons changes
      nothing: the start codon is then included and the stop codon excluded. */
  lemma FixCdsIdempotent(f: Feature, start: Option<Feature>, stop: Option<Feature>)
    requires start.Some? ==> start.value.start <= start.value.end
    requires stop.Some? ==> stop.value.start <= stop.value.end
    ensures FixCds(FixCds(f, start, stop), start, stop) == FixCds(f, start, stop)
  {
    if f.strand == Plus {
      FixCdsSettledPlus(f, start, stop);
    } else if f.strand == Minus {
      FixCdsSettledMinus(f, start, stop);
    }
  }

  lemma FixCdsSettledPlus(f: Feature, start: Option<Feature>, stop: Option<Feature>)
    requires f.strand == Plus
    requires start.Some? ==> start.value.start <= start.value.end
    requires stop.Some? ==> stop.value.start <= stop.value.end
    ensures FixCds(FixCds(f, start, stop), start, stop) == FixCds(f, start, stop)
  {
  }

  lemma FixCdsSettledMinus(f: Feature, start: Option<Feature>, stop: Option<Feature>)
    requires f.strand == Minus
    requires start.Some? ==> start.value.start <= start.value.end
    requires stop.Some? ==> stop.value.start <= stop.value.end
    ensures FixCds(FixCds(f, start, stop), start, stop) == FixCds(f, start, stop)
  {
  }

  /** Without codons the adjusting loop changes nothing. */
  lemma {:induction false} FixMembersNone(arena: seq<Feature>, ms: seq<nat>, n: nat)
    requires InArena(ms, |arena|) && n <= |ms|
    ensures FixMembers(arena, ms, None, None, n) == arena
    decreases n
  {
    if n > 0 {
      FixMembersNone(arena, ms, n - 1);
    }
  }

  /** Within a group only CDS members' spans change, and proper features
      stay proper when the codons are proper. */
  lemma {:induction false} FixMembersProps(arena: seq<Feature>, ms: seq<nat>, start: Option<Feature>,
                                           stop: Option<Feature>, n: nat)
    requires InArena(ms, |arena|) && n <= |ms|
    ensures OnlyCdsSpans(arena, FixMembers(arena, ms, start, stop, n), ms)
    ensures Proper(arena) && (start.Some? ==> start.value.start <= start.value.end) ==>
              Proper(FixMembers(arena, ms, start, stop, n))
    decreases n
  {
    if n > 0 {
      FixMembersProps(arena, ms, start, stop, n - 1);
      var a := FixMembers(arena, ms, start, stop, n - 1);
      var x := ms[n - 1];
      FixOneSpans(arena, a, ms, x, start, stop);
      if Proper(arena) && (start.Some? ==> start.value.start <= start.value.end) {
        FixOneProper(a, x, start, stop);
      }
    }
  }

  /** Adjusting one member keeps only CDS members' spans changed. */
  lemma FixOneSpans(arena: seq<Feature>, a: seq<Feature>, ms: seq<nat>, x: nat,
                    start: Option<Feature>, stop: Option<Feature>)
    requires OnlyCdsSpans(arena, a, ms) && x in ms && x < |a|
    ensures OnlyCdsSpans(arena, a[x := FixCds(a[x], start, stop)], ms)
  {
  }

  /** Adjusting one member by a proper start codon keeps every object proper. */
  lemma FixOneProper(a: seq<Feature>, x: nat, start: Option<Feature>, stop: Option<Feature>)
    requires Proper(a) && x < |a| && (start.Some? ==> start.value.start <= start.value.end)
    ensures Proper(a[x := FixCds(a[x], start, stop)])
  {
    FixCdsProper(a[x], start, stop);
  }

  /** Over the first n groups only the spans of CDS features that are group
      members change, and, when every feature object is proper, every one
      stays proper (the stop rule never empties a CDS and proper start codons
      only widen one). */
  lemma {:induction false} FixGroupsProps(arena: seq<Feature>, gs: seq<Group>, n: nat)
    requires GroupsInArena(gs, |arena|) && n <= |gs|
    ensures OnlyCdsSpans(arena, FixGroups(arena, gs, n), AllMembers(gs[..n]))
    ensures Proper(arena) ==> Proper(FixGroups(arena, gs, n))
    decreases n
  {
    if n > 0 {
      FixGroupsProps(arena, gs, n - 1);
      var a := FixGroups(arena, gs, n - 1);
      var ms := gs[n - 1].members;
      var s := Codon(a, ms, START_TYPE);
      var t := Codon(a, ms, STOP_TYPE);
      FixMembersProps(a, ms, s, t, |ms|);
      assert gs[..n] == gs[..n - 1] + [gs[n - 1]];
      AllMembersSnoc(gs[..n - 1], gs[n - 1]);
    }
  }

  /** The codon scan of one group. */
  method FindCodons(arena: seq<Feature>, ms: seq<nat>) returns (start: Option<Feature>, stop: Option<Feature>)
    requires InArena(ms, |arena|)
    ensures start == Codon(arena, ms, START_TYPE) && stop == Codon(arena, ms, STOP_TYPE)
  {
    var ps := -1;
    var pt := -1;
    var j := 0;
    while j < |ms|
      invariant 0 <= j <= |ms|
      invariant ps == LastPos(arena, ms, START_TYPE, j)
      invariant pt == LastPos(arena, ms, STOP_TYPE, j)
      decreases |ms| - j
    {
      var f := arena[ms[j]];
      if f.feature == START_TYPE {
        ps := j;
      } else if f.feature == STOP_TYPE {
        pt := j;
      }
      j := j + 1;
    }
    start := if ps < 0 then None else Some(arena[ms[ps]]);
    stop := if pt < 0 then None else Some(arena[ms[pt]]);
  }

  /** The adjusting loop of one group. */
  method FixGroupMembers(arena: seq<Feature>, ms: seq<nat>, start: Option<Feature>, stop: Option<Feature>)
    returns (a: seq<Feature>)
    requires InArena(ms, |arena|)
    ensures a == FixMembers(arena, ms, start, stop, |ms|)
  {
    a := arena;
    if start.None? && stop.None? {
      FixMembersNone(arena, ms, |ms|);
      return;
    }
    var j := 0;
    while j < |ms|
      invariant 0 <= j <= |ms|
      invariant a == FixMembers(arena, ms, start, stop, j)
      decreases |ms| - j
    {
      var x := ms[j];
      var f := a[x];
      if f.feature == CDS_TYPE {
        if start.Some? {
          f := StartRule(f, start.value);
        }
        if stop.Some? {
          f := StopRule(f, stop.value);
        }
        a := a[x := f];
      }
      j := j + 1;
    }
  }

  /** The loop of gff_fix_start_stop over the groups. */
  method FixAllGroups(arena: seq<Feature>, gs: seq<Group>) returns (a: seq<Feature>)
    requires GroupsInArena(gs, |arena|)
    ensures a == FixGroups(arena, gs, |gs|)
  {
    a := arena;
    var i := 0;
    while i < |gs|
      invariant 0 <= i <= |gs|
      invariant a == FixGroups(arena, gs, i)
      decreases |gs| - i
    {
      var ms := gs[i].members;
      var start, stop := FindCodons(a, ms);
      a := FixGroupMembers(a, ms, start, stop);
      i := i + 1;
    }
  }

  /** Extends each CDS over the start codon of its group and cuts it back
      before the stop codon (gff_fix_start_stop).  The source stops with an
      error on an ungrouped set, hence the precondition. */
  method FixStartStop(gff: FeatureSet)
    requires gff.Valid() && gff.grouping.Some?
    modifies gff
    ensures gff.Valid()
    ensures gff.header == old(gff.header) && gff.features == old(gff.features)
    ensures gff.grouping == old(gff.grouping)
    ensures gff.arena == FixGroups(old(gff.arena), old(gff.grouping).value.groups,
                                   |old(gff.grouping).value.groups|)
  {
    gff.arena := FixAllGroups(gff.arena, gff.grouping.value.groups);
  }

  // ---------------------------------------------------------------------
  // gff_absorb_helpers
  // ---------------------------------------------------------------------

  /** The frame after absorbing len bases: (frame + 2 len) mod 3, C's `%`. */
  function Borrow(frame: int, len: int): int {
    CMod(frame + 2 * len, 3)
  }

  /** Absorbing the helper `prev` on the left. */
  function LeftStep(f: Feature, prev: Feature): Feature {
    f.(start := prev.start,
       frame := if f.strand == Plus && f.frame != NULL_FRAME then Borrow(f.frame, prev.end - prev.start + 1)
                else f.frame)
  }

  /** Absorbing the helper `next` on the right. */
  function RightStep(f: Feature, next: Feature): Feature {
    f.(end := next.end,
       frame := if f.strand == Minus && f.frame != NULL_FRAME then Borrow(f.frame, next.end - next.start + 1)
                else f.frame)
  }

  /** The leftward loop for the feature object x, from member position k
      down, stopping at the first member that is not an adjacent helper. */
  function ExtendLeft(a: seq<Feature>, ms: seq<nat>, x: nat, helper: seq<string>, k: int): (r: seq<Feature>)
    requires InArena(ms, |a|) && x < |a| && -1 <= k < |ms|
    ensures |r| == |a|
    decreases k + 1
  {
    if k < 0 then a
    else
      var prev := a[ms[k]];
      if prev.feature in helper && prev.end == a[x].start - 1 then
        ExtendLeft(a[x := LeftStep(a[x], prev)], ms, x, helper, k - 1)
      else a
  }

  /** The rightward loop for x, from member position k up. */
  function ExtendRight(a: seq<Feature>, ms: seq<nat>, x: nat, helper: seq<string>, k: nat): (r: seq<Feature>)
    requires InArena(ms, |a|) && x < |a| && k <= |ms|
    ensures |r| == |a|
    decreases |ms| - k
  {
    if k == |ms| then a
    else
      var next := a[ms[k]];
      if next.feature in helper && next.start == a[x].end + 1 then
        ExtendRight(a[x := RightStep(a[x], next)], ms, x, helper, k + 1)
      else a
  }

  /** The first n members of a group visited. */
  function AbsorbMembers(a: seq<Feature>, ms: seq<nat>, primary: seq<string>, helper: seq<string>,
                         n: nat): (r: seq<Feature>)
    requires InArena(ms, |a|) && n <= |ms|
    ensures |r| == |a|
    decreases n
  {
    if n == 0 then a
    else
      var b := AbsorbMembers(a, ms, primary, helper, n - 1);
      var x := ms[n - 1];
      if b[x].feature in primary then
        ExtendRight(ExtendLeft(b, ms, x, helper, n - 2), ms, x, helper, n)
      else b
  }

  /** The first n groups visited. */
  function AbsorbGroups(a: seq<Feature>, gs: seq<Group>, primary: seq<string>, helper: seq<string>,
                        n: nat): (r: seq<Feature>)
    requires GroupsInArena(gs, |a|) && n <= |gs|
    ensures |r| == |a|
    decreases n
  {
    if n == 0 then a
    else
      var b := AbsorbGroups(a, gs, primary, helper, n - 1);
      AbsorbMembers(b, gs[n - 1].members, primary, helper, |gs[n - 1].members|)
  }

  /** Feature g is f grown by absorption: the same but for its span and
      frame, covering at least f's span, proper and with a valid frame;
      and it is f itself unless f has a primary type. */
  predicate GrownFeat(primary: seq<string>, f: Feature, g: Feature) {
    g.(start := f.start, end := f.end, frame := f.frame) == f &&
    g.start <= f.start && f.end <= g.end && g.start <= g.end && ValidFrame(g.frame) &&
    (f.feature !in primary ==> g == f)
  }

  /** Every feature object of b is grown from the one of a, and those
      outside `ms` are unchanged. */
  predicate Grown(primary: seq<string>, ms: seq<nat>, a: seq<Feature>, b: seq<Feature>) {
    |a| == |b| &&
    forall y :: 0 <= y < |a| ==> GrownFeat(primary, a[y], b[y]) && (y !in ms ==> b[y] == a[y])
  }

  /** Proper with valid frames: what absorption needs of the features. */
  predicate Sound(a: seq<Feature>) {
    forall y :: 0 <= y < |a| ==> a[y].start <= a[y].end && ValidFrame(a[y].frame)
  }

  /** The frame arithmetic subtracts the absorbed length modulo 3: adding
      the length back gives the old frame. */
  lemma BorrowSubtracts(frame: int, len: int)
    requires 0 <= frame <= 2 && len >= 0
    ensures 0 <= Borrow(frame, len) <= 2
    ensures (Borrow(frame, len) + len) % 3 == frame
  {
    var q := (frame + 2 * len) / 3;
    assert Borrow(frame, len) == frame + 2 * len - 3 * q;
    assert Borrow(frame, len) + len == frame + 3 * (len - q);
  }

  lemma LeftStepGrows(primary: seq<string>, f0: Feature, f: Feature, prev: Feature)
    requires GrownFeat(primary, f0, f) && f0.feature in primary
    requires prev.start <= prev.end && prev.end == f.start - 1
    ensures GrownFeat(primary, f0, LeftStep(f, prev))
  {
    if f.strand == Plus && f.frame != NULL_FRAME {
      BorrowSubtracts(f.frame, prev.end - prev.start + 1);
    }
  }

  lemma RightStepGrows(primary: seq<string>, f0: Feature, f: Feature, next: Feature)
    requires GrownFeat(primary, f0, f) && f0.feature in primary
    requires next.start <= next.end && next.start == f.end + 1
    ensures GrownFeat(primary, f0, RightStep(f, next))
  {
    if f.strand == Minus && f.frame != NULL_FRAME {
      BorrowSubtracts(f.frame, next.end - next.start + 1);
    }
  }

  /** Replacing one member's object by a further grown one keeps the arena
      grown. */
  lemma GrownUpdate(primary: seq<string>, ms: seq<nat>, a0: seq<Feature>, a: seq<Feature>, x: nat, g: Feature)
    requires Grown(primary, ms, a0, a) && x < |a| && x in ms && GrownFeat(primary, a0[x], g)
    ensures Grown(primary, ms, a0, a[x := g])
  {
  }

  lemma {:induction false} ExtendLeftGrows(primary: seq<string>, helper: seq<string>, a0: seq<Feature>,
                                           a: seq<Feature>, ms: seq<nat>, x: nat, k: int)
    requires Grown(primary, ms, a0, a) && InArena(ms, |a|) && x < |a| && x in ms && -1 <= k < |ms|
    requires a0[x].feature in primary
    ensures Grown(primary, ms, a0, ExtendLeft(a, ms, x, helper, k))
    decreases k + 1
  {
    if k >= 0 {
      var prev := a[ms[k]];
      if prev.feature in helper && prev.end == a[x].start - 1 {
        assert GrownFeat(primary, a0[ms[k]], prev);
        LeftStepGrows(primary, a0[x], a[x], prev);
        GrownUpdate(primary, ms, a0, a, x, LeftStep(a[x], prev));
        ExtendLeftGrows(primary, helper, a0, a[x := LeftStep(a[x], prev)], ms, x, k - 1);
      }
    }
  }

  lemma {:induction false} ExtendRightGrows(primary: seq<string>, helper: seq<string>, a0: seq<Feature>,
                                            a: seq<Feature>, ms: seq<nat>, x: nat, k: nat)
    requires Grown(primary, ms, a0, a) && InArena(ms, |a|) && x < |a| && x in ms && k <= |ms|
    requires a0[x].feature in primary
    ensures Grown(primary, ms, a0, ExtendRight(a, ms, x, helper, k))
    decreases |ms| - k
  {
    if k < |ms| {
      var next := a[ms[k]];
      if next.feature in helper && next.start == a[x].end + 1 {
        assert GrownFeat(primary, a0[ms[k]], next);
        RightStepGrows(primary, a0[x], a[x], next);
        GrownUpdate(primary, ms, a0, a, x, RightStep(a[x], next));
        ExtendRightGrows(primary, helper, a0, a[x := RightStep(a[x], next)], ms, x, k + 1);
      }
    }
  }

  /** Visiting members keeps the arena grown from where it started. */
  lemma {:induction false} AbsorbMembersGrows(primary: seq<string>, helper: seq<string>, a0: seq<Feature>,
                                              a: seq<Feature>, ms: seq<nat>, n: nat)
    requires Grown(primary, ms, a0, a) && InArena(ms, |a|) && n <= |ms|
    ensures Grown(primary, ms, a0, AbsorbMembers(a, ms, primary, helper, n))
    decreases n
  {
    if n > 0 {
      AbsorbMembersGrows(primary, helper, a0, a, ms, n - 1);
      var b := AbsorbMembers(a, ms, primary, helper, n - 1);
      var x := ms[n - 1];
      assert x in ms;
      if b[x].feature in primary {
        assert a0[x].feature == b[x].feature;
        ExtendLeftGrows(primary, helper, a0, b, ms, x, n - 2);
        ExtendRightGrows(primary, helper, a0, ExtendLeft(b, ms, x, helper, n - 2), ms, x, n);
      }
    }
  }

  /** A sound arena is grown from itself. */
  lemma GrownRefl(primary: seq<string>, ms: seq<nat>, a: seq<Feature>)
    requires Sound(a)
    ensures Grown(primary, ms, a, a)
  {
  }

  /** Grown arenas compose, the members of both steps together. */
  lemma GrownTrans(primary: seq<string>, ms1: seq<nat>, ms2: seq<nat>, a: seq<Feature>, b: seq<Feature>,
                   c: seq<Feature>)
    requires Grown(primary, ms1, a, b) && Grown(primary, ms2, b, c)
    ensures Grown(primary, ms1 + ms2, a, c)
  {
    forall y | 0 <= y < |a|
      ensures GrownFeat(primary, a[y], c[y]) && (y !in ms1 + ms2 ==> c[y] == a[y])
    {
      assert GrownFeat(primary, a[y], b[y]) && GrownFeat(primary, b[y], c[y]);
    }
  }

  /** After the first n groups, no feature has been created or dropped, and
      from a sound arena every feature object is grown: only the span and
      frame of primary-typed group members change, a span only ever widens,
      stays proper, and frames stay valid. */
  lemma {:induction false} AbsorbGroupsGrow(arena: seq<Feature>, gs: seq<Group>, primary: seq<string>,
                                            helper: seq<string>, n: nat)
    requires GroupsInArena(gs, |arena|) && n <= |gs| && Sound(arena)
    ensures Grown(primary, AllMembers(gs[..n]), arena, AbsorbGroups(arena, gs, primary, helper, n))
    decreases n
  {
    if n == 0 {
      GrownRefl(primary, AllMembers(gs[..0]), arena);
    } else {
      AbsorbGroupsGrow(arena, gs, primary, helper, n - 1);
      var b := AbsorbGroups(arena, gs, primary, helper, n - 1);
      var ms := gs[n - 1].members;
      var ms0 := AllMembers(gs[..n - 1]);
      assert Sound(b) by {
        forall y | 0 <= y < |b|
          ensures b[y].start <= b[y].end && ValidFrame(b[y].frame)
        {
          assert GrownFeat(primary, arena[y], b[y]);
        }
      }
      GrownRefl(primary, ms, b);
      AbsorbMembersGrows(primary, helper, b, b, ms, |ms|);
      GrownTrans(primary, ms0, ms, arena, b, AbsorbGroups(arena, gs, primary, helper, n));
      assert gs[..n] == gs[..n - 1] + [gs[n - 1]];
      AllMembersSnoc(gs[..n - 1], gs[n - 1]);
    }
  }

  /** The leftward loop for the member at position j. */
  method AbsorbLeft(a0: seq<Feature>, ms: seq<nat>, x: nat, helper: seq<string>, j: int)
    returns (a: seq<Feature>)
    requires InArena(ms, |a0|) && x < |a0| && -1 <= j < |ms|
    ensures a == ExtendLeft(a0, ms, x, helper, j)
  {
    a := a0;
    var k := j;
    while k >= 0
      invariant -1 <= k <= j && |a| == |a0|
      invariant ExtendLeft(a, ms, x, helper, k) == ExtendLeft(a0, ms, x, helper, j)
      decreases k + 1
    {
      var prev := a[ms[k]];
      if prev.feature in helper && prev.end == a[x].start - 1 {
        a := a[x := LeftStep(a[x], prev)];
      } else {
        break;
      }
      k := k - 1;
    }
  }

  /** The rightward loop for the member at position j. */
  method AbsorbRight(a0: seq<Feature>, ms: seq<nat>, x: nat, helper: seq<string>, j: nat)
    returns (a: seq<Feature>)
    requires InArena(ms, |a0|) && x < |a0| && j <= |ms|
    ensures a == ExtendRight(a0, ms, x, helper, j)
  {
    a := a0;
    var k := j;
    while k < |ms|
      invariant j <= k <= |ms| && |a| == |a0|
      invariant ExtendRight(a, ms, x, helper, k) == ExtendRight(a0, ms, x, helper, j)
      decreases |ms| - k
    {
      var next := a[ms[k]];
      if next.feature in helper && next.start == a[x].end + 1 {
        a := a[x := RightStep(a[x], next)];
      } else {
        break;
      }
      k := k + 1;
    }
  }

  /** The loop of gff_absorb_helpers over the groups and their members. */
  method AbsorbAllGroups(arena: seq<Feature>, gs: seq<Group>, primary: seq<string>, helper: seq<string>)
    returns (a: seq<Feature>)
    requires GroupsInArena(gs, |arena|)
    ensures a == AbsorbGroups(arena, gs, primary, helper, |gs|)
  {
    a := arena;
    var i := 0;
    while i < |gs|
      invariant 0 <= i <= |gs|
      invariant a == AbsorbGroups(arena, gs, primary, helper, i)
      decreases |gs| - i
    {
      var ms := gs[i].members;
      var a0 := a;
      var j := 0;
      while j < |ms|
        invariant 0 <= j <= |ms| && |a| == |a0|
        invariant a == AbsorbMembers(a0, ms, primary, helper, j)
        decreases |ms| - j
      {
        var x := ms[j];
        if a[x].feature in primary {
          a := AbsorbLeft(a, ms, x, helper, j - 1);
          a := AbsorbRight(a, ms, x, helper, j + 1);
        }
        j := j + 1;
      }
      i := i + 1;
    }
  }

  /** Extends each primary-typed feature over the adjacent helper-typed
      members of its group on either side (gff_absorb_helpers).  The source
      stops with an error on an ungrouped set, hence the precondition; no
      feature is created or dropped. */
  method AbsorbHelpers(gff: FeatureSet, primary: seq<string>, helper: seq<string>)
    requires gff.Valid() && gff.grouping.Some?
    modifies gff
    ensures gff.Valid()
    ensures gff.header == old(gff.header) && gff.features == old(gff.features)
    ensures gff.grouping == old(gff.grouping)
    ensures gff.arena == AbsorbGroups(old(gff.arena), old(gff.grouping).value.groups, primary, helper,
                                      |old(gff.grouping).value.groups|)
  {
    gff.arena := AbsorbAllGroups(gff.arena, gff.grouping.value.groups, primary, helper);
  }

  // ---------------------------------------------------------------------
  // gff_add_gene_id
  // ---------------------------------------------------------------------

  /** The attribute with the gene_id tag of group `name` put in front. */
  function GeneIdAttr(name: string, attr: string): string {
    "gene_id \"" + name + "\" ; " + attr
  }

  /** The first n members of the group called `name` tagged. */
  function TagMembers(a: seq<Feature>, ms: seq<nat>, name: string, n: nat): (r: seq<Feature>)
    requires InArena(ms, |a|) && n <= |ms|
    ensures |r| == |a|
    decreases n
  {
    if n == 0 then a
    else
      var b := TagMembers(a, ms, name, n - 1);
      var x := ms[n - 1];
      b[x := b[x].(attribute := GeneIdAttr(name, b[x].attribute))]
  }

  /** The first n groups tagged. */
  function TagGroups(a: seq<Feature>, gs: seq<Group>, n: nat): (r: seq<Feature>)
    requires GroupsInArena(gs, |a|) && n <= |gs|
    ensures |r| == |a|
    decreases n
  {
    if n == 0 then a
    else
      var b := TagGroups(a, gs, n - 1);
      TagMembers(b, gs[n - 1].members, gs[n - 1].name, |gs[n - 1].members|)
  }

  /** Every feature object is listed at most once over all groups together. */
  predicate ListedOnce(gs: seq<Group>) {
    forall i, j, p, q ::
      (0 <= i < |gs| && 0 <= j < |gs| && 0 <= p < |gs[i].members| && 0 <= q < |gs[j].members| &&
       gs[i].members[p] == gs[j].members[q]) ==> i == j && p == q
  }

  /** Within a group listing each member once, exactly the first n members
      get the tag, once each. */
  lemma {:induction false} TagMembersEffect(a: seq<Feature>, ms: seq<nat>, name: string, n: nat, y: nat)
    requires InArena(ms, |a|) && n <= |ms| && y < |a|
    requires forall p, q :: 0 <= p < n && 0 <= q < n && ms[p] == ms[q] ==> p == q
    ensures var r := TagMembers(a, ms, name, n);
      ((exists p :: 0 <= p < n && ms[p] == y) ==> r[y] == a[y].(attribute := GeneIdAttr(name, a[y].attribute))) &&
      ((forall p :: 0 <= p < n ==> ms[p] != y) ==> r[y] == a[y])
    decreases n
  {
    if n > 0 {
      TagMembersEffect(a, ms, name, n - 1, y);
    }
  }

  /** With every feature listed at most once, after the first n groups a
      member of group i < n carries exactly that group's gene_id tag in front
      of its old attribute, and every other feature is unchanged. */
  lemma {:induction false} TagGroupsEffect(arena: seq<Feature>, gs: seq<Group>, n: nat, y: nat)
    requires GroupsInArena(gs, |arena|) && n <= |gs| && y < |arena| && ListedOnce(gs)
    ensures var r := TagGroups(arena, gs, n);
      (forall i, p :: 0 <= i < n && 0 <= p < |gs[i].members| && gs[i].members[p] == y ==>
         r[y] == arena[y].(attribute := GeneIdAttr(gs[i].name, arena[y].attribute))) &&
      ((forall i, p :: 0 <= i < n && 0 <= p < |gs[i].members| ==> gs[i].members[p] != y) ==> r[y] == arena[y])
    decreases n
  {
    if n > 0 {
      TagGroupsEffect(arena, gs, n - 1, y);
      var b := TagGroups(arena, gs, n - 1);
      var ms := gs[n - 1].members;
      TagMembersEffect(b, ms, gs[n - 1].name, |ms|, y);
      forall i, p | 0 <= i < n && 0 <= p < |gs[i].members| && gs[i].members[p] == y
        ensures TagGroups(arena, gs, n)[y] == arena[y].(attribute := GeneIdAttr(gs[i].name, arena[y].attribute))
      {
        if i == n - 1 {
          forall i', p' | 0 <= i' < n - 1 && 0 <= p' < |gs[i'].members|
            ensures gs[i'].members[p'] != y
          {
            assert gs[i'].members[p'] == gs[i].members[p] ==> i' == i;
          }
        } else {
          forall q | 0 <= q < |ms|
            ensures ms[q] != y
          {
            assert gs[i].members[p] == gs[n - 1].members[q] ==> i == n - 1;
          }
        }
      }
    }
  }

  /** Tagging changes attributes only, and only those of group members. */
  lemma {:induction false} TagGroupsOnlyAttributes(arena: seq<Feature>, gs: seq<Group>, n: nat, y: nat)
    requires GroupsInArena(gs, |arena|) && n <= |gs| && y < |arena|
    ensures TagGroups(arena, gs, n)[y] == arena[y].(attribute := TagGroups(arena, gs, n)[y].attribute)
    ensures (forall i, p :: 0 <= i < n && 0 <= p < |gs[i].members| ==> gs[i].members[p] != y) ==>
              TagGroups(arena, gs, n)[y] == arena[y]
    decreases n
  {
    if n > 0 {
      TagGroupsOnlyAttributes(arena, gs, n - 1, y);
      TagMembersOnlyAttributes(TagGroups(arena, gs, n - 1), gs[n - 1].members, gs[n - 1].name,
                               |gs[n - 1].members|, y);
    }
  }

  lemma {:induction false} TagMembersOnlyAttributes(a: seq<Feature>, ms: seq<nat>, name: string, n: nat, y: nat)
    requires InArena(ms, |a|) && n <= |ms| && y < |a|
    ensures TagMembers(a, ms, name, n)[y] == a[y].(attribute := TagMembers(a, ms, name, n)[y].attribute)
    ensures (forall p :: 0 <= p < n ==> ms[p] != y) ==> TagMembers(a, ms, name, n)[y] == a[y]
    decreases n
  {
    if n > 0 {
      TagMembersOnlyAttributes(a, ms, name, n - 1, y);
    }
  }

  /** Puts a gene_id tag naming its group in front of every member's
      attribute (gff_add_gene_id).  The source stops with an error on an
      ungrouped set, hence the precondition. */
  method AddGeneId(gff: FeatureSet)
    requires gff.Valid() && gff.grouping.Some?
    modifies gff
    ensures gff.Valid()
    ensures gff.header == old(gff.header) && gff.features == old(gff.features)
    ensures gff.grouping == old(gff.grouping)
    ensures gff.arena == TagGroups(old(gff.arena), old(gff.grouping).value.groups,
                                   |old(gff.grouping).value.groups|)
  {
    var gs := gff.grouping.value.groups;
    var arena0 := gff.arena;
    var a := arena0;
    var i := 0;
    while i < |gs|
      invariant 0 <= i <= |gs|
      invariant a == TagGroups(arena0, gs, i)
      decreases |gs| - i
    {
      var ms := gs[i].members;
      var a0 := a;
      var j := 0;
      while j < |ms|
        invariant 0 <= j <= |ms| && |a| == |a0|
        invariant a == TagMembers(a0, ms, gs[i].name, j)
        decreases |ms| - j
      {
        var x := ms[j];
        a := a[x := a[x].(attribute := GeneIdAttr(gs[i].name, a[x].attribute))];
        j := j + 1;
      }
      i := i + 1;
    }
    gff.arena := a;
  }
}
