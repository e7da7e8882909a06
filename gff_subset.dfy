/** Range subsets, type filtering, strand tests, reverse complementation and
    coordinate offsets of a feature set (src/lib/feature/gff.c:395-560 and
    :1437-1456). */
module GffSubset {
  import opened Util
  import opened GffFeature
  import opened GffSet

  // ---------------------------------------------------------------------
  // Range subsets
  // ---------------------------------------------------------------------

  /** Lies entirely within [startcol, endcol]. */
  function Contained(startcol: int, endcol: int): Feature -> bool {
    (f: Feature) => f.start >= startcol && f.end <= endcol
  }

  /** Coordinates renumbered so that startcol becomes 1, when asked for. */
  function Renumber(startcol: int, reset: bool): Feature -> Feature {
    (f: Feature) => if reset then f.(start := f.start - startcol + 1, end := f.end - startcol + 1) else f
  }

  /** A new set holding copies of the features lying within [startcol,
      endcol], in order, optionally renumbered (gff_subset_range). */
  method SubsetRange(gff: FeatureSet, startcol: int, endcol: int, resetIndices: bool)
    returns (sub: FeatureSet)
    requires gff.Valid()
    ensures fresh(sub) && sub.Valid()
    ensures sub.header == gff.header && sub.grouping == None
    ensures sub.Feats() == Map(Filter(gff.Feats(), Contained(startcol, endcol)),
                               Renumber(startcol, resetIndices))
  {
    var feats := gff.Feats();
    var kept: seq<Feature> := [];
    var i := 0;
    while i < |feats|
      invariant 0 <= i <= |feats|
      invariant kept == Map(Filter(feats[..i], Contained(startcol, endcol)),
                            Renumber(startcol, resetIndices))
      decreases |feats| - i
    {
      kept := SubsetRangeStep(feats, startcol, endcol, resetIndices, i, kept);
      i := i + 1;
    }
    assert feats[..|feats|] == feats;
    sub := new FeatureSet.WithFeatures(gff.header, kept);
  }

  /** One pass of the loop of gff_subset_range: feature i is copied,
      renumbered when asked, if it lies within [startcol, endcol]. */
  method SubsetRangeStep(feats: seq<Feature>, startcol: int, endcol: int, resetIndices: bool,
                         i: nat, kept: seq<Feature>) returns (kept': seq<Feature>)
    requires i < |feats|
    requires kept == Map(Filter(feats[..i], Contained(startcol, endcol)), Renumber(startcol, resetIndices))
    ensures kept' == Map(Filter(feats[..i + 1], Contained(startcol, endcol)), Renumber(startcol, resetIndices))
  {
    var f := feats[i];
    assert feats[..i + 1] == feats[..i] + [f];
    FilterAppend(feats[..i], [f], Contained(startcol, endcol));
    MapAppend(Filter(feats[..i], Contained(startcol, endcol)),
              Filter([f], Contained(startcol, endcol)),
              Renumber(startcol, resetIndices));
    kept' := kept;
    if f.start >= startcol && f.end <= endcol {
      var newfeat := f;
      if resetIndices {
        newfeat := newfeat.(start := newfeat.start - startcol + 1,
                            end := newfeat.end - startcol + 1);
      }
      kept' := kept + [newfeat];
    }
  }

  /** Renumbered subset features lie within [1, endcol - startcol + 1], and
      keep their length. */
  lemma SubsetRangeBounds(feats: seq<Feature>, startcol: int, endcol: int)
    ensures var r := Map(Filter(feats, Contained(startcol, endcol)), Renumber(startcol, true));
      forall k :: 0 <= k < |r| ==>
        1 <= r[k].start && r[k].end <= endcol - startcol + 1 &&
        r[k].end - r[k].start == Filter(feats, Contained(startcol, endcol))[k].end -
                                 Filter(feats, Contained(startcol, endcol))[k].start
  {
  }

  /** Intersects [startcol, endcol]. */
  function Overlaps(startcol: int, endcol: int): Feature -> bool {
    (f: Feature) => f.start <= endcol && f.end >= startcol
  }

  /** A new set holding copies of the features that intersect [startcol,
      endcol], in order, or null when there is none
      (gff_subset_range_overlap). */
  method SubsetRangeOverlap(gff: FeatureSet, startcol: int, endcol: int)
    returns (sub: FeatureSet?)
    requires gff.Valid()
    ensures var kept := Filter(gff.Feats(), Overlaps(startcol, endcol));
      (sub == null <==> kept == []) &&
      (sub != null ==> fresh(sub) && sub.Valid() && sub.header == gff.header &&
                       sub.grouping == None && sub.Feats() == kept)
  {
    var feats := gff.Feats();
    var kept: seq<Feature> := [];
    var i := 0;
    while i < |feats|
      invariant 0 <= i <= |feats|
      invariant kept == Filter(feats[..i], Overlaps(startcol, endcol))
      decreases |feats| - i
    {
      var f := feats[i];
      assert feats[..i + 1][..i] == feats[..i];
      if f.start <= endcol && f.end >= startcol {
        kept := kept + [f];
      }
      i := i + 1;
    }
    assert feats[..|feats|] == feats;
    if kept == [] {
      sub := null;
    } else {
      sub := new FeatureSet.WithFeatures(gff.header, kept);
    }
  }

  /** The scan of the sorted variant from index i: it keeps intersecting
      features and stops at the first feature starting after endcol. */
  function ScanFrom(fs: seq<Feature>, i: nat, startcol: int, endcol: int): seq<Feature>
    decreases |fs| - i
  {
    if i >= |fs| then []
    else if Overlaps(startcol, endcol)(fs[i]) then [fs[i]] + ScanFrom(fs, i + 1, startcol, endcol)
    else if fs[i].start > endcol then []
    else ScanFrom(fs, i + 1, startcol, endcol)
  }

  /** Where that scan sees its first intersecting feature. */
  function FirstHit(fs: seq<Feature>, i: nat, startcol: int, endcol: int): Option<nat>
    decreases |fs| - i
  {
    if i >= |fs| then None
    else if Overlaps(startcol, endcol)(fs[i]) then Some(i)
    else if fs[i].start > endcol then None
    else FirstHit(fs, i + 1, startcol, endcol)
  }

  /** Like SubsetRangeOverlap, but the scan starts at `cursor` and stops at
      the first feature starting after endcol; the cursor moves to the first
      match, or stays where it was when nothing matches
      (gff_subset_range_overlap_sorted). */
  method SubsetRangeOverlapSorted(gff: FeatureSet, startcol: int, endcol: int, cursor: nat)
    returns (sub: FeatureSet?, newCursor: nat)
    requires gff.Valid()
    ensures var kept := ScanFrom(gff.Feats(), cursor, startcol, endcol);
      (sub == null <==> kept == []) &&
      (sub != null ==> fresh(sub) && sub.Valid() && sub.header == gff.header &&
                       sub.grouping == None && sub.Feats() == kept)
    ensures newCursor == match FirstHit(gff.Feats(), cursor, startcol, endcol)
                         case Some(k) => k
                         case None => cursor
  {
    var feats := gff.Feats();
    var kept: seq<Feature> := [];
    newCursor := cursor;
    var i := cursor;
    while i < |feats|
      invariant cursor <= i
      invariant kept + ScanFrom(feats, i, startcol, endcol) == ScanFrom(feats, cursor, startcol, endcol)
      invariant kept == [] ==>
        newCursor == cursor && FirstHit(feats, i, startcol, endcol) == FirstHit(feats, cursor, startcol, endcol)
      invariant kept != [] ==> FirstHit(feats, cursor, startcol, endcol) == Some(newCursor)
      decreases |feats| - i
    {
      var f := feats[i];
      if f.start <= endcol && f.end >= startcol {
        if kept == [] {
          newCursor := i;
        }
        kept := kept + [f];
      } else if f.start > endcol {
        break;
      }
      i := i + 1;
    }
    if kept == [] {
      sub := null;
    } else {
      sub := new FeatureSet.WithFeatures(gff.header, kept);
    }
  }

  predicate StartSortedFrom(fs: seq<Feature>, i: nat) {
    forall a, b :: i <= a < b < |fs| ==> fs[a].start <= fs[b].start
  }

  /** On a list sorted by start, the early stop loses nothing: the scan keeps
      exactly the intersecting features from the cursor on. */
  lemma {:induction false} ScanSorted(fs: seq<Feature>, i: nat, startcol: int, endcol: int)
    requires i <= |fs|
    requires StartSortedFrom(fs, i)
    ensures ScanFrom(fs, i, startcol, endcol) == Filter(fs[i..], Overlaps(startcol, endcol))
    decreases |fs| - i
  {
    if i < |fs| {
      assert fs[i..] == [fs[i]] + fs[i + 1..];
      FilterCons(fs[i], fs[i + 1..], Overlaps(startcol, endcol));
      if !Overlaps(startcol, endcol)(fs[i]) && fs[i].start > endcol {
        FilterNone(fs[i + 1..], Overlaps(startcol, endcol));
      } else {
        ScanSorted(fs, i + 1, startcol, endcol);
      }
    }
  }

  /** The cursor moves to the first intersecting feature at or after it, when
      the scan reaches one. */
  lemma {:induction false} FirstHitIsFirst(fs: seq<Feature>, i: nat, startcol: int, endcol: int)
    ensures match FirstHit(fs, i, startcol, endcol)
      case Some(k) => i <= k < |fs| && Overlaps(startcol, endcol)(fs[k]) &&
                      forall m :: i <= m < k ==> !Overlaps(startcol, endcol)(fs[m])
      case None => ScanFrom(fs, i, startcol, endcol) == []
    decreases |fs| - i
  {
    if i < |fs| && !Overlaps(startcol, endcol)(fs[i]) && fs[i].start <= endcol {
      FirstHitIsFirst(fs, i + 1, startcol, endcol);
    }
  }

  // ---------------------------------------------------------------------
  // Type filter
  // ---------------------------------------------------------------------

  /** A feature survives the type filter when its type is in the list,
      or, with `exclude`, when it is not. */
  function TypeKeep(arena: seq<Feature>, types: seq<string>, exclude: bool): nat -> bool {
    (i: nat) => i < |arena| && ((arena[i].feature in types) != exclude)
  }

  predicate AllKept(fs: seq<nat>, keep: nat -> bool) {
    forall k :: 0 <= k < |fs| ==> keep(fs[k])
  }

  /** Keeps the features passing the type filter, in order; the grouping is
      dropped when, and only when, something was removed
      (gff_filter_by_type). */
  method FilterByType(gff: FeatureSet, types: seq<string>, exclude: bool)
    requires gff.Valid()
    modifies gff
    ensures gff.Valid()
    ensures gff.header == old(gff.header) && gff.arena == old(gff.arena)
    ensures gff.features == Filter(old(gff.features), TypeKeep(gff.arena, types, exclude))
    ensures gff.grouping ==
      if AllKept(old(gff.features), TypeKeep(gff.arena, types, exclude)) then old(gff.grouping) else None
  {
    var newfeats, changed := TypeFilterLoop(gff.arena, gff.features, types, exclude);
    gff.features := newfeats;
    if changed && gff.grouping.Some? {
      Ungroup(gff);
    }
  }

  /** The loop of gff_filter_by_type: the surviving features, and whether
      any feature was removed. */
  method TypeFilterLoop(arena: seq<Feature>, fs: seq<nat>, types: seq<string>, exclude: bool)
    returns (newfeats: seq<nat>, changed: bool)
    requires InArena(fs, |arena|)
    ensures newfeats == Filter(fs, TypeKeep(arena, types, exclude))
    ensures changed <==> !AllKept(fs, TypeKeep(arena, types, exclude))
  {
    newfeats := [];
    changed := false;
    var i := 0;
    while i < |fs|
      invariant 0 <= i <= |fs|
      invariant newfeats == Filter(fs[..i], TypeKeep(arena, types, exclude))
      invariant changed <==> !AllKept(fs[..i], TypeKeep(arena, types, exclude))
      decreases |fs| - i
    {
      newfeats, changed := TypeFilterStep(arena, fs, types, exclude, i, newfeats, changed);
      i := i + 1;
    }
    assert fs[..|fs|] == fs;
  }

  /** One pass of that loop: feature i is kept or marks the set changed. */
  method TypeFilterStep(arena: seq<Feature>, fs: seq<nat>, types: seq<string>, exclude: bool,
                        i: nat, newfeats: seq<nat>, changed: bool)
    returns (newfeats': seq<nat>, changed': bool)
    requires InArena(fs, |arena|) && i < |fs|
    requires newfeats == Filter(fs[..i], TypeKeep(arena, types, exclude))
    requires changed <==> !AllKept(fs[..i], TypeKeep(arena, types, exclude))
    ensures newfeats' == Filter(fs[..i + 1], TypeKeep(arena, types, exclude))
    ensures changed' <==> !AllKept(fs[..i + 1], TypeKeep(arena, types, exclude))
  {
    var f := arena[fs[i]];
    var inList := f.feature in types;
    assert fs[..i + 1][..i] == fs[..i];
    assert fs[..i + 1][i] == fs[i];
    newfeats', changed' := newfeats, changed;
    if (inList && !exclude) || (!inList && exclude) {
      newfeats' := newfeats + [fs[i]];
    } else {
      changed' := true;
    }
  }

  // ---------------------------------------------------------------------
  // Strand test and reverse complementation
  // ---------------------------------------------------------------------

  /** True iff no feature is on '+' and at least one is on '-'
      (gff_reverse_strand_only). */
  method ReverseStrandOnly(feats: seq<Feature>) returns (r: bool)
    ensures r <==> (forall k :: 0 <= k < |feats| ==> feats[k].strand != Plus) &&
                   (exists k :: 0 <= k < |feats| && feats[k].strand == Minus)
  {
    var impossible := false;
    var possible := false;
    var i := 0;
    while !impossible && i < |feats|
      invariant 0 <= i <= |feats|
      invariant impossible <==> i > 0 && feats[i - 1].strand == Plus
      invariant forall k :: 0 <= k < i - 1 ==> feats[k].strand != Plus
      invariant !impossible ==> forall k :: 0 <= k < i ==> feats[k].strand != Plus
      invariant possible <==> exists k :: 0 <= k < i && feats[k].strand == Minus
      decreases |feats| - i
    {
      var f := feats[i];
      if f.strand == Minus {
        possible := true;
      } else if f.strand == Plus {
        impossible := true;
      }
      i := i + 1;
    }
    r := !(impossible || !possible);
  }

  function FlipStrand(s: Strand): Strand {
    match s
    case Plus => Minus
    case Minus => Plus
    case Unstranded => Unstranded
  }

  /** One feature mirrored within [startRange, endRange]. */
  function RevComplFeature(f: Feature, startRange: int, endRange: int): Feature {
    f.(start := endRange - f.end + startRange,
       end := endRange - f.start + startRange,
       strand := FlipStrand(f.strand))
  }

  /** Mirroring keeps the length, swaps '+' and '-' (keeping '.'), changes
      nothing else, and undoes itself. */
  lemma RevComplFeatureProps(f: Feature, startRange: int, endRange: int)
    ensures var g := RevComplFeature(f, startRange, endRange);
      g.end - g.start == f.end - f.start &&
      g.start + f.end == startRange + endRange &&
      (f.strand == Plus <==> g.strand == Minus) &&
      (f.strand == Minus <==> g.strand == Plus) &&
      (f.strand == Unstranded <==> g.strand == Unstranded) &&
      g.(start := f.start, end := f.end, strand := f.strand) == f &&
      RevComplFeature(g, startRange, endRange) == f
  {
  }

  /** The arena after mirroring, one by one, the features a list refers to. */
  function RevComplArena(arena: seq<Feature>, fs: seq<nat>, startRange: int, endRange: int)
    : (r: seq<Feature>)
    requires InArena(fs, |arena|)
    ensures |r| == |arena|
    decreases |fs|
  {
    if |fs| == 0 then arena
    else
      var r := RevComplArena(arena, fs[..|fs| - 1], startRange, endRange);
      var x := fs[|fs| - 1];
      r[x := RevComplFeature(r[x], startRange, endRange)]
  }

  /** Each feature ends up mirrored an odd or even number of times, according
      to how often the list refers to it. */
  lemma {:induction false} RevComplArenaAt(arena: seq<Feature>, fs: seq<nat>, startRange: int,
                                           endRange: int, x: nat)
    requires InArena(fs, |arena|) && x < |arena|
    ensures RevComplArena(arena, fs, startRange, endRange)[x] ==
            if multiset(fs)[x] % 2 == 0 then arena[x] else RevComplFeature(arena[x], startRange, endRange)
    decreases |fs|
  {
    if |fs| > 0 {
      var fs' := fs[..|fs| - 1];
      assert fs == fs' + [fs[|fs| - 1]];
      RevComplArenaAt(arena, fs', startRange, endRange, x);
      RevComplFeatureProps(arena[x], startRange, endRange);
    }
  }

  /** Mirrors every feature of the set's list within [startRange, endRange]
      and reverses the list (gff_reverse_compl). */
  method ReverseCompl(gff: FeatureSet, startRange: int, endRange: int)
    requires gff.Valid()
    modifies gff
    ensures gff.Valid()
    ensures gff.header == old(gff.header) && gff.grouping == old(gff.grouping)
    ensures gff.arena == RevComplArena(old(gff.arena), old(gff.features), startRange, endRange)
    ensures gff.features == Reverse(old(gff.features))
  {
    var fs := gff.features;
    var arena := gff.arena;
    var i := 0;
    while i < |fs|
      invariant 0 <= i <= |fs|
      invariant arena == RevComplArena(gff.arena, fs[..i], startRange, endRange)
      decreases |fs| - i
    {
      assert fs[..i + 1][..i] == fs[..i];
      var x := fs[i];
      var feat := arena[x];
      var tmp := feat.start;
      feat := feat.(start := endRange - feat.end + startRange);
      feat := feat.(end := endRange - tmp + startRange);
      if feat.strand == Minus {
        feat := feat.(strand := Plus);
      } else if feat.strand == Plus {
        feat := feat.(strand := Minus);
      }
      arena := arena[x := feat];
      i := i + 1;
    }
    assert fs[..|fs|] == fs;
    var rs := ReverseIndices(fs);
    gff.arena := arena;
    gff.features := rs;
  }

  /** The in-place reversal of a feature list (the second loop of
      gff_reverse_compl). */
  method ReverseIndices(fs: seq<nat>) returns (rs: seq<nat>)
    ensures rs == Reverse(fs)
  {
    var n := |fs|;
    rs := fs;
    var j := 0;
    while j < n / 2
      invariant 0 <= j <= n / 2
      invariant |rs| == n
      invariant forall k :: 0 <= k < j ==> rs[k] == fs[n - 1 - k] && rs[n - 1 - k] == fs[k]
      invariant forall k :: j <= k < n - j ==> rs[k] == fs[k]
      decreases n / 2 - j
    {
      var tmp := rs[j];
      rs := rs[j := rs[n - 1 - j]];
      rs := rs[n - 1 - j := tmp];
      j := j + 1;
    }
  }

  /** Reverse-complementing twice over the same range restores the features
      and their order. */
  lemma ReverseComplInvolution(arena: seq<Feature>, fs: seq<nat>, startRange: int, endRange: int)
    requires InArena(fs, |arena|)
    ensures var once := RevComplArena(arena, fs, startRange, endRange);
      InArena(Reverse(fs), |once|) &&
      RevComplArena(once, Reverse(fs), startRange, endRange) == arena &&
      Reverse(Reverse(fs)) == fs
  {
    var once := RevComplArena(arena, fs, startRange, endRange);
    var rf := Reverse(fs);
    ReverseMultiset(fs);
    assert InArena(rf, |once|) by {
      forall k | 0 <= k < |rf|
        ensures rf[k] < |once|
      {
        assert rf[k] == fs[|fs| - 1 - k];
      }
    }
    var twice := RevComplArena(once, rf, startRange, endRange);
    forall x | 0 <= x < |arena|
      ensures twice[x] == arena[x]
    {
      RevComplTwiceAt(arena, fs, startRange, endRange, x);
    }
  }

  /** One feature object after both passes. */
  lemma RevComplTwiceAt(arena: seq<Feature>, fs: seq<nat>, startRange: int, endRange: int, x: nat)
    requires InArena(fs, |arena|) && InArena(Reverse(fs), |arena|) && x < |arena|
    ensures RevComplArena(RevComplArena(arena, fs, startRange, endRange), Reverse(fs), startRange, endRange)[x] ==
            arena[x]
  {
    var once := RevComplArena(arena, fs, startRange, endRange);
    ReverseMultiset(fs);
    RevComplArenaAt(arena, fs, startRange, endRange, x);
    RevComplArenaAt(once, Reverse(fs), startRange, endRange, x);
    RevComplFeatureProps(arena[x], startRange, endRange);
  }

  // ---------------------------------------------------------------------
  // Offsets
  // ---------------------------------------------------------------------

  /** One feature shifted by `offset`: dropped (None) when it ends before 1 or,
      with a positive maxCoord, starts after maxCoord; otherwise clamped into
      [1, maxCoord] (or [1, infinity) when maxCoord <= 0). */
  function OffsetFeature(f: Feature, offset: int, maxCoord: int): Option<Feature> {
    var s := f.start + offset;
    var e := f.end + offset;
    if e < 1 || (maxCoord > 0 && s > maxCoord) then None
    else Some(f.(start := if s < 1 then 1 else s,
                 end := if maxCoord > 0 && e > maxCoord then maxCoord else e))
  }

  /** Shifting drops exactly the out-of-range features; a kept feature lies in
      [1, maxCoord] (or [1, infinity)) and only its coordinates change. */
  lemma OffsetFeatureProps(f: Feature, offset: int, maxCoord: int)
    ensures OffsetFeature(f, offset, maxCoord).None? <==>
            f.end + offset < 1 || (maxCoord > 0 && f.start + offset > maxCoord)
    ensures OffsetFeature(f, offset, maxCoord).Some? ==>
      var g := OffsetFeature(f, offset, maxCoord).value;
      g.start >= 1 && g.end >= 1 && (maxCoord > 0 ==> g.start <= maxCoord && g.end <= maxCoord) &&
      (f.start + offset >= 1 ==> g.start == f.start + offset) &&
      ((maxCoord <= 0 || f.end + offset <= maxCoord) ==> g.end == f.end + offset) &&
      g.(start := f.start, end := f.end) == f
  {
  }

  /** The shifted survivors of a list of features, in order. */
  function OffsetAll(feats: seq<Feature>, offset: int, maxCoord: int): seq<Feature>
    decreases |feats|
  {
    if |feats| == 0 then []
    else OffsetAll(feats[..|feats| - 1], offset, maxCoord) +
         match OffsetFeature(feats[|feats| - 1], offset, maxCoord)
         case Some(g) => [g]
         case None => []
  }

  /** The arena and the new feature list after gff_add_offset's loop: every
      visited feature is shifted in place (a dropped one is freed, so its
      slot is no longer referenced), and a kept one is also clamped. */
  function OffsetSpec(arena: seq<Feature>, fs: seq<nat>, offset: int, maxCoord: int)
    : (r: (seq<Feature>, seq<nat>))
    requires InArena(fs, |arena|)
    ensures |r.0| == |arena| && InArena(r.1, |arena|)
    ensures forall x :: 0 <= x < |arena| && x !in fs ==> r.0[x] == arena[x]
    ensures forall k :: 0 <= k < |r.1| ==> r.1[k] in fs
    decreases |fs|
  {
    if |fs| == 0 then (arena, [])
    else
      var fs' := fs[..|fs| - 1];
      var prev := OffsetSpec(arena, fs', offset, maxCoord);
      var x := fs[|fs| - 1];
      var f := prev.0[x];
      var shifted := f.(start := f.start + offset, end := f.end + offset);
      assert forall k :: 0 <= k < |prev.1| ==> prev.1[k] in fs;
      match OffsetFeature(f, offset, maxCoord)
      case None => (prev.0[x := shifted], prev.1)
      case Some(g) => (prev.0[x := g], prev.1 + [x])
  }

  /** For a list without repeated features, the features left in the set are
      exactly the shifted survivors, in their original order. */
  lemma {:induction false} OffsetSpecValues(arena: seq<Feature>, fs: seq<nat>, offset: int, maxCoord: int)
    requires InArena(fs, |arena|) && NoDup(fs)
    ensures var r := OffsetSpec(arena, fs, offset, maxCoord);
      Deref(r.0, r.1) == OffsetAll(Deref(arena, fs), offset, maxCoord)
    decreases |fs|
  {
    if |fs| > 0 {
      var fs' := fs[..|fs| - 1];
      assert NoDup(fs');
      OffsetSpecValues(arena, fs', offset, maxCoord);
      OffsetValuesStep(arena, fs, offset, maxCoord);
    }
  }

  lemma OffsetValuesStep(arena: seq<Feature>, fs: seq<nat>, offset: int, maxCoord: int)
    requires InArena(fs, |arena|) && NoDup(fs) && |fs| > 0
    requires var prev := OffsetSpec(arena, fs[..|fs| - 1], offset, maxCoord);
      Deref(prev.0, prev.1) == OffsetAll(Deref(arena, fs[..|fs| - 1]), offset, maxCoord)
    ensures var r := OffsetSpec(arena, fs, offset, maxCoord);
      Deref(r.0, r.1) == OffsetAll(Deref(arena, fs), offset, maxCoord)
  {
    var fs' := fs[..|fs| - 1];
    var x := fs[|fs| - 1];
    assert x !in fs';
    var prev := OffsetSpec(arena, fs', offset, maxCoord);
    assert prev.0[x] == arena[x];
    assert x !in prev.1;
    assert Deref(arena, fs)[..|fs| - 1] == Deref(arena, fs');
    var f := arena[x];
    match OffsetFeature(f, offset, maxCoord)
    case None =>
      DerefUpdateOutside(prev.0, prev.1, x, f.(start := f.start + offset, end := f.end + offset));
    case Some(g) =>
      DerefUpdateOutside(prev.0, prev.1, x, g);
      DerefSnoc(prev.0[x := g], prev.1, x);
  }

  /** Rewriting an object that the list does not refer to leaves the list's
      values alone. */
  lemma DerefUpdateOutside(arena: seq<Feature>, idx: seq<nat>, x: nat, v: Feature)
    requires InArena(idx, |arena|) && x < |arena| && x !in idx
    ensures Deref(arena[x := v], idx) == Deref(arena, idx)
  {
  }

  lemma DerefSnoc(arena: seq<Feature>, idx: seq<nat>, x: nat)
    requires InArena(idx, |arena|) && x < |arena|
    ensures InArena(idx + [x], |arena|) && Deref(arena, idx + [x]) == Deref(arena, idx) + [arena[x]]
  {
  }

  /** One turn of the loop of gff_add_offset: feature fs[i] shifted in
      place, and kept (clamped) unless it falls out of range. */
  method OffsetStep(arena0: seq<Feature>, fs: seq<nat>, offset: int, maxCoord: int, i: nat,
                    arena: seq<Feature>, keepers: seq<nat>)
    returns (arena': seq<Feature>, keepers': seq<nat>)
    requires InArena(fs, |arena0|) && i < |fs|
    requires (arena, keepers) == OffsetSpec(arena0, fs[..i], offset, maxCoord)
    ensures (arena', keepers') == OffsetSpec(arena0, fs[..i + 1], offset, maxCoord)
  {
    assert fs[..i + 1][..i] == fs[..i];
    var x := fs[i];
    var feat := arena[x];
    feat := feat.(start := feat.start + offset, end := feat.end + offset);
    if feat.end < 1 || (maxCoord > 0 && feat.start > maxCoord) {
      arena' := arena[x := feat];
      keepers' := keepers;
    } else {
      if feat.start < 1 {
        feat := feat.(start := 1);
      }
      if maxCoord > 0 && feat.end > maxCoord {
        feat := feat.(end := maxCoord);
      }
      arena' := arena[x := feat];
      keepers' := keepers + [x];
    }
  }

  /** The loop of gff_add_offset over the feature list. */
  method OffsetLoop(arena0: seq<Feature>, fs: seq<nat>, offset: int, maxCoord: int)
    returns (arena: seq<Feature>, keepers: seq<nat>)
    requires InArena(fs, |arena0|)
    ensures (arena, keepers) == OffsetSpec(arena0, fs, offset, maxCoord)
  {
    arena, keepers := arena0, [];
    var i := 0;
    while i < |fs|
      invariant 0 <= i <= |fs|
      invariant (arena, keepers) == OffsetSpec(arena0, fs[..i], offset, maxCoord)
      decreases |fs| - i
    {
      arena, keepers := OffsetStep(arena0, fs, offset, maxCoord, i, arena, keepers);
      i := i + 1;
    }
    assert fs[..|fs|] == fs;
  }

  /** Shifts every feature by `offset`, drops those that fall out of range,
      clamps the rest, and always drops the grouping (gff_add_offset). */
  method AddOffset(gff: FeatureSet, offset: int, maxCoord: int)
    requires gff.Valid()
    modifies gff
    ensures gff.Valid()
    ensures gff.header == old(gff.header) && gff.grouping == None
    ensures (gff.arena, gff.features) == OffsetSpec(old(gff.arena), old(gff.features), offset, maxCoord)
  {
    var arena, keepers := OffsetLoop(gff.arena, gff.features, offset, maxCoord);
    gff.arena := arena;
    gff.features := keepers;
    gff.grouping := None;
  }
}
