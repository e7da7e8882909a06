/** Removal of overlapping groups (gff_remove_overlaps,
    src/lib/feature/gff.c:798-918).

    The groups are visited in order.  The kept groups are held in start
    order together with their spans and scores; a group starting beyond the
    furthest end seen so far is appended, any other one is placed next to
    the last kept group starting at or before it, and if it overlaps kept
    groups it replaces the whole run of them when its score is strictly
    greater than theirs summed, and is dropped otherwise. */
module GffOverlap {
  import opened Util
  import opened GffFeature
  import opened GffSet
  import opened GffSort

  /** One kept group with its span and its score (one entry of the source's
      parallel start, end, score and group lists). */
  datatype Kept = Kept(start: int, end: int, score: real, group: Group)

  /** The sum of the non-null member scores, and whether there was one. */
  function ScoreSum(arena: seq<Feature>, ms: seq<nat>): (real, bool)
    requires InArena(ms, |arena|)
    decreases |ms|
  {
    if |ms| == 0 then (0.0, false)
    else
      var (s, has) := ScoreSum(arena, ms[..|ms| - 1]);
      var f := arena[ms[|ms| - 1]];
      if f.scoreIsNull then (s, has) else (s + f.score, true)
  }

  /** The score a group is judged by: the sum of its members' scores when any
      has one, otherwise the length of its span. */
  function GroupScore(arena: seq<Feature>, g: Group): real
    requires InArena(g.members, |arena|)
  {
    var (s, has) := ScoreSum(arena, g.members);
    if has then s else (g.end - g.start + 1) as real
  }

  /** Members without scores contribute nothing and leave the sum marked as
      having no score. */
  lemma {:induction false} ScoreSumNone(arena: seq<Feature>, ms: seq<nat>)
    requires InArena(ms, |arena|)
    requires forall k :: 0 <= k < |ms| ==> arena[ms[k]].scoreIsNull
    ensures ScoreSum(arena, ms) == (0.0, false)
    decreases |ms|
  {
    if |ms| > 0 {
      ScoreSumNone(arena, ms[..|ms| - 1]);
    }
  }

  /** The summed score of the entries kept[lo..hi]. */
  function SumRange(kept: seq<Kept>, lo: int, hi: int): real
    requires 0 <= lo <= hi <= |kept|
    decreases hi - lo
  {
    if lo == hi then 0.0 else SumRange(kept, lo, hi - 1) + kept[hi - 1].score
  }

  /** The sum can equally be taken from the front. */
  lemma {:induction false} SumRangeFront(kept: seq<Kept>, lo: int, hi: int)
    requires 0 <= lo < hi <= |kept|
    ensures SumRange(kept, lo, hi) == kept[lo].score + SumRange(kept, lo + 1, hi)
    decreases hi - lo
  {
    if lo + 1 < hi {
      SumRangeFront(kept, lo, hi - 1);
    }
  }

  /** A group none of whose members has a score is judged by its span. */
  lemma GroupScoreNone(arena: seq<Feature>, g: Group)
    requires InArena(g.members, |arena|)
    requires forall k :: 0 <= k < |g.members| ==> arena[g.members[k]].scoreIsNull
    ensures GroupScore(arena, g) == (g.end - g.start + 1) as real
  {
    ScoreSumNone(arena, g.members);
  }

  // ---------------------------------------------------------------------
  // The searches in the kept list
  // ---------------------------------------------------------------------

  /** The last kept entry starting at or before `key` (-1 if none): the
      binary search of the start list. */
  function LastAtMost(kept: seq<Kept>, key: int): (r: int)
    ensures -1 <= r < |kept|
    decreases |kept|
  {
    if |kept| == 0 then -1
    else if kept[|kept| - 1].start <= key then |kept| - 1
    else LastAtMost(kept[..|kept| - 1], key)
  }

  lemma {:induction false} LastAtMostSpec(kept: seq<Kept>, key: int)
    ensures var r := LastAtMost(kept, key);
      (r >= 0 ==> kept[r].start <= key) &&
      forall i :: r < i < |kept| ==> kept[i].start > key
    decreases |kept|
  {
    if |kept| > 0 && kept[|kept| - 1].start > key {
      LastAtMostSpec(kept[..|kept| - 1], key);
    }
  }

  /** Scanning down from m while entries end at or after `start`: the index
      where the scan stops (-1 when it runs off the front). */
  function ScanDown(kept: seq<Kept>, m: int, start: int): (r: int)
    requires -1 <= m < |kept|
    ensures -1 <= r <= m
    decreases m + 1
  {
    if m >= 0 && kept[m].end >= start then ScanDown(kept, m - 1, start) else m
  }

  lemma {:induction false} ScanDownSpec(kept: seq<Kept>, m: int, start: int)
    requires -1 <= m < |kept|
    ensures var r := ScanDown(kept, m, start);
      (r >= 0 ==> kept[r].end < start) &&
      forall i :: r < i <= m ==> kept[i].end >= start
    decreases m + 1
  {
    if m >= 0 && kept[m].end >= start {
      ScanDownSpec(kept, m - 1, start);
    }
  }

  /** Scanning up from m while entries start at or before `end`: the index
      where the scan stops (|kept| when it runs off the back). */
  function ScanUp(kept: seq<Kept>, m: int, end: int): (r: int)
    requires 0 <= m <= |kept|
    ensures m <= r <= |kept|
    decreases |kept| - m
  {
    if m < |kept| && kept[m].start <= end then ScanUp(kept, m + 1, end) else m
  }

  lemma {:induction false} ScanUpSpec(kept: seq<Kept>, m: int, end: int)
    requires 0 <= m <= |kept|
    ensures var r := ScanUp(kept, m, end);
      (r < |kept| ==> kept[r].start > end) &&
      forall i :: m <= i < r ==> kept[i].start <= end
    decreases |kept| - m
  {
    if m < |kept| && kept[m].start <= end {
      ScanUpSpec(kept, m + 1, end);
    }
  }

  // ---------------------------------------------------------------------
  // One step of the pass
  // ---------------------------------------------------------------------

  /** c placed between kept[..p] and kept[q..], replacing kept[p..q]. */
  function Splice(kept: seq<Kept>, p: int, q: int, c: Kept): seq<Kept>
    requires 0 <= p <= q <= |kept|
  {
    kept[..p] + [c] + kept[q..]
  }

  function MaxEnd(lastEnd: int, c: Kept): int {
    if c.end > lastEnd then c.end else lastEnd
  }

  /** The end of the entry before the candidate's place (-1: none). */
  function PrevEnd(kept: seq<Kept>, li: int): int
    requires -1 <= li < |kept|
  {
    if li >= 0 then kept[li].end else -1
  }

  /** The start of the entry after the candidate's place (INFTY: none). */
  function NextStart(kept: seq<Kept>, li: int): int
    requires -1 <= li < |kept|
  {
    if li + 1 < |kept| then kept[li + 1].start else INFTY
  }

  /** The run kept[lo+1..hi] is replaced by c when c scores strictly more
      than the run does together; otherwise c is dropped. */
  function Replace(kept: seq<Kept>, lastEnd: int, c: Kept, lo: int, hi: int): (seq<Kept>, int)
    requires -1 <= lo < hi <= |kept|
  {
    if c.score > SumRange(kept, lo + 1, hi) then (Splice(kept, lo + 1, hi, c), MaxEnd(lastEnd, c))
    else (kept, lastEnd)
  }

  /** The search path, once the place after kept[li] is known. */
  function SlowStep(kept: seq<Kept>, lastEnd: int, c: Kept, li: int): (seq<Kept>, int)
    requires -1 <= li < |kept|
  {
    if PrevEnd(kept, li) >= c.start || NextStart(kept, li) <= c.end then
      Replace(kept, lastEnd, c, ScanDown(kept, li, c.start), ScanUp(kept, li + 1, c.end))
    else (Splice(kept, li + 1, li + 1, c), MaxEnd(lastEnd, c))
  }

  /** One candidate `c` meets the kept list; `lastEnd` is the furthest end
      kept so far. */
  function OverlapStep(kept: seq<Kept>, lastEnd: int, c: Kept): (seq<Kept>, int) {
    if c.start > lastEnd then (kept + [c], c.end)
    else SlowStep(kept, lastEnd, c, LastAtMost(kept, c.start))
  }

  function Candidate(arena: seq<Feature>, g: Group): Kept
    requires InArena(g.members, |arena|)
  {
    Kept(g.start, g.end, GroupScore(arena, g), g)
  }

  /** The kept list and furthest end after the groups `gs`. */
  function Resolve(arena: seq<Feature>, gs: seq<Group>): (seq<Kept>, int)
    requires GroupsInArena(gs, |arena|)
    decreases |gs|
  {
    if |gs| == 0 then ([], -1)
    else
      var (kept, lastEnd) := Resolve(arena, gs[..|gs| - 1]);
      OverlapStep(kept, lastEnd, Candidate(arena, gs[|gs| - 1]))
  }

  function KeptGroups(kept: seq<Kept>): seq<Group> {
    seq(|kept|, i requires 0 <= i < |kept| => kept[i].group)
  }

  // ---------------------------------------------------------------------
  // Properties
  // ---------------------------------------------------------------------

  predicate Overlap(k: Kept, c: Kept) {
    k.end >= c.start && k.start <= c.end
  }

  /** Every kept entry ends before every later one starts. */
  predicate Disjoint(kept: seq<Kept>) {
    forall i, j :: 0 <= i < j < |kept| ==> kept[i].end < kept[j].start
  }

  predicate Proper(kept: seq<Kept>) {
    forall i :: 0 <= i < |kept| ==> kept[i].start <= kept[i].end
  }

  /** The pass invariant: entries are proper intervals, pairwise disjoint and
      so in start order, and none ends beyond `lastEnd`. */
  predicate Inv(kept: seq<Kept>, lastEnd: int) {
    Disjoint(kept) && Proper(kept) && forall i :: 0 <= i < |kept| ==> kept[i].end <= lastEnd
  }

  /** In a disjoint list of proper intervals, starts and ends both rise. */
  lemma Ordered(kept: seq<Kept>, i: int, j: int)
    requires Disjoint(kept) && Proper(kept) && 0 <= i <= j < |kept|
    ensures kept[i].start <= kept[j].start && kept[i].end <= kept[j].end
  {
    if i < j {
      assert kept[i].end < kept[j].start;
    }
  }

  lemma SpliceIndex(kept: seq<Kept>, p: int, q: int, c: Kept, k: int)
    requires 0 <= p <= q <= |kept| && 0 <= k < |Splice(kept, p, q, c)|
    ensures Splice(kept, p, q, c)[k] == if k < p then kept[k] else if k == p then c else kept[k - p - 1 + q]
  {
  }

  /** Two entries of the spliced list are in order and apart. */
  lemma InsertBetweenPair(kept: seq<Kept>, lastEnd: int, p: int, q: int, c: Kept, i: int, j: int)
    requires Inv(kept, lastEnd) && 0 <= p <= q <= |kept|
    requires p > 0 ==> kept[p - 1].end < c.start
    requires q < |kept| ==> c.end < kept[q].start
    requires c.start <= c.end
    requires 0 <= i < j < |Splice(kept, p, q, c)|
    ensures Splice(kept, p, q, c)[i].end < Splice(kept, p, q, c)[j].start
  {
    SpliceIndex(kept, p, q, c, i);
    SpliceIndex(kept, p, q, c, j);
    if i < p {
      Ordered(kept, i, p - 1);
    }
    if j > p {
      Ordered(kept, q, j - p - 1 + q);
    }
  }

  /** Every entry of the spliced list is proper and ends by newEnd. */
  lemma InsertBetweenOne(kept: seq<Kept>, lastEnd: int, p: int, q: int, c: Kept, newEnd: int, k: int)
    requires Inv(kept, lastEnd) && 0 <= p <= q <= |kept|
    requires c.start <= c.end <= newEnd && lastEnd <= newEnd
    requires 0 <= k < |Splice(kept, p, q, c)|
    ensures var r := Splice(kept, p, q, c); r[k].start <= r[k].end <= newEnd
  {
    SpliceIndex(kept, p, q, c, k);
  }

  /** Placing c between kept[..p] and kept[q..] keeps the invariant when it
      fits there. */
  lemma InsertBetween(kept: seq<Kept>, lastEnd: int, p: int, q: int, c: Kept, newEnd: int)
    requires Inv(kept, lastEnd) && 0 <= p <= q <= |kept|
    requires p > 0 ==> kept[p - 1].end < c.start
    requires q < |kept| ==> c.end < kept[q].start
    requires c.start <= c.end <= newEnd && lastEnd <= newEnd
    ensures Inv(Splice(kept, p, q, c), newEnd)
  {
    var r := Splice(kept, p, q, c);
    forall i, j | 0 <= i < j < |r|
      ensures r[i].end < r[j].start
    {
      InsertBetweenPair(kept, lastEnd, p, q, c, i, j);
    }
    forall k | 0 <= k < |r|
      ensures r[k].start <= r[k].end <= newEnd
    {
      InsertBetweenOne(kept, lastEnd, p, q, c, newEnd, k);
    }
  }

  lemma {:induction false} AppendInv(kept: seq<Kept>, lastEnd: int, c: Kept)
    requires Inv(kept, lastEnd) && lastEnd < c.start <= c.end
    ensures Inv(kept + [c], c.end)
  {
    assert kept + [c] == Splice(kept, |kept|, |kept|, c);
    if |kept| > 0 {
      assert kept[|kept| - 1].end <= lastEnd;
    }
    InsertBetween(kept, lastEnd, |kept|, |kept|, c, c.end);
  }

  lemma {:induction false} ReplaceInv(kept: seq<Kept>, lastEnd: int, c: Kept, lo: int, hi: int)
    requires Inv(kept, lastEnd) && c.start <= c.end && -1 <= lo < hi <= |kept|
    requires lo >= 0 ==> kept[lo].end < c.start
    requires hi < |kept| ==> c.end < kept[hi].start
    ensures Inv(Replace(kept, lastEnd, c, lo, hi).0, Replace(kept, lastEnd, c, lo, hi).1)
  {
    if c.score > SumRange(kept, lo + 1, hi) {
      InsertBetween(kept, lastEnd, lo + 1, hi, c, MaxEnd(lastEnd, c));
    }
  }

  lemma {:induction false} SlowStepInv(kept: seq<Kept>, lastEnd: int, c: Kept, li: int)
    requires Inv(kept, lastEnd) && c.start <= c.end && -1 <= li < |kept|
    requires li >= 0 ==> kept[li].start <= c.start
    requires forall i :: li < i < |kept| ==> kept[i].start > c.start
    ensures Inv(SlowStep(kept, lastEnd, c, li).0, SlowStep(kept, lastEnd, c, li).1)
  {
    if PrevEnd(kept, li) >= c.start || NextStart(kept, li) <= c.end {
      SlowReplaceInv(kept, lastEnd, c, li);
    } else {
      SlowInsertInv(kept, lastEnd, c, li);
    }
  }

  lemma SlowReplaceInv(kept: seq<Kept>, lastEnd: int, c: Kept, li: int)
    requires Inv(kept, lastEnd) && c.start <= c.end && -1 <= li < |kept|
    ensures var r := Replace(kept, lastEnd, c, ScanDown(kept, li, c.start), ScanUp(kept, li + 1, c.end));
      Inv(r.0, r.1)
  {
    ScanDownSpec(kept, li, c.start);
    ScanUpSpec(kept, li + 1, c.end);
    ReplaceInv(kept, lastEnd, c, ScanDown(kept, li, c.start), ScanUp(kept, li + 1, c.end));
  }

  lemma SlowInsertInv(kept: seq<Kept>, lastEnd: int, c: Kept, li: int)
    requires Inv(kept, lastEnd) && c.start <= c.end && -1 <= li < |kept|
    requires PrevEnd(kept, li) < c.start && NextStart(kept, li) > c.end
    ensures Inv(Splice(kept, li + 1, li + 1, c), MaxEnd(lastEnd, c))
  {
    InsertBetween(kept, lastEnd, li + 1, li + 1, c, MaxEnd(lastEnd, c));
  }

  /** Every step keeps the invariant, provided the candidate is a proper
      interval. */
  lemma {:induction false} OverlapStepInv(kept: seq<Kept>, lastEnd: int, c: Kept)
    requires Inv(kept, lastEnd) && c.start <= c.end
    ensures Inv(OverlapStep(kept, lastEnd, c).0, OverlapStep(kept, lastEnd, c).1)
  {
    if c.start > lastEnd {
      AppendInv(kept, lastEnd, c);
    } else {
      LastAtMostSpec(kept, c.start);
      SlowStepInv(kept, lastEnd, c, LastAtMost(kept, c.start));
    }
  }

  /** The run kept[lo..hi] is exactly the set of kept entries c overlaps. */
  predicate RunIsOverlap(kept: seq<Kept>, c: Kept, lo: int, hi: int) {
    forall i :: 0 <= i < |kept| ==> (lo <= i < hi <==> Overlap(kept[i], c))
  }

  /** Where the three searches stop, the entries strictly between the two
      scans are exactly those overlapping c. */
  lemma {:induction false} RunBounds(kept: seq<Kept>, c: Kept, li: int, lo: int, hi: int)
    requires Disjoint(kept) && Proper(kept) && c.start <= c.end
    requires -1 <= lo <= li < hi <= |kept|
    requires li >= 0 ==> kept[li].start <= c.start
    requires forall i :: li < i < |kept| ==> kept[i].start > c.start
    requires lo >= 0 ==> kept[lo].end < c.start
    requires forall i :: lo < i <= li ==> kept[i].end >= c.start
    requires hi < |kept| ==> kept[hi].start > c.end
    requires forall i :: li < i < hi ==> kept[i].start <= c.end
    ensures RunIsOverlap(kept, c, lo + 1, hi)
  {
    forall i | 0 <= i < |kept|
      ensures lo < i < hi <==> Overlap(kept[i], c)
    {
      if i <= lo {
        Ordered(kept, i, lo);
      } else if i <= li {
        Ordered(kept, i, li);
      } else if i >= hi {
        Ordered(kept, hi, i);
      }
    }
  }

  /** The scans of the search path delimit exactly the entries c overlaps. */
  lemma {:induction false} OverlapRun(kept: seq<Kept>, lastEnd: int, c: Kept, li: int)
    requires Inv(kept, lastEnd) && c.start <= c.end && li == LastAtMost(kept, c.start)
    ensures RunIsOverlap(kept, c, ScanDown(kept, li, c.start) + 1, ScanUp(kept, li + 1, c.end))
  {
    LastAtMostSpec(kept, c.start);
    ScanDownSpec(kept, li, c.start);
    ScanUpSpec(kept, li + 1, c.end);
    RunBounds(kept, c, li, ScanDown(kept, li, c.start), ScanUp(kept, li + 1, c.end));
  }

  /** A candidate that overlaps no kept entry (and lies strictly between the
      sentinels -1 and INFTY) is inserted, and nothing is removed. */
  lemma {:induction false} OverlapStepKeepsDisjoint(kept: seq<Kept>, lastEnd: int, c: Kept)
    requires Inv(kept, lastEnd) && c.start <= c.end
    requires -1 < c.start && c.end < INFTY
    requires forall i :: 0 <= i < |kept| ==> !Overlap(kept[i], c)
    ensures exists p :: 0 <= p <= |kept| && OverlapStep(kept, lastEnd, c).0 == Splice(kept, p, p, c)
  {
    if c.start > lastEnd {
      assert kept + [c] == Splice(kept, |kept|, |kept|, c);
    } else {
      var li := LastAtMost(kept, c.start);
      LastAtMostSpec(kept, c.start);
      assert PrevEnd(kept, li) < c.start by {
        if li >= 0 {
          assert !Overlap(kept[li], c);
        }
      }
      assert NextStart(kept, li) > c.end by {
        if li + 1 < |kept| {
          assert !Overlap(kept[li + 1], c);
        }
      }
      assert OverlapStep(kept, lastEnd, c).0 == Splice(kept, li + 1, li + 1, c);
    }
  }

  /** The step's kept list is decided by the run kept[lo..hi], which is
      exactly the set of entries c overlaps. */
  predicate ReplacedRun(kept: seq<Kept>, lastEnd: int, c: Kept, lo: int, hi: int) {
    0 <= lo <= hi <= |kept| && RunIsOverlap(kept, c, lo, hi) &&
    OverlapStep(kept, lastEnd, c).0 ==
      (if c.score > SumRange(kept, lo, hi) then Splice(kept, lo, hi, c) else kept)
  }

  /** A candidate that overlaps kept entries replaces exactly the run of
      entries it overlaps when its score is strictly greater than their
      summed score, and is dropped otherwise. */
  lemma {:induction false} OverlapStepReplaces(kept: seq<Kept>, lastEnd: int, c: Kept)
    requires Inv(kept, lastEnd) && c.start <= c.end
    requires exists i :: 0 <= i < |kept| && Overlap(kept[i], c)
    ensures exists lo, hi :: ReplacedRun(kept, lastEnd, c, lo, hi)
  {
    var i0 :| 0 <= i0 < |kept| && Overlap(kept[i0], c);
    var li := LastAtMost(kept, c.start);
    OverlapRun(kept, lastEnd, c, li);
    var lo := ScanDown(kept, li, c.start);
    var hi := ScanUp(kept, li + 1, c.end);
    assert c.start <= lastEnd by {
      assert kept[i0].end <= lastEnd;
    }
    Touching(kept, lastEnd, c, li, i0);
    assert OverlapStep(kept, lastEnd, c) == Replace(kept, lastEnd, c, lo, hi);
    assert ReplacedRun(kept, lastEnd, c, lo + 1, hi);
  }

  /** A candidate overlapping some entry takes the search path's
      replacement branch. */
  lemma Touching(kept: seq<Kept>, lastEnd: int, c: Kept, li: int, i0: int)
    requires Inv(kept, lastEnd) && c.start <= c.end && li == LastAtMost(kept, c.start)
    requires 0 <= i0 < |kept| && Overlap(kept[i0], c)
    ensures PrevEnd(kept, li) >= c.start || NextStart(kept, li) <= c.end
  {
    LastAtMostSpec(kept, c.start);
    if i0 <= li {
      Ordered(kept, i0, li);
    } else {
      Ordered(kept, li + 1, i0);
    }
  }

  lemma {:induction false} SpliceFrom(kept: seq<Kept>, p: int, q: int, c: Kept)
    requires 0 <= p <= q <= |kept|
    ensures forall k :: k in Splice(kept, p, q, c) ==> k in kept || k == c
  {
    forall k | k in Splice(kept, p, q, c)
      ensures k in kept || k == c
    {
      if k in kept[..p] {
        var i :| 0 <= i < p && kept[..p][i] == k;
        assert kept[i] == k;
      } else if k in kept[q..] {
        var i :| 0 <= i < |kept| - q && kept[q..][i] == k;
        assert kept[q + i] == k;
      }
    }
  }

  /** Every entry after a step was kept before or is the candidate. */
  lemma {:induction false} OverlapStepFrom(kept: seq<Kept>, lastEnd: int, c: Kept)
    ensures forall k :: k in OverlapStep(kept, lastEnd, c).0 ==> k in kept || k == c
  {
    if c.start <= lastEnd {
      var li := LastAtMost(kept, c.start);
      if PrevEnd(kept, li) >= c.start || NextStart(kept, li) <= c.end {
        SpliceFrom(kept, ScanDown(kept, li, c.start) + 1, ScanUp(kept, li + 1, c.end), c);
      } else {
        SpliceFrom(kept, li + 1, li + 1, c);
      }
    } else {
      SpliceFrom(kept, |kept|, |kept|, c);
      assert kept + [c] == Splice(kept, |kept|, |kept|, c);
    }
  }

  /** The entries after a pass each come from an input group, with that
      group's span. */
  predicate FromGroups(kept: seq<Kept>, gs: seq<Group>) {
    forall i :: 0 <= i < |kept| ==>
      kept[i].group in gs && kept[i].start == kept[i].group.start && kept[i].end == kept[i].group.end
  }

  lemma {:induction false} StepFromGroups(kept: seq<Kept>, lastEnd: int, c: Kept, gs: seq<Group>)
    requires FromGroups(kept, gs) && c.group in gs && c.start == c.group.start && c.end == c.group.end
    ensures FromGroups(OverlapStep(kept, lastEnd, c).0, gs)
  {
    OverlapStepFrom(kept, lastEnd, c);
    var r := OverlapStep(kept, lastEnd, c).0;
    forall i | 0 <= i < |r|
      ensures r[i].group in gs && r[i].start == r[i].group.start && r[i].end == r[i].group.end
    {
      assert r[i] in r;
      if r[i] != c {
        var k :| 0 <= k < |kept| && kept[k] == r[i];
      }
    }
  }

  lemma {:induction false} FromGroupsWiden(kept: seq<Kept>, gs': seq<Group>, gs: seq<Group>)
    requires FromGroups(kept, gs') && gs' <= gs
    ensures FromGroups(kept, gs)
  {
    forall i | 0 <= i < |kept|
      ensures kept[i].group in gs
    {
      var j :| 0 <= j < |gs'| && gs'[j] == kept[i].group;
      assert gs[j] == gs'[j];
    }
  }

  /** Every kept group is one of the input groups, with its own span. */
  lemma {:induction false} ResolveFrom(arena: seq<Feature>, gs: seq<Group>)
    requires GroupsInArena(gs, |arena|)
    ensures FromGroups(Resolve(arena, gs).0, gs)
    decreases |gs|
  {
    if |gs| > 0 {
      var gs' := gs[..|gs| - 1];
      ResolveFrom(arena, gs');
      var (kept, lastEnd) := Resolve(arena, gs');
      var c := Candidate(arena, gs[|gs| - 1]);
      assert Resolve(arena, gs) == OverlapStep(kept, lastEnd, c);
      FromGroupsWiden(kept, gs', gs);
      StepFromGroups(kept, lastEnd, c, gs);
    }
  }

  /** Over a whole pass, when every group is a proper interval, the kept
      groups are pairwise disjoint and in start order. */
  lemma {:induction false} ResolveInv(arena: seq<Feature>, gs: seq<Group>)
    requires GroupsInArena(gs, |arena|)
    requires forall j :: 0 <= j < |gs| ==> gs[j].start <= gs[j].end
    ensures Inv(Resolve(arena, gs).0, Resolve(arena, gs).1)
    decreases |gs|
  {
    if |gs| > 0 {
      var gs' := gs[..|gs| - 1];
      ResolveInv(arena, gs');
      var (kept, lastEnd) := Resolve(arena, gs');
      var c := Candidate(arena, gs[|gs| - 1]);
      assert Resolve(arena, gs) == OverlapStep(kept, lastEnd, c);
      OverlapStepInv(kept, lastEnd, c);
    }
  }

  /** The kept groups of a pass index the arena. */
  lemma ResolveInArena(arena: seq<Feature>, gs: seq<Group>)
    requires GroupsInArena(gs, |arena|)
    ensures GroupsInArena(KeptGroups(Resolve(arena, gs).0), |arena|)
  {
    var kept := Resolve(arena, gs).0;
    ResolveFrom(arena, gs);
    forall i | 0 <= i < |kept|
      ensures InArena(KeptGroups(kept)[i].members, |arena|)
    {
      var j :| 0 <= j < |gs| && gs[j] == kept[i].group;
    }
  }

  /** Two overlapping groups: [1,100] with score 5 comes first and [50,150]
      with score 3 does not beat it, so only the first is kept. */
  lemma OverlapScenario()
    ensures var f1 := Feature("chr1", "src", "exon", 1, 100, 5.0, Plus, NULL_FRAME, "", false);
      var f2 := Feature("chr1", "src", "exon", 50, 150, 3.0, Plus, NULL_FRAME, "", false);
      var g1 := Group("G1", [0], 1, 100);
      var g2 := Group("G2", [1], 50, 150);
      KeptGroups(Resolve([f1, f2], [g1, g2]).0) == [g1]
  {
    var f1 := Feature("chr1", "src", "exon", 1, 100, 5.0, Plus, NULL_FRAME, "", false);
    var f2 := Feature("chr1", "src", "exon", 50, 150, 3.0, Plus, NULL_FRAME, "", false);
    var g1 := Group("G1", [0], 1, 100);
    var g2 := Group("G2", [1], 50, 150);
    var arena := [f1, f2];
    assert [g1, g2][..1] == [g1];
    assert [g1][..0] == [];
    assert [0][..0] == [] && [1][..0] == [];
    assert GroupScore(arena, g1) == 5.0;
    assert GroupScore(arena, g2) == 3.0;
    var k1 := Kept(1, 100, 5.0, g1);
    assert Resolve(arena, []) == ([], -1);
    assert Candidate(arena, g1) == k1;
    assert [] + [k1] == [k1];
    assert OverlapStep([], -1, k1) == ([k1], 100);
    assert Resolve(arena, [g1]) == ([k1], 100);
    assert LastAtMost([k1], 50) == 0;
    assert ScanDown([k1], 0, 50) == -1;
    assert ScanUp([k1], 1, 150) == 1;
    assert SumRange([k1], 0, 1) == 5.0;
    assert Resolve(arena, [g1, g2]) == Replace([k1], 100, Kept(50, 150, 3.0, g2), -1, 1);
  }

  // ---------------------------------------------------------------------
  // The procedure
  // ---------------------------------------------------------------------

  /** The scoring loop over one group's members. */
  method ScoreOf(arena: seq<Feature>, g: Group) returns (score: real)
    requires InArena(g.members, |arena|)
    ensures score == GroupScore(arena, g)
  {
    var ms := g.members;
    score := 0.0;
    var hasScores := false;
    var j := 0;
    while j < |ms|
      invariant 0 <= j <= |ms|
      invariant (score, hasScores) == ScoreSum(arena, ms[..j])
      decreases |ms| - j
    {
      assert ms[..j + 1][..j] == ms[..j];
      var f := arena[ms[j]];
      if !f.scoreIsNull {
        score := score + f.score;
        hasScores := true;
      }
      j := j + 1;
    }
    assert ms[..|ms|] == ms;
    if !hasScores {
      score := (g.end - g.start + 1) as real;
    }
  }

  /** The downward scan from the candidate's place, summing scores. */
  method ScanBelow(kept: seq<Kept>, li: int, start: int) returns (minidx: int, alt: real)
    requires -1 <= li < |kept|
    ensures minidx == ScanDown(kept, li, start) + 1
    ensures alt == SumRange(kept, minidx, li + 1)
  {
    alt := 0.0;
    minidx := li;
    while minidx >= 0 && kept[minidx].end >= start
      invariant -1 <= minidx <= li
      invariant ScanDown(kept, minidx, start) == ScanDown(kept, li, start)
      invariant alt == SumRange(kept, minidx + 1, li + 1)
      decreases minidx + 1
    {
      SumRangeFront(kept, minidx, li + 1);
      alt := alt + kept[minidx].score;
      minidx := minidx - 1;
    }
    minidx := minidx + 1;
  }

  /** The upward scan after the candidate's place, adding to `alt`. */
  method ScanAbove(kept: seq<Kept>, minidx: int, li: int, end: int, alt0: real) returns (maxidx: int, alt: real)
    requires 0 <= minidx <= li + 1 <= |kept|
    requires alt0 == SumRange(kept, minidx, li + 1)
    ensures maxidx == ScanUp(kept, li + 1, end) - 1
    ensures alt == SumRange(kept, minidx, maxidx + 1)
  {
    alt := alt0;
    maxidx := li + 1;
    while maxidx < |kept| && kept[maxidx].start <= end
      invariant li + 1 <= maxidx <= |kept|
      invariant ScanUp(kept, maxidx, end) == ScanUp(kept, li + 1, end)
      invariant alt == SumRange(kept, minidx, maxidx)
      decreases |kept| - maxidx
    {
      alt := alt + kept[maxidx].score;
      maxidx := maxidx + 1;
    }
    maxidx := maxidx - 1;
  }

  /** Deletes entries minidx..maxidx one at a time, always at minidx. */
  method DeleteRun(kept: seq<Kept>, minidx: int, maxidx: int) returns (r: seq<Kept>)
    requires 0 <= minidx <= maxidx + 1 <= |kept|
    ensures r == kept[..minidx] + kept[maxidx + 1..]
  {
    r := kept;
    var m := maxidx;
    while m >= minidx
      invariant minidx - 1 <= m <= maxidx
      invariant r == kept[..minidx] + kept[minidx + (maxidx - m)..]
      decreases m - minidx + 1
    {
      assert r[minidx + 1..] == kept[minidx + (maxidx - m) + 1..];
      r := r[..minidx] + r[minidx + 1..];
      m := m - 1;
    }
  }

  /** Deleting kept[p..q] and inserting c after index p - 1 splices c in. */
  lemma DeleteInsert(kept: seq<Kept>, p: int, q: int, c: Kept)
    requires 0 <= p <= q <= |kept|
    ensures var r := kept[..p] + kept[q..];
      r[..p] + [c] + r[p..] == Splice(kept, p, q, c)
  {
    var r := kept[..p] + kept[q..];
    assert r[..p] == kept[..p];
    assert r[p..] == kept[q..];
  }

  /** A candidate that touches its neighbours: the run around it is scanned
      and summed, and either replaced by the candidate or left alone. */
  method Contest(kept: seq<Kept>, lastEnd: int, c: Kept, listIdx: int) returns (kept2: seq<Kept>, lastEnd2: int)
    requires -1 <= listIdx < |kept|
    ensures (kept2, lastEnd2) ==
      Replace(kept, lastEnd, c, ScanDown(kept, listIdx, c.start), ScanUp(kept, listIdx + 1, c.end))
  {
    var minidx, alt := ScanBelow(kept, listIdx, c.start);
    var maxidx;
    maxidx, alt := ScanAbove(kept, minidx, listIdx, c.end, alt);
    if c.score > alt {
      var r := DeleteRun(kept, minidx, maxidx);
      DeleteInsert(kept, minidx, maxidx + 1, c);
      kept2 := r[..minidx] + [c] + r[minidx..];
      lastEnd2 := if c.end > lastEnd then c.end else lastEnd;
    } else {
      kept2, lastEnd2 := kept, lastEnd;
    }
  }

  /** One candidate against the kept list (the body of the main loop). */
  method Place(kept: seq<Kept>, lastEnd: int, c: Kept) returns (kept2: seq<Kept>, lastEnd2: int)
    ensures (kept2, lastEnd2) == OverlapStep(kept, lastEnd, c)
  {
    if c.start > lastEnd {
      return kept + [c], c.end;
    }
    var listIdx := LastAtMost(kept, c.start);
    var prevEnd := if listIdx >= 0 then kept[listIdx].end else -1;
    var nextStart := if listIdx + 1 < |kept| then kept[listIdx + 1].start else INFTY;
    if prevEnd >= c.start || nextStart <= c.end {
      kept2, lastEnd2 := Contest(kept, lastEnd, c, listIdx);
    } else {
      kept2 := kept[..listIdx + 1] + [c] + kept[listIdx + 1..];
      lastEnd2 := if c.end > lastEnd then c.end else lastEnd;
    }
  }

  /** Removes overlapping groups (gff_remove_overlaps): the grouping keeps
      only the groups of Resolve, in start order, and the feature list
      becomes their members in that order.  Requires a grouped set, as the
      source does. */
  method RemoveOverlaps(gff: FeatureSet)
    requires gff.Valid() && gff.grouping.Some?
    modifies gff
    ensures gff.Valid()
    ensures gff.header == old(gff.header) && gff.arena == old(gff.arena)
    ensures var kgs := KeptGroups(Resolve(gff.arena, old(gff.grouping).value.groups).0);
      gff.grouping == Some(old(gff.grouping).value.(groups := kgs)) &&
      gff.features == AllMembers(kgs)
  {
    var arena := gff.arena;
    var grouping := gff.grouping.value;
    var kept := ResolveGroups(arena, grouping.groups);
    var kgs := KeptGroups(kept);
    ResolveInArena(arena, grouping.groups);
    var feats := ConcatMembers(kgs);
    AllMembersInArena(kgs, |arena|);
    gff.grouping := Some(grouping.(groups := kgs));
    gff.features := feats;
  }

  /** The main loop of gff_remove_overlaps over the groups in order. */
  method ResolveGroups(arena: seq<Feature>, gs: seq<Group>) returns (kept: seq<Kept>)
    requires GroupsInArena(gs, |arena|)
    ensures kept == Resolve(arena, gs).0
  {
    kept := [];
    var lastEnd := -1;
    var i := 0;
    while i < |gs|
      invariant 0 <= i <= |gs|
      invariant (kept, lastEnd) == Resolve(arena, gs[..i])
      decreases |gs| - i
    {
      assert gs[..i + 1][..i] == gs[..i];
      var g := gs[i];
      var score := ScoreOf(arena, g);
      kept, lastEnd := Place(kept, lastEnd, Kept(g.start, g.end, score, g));
      i := i + 1;
    }
    assert gs[..|gs|] == gs;
  }
}
