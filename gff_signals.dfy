/** Creation of signal features in a grouped set (gff_create_signals,
    src/lib/feature/gff.c:1163-1256): start and stop codons at the ends of
    each group's coding region and splice sites beside the coding and UTR
    members.  The codons are cut out of the CDS members they overlap, so
    those members are shortened in place. */
module GffSignals {
  import opened Util
  import opened GffFeature
  import opened GffSet
  import opened GffCreate

  // ---------------------------------------------------------------------
  // The first scan: CDS and transcript bounds and the strand
  // ---------------------------------------------------------------------

  predicate IsTranscriptPart(f: Feature) {
    f.feature == CDS_TYPE || f.feature == UTR5_TYPE || f.feature == UTR3_TYPE
  }

  /** The smallest start of a CDS or UTR among the first n members, INFTY
      if none. */
  function TransStart(fs: seq<Feature>, n: nat): int
    requires n <= |fs|
    decreases n
  {
    if n == 0 then INFTY
    else if IsTranscriptPart(fs[n - 1]) && fs[n - 1].start < TransStart(fs, n - 1) then fs[n - 1].start
    else TransStart(fs, n - 1)
  }

  /** The largest end of a CDS or UTR among the first n members, -1 if
      none. */
  function TransEnd(fs: seq<Feature>, n: nat): int
    requires n <= |fs|
    decreases n
  {
    if n == 0 then -1
    else if IsTranscriptPart(fs[n - 1]) && fs[n - 1].end > TransEnd(fs, n - 1) then fs[n - 1].end
    else TransEnd(fs, n - 1)
  }

  /** The transcript bounds bound every CDS and UTR member, and are INFTY
      and -1 exactly when there is none. */
  lemma {:induction false} TransBounds(fs: seq<Feature>, n: nat)
    requires n <= |fs|
    ensures forall k :: 0 <= k < n && IsTranscriptPart(fs[k]) ==>
              TransStart(fs, n) <= fs[k].start && fs[k].end <= TransEnd(fs, n)
    ensures (forall k :: 0 <= k < n ==> !IsTranscriptPart(fs[k])) ==>
              TransStart(fs, n) == INFTY && TransEnd(fs, n) == -1
    decreases n
  {
    if n > 0 {
      TransBounds(fs, n - 1);
    }
  }

  /** What the first scan of a group finds: the CDS span [cs, ce], the
      transcript span [ts, te] and whether the group is on the minus
      strand. */
  datatype Context = Context(cs: int, ce: int, ts: int, te: int, minus: bool)

  function ContextOf(fs: seq<Feature>): Context {
    Context(CdsStart(fs, |fs|), CdsEnd(fs, |fs|), TransStart(fs, |fs|), TransEnd(fs, |fs|),
            FirstStrand(fs) == Some(Minus))
  }

  /** The coding region lies within the transcript: every bound of the CDS
      span is also a bound of the transcript span. */
  lemma {:induction false} CdsWithinTranscript(fs: seq<Feature>, n: nat)
    requires n <= |fs|
    ensures TransStart(fs, n) <= CdsStart(fs, n) && CdsEnd(fs, n) <= TransEnd(fs, n)
    decreases n
  {
    if n > 0 {
      CdsWithinTranscript(fs, n - 1);
    }
  }

  /** The first scan of gff_create_signals over one group's member values. */
  method ScanContext(fs: seq<Feature>) returns (c: Context)
    ensures c == ContextOf(fs)
  {
    var cs, ce, ts, te := INFTY, -1, INFTY, -1;
    var strand: Option<Strand> := None;
    var j := 0;
    while j < |fs|
      invariant 0 <= j <= |fs|
      invariant cs == CdsStart(fs, j) && ce == CdsEnd(fs, j)
      invariant ts == TransStart(fs, j) && te == TransEnd(fs, j)
      invariant strand == if j == 0 then None else FirstStrand(fs)
      decreases |fs| - j
    {
      var f := fs[j];
      if f.feature == CDS_TYPE {
        if f.start < cs {
          cs := f.start;
        }
        if f.end > ce {
          ce := f.end;
        }
      }
      if f.feature == CDS_TYPE || f.feature == UTR5_TYPE || f.feature == UTR3_TYPE {
        if f.start < ts {
          ts := f.start;
        }
        if f.end > te {
          te := f.end;
        }
      }
      if strand.None? {
        strand := Some(f.strand);
      }
      j := j + 1;
    }
    c := Context(cs, ce, ts, te, strand == Some(Minus));
  }

  // ---------------------------------------------------------------------
  // The signals of one member
  // ---------------------------------------------------------------------

  predicate IsSignal(f: Feature) {
    f.feature == START_TYPE || f.feature == STOP_TYPE || f.feature == SPLICE5_TYPE || f.feature == SPLICE3_TYPE
  }

  predicate IsCodon(f: Feature) {
    f.feature == START_TYPE || f.feature == STOP_TYPE
  }

  /** A member as the body of the second loop leaves it, and the new
      objects it creates from it, in creation order. */
  datatype Signals = Signals(f: Feature, news: seq<Feature>)

  /** The frame given to the codon cut from the CDS g leaves behind. */
  function CodonFrame(g: Feature): int {
    CMod(g.frame + g.end - g.start + 1, 3)
  }

  /** The codon at the start of the coding region: a start codon on the
      plus strand, a stop codon on the minus strand, where the CDS loses its
      first three bases. */
  function HeadCodon(f: Feature, c: Context): Signals {
    if f.start != c.cs then Signals(f, [])
    else if c.minus then
      var g := f.(start := f.start + 3);
      Signals(g, [f.(end := f.start + 2, feature := STOP_TYPE, frame := CodonFrame(g))])
    else Signals(f, [f.(end := f.start + 2, feature := START_TYPE)])
  }

  /** The codon at the end of the coding region: a start codon on the minus
      strand, a stop codon on the plus strand, where the CDS loses its last
      three bases. */
  function TailCodon(s: Signals, c: Context): Signals {
    var f := s.f;
    if f.end != c.ce then s
    else if c.minus then Signals(f, s.news + [f.(start := f.end - 2, feature := START_TYPE)])
    else
      var g := f.(end := f.end - 3);
      Signals(g, s.news + [f.(start := f.end - 2, feature := STOP_TYPE, frame := CodonFrame(g))])
  }

  /** The codons of a CDS member at least three bases long. */
  function Codons(f: Feature, c: Context): Signals {
    if f.feature == CDS_TYPE && f.end - f.start + 1 >= 3 then TailCodon(HeadCodon(f, c), c)
    else Signals(f, [])
  }

  /** A CDS that does not begin the coding region, or a UTR that neither
      begins the transcript nor follows the coding region, has a splice site
      before it. */
  predicate SpliceBefore(f: Feature, c: Context) {
    (f.feature == CDS_TYPE && f.start != c.cs && f.start != c.cs + 3) ||
    ((f.feature == UTR5_TYPE || f.feature == UTR3_TYPE) && f.start != c.ts && f.start != c.ce + 1)
  }

  /** A CDS that does not end the coding region, or a UTR that neither
      precedes the coding region nor ends the transcript, has a splice site
      after it. */
  predicate SpliceAfter(f: Feature, c: Context) {
    (f.feature == CDS_TYPE && f.end != c.ce && f.end != c.ce - 3) ||
    ((f.feature == UTR5_TYPE || f.feature == UTR3_TYPE) && f.end != c.cs - 1 && f.end != c.te)
  }

  /** The two bases before f: a 3' splice site, or a 5' one on the minus
      strand. */
  function BeforeSite(f: Feature, minus: bool): Feature {
    f.(start := f.start - 2, end := f.start - 1, feature := if minus then SPLICE5_TYPE else SPLICE3_TYPE)
  }

  /** The two bases after f: a 5' splice site, or a 3' one on the minus
      strand. */
  function AfterSite(f: Feature, minus: bool): Feature {
    f.(start := f.end + 1, end := f.end + 2, feature := if minus then SPLICE3_TYPE else SPLICE5_TYPE)
  }

  function WithBefore(s: Signals, c: Context): Signals {
    if SpliceBefore(s.f, c) then Signals(s.f, s.news + [BeforeSite(s.f, c.minus)]) else s
  }

  function WithAfter(s: Signals, c: Context): Signals {
    if SpliceAfter(s.f, c) then Signals(s.f, s.news + [AfterSite(s.f, c.minus)]) else s
  }

  /** The body of the second loop of gff_create_signals for one member. */
  function MemberSignals(f: Feature, c: Context): Signals {
    WithAfter(WithBefore(Codons(f, c), c), c)
  }

  /** The new object is a copy of f with a new span, type and frame. */
  predicate CopyOf(n: Feature, f: Feature) {
    n == f.(start := n.start, end := n.end, feature := n.feature, frame := n.frame)
  }

  /** Every object created is a signal copied from the member: a codon of
      three bases or a splice site of two. */
  predicate GoodNews(news: seq<Feature>, f: Feature) {
    forall k :: 0 <= k < |news| ==>
      IsSignal(news[k]) && CopyOf(news[k], f) &&
      news[k].end - news[k].start == (if IsCodon(news[k]) then 2 else 1)
  }

  lemma GoodNewsSnoc(news: seq<Feature>, n: Feature, f: Feature)
    requires GoodNews(news, f) && IsSignal(n) && CopyOf(n, f)
    requires n.end - n.start == (if IsCodon(n) then 2 else 1)
    ensures GoodNews(news + [n], f)
  {
    forall k | 0 <= k < |news| + 1
      ensures (news + [n])[k] == if k < |news| then news[k] else n
    {
    }
  }

  /** Only the span of the member changes, and only a CDS's. */
  predicate Trimmed(a: Feature, b: Feature) {
    b == a.(start := b.start, end := b.end) && (a.feature != CDS_TYPE ==> b == a)
  }

  lemma TrimmedTrans(a: Feature, b: Feature, d: Feature)
    requires Trimmed(a, b) && Trimmed(b, d)
    ensures Trimmed(a, d)
  {
  }

  /** The codons are three-base copies of the CDS, which loses at most three
      bases at each end. */
  lemma CodonsShape(f: Feature, c: Context)
    ensures var r := Codons(f, c);
      Trimmed(f, r.f) && GoodNews(r.news, f) && |r.news| <= 2 &&
      (r.f.start == f.start || r.f.start == f.start + 3) && r.f.end <= f.end
  {
    var h := HeadCodon(f, c);
    assert GoodNews(h.news, f);
    var t := TailCodon(h, c);
    if f.feature == CDS_TYPE && f.end - f.start + 1 >= 3 && t != h {
      GoodNewsSnoc(h.news, t.news[|t.news| - 1], f);
      assert t.news == h.news + [t.news[|t.news| - 1]];
    }
  }

  /** What the body of the second loop does to one member: it only trims a
      CDS, by three bases at the start (minus strand) or at the end (plus
      strand), and every object it creates is a signal copied from the
      member, at most four of them. */
  lemma MemberSignalsShape(f: Feature, c: Context)
    ensures var r := MemberSignals(f, c);
      Trimmed(f, r.f) && GoodNews(r.news, f) && |r.news| <= 4 &&
      (r.f.start == f.start || r.f.start == f.start + 3) &&
      (r.f.end == f.end || r.f.end == f.end - 3)
  {
    CodonsShape(f, c);
    var s := Codons(f, c);
    var b := WithBefore(s, c);
    if b != s {
      GoodNewsSnoc(s.news, BeforeSite(s.f, c.minus), f);
    }
    var a := WithAfter(b, c);
    if a != b {
      GoodNewsSnoc(b.news, AfterSite(b.f, c.minus), f);
    }
  }

  /** Exactly the CDS members of at least three bases that begin or end the
      coding region get codons; the CDS loses its first three bases exactly
      when it begins the region on the minus strand, and its last three
      exactly when it ends the region on the plus strand. */
  lemma CodonsWhen(f: Feature, c: Context)
    ensures var r := Codons(f, c);
      var long := f.feature == CDS_TYPE && f.end - f.start + 1 >= 3;
      (|r.news| > 0 <==> long && (f.start == c.cs || f.end == c.ce)) &&
      (|r.news| == 2 <==> long && f.start == c.cs && f.end == c.ce) &&
      (r.f.start == f.start + 3 <==> long && c.minus && f.start == c.cs) &&
      (r.f.end == f.end - 3 <==> long && !c.minus && f.end == c.ce)
  {
  }

  /** The signal objects themselves get nothing, so visiting the members
      the loop has just appended to the group changes nothing. */
  lemma SignalInert(f: Feature, c: Context)
    requires IsSignal(f)
    ensures MemberSignals(f, c) == Signals(f, [])
  {
  }

  /** A lone plus-strand CDS [10, 100] in frame 0 gets a start codon
      [10, 12] and a stop codon [98, 100] in frame 1, and is cut back to
      [10, 97]; it has no splice sites. */
  lemma PlusScenario(f: Feature)
    requires f.feature == CDS_TYPE && f.start == 10 && f.end == 100 && f.frame == 0
    ensures MemberSignals(f, Context(10, 100, 10, 100, false)) ==
            Signals(f.(end := 97),
                    [f.(end := 12, feature := START_TYPE),
                     f.(start := 98, feature := STOP_TYPE, frame := 1)])
  {
  }

  /** The same CDS on the minus strand gets a stop codon [10, 12] in frame 1
      and a start codon [98, 100], and is cut to [13, 100]. */
  lemma MinusScenario(f: Feature)
    requires f.feature == CDS_TYPE && f.start == 10 && f.end == 100 && f.frame == 0
    ensures MemberSignals(f, Context(10, 100, 10, 100, true)) ==
            Signals(f.(start := 13),
                    [f.(end := 12, feature := STOP_TYPE, frame := 1),
                     f.(start := 98, feature := START_TYPE)])
  {
  }

  /** Of two plus-strand CDS exons [10, 50] and [100, 200], the first gets
      the start codon and a 5' splice site [51, 52] after it, the second a
      3' splice site [98, 99] before it and the stop codon. */
  lemma SpliceScenario(f1: Feature, f2: Feature)
    requires f1.feature == CDS_TYPE && f1.start == 10 && f1.end == 50
    requires f2.feature == CDS_TYPE && f2.start == 100 && f2.end == 200 && f2.frame == 0
    ensures var c := Context(10, 200, 10, 200, false);
      MemberSignals(f1, c) ==
        Signals(f1, [f1.(end := 12, feature := START_TYPE),
                     f1.(start := 51, end := 52, feature := SPLICE5_TYPE)]) &&
      MemberSignals(f2, c) ==
        Signals(f2.(end := 197), [f2.(start := 198, feature := STOP_TYPE, frame := 2),
                                   f2.(start := 98, end := 99, feature := SPLICE3_TYPE)])
  {
  }

  /** The codon part of the body of the second loop of gff_create_signals,
      as the source writes it. */
  method CodonsOfMember(f0: Feature, c: Context) returns (f: Feature, news: seq<Feature>)
    ensures Signals(f, news) == Codons(f0, c)
  {
    f, news := f0, [];
    if f.feature == CDS_TYPE && f.end - f.start + 1 >= 3 {
      if f.start == c.cs {
        var n := f.(end := f.start + 2);
        if c.minus {
          n := n.(feature := STOP_TYPE);
          f := f.(start := f.start + 3);
          n := n.(frame := CMod(f.frame + f.end - f.start + 1, 3));
        } else {
          n := n.(feature := START_TYPE);
        }
        news := [n];
      }
      assert Signals(f, news) == HeadCodon(f0, c);
      if f.end == c.ce {
        var n := f.(start := f.end - 2);
        if c.minus {
          n := n.(feature := START_TYPE);
        } else {
          n := n.(feature := STOP_TYPE);
          f := f.(end := f.end - 3);
          n := n.(frame := CMod(f.frame + f.end - f.start + 1, 3));
        }
        news := news + [n];
      }
    }
  }

  /** The body of the second loop of gff_create_signals on one member's
      value, as the source writes it. */
  method SignalsOfMember(f0: Feature, c: Context) returns (f: Feature, news: seq<Feature>)
    ensures Signals(f, news) == MemberSignals(f0, c)
  {
    f, news := CodonsOfMember(f0, c);
    news := SiteBefore(f, news, c);
    news := SiteAfter(f, news, c);
  }

  /** The splice site in front of a member, when there is one. */
  method SiteBefore(f: Feature, news: seq<Feature>, c: Context) returns (news': seq<Feature>)
    ensures Signals(f, news') == WithBefore(Signals(f, news), c)
  {
    news' := news;
    if (f.feature == CDS_TYPE && f.start != c.cs && f.start != c.cs + 3) ||
       ((f.feature == UTR5_TYPE || f.feature == UTR3_TYPE) && f.start != c.ts && f.start != c.ce + 1) {
      var n := f.(end := f.start - 1);
      n := n.(start := n.end - 1, feature := if c.minus then SPLICE5_TYPE else SPLICE3_TYPE);
      news' := news + [n];
    }
  }

  /** The splice site behind a member, when there is one. */
  method SiteAfter(f: Feature, news: seq<Feature>, c: Context) returns (news': seq<Feature>)
    ensures Signals(f, news') == WithAfter(Signals(f, news), c)
  {
    news' := news;
    if (f.feature == CDS_TYPE && f.end != c.ce && f.end != c.ce - 3) ||
       ((f.feature == UTR5_TYPE || f.feature == UTR3_TYPE) && f.end != c.cs - 1 && f.end != c.te) {
      var n := f.(start := f.end + 1);
      n := n.(end := n.start + 1, feature := if c.minus then SPLICE3_TYPE else SPLICE5_TYPE);
      news' := news + [n];
    }
  }

  // ---------------------------------------------------------------------
  // The set-level effect
  // ---------------------------------------------------------------------

  /** The member at arena index x of group i rewritten in place, and its
      new objects pushed onto the set and the group. */
  function SignalAt(s: SetState, i: nat, x: nat, c: Context): (r: SetState)
    requires i < |s.groups|
    ensures |r.groups| == |s.groups|
  {
    if x < |s.arena| then
      var sig := MemberSignals(s.arena[x], c);
      PushAll(s.(arena := s.arena[x := sig.f]), i, sig.news)
    else s
  }

  /** The members ms of group i visited in order. */
  function SignalsOver(s: SetState, i: nat, ms: seq<nat>, c: Context): (r: SetState)
    requires i < |s.groups|
    ensures |r.groups| == |s.groups|
    decreases |ms|
  {
    if |ms| == 0 then s else SignalAt(SignalsOver(s, i, ms[..|ms| - 1], c), i, ms[|ms| - 1], c)
  }

  /** Group i: the first scan over its members' current values, then the
      second loop over its members. */
  function GroupSignals(s: SetState, i: nat): (r: SetState)
    requires i < |s.groups|
    ensures |r.groups| == |s.groups|
  {
    SignalsOver(s, i, s.groups[i].members, ContextOf(Values(s.arena, s.groups[i].members)))
  }

  /** The first n groups in order. */
  function SignalsGroups(st: SetState, n: nat): (r: SetState)
    requires n <= |st.groups|
    ensures |r.groups| == |st.groups|
    decreases n
  {
    if n == 0 then st else GroupSignals(SignalsGroups(st, n - 1), n - 1)
  }

  /** How a state relates to an earlier one: existing objects have at most
      had a CDS span trimmed, every new object is a signal, the set's list
      has gained exactly the new objects, and every group has kept its name,
      span and members, with new members behind them. */
  predicate Grown(s: SetState, r: SetState) {
    |s.arena| <= |r.arena| &&
    (forall y :: 0 <= y < |s.arena| ==> Trimmed(s.arena[y], r.arena[y])) &&
    (forall y :: |s.arena| <= y < |r.arena| ==> IsSignal(r.arena[y])) &&
    r.features == s.features + Range(|s.arena|, |r.arena|) &&
    |r.groups| == |s.groups| &&
    (forall g :: 0 <= g < |s.groups| ==> GroupGrown(s.groups[g], r.groups[g], |s.arena|, |r.arena|))
  }

  /** Group h is g with new members behind the old ones, each a new object
      with an index in [lo, hi). */
  predicate GroupGrown(g: Group, h: Group, lo: nat, hi: nat) {
    Extends(g, h) && forall k :: |g.members| <= k < |h.members| ==> lo <= h.members[k] < hi
  }

  lemma GroupGrownRefl(g: Group, lo: nat, hi: nat)
    ensures GroupGrown(g, g, lo, hi)
  {
    assert g.members[..|g.members|] == g.members;
  }

  lemma GroupGrownTrans(g: Group, h: Group, k: Group, a: nat, b: nat, c: nat)
    requires a <= b <= c && GroupGrown(g, h, a, b) && GroupGrown(h, k, b, c)
    ensures GroupGrown(g, k, a, c)
  {
    ExtendsTrans(g, h, k);
    forall p | |g.members| <= p < |k.members|
      ensures a <= k.members[p] < c
    {
      if p < |h.members| {
        assert k.members[p] == k.members[..|h.members|][p];
      }
    }
  }

  lemma GrownRefl(s: SetState)
    ensures Grown(s, s)
  {
    assert s.features + Range(|s.arena|, |s.arena|) == s.features;
    forall g | 0 <= g < |s.groups|
      ensures GroupGrown(s.groups[g], s.groups[g], |s.arena|, |s.arena|)
    {
      GroupGrownRefl(s.groups[g], |s.arena|, |s.arena|);
    }
  }

  lemma GrownTrans(s: SetState, r: SetState, t: SetState)
    requires Grown(s, r) && Grown(r, t)
    ensures Grown(s, t)
  {
    forall y | 0 <= y < |s.arena|
      ensures Trimmed(s.arena[y], t.arena[y])
    {
      TrimmedTrans(s.arena[y], r.arena[y], t.arena[y]);
    }
    forall y | |s.arena| <= y < |t.arena|
      ensures IsSignal(t.arena[y])
    {
      if y < |r.arena| {
        assert Trimmed(r.arena[y], t.arena[y]);
      }
    }
    RangeSplit(|s.arena|, |r.arena|, |t.arena|);
    assert t.features == s.features + Range(|s.arena|, |r.arena|) + Range(|r.arena|, |t.arena|);
    forall g | 0 <= g < |s.groups|
      ensures GroupGrown(s.groups[g], t.groups[g], |s.arena|, |t.arena|)
    {
      GroupGrownTrans(s.groups[g], r.groups[g], t.groups[g], |s.arena|, |r.arena|, |t.arena|);
    }
  }

  /** Rewriting one member in place: only that object is trimmed. */
  lemma RewriteGrown(s: SetState, x: nat, c: Context)
    requires x < |s.arena|
    ensures var sig := MemberSignals(s.arena[x], c);
      Grown(s, s.(arena := s.arena[x := sig.f]))
  {
    MemberSignalsShape(s.arena[x], c);
    var p := s.(arena := s.arena[x := MemberSignals(s.arena[x], c).f]);
    forall y | 0 <= y < |s.arena|
      ensures Trimmed(s.arena[y], p.arena[y])
    {
    }
    GrownRefl(s);
  }

  /** Pushing signal copies: the new objects are signals, nothing else is
      touched. */
  lemma PushSignalsGrown(s: SetState, i: nat, news: seq<Feature>, f: Feature)
    requires i < |s.groups| && GoodNews(news, f)
    ensures Grown(s, PushAll(s, i, news))
  {
    PushAllShape(s, i, news);
    var r := PushAll(s, i, news);
    var ms := s.groups[i].members;
    forall y | |s.arena| <= y < |r.arena|
      ensures IsSignal(r.arena[y])
    {
      assert r.arena[y] == news[y - |s.arena|];
    }
    forall g | 0 <= g < |s.groups|
      ensures GroupGrown(s.groups[g], r.groups[g], |s.arena|, |r.arena|)
    {
      if g == i {
        assert r.groups[i].members == ms + Range(|s.arena|, |r.arena|);
        assert r.groups[i].members[..|ms|] == ms;
      } else {
        GroupGrownRefl(s.groups[g], |s.arena|, |r.arena|);
      }
    }
  }

  /** One member's step grows the state and leaves every other group
      alone. */
  lemma SignalAtGrown(s: SetState, i: nat, x: nat, c: Context)
    requires i < |s.groups|
    ensures var r := SignalAt(s, i, x, c);
      Grown(s, r) && forall g :: 0 <= g < |s.groups| && g != i ==> r.groups[g] == s.groups[g]
  {
    if x < |s.arena| {
      var sig := MemberSignals(s.arena[x], c);
      var p := s.(arena := s.arena[x := sig.f]);
      RewriteGrown(s, x, c);
      MemberSignalsShape(s.arena[x], c);
      PushSignalsGrown(p, i, sig.news, s.arena[x]);
      GrownTrans(s, p, PushAll(p, i, sig.news));
      PushAllShape(p, i, sig.news);
    } else {
      GrownRefl(s);
    }
  }

  lemma {:induction false} SignalsOverGrown(s: SetState, i: nat, ms: seq<nat>, c: Context)
    requires i < |s.groups|
    ensures var r := SignalsOver(s, i, ms, c);
      Grown(s, r) && forall g :: 0 <= g < |s.groups| && g != i ==> r.groups[g] == s.groups[g]
    decreases |ms|
  {
    if |ms| == 0 {
      GrownRefl(s);
    } else {
      SignalsOverGrown(s, i, ms[..|ms| - 1], c);
      var p := SignalsOver(s, i, ms[..|ms| - 1], c);
      SignalAtGrown(p, i, ms[|ms| - 1], c);
      GrownTrans(s, p, SignalAt(p, i, ms[|ms| - 1], c));
    }
  }

  /** One group's signals grow the state. */
  lemma GroupSignalsGrown(s: SetState, i: nat)
    requires i < |s.groups|
    ensures Grown(s, GroupSignals(s, i))
  {
    var m := s.groups[i].members;
    SignalsOverGrown(s, i, m, ContextOf(Values(s.arena, m)));
  }

  lemma SignalsGroupsStep(st: SetState, n: nat)
    requires 0 < n <= |st.groups|
    ensures Grown(SignalsGroups(st, n - 1), SignalsGroups(st, n))
  {
    GroupSignalsGrown(SignalsGroups(st, n - 1), n - 1);
  }

  /** After any number of groups, the set has only grown: existing objects
      have at most had a CDS span trimmed, the new objects are signals
      appended to the set's list, and every group keeps its members with
      new ones behind them. */
  lemma {:induction false} SignalsGroupsGrown(st: SetState, n: nat)
    requires n <= |st.groups|
    ensures Grown(st, SignalsGroups(st, n))
    decreases n
  {
    if n == 0 {
      GrownRefl(st);
    } else {
      SignalsGroupsGrown(st, n - 1);
      SignalsGroupsChain(st, n);
    }
  }

  lemma SignalsGroupsChain(st: SetState, n: nat)
    requires 0 < n <= |st.groups|
    requires Grown(st, SignalsGroups(st, n - 1))
    ensures Grown(st, SignalsGroups(st, n))
  {
    var a := SignalsGroups(st, n - 1);
    var b := SignalsGroups(st, n);
    SignalsGroupsStep(st, n);
    GrownTrans(st, a, b);
  }

  /** A grown state of a valid one is valid. */
  lemma GrownOk(s: SetState, r: SetState)
    requires StateOk(s) && Grown(s, r)
    ensures StateOk(r)
  {
    forall k | 0 <= k < |r.features|
      ensures r.features[k] < |r.arena|
    {
      if k >= |s.features| {
        assert r.features[k] == Range(|s.arena|, |r.arena|)[k - |s.features|];
      }
    }
    forall g | 0 <= g < |r.groups|
      ensures InArena(r.groups[g].members, |r.arena|)
    {
      assert InArena(s.groups[g].members, |s.arena|);
      assert GroupGrown(s.groups[g], r.groups[g], |s.arena|, |r.arena|);
      forall k | 0 <= k < |r.groups[g].members|
        ensures r.groups[g].members[k] < |r.arena|
      {
        if k < |s.groups[g].members| {
          assert r.groups[g].members[k] == r.groups[g].members[..|s.groups[g].members|][k];
        }
      }
    }
  }

  // ---------------------------------------------------------------------
  // The loops
  // ---------------------------------------------------------------------

  /** Pushing the new objects of one member in creation order. */
  method PushEach(st: SetState, i: nat, fs: seq<Feature>) returns (r: SetState)
    requires i < |st.groups|
    ensures r == PushAll(st, i, fs)
  {
    r := st;
    var k := 0;
    while k < |fs|
      invariant 0 <= k <= |fs| && r == PushAll(st, i, fs[..k])
      decreases |fs| - k
    {
      PushAllSnoc(st, i, fs[..k], fs[k]);
      assert fs[..k + 1] == fs[..k] + [fs[k]];
      r := Push(r, i, fs[k]);
      k := k + 1;
    }
    assert fs[..k] == fs;
  }

  /** The member at arena index x of group i processed: its value rewritten
      in place and its new objects pushed. */
  method SignalStep(s: SetState, i: nat, x: nat, c: Context) returns (r: SetState)
    requires i < |s.groups|
    ensures r == SignalAt(s, i, x, c)
  {
    if x >= |s.arena| {
      return s;
    }
    var f, news := SignalsOfMember(s.arena[x], c);
    r := PushEach(s.(arena := s.arena[x := f]), i, news);
  }

  /** One turn of the second loop of gff_create_signals. */
  method SignalsOverStep(s: SetState, i: nat, ms: seq<nat>, c: Context, j: nat, r: SetState)
    returns (r': SetState)
    requires i < |s.groups| && j < |ms| && r == SignalsOver(s, i, ms[..j], c)
    ensures r' == SignalsOver(s, i, ms[..j + 1], c)
  {
    assert ms[..j + 1][..j] == ms[..j];
    r' := SignalStep(r, i, ms[j], c);
  }

  /** Both loops of gff_create_signals over group i.  The second loop runs
      over the members the group had when it began: the members it appends
      are signals, which the loop body leaves alone (SignalInert). */
  method SignalsForGroup(s: SetState, i: nat) returns (r: SetState)
    requires i < |s.groups|
    ensures r == GroupSignals(s, i)
  {
    var ms := s.groups[i].members;
    var c := ScanContext(Values(s.arena, ms));
    r := s;
    var j := 0;
    while j < |ms|
      invariant 0 <= j <= |ms| && r == SignalsOver(s, i, ms[..j], c)
      decreases |ms| - j
    {
      r := SignalsOverStep(s, i, ms, c, j, r);
      j := j + 1;
    }
    assert ms[..j] == ms;
  }

  /** One turn of the group loop of gff_create_signals: the state after the
      first i groups becomes the state after the first i + 1. */
  method SignalsStep(st: SetState, r: SetState, i: nat) returns (r': SetState)
    requires i < |st.groups| && r == SignalsGroups(st, i)
    ensures r' == SignalsGroups(st, i + 1)
  {
    r' := SignalsForGroup(r, i);
  }

  /** The loop of gff_create_signals over the groups. */
  method AllSignals(st: SetState) returns (r: SetState)
    ensures r == SignalsGroups(st, |st.groups|)
  {
    r := st;
    var i := 0;
    while i < |st.groups|
      invariant 0 <= i <= |st.groups| && r == SignalsGroups(st, i)
      decreases |st.groups| - i
    {
      r := SignalsStep(st, r, i);
      i := i + 1;
    }
  }

  /** gff_create_signals: a grouped set gets the start and stop codons and
      splice sites of every group (an ungrouped set is a fatal error in the
      source, hence the precondition). */
  method CreateSignals(gff: FeatureSet)
    requires gff.Valid() && gff.grouping.Some?
    modifies gff
    ensures gff.Valid() && gff.header == old(gff.header)
    ensures gff.grouping.Some? && gff.grouping.value.tag == old(gff.grouping).value.tag
    ensures var r := SignalsGroups(SetState(old(gff.arena), old(gff.features), old(gff.grouping).value.groups),
                                   |old(gff.grouping).value.groups|);
      gff.arena == r.arena && gff.features == r.features && gff.grouping.value.groups == r.groups
  {
    var st := SetState(gff.arena, gff.features, gff.grouping.value.groups);
    var r := AllSignals(st);
    SignalsGroupsGrown(st, |st.groups|);
    GrownOk(st, r);
    gff.arena := r.arena;
    gff.features := r.features;
    gff.grouping := Some(gff.grouping.value.(groups := r.groups));
  }
}
