/** A single annotation record of the feature engine (src/lib/feature/gff.c):
    its fields, the per-line validation that turns the tab-separated columns
    of a record into a feature, the conversion between the frame written in a
    file and the frame stored in memory, and the (start, end) comparator. */
module GffFeature {
  import opened Util
  import opened Sorting

  /** Frame value meaning "no frame". */
  const NULL_FRAME: int := -1
  /** Number of columns a record must have. */
  const MIN_NCOLS: nat := 5
  /** The "infinity" coordinate used as an initial minimum. */
  const INFTY: int := 999999999

  /** Feature type names the engine treats specially. */
  const CDS_TYPE: string := "CDS"
  const EXON_TYPE: string := "exon"
  const START_TYPE: string := "start_codon"
  const STOP_TYPE: string := "stop_codon"
  const UTR5_TYPE: string := "5'UTR"
  const UTR3_TYPE: string := "3'UTR"
  const INTRON_TYPE: string := "intron"
  const SPLICE5_TYPE: string := "5'splice"
  const SPLICE3_TYPE: string := "3'splice"

  /** The strand column: '+', '-' or '.'. */
  datatype Strand = Plus | Minus | Unstranded

  function StrandChar(s: Strand): char {
    match s
    case Plus => '+'
    case Minus => '-'
    case Unstranded => '.'
  }

  /** A feature.  `frame` holds the in-memory representation (see
      ConvertFrame) or NULL_FRAME; `score` is meaningful only when
      `scoreIsNull` is false.  Scores are exact reals; the C `double` and its
      rounding are not modelled. */
  datatype Feature = Feature(
    seqname: string,
    source: string,
    feature: string,
    start: int,
    end: int,
    score: real,
    strand: Strand,
    frame: int,
    attribute: string,
    scoreIsNull: bool)

  /** What the feature constructor insists on (src/lib/feature/gff.c:212-215):
      the strand is one of the three characters (guaranteed by Strand) and the
      frame is null or in 0..2. */
  predicate ValidFrame(frame: int) {
    frame == NULL_FRAME || 0 <= frame <= 2
  }

  predicate ValidFeature(f: Feature) {
    ValidFrame(f.frame)
  }

  /** C's `%` on int, which truncates toward zero (the remainder takes the
      sign of the dividend). */
  function CMod(a: int, b: int): (r: int)
    requires b > 0
    ensures a >= 0 ==> 0 <= r < b
    ensures a < 0 ==> -b < r <= 0
  {
    if a >= 0 then a % b else -((-a) % b)
  }

  /** The frame conversion applied when a record is read and again when it is
      printed. */
  function ConvertFrame(f: int): int {
    CMod(3 - f, 3)
  }

  /** Converting twice gives back any frame in 0..2, and the conversion keeps
      that range. */
  lemma FrameInvolution(f: int)
    requires 0 <= f <= 2
    ensures 0 <= ConvertFrame(f) <= 2
    ensures ConvertFrame(ConvertFrame(f)) == f
  {
    if f == 0 {
      assert ConvertFrame(f) == 0;
    } else {
      assert ConvertFrame(f) == 3 - f;
    }
  }

  /** The frame column a feature is printed with (None stands for "."). */
  function PrintedFrame(f: Feature): Option<int> {
    if f.frame == NULL_FRAME then None else Some(ConvertFrame(f.frame))
  }

  datatype ParseError = TooFewColumns | BadStart | BadEnd | BadScore | BadStrand | BadFrame

  datatype ParseResult = Parsed(feat: Feature) | Failed(error: ParseError)

  function StrandOf(c: char): Option<Strand> {
    if c == '+' then Some(Plus)
    else if c == '-' then Some(Minus)
    else if c == '.' then Some(Unstranded)
    else None
  }

  /** The per-record part of reading a file: `cols` are the tab-separated
      columns of one line; `parseInt` and `parseReal` stand for the string
      library's numeric conversions (None: the text is not a number).  The
      checks come in the order the reader makes them, and the first failing
      one names the error.  A null score is stored as 0.0. */
  function ParseRecord(cols: seq<string>, parseInt: string -> Option<int>,
                       parseReal: string -> Option<real>): ParseResult
  {
    if |cols| < MIN_NCOLS then Failed(TooFewColumns)
    else if parseInt(cols[3]).None? then Failed(BadStart)
    else if parseInt(cols[4]).None? then Failed(BadEnd)
    else if |cols| > 5 && cols[5] != "." && parseReal(cols[5]).None? then Failed(BadScore)
    else if |cols| > 6 && (|cols[6]| != 1 || StrandOf(cols[6][0]).None?) then Failed(BadStrand)
    else if |cols| > 7 && cols[7] != "." &&
            (parseInt(cols[7]).None? || parseInt(cols[7]).value < 0 || parseInt(cols[7]).value > 2)
    then Failed(BadFrame)
    else
      var scoreIsNull := !(|cols| > 5 && cols[5] != ".");
      var score := if scoreIsNull then 0.0 else parseReal(cols[5]).value;
      var strand := if |cols| > 6 then StrandOf(cols[6][0]).value else Unstranded;
      var frame := if |cols| > 7 && cols[7] != "." then ConvertFrame(parseInt(cols[7]).value)
                   else NULL_FRAME;
      var attr := if |cols| > 8 then cols[8] else "";
      Parsed(Feature(cols[0], cols[1], cols[2], parseInt(cols[3]).value, parseInt(cols[4]).value,
                     score, strand, frame, attr, scoreIsNull))
  }

  /** Column-by-column conditions for a record to be accepted. */
  predicate StartOk(cols: seq<string>, parseInt: string -> Option<int>)
    requires |cols| >= MIN_NCOLS
  {
    parseInt(cols[3]).Some? && parseInt(cols[4]).Some?
  }

  predicate ScoreOk(cols: seq<string>, parseReal: string -> Option<real>) {
    |cols| <= 5 || cols[5] == "." || parseReal(cols[5]).Some?
  }

  predicate StrandOk(cols: seq<string>) {
    |cols| <= 6 || cols[6] == "+" || cols[6] == "-" || cols[6] == "."
  }

  predicate FrameOk(cols: seq<string>, parseInt: string -> Option<int>) {
    |cols| <= 7 || cols[7] == "." ||
    (parseInt(cols[7]).Some? && 0 <= parseInt(cols[7]).value <= 2)
  }

  /** A record is accepted exactly when it has enough columns and every
      column meets its condition. */
  lemma ParseRecordAccepts(cols: seq<string>, parseInt: string -> Option<int>,
                           parseReal: string -> Option<real>)
    ensures ParseRecord(cols, parseInt, parseReal).Parsed? <==>
            |cols| >= MIN_NCOLS && StartOk(cols, parseInt) && ScoreOk(cols, parseReal) &&
            StrandOk(cols) && FrameOk(cols, parseInt)
  {
    if |cols| > 6 {
      var c := cols[6];
      if |c| == 1 {
        assert c == [c[0]];
        assert StrandOf(c[0]).Some? <==> c == "+" || c == "-" || c == ".";
      } else {
        assert c != "+" && c != "-" && c != ".";
      }
    }
  }

  /** An accepted record yields a feature the constructor accepts, with the
      mandatory columns copied and the defaults for missing optional columns:
      null score, strand '.', null frame, empty attribute. */
  lemma ParseRecordFeature(cols: seq<string>, parseInt: string -> Option<int>,
                           parseReal: string -> Option<real>)
    requires ParseRecord(cols, parseInt, parseReal).Parsed?
    ensures var f := ParseRecord(cols, parseInt, parseReal).feat;
      ValidFeature(f) &&
      f.seqname == cols[0] && f.source == cols[1] && f.feature == cols[2] &&
      Some(f.start) == parseInt(cols[3]) && Some(f.end) == parseInt(cols[4]) &&
      (f.scoreIsNull <==> |cols| <= 5 || cols[5] == ".") &&
      (!f.scoreIsNull ==> Some(f.score) == parseReal(cols[5])) &&
      (|cols| <= 6 ==> f.strand == Unstranded) &&
      (|cols| > 6 ==> cols[6] == [StrandChar(f.strand)]) &&
      (f.attribute == if |cols| > 8 then cols[8] else "")
  {
    var f := ParseRecord(cols, parseInt, parseReal).feat;
    if |cols| > 7 && cols[7] != "." {
      FrameInvolution(parseInt(cols[7]).value);
    }
    if |cols| > 6 {
      var c := cols[6];
      assert |c| == 1;
      assert c == [c[0]];
    }
  }

  /** Reading a record and printing the frame of the resulting feature gives
      back the frame column: the written number when there was one, "." when
      the column was "." or absent. */
  lemma FrameRoundTrip(cols: seq<string>, parseInt: string -> Option<int>,
                       parseReal: string -> Option<real>)
    requires ParseRecord(cols, parseInt, parseReal).Parsed?
    ensures var f := ParseRecord(cols, parseInt, parseReal).feat;
      if |cols| > 7 && cols[7] != "." then PrintedFrame(f) == parseInt(cols[7])
      else PrintedFrame(f) == None
  {
    if |cols| > 7 && cols[7] != "." {
      FrameInvolution(parseInt(cols[7]).value);
    }
  }

  /** The (start, end) key features are ordered by. */
  function FeatureKey(f: Feature): (int, int) {
    (f.start, f.end)
  }

  /** The feature comparator (src/lib/feature/gff.c:563-573): negative, zero or
      positive as `a` sorts before, level with or after `b`. */
  function FeatureCompare(a: Feature, b: Feature): int {
    if a.start != b.start then a.start - b.start else a.end - b.end
  }

  /** The comparator's sign is the lexicographic order on (start, end), and it
      is antisymmetric. */
  lemma FeatureCompareOrder(a: Feature, b: Feature)
    ensures FeatureCompare(a, b) <= 0 <==> KeyLe(FeatureKey(a), FeatureKey(b))
    ensures FeatureCompare(a, b) == 0 <==> FeatureKey(a) == FeatureKey(b)
    ensures FeatureCompare(a, b) == -FeatureCompare(b, a)
  {
  }
}
