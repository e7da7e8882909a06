/** Integer and combinatorial helpers of the base library (src/lib/base/misc.c):
    integer powers, base-|alphabet| tuple encoding and its inverse, the
    universal genetic code table, the lexicographic combination enumerator,
    floor-log2, the exact small cases of n-choose-k, and the transition /
    indel tests on nucleotide characters.  C `int` is modelled by unbounded
    integers (no overflow). */
module Misc {
  import opened Util

  /** x raised to the y-th power (the reference definition). */
  function Pow(x: int, y: nat): int {
    if y == 0 then 1 else x * Pow(x, y - 1)
  }

  lemma {:induction false} PowPositive(x: int, y: nat)
    requires x > 0
    ensures Pow(x, y) > 0
  {
    if y > 0 { PowPositive(x, y - 1); }
  }

  /** int_pow: the loop multiplies y copies of x; a non-positive exponent yields 1. */
  method IntPow(x: int, y: int) returns (r: int)
    ensures y <= 0 ==> r == 1
    ensures y > 0 ==> r == Pow(x, y)
  {
    r := 1;
    var i := 0;
    while i < y
      invariant 0 <= i <= (if y < 0 then 0 else y)
      invariant r == Pow(x, i)
    {
      r := r * x;
      i := i + 1;
    }
  }

  // ---------------------------------------------------------------------
  // Tuple encoding
  // ---------------------------------------------------------------------

  /** The inverse-alphabet entry of c; a character beyond the table counts as unknown. */
  function Digit(inv: seq<int>, c: char): int {
    if (c as int) < |inv| then inv[c as int] else -1
  }

  /** Every character of t indexes the inverse alphabet (tuple_index reads inv_alph[c]). */
  predicate Indexable(t: seq<char>, inv: seq<int>) {
    forall i | 0 <= i < |t| :: (t[i] as int) < |inv|
  }

  /** No character of t has a negative inverse-alphabet entry. */
  predicate AllKnown(t: seq<char>, inv: seq<int>) {
    forall i | 0 <= i < |t| :: Digit(inv, t[i]) >= 0
  }

  /** The digits of t read as a base-a number, left-most digit most significant. */
  function TupleValue(t: seq<char>, inv: seq<int>, a: int): int
    decreases |t|
  {
    if t == [] then 0
    else TupleValue(t[..|t| - 1], inv, a) * a + Digit(inv, t[|t| - 1])
  }

  /** What tuple_index returns: -1 when some character is outside the alphabet. */
  function TupleIndexOf(t: seq<char>, inv: seq<int>, a: int): int {
    if AllKnown(t, inv) then TupleValue(t, inv, a) else -1
  }

  lemma MulRight(x: int, y: int, a: int)
    ensures (x + y) * a == x * a + y * a
  {
  }

  /** Reading one more digit at the most significant end. */
  lemma {:induction false} TupleValueCons(c: char, t: seq<char>, inv: seq<int>, a: int)
    ensures TupleValue([c] + t, inv, a) == Digit(inv, c) * Pow(a, |t|) + TupleValue(t, inv, a)
    decreases |t|
  {
    var s := [c] + t;
    if t == [] {
      assert s[..|s| - 1] == [];
    } else {
      var init := t[..|t| - 1];
      var d, last := Digit(inv, c), Digit(inv, t[|t| - 1]);
      assert s[..|s| - 1] == [c] + init;
      assert s[|s| - 1] == t[|t| - 1];
      TupleValueCons(c, init, inv, a);
      var p, v := Pow(a, |init|), TupleValue(init, inv, a);
      assert Pow(a, |t|) == a * p;
      calc {
        TupleValue(s, inv, a);
        TupleValue([c] + init, inv, a) * a + last;
        (d * p + v) * a + last;
        { MulRight(d * p, v, a); }
        d * p * a + (v * a + last);
        { assert d * p * a == d * (a * p); }
        d * Pow(a, |t|) + TupleValue(t, inv, a);
      }
    }
  }

  /** tuple_index: scans from the right-most (least significant) character and
      gives up with -1 at the first character outside the alphabet. */
  method TupleIndex(tuple: seq<char>, invAlph: seq<int>, alphSize: int) returns (r: int)
    requires |invAlph| == 256 && Indexable(tuple, invAlph)
    ensures r == TupleIndexOf(tuple, invAlph, alphSize)
  {
    var n := |tuple|;
    r := 0;
    var i := 0;
    while i < n
      invariant 0 <= i <= n
      invariant AllKnown(tuple[n - i..], invAlph)
      invariant r == TupleValue(tuple[n - i..], invAlph, alphSize)
    {
      var c := tuple[n - i - 1];
      if invAlph[c as int] < 0 {
        assert Digit(invAlph, tuple[n - i - 1]) < 0;
        return -1;
      }
      var p := IntPow(alphSize, i);
      TupleIndexStep(tuple, invAlph, alphSize, i);
      r := r + invAlph[c as int] * p;
      i := i + 1;
    }
    assert tuple[n - n..] == tuple;
  }

  /** One more known digit on the left of the part of the tuple read so far. */
  lemma TupleIndexStep(t: seq<char>, inv: seq<int>, a: int, i: nat)
    requires i < |t| && AllKnown(t[|t| - i..], inv) && Digit(inv, t[|t| - i - 1]) >= 0
    ensures AllKnown(t[|t| - i - 1..], inv)
    ensures TupleValue(t[|t| - i - 1..], inv, a) ==
            Digit(inv, t[|t| - i - 1]) * Pow(a, i) + TupleValue(t[|t| - i..], inv, a)
  {
    var n := |t|;
    var c := t[n - i - 1];
    var tail := t[n - i - 1..];
    assert tail == [c] + t[n - i..];
    TupleValueCons(c, t[n - i..], inv, a);
    forall j | 0 <= j < |tail|
      ensures Digit(inv, tail[j]) >= 0
    {
      if j > 0 { assert tail[j] == t[n - i..][j - 1]; }
    }
  }

  lemma MulMono(x: int, y: int, a: int)
    requires x <= y && a >= 0
    ensures x * a <= y * a
  {
  }

  /** Range of tuple_index: a tuple of known characters over an alphabet of size a
      encodes a number in [0, a^|t|). */
  lemma {:induction false} TupleValueRange(t: seq<char>, inv: seq<int>, a: int)
    requires a > 0
    requires forall i | 0 <= i < |t| :: 0 <= Digit(inv, t[i]) < a
    ensures 0 <= TupleValue(t, inv, a) < Pow(a, |t|)
    decreases |t|
  {
    if t != [] {
      var init := t[..|t| - 1];
      assert forall i | 0 <= i < |init| :: init[i] == t[i];
      TupleValueRange(init, inv, a);
      var v, p, d := TupleValue(init, inv, a), Pow(a, |init|), Digit(inv, t[|t| - 1]);
      assert TupleValue(t, inv, a) == v * a + d;
      assert Pow(a, |t|) == p * a;
      DigitAppendBound(v, p, d, a);
    }
  }

  /** One more digit below the base keeps the value below the next power. */
  lemma DigitAppendBound(v: int, p: int, d: int, a: int)
    requires 0 <= v < p && 0 <= d < a
    ensures 0 <= v * a + d < p * a
  {
    MulMono(0, v, a);
    MulMono(v, p - 1, a);
    MulRight(p - 1, 1, a);
  }

  /** tuple_index returns -1 exactly when some character maps to a negative entry;
      otherwise its value lies in [0, a^|t|), right-most character least significant. */
  lemma TupleIndexRange(t: seq<char>, inv: seq<int>, a: int)
    requires a > 0
    requires forall c | 0 <= c < |inv| :: inv[c] < a
    ensures TupleIndexOf(t, inv, a) == -1 <==> !AllKnown(t, inv)
    ensures AllKnown(t, inv) ==> 0 <= TupleIndexOf(t, inv, a) < Pow(a, |t|)
  {
    if AllKnown(t, inv) {
      TupleValueRange(t, inv, a);
    }
  }

  /** The tuple of `size` characters that get_tuple_str writes for `idx`:
      the last character is the least significant base-|alphabet| digit. */
  function TupleStr(idx: nat, size: nat, alphabet: seq<char>): seq<char>
    requires |alphabet| > 0
    decreases size
  {
    if size == 0 then []
    else TupleStr(idx / |alphabet|, size - 1, alphabet) + [alphabet[idx % |alphabet|]]
  }

  lemma {:induction false} TupleStrLength(idx: nat, size: nat, alphabet: seq<char>)
    requires |alphabet| > 0
    ensures |TupleStr(idx, size, alphabet)| == size
    ensures forall i | 0 <= i < size :: TupleStr(idx, size, alphabet)[i] in alphabet
    decreases size
  {
    if size > 0 { TupleStrLength(idx / |alphabet|, size - 1, alphabet); }
  }

  /** get_tuple_str: fills tuple_str[0..size) from the right, taking the next
      least-significant digit each time. */
  method GetTupleStr(tupleStr: array<char>, tupleIdx: int, tupleSize: int, alphabet: seq<char>)
    requires |alphabet| > 0 && tupleIdx >= 0 && 0 <= tupleSize <= tupleStr.Length
    modifies tupleStr
    ensures tupleStr[..tupleSize] == TupleStr(tupleIdx, tupleSize, alphabet)
    ensures tupleStr[tupleSize..] == old(tupleStr[tupleSize..])
  {
    var alphSize := |alphabet|;
    var remainder := tupleIdx;
    var k := 0;
    TupleStrLength(tupleIdx, tupleSize, alphabet);
    while k < tupleSize
      invariant 0 <= k <= tupleSize && remainder >= 0
      invariant tupleStr[tupleSize..] == old(tupleStr[tupleSize..])
      invariant TupleStr(tupleIdx, tupleSize, alphabet)
             == TupleStr(remainder, tupleSize - k, alphabet) + tupleStr[tupleSize - k..tupleSize]
    {
      ghost var before := tupleStr[tupleSize - k..tupleSize];
      tupleStr[tupleSize - k - 1] := alphabet[remainder % alphSize];
      assert tupleStr[tupleSize - k - 1..tupleSize] == [alphabet[remainder % alphSize]] + before;
      remainder := remainder / alphSize;
      k := k + 1;
    }
  }

  /** An inverse mapping that sends alphabet[j] back to j. */
  predicate InverseOf(inv: seq<int>, alphabet: seq<char>) {
    forall j | 0 <= j < |alphabet| :: Digit(inv, alphabet[j]) == j
  }

  lemma DivBound(i: nat, a: nat, k: nat)
    requires a > 0 && k > 0 && i < Pow(a, k)
    ensures i / a < Pow(a, k - 1)
  {
    PowPositive(a, k - 1);
    var q, p := i / a, Pow(a, k - 1);
    assert Pow(a, k) == a * p;
    assert q * a <= i;
    if q >= p {
      MulMono(p, q, a);
      assert false;
    }
  }

  /** get_tuple_str inverts tuple_index: decoding an index in [0, a^k) into k
      characters and encoding them again gives the index back. */
  lemma {:induction false} TupleRoundTrip(i: nat, k: nat, alphabet: seq<char>, inv: seq<int>)
    requires |alphabet| > 0 && InverseOf(inv, alphabet)
    requires i < Pow(|alphabet|, k)
    ensures TupleIndexOf(TupleStr(i, k, alphabet), inv, |alphabet|) == i
    decreases k
  {
    var a := |alphabet|;
    TupleStrKnown(i, k, alphabet, inv);
    if k > 0 {
      DivBound(i, a, k);
      TupleRoundTrip(i / a, k - 1, alphabet, inv);
      TupleStrKnown(i / a, k - 1, alphabet, inv);
      TupleStrValueStep(i, k, alphabet, inv);
      var q, r := i / a, i % a;
      assert TupleValue(TupleStr(i / a, k - 1, alphabet), inv, a) == q;
      DivModSplit(i, a);
      assert TupleValue(TupleStr(i, k, alphabet), inv, a) == q * a + r;
    }
  }

  lemma DivModSplit(i: nat, a: nat)
    requires a > 0
    ensures (i / a) * a + i % a == i
  {
  }

  /** Every character get_tuple_str writes is in the alphabet, so
      tuple_index knows it. */
  lemma TupleStrKnown(i: nat, k: nat, alphabet: seq<char>, inv: seq<int>)
    requires |alphabet| > 0 && InverseOf(inv, alphabet)
    ensures AllKnown(TupleStr(i, k, alphabet), inv)
  {
    var t := TupleStr(i, k, alphabet);
    TupleStrLength(i, k, alphabet);
    forall j | 0 <= j < |t| ensures Digit(inv, t[j]) >= 0 {
      var m :| 0 <= m < |alphabet| && alphabet[m] == t[j];
    }
  }

  /** The last character written is the least significant digit. */
  lemma TupleStrValueStep(i: nat, k: nat, alphabet: seq<char>, inv: seq<int>)
    requires |alphabet| > 0 && InverseOf(inv, alphabet) && k > 0
    ensures TupleValue(TupleStr(i, k, alphabet), inv, |alphabet|) ==
            TupleValue(TupleStr(i / |alphabet|, k - 1, alphabet), inv, |alphabet|) * |alphabet| + i % |alphabet|
  {
    var t := TupleStr(i, k, alphabet);
    TupleStrLength(i, k, alphabet);
    assert t[..|t| - 1] == TupleStr(i / |alphabet|, k - 1, alphabet);
    assert Digit(inv, t[|t| - 1]) == i % |alphabet|;
  }

  // ---------------------------------------------------------------------
  // Genetic code
  // ---------------------------------------------------------------------

  /** The 64 codons in the order of the source's table, one row of eight per line. */
  const Codons: seq<string> :=
    ["TTT", "TTC", "TTA", "TTG", "TCT", "TCC", "TCA", "TCG"] +
    ["TAT", "TAC", "TAA", "TAG", "TGT", "TGC", "TGA", "TGG"] +
    ["CTT", "CTC", "CTA", "CTG", "CCT", "CCC", "CCA", "CCG"] +
    ["CAT", "CAC", "CAA", "CAG", "CGT", "CGC", "CGA", "CGG"] +
    ["ATT", "ATC", "ATA", "ATG", "ACT", "ACC", "ACA", "ACG"] +
    ["AAT", "AAC", "AAA", "AAG", "AGT", "AGC", "AGA", "AGG"] +
    ["GTT", "GTC", "GTA", "GTG", "GCT", "GCC", "GCA", "GCG"] +
    ["GAT", "GAC", "GAA", "GAG", "GGT", "GGC", "GGA", "GGG"]

  /** The amino acid of each codon ('$' for a stop), row by row as above. */
  const AminoAcids: string :=
    "FFLLSSSS" + "YY$$CC$W" + "LLLLPPPP" + "HHQQRRRR" +
    "IIIMTTTT" + "NNKKSSRR" + "VVVVAAAA" + "DDEEGGGG"

  predicate IsNucleotide(c: char) { c == 'A' || c == 'C' || c == 'G' || c == 'T' }

  /** Position of a nucleotide in the table's T, C, A, G ordering. */
  function NucOrder(c: char): int {
    if c == 'T' then 0 else if c == 'C' then 1 else if c == 'A' then 2 else if c == 'G' then 3 else -1
  }

  lemma CodonTableSize()
    ensures |Codons| == 64 && |AminoAcids| == 64
  {
  }

  lemma AminoAcidsNotNull()
    ensures forall j | 0 <= j < |AminoAcids| :: AminoAcids[j] != '\0'
  {
  }

  /** A string of three nucleotides over a codon alphabet. */
  predicate Triplet(s: string) {
    |s| == 3 && IsNucleotide(s[0]) && IsNucleotide(s[1]) && IsNucleotide(s[2])
  }

  /** Row i of the table is a triplet of nucleotides numbering i when its bases are
      read as base-4 digits in T, C, A, G order, first base most significant. */
  predicate RowNumbered(i: nat)
    requires i < |Codons|
  {
    Triplet(Codons[i]) &&
    16 * NucOrder(Codons[i][0]) + 4 * NucOrder(Codons[i][1]) + NucOrder(Codons[i][2]) == i
  }

  lemma CodonRow0()
    ensures |Codons| == 64 && forall i | 0 <= i < 8 :: RowNumbered(i)
  {
  }

  lemma CodonRow1()
    ensures |Codons| == 64 && forall i | 8 <= i < 16 :: RowNumbered(i)
  {
  }

  lemma CodonRow2()
    ensures |Codons| == 64 && forall i | 16 <= i < 24 :: RowNumbered(i)
  {
  }

  lemma CodonRow3()
    ensures |Codons| == 64 && forall i | 24 <= i < 32 :: RowNumbered(i)
  {
  }

  lemma CodonRow4()
    ensures |Codons| == 64 && forall i | 32 <= i < 40 :: RowNumbered(i)
  {
  }

  lemma CodonRow5()
    ensures |Codons| == 64 && forall i | 40 <= i < 48 :: RowNumbered(i)
  {
  }

  lemma CodonRow6()
    ensures |Codons| == 64 && forall i | 48 <= i < 56 :: RowNumbered(i)
  {
  }

  lemma CodonRow7()
    ensures |Codons| == 64 && forall i | 56 <= i < 64 :: RowNumbered(i)
  {
  }

  /** Row i of the table: three nucleotides numbering i in T, C, A, G order. */
  lemma CodonShape(i: nat)
    requires i < 64
    ensures |Codons| == 64 && |Codons[i]| == 3
    ensures IsNucleotide(Codons[i][0]) && IsNucleotide(Codons[i][1]) && IsNucleotide(Codons[i][2])
    ensures Triplet(Codons[i])
    ensures 16 * NucOrder(Codons[i][0]) + 4 * NucOrder(Codons[i][1]) + NucOrder(Codons[i][2]) == i
  {
    CodonTableSize();
    CodonRow0(); CodonRow1(); CodonRow2(); CodonRow3();
    CodonRow4(); CodonRow5(); CodonRow6(); CodonRow7();
    assert RowNumbered(i);
  }

  /** No two rows of the table hold the same codon. */
  lemma CodonsDistinct(i: nat, j: nat)
    requires i < 64 && j < 64 && Codons[i] == Codons[j]
    ensures i == j
  {
    CodonShape(i);
    CodonShape(j);
  }

  /** The last position of c among alphabet[..n], or -1: what the inverse-alphabet
      loop leaves in inv_alph[c] after n steps. */
  function LastIndex(alphabet: seq<char>, n: nat, c: char): (r: int)
    requires n <= |alphabet|
    ensures -1 <= r < n
    decreases n
  {
    if n == 0 then -1
    else if alphabet[n - 1] == c then n - 1
    else LastIndex(alphabet, n - 1, c)
  }

  lemma {:induction false} LastIndexFound(alphabet: seq<char>, n: nat, c: char)
    requires n <= |alphabet|
    ensures LastIndex(alphabet, n, c) >= 0 <==> c in alphabet[..n]
    ensures LastIndex(alphabet, n, c) >= 0 ==> alphabet[LastIndex(alphabet, n, c)] == c
    decreases n
  {
    if n > 0 {
      LastIndexFound(alphabet, n - 1, c);
      assert alphabet[..n] == alphabet[..n - 1] + [alphabet[n - 1]];
    }
  }

  /** The inverse alphabet built by get_codon_mapping. */
  function InvAlph(alphabet: seq<char>): (inv: seq<int>)
    ensures |inv| == 256
  {
    seq(256, c requires 0 <= c < 256 => LastIndex(alphabet, |alphabet|, c as char))
  }

  /** Alphabet requirements of get_codon_mapping: 8-bit characters including A, C, G, T. */
  predicate CodonAlphabet(alphabet: seq<char>) {
    (forall i | 0 <= i < |alphabet| :: (alphabet[i] as int) < 256) &&
    'A' in alphabet && 'C' in alphabet && 'G' in alphabet && 'T' in alphabet
  }

  /** What the codon table needs of an inverse alphabet: the four nucleotides
      have distinct digits below the alphabet size. */
  predicate NucleotideDigits(inv: seq<int>, a: int) {
    |inv| == 256 && a > 0 &&
    0 <= inv['A' as int] < a && 0 <= inv['C' as int] < a &&
    0 <= inv['G' as int] < a && 0 <= inv['T' as int] < a &&
    inv['A' as int] != inv['C' as int] && inv['A' as int] != inv['G' as int] &&
    inv['A' as int] != inv['T' as int] && inv['C' as int] != inv['G' as int] &&
    inv['C' as int] != inv['T' as int] && inv['G' as int] != inv['T' as int]
  }

  lemma NucleotideDigit(alphabet: seq<char>, c: char)
    requires CodonAlphabet(alphabet) && IsNucleotide(c)
    ensures 0 <= InvAlph(alphabet)[c as int] < |alphabet|
    ensures alphabet[InvAlph(alphabet)[c as int]] == c
  {
    assert alphabet[..|alphabet|] == alphabet;
    LastIndexFound(alphabet, |alphabet|, c);
  }

  /** The inverse of a codon alphabet gives the four nucleotides distinct digits. */
  lemma AlphabetDigits(alphabet: seq<char>)
    requires CodonAlphabet(alphabet)
    ensures NucleotideDigits(InvAlph(alphabet), |alphabet|)
  {
    NucleotideDigit(alphabet, 'A');
    NucleotideDigit(alphabet, 'C');
    NucleotideDigit(alphabet, 'G');
    NucleotideDigit(alphabet, 'T');
  }

  /** The index tuple_index gives codon number i under inverse alphabet inv. */
  function CodonIndex(inv: seq<int>, a: int, i: nat): int
    requires i < 64
  {
    TupleValue(Codons[i], inv, a)
  }

  /** The tuple index of a triplet spelled out as three base-a digits. */
  lemma TripletDigits(inv: seq<int>, a: int, s: string)
    requires NucleotideDigits(inv, a) && Triplet(s)
    ensures TupleValue(s, inv, a) == (inv[s[0] as int] * a + inv[s[1] as int]) * a + inv[s[2] as int]
    ensures forall j | 0 <= j < 3 :: 0 <= inv[s[j] as int] < a
  {
    assert s[..2][..1] == [s[0]] && s[..2] == [s[0], s[1]] && [s[0]][..0] == [];
    assert TupleValue([s[0]], inv, a) == inv[s[0] as int];
    assert TupleValue(s[..2], inv, a) == inv[s[0] as int] * a + inv[s[1] as int];
  }

  /** A triplet's tuple index lies in [0, a^3) and tuple_index does not fail on it. */
  lemma TripletRange(inv: seq<int>, a: int, s: string)
    requires NucleotideDigits(inv, a) && Triplet(s)
    ensures 0 <= TupleValue(s, inv, a) < Pow(a, 3)
    ensures TupleIndexOf(s, inv, a) == TupleValue(s, inv, a)
  {
    TripletDigits(inv, a, s);
    assert forall j | 0 <= j < |s| :: 0 <= Digit(inv, s[j]) < a;
    TupleValueRange(s, inv, a);
  }

  lemma DigitsUnique(q1: int, r1: int, q2: int, r2: int, a: int)
    requires a > 0 && 0 <= r1 < a && 0 <= r2 < a && q1 * a + r1 == q2 * a + r2
    ensures q1 == q2 && r1 == r2
  {
    if q1 < q2 {
      MulMono(q1 + 1, q2, a);
      MulRight(q1, 1, a);
    } else if q2 < q1 {
      MulMono(q2 + 1, q1, a);
      MulRight(q2, 1, a);
    }
  }

  /** Distinct triplets have distinct tuple indices. */
  lemma TripletInjective(inv: seq<int>, a: int, s: string, t: string)
    requires NucleotideDigits(inv, a) && Triplet(s) && Triplet(t)
    requires TupleValue(s, inv, a) == TupleValue(t, inv, a)
    ensures s == t
  {
    TripletDigits(inv, a, s);
    TripletDigits(inv, a, t);
    var s0, s1, s2 := inv[s[0] as int], inv[s[1] as int], inv[s[2] as int];
    var t0, t1, t2 := inv[t[0] as int], inv[t[1] as int], inv[t[2] as int];
    MulMono(0, s0, a);
    MulMono(0, t0, a);
    DigitsUnique(s0 * a + s1, s2, t0 * a + t1, t2, a);
    DigitsUnique(s0, s1, t0, t1, a);
    assert s[0] == t[0] && s[1] == t[1] && s[2] == t[2];
  }

  /** Every codon index lies in [0, a^3), and tuple_index does not fail on a codon. */
  lemma CodonIndexRange(inv: seq<int>, a: int, i: nat)
    requires NucleotideDigits(inv, a) && i < 64
    ensures 0 <= CodonIndex(inv, a, i) < Pow(a, 3)
    ensures TupleIndexOf(Codons[i], inv, a) == CodonIndex(inv, a, i)
  {
    CodonShape(i);
    TripletRange(inv, a, Codons[i]);
  }

  /** Two codons with the same index are the same codon. */
  lemma CodonIndexInjective(inv: seq<int>, a: int, i: nat, j: nat)
    requires NucleotideDigits(inv, a) && i < 64 && j < 64
    requires CodonIndex(inv, a, i) == CodonIndex(inv, a, j)
    ensures i == j
  {
    CodonShape(i);
    CodonShape(j);
    TripletInjective(inv, a, Codons[i], Codons[j]);
    CodonsDistinct(i, j);
  }

  /** idx[..k] are distinct positions in [0, n). */
  predicate DistinctSlots(idx: seq<int>, k: nat, n: int) {
    k <= |idx| &&
    (forall j | 0 <= j < k :: 0 <= idx[j] < n) &&
    (forall j, j' | 0 <= j < j' < k :: idx[j] != idx[j'])
  }

  /** The table after writing vals[j] at position idx[j], for j = 0 .. k-1 in turn. */
  function Written(base: seq<char>, idx: seq<int>, vals: seq<char>, k: nat): (m: seq<char>)
    requires k <= |idx| && k <= |vals|
    requires forall j | 0 <= j < k :: 0 <= idx[j] < |base|
    ensures |m| == |base|
    decreases k
  {
    if k == 0 then base
    else Written(base, idx, vals, k - 1)[idx[k - 1] := vals[k - 1]]
  }

  /** With distinct positions, slot x holds the value written there, or its
      original content when nothing was written there. */
  lemma {:induction false} WrittenAt(base: seq<char>, idx: seq<int>, vals: seq<char>, k: nat, x: int)
    requires DistinctSlots(idx, k, |base|) && k <= |vals| && 0 <= x < |base|
    ensures (forall j | 0 <= j < k :: idx[j] != x) ==> Written(base, idx, vals, k)[x] == base[x]
    ensures forall j | 0 <= j < k && idx[j] == x :: Written(base, idx, vals, k)[x] == vals[j]
    decreases k
  {
    if k > 0 {
      WrittenAt(base, idx, vals, k - 1, x);
    }
  }

  /** The tuple index of each of the 64 codons. */
  function CodonIndices(inv: seq<int>, a: int): (r: seq<int>)
    ensures |r| == 64
  {
    seq(64, i requires 0 <= i < 64 => CodonIndex(inv, a, i))
  }

  /** The codon indices are distinct slots of an a^3 table. */
  lemma CodonIndicesValid(inv: seq<int>, a: int)
    requires NucleotideDigits(inv, a)
    ensures DistinctSlots(CodonIndices(inv, a), 64, Pow(a, 3))
  {
    var idx := CodonIndices(inv, a);
    forall j | 0 <= j < 64 ensures 0 <= idx[j] < Pow(a, 3) {
      CodonIndexRange(inv, a, j);
    }
    forall j, j' | 0 <= j < j' < 64 ensures idx[j] != idx[j'] {
      if idx[j] == idx[j'] {
        CodonIndexInjective(inv, a, j, j');
      }
    }
  }

  /** The table for inverse alphabet inv: a^3 null characters with each codon's
      amino acid written at the codon's tuple index. */
  function CodonTable(inv: seq<int>, a: int): (m: seq<char>)
    requires NucleotideDigits(inv, a)
    ensures |m| == Pow(a, 3)
  {
    PowPositive(a, 3);
    CodonIndicesValid(inv, a);
    CodonTableSize();
    Written(seq(Pow(a, 3), _ => '\0'), CodonIndices(inv, a), AminoAcids, 64)
  }

  /** Slot x of the table: the amino acid of the codon encoded to x, or null. */
  lemma CodonTableSlot(inv: seq<int>, a: int, x: int)
    requires NucleotideDigits(inv, a) && 0 <= x < Pow(a, 3)
    ensures (forall j | 0 <= j < 64 :: CodonIndices(inv, a)[j] != x) ==> CodonTable(inv, a)[x] == '\0'
    ensures forall j | 0 <= j < 64 && CodonIndices(inv, a)[j] == x :: CodonTable(inv, a)[x] == AminoAcids[j]
  {
    PowPositive(a, 3);
    CodonIndicesValid(inv, a);
    CodonTableSize();
    WrittenAt(seq(Pow(a, 3), _ => '\0'), CodonIndices(inv, a), AminoAcids, 64, x);
  }

  lemma CodonTableNull(inv: seq<int>, a: int, x: int)
    requires NucleotideDigits(inv, a) && 0 <= x < Pow(a, 3)
    ensures CodonTable(inv, a)[x] == '\0' <==> x !in CodonIndices(inv, a)
  {
    CodonTableSlot(inv, a, x);
    AminoAcidsNotNull();
    CodonTableSize();
    if x in CodonIndices(inv, a) {
      var j :| 0 <= j < 64 && CodonIndices(inv, a)[j] == x;
      assert CodonTable(inv, a)[x] == AminoAcids[j];
    }
  }

  /** The array get_codon_mapping returns for an alphabet. */
  function CodonMapping(alphabet: seq<char>): (m: seq<char>)
    requires CodonAlphabet(alphabet)
    ensures |m| == Pow(|alphabet|, 3)
  {
    AlphabetDigits(alphabet);
    CodonTable(InvAlph(alphabet), |alphabet|)
  }

  /** Each codon's slot holds its amino acid. */
  lemma CodonMappingAt(alphabet: seq<char>, i: nat)
    requires CodonAlphabet(alphabet) && i < 64
    ensures 0 <= CodonIndex(InvAlph(alphabet), |alphabet|, i) < |CodonMapping(alphabet)|
    ensures CodonMapping(alphabet)[CodonIndex(InvAlph(alphabet), |alphabet|, i)] == AminoAcids[i]
  {
    AlphabetDigits(alphabet);
    var inv, a := InvAlph(alphabet), |alphabet|;
    CodonIndexRange(inv, a, i);
    CodonTableSlot(inv, a, CodonIndex(inv, a, i));
    assert CodonIndices(inv, a)[i] == CodonIndex(inv, a, i);
  }

  /** The stop symbol sits exactly at the rows of TAA, TAG and TGA. */
  lemma StopRows(j: nat)
    requires j < 64
    ensures AminoAcids[j] == '$' <==> Codons[j] in {"TAA", "TAG", "TGA"}
  {
    CodonShape(j);
    assert AminoAcids[j] == '$' <==> j == 10 || j == 11 || j == 14;
    if j == 10 { assert Codons[10] == "TAA"; }
    if j == 11 { assert Codons[11] == "TAG"; }
    if j == 14 { assert Codons[14] == "TGA"; }
    if Codons[j] == "TAA" { assert j == 16 * 0 + 4 * 2 + 2; }
    if Codons[j] == "TAG" { assert j == 16 * 0 + 4 * 2 + 3; }
    if Codons[j] == "TGA" { assert j == 16 * 0 + 4 * 3 + 2; }
  }

  /** Exactly TAA, TAG and TGA map to the stop symbol '$'. */
  lemma CodonMappingStops(alphabet: seq<char>, i: nat)
    requires CodonAlphabet(alphabet) && i < 64
    ensures 0 <= CodonIndex(InvAlph(alphabet), |alphabet|, i) < |CodonMapping(alphabet)|
    ensures CodonMapping(alphabet)[CodonIndex(InvAlph(alphabet), |alphabet|, i)] == '$'
        <==> Codons[i] in {"TAA", "TAG", "TGA"}
  {
    CodonMappingAt(alphabet, i);
    StopRows(i);
  }

  /** ATG (the start codon) maps to methionine. */
  lemma CodonMappingStart(alphabet: seq<char>)
    requires CodonAlphabet(alphabet)
    ensures Codons[35] == "ATG"
    ensures 0 <= CodonIndex(InvAlph(alphabet), |alphabet|, 35) < |CodonMapping(alphabet)|
    ensures CodonMapping(alphabet)[CodonIndex(InvAlph(alphabet), |alphabet|, 35)] == 'M'
  {
    CodonMappingAt(alphabet, 35);
  }

  /** A slot is left null exactly when no codon encodes to it. */
  lemma CodonMappingNull(alphabet: seq<char>, x: nat)
    requires CodonAlphabet(alphabet) && x < Pow(|alphabet|, 3)
    ensures CodonMapping(alphabet)[x] == '\0' <==> x !in CodonIndices(InvAlph(alphabet), |alphabet|)
  {
    AlphabetDigits(alphabet);
    CodonTableNull(InvAlph(alphabet), |alphabet|, x);
  }

  /** The inverse-alphabet loops of get_codon_mapping: every entry -1, then
      inv_alph[alphabet[i]] := i for each position in turn. */
  method InverseAlphabet(alphabet: seq<char>) returns (invAlph: array<int>)
    requires forall i | 0 <= i < |alphabet| :: (alphabet[i] as int) < 256
    ensures fresh(invAlph)
    ensures invAlph[..] == InvAlph(alphabet)
  {
    invAlph := new int[256];
    var i := 0;
    while i < 256
      invariant 0 <= i <= 256
      invariant forall c | 0 <= c < i :: invAlph[c] == -1
    {
      invAlph[i] := -1;
      i := i + 1;
    }
    i := 0;
    while i < |alphabet|
      invariant 0 <= i <= |alphabet|
      invariant forall c | 0 <= c < 256 :: invAlph[c] == LastIndex(alphabet, i, c as char)
    {
      invAlph[alphabet[i] as int] := i;
      i := i + 1;
    }
  }

  /** get_codon_mapping: nulls every slot, then writes each codon's amino acid
      at its tuple index. */
  method GetCodonMapping(alphabet: seq<char>) returns (table: array<char>)
    requires CodonAlphabet(alphabet)
    ensures fresh(table)
    ensures table[..] == CodonMapping(alphabet)
  {
    var alphSize := |alphabet|;
    var nstates := IntPow(alphSize, 3);
    PowPositive(alphSize, 3);
    table := new char[nstates];
    var invAlph := InverseAlphabet(alphabet);
    var i := 0;
    while i < nstates
      invariant 0 <= i <= nstates
      invariant forall x | 0 <= x < i :: table[x] == '\0'
      invariant invAlph[..] == InvAlph(alphabet)
    {
      table[i] := '\0';
      i := i + 1;
    }
    ghost var nulls := table[..];
    ghost var idx := CodonIndices(invAlph[..], alphSize);
    AlphabetDigits(alphabet);
    CodonIndicesValid(invAlph[..], alphSize);
    CodonTableSize();
    assert nulls == seq(nstates, _ => '\0');
    i := 0;
    while i < 64
      invariant 0 <= i <= 64
      invariant table[..] == Written(nulls, idx, AminoAcids, i)
      invariant invAlph[..] == InvAlph(alphabet)
    {
      CodonShape(i);
      CodonIndexRange(invAlph[..], alphSize, i);
      var x := TupleIndex(Codons[i], invAlph[..], alphSize);
      assert x == idx[i];
      table[x] := AminoAcids[i];
      i := i + 1;
    }
  }

  // ---------------------------------------------------------------------
  // Combinations
  // ---------------------------------------------------------------------

  /** n-choose-k by Pascal's rule (the reference definition). */
  function Choose(n: nat, k: nat): nat {
    if k == 0 then 1
    else if n == 0 then 0
    else Choose(n - 1, k - 1) + Choose(n - 1, k)
  }

  lemma {:induction false} ChooseAbove(n: nat, k: nat)
    requires k > n
    ensures Choose(n, k) == 0
  {
    if n > 0 { ChooseAbove(n - 1, k - 1); ChooseAbove(n - 1, k); }
  }

  lemma {:induction false} ChooseSymmetric(n: nat, k: nat)
    requires k <= n
    ensures Choose(n, k) == Choose(n, n - k)
  {
    if k == 0 {
      ChooseAll(n);
    } else if k == n {
      ChooseAll(n);
    } else {
      ChooseSymmetric(n - 1, k - 1);
      ChooseSymmetric(n - 1, k);
      assert Choose(n, n - k) == Choose(n - 1, n - k - 1) + Choose(n - 1, n - k);
    }
  }

  lemma {:induction false} ChooseAll(n: nat)
    ensures Choose(n, n) == 1
  {
    if n > 0 { ChooseAll(n - 1); ChooseAbove(n - 1, n); }
  }

  lemma {:induction false} ChooseOne(n: nat)
    ensures Choose(n, 1) == n
  {
    if n > 0 { ChooseOne(n - 1); }
  }

  lemma {:induction false} ChooseTwo(n: nat)
    ensures 2 * Choose(n, 2) == n * (n - 1)
  {
    if n > 0 { ChooseTwo(n - 1); ChooseOne(n - 1); }
  }

  /** The arithmetic step of ChooseThree: Pascal's rule on the closed forms. */
  lemma PascalThree(n: int, c2: int, c3: int)
    requires 2 * c2 == (n - 1) * (n - 2) && 6 * c3 == (n - 1) * (n - 2) * (n - 3)
    ensures 6 * (c2 + c3) == n * (n - 1) * (n - 2)
  {
    var q := (n - 1) * (n - 2);
    assert 6 * c3 == q * (n - 3);
    MulRight(n - 3, 3, q);
    assert q * n == n * (n - 1) * (n - 2);
  }

  lemma {:induction false} ChooseThree(n: nat)
    ensures 6 * Choose(n, 3) == n * (n - 1) * (n - 2)
  {
    if n > 0 {
      ChooseThree(n - 1);
      ChooseTwo(n - 1);
      PascalThree(n, Choose(n - 1, 2), Choose(n - 1, 3));
    }
  }

  /** combinations: after folding k into [0, n/2], the cases k = 0..3 are computed
      exactly; any larger k goes through the floating-point gamma function, which
      is not modelled (None). */
  function Combinations(n: int, k: int): (r: Option<int>)
    requires n >= 0 && k >= 0 && k <= n
  {
    var k' := if k > n / 2 then n - k else k;
    if k' == 0 then Some(1)
    else if k' == 1 then Some(n)
    else if k' == 2 then Some(n * (n - 1) / 2)
    else if k' == 3 then Some(n * (n - 1) * (n - 2) / 6)
    else None
  }

  /** The exact branch of combinations returns n-choose-k, and it is taken exactly
      when min(k, n-k) <= 3. */
  lemma CombinationsExact(n: nat, k: nat)
    requires k <= n
    ensures Combinations(n, k).Some? <==> (k <= 3 || n - k <= 3)
    ensures Combinations(n, k).Some? ==> Combinations(n, k).value == Choose(n, k)
  {
    var k' := if k > n / 2 then n - k else k;
    ChooseSymmetric(n, k);
    assert Choose(n, k) == Choose(n, k');
    if k' == 0 {
    } else if k' == 1 {
      ChooseOne(n);
    } else if k' == 2 {
      ChooseTwo(n);
    } else if k' == 3 {
      ChooseThree(n);
    }
  }

  // ---------------------------------------------------------------------
  // next_comb
  // ---------------------------------------------------------------------

  /** s is a combination: k strictly increasing indices in [0, n-1]. */
  predicate IsComb(s: seq<int>, n: int) {
    (forall i | 0 <= i < |s| :: 0 <= s[i] < n) &&
    (forall i | 0 <= i < |s| - 1 :: s[i] < s[i + 1])
  }

  /** a comes strictly before b in lexicographic order (equal lengths). */
  predicate LexLess(a: seq<int>, b: seq<int>) {
    |a| == |b| && exists p | 0 <= p < |a| :: a[..p] == b[..p] && a[p] < b[p]
  }

  /** Position i of s can be advanced without breaking strict increase. */
  predicate CanAdvance(s: seq<int>, n: int, i: int)
    requires 0 <= i < |s|
  {
    (i == |s| - 1 && s[i] < n - 1) || (i < |s| - 1 && s[i] < s[i + 1] - 1)
  }

  /** The backwards scan: the right-most position at or below i that can advance, or -1. */
  function AdvancePos(s: seq<int>, n: int, i: int): (r: int)
    requires -1 <= i < |s|
    ensures -1 <= r <= i
    decreases i + 1
  {
    if i < 0 then -1
    else if CanAdvance(s, n, i) then i
    else AdvancePos(s, n, i - 1)
  }

  /** next_comb as a function of the k entries: its result flag and the new entries. */
  function NextCombOf(n: int, k: int, s: seq<int>): (bool, seq<int>)
    requires 0 < k <= n && |s| == k
  {
    if s[0] == -1 then (true, seq(k, j => j))
    else
      var i := AdvancePos(s, n, k - 1);
      if i < 0 then (false, s)
      else (true, Advanced(s, i))
  }

  /** Entry i incremented and every later entry swept to one more than its predecessor. */
  function Advanced(s: seq<int>, i: int): (r: seq<int>)
    requires 0 <= i < |s|
    ensures |r| == |s|
  {
    s[..i] + seq(|s| - i, j => s[i] + 1 + j)
  }

  /** next_comb: initialises, or advances the least significant digit that can be
      advanced and sweeps the later digits down to their lowest allowed values. */
  method NextComb(n: int, k: int, index: array<int>) returns (ok: bool)
    requires 0 < k <= n && k <= index.Length
    modifies index
    ensures (ok, index[..k]) == NextCombOf(n, k, old(index[..k]))
    ensures index[k..] == old(index[k..])
  {
    if index[0] == -1 {
      FirstComb(k, index);
      return true;
    }
    var i := FindAdvance(n, k, index);
    if i < 0 {
      return false;
    }
    SweepFrom(k, i, index);
    return true;
  }

  /** The first loop of next_comb: entries 0..k-1 set to 0..k-1. */
  method FirstComb(k: int, index: array<int>)
    requires 0 < k <= index.Length
    modifies index
    ensures index[..k] == seq(k, j => j)
    ensures index[k..] == old(index[k..])
  {
    var i := 0;
    while i < k
      invariant 0 <= i <= k
      invariant forall j | 0 <= j < i :: index[j] == j
      invariant index[k..] == old(index[k..])
    {
      index[i] := i;
      i := i + 1;
    }
  }

  /** The backwards scan of next_comb for the right-most entry that can advance. */
  method FindAdvance(n: int, k: int, index: array<int>) returns (i: int)
    requires 0 < k <= index.Length
    ensures i == AdvancePos(index[..k], n, k - 1)
  {
    ghost var s := index[..k];
    i := k - 1;
    while i >= 0
      invariant -1 <= i < k
      invariant AdvancePos(s, n, k - 1) == AdvancePos(s, n, i)
    {
      if (i == k - 1 && index[i] < n - 1) || (i < k - 1 && index[i] < index[i + 1] - 1) {
        break;
      }
      i := i - 1;
    }
  }

  /** The sweep of next_comb: entry p incremented, each later entry one more
      than its predecessor. */
  method SweepFrom(k: int, p: int, index: array<int>)
    requires 0 <= p < k <= index.Length
    modifies index
    ensures index[..k] == Advanced(old(index[..k]), p)
    ensures index[k..] == old(index[k..])
  {
    ghost var s := index[..k];
    index[p] := index[p] + 1;
    var i := p + 1;
    while i < k
      invariant p < i <= k
      invariant index[..p] == s[..p]
      invariant forall j | p <= j < i :: index[j] == s[p] + 1 + (j - p)
      invariant index[k..] == old(index[k..])
    {
      index[i] := index[i - 1] + 1;
      i := i + 1;
    }
  }

  /** The all-last combination [n-k, ..., n-1]. */
  predicate IsLastComb(s: seq<int>, n: int) {
    forall j | 0 <= j < |s| :: s[j] == n - |s| + j
  }

  lemma {:induction false} CombUpperBound(s: seq<int>, n: int, j: int)
    requires IsComb(s, n) && 0 <= j < |s|
    ensures s[j] <= n - |s| + j
    decreases |s| - j
  {
    if j < |s| - 1 { CombUpperBound(s, n, j + 1); }
  }

  lemma {:induction false} CombLowerGap(c: seq<int>, n: int, i: int, j: int)
    requires IsComb(c, n) && 0 <= i <= j < |c|
    ensures c[j] >= c[i] + (j - i)
    decreases j - i
  {
    if j > i { CombLowerGap(c, n, i, j - 1); }
  }

  /** Positions above the advance position are at their maximum values. */
  lemma {:induction false} AboveAdvanceMaxed(s: seq<int>, n: int, i: int, j: int)
    requires IsComb(s, n) && -1 <= i < |s| && i < j < |s|
    requires forall m | i < m < |s| :: !CanAdvance(s, n, m)
    ensures s[j] == n - |s| + j
    decreases |s| - j
  {
    CombUpperBound(s, n, j);
    if j < |s| - 1 {
      AboveAdvanceMaxed(s, n, i, j + 1);
      assert !CanAdvance(s, n, j);
    } else {
      assert !CanAdvance(s, n, j);
    }
  }

  lemma {:induction false} AdvancePosSpec(s: seq<int>, n: int, i: int)
    requires -1 <= i < |s|
    ensures forall m | AdvancePos(s, n, i) < m <= i :: !CanAdvance(s, n, m)
    ensures AdvancePos(s, n, i) >= 0 ==> CanAdvance(s, n, AdvancePos(s, n, i))
    decreases i + 1
  {
    if i >= 0 && !CanAdvance(s, n, i) { AdvancePosSpec(s, n, i - 1); }
  }

  /** The first call, with index[0] == -1, yields the first combination [0..k-1]. */
  lemma NextCombFirst(n: int, k: int, s: seq<int>)
    requires 0 < k <= n && |s| == k && s[0] == -1
    ensures NextCombOf(n, k, s).0
    ensures IsComb(NextCombOf(n, k, s).1, n)
    ensures forall c | |c| == k && IsComb(c, n) && c != NextCombOf(n, k, s).1 ::
              LexLess(NextCombOf(n, k, s).1, c)
  {
    var r := NextCombOf(n, k, s).1;
    forall c | |c| == k && IsComb(c, n) && c != r
      ensures LexLess(r, c)
    {
      var p :| 0 <= p < k && c[p] != r[p];
      var q := FirstDiff(r, c, p);
      CombLowerGap(c, n, 0, q);
      assert c[0] >= 0;
    }
  }

  /** The first position where a and b differ, at or before p. */
  function FirstDiff(a: seq<int>, b: seq<int>, p: int): (q: int)
    requires |a| == |b| && 0 <= p < |a| && a[p] != b[p]
    ensures 0 <= q <= p && a[q] != b[q] && a[..q] == b[..q]
    decreases p
  {
    if p == 0 then 0
    else if a[p - 1] != b[p - 1] then FirstDiff(a, b, p - 1)
    else if a[..p - 1] == b[..p - 1] then
      assert a[..p] == a[..p - 1] + [a[p - 1]] && b[..p] == b[..p - 1] + [b[p - 1]];
      p
    else
      var m :| 0 <= m < p - 1 && a[m] != b[m];
      FirstDiff(a, b, m)
  }

  /** next_comb fails, leaving the entries alone, exactly at [n-k..n-1]. */
  lemma NextCombLast(n: int, k: int, s: seq<int>)
    requires 0 < k <= n && |s| == k && IsComb(s, n)
    ensures !NextCombOf(n, k, s).0 <==> IsLastComb(s, n)
    ensures !NextCombOf(n, k, s).0 ==> NextCombOf(n, k, s).1 == s
  {
    AdvancePosSpec(s, n, k - 1);
    var i := AdvancePos(s, n, k - 1);
    if i < 0 {
      forall j | 0 <= j < k ensures s[j] == n - k + j { AboveAdvanceMaxed(s, n, -1, j); }
    } else {
      assert s[i] != n - k + i || s[i + 1] != n - k + i + 1;
    }
  }

  /** Advancing the right-most advanceable entry keeps a combination. */
  lemma AdvancedIsComb(n: int, s: seq<int>, i: int)
    requires IsComb(s, n) && 0 <= i < |s| && CanAdvance(s, n, i)
    requires forall m | i < m < |s| :: !CanAdvance(s, n, m)
    ensures IsComb(Advanced(s, i), n)
    ensures LexLess(s, Advanced(s, i))
  {
    var k, r := |s|, Advanced(s, i);
    assert forall j | i <= j < k :: r[j] == s[i] + 1 + (j - i);
    assert forall j | 0 <= j < i :: r[j] == s[j];
    assert s[i] + 1 + (k - 1 - i) <= n - 1 by {
      if i < k - 1 {
        AboveAdvanceMaxed(s, n, i, i + 1);
      }
    }
    assert s[i] >= 0;
    assert r[..i] == s[..i];
  }

  /** A combination above s first differs from s at or before the advance position. */
  lemma DiffNotAboveAdvance(n: int, s: seq<int>, i: int, c: seq<int>, p: int)
    requires IsComb(s, n) && 0 <= i < |s|
    requires forall m | i < m < |s| :: !CanAdvance(s, n, m)
    requires |c| == |s| && IsComb(c, n) && 0 <= p < |s| && s[p] < c[p]
    ensures p <= i
  {
    if p > i {
      AboveAdvanceMaxed(s, n, i, p);
      CombUpperBound(c, n, p);
    }
  }

  /** A combination that agrees with s up to the advance position and exceeds it
      there is the advanced form or above it. */
  lemma AdvancedIsNextAt(n: int, s: seq<int>, i: int, c: seq<int>)
    requires IsComb(s, n) && 0 <= i < |s|
    requires |c| == |s| && IsComb(c, n) && s[..i] == c[..i] && s[i] < c[i]
    ensures c == Advanced(s, i) || LexLess(Advanced(s, i), c)
  {
    var k, r := |s|, Advanced(s, i);
    if c != r {
      assert forall j | i <= j < k :: r[j] == s[i] + 1 + (j - i);
      var d :| 0 <= d < k && c[d] != r[d];
      assert r[..i] == s[..i];
      var q := FirstDiff(r, c, d);
      assert q >= i;
      CombLowerGap(c, n, i, q);
    }
  }

  /** No combination lies strictly between s and its advanced form. */
  lemma AdvancedIsNext(n: int, s: seq<int>, i: int, c: seq<int>)
    requires IsComb(s, n) && 0 <= i < |s| && CanAdvance(s, n, i)
    requires forall m | i < m < |s| :: !CanAdvance(s, n, m)
    requires |c| == |s| && IsComb(c, n) && LexLess(s, c)
    ensures c == Advanced(s, i) || LexLess(Advanced(s, i), c)
  {
    var k, r := |s|, Advanced(s, i);
    var p :| 0 <= p < k && s[..p] == c[..p] && s[p] < c[p];
    DiffNotAboveAdvance(n, s, i, c, p);
    if p < i {
      AdvancedBelow(s, i, c, p);
    } else {
      AdvancedIsNextAt(n, s, i, c);
    }
  }

  /** A combination above s at a position before the advance position is
      above the advanced form too. */
  lemma AdvancedBelow(s: seq<int>, i: int, c: seq<int>, p: int)
    requires 0 <= p < i < |s| && |c| == |s| && s[..p] == c[..p] && s[p] < c[p]
    ensures LexLess(Advanced(s, i), c)
  {
    var r := Advanced(s, i);
    assert r[..p] == s[..i][..p];
    assert r[p] == s[p];
  }

  /** From a combination that is not the last, next_comb yields the
      lexicographically next combination. */
  lemma NextCombSuccessor(n: int, k: int, s: seq<int>)
    requires 0 < k <= n && |s| == k && IsComb(s, n) && NextCombOf(n, k, s).0
    ensures IsComb(NextCombOf(n, k, s).1, n)
    ensures LexLess(s, NextCombOf(n, k, s).1)
    ensures forall c | |c| == k && IsComb(c, n) && LexLess(s, c) ::
              c == NextCombOf(n, k, s).1 || LexLess(NextCombOf(n, k, s).1, c)
  {
    AdvancePosSpec(s, n, k - 1);
    var i := AdvancePos(s, n, k - 1);
    assert s[0] != -1 by { assert s[0] >= 0; }
    AdvancedIsComb(n, s, i);
    forall c | |c| == k && IsComb(c, n) && LexLess(s, c)
      ensures c == Advanced(s, i) || LexLess(Advanced(s, i), c)
    {
      AdvancedIsNext(n, s, i, c);
    }
  }

  // ---------------------------------------------------------------------
  // log2_int
  // ---------------------------------------------------------------------

  /** log2_int: floor(log2(x)) by repeated halving. */
  method Log2Int(x: nat) returns (r: nat)
    requires x > 0
    ensures Pow(2, r) <= x < Pow(2, r + 1)
  {
    var y := x;
    r := 0;
    while true
      invariant y > 0
      invariant Pow(2, r) * y <= x < Pow(2, r) * (y + 1)
      decreases y
    {
      var half := y / 2;
      HalvingStep(x, y, half, r);
      y := half;
      if y == 0 {
        return;
      }
      r := r + 1;
    }
  }

  lemma HalvingStep(x: nat, y: nat, half: nat, r: nat)
    requires y > 0 && half == y / 2
    requires Pow(2, r) * y <= x < Pow(2, r) * (y + 1)
    ensures half == 0 ==> Pow(2, r) <= x < Pow(2, r + 1)
    ensures half > 0 ==> Pow(2, r + 1) * half <= x < Pow(2, r + 1) * (half + 1)
  {
    var p := Pow(2, r);
    assert Pow(2, r + 1) == 2 * p;
    var b := y % 2;
    assert y == 2 * half + b;
    assert p * y == 2 * p * half + p * b;
    assert p * (y + 1) == 2 * p * half + p * (b + 1);
    assert p * (b + 1) <= 2 * p by { PowPositive(2, r); }
    assert 2 * p * (half + 1) == 2 * p * half + 2 * p;
  }

  // ---------------------------------------------------------------------
  // Nucleotide tests
  // ---------------------------------------------------------------------

  /** C toupper in the default locale: ASCII lower-case letters only. */
  function ToUpper(c: char): char {
    if 'a' <= c <= 'z' then (c as int - 32) as char else c
  }

  /** is_transition: after upper-casing, A<->G or C<->T. */
  function IsTransition(b1: char, b2: char): bool {
    var u1, u2 := ToUpper(b1), ToUpper(b2);
    (u1 == 'A' && u2 == 'G') || (u1 == 'G' && u2 == 'A') ||
    (u1 == 'T' && u2 == 'C') || (u1 == 'C' && u2 == 'T')
  }

  /** is_transition is symmetric, case-insensitive, and holds exactly for the
      purine pair {A,G} and the pyrimidine pair {C,T}. */
  lemma TransitionProperties(b1: char, b2: char)
    ensures IsTransition(b1, b2) == IsTransition(b2, b1)
    ensures IsTransition(b1, b2) == IsTransition(ToUpper(b1), ToUpper(b2))
    ensures IsTransition(b1, b2) <==>
              {ToUpper(b1), ToUpper(b2)} == {'A', 'G'} || {ToUpper(b1), ToUpper(b2)} == {'C', 'T'}
  {
    var u1, u2 := ToUpper(b1), ToUpper(b2);
    assert ToUpper(u1) == u1 && ToUpper(u2) == u2;
    if {u1, u2} == {'A', 'G'} {
      assert u1 in {'A', 'G'} && u2 in {'A', 'G'} && u1 != u2;
    }
    if {u1, u2} == {'C', 'T'} {
      assert u1 in {'C', 'T'} && u2 in {'C', 'T'} && u1 != u2;
    }
  }

  /** is_indel: a gap on either side. */
  function IsIndel(b1: char, b2: char): (r: bool)
    ensures r <==> '-' in [b1, b2]
  {
    b1 == '-' || b2 == '-'
  }

  /** An indel is never a transition: a gap is not a nucleotide, whatever its
      case.  The two tests classify a change disjointly and both are
      symmetric. */
  lemma IndelNotTransition(b1: char, b2: char)
    ensures IsIndel(b1, b2) ==> !IsTransition(b1, b2)
    ensures IsIndel(b1, b2) == IsIndel(b2, b1)
  {
    assert ToUpper('-') == '-';
  }
}
