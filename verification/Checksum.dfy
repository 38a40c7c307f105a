/** The Internet checksum (section 1 of RFC 1071) as the IP code computes it. */
module Checksum {

  type byte = x: int | 0 <= x < 256

  const U32: nat := 0x1_0000_0000
  const ONES: nat := 0xFFFF

  /** Sum of the 16-bit words, the odd byte at the end padded with 0. */
  function WordSum(d: seq<byte>): nat {
    if d == [] then 0
    else if |d| == 1 then d[0] * 256
    else d[0] * 256 + d[1] + WordSum(d[2..])
  }

  /** `while (sum >> 16) sum = (sum & 0xFFFF) + (sum >> 16)`. */
  function Fold(s: nat): nat {
    if s < 0x10000 then s else Fold(s % 0x10000 + s / 0x10000)
  }

  /** The fold keeps the residue modulo 65535, and only 0 becomes 0. */
  lemma {:induction false} FoldIs(s: nat)
    ensures Fold(s) == if s == 0 then 0 else (s - 1) % ONES + 1
  {
    if s >= 0x10000 {
      var t := s % 0x10000 + s / 0x10000;
      FoldIs(t);
      var q := s / 0x10000;
      assert s - 1 == t - 1 + q * ONES;
      SameResidue(t - 1, q);
    }
  }

  lemma SameResidue(a: nat, q: nat)
    ensures (a + q * ONES) % ONES == a % ONES
  {
    var k, r := a / ONES, a % ONES;
    assert a + q * ONES == (k + q) * ONES + r;
    ResidueIs(a + q * ONES, k + q, r);
  }

  lemma ResidueIs(a: nat, k: nat, r: nat)
    requires a == k * ONES + r && r < ONES
    ensures a % ONES == r && a / ONES == k
  {
  }

  /** Adding the complement of the folded sum gives a sum of only ones. */
  lemma FoldComplement(s: nat)
    ensures Fold(s) <= ONES && Fold(s + (ONES - Fold(s))) == ONES
  {
    FoldIs(s);
    var c := Fold(s);
    FoldIs(s + (ONES - c));
    if s > 0 {
      var k := (s - 1) / ONES;
      assert s - 1 == k * ONES + (c - 1);
      ResidueIs(s + (ONES - c) - 1, k, ONES - 1);
    }
  }

  /** Byte pairs at even positions are words: changing one changes the sum by the difference. */
  lemma {:induction false} WordSumUpdate(d: seq<byte>, k: nat, hi: byte, lo: byte)
    requires k % 2 == 0 && k + 1 < |d| && d[k] == 0 && d[k + 1] == 0
    ensures WordSum(d[k := hi][k + 1 := lo]) == WordSum(d) + hi * 256 + lo
  {
    var d' := d[k := hi][k + 1 := lo];
    if k == 0 {
      assert d'[2..] == d[2..];
    } else {
      assert d'[2..] == d[2..][k - 2 := hi][k - 1 := lo];
      WordSumUpdate(d[2..], k - 2, hi, lo);
    }
  }

  /** An odd byte at the end counts as if a zero byte followed it. */
  lemma {:induction false} OddTailIsPadded(d: seq<byte>)
    requires |d| % 2 == 1
    ensures WordSum(d + [0]) == WordSum(d)
  {
    if |d| > 1 {
      assert (d + [0])[2..] == d[2..] + [0];
      OddTailIsPadded(d[2..]);
    }
  }

  /** What a byte counts for: the first of a word is the high one. */
  function Worth(k: nat): nat { if k % 2 == 0 then 256 else 1 }

  /** Any one byte changed, at any place of data of any length, changes the sum by its worth. */
  lemma {:induction false} OneByteChanged(d: seq<byte>, k: nat, b: byte)
    requires k < |d|
    ensures WordSum(d[k := b]) == WordSum(d) + Worth(k) * b - Worth(k) * d[k]
    decreases k
  {
    var d' := d[k := b];
    if k < 2 {
      if |d| > 1 { assert d'[2..] == d[2..]; }
    } else {
      assert d'[2..] == d[2..][k - 2 := b];
      OneByteChanged(d[2..], k - 2, b);
    }
  }

  /** The example of section 3 of RFC 1071. */
  lemma ExampleOfTheStandard()
    ensures Fold(WordSum([0x00, 0x01, 0xf2, 0x03, 0xf4, 0xf5, 0xf6, 0xf7])) == 0xddf2
  {
    var d: seq<byte> := [0x00, 0x01, 0xf2, 0x03, 0xf4, 0xf5, 0xf6, 0xf7];
    assert d[2..] == [0xf2, 0x03, 0xf4, 0xf5, 0xf6, 0xf7] && d[4..] == [0xf4, 0xf5, 0xf6, 0xf7] && d[6..] == [0xf6, 0xf7];
    assert d[2..][2..] == d[4..] && d[4..][2..] == d[6..] && d[6..][2..] == [];
    assert WordSum(d[6..]) == 0xf6f7;
    assert WordSum(d) == 0x0001 + 0xf203 + 0xf4f5 + 0xf6f7;
    FoldIs(WordSum(d));
  }

  /** One byte changed in data that fold to all ones: they no longer do. */
  lemma OneBadByteShows(d: seq<byte>, k: nat, b: byte)
    requires k < |d| <= 131074 && b != d[k] && Fold(WordSum(d) % U32) == ONES
    ensures Fold(WordSum(d[k := b]) % U32) != ONES
  {
    hide WordSum, Fold, Worth;
    OneByteChanged(d, k, b);
    WordSumBound(d);
    WordSumBound(d[k := b]);
    NotTooFar(k, d[k], b);
    FoldsApart(WordSum(d), WordSum(d[k := b]));
  }

  lemma NotTooFar(k: nat, a: byte, b: byte)
    requires a != b
    ensures 0 < Worth(k) * b - Worth(k) * a < ONES || 0 < Worth(k) * a - Worth(k) * b < ONES
  {
  }

  lemma FoldsApart(s: nat, t: nat)
    requires Fold(s) == ONES && (0 < s - t < ONES || 0 < t - s < ONES)
    ensures Fold(t) != ONES
  {
    FoldIs(s);
    FoldIs(t);
    hide Fold;
    if s > 0 && t > 0 { MultiplesApart(s, t); }
  }

  lemma MultiplesApart(s: nat, t: nat)
    requires s > 0 && (s - 1) % ONES == ONES - 1 && s != t && s - t < ONES && t - s < ONES && t > 0
    ensures (t - 1) % ONES != ONES - 1
  {
  }

  /** Sums of up to 131074 bytes fit into 32 bits. */
  lemma {:induction false} WordSumBound(d: seq<byte>)
    ensures WordSum(d) <= ONES * ((|d| + 1) / 2)
    ensures |d| <= 131074 ==> WordSum(d) < U32
  {
    if |d| > 1 {
      WordSumBound(d[2..]);
      assert (|d| + 1) / 2 == (|d[2..]| + 1) / 2 + 1;
    }
  }

  /** The residues of `a` and `a + c` agree exactly if `c` is a multiple of 65535. */
  lemma ResiduesAgreeIff(a: nat, c: nat)
    ensures (c + a) % ONES == a % ONES <==> c % ONES == 0
  {
    var m, k, b := c % ONES, a / ONES, a % ONES;
    assert c + a == (c / ONES) * ONES + (m + a);
    SameResidue(m + a, c / ONES);
    assert m + a == k * ONES + (m + b);
    SameResidue(m + b, k);
    if m > 0 {
      if m + b < ONES { ResidueIs(m + b, 0, m + b); } else { ResidueIs(m + b, 1, m + b - ONES); }
    }
  }

  /**
   The 32-bit accumulator loses carries on longer data: the result is still the ones' complement sum
   exactly if the number of lost carries is a multiple of 65535 and what is left is not 0 by accident.
   */
  lemma WrapAgreesIff(s: nat)
    ensures Fold(s % U32) == Fold(s) <==> (s / U32) % ONES == 0 && (s % U32 == 0 ==> s == 0)
  {
    FoldIs(s);
    FoldIs(s % U32);
    hide Fold;
    var c, r := s / U32, s % U32;
    assert s == c * U32 + r && U32 == ONES * 65537 + 1;
    assert s == (c * 65537) * ONES + (c + r);
    if r > 0 {
      SameResidue(c + r - 1, c * 65537);
      ResiduesAgreeIff(r - 1, c);
    }
  }

  lemma {:induction false} AllOnes(n: nat)
    ensures WordSum(seq(2 * n, _ => 255)) == n * ONES
  {
    if n > 0 {
      AllOnes(n - 1);
      assert seq(2 * n, _ => 255 as byte)[2..] == seq(2 * (n - 1), _ => 255 as byte);
    }
  }

  /** 131076 bytes of 0xFF: one carry is lost, and the result is 0xFFFE instead of 0xFFFF. */
  lemma LongDataGoesWrong()
    ensures var d: seq<byte> := seq(131076, _ => 255);
            Fold(WordSum(d) % U32) == 0xFFFE && Fold(WordSum(d)) == ONES
  {
    AllOnes(65538);
    assert seq(2 * 65538, _ => 255 as byte) == seq(131076, _ => 255 as byte);
    FoldIs(65538 * ONES);
    assert 65538 * ONES == U32 + 0xFFFE;
  }

  /** The loop of checksum() over the words, in a 32-bit accumulator. */
  method Accumulate(data: seq<byte>) returns (sum: nat)
    ensures sum == WordSum(data) % U32
  {
    sum := 0;
    var p: nat, len: nat := 0, |data|;
    while len > 1
      invariant p + len == |data| && sum < U32
      invariant WordSum(data) % U32 == (sum + WordSum(data[p..])) % U32
    {
      var hi: int, lo: int := data[p], data[p + 1];
      var w := hi * 256 + lo;
      assert data[p..][2..] == data[p + 2..];
      AddWrapped(sum + w, WordSum(data[p + 2..]));
      sum := (sum + w) % U32;
      p, len := p + 2, len - 2;
    }
    if len == 1 {
      assert data[p..] == [data[p]];
      var last: int := data[p];
      sum := (sum + last * 256) % U32;
    }
  }

  /** The folding loop of checksum(). */
  method FoldDown(s: nat) returns (r: nat)
    ensures r == Fold(s) < 0x10000
  {
    var sum := s;
    while sum / 0x10000 > 0
      invariant Fold(sum) == Fold(s)
      decreases sum
    {
      sum := sum % 0x10000 + sum / 0x10000;
    }
    r := sum;
  }

  /** checksum(). */
  method Compute(data: seq<byte>) returns (r: nat)
    ensures r == Fold(WordSum(data) % U32) <= ONES
    ensures |data| <= 131074 ==> r == Fold(WordSum(data))
  {
    var sum := Accumulate(data);
    WordSumBound(data);
    hide Fold, WordSum;
    r := FoldDown(sum);
  }

  lemma AddWrapped(a: nat, b: nat)
    ensures (a % U32 + b) % U32 == (a + b) % U32
  {
  }

  /** checksum_final(). */
  method Final(data: seq<byte>) returns (r: nat)
    ensures r == ONES - Fold(WordSum(data) % U32) && 0 <= r <= ONES
  {
    var c := Compute(data);
    r := ONES - c;
  }

  /** `d` with the 16-bit value `v` in big-endian order at `k`. */
  function Stored(d: seq<byte>, k: nat, v: nat): seq<byte>
    requires k + 1 < |d| && v <= ONES
  {
    d[k := v / 256][k + 1 := v % 256]
  }

  /** Folded and complemented, a 32-bit sum has room for its complement. */
  lemma ComplementFits(r: nat)
    requires r < U32
    ensures Fold(r) <= ONES && r + (ONES - Fold(r)) < U32
  {
    FoldIs(r);
    hide Fold;
    if r > 0 {
      var k := (r - 1) / ONES;
      assert r - 1 == k * ONES + (r - 1) % ONES;
      assert r + (ONES - Fold(r)) == (k + 1) * ONES;
      assert k <= 65536 && U32 == ONES * 65537 + 1;
    }
  }

  /**
   Round trip: with the complemented checksum of the data, its checksum field being 0, stored in that
   field, the data sum up to 0xFFFF. The field lies at an even position; the length is any, odd or
   even. Carries that the accumulator loses are lost on both sides.
   */
  lemma StoredChecksumVerifies(d: seq<byte>, k: nat)
    requires k % 2 == 0 && k + 1 < |d| && d[k] == 0 && d[k + 1] == 0
    ensures Fold(WordSum(d) % U32) <= ONES
    ensures Fold(WordSum(Stored(d, k, ONES - Fold(WordSum(d) % U32))) % U32) == ONES
  {
    var r := WordSum(d) % U32;
    ComplementFits(r);
    FoldComplement(r);
    hide WordSum, Fold;
    var v := ONES - Fold(r);
    WordSumUpdate(d, k, v / 256, v % 256);
    assert WordSum(Stored(d, k, v)) == WordSum(d) + v;
    AddWrapped(WordSum(d), v);
    assert (r + v) % U32 == r + v;
  }
}
