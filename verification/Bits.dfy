/** Bits of bytes, and byte sequences read as bit sequences (bit 0 of a byte comes first). */
module Bits {

  predicate Bit(b: bv8, k: nat)
    requires k < 8
  {
    (b >> k) & 1 == 1
  }

  function SetBit(b: bv8, k: nat): bv8
    requires k < 8
  {
    b | (1 << k)
  }

  function ClearBit(b: bv8, k: nat): bv8
    requires k < 8
  {
    b & !(1 << k)
  }

  /** The low `k` bits. */
  function LowMask(k: nat): bv8
    requires k < 8
  {
    !(0xFF << k)
  }

  function Power(k: nat): bv8
    requires k < 8
  {
    [1, 2, 4, 8, 16, 32, 64, 128][k]
  }

  lemma ShiftedOne(k: nat)
    requires k < 8
    ensures (1 as bv8) << k == Power(k)
  {
    if k == 0 {} else if k == 1 {} else if k == 2 {} else if k == 3 {}
    else if k == 4 {} else if k == 5 {} else if k == 6 {} else {}
  }

  lemma BitByMask(b: bv8, k: nat)
    requires k < 8
    ensures Bit(b, k) <==> b & Power(k) != 0
  {
    if k == 0 {} else if k == 1 {} else if k == 2 {} else if k == 3 {}
    else if k == 4 {} else if k == 5 {} else if k == 6 {} else {}
  }

  lemma PowersApart(k: nat, j: nat)
    requires k < 8 && j < 8 && k != j
    ensures Power(k) != Power(j) && Power(k) & Power(j) == 0
  {
  }

  lemma PowerNotZero(k: nat)
    requires k < 8
    ensures Power(k) != 0
  {
  }

  /** How a mask `q` sees the bits of `p` set or cleared. */
  lemma MaskedChange(b: bv8, p: bv8, q: bv8)
    requires q != 0 && (p == q || p & q == 0)
    ensures (b | p) & q != 0 <==> p == q || b & q != 0
    ensures (b & !p) & q != 0 <==> p != q && b & q != 0
  {
  }

  lemma ChangedBit(b: bv8, k: nat, j: nat)
    requires k < 8 && j < 8
    ensures Bit(SetBit(b, k), j) <==> j == k || Bit(b, j)
    ensures Bit(ClearBit(b, k), j) <==> j != k && Bit(b, j)
  {
    ShiftedOne(k);
    PowerNotZero(j);
    if k != j { PowersApart(k, j); }
    MaskedChange(b, Power(k), Power(j));
    hide Bit, Power;
    BitByMask(b, j);
    BitByMask(SetBit(b, k), j);
    BitByMask(ClearBit(b, k), j);
  }

  lemma WholeByte(j: nat)
    requires j < 8
    ensures Bit(0xFF, j) && !Bit(0, j)
  {
    BitByMask(0xFF, j);
    BitByMask(0, j);
  }

  lemma ByteExtensionality(a: bv8, b: bv8)
    requires forall k :: 0 <= k < 8 ==> (Bit(a, k) <==> Bit(b, k))
    ensures a == b
  {
    forall k | 0 <= k < 8
      ensures a & Power(k) == b & Power(k)
    {
      BitByMask(a, k);
      BitByMask(b, k);
      assert Bit(a, k) == Bit(b, k);
      if k == 0 {} else if k == 1 {} else if k == 2 {} else if k == 3 {}
      else if k == 4 {} else if k == 5 {} else if k == 6 {} else {}
    }
    assert a & Power(0) == b & Power(0) && a & Power(1) == b & Power(1) && a & Power(2) == b & Power(2);
    assert a & Power(3) == b & Power(3) && a & Power(4) == b & Power(4) && a & Power(5) == b & Power(5);
    assert a & Power(6) == b & Power(6) && a & Power(7) == b & Power(7);
  }

  lemma FullByte(b: bv8)
    ensures b == 0xFF <==> forall k :: 0 <= k < 8 ==> Bit(b, k)
  {
    forall k | 0 <= k < 8
      ensures Bit(0xFF, k)
    { WholeByte(k); }
    if forall k :: 0 <= k < 8 ==> Bit(b, k) { ByteExtensionality(b, 0xFF); }
  }

  lemma LowMaskBit(m: nat, j: nat)
    requires m < 8 && j < 8
    ensures Bit(LowMask(m), j) <==> j < m
  {
    BitByMask(LowMask(m), j);
    if m == 0 {} else if m == 1 {} else if m == 2 {} else if m == 3 {}
    else if m == 4 {} else if m == 5 {} else if m == 6 {} else {}
  }

  /** With no bits left, the last-byte code of do_unlink() tests and changes nothing. */
  lemma EmptyMask(b: bv8)
    ensures LowMask(0) == 0 && b & (0xFF << 0) == b
  {
  }

  lemma AndBit(a: bv8, b: bv8, j: nat)
    requires j < 8
    ensures Bit(a & b, j) <==> Bit(a, j) && Bit(b, j)
    ensures Bit(!a, j) <==> !Bit(a, j)
  {
    BitByMask(a, j);
    BitByMask(b, j);
    BitByMask(a & b, j);
    BitByMask(!a, j);
    if j == 0 {} else if j == 1 {} else if j == 2 {} else if j == 3 {}
    else if j == 4 {} else if j == 5 {} else if j == 6 {} else {}
  }

  /** `(b & mask) == mask` says that the low `m` bits are set; `b & (0xFF << m)` clears them. */
  lemma LowBits(b: bv8, m: nat)
    requires m < 8
    ensures b & LowMask(m) == LowMask(m) <==> forall j :: 0 <= j < m ==> Bit(b, j)
    ensures forall j :: 0 <= j < 8 ==> (Bit(b & (0xFF << m), j) <==> Bit(b, j) && j >= m)
  {
    var mask := LowMask(m);
    assert (0xFF as bv8) << m == !mask;
    forall j | 0 <= j < 8
      ensures Bit(b & mask, j) <==> Bit(b, j) && j < m
      ensures Bit(b & (0xFF << m), j) <==> Bit(b, j) && j >= m
      ensures Bit(mask, j) <==> j < m
    {
      LowMaskBit(m, j);
      AndBit(b, mask, j);
      AndBit(b, !mask, j);
      AndBit(mask, mask, j);
    }
    if forall j :: 0 <= j < m ==> Bit(b, j) { ByteExtensionality(b & mask, mask); }
    if b & mask == mask {
      forall j | 0 <= j < m
        ensures Bit(b, j)
      { assert Bit(mask, j) && Bit(b & mask, j); }
    }
  }

  // ---------------------------------------------------------------- bit sequences

  predicate BitAt(d: seq<bv8>, x: nat)
    requires x < 8 * |d|
  {
    Bit(d[x / 8], x % 8)
  }

  ghost predicate AllSet(d: seq<bv8>, lo: nat, hi: nat) {
    forall x :: lo <= x < hi && x < 8 * |d| ==> BitAt(d, x)
  }

  ghost predicate AllClear(d: seq<bv8>, lo: nat, hi: nat) {
    forall x :: lo <= x < hi && x < 8 * |d| ==> !BitAt(d, x)
  }

  /** `after` is `before` with the bits of [lo, hi) set, and no other bit changed. */
  ghost predicate SetRange(before: seq<bv8>, after: seq<bv8>, lo: nat, hi: nat) {
    && |after| == |before|
    && forall x :: 0 <= x < 8 * |before| ==> (BitAt(after, x) <==> BitAt(before, x) || lo <= x < hi)
  }

  ghost predicate ClearRange(before: seq<bv8>, after: seq<bv8>, lo: nat, hi: nat) {
    && |after| == |before|
    && forall x :: 0 <= x < 8 * |before| ==> (BitAt(after, x) <==> BitAt(before, x) && !(lo <= x < hi))
  }

  /** The first clear bit of [lo, hi), or `hi`. */
  function FirstClear(d: seq<bv8>, lo: nat, hi: nat): (r: nat)
    requires lo <= hi <= 8 * |d|
    ensures lo <= r <= hi && (forall x :: lo <= x < r ==> BitAt(d, x))
    ensures r < hi ==> !BitAt(d, r)
    decreases hi - lo
  {
    if lo == hi || !BitAt(d, lo) then lo else FirstClear(d, lo + 1, hi)
  }

  lemma FirstClearIs(d: seq<bv8>, lo: nat, hi: nat, x: nat)
    requires lo <= x < hi <= 8 * |d| && AllSet(d, lo, x) && !BitAt(d, x)
    ensures FirstClear(d, lo, hi) == x
  {
  }

  lemma {:induction false} FirstClearSame(d: seq<bv8>, d': seq<bv8>, lo: nat, hi: nat)
    requires lo <= hi <= 8 * |d| && |d'| == |d|
    requires forall x :: lo <= x < hi ==> (BitAt(d', x) <==> BitAt(d, x))
    ensures FirstClear(d', lo, hi) == FirstClear(d, lo, hi)
    decreases hi - lo
  {
    if lo < hi { FirstClearSame(d, d', lo + 1, hi); }
  }

  lemma EmptyRange(d: seq<bv8>, x: nat)
    ensures SetRange(d, d, x, x) && ClearRange(d, d, x, x) && AllClear(d, x, x) && AllSet(d, x, x)
  {
  }

  lemma JoinSet(d: seq<bv8>, x: nat, m: nat, y: nat)
    requires x <= m <= y
    ensures AllSet(d, x, y) <==> AllSet(d, x, m) && AllSet(d, m, y)
  {
  }

  lemma SetOneBit(before: seq<bv8>, after: seq<bv8>, lo: nat, x: nat)
    requires SetRange(before, after, lo, x) && lo <= x < 8 * |before|
    ensures SetRange(before, after[x / 8 := SetBit(after[x / 8], x % 8)], lo, x + 1)
  {
    var after' := after[x / 8 := SetBit(after[x / 8], x % 8)];
    forall y | 0 <= y < 8 * |before|
      ensures BitAt(after', y) <==> BitAt(before, y) || lo <= y < x + 1
    {
      if y / 8 == x / 8 { ChangedBit(after[x / 8], x % 8, y % 8); }
    }
  }

  lemma ClearOneBit(before: seq<bv8>, after: seq<bv8>, lo: nat, x: nat)
    requires ClearRange(before, after, lo, x) && lo <= x < 8 * |before|
    ensures ClearRange(before, after[x / 8 := ClearBit(after[x / 8], x % 8)], lo, x + 1)
  {
    var after' := after[x / 8 := ClearBit(after[x / 8], x % 8)];
    forall y | 0 <= y < 8 * |before|
      ensures BitAt(after', y) <==> BitAt(before, y) && !(lo <= y < x + 1)
    {
      if y / 8 == x / 8 { ChangedBit(after[x / 8], x % 8, y % 8); }
    }
  }

  lemma PrefixOfByte(d: seq<bv8>, a: nat, m: nat)
    requires a < |d| && m <= 8 && forall k :: 0 <= k < m ==> Bit(d[a], k)
    ensures AllSet(d, 8 * a, 8 * a + m)
    ensures m < 8 ==> (8 * a + m) / 8 == a && (8 * a + m) % 8 == m && BitAt(d, 8 * a + m) == Bit(d[a], m)
  {
    forall x | 8 * a <= x < 8 * a + m
      ensures BitAt(d, x)
    { assert x / 8 == a && Bit(d[a], x - 8 * a); }
  }

  /** Byte `a` gives way to `v`, which is the same with the low `m` bits cleared. */
  lemma ClearInByte(before: seq<bv8>, after: seq<bv8>, lo: nat, a: nat, v: bv8, m: nat)
    requires ClearRange(before, after, lo, 8 * a) && lo <= 8 * a && a < |before| && m <= 8
    requires forall k :: 0 <= k < 8 ==> (Bit(v, k) <==> Bit(after[a], k) && k >= m)
    ensures ClearRange(before, after[a := v], lo, 8 * a + m)
    ensures (forall k :: 0 <= k < m ==> Bit(after[a], k)) <==> AllSet(before, 8 * a, 8 * a + m)
  {
    hide Bit;
    forall y | 0 <= y < 8 * |before|
      ensures BitAt(after[a := v], y) <==> BitAt(before, y) && !(lo <= y < 8 * a + m)
    {
      assert BitAt(after, y) <==> BitAt(before, y) && !(lo <= y < 8 * a);
      if y / 8 == a { assert y == 8 * a + y % 8; }
    }
    forall k | 0 <= k < m
      ensures BitAt(before, 8 * a + k) == Bit(after[a], k)
    {
      assert (8 * a + k) / 8 == a && (8 * a + k) % 8 == k;
      assert BitAt(after, 8 * a + k) == BitAt(before, 8 * a + k);
    }
    if forall k :: 0 <= k < m ==> Bit(after[a], k) {
      forall y | 8 * a <= y < 8 * a + m
        ensures BitAt(before, y)
      { assert BitAt(before, 8 * a + (y - 8 * a)) == Bit(after[a], y - 8 * a); }
    }
    if AllSet(before, 8 * a, 8 * a + m) {
      forall k | 0 <= k < m
        ensures Bit(after[a], k)
      { assert BitAt(before, 8 * a + k); }
    }
  }

  lemma SetOneByte(before: seq<bv8>, after: seq<bv8>, lo: nat, a: nat)
    requires SetRange(before, after, lo, 8 * a) && lo <= 8 * a && a < |before|
    ensures SetRange(before, after[a := 0xFF], lo, 8 * a + 8)
  {
    FullByte(0xFF);
    hide Bit;
    forall y | 0 <= y < 8 * |before|
      ensures BitAt(after[a := 0xFF], y) <==> BitAt(before, y) || lo <= y < 8 * a + 8
    {
      assert BitAt(after, y) <==> BitAt(before, y) || lo <= y < 8 * a;
      if y / 8 == a { assert y == 8 * a + y % 8; }
    }
  }

  lemma ClearOneByte(before: seq<bv8>, after: seq<bv8>, lo: nat, a: nat)
    requires ClearRange(before, after, lo, 8 * a) && lo <= 8 * a && a < |before|
    ensures ClearRange(before, after[a := 0], lo, 8 * a + 8)
    ensures after[a] == 0xFF <==> AllSet(before, 8 * a, 8 * a + 8)
  {
    FullByte(after[a]);
    forall k | 0 <= k < 8
      ensures !Bit(0, k)
    { WholeByte(k); }
    ClearInByte(before, after, lo, a, 0, 8);
  }

  lemma ClearLowBits(before: seq<bv8>, after: seq<bv8>, lo: nat, a: nat, m: nat)
    requires ClearRange(before, after, lo, 8 * a) && lo <= 8 * a && a < |before| && m < 8
    ensures ClearRange(before, after[a := after[a] & (0xFF << m)], lo, 8 * a + m)
    ensures after[a] & LowMask(m) == LowMask(m) <==> AllSet(before, 8 * a, 8 * a + m)
  {
    assert |after| == |before|;
    LowBits(after[a], m);
    hide ClearRange, AllSet, LowMask, Bit;
    ClearInByte(before, after, lo, a, after[a] & (0xFF << m), m);
  }

  /** Equal bits from byte `n` on mean equal bytes there. */
  lemma EqualBitsFrom(a: seq<bv8>, b: seq<bv8>, n: nat)
    requires |a| == |b| && n <= |a| && forall x :: 8 * n <= x < 8 * |a| ==> (BitAt(a, x) <==> BitAt(b, x))
    ensures a[n..] == b[n..]
  {
    forall i | n <= i < |a|
      ensures a[i] == b[i]
    {
      forall k | 0 <= k < 8
        ensures Bit(a[i], k) <==> Bit(b[i], k)
      {
        assert (8 * i + k) / 8 == i && (8 * i + k) % 8 == k;
        assert BitAt(a, 8 * i + k) == BitAt(b, 8 * i + k);
      }
      ByteExtensionality(a[i], b[i]);
    }
  }

  lemma EqualBits(a: seq<bv8>, b: seq<bv8>)
    requires |a| == |b| && forall x :: 0 <= x < 8 * |a| ==> (BitAt(a, x) <==> BitAt(b, x))
    ensures a == b
  {
    EqualBitsFrom(a, b, 0);
    assert a[0..] == a && b[0..] == b;
  }

  /** Setting a clear range and clearing it again restores every byte. */
  lemma SetThenClear(before: seq<bv8>, middle: seq<bv8>, after: seq<bv8>, lo: nat, hi: nat)
    requires AllClear(before, lo, hi) && SetRange(before, middle, lo, hi) && ClearRange(middle, after, lo, hi)
    ensures after == before
  {
    EqualBits(after, before);
  }
}
