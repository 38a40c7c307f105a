/** The disk, the sector buffer, and the two allocation bitmaps of the file system. */
module SectorMap {
  import opened Prelude
  import opened Bits

  const SECTOR_SIZE: nat := 512
  const SECTOR_BITS: nat := 4096

  datatype SuperBlock = SuperBlock(nrImapSects: nat, nrSmapSects: nat, nrInodeSects: nat) {
    /** Boot sector, super block, the two maps and the inode array precede the data. */
    function N1stSect(): nat { 2 + nrImapSects + nrSmapSects + nrInodeSects }

    /** First bit of the i-map and of the s-map, counted from the start of the disk, and the end of the s-map. */
    function Imap(): nat { SECTOR_BITS * 2 }
    function Smap(): nat { SECTOR_BITS * (2 + nrImapSects) }
    function SmapEnd(): nat { SECTOR_BITS * (2 + nrImapSects + nrSmapSects) }
  }

  /** Division of C: towards zero. */
  function TruncDiv(a: int, b: nat): int
    requires b > 0
  {
    if a >= 0 then a / b else -((-a) / b)
  }

  class Disk {
    const data: array<bv8>     // the partition
    const fsbuf: array<bv8>    // the buffer of the file system task
    const sb: SuperBlock

    constructor (sb: SuperBlock, sects: nat, bufSects: nat)
      requires sb.nrImapSects >= 1 && sb.nrInodeSects >= 1 && sects >= sb.N1stSect() && bufSects >= 1
      ensures Valid() && fresh(data) && fresh(fsbuf) && this.sb == sb
      ensures data.Length == SECTOR_SIZE * sects && fsbuf.Length == SECTOR_SIZE * bufSects
      ensures forall j :: 0 <= j < data.Length ==> data[j] == 0
    {
      this.sb := sb;
      data := new bv8[SECTOR_SIZE * sects](_ => 0);
      fsbuf := new bv8[SECTOR_SIZE * bufSects](_ => 0);
    }

    predicate Valid() {
      && data != fsbuf && fsbuf.Length >= SECTOR_SIZE
      && sb.nrImapSects >= 1 && sb.nrInodeSects >= 1
      && SECTOR_SIZE * sb.N1stSect() <= data.Length
    }

    /** The disk as it will be once the buffer is written to sector `s`. */
    ghost function Image(s: nat): seq<bv8>
      requires Valid() && SECTOR_SIZE * (s + 1) <= data.Length
      reads data, fsbuf
    {
      data[..SECTOR_SIZE * s] + fsbuf[..SECTOR_SIZE] + data[SECTOR_SIZE * (s + 1)..]
    }

    method RdSect(s: nat)
      requires Valid() && SECTOR_SIZE * (s + 1) <= data.Length
      modifies fsbuf
      ensures Image(s) == data[..]
    {
      for a := 0 to SECTOR_SIZE
        invariant forall b :: 0 <= b < a ==> fsbuf[b] == data[SECTOR_SIZE * s + b]
      {
        fsbuf[a] := data[SECTOR_SIZE * s + a];
      }
    }

    method WrSect(s: nat)
      requires Valid() && SECTOR_SIZE * (s + 1) <= data.Length
      modifies data
      ensures data[..] == old(Image(s)) && Image(s) == data[..]
    {
      for a := 0 to SECTOR_SIZE
        invariant forall b :: 0 <= b < a ==> data[SECTOR_SIZE * s + b] == fsbuf[b]
        invariant forall b :: 0 <= b < data.Length && !(SECTOR_SIZE * s <= b < SECTOR_SIZE * s + a) ==> data[b] == old(data[b])
      {
        data[SECTOR_SIZE * s + a] := fsbuf[a];
      }
    }

    lemma ImageUpdate(s: nat, j: nat, v: bv8)
      requires Valid() && SECTOR_SIZE * (s + 1) <= data.Length && j < SECTOR_SIZE
      ensures data[..SECTOR_SIZE * s] + fsbuf[..SECTOR_SIZE][j := v] + data[SECTOR_SIZE * (s + 1)..]
           == Image(s)[SECTOR_SIZE * s + j := v]
      ensures Image(s)[SECTOR_SIZE * s + j] == fsbuf[j]
    {
    }

    /** The bytes of the sector in the buffer. */
    lemma InBuffer(s: nat, j: nat)
      requires Valid() && SECTOR_SIZE * (s + 1) <= data.Length && j < SECTOR_SIZE
      ensures |Image(s)| == data.Length && Image(s)[SECTOR_SIZE * s + j] == fsbuf[j]
    {
    }

    /** Store a byte in the buffer. */
    method Put(s: nat, j: nat, v: bv8)
      requires Valid() && SECTOR_SIZE * (s + 1) <= data.Length && j < SECTOR_SIZE
      modifies fsbuf
      ensures Image(s) == old(Image(s))[SECTOR_SIZE * s + j := v]
    {
      ImageUpdate(s, j, v);
      ghost var before := fsbuf[..SECTOR_SIZE];
      fsbuf[j] := v;
      assert fsbuf[..SECTOR_SIZE] == before[j := v];
    }

    /** The first clear bit of a byte that is not full. */
    static method FirstZero(b: bv8) returns (k: nat)
      requires b != 0xFF
      ensures k < 8 && !Bit(b, k) && forall j :: 0 <= j < k ==> Bit(b, j)
    {
      FullByte(b);
      k := 0;
      while Bit(b, k)
        invariant k < 8 && forall j :: 0 <= j < k ==> Bit(b, j)
        decreases 8 - k
      {
        k := k + 1;
      }
    }

    /**
     alloc_imap_bit(): take the first clear bit of the first i-map sector. A full first sector is not
     noticed: the answer is 0 and nothing is marked.
     */
    method AllocImapBit() returns (inodeNr: nat)
      requires Valid()
      modifies data, fsbuf
      ensures var x := FirstClear(old(data[..]), sb.Imap(), sb.Imap() + SECTOR_BITS);
              if x < sb.Imap() + SECTOR_BITS
              then inodeNr == x - sb.Imap() && SetRange(old(data[..]), data[..], x, x + 1)
              else inodeNr == 0 && data[..] == old(data[..])
    {
      hide Bit, SetBit;
      ghost var before := data[..];
      RdSect(2);
      var j := 0;
      while j < SECTOR_SIZE
        invariant j <= SECTOR_SIZE && Image(2) == before && data[..] == before
        invariant AllSet(before, sb.Imap(), sb.Imap() + 8 * j)
      {
        if fsbuf[j] != 0xFF {
          var k := FirstZero(fsbuf[j]);
          ghost var x := sb.Imap() + 8 * j + k;
          PrefixOfByte(before, SECTOR_SIZE * 2 + j, k);
          FirstClearIs(before, sb.Imap(), sb.Imap() + SECTOR_BITS, x);
          hide AllSet, FirstClear;
          SetOneBit(before, before, x, x);
          Put(2, j, SetBit(fsbuf[j], k));
          WrSect(2);
          return 8 * j + k;
        }
        FullByte(fsbuf[j]);
        PrefixOfByte(before, SECTOR_SIZE * 2 + j, 8);
        j := j + 1;
      }
      return 0;
    }

    /** The innermost loop of alloc_smap_bit(): mark from bit `k0` on, until the byte or the wish ends. */
    method MarkByte(s: nat, j: nat, k0: nat, left0: nat, ghost before: seq<bv8>, ghost lo: nat)
      returns (ok: bool, left: nat)
      requires Valid() && SECTOR_SIZE * (s + 1) <= data.Length && j < SECTOR_SIZE && k0 < 8 && left0 > 0
      requires lo <= 8 * (SECTOR_SIZE * s + j) + k0
      requires SetRange(before, Image(s), lo, 8 * (SECTOR_SIZE * s + j) + k0)
      modifies fsbuf
      ensures var x, taken := 8 * (SECTOR_SIZE * s + j) + k0, if left0 < 8 - k0 then left0 else 8 - k0;
              && (ok <==> AllClear(before, x, x + taken))
              && (ok ==> left == left0 - taken && SetRange(before, Image(s), lo, x + taken))
    {
      hide Bit, SetBit;
      ghost var x0 := 8 * (SECTOR_SIZE * s + j) + k0;
      left := left0;
      var k := k0;
      while k < 8
        invariant k0 <= k <= 8 && left == left0 - (k - k0) && left > 0
        invariant SetRange(before, Image(s), lo, x0 + (k - k0)) && AllClear(before, x0, x0 + (k - k0))
      {
        ghost var x := x0 + (k - k0);
        assert x / 8 == SECTOR_SIZE * s + j && x % 8 == k;
        assert BitAt(Image(s), x) == Bit(fsbuf[j], k);
        assert BitAt(before, x) == BitAt(Image(s), x);
        if Bit(fsbuf[j], k) { return false, left; }
        SetOneBit(before, Image(s), lo, x);
        Put(s, j, SetBit(fsbuf[j], k));
        left := left - 1;
        if left == 0 { return true, left; }
        k := k + 1;
      }
      ok := true;
    }

    /** The first clear bit of the s-map, and whether `nr` clear bits of the map start there. */
    ghost function FirstFree(d: seq<bv8>): nat
      requires Valid() && |d| == data.Length
    {
      FirstClear(d, sb.Smap(), sb.SmapEnd())
    }

    ghost predicate RunFits(d: seq<bv8>, nr: nat)
      requires Valid() && |d| == data.Length
    {
      FirstFree(d) + nr <= sb.SmapEnd() && AllClear(d, FirstFree(d), FirstFree(d) + nr)
    }

    /** The middle loop of alloc_smap_bit(): the bytes of sector `i` of the s-map, which is in the buffer. */
    method MarkSector(i: nat, nr: nat, left0: nat, freeSectNr0: nat, ghost before: seq<bv8>, ghost b: nat)
      returns (ok: bool, left: nat, freeSectNr: nat)
      requires Valid() && i < sb.nrSmapSects && |before| == data.Length && left0 > 0 && nr > 0 && b == FirstFree(before)
      requires Scan(before, Image(2 + sb.nrImapSects + i), b, nr, left0, freeSectNr0, sb.Smap() + SECTOR_BITS * i)
      modifies fsbuf
      ensures ok ==> Scan(before, Image(2 + sb.nrImapSects + i), b, nr, left, freeSectNr, sb.Smap() + SECTOR_BITS * (i + 1))
      ensures !ok ==> !RunFits(before, nr)
    {
      hide Scan, RunFits, FirstFree;
      left, freeSectNr := left0, freeSectNr0;
      ghost var s := 2 + sb.nrImapSects + i;
      var j := 0;
      while j < SECTOR_SIZE && left > 0
        invariant j <= SECTOR_SIZE
        invariant Scan(before, Image(s), b, nr, left, freeSectNr, sb.Smap() + SECTOR_BITS * i + 8 * j)
      {
        ok, left, freeSectNr := MarkFrom(i, j, nr, left, freeSectNr, before, b);
        if !ok { return; }
        j := j + 1;
      }
      if left == 0 {
        ScanDone(before, Image(s), b, nr, freeSectNr, sb.Smap() + SECTOR_BITS * i + 8 * j, sb.Smap() + SECTOR_BITS * (i + 1));
      }
      ok := true;
    }

    /** Once everything is marked, it does not matter where the search stands. */
    lemma ScanDone(before: seq<bv8>, image: seq<bv8>, b: nat, nr: nat, freeSectNr: nat, x: nat, y: nat)
      requires Valid() && |before| == data.Length && nr > 0 && Scan(before, image, b, nr, 0, freeSectNr, x)
      ensures Scan(before, image, b, nr, 0, freeSectNr, y)
    {
    }

    /** The body of that loop: one byte. */
    method MarkFrom(i: nat, j: nat, nr: nat, left0: nat, freeSectNr0: nat, ghost before: seq<bv8>, ghost b: nat)
      returns (ok: bool, left: nat, freeSectNr: nat)
      requires Valid() && i < sb.nrSmapSects && j < SECTOR_SIZE
      requires |before| == data.Length && left0 > 0 && nr > 0 && b == FirstFree(before)
      requires Scan(before, Image(2 + sb.nrImapSects + i), b, nr, left0, freeSectNr0, sb.Smap() + SECTOR_BITS * i + 8 * j)
      modifies fsbuf
      ensures ok ==> Scan(before, Image(2 + sb.nrImapSects + i), b, nr, left, freeSectNr,
                          sb.Smap() + SECTOR_BITS * i + 8 * (j + 1))
      ensures !ok ==> !RunFits(before, nr)
    {
      hide Bit, SetBit, BitAt, SetRange;
      left, freeSectNr := left0, freeSectNr0;
      var s := 2 + sb.nrImapSects + i;
      ghost var x := sb.Smap() + SECTOR_BITS * i + 8 * j;
      assert x == 8 * (SECTOR_SIZE * s + j);
      var k := 0;
      if freeSectNr == 0 {
        assert before[SECTOR_SIZE * s + j] == fsbuf[j];
        if fsbuf[j] == 0xFF {
          FullByte(fsbuf[j]);
          PrefixOfByte(before, SECTOR_SIZE * s + j, 8);
          return true, left, freeSectNr;
        }
        k := FirstZero(fsbuf[j]);
        PrefixOfByte(before, SECTOR_SIZE * s + j, k);
        FirstClearIs(before, sb.Smap(), sb.SmapEnd(), x + k);
        EmptyRange(before, x + k);
        freeSectNr := (i * SECTOR_SIZE + j) * 8 + k - 1 + sb.N1stSect();
      }
      ok, left := MarkByte(s, j, k, left, before, b);
    }

    /**
     alloc_smap_bit(): mark `nr` bits from the first clear one on. It comes to an end without a failed
     assertion exactly when the first clear bit starts a run of `nr` clear bits; then it marks exactly
     that run and answers the number of its first sector.
     */
    method AllocSmapBit(nr: nat) returns (r: Option<nat>)
      requires Valid() && nr > 0
      modifies data, fsbuf
      ensures r.Some? <==> RunFits(old(data[..]), nr)
      ensures r.Some? ==>
                var x := FirstFree(old(data[..]));
                r.value == x - sb.Smap() - 1 + sb.N1stSect() && SetRange(old(data[..]), data[..], x, x + nr)
    {
      hide Bit, BitAt, SetRange, AllClear;
      ghost var before, b := data[..], FirstFree(data[..]);
      var left := nr;
      var freeSectNr: nat := 0;
      var i := 0;
      while i < sb.nrSmapSects
        invariant i <= sb.nrSmapSects && left > 0
        invariant Scan(before, data[..], b, nr, left, freeSectNr, sb.Smap() + SECTOR_BITS * i)
      {
        RdSect(2 + sb.nrImapSects + i);
        var ok;
        ok, left, freeSectNr := MarkSector(i, nr, left, freeSectNr, before, b);
        if !ok { return None; }
        if freeSectNr != 0 { WrSect(2 + sb.nrImapSects + i); }
        if left == 0 { return Some(freeSectNr); }
        i := i + 1;
      }
      return None;
    }

    /**
     The state of the search at bit `x`: still skipping set bits, or `nr - left` bits from the first
     clear one on are marked and were clear.
     */
    ghost predicate Scan(before: seq<bv8>, image: seq<bv8>, b: nat, nr: nat, left: nat, freeSectNr: nat, x: nat)
      requires Valid() && |before| == data.Length
    {
      if freeSectNr == 0 then
        image == before && left == nr && AllSet(before, sb.Smap(), x)
      else
        && b == FirstFree(before) && left <= nr
        && freeSectNr == b - sb.Smap() - 1 + sb.N1stSect()
        && SetRange(before, image, b, b + (nr - left)) && AllClear(before, b, b + (nr - left))
        && b + (nr - left) <= sb.SmapEnd() && (left > 0 ==> b + (nr - left) == x)
    }

    /** The i-map part of do_unlink(): its assertions hold exactly for a marked bit of the first sector. */
    method FreeImapBit(inodeNr: nat) returns (ok: bool)
      requires Valid()
      modifies data, fsbuf
      ensures ok <==> inodeNr < SECTOR_BITS && BitAt(old(data[..]), sb.Imap() + inodeNr)
      ensures ok ==> ClearRange(old(data[..]), data[..], sb.Imap() + inodeNr, sb.Imap() + inodeNr + 1)
    {
      hide Bit, ClearBit;
      var byteIdx, bitIdx := inodeNr / 8, inodeNr % 8;
      if byteIdx >= SECTOR_SIZE { return false; }
      RdSect(2);
      ghost var x := sb.Imap() + inodeNr;
      assert x / 8 == SECTOR_SIZE * 2 + byteIdx && x % 8 == bitIdx;
      assert fsbuf[byteIdx] == Image(2)[x / 8];
      if !Bit(fsbuf[byteIdx], bitIdx) { return false; }
      EmptyRange(data[..], x);
      ClearOneBit(data[..], data[..], x, x);
      Put(2, byteIdx, ClearBit(fsbuf[byteIdx], bitIdx));
      WrSect(2);
      ok := true;
    }

    /** First loop of the s-map part: the bits from `bitIdx` to the end of its byte, or to the end of the extent. */
    method ClearFirstByte(s: nat, j: nat, k0: nat, left0: nat, ghost before: seq<bv8>) returns (ok: bool, left: nat)
      requires Valid() && SECTOR_SIZE * (s + 1) <= data.Length && j < SECTOR_SIZE && k0 < 8
      requires Image(s) == before
      modifies fsbuf
      ensures var x, taken := 8 * (SECTOR_SIZE * s + j) + k0, if left0 < 8 - k0 then left0 else 8 - k0;
              && (ok <==> AllSet(before, x, x + taken))
              && (ok ==> left == left0 - taken && ClearRange(before, Image(s), x, x + taken))
    {
      hide Bit, ClearBit;
      ghost var x0 := 8 * (SECTOR_SIZE * s + j) + k0;
      left := left0;
      var k := k0;
      while k < 8 && left > 0
        invariant k0 <= k <= 8 && left == left0 - (k - k0)
        invariant ClearRange(before, Image(s), x0, x0 + (k - k0)) && AllSet(before, x0, x0 + (k - k0))
      {
        ghost var x := x0 + (k - k0);
        assert x / 8 == SECTOR_SIZE * s + j && x % 8 == k;
        assert BitAt(Image(s), x) == Bit(fsbuf[j], k);
        assert BitAt(before, x) == BitAt(Image(s), x);
        if !Bit(fsbuf[j], k) { return false, left; }
        ClearOneBit(before, Image(s), x0, x);
        Put(s, j, ClearBit(fsbuf[j], k));
        left := left - 1;
        k := k + 1;
      }
      ok := true;
    }

    /** `if (i == SECTOR_SIZE)`: write the finished sector back and go on with the next one. */
    method Advance(s0: nat, i0: nat) returns (s: nat, i: nat)
      requires Valid() && SECTOR_SIZE * (s0 + 1) <= data.Length && i0 <= SECTOR_SIZE
      requires i0 == SECTOR_SIZE ==> SECTOR_SIZE * (s0 + 2) <= data.Length
      modifies data, fsbuf
      ensures i < SECTOR_SIZE && SECTOR_SIZE * s + i == SECTOR_SIZE * s0 + i0
      ensures SECTOR_SIZE * (s + 1) <= data.Length && Image(s) == old(Image(s0))
    {
      s, i := s0, i0;
      if i == SECTOR_SIZE {
        i := 0;
        WrSect(s);
        s := s + 1;
        RdSect(s);
      }
    }

    /** The bytes between the first and the last one, across sectors. */
    method ClearWholeBytes(s0: nat, i0: nat, byteCnt: int, left0: nat, ghost before: seq<bv8>, ghost x: nat)
      returns (ok: bool, s: nat, i: nat, left: nat)
      requires Valid() && SECTOR_SIZE * (s0 + 1) <= data.Length == |before| && i0 <= SECTOR_SIZE
      requires byteCnt > 0 ==> 8 * byteCnt <= left0
      requires SECTOR_SIZE * s0 + i0 + (if byteCnt > 0 then byteCnt else 0) <= SECTOR_SIZE * (2 + sb.nrImapSects + sb.nrSmapSects) + 1
      requires x <= 8 * (SECTOR_SIZE * s0 + i0)
      requires byteCnt > 0 ==> ClearRange(before, Image(s0), x, 8 * (SECTOR_SIZE * s0 + i0))
      requires byteCnt > 0 ==> AllSet(before, x, 8 * (SECTOR_SIZE * s0 + i0))
      modifies data, fsbuf
      ensures byteCnt <= 0 ==> ok && s == s0 && i == i0 && left == left0 && Image(s0) == old(Image(s0))
      ensures byteCnt > 0 ==>
                var end := 8 * (SECTOR_SIZE * s0 + i0 + byteCnt);
                && (ok <==> AllSet(before, x, end))
                && (ok ==> && SECTOR_SIZE * (s + 1) <= data.Length && i <= SECTOR_SIZE
                           && 8 * (SECTOR_SIZE * s + i) == end && left == left0 - 8 * byteCnt
                           && ClearRange(before, Image(s), x, end))
    {
      hide Bit, BitAt, ClearRange;
      s, i, left := s0, i0, left0;
      var k := 0;
      while k < byteCnt
        invariant 0 <= k && (if byteCnt > 0 then k <= byteCnt else k == 0) && left == left0 - 8 * k && i <= SECTOR_SIZE
        invariant SECTOR_SIZE * (s + 1) <= data.Length && SECTOR_SIZE * s + i == SECTOR_SIZE * s0 + i0 + k
        invariant k == 0 ==> s == s0 && i == i0 && Image(s0) == old(Image(s0))
        invariant byteCnt > 0 ==> ClearRange(before, Image(s), x, 8 * (SECTOR_SIZE * s + i))
        invariant byteCnt > 0 ==> AllSet(before, x, 8 * (SECTOR_SIZE * s + i))
      {
        s, i := Advance(s, i);
        ClearOneByte(before, Image(s), x, SECTOR_SIZE * s + i);
        InBuffer(s, i);
        if fsbuf[i] != 0xFF { return false, s, i, left; }
        Put(s, i, 0);
        k, i, left := k + 1, i + 1, left - 8;
      }
      ok := true;
    }

    /** Where the first byte lies, and how many whole bytes follow it. */
    lemma Geometry(bitIdx: nat, nr: nat, s: nat)
      requires Valid() && sb.Smap() + bitIdx + nr <= sb.SmapEnd()
      requires s == 2 + sb.nrImapSects + bitIdx / 8 / SECTOR_SIZE
      ensures SECTOR_SIZE * (s + 1) <= data.Length
      ensures 8 * (SECTOR_SIZE * s + bitIdx / 8 % SECTOR_SIZE) + bitIdx % 8 == sb.Smap() + bitIdx
      ensures var first, n := 8 - bitIdx % 8, TruncDiv(nr - (8 - bitIdx % 8), 8);
              if nr < first then n <= 0
              else 0 <= nr - first - 8 * n < 8 && n >= 0
                   && SECTOR_SIZE * s + bitIdx / 8 % SECTOR_SIZE + 1 + n <= SECTOR_SIZE * (2 + sb.nrImapSects + sb.nrSmapSects)
      ensures SECTOR_SIZE * s + bitIdx / 8 % SECTOR_SIZE <= SECTOR_SIZE * (2 + sb.nrImapSects + sb.nrSmapSects)
    {
    }

    /**
     The s-map part of do_unlink(): a first byte, whole bytes in between, a last byte. All its
     assertions hold exactly when every bit of the extent is marked; then exactly these are cleared.
     */
    method FreeSmapBits(startSect: nat, nr: nat) returns (ok: bool)
      requires Valid() && startSect >= sb.N1stSect()
      requires sb.Smap() + (startSect - sb.N1stSect() + 1) + nr <= sb.SmapEnd()
      modifies data, fsbuf
      ensures var x := sb.Smap() + (startSect - sb.N1stSect() + 1);
              && (ok <==> AllSet(old(data[..]), x, x + nr))
              && (ok ==> ClearRange(old(data[..]), data[..], x, x + nr))
    {
      hide Bit, BitAt, ClearRange, TruncDiv, AllSet;
      ghost var before := data[..];
      var bitIdx := startSect - sb.N1stSect() + 1;
      var byteIdx := bitIdx / 8;
      var byteCnt := TruncDiv(nr - (8 - bitIdx % 8), 8);
      var s := 2 + sb.nrImapSects + byteIdx / SECTOR_SIZE;
      ghost var x := sb.Smap() + bitIdx;
      Geometry(bitIdx, nr, s);
      RdSect(s);
      var left: nat;
      ok, left := ClearFirstByte(s, byteIdx % SECTOR_SIZE, bitIdx % 8, nr, before);
      JoinSet(before, x, x + (if nr < 8 - bitIdx % 8 then nr else 8 - bitIdx % 8), x + nr);
      if !ok { return; }
      var i: nat := byteIdx % SECTOR_SIZE + 1;
      ghost var done := x + (nr - left);
      assert left > 0 ==> 8 * (SECTOR_SIZE * s + i) == done;
      if byteCnt > 0 {
        done := 8 * (SECTOR_SIZE * s + i + byteCnt);
        JoinSet(before, x, done, x + nr);
      }
      ok, s, i, left := ClearWholeBytes(s, i, byteCnt, left, before, x);
      if !ok { return; }
      assert done == x + (nr - left) && (left > 0 ==> done == 8 * (SECTOR_SIZE * s + i)) && left < 8;
      assert ClearRange(before, Image(s), x, done) && AllSet(before, x, done);
      ok := FreeTail(s, i, left, before, x, done);
    }

    method FreeTail(s0: nat, i0: nat, left: nat, ghost before: seq<bv8>, ghost x: nat, ghost done: nat) returns (ok: bool)
      requires Valid() && SECTOR_SIZE * (s0 + 1) <= data.Length == |before| && i0 <= SECTOR_SIZE && left < 8
      requires i0 == SECTOR_SIZE ==> SECTOR_SIZE * (s0 + 2) <= data.Length
      requires ClearRange(before, Image(s0), x, done) && AllSet(before, x, done) && x <= done
      requires left > 0 ==> done == 8 * (SECTOR_SIZE * s0 + i0)
      modifies data, fsbuf
      ensures ok <==> AllSet(before, x, done + left)
      ensures ok ==> ClearRange(before, data[..], x, done + left)
    {
      var s, i := Advance(s0, i0);
      ok := ClearLastByte(s, i, left, before, x, done);
    }

    /** The last byte: test and clear the `left` bits that remain. */
    method ClearLastByte(s: nat, i: nat, left: nat, ghost before: seq<bv8>, ghost x: nat, ghost done: nat)
      returns (ok: bool)
      requires Valid() && SECTOR_SIZE * (s + 1) <= data.Length == |before| && i < SECTOR_SIZE && left < 8
      requires ClearRange(before, Image(s), x, done) && AllSet(before, x, done) && x <= done
      requires left > 0 ==> done == 8 * (SECTOR_SIZE * s + i)
      modifies data, fsbuf
      ensures ok <==> AllSet(before, x, done + left)
      ensures ok ==> ClearRange(before, data[..], x, done + left)
    {
      hide Bit, BitAt, ClearRange;
      EmptyMask(fsbuf[i]);
      InBuffer(s, i);
      if left > 0 { ClearLowBits(before, Image(s), x, SECTOR_SIZE * s + i, left); }
      var mask := LowMask(left);
      if fsbuf[i] & mask != mask { return false; }
      ghost var image := Image(s);
      Put(s, i, fsbuf[i] & (0xFF << left));
      assert left == 0 ==> Image(s) == image;
      WrSect(s);
      ok := true;
    }

    /** memset(fsbuf, 0, SECTOR_SIZE), for a buffer that will be written to sector `s`. */
    method ClearBuffer(ghost s: nat)
      requires Valid() && SECTOR_SIZE * (s + 1) <= data.Length
      modifies fsbuf
      ensures ClearRange(data[..], Image(s), SECTOR_BITS * s, SECTOR_BITS * (s + 1))
      ensures forall a :: 0 <= a < SECTOR_SIZE ==> fsbuf[a] == 0
    {
      for a := 0 to SECTOR_SIZE
        invariant forall b :: 0 <= b < a ==> fsbuf[b] == 0
      {
        fsbuf[a] := 0;
      }
      forall x | 0 <= x < 8 * data.Length
        ensures BitAt(Image(s), x) <==> BitAt(data[..], x) && !(SECTOR_BITS * s <= x < SECTOR_BITS * (s + 1))
      {
        WholeByte(x % 8);
        if SECTOR_BITS * s <= x < SECTOR_BITS * (s + 1) {
          assert Image(s)[x / 8] == fsbuf[x / 8 - SECTOR_SIZE * s];
        }
      }
    }

    /** The i-map of mkfs(): bit 0, the root, the terminals and the command archive. */
    method MkfsImap(nrConsoles: nat)
      requires Valid() && nrConsoles + 3 <= 8
      modifies data, fsbuf
      ensures ClearedThenSet(old(data[..]), data[..], sb.Imap(), sb.Imap() + SECTOR_BITS, sb.Imap(), sb.Imap() + nrConsoles + 3)
    {
      ClearBuffer(2);
      ghost var cleared := Image(2);
      EmptyRange(cleared, sb.Imap());
      for i := 0 to nrConsoles + 3
        invariant SetRange(cleared, Image(2), sb.Imap(), sb.Imap() + i)
      {
        SetOneBit(cleared, Image(2), sb.Imap(), sb.Imap() + i);
        InBuffer(2, 0);
        Put(2, 0, SetBit(fsbuf[0], i));
      }
      WrSect(2);
    }

    /** The s-map of mkfs(): bit 0 and the `fileSects` sectors of the root directory; all other bits clear. */
    method MkfsSmap(fileSects: nat)
      requires Valid() && fileSects + 8 <= SECTOR_BITS && sb.nrSmapSects >= 1
      modifies data, fsbuf
      ensures ClearedThenSet(old(data[..]), data[..], sb.Smap(), sb.SmapEnd(), sb.Smap(), sb.Smap() + fileSects + 1)
    {
      hide Bit, BitAt, SetBit;
      ghost var before := data[..];
      var s := 2 + sb.nrImapSects;
      ClearBuffer(s);
      ghost var cleared := Image(s);
      var nrSects := fileSects + 1;
      EmptyRange(cleared, sb.Smap());
      var i := 0;
      while i < nrSects / 8
        invariant i <= nrSects / 8 && SetRange(cleared, Image(s), sb.Smap(), sb.Smap() + 8 * i)
      {
        SetOneByte(cleared, Image(s), sb.Smap(), SECTOR_SIZE * s + i);
        Put(s, i, 0xFF);
        i := i + 1;
      }
      for j := 0 to nrSects % 8
        invariant SetRange(cleared, Image(s), sb.Smap(), sb.Smap() + 8 * i + j)
      {
        ghost var x := sb.Smap() + 8 * i + j;
        assert x / 8 == SECTOR_SIZE * s + i && x % 8 == j;
        SetOneBit(cleared, Image(s), sb.Smap(), x);
        InBuffer(s, i);
        Put(s, i, SetBit(fsbuf[i], j));
      }
      WrSect(s);
      assert ClearedThenSet(before, data[..], sb.Smap(), sb.Smap() + SECTOR_BITS, sb.Smap(), sb.Smap() + nrSects);
      ClearBuffer(s);
      for m := 1 to sb.nrSmapSects
        invariant forall a :: 0 <= a < SECTOR_SIZE ==> fsbuf[a] == 0
        invariant ClearedThenSet(before, data[..], sb.Smap(), sb.Smap() + SECTOR_BITS * m, sb.Smap(), sb.Smap() + nrSects)
      {
        ZeroSector(s + m, before, sb.Smap(), sb.Smap() + nrSects);
      }
    }

    method ZeroSector(s: nat, ghost before: seq<bv8>, ghost lo: nat, ghost mark: nat)
      requires Valid() && SECTOR_SIZE * (s + 1) <= data.Length && lo <= mark <= SECTOR_BITS * s
      requires forall a :: 0 <= a < SECTOR_SIZE ==> fsbuf[a] == 0
      requires ClearedThenSet(before, data[..], lo, SECTOR_BITS * s, lo, mark)
      modifies data
      ensures ClearedThenSet(before, data[..], lo, SECTOR_BITS * (s + 1), lo, mark)
    {
      ghost var was := data[..];
      WrSect(s);
      forall x | 0 <= x < 8 * data.Length
        ensures BitAt(data[..], x) <==> BitAt(was, x) && !(SECTOR_BITS * s <= x < SECTOR_BITS * (s + 1))
      {
        WholeByte(x % 8);
      }
    }

    /** One more bit of the sector in the buffer. */
    method MarkBit(s: nat, bitOff: nat, ghost before: seq<bv8>, ghost lo: nat)
      requires Valid() && SECTOR_SIZE * (s + 1) <= data.Length == |before| && bitOff < SECTOR_BITS
      requires lo <= SECTOR_BITS * s + bitOff && SetRange(before, Image(s), lo, SECTOR_BITS * s + bitOff)
      modifies fsbuf
      ensures SetRange(before, Image(s), lo, SECTOR_BITS * s + bitOff + 1)
    {
      hide Bit, BitAt, SetBit, SetRange;
      ghost var x := SECTOR_BITS * s + bitOff;
      assert x / 8 == SECTOR_SIZE * s + bitOff / 8 && x % 8 == bitOff % 8;
      SetOneBit(before, Image(s), lo, x);
      InBuffer(s, bitOff / 8);
      Put(s, bitOff / 8, SetBit(fsbuf[bitOff / 8], bitOff % 8));
    }

    /** The command archive of mkfs(): `nr` bits from the one of `startSect` on, bit by bit. */
    method MkfsArchive(startSect: nat, nr: nat)
      requires Valid() && startSect >= sb.N1stSect()
      requires sb.Smap() + (startSect - sb.N1stSect() + 1) + nr <= sb.SmapEnd()
      modifies data, fsbuf
      ensures var x := sb.Smap() + (startSect - sb.N1stSect() + 1);
              SetRange(old(data[..]), data[..], x, x + nr)
    {
      hide Bit, BitAt, SetBit, SetRange;
      var bitOffset := startSect - sb.N1stSect() + 1;
      var bitOff: nat := bitOffset % SECTOR_BITS;
      var left: nat := nr;
      var cur := 2 + sb.nrImapSects + bitOffset / SECTOR_BITS;
      ghost var before, x0 := data[..], sb.Smap() + bitOffset;
      RdSect(cur);
      EmptyRange(before, x0);
      while left > 0
        invariant left <= nr && bitOff < SECTOR_BITS && SECTOR_SIZE * (cur + 1) <= data.Length
        invariant SECTOR_BITS * cur + bitOff == x0 + (nr - left)
        invariant SetRange(before, Image(cur), x0, x0 + (nr - left)) && |before| == data.Length
      {
        MarkBit(cur, bitOff, before, x0);
        left := left - 1;
        bitOff := bitOff + 1;
        if bitOff == SECTOR_BITS {
          WrSect(cur);
          cur := cur + 1;
          RdSect(cur);
          bitOff := 0;
        }
      }
      WrSect(cur);
    }
  }

  /** `after` is `before` with [lo, hi) cleared, and then [a, b) set. */
  ghost predicate ClearedThenSet(before: seq<bv8>, after: seq<bv8>, lo: nat, hi: nat, a: nat, b: nat) {
    && |after| == |before|
    && forall x :: 0 <= x < 8 * |before| ==>
         (BitAt(after, x) <==> a <= x < b || (BitAt(before, x) && !(lo <= x < hi)))
  }

  /** The one i-map sector is full: the answer is 0, the number that is reserved, and nothing is marked. */
  method FullSectorAnswersZero() returns (disk: Disk, inodeNr: nat)
    ensures disk.Valid() && disk.sb == SuperBlock(1, 1, 256) && inodeNr == 0
    ensures forall j :: 0 <= j < disk.data.Length ==> disk.data[j] == if 2 * SECTOR_SIZE <= j < 3 * SECTOR_SIZE then 0xFF else 0
  {
    disk := new Disk(SuperBlock(1, 1, 256), 264, 1);
    for k := 2 * SECTOR_SIZE to 3 * SECTOR_SIZE
      invariant forall j :: 0 <= j < disk.data.Length ==> disk.data[j] == if 2 * SECTOR_SIZE <= j < k then 0xFF else 0
    {
      disk.data[k] := 0xFF;
    }
    ghost var d := disk.data[..];
    FullByte(0xFF);
    hide Bit;
    forall x | disk.sb.Imap() <= x < disk.sb.Imap() + SECTOR_BITS
      ensures BitAt(d, x)
    { assert d[x / 8] == 0xFF; }
    inodeNr := disk.AllocImapBit();
    assert forall j :: 0 <= j < disk.data.Length ==> disk.data[j] == d[j];
  }
}
