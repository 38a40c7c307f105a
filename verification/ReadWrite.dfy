/** Reading and writing a file through the sector buffer, chunk by chunk. */
module ReadWrite {
  import opened LittleEndian
  import opened Prelude
  import opened SectorMap

  function Min(a: int, b: int): int { if a < b then a else b }
  function Max(a: int, b: int): int { if a > b then a else b }

  datatype Whence = SEEK_SET | SEEK_CUR | SEEK_END

  /** do_lseek(): the new position, or None for the answer -1. */
  function Seek(pos: nat, size: nat, off: int, whence: Whence): Option<nat> {
    var target := match whence case SEEK_SET => off case SEEK_CUR => pos + off case SEEK_END => size + off;
    if target > size || target < 0 then None else Some(target)
  }

  /** How many sectors the loop passes: `n`, rounded up to whole chunks. */
  function RoundUp(n: int, chunk: nat): (r: nat)
    requires chunk > 0
    ensures r >= n && (n <= 0 ==> r == 0) && (0 < n <= chunk ==> r == chunk)
    decreases Max(n, 0)
  {
    if n <= 0 then 0 else chunk + RoundUp(n - chunk, chunk)
  }

  const I_REGULAR: nat := 0x8000

  /** The cached inode, and the position of the descriptor. */
  datatype File = File(num: nat, mode: nat, start: nat, nr: nat, size: nat, pos: nat) {
    /** Where the clamped transfer ends, and how many sectors its ends span. */
    function End(write: bool, len: nat): nat { Min(pos + len, if write then nr * SECTOR_SIZE else size) }

    function Span(write: bool, len: nat): int { End(write, len) / SECTOR_SIZE - pos / SECTOR_SIZE + 1 }

    function Chunk(write: bool, len: nat, bufSects: nat): int { Min(Span(write, len), bufSects) }

    /** The bytes that the loop moves: it counts down `len`, not the clamped length. */
    function Moved(write: bool, len: nat, bufSects: nat): nat
      requires bufSects > 0
    {
      if Span(write, len) <= 0 then 0
      else Min(len, RoundUp(Span(write, len), Chunk(write, len, bufSects)) * SECTOR_SIZE - pos % SECTOR_SIZE)
    }

    /** The sectors that the loop reads, and writes back, all lie on the disk. */
    predicate OnDevice(write: bool, len: nat, bufSects: nat, sects: nat)
      requires bufSects > 0
    {
      Span(write, len) > 0 ==>
        start + pos / SECTOR_SIZE + RoundUp(Span(write, len), Chunk(write, len, bufSects)) <= sects
    }

    function Address(): nat { start * SECTOR_SIZE + pos }
  }

  /** In range, exactly `len` bytes move. */
  lemma InRangeMovesAll(f: File, write: bool, len: nat, bufSects: nat)
    requires bufSects > 0 && f.pos + len <= if write then f.nr * SECTOR_SIZE else f.size
    ensures f.Moved(write, len, bufSects) == len
  {
    assert f.Span(write, len) * SECTOR_SIZE - f.pos % SECTOR_SIZE >= len;
  }

  /** A read leaves `i_size` alone exactly when it stays within the file; past the end it makes the file longer. */
  lemma ReadKeepsSizeIff(f: File, len: nat, bufSects: nat)
    requires bufSects > 0
    ensures Max(f.size, f.pos + f.Moved(false, len, bufSects)) == f.size <==> f.pos + len <= f.size
  {
    if f.pos + len <= f.size {
      InRangeMovesAll(f, false, len, bufSects);
    } else {
      assert f.Span(false, len) * SECTOR_SIZE > f.size - f.pos + f.pos % SECTOR_SIZE;
    }
  }

  /** A write stays within the extent of the file exactly when it fits there. */
  lemma WriteStaysInsideIff(f: File, len: nat, bufSects: nat)
    requires bufSects > 0
    ensures f.pos + f.Moved(true, len, bufSects) <= f.nr * SECTOR_SIZE <==> f.pos + len <= f.nr * SECTOR_SIZE
  {
    if f.pos + len <= f.nr * SECTOR_SIZE {
      InRangeMovesAll(f, true, len, bufSects);
    } else {
      assert f.Span(true, len) * SECTOR_SIZE > f.nr * SECTOR_SIZE - f.pos + f.pos % SECTOR_SIZE;
    }
  }

  /** A file of 10 bytes, read from position 5 for 100 bytes: all 100 move, and the file is 105 bytes long. */
  lemma ReadEnlarges()
    ensures var f := File(2, I_REGULAR, 100, 8, 10, 5);
            && f.OnDevice(false, 100, 2048, 200) && f.Moved(false, 100, 2048) == 100
            && Max(f.size, f.pos + f.Moved(false, 100, 2048)) == 105
  {
    var f := File(2, I_REGULAR, 100, 8, 10, 5);
    assert f.Span(false, 100) == 1 && f.Chunk(false, 100, 2048) == 1;
  }

  /** A write of 600 bytes to a file of one sector: all 600 move, into the next file's sector. */
  lemma WriteLeavesExtent()
    ensures var f := File(2, I_REGULAR, 100, 1, 0, 0);
            f.OnDevice(true, 600, 2048, 200) && f.Moved(true, 600, 2048) == 600 > f.nr * SECTOR_SIZE
  {
    var f := File(2, I_REGULAR, 100, 1, 0, 0);
    assert f.Span(true, 600) == 2 && f.Chunk(true, 600, 2048) == 2;
  }

  function Patched(d: seq<bv8>, a: nat, bytes: seq<bv8>): (r: seq<bv8>)
    requires a + |bytes| <= |d|
    ensures |r| == |d|
  {
    d[..a] + bytes + d[a + |bytes|..]
  }

  lemma PatchMore(d: seq<bv8>, a: nat, bytes: seq<bv8>, b: bv8)
    requires a + |bytes| < |d|
    ensures |Patched(d, a, bytes)| == |d|
    ensures Patched(d, a, bytes)[a + |bytes| := b] == Patched(d, a, bytes + [b])
  {
  }

  /** rw_sector(DEV_READ): `bytes` bytes from position `pos` into the buffer. */
  method DevRead(disk: Disk, pos: nat, bytes: nat)
    requires disk.Valid() && pos + bytes <= disk.data.Length && bytes <= disk.fsbuf.Length
    modifies disk.fsbuf
    ensures disk.fsbuf[..bytes] == disk.data[pos..pos + bytes]
  {
    for k := 0 to bytes
      invariant disk.fsbuf[..k] == disk.data[pos..pos + k]
    {
      disk.fsbuf[k] := disk.data[pos + k];
    }
  }

  /** rw_sector(DEV_WRITE). */
  method DevWrite(disk: Disk, pos: nat, bytes: nat)
    requires disk.Valid() && pos + bytes <= disk.data.Length && bytes <= disk.fsbuf.Length
    modifies disk.data
    ensures disk.data[..] == Patched(old(disk.data[..]), pos, disk.fsbuf[..bytes])
  {
    ghost var d := disk.data[..];
    for k := 0 to bytes
      invariant disk.data[..] == Patched(d, pos, disk.fsbuf[..k])
    {
      PatchMore(d, pos, disk.fsbuf[..k], disk.fsbuf[k]);
      hide Patched;
      disk.data[pos + k] := disk.fsbuf[k];
      assert disk.fsbuf[..k + 1] == disk.fsbuf[..k] + [disk.fsbuf[k]];
    }
  }

  /** phys_copy() between the buffer and the caller. */
  method Copy(from: array<bv8>, src: nat, to: array<bv8>, dst: nat, bytes: nat)
    requires from != to && src + bytes <= from.Length && dst + bytes <= to.Length
    modifies to
    ensures to[..] == Patched(old(to[..]), dst, from[src..src + bytes])
  {
    ghost var d := to[..];
    for k := 0 to bytes
      invariant to[..] == Patched(d, dst, from[src..src + k])
    {
      PatchMore(d, dst, from[src..src + k], from[src + k]);
      hide Patched;
      to[dst + k] := from[src + k];
      assert from[src..src + k + 1] == from[src..src + k] + [from[src + k]];
    }
  }

  lemma SliceOfSlice(d: seq<bv8>, a: nat, n: nat, off: nat, bytes: nat)
    requires a + n <= |d| && off + bytes <= n
    ensures d[a..a + n][off..off + bytes] == d[a + off..a + off + bytes]
  {
    var l, r := d[a..a + n][off..off + bytes], d[a + off..a + off + bytes];
    forall k | 0 <= k < bytes
      ensures l[k] == r[k]
    {
      assert d[a..a + n][off + k] == d[a + off + k];
    }
  }

  /** A pass of the loop of do_rdwt() for READ: fetch a chunk and hand out a part of it. */
  method ReadPass(disk: Disk, buf: array<bv8>, at: nat, i: nat, chunk: nat, off: nat, bytes: nat)
    requires disk.Valid() && buf != disk.data && buf != disk.fsbuf
    requires (i + chunk) * SECTOR_SIZE <= disk.data.Length && chunk * SECTOR_SIZE <= disk.fsbuf.Length
    requires off + bytes <= chunk * SECTOR_SIZE && at + bytes <= buf.Length
    modifies disk.fsbuf, buf
    ensures buf[..] == Patched(old(buf[..]), at, disk.data[i * SECTOR_SIZE + off..i * SECTOR_SIZE + off + bytes])
  {
    DevRead(disk, i * SECTOR_SIZE, chunk * SECTOR_SIZE);
    ghost var a, n, d := i * SECTOR_SIZE, chunk * SECTOR_SIZE, disk.data[..];
    ghost var got := disk.fsbuf[..n];
    SliceOfSlice(d, a, n, off, bytes);
    assert got == disk.data[a..a + n] == d[a..a + n];
    ghost var all := disk.fsbuf[..];
    SliceOfSlice(all, 0, n, off, bytes);
    assert got == all[0..n];
    assert all[off..off + bytes] == disk.fsbuf[off..off + bytes];
    assert d[a + off..a + off + bytes] == disk.data[a + off..a + off + bytes];
    hide Patched;
    Copy(disk.fsbuf, off, buf, at, bytes);
    assert disk.fsbuf[off..off + bytes] == disk.data[a + off..a + off + bytes];
  }

  /** A pass for WRITE: fetch a chunk, replace a part of it, write the whole chunk back. */
  method WritePass(disk: Disk, buf: array<bv8>, at: nat, i: nat, chunk: nat, off: nat, bytes: nat)
    requires disk.Valid() && buf != disk.data && buf != disk.fsbuf
    requires (i + chunk) * SECTOR_SIZE <= disk.data.Length && chunk * SECTOR_SIZE <= disk.fsbuf.Length
    requires off + bytes <= chunk * SECTOR_SIZE && at + bytes <= buf.Length
    modifies disk.data, disk.fsbuf
    ensures disk.data[..] == Patched(old(disk.data[..]), i * SECTOR_SIZE + off, buf[at..at + bytes])
  {
    hide Patched;
    ghost var d, n := disk.data[..], chunk * SECTOR_SIZE;
    DevRead(disk, i * SECTOR_SIZE, chunk * SECTOR_SIZE);
    ghost var fs := disk.fsbuf[..];
    assert fs[..n] == d[i * SECTOR_SIZE..i * SECTOR_SIZE + n];
    Copy(buf, at, disk.fsbuf, off, bytes);
    PatchPrefix(fs, off, buf[at..at + bytes], n);
    assert disk.fsbuf[..n] == disk.fsbuf[..][..n];
    DevWrite(disk, i * SECTOR_SIZE, chunk * SECTOR_SIZE);
    PatchInChunk(d, i * SECTOR_SIZE, n, off, buf[at..at + bytes], disk.fsbuf[..n]);
  }

  lemma PatchPrefix(s: seq<bv8>, off: nat, bytes: seq<bv8>, n: nat)
    requires off + |bytes| <= n <= |s|
    ensures Patched(s, off, bytes)[..n] == Patched(s[..n], off, bytes)
  {
  }

  lemma PatchInChunk(d: seq<bv8>, a: nat, n: nat, off: nat, bytes: seq<bv8>, chunk: seq<bv8>)
    requires a + n <= |d| && off + |bytes| <= n
    requires |chunk| == n && chunk == Patched(d[a..a + n], off, bytes)
    ensures Patched(d, a, chunk) == Patched(d, a + off, bytes)
  {
  }

  /**
   `moved` bytes between the disk, from address `a` on, and the start of the caller's buffer have been
   exchanged: `d0` and `b0` became `d` and `b`, and nothing else changed.
   */
  ghost predicate Progress(write: bool, d0: seq<bv8>, b0: seq<bv8>, d: seq<bv8>, b: seq<bv8>, a: nat, moved: nat) {
    if moved == 0 then d == d0 && b == b0
    else
      && a + moved <= |d0| && moved <= |b0|
      && if write then b == b0 && d == Patched(d0, a, b0[..moved])
         else d == d0 && b == Patched(b0, 0, d0[a..a + moved])
  }

  lemma NoProgress(write: bool, d: seq<bv8>, b: seq<bv8>, a: nat)
    ensures Progress(write, d, b, d, b, a, 0)
  {
  }

  // ---------------------------------------------------------------- the inode record on disk

  const INODE_SIZE: nat := 32
  const INODES_PER_SECTOR: nat := 16

  predicate InArray(sb: SuperBlock, num: nat) {
    1 <= num <= INODES_PER_SECTOR * sb.nrInodeSects
  }

  /** Where the record of an inode begins: the inode array follows the two maps. */
  function RecordAt(sb: SuperBlock, num: nat): nat
    requires num >= 1
  {
    SECTOR_SIZE * (2 + sb.nrImapSects + sb.nrSmapSects) + INODE_SIZE * (num - 1)
  }

  /** The four fields of a record: mode, size, first sector, number of sectors. */
  function RecordBytes(f: File): (r: seq<bv8>)
    ensures |r| == 16
  {
    Le32(f.mode % U32) + Le32(f.size % U32) + Le32(f.start % U32) + Le32(f.nr % U32)
  }

  lemma RecordInArray(sb: SuperBlock, num: nat)
    requires InArray(sb, num)
    ensures var s, j := 2 + sb.nrImapSects + sb.nrSmapSects + (num - 1) / INODES_PER_SECTOR, (num - 1) % INODES_PER_SECTOR * INODE_SIZE;
            && s < sb.N1stSect() && j + INODE_SIZE <= SECTOR_SIZE && RecordAt(sb, num) == SECTOR_SIZE * s + j
    ensures RecordAt(sb, num) + INODE_SIZE <= SECTOR_SIZE * sb.N1stSect()
  {
  }

  /** sync_inode(): read the sector of the record, assign its fields, write the sector. */
  method SyncInode(disk: Disk, f: File)
    requires disk.Valid() && InArray(disk.sb, f.num)
    modifies disk.data, disk.fsbuf
    ensures RecordAt(disk.sb, f.num) + 16 <= disk.data.Length
    ensures disk.data[..] == Patched(old(disk.data[..]), RecordAt(disk.sb, f.num), RecordBytes(f))
  {
    RecordInArray(disk.sb, f.num);
    var s := 2 + disk.sb.nrImapSects + disk.sb.nrSmapSects + (f.num - 1) / INODES_PER_SECTOR;
    var j := (f.num - 1) % INODES_PER_SECTOR * INODE_SIZE;
    hide RecordBytes, RecordAt, Disk.Image, Patched;
    disk.RdSect(s);
    PutBytes(disk, s, j, RecordBytes(f));
    disk.WrSect(s);
  }

  /** The inode that sixteen bytes of the inode array describe. */
  function RecordFile(num: nat, b: seq<bv8>): File
    requires |b| == 16
  {
    File(num, FromLe32(b[..4]), FromLe32(b[8..12]), FromLe32(b[12..]), FromLe32(b[4..8]), 0)
  }

  /** The order of the fields: mode, size, first sector, number of sectors, as the image builder reads them. */
  lemma RecordLayout(f: File)
    requires f.mode < U32 && f.size < U32 && f.start < U32 && f.nr < U32
    ensures var b := RecordBytes(f);
            && FromLe32(b[0..4]) == f.mode && FromLe32(b[4..8]) == f.size
            && FromLe32(b[8..12]) == f.start && FromLe32(b[12..16]) == f.nr
  {
    hide Le32, FromLe32;
    Le32RoundTrip(f.mode);
    Le32RoundTrip(f.size);
    Le32RoundTrip(f.start);
    Le32RoundTrip(f.nr);
    var b := RecordBytes(f);
    assert b[0..4] == Le32(f.mode) && b[4..8] == Le32(f.size) && b[8..12] == Le32(f.start) && b[12..16] == Le32(f.nr);
  }

  /** What sync_inode() writes, get_inode() reads. */
  lemma RecordRoundTrip(f: File)
    requires f.mode < U32 && f.size < U32 && f.start < U32 && f.nr < U32
    ensures RecordFile(f.num, RecordBytes(f)) == f.(pos := 0)
  {
    hide RecordBytes, FromLe32;
    RecordLayout(f);
    var b := RecordBytes(f);
    assert b[..4] == b[0..4] && b[12..] == b[12..16];
  }

  /** The part of get_inode() that reads an inode which is not in the table. */
  method ReadInode(disk: Disk, num: nat) returns (f: File)
    requires disk.Valid() && InArray(disk.sb, num)
    modifies disk.fsbuf
    ensures RecordAt(disk.sb, num) + 16 <= disk.data.Length
    ensures f == RecordFile(num, disk.data[RecordAt(disk.sb, num)..RecordAt(disk.sb, num) + 16])
  {
    RecordInArray(disk.sb, num);
    var s := 2 + disk.sb.nrImapSects + disk.sb.nrSmapSects + (num - 1) / INODES_PER_SECTOR;
    var j := (num - 1) % INODES_PER_SECTOR * INODE_SIZE;
    ghost var at := RecordAt(disk.sb, num);
    disk.RdSect(s);
    hide RecordAt;
    forall k | j <= k < j + 16
      ensures disk.fsbuf[k] == disk.data[at + k - j]
    { disk.InBuffer(s, k); }
    hide Disk.Image;
    assert disk.fsbuf[j..j + 16] == disk.data[at..at + 16];
    f := RecordFile(num, disk.fsbuf[j..j + 16]);
  }

  /** Bytes into the buffer, which holds sector `s`, from place `j` on. */
  method PutBytes(disk: Disk, s: nat, j: nat, bytes: seq<bv8>)
    requires disk.Valid() && SECTOR_SIZE * (s + 1) <= disk.data.Length && j + |bytes| <= SECTOR_SIZE
    modifies disk.fsbuf
    ensures |old(disk.Image(s))| == disk.data.Length
    ensures disk.Image(s) == Patched(old(disk.Image(s)), SECTOR_SIZE * s + j, bytes)
  {
    ghost var d, at := disk.Image(s), SECTOR_SIZE * s + j;
    assert |d| == disk.data.Length;
    hide Disk.Image;
    assert Patched(d, at, bytes[..0]) == d;
    for k := 0 to |bytes|
      invariant disk.Image(s) == Patched(d, at, bytes[..k])
    {
      PatchMore(d, at, bytes[..k], bytes[k]);
      hide Patched;
      disk.Put(s, j + k, bytes[k]);
      assert bytes[..k + 1] == bytes[..k] + [bytes[k]];
    }
    assert bytes[..|bytes|] == bytes;
  }

  /** The disk and the caller's buffer after the loop of do_rdwt(). */
  ghost function DiskAfter(write: bool, d: seq<bv8>, b: seq<bv8>, a: nat, moved: nat): (r: seq<bv8>)
    requires moved > 0 ==> a + moved <= |d| && moved <= |b|
    ensures |r| == |d|
  {
    if write && moved > 0 then Patched(d, a, b[..moved]) else d
  }

  ghost function BufferAfter(write: bool, d: seq<bv8>, b: seq<bv8>, a: nat, moved: nat): (r: seq<bv8>)
    requires moved > 0 ==> a + moved <= |d| && moved <= |b|
    ensures |r| == |b|
  {
    if !write && moved > 0 then Patched(b, 0, d[a..a + moved]) else b
  }

  /** The record is written if and only if the position has passed the old size. */
  ghost function Synced(d: seq<bv8>, sb: SuperBlock, f: File, f': File): (r: seq<bv8>)
    requires InArray(sb, f.num) && SECTOR_SIZE * sb.N1stSect() <= |d|
    ensures |r| == |d|
  {
    RecordInArray(sb, f.num);
    if f'.pos > f.size then Patched(d, RecordAt(sb, f.num), RecordBytes(f')) else d
  }

  /**
   do_rdwt() for regular files. The bytes that are moved lie at consecutive positions of the file from
   its current position on; a write changes nothing else on the disk, not even in the sectors that are
   rewritten around and behind them. Whether it reads or writes, a transfer that ends behind the size
   sets the size and writes the inode's record.
   */
  method DoRdwt(disk: Disk, write: bool, f: File, buf: array<bv8>, len: nat) returns (moved: nat, f': File)
    requires disk.Valid() && buf != disk.data && buf != disk.fsbuf && len <= buf.Length && InArray(disk.sb, f.num)
    requires f.OnDevice(write, len, disk.fsbuf.Length / SECTOR_SIZE, disk.data.Length / SECTOR_SIZE)
    modifies disk.data, disk.fsbuf, buf
    ensures moved == f.Moved(write, len, disk.fsbuf.Length / SECTOR_SIZE)
    ensures f' == f.(pos := f.pos + moved, size := Max(f.size, f.pos + moved))
    ensures moved > 0 ==> f.Address() + moved <= disk.data.Length && moved <= buf.Length
    ensures disk.data[..] == Synced(DiskAfter(write, old(disk.data[..]), old(buf[..]), f.Address(), moved), disk.sb, f, f')
    ensures buf[..] == BufferAfter(write, old(disk.data[..]), old(buf[..]), f.Address(), moved)
  {
    ghost var d0, b0 := disk.data[..], buf[..];
    moved := Transfer(disk, write, f, buf, len);
    assert disk.data[..] == DiskAfter(write, d0, b0, f.Address(), moved);
    assert buf[..] == BufferAfter(write, d0, b0, f.Address(), moved);
    hide DiskAfter, BufferAfter, Patched, Progress, RecordBytes;
    f' := f.(pos := f.pos + moved);
    if f'.pos > f.size {
      f' := f'.(size := f'.pos);
      SyncInode(disk, f');
    }
  }

  /** The loop of do_rdwt(). */
  method Transfer(disk: Disk, write: bool, f: File, buf: array<bv8>, len: nat) returns (moved: nat)
    requires disk.Valid() && buf != disk.data && buf != disk.fsbuf && len <= buf.Length
    requires f.OnDevice(write, len, disk.fsbuf.Length / SECTOR_SIZE, disk.data.Length / SECTOR_SIZE)
    modifies disk.data, disk.fsbuf, buf
    ensures moved == f.Moved(write, len, disk.fsbuf.Length / SECTOR_SIZE)
    ensures Progress(write, old(disk.data[..]), old(buf[..]), disk.data[..], buf[..], f.Address(), moved)
  {
    hide Progress, Patched, At, RoundUp;
    var posEnd := f.End(write, len);
    var off: nat := f.pos % SECTOR_SIZE;
    var rwSectMin, rwSectMax := f.start + f.pos / SECTOR_SIZE, f.start + posEnd / SECTOR_SIZE;
    var chunk := Min(rwSectMax - rwSectMin + 1, disk.fsbuf.Length / SECTOR_SIZE);
    moved := 0;
    var bytesLeft: nat := len;
    var i := rwSectMin;
    ghost var d0, b0, a, span := disk.data[..], buf[..], f.Address(), f.Span(write, len);
    NoProgress(write, d0, b0, a);
    AtStart(f, len, span, chunk);
    while i <= rwSectMax
      invariant 0 <= i - rwSectMin && moved + bytesLeft == len && (span > 0 ==> chunk > 0)
      invariant span <= 0 ==> i == rwSectMin && moved == 0
      invariant span > 0 ==> At(f, len, span, chunk, i - rwSectMin, moved, off)
      invariant Progress(write, d0, b0, disk.data[..], buf[..], a, moved)
      decreases rwSectMax + 1 - i
    {
      AtNext(f, len, span, chunk, i - rwSectMin, moved, off);
      var bytes := Min(bytesLeft, chunk * SECTOR_SIZE - off);
      Exchange(disk, write, buf, moved, i, chunk, off, bytes, d0, b0, a);
      off := 0;
      moved := moved + bytes;
      bytesLeft := bytesLeft - bytes;
      i := i + chunk;
    }
    if span > 0 { AtEnd(f, len, span, chunk, i - rwSectMin, moved, off); }
  }

  /** After `k` sectors of the loop: how much has moved, and where in the next sector the rest begins. */
  ghost predicate At(f: File, len: nat, span: int, chunk: nat, k: nat, moved: nat, off: nat) {
    && chunk > 0 && moved <= len
    && k + RoundUp(span - k, chunk) == RoundUp(span, chunk)
    && if k == 0 then moved == 0 && off == f.pos % SECTOR_SIZE
       else off == 0 && moved == Min(len, k * SECTOR_SIZE - f.pos % SECTOR_SIZE)
  }

  lemma AtStart(f: File, len: nat, span: int, chunk: int)
    ensures chunk > 0 ==> At(f, len, span, chunk, 0, 0, f.pos % SECTOR_SIZE)
  {
  }

  lemma AtNext(f: File, len: nat, span: int, chunk: nat, k: nat, moved: nat, off: nat)
    requires At(f, len, span, chunk, k, moved, off) && k < span
    ensures k + chunk <= RoundUp(span, chunk) && off < SECTOR_SIZE
    ensures moved < len ==> k * SECTOR_SIZE + off == f.pos % SECTOR_SIZE + moved
    ensures var bytes := Min(len - moved, chunk * SECTOR_SIZE - off);
            0 <= bytes <= len - moved && At(f, len, span, chunk, k + chunk, moved + bytes, 0)
  {
  }

  lemma AtEnd(f: File, len: nat, span: int, chunk: nat, k: nat, moved: nat, off: nat)
    requires At(f, len, span, chunk, k, moved, off) && k >= span > 0
    ensures moved == Min(len, RoundUp(span, chunk) * SECTOR_SIZE - f.pos % SECTOR_SIZE)
  {
  }

  /** One pass in either direction: `bytes` more bytes have been exchanged. */
  method Exchange(disk: Disk, write: bool, buf: array<bv8>, moved: nat, i: nat, chunk: nat, off: nat, bytes: nat,
                  ghost d0: seq<bv8>, ghost b0: seq<bv8>, ghost a: nat)
    requires disk.Valid() && buf != disk.data && buf != disk.fsbuf
    requires (i + chunk) * SECTOR_SIZE <= disk.data.Length == |d0| && chunk * SECTOR_SIZE <= disk.fsbuf.Length
    requires off + bytes <= chunk * SECTOR_SIZE && moved + bytes <= buf.Length == |b0| && a <= |d0|
    requires bytes > 0 ==> i * SECTOR_SIZE + off == a + moved
    requires Progress(write, d0, b0, disk.data[..], buf[..], a, moved)
    modifies disk.data, disk.fsbuf, buf
    ensures Progress(write, d0, b0, disk.data[..], buf[..], a, moved + bytes)
  {
    hide Progress, Patched;
    ghost var d, b := disk.data[..], buf[..];
    if write {
      WritePass(disk, buf, moved, i, chunk, off, bytes);
      MoreWritten(d0, b0, d, b, a, moved, i * SECTOR_SIZE + off, bytes);
    } else {
      ReadPass(disk, buf, moved, i, chunk, off, bytes);
      MoreRead(d0, b0, d, b, a, moved, i * SECTOR_SIZE + off, bytes);
    }
  }

  lemma MoreWritten(d0: seq<bv8>, b0: seq<bv8>, d: seq<bv8>, b: seq<bv8>, a: nat, moved: nat, at: nat, bytes: nat)
    requires |d| == |d0| && |b| == |b0| && a <= |d0| && moved + bytes <= |b| && at + bytes <= |d|
    requires bytes > 0 ==> at == a + moved
    requires Progress(true, d0, b0, d, b, a, moved)
    ensures Progress(true, d0, b0, Patched(d, at, b[moved..moved + bytes]), b, a, moved + bytes)
  {
    Wrote(d0, b0, a, moved, at, bytes);
  }

  lemma MoreRead(d0: seq<bv8>, b0: seq<bv8>, d: seq<bv8>, b: seq<bv8>, a: nat, moved: nat, at: nat, bytes: nat)
    requires |d| == |d0| && |b| == |b0| && a <= |d0| && moved + bytes <= |b| && at + bytes <= |d|
    requires bytes > 0 ==> at == a + moved
    requires Progress(false, d0, b0, d, b, a, moved)
    ensures Progress(false, d0, b0, d, Patched(b, moved, d[at..at + bytes]), a, moved + bytes)
  {
    Got(b0, d0, a, moved, at, bytes);
  }

  lemma Wrote(d0: seq<bv8>, b: seq<bv8>, a: nat, moved: nat, at: nat, bytes: nat)
    requires a + moved <= |d0| && moved + bytes <= |b| && at + bytes <= |d0|
    requires bytes > 0 ==> at == a + moved
    ensures a + moved + bytes <= |d0|
    ensures Patched(Patched(d0, a, b[..moved]), at, b[moved..moved + bytes]) == Patched(d0, a, b[..moved + bytes])
  {
    assert b[..moved + bytes] == b[..moved] + b[moved..moved + bytes];
  }

  lemma Got(b0: seq<bv8>, d: seq<bv8>, a: nat, moved: nat, at: nat, bytes: nat)
    requires a + moved <= |d| && moved + bytes <= |b0| && at + bytes <= |d|
    requires bytes > 0 ==> at == a + moved
    ensures a + moved + bytes <= |d|
    ensures Patched(Patched(b0, 0, d[a..a + moved]), moved, d[at..at + bytes]) == Patched(b0, 0, d[a..a + moved + bytes])
  {
    assert bytes > 0 ==> d[a..a + moved + bytes] == d[a..a + moved] + d[at..at + bytes];
  }

  /** A write, a seek back, and a read of as many bytes give back what was written. */
  method WriteSeekRead(disk: Disk, f: File, buf: array<bv8>, len: nat, back: array<bv8>) returns (f': File)
    requires disk.Valid() && buf != disk.data && buf != disk.fsbuf && back != disk.data && back != disk.fsbuf
    requires len <= buf.Length && len <= back.Length && InArray(disk.sb, f.num) && disk.sb.N1stSect() <= f.start
    requires f.pos + len <= f.nr * SECTOR_SIZE
    requires f.OnDevice(true, len, disk.fsbuf.Length / SECTOR_SIZE, disk.data.Length / SECTOR_SIZE)
    modifies disk.data, disk.fsbuf, buf, back
    ensures back[..len] == old(buf[..len]) && f' == f.(pos := f.pos + len, size := Max(f.size, f.pos + len))
  {
    hide DiskAfter, BufferAfter, Synced, Patched, File.OnDevice;
    ghost var d0, b0, a := disk.data[..], buf[..], f.Address();
    var g := WriteInRange(disk, f, buf, len);
    WrittenIsRead(d0, b0, disk.data[..], back[..], disk.sb, f, g, a, len);
    var target := Seek(g.pos, g.size, f.pos, SEEK_SET);
    g := g.(pos := target.value);
    SameSectors(f, g, len, disk.fsbuf.Length / SECTOR_SIZE, disk.data.Length / SECTOR_SIZE);
    f' := ReadInRange(disk, g, back, len);
    assert b0[..len] == old(buf[..len]);
  }

  /** A write within the extent. */
  method WriteInRange(disk: Disk, f: File, buf: array<bv8>, len: nat) returns (f': File)
    requires disk.Valid() && buf != disk.data && buf != disk.fsbuf && len <= buf.Length && InArray(disk.sb, f.num)
    requires f.pos + len <= f.nr * SECTOR_SIZE
    requires f.OnDevice(true, len, disk.fsbuf.Length / SECTOR_SIZE, disk.data.Length / SECTOR_SIZE)
    modifies disk.data, disk.fsbuf, buf
    ensures f' == f.(pos := f.pos + len, size := Max(f.size, f.pos + len)) && buf[..] == old(buf[..])
    ensures len > 0 ==> f.Address() + len <= disk.data.Length
    ensures disk.data[..] == Synced(DiskAfter(true, old(disk.data[..]), old(buf[..]), f.Address(), len), disk.sb, f, f')
  {
    InRangeMovesAll(f, true, len, disk.fsbuf.Length / SECTOR_SIZE);
    hide File.OnDevice, File.Moved;
    var moved;
    moved, f' := DoRdwt(disk, true, f, buf, len);
    hide Synced, Patched;
  }

  /** A read within the file changes nothing on the disk. */
  method ReadInRange(disk: Disk, f: File, buf: array<bv8>, len: nat) returns (f': File)
    requires disk.Valid() && buf != disk.data && buf != disk.fsbuf && len <= buf.Length && InArray(disk.sb, f.num)
    requires f.pos + len <= f.size
    requires f.OnDevice(false, len, disk.fsbuf.Length / SECTOR_SIZE, disk.data.Length / SECTOR_SIZE)
    modifies disk.data, disk.fsbuf, buf
    ensures f' == f.(pos := f.pos + len) && disk.data[..] == old(disk.data[..])
    ensures len > 0 ==> f.Address() + len <= disk.data.Length
    ensures buf[..] == BufferAfter(false, old(disk.data[..]), old(buf[..]), f.Address(), len)
  {
    InRangeMovesAll(f, false, len, disk.fsbuf.Length / SECTOR_SIZE);
    hide File.OnDevice, File.Moved;
    var moved;
    moved, f' := DoRdwt(disk, false, f, buf, len);
    hide Patched;
  }

  /** Reading back passes the sectors that writing has passed. */
  lemma SameSectors(f: File, g: File, len: nat, bufSects: nat, sects: nat)
    requires bufSects > 0 && f.pos + len <= f.nr * SECTOR_SIZE && g == f.(size := Max(f.size, f.pos + len))
    requires f.OnDevice(true, len, bufSects, sects)
    ensures g.OnDevice(false, len, bufSects, sects)
  {
    assert g.Span(false, len) == f.Span(true, len);
  }

  /** What the loop of a read fetches is what that of a write has left. */
  lemma WrittenIsRead(d0: seq<bv8>, b: seq<bv8>, d: seq<bv8>, back: seq<bv8>, sb: SuperBlock, f: File, g: File, a: nat, len: nat)
    requires InArray(sb, f.num) && SECTOR_SIZE * sb.N1stSect() <= |d0| && SECTOR_SIZE * sb.N1stSect() <= a
    requires len > 0 ==> a + len <= |d0|
    requires len <= |b| && len <= |back|
    requires d == Synced(DiskAfter(true, d0, b, a, len), sb, f, g)
    ensures BufferAfter(false, d, back, a, len)[..len] == b[..len]
    ensures BufferAfter(true, d0, b, a, len) == b
  {
    if len > 0 { SyncSparesData(DiskAfter(true, d0, b, a, len), sb, f, g, a, len); }
    hide Synced;
  }

  /** The record that is written lies before all data. */
  lemma SyncSparesData(d: seq<bv8>, sb: SuperBlock, f: File, f': File, a: nat, n: nat)
    requires InArray(sb, f.num) && SECTOR_SIZE * sb.N1stSect() <= |d|
    requires SECTOR_SIZE * sb.N1stSect() <= a && a + n <= |d|
    ensures Synced(d, sb, f, f')[a..a + n] == d[a..a + n]
  {
    RecordInArray(sb, f.num);
  }

  lemma PatchSlice(d: seq<bv8>, at: nat, r: seq<bv8>, k: nat, x: seq<bv8>)
    requires at + |r| <= |d| && d[at..at + |r|] == r && k + |x| <= |r|
    ensures Patched(d, at, Patched(r, k, x)) == Patched(d, at + k, x)
    ensures Patched(d, at + k, x)[at..at + |r|] == Patched(r, k, x)
  {
    assert forall i :: 0 <= i < |r| ==> d[at + i] == r[i];
  }

  lemma SizeInRecord(f: File, f': File)
    requires f' == f.(pos := f'.pos, size := f'.size)
    ensures RecordBytes(f') == Patched(RecordBytes(f), 4, Le32(f'.size % U32))
    ensures f'.size == f.size ==> RecordBytes(f') == RecordBytes(f)
  {
    hide Le32;
  }

  /** Writing the record of a coherent inode changes its size on disk, and nothing else there. */
  lemma SyncChangesTheSize(d: seq<bv8>, sb: SuperBlock, f: File, f': File)
    requires InArray(sb, f.num) && SECTOR_SIZE * sb.N1stSect() <= |d|
    requires f' == f.(pos := f'.pos, size := Max(f.size, f'.pos))
    requires RecordAt(sb, f.num) + 16 <= |d| && d[RecordAt(sb, f.num)..RecordAt(sb, f.num) + 16] == RecordBytes(f)
    ensures Synced(d, sb, f, f') == Patched(d, RecordAt(sb, f.num) + 4, Le32(Max(f.size, f'.pos) % U32))
    ensures Synced(d, sb, f, f')[RecordAt(sb, f.num)..RecordAt(sb, f.num) + 16] == RecordBytes(f')
  {
    hide Patched, RecordBytes, RecordAt, Le32;
    var at, r := RecordAt(sb, f.num), RecordBytes(f);
    SizeInRecord(f, f');
    PatchSlice(d, at, r, 4, Le32(f'.size % U32));
    PatchSame(d, at, r);
  }

  lemma PatchSame(d: seq<bv8>, at: nat, r: seq<bv8>)
    requires at + |r| <= |d| && d[at..at + |r|] == r
    ensures Patched(d, at, r) == d
  {
  }

  /** The bytes of an extent. */
  function Contents(d: seq<bv8>, start: nat, nr: nat): seq<bv8>
    requires (start + nr) * SECTOR_SIZE <= |d|
  {
    d[start * SECTOR_SIZE..(start + nr) * SECTOR_SIZE]
  }

  lemma PatchBeside(d: seq<bv8>, at: nat, bytes: seq<bv8>, a: nat, n: nat)
    requires at + |bytes| <= |d| && a + n <= |d| && (a + n <= at || at + |bytes| <= a)
    ensures Patched(d, at, bytes)[a..a + n] == d[a..a + n]
  {
    forall k | a <= k < a + n
      ensures Patched(d, at, bytes)[k] == d[k]
    {
    }
  }

  lemma PatchWithin(d: seq<bv8>, a: nat, n: nat, off: nat, bytes: seq<bv8>)
    requires a + n <= |d| && off + |bytes| <= n
    ensures Patched(d, a + off, bytes)[a..a + n] == Patched(d[a..a + n], off, bytes)
  {
    var l, r := Patched(d, a + off, bytes)[a..a + n], Patched(d[a..a + n], off, bytes);
    forall k | 0 <= k < n
      ensures l[k] == r[k]
    { assert d[a..a + n][k] == d[a + k]; }
  }

  /** A write in range changes the bytes at its position, and no byte of any other extent or of the metadata. */
  lemma WriteIsLocal(d: seq<bv8>, f: File, bytes: seq<bv8>, start: nat, nr: nat)
    requires f.pos + |bytes| <= f.nr * SECTOR_SIZE && (f.start + f.nr) * SECTOR_SIZE <= |d|
    requires (start + nr) * SECTOR_SIZE <= |d| && (start + nr <= f.start || f.start + f.nr <= start)
    ensures Contents(Patched(d, f.Address(), bytes), start, nr) == Contents(d, start, nr)
    ensures Contents(Patched(d, f.Address(), bytes), f.start, f.nr) == Patched(Contents(d, f.start, f.nr), f.pos, bytes)
  {
    hide Patched;
    PatchBeside(d, f.Address(), bytes, start * SECTOR_SIZE, nr * SECTOR_SIZE);
    PatchWithin(d, f.start * SECTOR_SIZE, f.nr * SECTOR_SIZE, f.pos, bytes);
  }
}
