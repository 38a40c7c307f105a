/** Files as extents: what creating and removing files does to the two bitmaps, over whole runs. */
module Volume {
  import opened Prelude
  import opened Bits
  import opened SectorMap

  const ROOT_INODE: nat := 1
  const NR_CONSOLES: nat := 3
  const ARCHIVE_INODE: nat := 5

  datatype Extent = Extent(start: nat, nr: nat)

  /** The bit of the first sector of an extent, counted from the start of the disk. */
  function FirstBit(sb: SuperBlock, e: Extent): int {
    sb.Smap() + (e.start - sb.N1stSect() + 1)
  }

  predicate Covers(sb: SuperBlock, e: Extent, x: int) {
    FirstBit(sb, e) <= x < FirstBit(sb, e) + e.nr
  }

  /** Bit at which the `k`-th block of `f` sectors starts; bit 0 of the map is reserved. */
  function Block(sb: SuperBlock, f: nat, k: nat): nat {
    sb.Smap() + 1 + k * f
  }

  predicate Aligned(sb: SuperBlock, f: nat, e: Extent, k: nat) {
    e.nr == f && FirstBit(sb, e) == Block(sb, f, k)
  }

  ghost predicate InMap(sb: SuperBlock, live: map<nat, Extent>) {
    forall i :: i in live ==> sb.Smap() + 1 <= FirstBit(sb, live[i]) && FirstBit(sb, live[i]) + live[i].nr <= sb.SmapEnd()
  }

  ghost predicate Disjoint(sb: SuperBlock, live: map<nat, Extent>) {
    forall i, j, x :: i in live && j in live && i != j && Covers(sb, live[i], x) ==> !Covers(sb, live[j], x)
  }

  /** A bit of the s-map is set iff it is reserved or inside an extent of a live inode. */
  ghost predicate SmapOk(sb: SuperBlock, d: seq<bv8>, live: map<nat, Extent>) {
    && sb.SmapEnd() <= 8 * |d|
    && forall x :: sb.Smap() <= x < sb.SmapEnd() ==>
         (BitAt(d, x) <==> x == sb.Smap() || exists i :: i in live && Covers(sb, live[i], x))
  }

  /** A bit of the i-map is set iff it is reserved or the inode is live. */
  ghost predicate ImapOk(sb: SuperBlock, d: seq<bv8>, live: map<nat, Extent>) {
    && sb.Imap() + SECTOR_BITS <= 8 * |d|
    && (forall i :: i in live ==> 0 < i < SECTOR_BITS)
    && forall x :: sb.Imap() <= x < sb.Imap() + SECTOR_BITS ==> (BitAt(d, x) <==> x == sb.Imap() || x - sb.Imap() in live)
  }

  /** Below block `blocks`, extents are whole blocks. */
  ghost predicate Gridded(sb: SuperBlock, f: nat, blocks: nat, live: map<nat, Extent>) {
    forall i :: i in live && live[i].nr > 0 && FirstBit(sb, live[i]) < Block(sb, f, blocks) ==>
      exists k :: 0 <= k < blocks && Aligned(sb, f, live[i], k)
  }

  ghost predicate Ok(sb: SuperBlock, f: nat, blocks: nat, d: seq<bv8>, live: map<nat, Extent>) {
    && f > 0 && Block(sb, f, blocks) <= sb.SmapEnd()
    && InMap(sb, live) && Disjoint(sb, live) && SmapOk(sb, d, live) && ImapOk(sb, d, live)
    && Gridded(sb, f, blocks, live)
  }

  /** All extents lie on a device of `bytes` bytes. */
  ghost predicate OnDisk(bytes: nat, live: map<nat, Extent>) {
    forall i :: i in live ==> (live[i].start + live[i].nr) * SECTOR_SIZE <= bytes
  }

  /** The sector that the bit `x` of the s-map stands for. */
  function SectorOf(sb: SuperBlock, x: int): int {
    x - sb.Smap() - 1 + sb.N1stSect()
  }

  // ---------------------------------------------------------------- the block grid

  lemma BlockStep(sb: SuperBlock, f: nat, k: nat)
    ensures Block(sb, f, k + 1) == Block(sb, f, k) + f
  {
  }

  lemma BlocksGrow(sb: SuperBlock, f: nat, j: nat, k: nat)
    requires j <= k
    ensures Block(sb, f, j) + (k - j) * f == Block(sb, f, k) && Block(sb, f, j) <= Block(sb, f, k)
  {
    assert j * f + (k - j) * f == k * f;
    assert (k - j) * f >= 0;
  }

  lemma {:induction false} BlockOf(sb: SuperBlock, f: nat, blocks: nat, x: nat) returns (k: nat)
    requires sb.Smap() + 1 <= x < Block(sb, f, blocks)
    ensures k < blocks && Block(sb, f, k) <= x < Block(sb, f, k) + f
  {
    if x >= Block(sb, f, blocks - 1) {
      k := blocks - 1;
      BlockStep(sb, f, k);
    } else {
      k := BlockOf(sb, f, blocks - 1, x);
    }
  }

  lemma SameBlock(sb: SuperBlock, f: nat, j: nat, k: nat, x: nat)
    requires Block(sb, f, j) <= x < Block(sb, f, j) + f
    requires Block(sb, f, k) <= x < Block(sb, f, k) + f
    ensures j == k
  {
    if j < k {
      BlockStep(sb, f, j);
      BlocksGrow(sb, f, j + 1, k);
    } else if k < j {
      BlockStep(sb, f, k);
      BlocksGrow(sb, f, k + 1, j);
    }
  }

  /** A set bit of a block below `blocks` belongs to an extent that is just that block. */
  lemma TakenBlock(sb: SuperBlock, f: nat, blocks: nat, d: seq<bv8>, live: map<nat, Extent>, k: nat, x: nat) returns (i: nat)
    requires Ok(sb, f, blocks, d, live) && k < blocks
    requires Block(sb, f, k) <= x < Block(sb, f, k) + f && x < 8 * |d| && BitAt(d, x)
    ensures i in live && Aligned(sb, f, live[i], k)
  {
    BlockStep(sb, f, k);
    BlocksGrow(sb, f, k + 1, blocks);
    BlocksGrow(sb, f, 0, k);
    hide ImapOk, Disjoint, BitAt;
    i :| i in live && Covers(sb, live[i], x);
    var j :| 0 <= j < blocks && Aligned(sb, f, live[i], j);
    SameBlock(sb, f, j, k, x);
  }

  lemma WholeBlockSet(sb: SuperBlock, f: nat, blocks: nat, d: seq<bv8>, live: map<nat, Extent>, k: nat, i: nat)
    requires Ok(sb, f, blocks, d, live) && i in live && Aligned(sb, f, live[i], k)
    requires Block(sb, f, k) + f <= sb.SmapEnd()
    ensures AllSet(d, Block(sb, f, k), Block(sb, f, k) + f)
  {
    hide ImapOk, Disjoint, Gridded, BitAt;
    forall y | Block(sb, f, k) <= y < Block(sb, f, k) + f
      ensures BitAt(d, y)
    { assert Covers(sb, live[i], y); }
  }

  /** The bits of a block below `blocks` are all set or all clear. */
  lemma BlocksAreUniform(sb: SuperBlock, f: nat, blocks: nat, d: seq<bv8>, live: map<nat, Extent>, k: nat)
    requires Ok(sb, f, blocks, d, live) && k < blocks
    ensures Block(sb, f, k) + f <= sb.SmapEnd()
    ensures AllSet(d, Block(sb, f, k), Block(sb, f, k) + f) || AllClear(d, Block(sb, f, k), Block(sb, f, k) + f)
  {
    var lo := Block(sb, f, k);
    BlockStep(sb, f, k);
    BlocksGrow(sb, f, k + 1, blocks);
    assert lo + f <= 8 * |d|;
    hide Ok, Block, BitAt;
    if !AllClear(d, lo, lo + f) {
      var x :| lo <= x < lo + f && x < 8 * |d| && BitAt(d, x);
      var i := TakenBlock(sb, f, blocks, d, live, k, x);
      WholeBlockSet(sb, f, blocks, d, live, k, i);
    }
  }

  /** If the first free bit lies below block `blocks`, a whole free block starts there. */
  lemma FirstFreeStartsBlock(sb: SuperBlock, f: nat, blocks: nat, d: seq<bv8>, live: map<nat, Extent>)
    returns (k: nat)
    requires Ok(sb, f, blocks, d, live) && FirstClear(d, sb.Smap(), sb.SmapEnd()) < Block(sb, f, blocks)
    ensures k < blocks && FirstClear(d, sb.Smap(), sb.SmapEnd()) == Block(sb, f, k)
    ensures Block(sb, f, k) + f <= sb.SmapEnd() && AllClear(d, Block(sb, f, k), Block(sb, f, k) + f)
  {
    var x := FirstClear(d, sb.Smap(), sb.SmapEnd());
    assert BitAt(d, sb.Smap());
    k := BlockOf(sb, f, blocks, x);
    BlocksAreUniform(sb, f, blocks, d, live, k);
    assert !BitAt(d, x);
    assert !BitAt(d, Block(sb, f, k));
  }

  /** While a whole free block remains below `blocks`, the allocator finds a run: its assertion cannot fail. */
  lemma FreeBlockSuffices(sb: SuperBlock, f: nat, blocks: nat, d: seq<bv8>, live: map<nat, Extent>, free: nat)
    requires Ok(sb, f, blocks, d, live) && free < blocks
    requires AllClear(d, Block(sb, f, free), Block(sb, f, free) + f)
    ensures var x := FirstClear(d, sb.Smap(), sb.SmapEnd());
            x + f <= sb.SmapEnd() && AllClear(d, x, x + f)
  {
    hide Ok, Block, Bit, BitAt;
    Reserved(sb, f, blocks, d, live);
    BlocksGrow(sb, f, 0, free);
    BlockStep(sb, f, free);
    BlocksGrow(sb, f, free + 1, blocks);
    Reach(sb, f, blocks, d, live);
    assert !BitAt(d, Block(sb, f, free));
    var k := FirstFreeStartsBlock(sb, f, blocks, d, live);
  }

  // ---------------------------------------------------------------- the steps

  /** `after` differs from `before` by the mark of inode `ino` and the bits of `e`, which are set. */
  ghost predicate Marked(sb: SuperBlock, before: seq<bv8>, after: seq<bv8>, ino: nat, e: Extent) {
    && |after| == |before|
    && forall x :: 0 <= x < 8 * |before| ==>
         (BitAt(after, x) <==> BitAt(before, x) || x == sb.Imap() + ino || Covers(sb, e, x))
  }

  ghost predicate Unmarked(sb: SuperBlock, before: seq<bv8>, after: seq<bv8>, ino: nat, e: Extent) {
    && |after| == |before|
    && forall x :: 0 <= x < 8 * |before| ==>
         (BitAt(after, x) <==> BitAt(before, x) && x != sb.Imap() + ino && !Covers(sb, e, x))
  }

  lemma CreateKeepsMaps(sb: SuperBlock, f: nat, blocks: nat, d: seq<bv8>, d': seq<bv8>, live: map<nat, Extent>, ino: nat, e: Extent)
    requires Ok(sb, f, blocks, d, live) && sb.nrImapSects >= 1
    requires ino < SECTOR_BITS && !BitAt(d, sb.Imap() + ino)
    requires sb.Smap() <= FirstBit(sb, e) && FirstBit(sb, e) + e.nr <= sb.SmapEnd() && e.nr > 0
    requires AllClear(d, FirstBit(sb, e), FirstBit(sb, e) + e.nr) && Marked(sb, d, d', ino, e)
    ensures ino !in live
    ensures var live' := live[ino := e];
            InMap(sb, live') && Disjoint(sb, live') && SmapOk(sb, d', live') && ImapOk(sb, d', live')
  {
    hide Bit, BitAt, Gridded;
    var live' := live[ino := e];
    assert BitAt(d, sb.Smap()) && BitAt(d, sb.Imap());
    assert FirstBit(sb, e) != sb.Smap();
    forall i, x | i in live && Covers(sb, live[i], x)
      ensures !Covers(sb, e, x)
    { assert BitAt(d, x); }
    forall x | sb.Smap() <= x < sb.SmapEnd()
      ensures BitAt(d', x) <==> x == sb.Smap() || exists i :: i in live' && Covers(sb, live'[i], x)
    {
      if i :| i in live && Covers(sb, live[i], x) { assert live'[i] == live[i]; }
      if Covers(sb, e, x) { assert live'[ino] == e; }
    }
    forall x | sb.Imap() <= x < sb.Imap() + SECTOR_BITS
      ensures BitAt(d', x) <==> x == sb.Imap() || x - sb.Imap() in live'
    { assert !Covers(sb, e, x); }
  }

  lemma CreateKeeps(sb: SuperBlock, f: nat, blocks: nat, d: seq<bv8>, d': seq<bv8>, live: map<nat, Extent>, ino: nat, e: Extent)
    requires Ok(sb, f, blocks, d, live) && sb.nrImapSects >= 1
    requires ino < SECTOR_BITS && !BitAt(d, sb.Imap() + ino)
    requires FirstBit(sb, e) == FirstClear(d, sb.Smap(), sb.SmapEnd()) && FirstBit(sb, e) + f <= sb.SmapEnd() && e.nr == f
    requires AllClear(d, FirstBit(sb, e), FirstBit(sb, e) + f) && Marked(sb, d, d', ino, e)
    ensures ino !in live && Ok(sb, f, blocks, d', live[ino := e])
  {
    CreateKeepsMaps(sb, f, blocks, d, d', live, ino, e);
    if FirstBit(sb, e) < Block(sb, f, blocks) {
      var k := FirstFreeStartsBlock(sb, f, blocks, d, live);
      assert Aligned(sb, f, e, k);
    }
  }

  lemma Reserved(sb: SuperBlock, f: nat, blocks: nat, d: seq<bv8>, live: map<nat, Extent>)
    requires Ok(sb, f, blocks, d, live)
    ensures f > 0 && sb.SmapEnd() <= 8 * |d| && sb.Imap() + SECTOR_BITS <= 8 * |d|
    ensures BitAt(d, sb.Imap()) && sb.Smap() < sb.SmapEnd() && BitAt(d, sb.Smap())
  {
  }

  lemma Reach(sb: SuperBlock, f: nat, blocks: nat, d: seq<bv8>, live: map<nat, Extent>)
    requires Ok(sb, f, blocks, d, live)
    ensures Block(sb, f, 0) == sb.Smap() + 1 && Block(sb, f, blocks) <= sb.SmapEnd()
  {
  }

  lemma FirstClearMeets(d: seq<bv8>, lo: nat, hi: nat)
    requires lo <= hi <= 8 * |d|
    ensures FirstClear(d, lo, hi) == hi <==> AllSet(d, lo, hi)
  {
  }

  lemma ImapMarkSparesSmap(sb: SuperBlock, d: seq<bv8>, d': seq<bv8>, ino: nat)
    requires sb.nrImapSects >= 1 && sb.SmapEnd() <= 8 * |d| && ino < SECTOR_BITS
    requires SetRange(d, d', sb.Imap() + ino, sb.Imap() + ino + 1)
    ensures |d'| == |d| && FirstClear(d', sb.Smap(), sb.SmapEnd()) == FirstClear(d, sb.Smap(), sb.SmapEnd())
    ensures forall x: nat, y: nat :: sb.Smap() <= x && y <= sb.SmapEnd() ==> (AllClear(d', x, y) <==> AllClear(d, x, y))
  {
    hide BitAt;
    FirstClearSame(d, d', sb.Smap(), sb.SmapEnd());
  }

  lemma BothMarks(sb: SuperBlock, d: seq<bv8>, m: seq<bv8>, d': seq<bv8>, ino: nat, e: Extent)
    requires SetRange(d, m, sb.Imap() + ino, sb.Imap() + ino + 1)
    requires FirstBit(sb, e) >= 0 && SetRange(m, d', FirstBit(sb, e), FirstBit(sb, e) + e.nr)
    ensures Marked(sb, d, d', ino, e)
  {
  }

  lemma UnlinkKeepsMaps(sb: SuperBlock, f: nat, blocks: nat, d: seq<bv8>, d': seq<bv8>, live: map<nat, Extent>, ino: nat)
    requires Ok(sb, f, blocks, d, live) && sb.nrImapSects >= 1 && ino in live && Unmarked(sb, d, d', ino, live[ino])
    ensures var live' := live - {ino};
            Ok(sb, f, blocks, d', live')
  {
    hide Bit, BitAt, FirstBit;
    var e, live' := live[ino], live - {ino};
    forall x | sb.Smap() <= x < sb.SmapEnd()
      ensures BitAt(d', x) <==> x == sb.Smap() || exists i :: i in live' && Covers(sb, live'[i], x)
    {
      assert x == sb.Smap() ==> !Covers(sb, e, x);
      if i :| i in live && Covers(sb, live[i], x) && !Covers(sb, e, x) { assert i in live'; }
      if i :| i in live' && Covers(sb, live'[i], x) { assert i in live; }
    }
    forall x | sb.Imap() <= x < sb.Imap() + SECTOR_BITS
      ensures BitAt(d', x) <==> x == sb.Imap() || x - sb.Imap() in live'
    { assert !Covers(sb, e, x); }
  }

  /** The extents that mkfs() creates. The terminals have none. */
  function MkfsExtents(sb: SuperBlock, f: nat, archive: Extent): map<nat, Extent> {
    map[ROOT_INODE := Extent(sb.N1stSect(), f),
        2 := Extent(sb.N1stSect(), 0), 3 := Extent(sb.N1stSect(), 0), 4 := Extent(sb.N1stSect(), 0),
        ARCHIVE_INODE := archive]
  }

  lemma MkfsMapsOk(sb: SuperBlock, f: nat, blocks: nat, d: seq<bv8>, archive: Extent)
    requires sb.nrImapSects >= 1 && sb.nrSmapSects >= 1 && f > 0 && blocks >= 1
    requires sb.SmapEnd() <= 8 * |d| && archive.nr > 0
    requires Block(sb, f, blocks) <= FirstBit(sb, archive) && FirstBit(sb, archive) + archive.nr <= sb.SmapEnd()
    requires forall x :: sb.Imap() <= x < sb.Imap() + SECTOR_BITS ==> (BitAt(d, x) <==> x < sb.Imap() + 6)
    requires forall x :: sb.Smap() <= x < sb.SmapEnd() ==>
               (BitAt(d, x) <==> x < sb.Smap() + f + 1 || Covers(sb, archive, x))
    ensures Ok(sb, f, blocks, d, MkfsExtents(sb, f, archive))
  {
    var live := MkfsExtents(sb, f, archive);
    BlockStep(sb, f, 0);
    BlocksGrow(sb, f, 1, blocks);
    hide Bit, BitAt;
    assert Aligned(sb, f, live[ROOT_INODE], 0);
    forall x | sb.Smap() <= x < sb.SmapEnd()
      ensures BitAt(d, x) <==> x == sb.Smap() || exists i :: i in live && Covers(sb, live[i], x)
    {
      if sb.Smap() < x < sb.Smap() + f + 1 { assert ROOT_INODE in live && Covers(sb, live[ROOT_INODE], x); }
      if Covers(sb, archive, x) { assert ARCHIVE_INODE in live && Covers(sb, live[ARCHIVE_INODE], x); }
    }
  }

  lemma OneMoreOnDisk(bytes: nat, live: map<nat, Extent>, ino: nat, e: Extent)
    requires OnDisk(bytes, live) ==> ino !in live
    ensures OnDisk(bytes, live) ==> (OnDisk(bytes, live[ino := e]) <==> (e.start + e.nr) * SECTOR_SIZE <= bytes)
  {
    var live' := live[ino := e];
    assert ino in live' && live'[ino] == e;
    assert OnDisk(bytes, live') ==> (live'[ino].start + live'[ino].nr) * SECTOR_SIZE <= bytes;
    if OnDisk(bytes, live) && (e.start + e.nr) * SECTOR_SIZE <= bytes {
      forall i | i in live'
        ensures (live'[i].start + live'[i].nr) * SECTOR_SIZE <= bytes
      {
        if i != ino { assert i in live && live[i] == live'[i]; }
      }
    }
  }

  /** On a volume, the first i-map sector is full if and only if every number from 1 on is taken. */
  lemma ImapFullIff(sb: SuperBlock, d: seq<bv8>, live: map<nat, Extent>)
    requires ImapOk(sb, d, live)
    ensures AllSet(d, sb.Imap(), sb.Imap() + SECTOR_BITS) <==> forall i :: 0 < i < SECTOR_BITS ==> i in live
  {
    hide BitAt;
    if AllSet(d, sb.Imap(), sb.Imap() + SECTOR_BITS) {
      forall i | 0 < i < SECTOR_BITS
        ensures i in live
      { assert BitAt(d, sb.Imap() + i); }
    }
    if forall i :: 0 < i < SECTOR_BITS ==> i in live {
      forall x | sb.Imap() <= x < sb.Imap() + SECTOR_BITS
        ensures BitAt(d, x)
      { assert x == sb.Imap() || x - sb.Imap() in live; }
    }
  }

  datatype Creation = Created(ino: nat, e: Extent) | Leaked(e: Extent) | Panicked

  class Volume {
    const disk: Disk
    const f: nat         // NR_DEFAULT_FILE_SECTS
    const blocks: nat    // how many blocks of f sectors lie below the archive
    ghost var live: map<nat, Extent>

    ghost predicate Valid()
      reads this, disk.data
    {
      disk.Valid() && Ok(disk.sb, f, blocks, disk.data[..], live)
    }

    /**
     mkfs(), as far as the bitmaps are concerned. It asserts that the archive ends before the last `f`
     sectors of the partition, which are kept for the log.
     */
    constructor (disk: Disk, f: nat, archive: Extent, blocks: nat)
      requires disk.Valid() && disk.sb.nrImapSects == 1 && disk.sb.nrSmapSects >= 1
      requires 0 < f && f + 8 <= SECTOR_BITS && blocks >= 1 && archive.nr > 0
      requires Block(disk.sb, f, blocks) <= FirstBit(disk.sb, archive)
      requires FirstBit(disk.sb, archive) + archive.nr <= disk.sb.SmapEnd()
      requires archive.start + archive.nr < disk.data.Length / SECTOR_SIZE - f
      modifies disk.data, disk.fsbuf
      ensures Valid() && this.disk == disk && this.f == f && this.blocks == blocks
      ensures live == MkfsExtents(disk.sb, f, archive) && OnDisk(disk.data.Length, live)
    {
      this.disk, this.f, this.blocks := disk, f, blocks;
      live := MkfsExtents(disk.sb, f, archive);
      BlockStep(disk.sb, f, 0);
      BlocksGrow(disk.sb, f, 1, blocks);
      disk.MkfsImap(NR_CONSOLES);
      disk.MkfsSmap(f);
      disk.MkfsArchive(archive.start, archive.nr);
      MkfsMapsOk(disk.sb, f, blocks, disk.data[..], archive);
    }

    /**
     create_file(), as far as the bitmaps are concerned. With a free i-map bit and a run of `f` sectors
     at the first free s-map bit it marks exactly these. With no free i-map bit it still marks the run,
     for inode 0, which does not exist. Without such a run it fails an assertion.

     The new file lies on the device if and only if the run does: the allocator does not look.
     */
    method Create() returns (r: Creation)
      requires Valid()
      modifies disk.data, disk.fsbuf, `live
      ensures r.Panicked? <==> !disk.RunFits(old(disk.data[..]), f)
      ensures !r.Panicked? ==> (r.Created? <==> !AllSet(old(disk.data[..]), disk.sb.Imap(), disk.sb.Imap() + SECTOR_BITS))
      ensures !r.Panicked? ==>
                && r.e.nr == f && FirstBit(disk.sb, r.e) == disk.FirstFree(old(disk.data[..]))
                && AllClear(old(disk.data[..]), FirstBit(disk.sb, r.e), FirstBit(disk.sb, r.e) + f)
      ensures r.Created? ==>
                && Valid() && r.ino !in old(live) && live == old(live)[r.ino := r.e]
                && Marked(disk.sb, old(disk.data[..]), disk.data[..], r.ino, r.e)
                && (OnDisk(disk.data.Length, old(live)) ==>
                      (OnDisk(disk.data.Length, live) <==>
                         (SectorOf(disk.sb, disk.FirstFree(old(disk.data[..]))) + f) * SECTOR_SIZE <= disk.data.Length))
      ensures !r.Created? ==> live == old(live)
      ensures r.Leaked? ==>
                SetRange(old(disk.data[..]), disk.data[..], FirstBit(disk.sb, r.e), FirstBit(disk.sb, r.e) + f)
    {
      hide Ok, Bit, BitAt, AllSet, AllClear, Marked, SetRange;
      ghost var before, sb := disk.data[..], disk.sb;
      Reserved(sb, f, blocks, before, live);
      var ino := disk.AllocImapBit();
      ghost var middle := disk.data[..];
      FirstClearMeets(before, sb.Imap(), sb.Imap() + SECTOR_BITS);
      if ino != 0 { ImapMarkSparesSmap(sb, before, middle, ino); }
      var start := disk.AllocSmapBit(f);
      if start.None? { return Panicked; }
      var e := Extent(start.value, f);
      if ino == 0 { return Leaked(e); }
      r := Created(ino, e);
      BothMarks(sb, before, middle, disk.data[..], ino, e);
      CreateKeeps(sb, f, blocks, before, disk.data[..], live, ino, e);
      OneMoreOnDisk(disk.data.Length, live, ino, e);
      live := live[ino := e];
    }

    /** The bitmap part of do_unlink(): none of its assertions can fail, and it undoes the marks. */
    method Unlink(ino: nat, e: Extent) returns (ok: bool)
      requires Valid() && ino in live && live[ino] == e
      modifies disk.data, disk.fsbuf, `live
      ensures ok && Valid() && live == old(live) - {ino}
      ensures Unmarked(disk.sb, old(disk.data[..]), disk.data[..], ino, e)
    {
      ghost var before := disk.data[..];
      ok := disk.FreeImapBit(ino);
      ghost var middle := disk.data[..];
      forall x | FirstBit(disk.sb, e) <= x < FirstBit(disk.sb, e) + e.nr
        ensures BitAt(middle, x)
      { assert Covers(disk.sb, live[ino], x) && BitAt(before, x); }
      ok := disk.FreeSmapBits(e.start, e.nr);
      UnlinkKeepsMaps(disk.sb, f, blocks, before, disk.data[..], live, ino);
      live := live - {ino};
    }

    /** Removing the file that was just created gives back every byte of the disk. */
    method CreateThenUnlink()
      requires Valid() && disk.RunFits(disk.data[..], f)
      requires !AllSet(disk.data[..], disk.sb.Imap(), disk.sb.Imap() + SECTOR_BITS)
      modifies disk.data, disk.fsbuf, `live
      ensures Valid() && live == old(live) && disk.data[..] == old(disk.data[..])
    {
      hide Bit, BitAt, AllSet, Gridded, SmapOk, Disjoint, InMap;
      ghost var before := disk.data[..];
      var r := Create();
      var ino, e := r.ino, r.e;
      ghost var middle := disk.data[..];
      var _ := Unlink(ino, e);
      UnmarkUndoesMark(disk.sb, before, middle, disk.data[..], ino, e);
      assert live == old(live);
    }
  }

  lemma UnmarkUndoesMark(sb: SuperBlock, before: seq<bv8>, middle: seq<bv8>, after: seq<bv8>, ino: nat, e: Extent)
    requires Marked(sb, before, middle, ino, e) && Unmarked(sb, middle, after, ino, e)
    requires sb.Imap() + ino < 8 * |before| && !BitAt(before, sb.Imap() + ino)
    requires forall x :: 0 <= x < 8 * |before| && Covers(sb, e, x) ==> !BitAt(before, x)
    ensures after == before
  {
    EqualBits(after, before);
  }

  // ---------------------------------------------------------------- the end of the partition

  /** After mkfs the run that the allocator finds, if any, lies on the device. */
  lemma FirstFileFits(sb: SuperBlock, f: nat, blocks: nat, d: seq<bv8>, archive: Extent, sects: nat)
    requires Ok(sb, f, blocks, d, MkfsExtents(sb, f, archive)) && archive.start + archive.nr < sects - f && archive.nr > 0
    requires Block(sb, f, blocks) <= FirstBit(sb, archive) && blocks >= 1
    requires FirstClear(d, sb.Smap(), sb.SmapEnd()) + f <= sb.SmapEnd()
    requires AllClear(d, FirstClear(d, sb.Smap(), sb.SmapEnd()), FirstClear(d, sb.Smap(), sb.SmapEnd()) + f)
    ensures SectorOf(sb, FirstClear(d, sb.Smap(), sb.SmapEnd())) + f <= sects
  {
    var live, x := MkfsExtents(sb, f, archive), FirstClear(d, sb.Smap(), sb.SmapEnd());
    var end := FirstBit(sb, archive) + archive.nr;
    hide Bit, BitAt;
    BlockStep(sb, f, 0);
    BlocksGrow(sb, f, 1, blocks);
    forall i | i in live
      ensures !Covers(sb, live[i], end)
    { assert i != ARCHIVE_INODE && i != ROOT_INODE ==> live[i].nr == 0; }
    assert end < sb.SmapEnd() ==> !BitAt(d, end);
  }

  ghost predicate InFile(sb: SuperBlock, live: map<nat, Extent>, x: int) {
    exists i :: i in live && Covers(sb, live[i], x)
  }

  /** The bits of the s-map up to number `k`, and no others, belong to live files. */
  ghost predicate Filled(sb: SuperBlock, live: map<nat, Extent>, k: nat) {
    forall x :: sb.Smap() < x ==> (InFile(sb, live, x) <==> x <= sb.Smap() + k)
  }

  lemma OneMoreFile(sb: SuperBlock, live: map<nat, Extent>, ino: nat, e: Extent)
    requires ino !in live
    ensures forall x :: InFile(sb, live[ino := e], x) <==> InFile(sb, live, x) || Covers(sb, e, x)
  {
    var live' := live[ino := e];
    hide Covers;
    forall x
      ensures InFile(sb, live', x) <==> InFile(sb, live, x) || Covers(sb, e, x)
    {
      if i :| i in live && Covers(sb, live[i], x) { assert i in live' && live'[i] == live[i]; }
      if Covers(sb, e, x) { assert ino in live' && live'[ino] == e; }
    }
  }

  lemma FilledMore(sb: SuperBlock, live: map<nat, Extent>, k: nat, ino: nat, e: Extent)
    requires Filled(sb, live, k) && ino !in live && FirstBit(sb, e) == sb.Smap() + k + 1 && e.nr == 1
    ensures Filled(sb, live[ino := e], k + 1)
  {
    var live' := live[ino := e];
    OneMoreFile(sb, live, ino, e);
    forall x | sb.Smap() < x
      ensures InFile(sb, live', x) <==> x <= sb.Smap() + k + 1
    {
      assert InFile(sb, live', x) <==> InFile(sb, live, x) || Covers(sb, e, x);
      assert InFile(sb, live, x) <==> x <= sb.Smap() + k;
      assert Covers(sb, e, x) <==> x == sb.Smap() + k + 1;
    }
  }

  lemma NextFree(sb: SuperBlock, f: nat, blocks: nat, d: seq<bv8>, live: map<nat, Extent>, k: nat)
    requires Ok(sb, f, blocks, d, live) && Filled(sb, live, k) && sb.Smap() + k + 1 < sb.SmapEnd()
    ensures FirstClear(d, sb.Smap(), sb.SmapEnd()) == sb.Smap() + k + 1
    ensures AllClear(d, sb.Smap() + k + 1, sb.Smap() + k + 2)
  {
    hide Bit, BitAt, ImapOk, Disjoint, InMap, Gridded;
    assert BitAt(d, sb.Smap());
    forall x | sb.Smap() < x <= sb.Smap() + k
      ensures BitAt(d, x)
    { assert InFile(sb, live, x); }
    assert !InFile(sb, live, sb.Smap() + k + 1);
    assert !BitAt(d, sb.Smap() + k + 1);
    FirstClearIs(d, sb.Smap(), sb.SmapEnd(), sb.Smap() + k + 1);
  }

  /** One of the next creations on a full prefix: it takes the next sector. */
  method CreateNext(v: Volume, k: nat) returns (e: Extent)
    requires v.Valid() && v.f == 1 && Filled(v.disk.sb, v.live, k) && v.disk.sb.Smap() + k + 1 < v.disk.sb.SmapEnd()
    requires |v.live| < SECTOR_BITS - 1
    modifies v, v.disk.data, v.disk.fsbuf
    ensures v.Valid() && Filled(v.disk.sb, v.live, k + 1) && |v.live| == |old(v.live)| + 1
    ensures exists ino: nat :: ino !in old(v.live) && v.live == old(v.live)[ino := e]
    ensures e == Extent(v.disk.sb.N1stSect() + k, 1)
  {
    ghost var d, live := v.disk.data[..], v.live;
    NextFree(v.disk.sb, 1, v.blocks, d, live, k);
    ImapFullIff(v.disk.sb, d, live);
    SomeNumberIsFree(live);
    hide Filled, AllClear, AllSet, Ok, Marked;
    var r := v.Create();
    e := r.e;
    assert live[r.ino := e] == v.live && r.ino !in live;
    FilledMore(v.disk.sb, live, k, r.ino, e);
  }

  lemma {:induction false} AtLeast(s: set<nat>, n: nat)
    requires forall i :: 0 < i <= n ==> i in s
    ensures |s| >= n
  {
    if n > 0 { AtLeast(s - {n}, n - 1); }
  }

  /** With fewer files than the i-map has numbers, one of these is free. */
  lemma SomeNumberIsFree(live: map<nat, Extent>)
    requires |live| < SECTOR_BITS - 1
    ensures !(forall i :: 0 < i < SECTOR_BITS ==> i in live)
  {
    if forall i :: 0 < i < SECTOR_BITS ==> i in live {
      AtLeast(live.Keys, SECTOR_BITS - 1);
    }
  }

  /**
   A partition of 264 sectors, as mkfs lays it out for files of one sector, with the archive right
   behind the root: the third file created lies behind the end, for the map has clear bits there.
   */
  method RunsOffTheEnd() returns (v: Volume, e: Extent)
    ensures v.Valid() && v.disk.data.Length == 264 * SECTOR_SIZE && v.disk.sb == SuperBlock(1, 1, 256)
    ensures exists ino :: ino in v.live && v.live[ino] == e && e == Extent(264, 1)
    ensures !OnDisk(v.disk.data.Length, v.live)
  {
    hide Ok, Filled, InFile;
    var disk := new Disk(SuperBlock(1, 1, 256), 264, 1);
    v := new Volume(disk, 1, Extent(261, 1), 1);
    MkfsFills(v.disk.sb, v.live);
    var _ := CreateNext(v, 2);
    var _ := CreateNext(v, 3);
    ghost var live := v.live;
    e := CreateNext(v, 4);
    ghost var ino: nat :| ino !in live && v.live == live[ino := e];
    assert v.live[ino] == e;
  }

  lemma MkfsFills(sb: SuperBlock, live: map<nat, Extent>)
    requires sb == SuperBlock(1, 1, 256) && live == MkfsExtents(sb, 1, Extent(261, 1))
    ensures Filled(sb, live, 2) && |live| == 5
  {
    forall x | sb.Smap() < x
      ensures InFile(sb, live, x) <==> x <= sb.Smap() + 2
    {
      assert Covers(sb, live[ROOT_INODE], x) <==> x == sb.Smap() + 1;
      assert Covers(sb, live[ARCHIVE_INODE], x) <==> x == sb.Smap() + 2;
    }
    assert live.Keys == {1, 2, 3, 4, 5};
  }

  // ---------------------------------------------------------------- the gap before the archive

  /**
   A first free bit in a gap before a live extent, shorter than a file, defeats the allocator, whatever
   is free behind that extent.
   */
  lemma GapDefeats(sb: SuperBlock, f: nat, blocks: nat, d: seq<bv8>, live: map<nat, Extent>, i: nat)
    requires Ok(sb, f, blocks, d, live) && i in live && live[i].nr > 0
    requires FirstClear(d, sb.Smap(), sb.SmapEnd()) < FirstBit(sb, live[i]) < FirstClear(d, sb.Smap(), sb.SmapEnd()) + f
    ensures !AllClear(d, FirstClear(d, sb.Smap(), sb.SmapEnd()), FirstClear(d, sb.Smap(), sb.SmapEnd()) + f)
  {
    hide Bit, BitAt;
    assert Covers(sb, live[i], FirstBit(sb, live[i])) && BitAt(d, FirstBit(sb, live[i]));
  }

  /**
   A partition of 270 sectors, files of two, the archive of one in sector 263: sector 262 is a gap of
   one, and the first creation fails its assertion although the sectors from 264 on are free.
   */
  method GapPanics() returns (v: Volume, r: Creation)
    ensures v.disk.data.Length == 270 * SECTOR_SIZE && v.disk.sb == SuperBlock(1, 1, 256) && v.f == 2 && r.Panicked?
    ensures v.live == MkfsExtents(v.disk.sb, 2, Extent(263, 1))
    ensures forall x :: InFile(v.disk.sb, v.live, x) ==> SectorOf(v.disk.sb, x) < 264
  {
    hide Ok, Bit, BitAt, AllClear, FirstClear;
    var disk := new Disk(SuperBlock(1, 1, 256), 270, 1);
    v := new Volume(disk, 2, Extent(263, 1), 1);
    FirstGap(v.disk.sb, v.disk.data[..], v.live);
    GapDefeats(v.disk.sb, 2, 1, v.disk.data[..], v.live, ARCHIVE_INODE);
    SpaceBehind(v.disk.sb, v.live);
    r := v.Create();
  }

  lemma SpaceBehind(sb: SuperBlock, live: map<nat, Extent>)
    requires sb == SuperBlock(1, 1, 256) && live == MkfsExtents(sb, 2, Extent(263, 1))
    ensures forall x :: InFile(sb, live, x) ==> SectorOf(sb, x) < 264
  {
  }

  lemma FirstGap(sb: SuperBlock, d: seq<bv8>, live: map<nat, Extent>)
    requires sb == SuperBlock(1, 1, 256) && live == MkfsExtents(sb, 2, Extent(263, 1)) && Ok(sb, 2, 1, d, live)
    ensures FirstClear(d, sb.Smap(), sb.SmapEnd()) == sb.Smap() + 3
  {
    hide Bit, BitAt;
    assert Covers(sb, live[ROOT_INODE], sb.Smap() + 1) && Covers(sb, live[ROOT_INODE], sb.Smap() + 2);
    assert BitAt(d, sb.Smap()) && BitAt(d, sb.Smap() + 1) && BitAt(d, sb.Smap() + 2) && !BitAt(d, sb.Smap() + 3);
    FirstClearIs(d, sb.Smap(), sb.SmapEnd(), sb.Smap() + 3);
  }
}
