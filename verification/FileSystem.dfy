/**
 The disk as a store of files: bitmaps, inode array, data and sector buffer below, byte strings above.

 Here the bitmaps (Volume), the inode records and the transfers (ReadWrite) work on one disk. Every
 operation takes the extent of a file from its inode; that this is the extent which was marked when the
 file was created is part of the invariant.
 */
module FileSystem {
  import opened Bits
  import opened FileStore
  import opened Files
  import opened LittleEndian
  import opened Prelude
  import opened ReadWrite
  import opened SectorMap
  import opened Volume

  function InodeOf(i: nat, e: Extent, c: Content): File {
    File(i, c.mode, e.start, e.nr, c.size, 0)
  }

  /** File `i` with extent `e` is on the disk: its record is in the inode array, its bytes in the extent. */
  ghost predicate Kept(sb: SuperBlock, d: seq<bv8>, i: nat, e: Extent, c: Content) {
    && sb.N1stSect() <= e.start && (e.start + e.nr) * SECTOR_SIZE <= |d|
    && e.start < U32 && e.nr * SECTOR_SIZE < U32 && c.mode < U32 && c.size < U32
    && Coherent(sb, d, InodeOf(i, e, c)) && Contents(d, e.start, e.nr) == c.bytes
  }

  ghost predicate AllKept(sb: SuperBlock, d: seq<bv8>, live: map<nat, Extent>, files: map<nat, Content>) {
    forall i :: i in files ==> i in live && Kept(sb, d, i, live[i], files[i])
  }

  /** Every inode number of the i-map has a record, and the numbers in a record fit 32 bits. */
  predicate Roomy(sb: SuperBlock, n: nat, bytes: nat) {
    && SECTOR_BITS <= INODES_PER_SECTOR * sb.nrInodeSects + 1 && sb.nrImapSects == 1 && n * SECTOR_SIZE < U32
    && SECTOR_SIZE * sb.N1stSect() <= bytes < SECTOR_SIZE * U32
  }

  /** The bitmaps describe the live inodes, which lie on the device, and the files among these are on the disk. */
  ghost predicate DiskOk(sb: SuperBlock, n: nat, blocks: nat, d: seq<bv8>, live: map<nat, Extent>, files: map<nat, Content>) {
    Ok(sb, n, blocks, d, live) && Roomy(sb, n, |d|) && OnDisk(|d|, live) && AllKept(sb, d, live, files)
  }

  lemma OnTheDisk(sb: SuperBlock, n: nat, blocks: nat, d: seq<bv8>, live: map<nat, Extent>, files: map<nat, Content>, i: nat)
    requires DiskOk(sb, n, blocks, d, live, files) && i in files
    ensures i in live && InArray(sb, i) && RecordAt(sb, i) + 16 <= |d| && SECTOR_SIZE * sb.N1stSect() <= |d|
    ensures |files[i].bytes| == live[i].nr * SECTOR_SIZE < U32 && files[i].size < U32
    ensures Kept(sb, d, i, live[i], files[i])
  {
    KeptFacts(sb, d, i, live[i], files[i]);
  }

  // ---------------------------------------------------------------- what stays

  lemma KeptStays(sb: SuperBlock, d: seq<bv8>, d': seq<bv8>, i: nat, e: Extent, c: Content)
    requires Kept(sb, d, i, e, c) && |d'| == |d| && Contents(d', e.start, e.nr) == Contents(d, e.start, e.nr)
    requires d'[RecordAt(sb, i)..RecordAt(sb, i) + 16] == d[RecordAt(sb, i)..RecordAt(sb, i) + 16]
    ensures Kept(sb, d', i, e, c)
  {
    hide RecordBytes, RecordAt;
  }

  /** A record and an extent lie behind byte `n`, and so do not notice what changes before it. */
  lemma KeptBehind(sb: SuperBlock, d: seq<bv8>, d': seq<bv8>, n: nat, i: nat, e: Extent, c: Content)
    requires Kept(sb, d, i, e, c) && |d'| == |d| && n <= |d| && d'[n..] == d[n..]
    requires n <= RecordAt(sb, i) && n <= SECTOR_SIZE * sb.N1stSect()
    ensures Kept(sb, d', i, e, c)
  {
    hide RecordBytes, RecordAt, Contents;
    var at := RecordAt(sb, i);
    assert forall k :: at <= k < at + 16 ==> d'[k] == d'[n..][k - n] && d[k] == d[n..][k - n];
    assert d'[at..at + 16] == d[at..at + 16];
    SameData(d, d', n, e.start, e.nr);
    KeptStays(sb, d, d', i, e, c);
  }

  /** The metadata stays: the file has its new contents, with the old record. */
  lemma RecordsStay(sb: SuperBlock, d: seq<bv8>, d': seq<bv8>, i: nat, e: Extent, c: Content)
    requires Kept(sb, d, i, e, c) && |d'| == |d|
    requires d'[..SECTOR_SIZE * sb.N1stSect()] == d[..SECTOR_SIZE * sb.N1stSect()]
    ensures Kept(sb, d', i, e, c.(bytes := Contents(d', e.start, e.nr)))
  {
    hide RecordBytes, RecordAt, Contents;
    var at, end := RecordAt(sb, i), SECTOR_SIZE * sb.N1stSect();
    assert forall k :: at <= k < at + 16 ==> d'[k] == d'[..end][k] && d[k] == d[..end][k];
    assert d'[at..at + 16] == d[at..at + 16];
  }

  lemma PrefixOfPrefix(d: seq<bv8>, d': seq<bv8>, n: nat, m: nat)
    requires |d'| == |d| && n <= m <= |d| && d'[..m] == d[..m]
    ensures d'[..n] == d[..n]
  {
    assert d'[..n] == d'[..m][..n] && d[..n] == d[..m][..n];
  }

  /** The bitmaps change, everything behind them stays. */
  lemma MapsChange(sb: SuperBlock, d: seq<bv8>, d': seq<bv8>, live: map<nat, Extent>, files: map<nat, Content>)
    requires AllKept(sb, d, live, files) && |d'| == |d| && SECTOR_SIZE * sb.N1stSect() <= |d|
    requires forall x :: sb.SmapEnd() <= x < 8 * |d| ==> (BitAt(d', x) <==> BitAt(d, x))
    ensures AllKept(sb, d', live, files)
  {
    var n := SECTOR_SIZE * (2 + sb.nrImapSects + sb.nrSmapSects);
    assert n <= SECTOR_SIZE * sb.N1stSect() && 8 * n == sb.SmapEnd();
    EqualBitsFrom(d', d, n);
    forall i | i in files
      ensures Kept(sb, d', i, live[i], files[i])
    {
      assert Kept(sb, d, i, live[i], files[i]);
      assert n <= RecordAt(sb, i);
      hide Kept, RecordAt;
      KeptBehind(sb, d, d', n, i, live[i], files[i]);
    }
  }

  /** One record is written: the maps, the other records and the data stay. */
  lemma RecordWrite(sb: SuperBlock, d: seq<bv8>, i: nat, r: seq<bv8>)
    requires InArray(sb, i) && |r| == 16 && SECTOR_SIZE * sb.N1stSect() <= |d|
    ensures var at, end := RecordAt(sb, i), SECTOR_SIZE * sb.N1stSect();
            var maps := SECTOR_SIZE * (2 + sb.nrImapSects + sb.nrSmapSects);
            && maps <= end && at + INODE_SIZE <= end
            && var d' := Patched(d, at, r);
               |d'| == |d| && d'[..maps] == d[..maps] && d'[at..at + 16] == r && d'[end..] == d[end..]
  {
    RecordInArray(sb, i);
  }

  lemma OtherRecord(sb: SuperBlock, d: seq<bv8>, i: nat, r: seq<bv8>, j: nat)
    requires InArray(sb, i) && InArray(sb, j) && i != j && |r| == 16 && SECTOR_SIZE * sb.N1stSect() <= |d|
    ensures RecordAt(sb, i) + 16 <= |d| && RecordAt(sb, j) + 16 <= |d|
    ensures Patched(d, RecordAt(sb, i), r)[RecordAt(sb, j)..RecordAt(sb, j) + 16] == d[RecordAt(sb, j)..RecordAt(sb, j) + 16]
  {
    RecordInArray(sb, i);
    RecordInArray(sb, j);
  }

  lemma RecordWriteKeeps(sb: SuperBlock, n: nat, blocks: nat, d: seq<bv8>, live: map<nat, Extent>,
                         files: map<nat, Content>, i: nat, r: seq<bv8>)
    requires Ok(sb, n, blocks, d, live) && sb.nrImapSects >= 1 && AllKept(sb, d, live, files) && i !in files
    requires InArray(sb, i) && |r| == 16 && SECTOR_SIZE * sb.N1stSect() <= |d|
    ensures RecordAt(sb, i) + 16 <= |d|
    ensures Ok(sb, n, blocks, Patched(d, RecordAt(sb, i), r), live)
    ensures AllKept(sb, Patched(d, RecordAt(sb, i), r), live, files)
  {
    hide Ok, Patched, RecordAt, RecordBytes;
    RecordWrite(sb, d, i, r);
    var d' := Patched(d, RecordAt(sb, i), r);
    MapsStay(sb, n, blocks, d, d', live);
    forall j | j in files
      ensures Kept(sb, d', j, live[j], files[j])
    {
      OtherRecord(sb, d, i, r, j);
      SameData(d, d', SECTOR_SIZE * sb.N1stSect(), live[j].start, live[j].nr);
      KeptStays(sb, d, d', j, live[j], files[j]);
    }
  }

  lemma OneMoreKept(sb: SuperBlock, d: seq<bv8>, live: map<nat, Extent>, files: map<nat, Content>, i: nat, c: Content)
    requires AllKept(sb, d, live, files) && i in live && Kept(sb, d, i, live[i], c)
    ensures AllKept(sb, d, live, files[i := c])
  {
    hide Kept;
  }

  // ---------------------------------------------------------------- the operations on the disk

  /** The record of a file is written with a new size. */
  lemma Resized(sb: SuperBlock, n: nat, blocks: nat, d: seq<bv8>, live: map<nat, Extent>,
                files: map<nat, Content>, i: nat, size: nat)
    requires Ok(sb, n, blocks, d, live) && sb.nrImapSects >= 1 && AllKept(sb, d, live, files) && i in files && size < U32
    requires InArray(sb, i) && SECTOR_SIZE * sb.N1stSect() <= |d| && RecordAt(sb, i) + 16 <= |d|
    ensures var d' := Patched(d, RecordAt(sb, i), RecordBytes(InodeOf(i, live[i], files[i].(size := size))));
            Ok(sb, n, blocks, d', live) && AllKept(sb, d', live, files[i := files[i].(size := size)])
  {
    hide Ok, Patched, RecordAt, RecordBytes;
    var r, e := RecordBytes(InodeOf(i, live[i], files[i].(size := size))), live[i];
    var d' := Patched(d, RecordAt(sb, i), r);
    RecordWriteKeeps(sb, n, blocks, d, live, files - {i}, i, r);
    RecordWrite(sb, d, i, r);
    SameData(d, d', SECTOR_SIZE * sb.N1stSect(), e.start, e.nr);
    var c := files[i].(size := size);
    OneMoreKept(sb, d', live, files - {i}, i, c);
    assert (files - {i})[i := c] == files[i := c];
  }

  lemma KeptFacts(sb: SuperBlock, d: seq<bv8>, i: nat, e: Extent, c: Content)
    requires Kept(sb, d, i, e, c)
    ensures |c.bytes| == e.nr * SECTOR_SIZE && InArray(sb, i) && RecordAt(sb, i) + 16 <= |d|
  {
  }

  /** One extent changes, the others and the metadata do not. */
  lemma ExtentChanged(sb: SuperBlock, d: seq<bv8>, m: seq<bv8>, live: map<nat, Extent>, files: map<nat, Content>, i: nat)
    requires AllKept(sb, d, live, files) && i in files && |m| == |d|
    requires SECTOR_SIZE * sb.N1stSect() <= |d| && m[..SECTOR_SIZE * sb.N1stSect()] == d[..SECTOR_SIZE * sb.N1stSect()]
    requires (live[i].start + live[i].nr) * SECTOR_SIZE <= |d|
    requires forall j :: j in files && j != i ==>
               (live[j].start + live[j].nr) * SECTOR_SIZE <= |d|
               && Contents(m, live[j].start, live[j].nr) == Contents(d, live[j].start, live[j].nr)
    ensures AllKept(sb, m, live, files[i := files[i].(bytes := Contents(m, live[i].start, live[i].nr))])
  {
    var files' := files[i := files[i].(bytes := Contents(m, live[i].start, live[i].nr))];
    forall j | j in files'
      ensures j in live && Kept(sb, m, j, live[j], files'[j])
    {
      assert Kept(sb, d, j, live[j], files[j]);
      RecordsStay(sb, d, m, j, live[j], files[j]);
      hide Coherent;
    }
  }

  /** Bytes are written within a file. */
  lemma DataWritten(sb: SuperBlock, n: nat, blocks: nat, d: seq<bv8>, live: map<nat, Extent>,
                    files: map<nat, Content>, i: nat, pos: nat, bytes: seq<bv8>)
    requires Ok(sb, n, blocks, d, live) && sb.nrImapSects >= 1 && AllKept(sb, d, live, files) && OnDisk(|d|, live)
    requires SECTOR_SIZE * sb.N1stSect() <= |d| && i in files && pos + |bytes| <= |files[i].bytes|
    ensures live[i].start * SECTOR_SIZE + pos + |bytes| <= |d|
    ensures var m := Patched(d, live[i].start * SECTOR_SIZE + pos, bytes);
            && Ok(sb, n, blocks, m, live)
            && AllKept(sb, m, live, files[i := files[i].(bytes := Patched(files[i].bytes, pos, bytes))])
  {
    hide Patched, RecordBytes, Disjoint, SmapOk, ImapOk, Gridded, Coherent, Contents;
    var f := InodeOf(i, live[i], files[i]).(pos := pos);
    KeptFacts(sb, d, i, live[i], files[i]);
    PatchSparesOthers(sb, d, live, i, f, bytes);
    var m := Patched(d, f.Address(), bytes);
    PrefixOfPrefix(d, m, SECTOR_SIZE * (2 + sb.nrImapSects + sb.nrSmapSects), SECTOR_SIZE * sb.N1stSect());
    MapsStay(sb, n, blocks, d, m, live);
    ExtentChanged(sb, d, m, live, files, i);
  }

  lemma MarkedSparesFiles(sb: SuperBlock, d: seq<bv8>, m: seq<bv8>, live: map<nat, Extent>, files: map<nat, Content>,
                          ino: nat, e: Extent)
    requires AllKept(sb, d, live, files) && SECTOR_SIZE * sb.N1stSect() <= |d| && sb.nrImapSects >= 1
    requires Marked(sb, d, m, ino, e) || Unmarked(sb, d, m, ino, e)
    requires ino < SECTOR_BITS && FirstBit(sb, e) + e.nr <= sb.SmapEnd()
    ensures AllKept(sb, m, live, files)
  {
    hide AllKept, BitAt;
    MapsChange(sb, d, m, live, files);
  }

  /** Bitmaps and record of a new file. */
  lemma FileAdded(sb: SuperBlock, n: nat, blocks: nat, d: seq<bv8>, m: seq<bv8>, live: map<nat, Extent>,
                  files: map<nat, Content>, ino: nat, e: Extent)
    requires DiskOk(sb, n, blocks, d, live, files) && ino !in live && Ok(sb, n, blocks, m, live[ino := e])
    requires Marked(sb, d, m, ino, e) && e.nr == n && OnDisk(|d|, live[ino := e])
    ensures InArray(sb, ino) && RecordAt(sb, ino) + 16 <= |m| && (e.start + e.nr) * SECTOR_SIZE <= |d|
    ensures DiskOk(sb, n, blocks, Patched(m, RecordAt(sb, ino), RecordBytes(File(ino, I_REGULAR, e.start, e.nr, 0, 0))),
                   live[ino := e], files[ino := Content(I_REGULAR, 0, Contents(d, e.start, e.nr))])
  {
    hide RecordBytes, RecordAt, Patched, BitAt, Disjoint, SmapOk, Gridded;
    var live', end := live[ino := e], SECTOR_SIZE * sb.N1stSect();
    assert ino in live' && live'[ino] == e;
    assert sb.N1stSect() <= e.start;
    MarkedSparesFiles(sb, d, m, live, files, ino, e);
    assert AllKept(sb, m, live', files);
    var r := RecordBytes(File(ino, I_REGULAR, e.start, e.nr, 0, 0));
    RecordWriteKeeps(sb, n, blocks, m, live', files, ino, r);
    RecordWrite(sb, m, ino, r);
    var d' := Patched(m, RecordAt(sb, ino), r);
    DataBehindMaps(sb, d, m, ino, e);
    hide Ok, AllKept;
    SameData(m, d', end, e.start, e.nr);
    SameData(d, m, end, e.start, e.nr);
    OneMoreKept(sb, d', live', files, ino, Content(I_REGULAR, 0, Contents(d, e.start, e.nr)));
  }

  lemma DataBehindMaps(sb: SuperBlock, d: seq<bv8>, m: seq<bv8>, ino: nat, e: Extent)
    requires Marked(sb, d, m, ino, e) && SECTOR_SIZE * sb.N1stSect() <= |d| && sb.nrImapSects >= 1
    requires ino < SECTOR_BITS && FirstBit(sb, e) + e.nr <= sb.SmapEnd()
    ensures m[SECTOR_SIZE * sb.N1stSect()..] == d[SECTOR_SIZE * sb.N1stSect()..]
  {
    hide BitAt;
    EqualBitsFrom(m, d, SECTOR_SIZE * sb.N1stSect());
  }

  /** Bitmaps and record of a removed file. */
  lemma FileRemoved(sb: SuperBlock, n: nat, blocks: nat, d: seq<bv8>, m: seq<bv8>, live: map<nat, Extent>,
                    files: map<nat, Content>, i: nat)
    requires DiskOk(sb, n, blocks, d, live, files) && i in files && i in live
    requires Unmarked(sb, d, m, i, live[i]) && Ok(sb, n, blocks, m, live - {i})
    ensures InArray(sb, i) && RecordAt(sb, i) + 16 <= |m|
    ensures DiskOk(sb, n, blocks, Patched(m, RecordAt(sb, i), RecordBytes(File(i, 0, 0, 0, 0, 0))), live - {i}, files - {i})
  {
    hide RecordBytes, RecordAt, Patched, BitAt, Disjoint, SmapOk, Gridded, Kept;
    MarkedSparesFiles(sb, d, m, live, files, i, live[i]);
    hide Ok;
    assert AllKept(sb, m, live - {i}, files - {i});
    RecordWriteKeeps(sb, n, blocks, m, live - {i}, files - {i}, i, RecordBytes(File(i, 0, 0, 0, 0, 0)));
  }

  /** The position is not in the record. */
  lemma SameRecord(f: File, g: File)
    requires f == g.(pos := f.pos)
    ensures RecordBytes(f) == RecordBytes(g)
  {
  }

  /** A truncated file. */
  lemma Truncated(sb: SuperBlock, n: nat, blocks: nat, d: seq<bv8>, live: map<nat, Extent>, files: map<nat, Content>, i: nat)
    requires DiskOk(sb, n, blocks, d, live, files) && i in files
    ensures i in live && InArray(sb, i) && RecordAt(sb, i) + 16 <= |d|
    ensures DiskOk(sb, n, blocks, Patched(d, RecordAt(sb, i), RecordBytes(InodeOf(i, live[i], files[i].(size := 0)))), live,
                   files[i := files[i].(size := 0)])
  {
    hide Ok, OnDisk, AllKept, RecordBytes, RecordAt, Patched;
    OnTheDisk(sb, n, blocks, d, live, files, i);
    Resized(sb, n, blocks, d, live, files, i, 0);
  }

  /** What a write at the position of a descriptor leaves on the disk. */
  lemma FileWritten(sb: SuperBlock, n: nat, blocks: nat, d: seq<bv8>, live: map<nat, Extent>,
                    files: map<nat, Content>, i: nat, pos: nat, b: seq<bv8>, len: nat)
    requires DiskOk(sb, n, blocks, d, live, files) && i in files && len <= |b| && pos + len <= |files[i].bytes|
    ensures i in live
    ensures var f := InodeOf(i, live[i], files[i]).(pos := pos);
            var f' := f.(pos := pos + len, size := Max(f.size, pos + len));
            && InArray(sb, i) && SECTOR_SIZE * sb.N1stSect() <= |d| && f.Address() + len <= |d|
            && DiskOk(sb, n, blocks, Synced(DiskAfter(true, d, b, f.Address(), len), sb, f, f'), live,
                      files[i := files[i].(size := f'.size, bytes := Patched(files[i].bytes, pos, b[..len]))])
  {
    hide Ok, OnDisk, AllKept, Kept, RecordBytes, RecordAt, Patched;
    OnTheDisk(sb, n, blocks, d, live, files, i);
    var c, f := files[i], InodeOf(i, live[i], files[i]).(pos := pos);
    var f' := f.(pos := pos + len, size := Max(f.size, pos + len));
    DataWritten(sb, n, blocks, d, live, files, i, pos, b[..len]);
    var m := Patched(d, f.Address(), b[..len]);
    PatchNothing(d, f.Address());
    assert m == DiskAfter(true, d, b, f.Address(), len);
    var files' := files[i := c.(bytes := Patched(c.bytes, pos, b[..len]))];
    if f'.pos > f.size {
      Resized(sb, n, blocks, m, live, files', i, f'.size);
      SameRecord(f', InodeOf(i, live[i], c.(size := f'.size)));
    }
    assert files'[i := files'[i].(size := f'.size)] ==
           files[i := c.(size := f'.size, bytes := Patched(c.bytes, pos, b[..len]))];
  }

  /** What a read leaves there. */
  lemma FileRead(sb: SuperBlock, n: nat, blocks: nat, d: seq<bv8>, live: map<nat, Extent>,
                 files: map<nat, Content>, i: nat, pos: nat, moved: nat)
    requires DiskOk(sb, n, blocks, d, live, files) && i in files && pos + moved < U32
    ensures i in live
    ensures var f := InodeOf(i, live[i], files[i]).(pos := pos);
            var f' := f.(pos := pos + moved, size := Max(f.size, pos + moved));
            && InArray(sb, i) && SECTOR_SIZE * sb.N1stSect() <= |d|
            && DiskOk(sb, n, blocks, Synced(d, sb, f, f'), live, files[i := files[i].(size := f'.size)])
  {
    hide Ok, OnDisk, AllKept, Kept, RecordBytes, RecordAt, Patched;
    OnTheDisk(sb, n, blocks, d, live, files, i);
    var c, f := files[i], InodeOf(i, live[i], files[i]).(pos := pos);
    var f' := f.(pos := pos + moved, size := Max(f.size, pos + moved));
    if f'.pos > f.size {
      Resized(sb, n, blocks, d, live, files, i, f'.size);
      SameRecord(f', InodeOf(i, live[i], c.(size := f'.size)));
    } else {
      assert files[i := c.(size := f'.size)] == files;
    }
  }

  // ---------------------------------------------------------------- the file system

  /** The inodes in the inode table are those on the disk. */
  ghost predicate CacheOk(live: map<nat, Extent>, cached: map<nat, File>, counts: map<nat, nat>, files: map<nat, Content>) {
    && cached.Keys == counts.Keys
    && forall i :: i in cached ==> i in live && i in files && cached[i] == InodeOf(i, live[i], files[i])
  }

  class FileSystem {
    const vol: Volume
    var cached: map<nat, File>           // inode_table[], the slots in use by inode number
    var counts: map<nat, nat>            // their i_cnt
    var descs: seq<Option<Desc>>         // f_desc_table[]
    ghost var files: map<nat, Content>

    ghost function View(): Store
      reads this
    {
      Store(files, counts, descs)
    }

    ghost predicate Valid()
      reads this, vol, vol.disk.data
    {
      && vol.disk.Valid() && DiskOk(vol.disk.sb, vol.f, vol.blocks, vol.disk.data[..], vol.live, files)
      && StoreOk(View()) && CacheOk(vol.live, cached, counts, files)
    }

    /** A volume is mounted with files that are on it, and empty tables. */
    constructor (vol: Volume, nrDescs: nat, ghost files: map<nat, Content>)
      requires vol.Valid() && Roomy(vol.disk.sb, vol.f, vol.disk.data.Length) && OnDisk(vol.disk.data.Length, vol.live)
      requires AllKept(vol.disk.sb, vol.disk.data[..], vol.live, files)
      ensures Valid() && this.vol == vol && View() == Store(files, map[], seq(nrDescs, _ => None))
    {
      hide Ok, Kept, OnDisk;
      this.vol, this.files := vol, files;
      cached, counts, descs := map[], map[], seq(nrDescs, _ => None);
      new;
      NobodyNamed(descs);
    }

    /** get_inode(): from the table, or else from the disk. */
    method GetInode(num: nat)
      requires Valid() && num in files
      modifies vol.disk.fsbuf, `cached, `counts
      ensures Valid() && counts == Held(old(counts), num) && num in cached
    {
      hide DiskOk, StoreOk, CacheOk, Kept, RecordAt, RecordFile;
      ghost var s, d := View(), vol.disk.data[..];
      OnTheDisk(vol.disk.sb, vol.f, vol.blocks, d, vol.live, files, num);
      HeldIsOk(s, num);
      CacheHeld(vol.live, cached, counts, files, num);
      if num in counts {
        counts := counts[num := counts[num] + 1];
      } else {
        var f := ReadInode(vol.disk, num);
        ReadsBack(vol.disk.sb, d, num, vol.live[num], files[num]);
        cached := cached[num := f];
        counts := counts[num := 1];
      }
    }

    /** A descriptor slot that is not in use. */
    method FreeDesc() returns (k: nat)
      ensures k <= |descs| && (k < |descs| ==> descs[k].None?)
      ensures forall j :: 0 <= j < k ==> descs[j].Some?
    {
      k := 0;
      while k < |descs| && descs[k].Some?
        invariant k <= |descs| && forall j :: 0 <= j < k ==> descs[j].Some?
      {
        k := k + 1;
      }
    }

    /** do_open() for a file that exists. A full descriptor table halts the kernel. */
    method Open(num: nat, trunc: bool) returns (k: Option<nat>)
      requires Valid() && num in files
      modifies this, vol.disk.data, vol.disk.fsbuf
      ensures Valid() && (k.None? <==> Full(old(View())))
      ensures k.None? ==> View() == old(View())
      ensures k.Some? ==>
                && Enabled(old(View()), Op.Open(k.value, num, trunc))
                && View() == Next(old(View()), Op.Open(k.value, num, trunc))
                && forall j :: 0 <= j < k.value ==> !Unused(old(View()), j)
    {
      hide DiskOk, StoreOk, CacheOk, RecordAt, RecordBytes, Patched;
      ghost var s := View();
      var slot := FreeDesc();
      if slot == |descs| { return None; }
      assert descs[slot] in s.descs;
      NextKeepsOk(s, Op.Open(slot, num, trunc));
      GetInode(num);
      if trunc {
        ghost var d := vol.disk.data[..];
        CacheIs(vol.live, cached, counts, files, num);
        CacheChanged(vol.live, cached, counts, files, num, files[num].(size := 0));
        Truncated(vol.disk.sb, vol.f, vol.blocks, d, vol.live, files, num);
        cached := cached[num := cached[num].(size := 0)];
        SyncInode(vol.disk, cached[num]);
        files := files[num := files[num].(size := 0)];
      }
      descs := descs[slot := Some(Desc(num, 0))];
      k := Some(slot);
      assert View() == Next(s, Op.Open(slot, num, trunc));
    }

    /** put_inode(). */
    method PutInode(num: nat)
      requires num in counts
      modifies `cached, `counts
      ensures counts == Dropped(old(counts), num)
      ensures cached == if num in counts then old(cached) else old(cached) - {num}
    {
      if counts[num] <= 1 {
        counts, cached := counts - {num}, cached - {num};
      } else {
        counts := counts[num := counts[num] - 1];
      }
    }

    /** do_close(). */
    method Close(k: nat)
      requires Valid() && Enabled(View(), Op.Close(k))
      modifies this
      ensures Valid()
      ensures View() == Next(old(View()), Op.Close(k))
    {
      hide DiskOk, StoreOk, CacheOk;
      NextKeepsOk(View(), Op.Close(k));
      CacheDropped(vol.live, cached, counts, files, descs[k].value.num);
      PutInode(descs[k].value.num);
      descs := descs[k := None];
    }

    /** do_lseek(). */
    method Lseek(k: nat, off: int, whence: Whence) returns (pos: Option<nat>)
      requires Valid() && Enabled(View(), Op.Lseek(k, off, whence))
      modifies `descs
      ensures Valid()
      ensures View() == Next(old(View()), Op.Lseek(k, off, whence))
      ensures pos == Target(old(View()), k, off, whence)
    {
      hide DiskOk, StoreOk, CacheOk, Seek;
      NextKeepsOk(View(), Op.Lseek(k, off, whence));
      CacheIs(vol.live, cached, counts, files, descs[k].value.num);
      var d := descs[k].value;
      pos := Seek(d.pos, cached[d.num].size, off, whence);
      if pos.Some? { descs := descs[k := Some(Desc(d.num, pos.value))]; }
    }

    /** What do_rdwt() works on: the inode in the table, and the position of the descriptor. */
    ghost function At(k: nat): File
      requires Valid() && InUse(View(), k)
      reads this, vol, vol.disk.data
    {
      cached[descs[k].value.num].(pos := descs[k].value.pos)
    }

    /**
     create_file(), and the rest of do_open(). Without a run of sectors or a free descriptor it halts;
     with a full i-map it goes on with inode 0 and leaks the run. A new file lies on the device if and
     only if its sectors do, which nobody checks.
     */
    method Create() returns (r: Creation, k: nat)
      requires Valid()
      modifies this, vol, vol.disk.data, vol.disk.fsbuf
      ensures r.Panicked? <==> Full(old(View())) || !vol.disk.RunFits(old(vol.disk.data[..]), vol.f)
      ensures r.Created? ==> vol.live == old(vol.live)[r.ino := r.e] && forall j :: 0 <= j < k ==> !Unused(old(View()), j)
      ensures !r.Created? ==> View() == old(View())
      ensures r.Created? ==> (Valid() <==> (r.e.start + r.e.nr) * SECTOR_SIZE <= vol.disk.data.Length)
      ensures r.Created? && Valid() ==>
                && FirstBit(vol.disk.sb, r.e) == vol.disk.FirstFree(old(vol.disk.data[..])) && r.e.nr == vol.f
                && var room := Contents(old(vol.disk.data[..]), r.e.start, r.e.nr);
                   Enabled(old(View()), Op.Create(k, r.ino, room)) && View() == Next(old(View()), Op.Create(k, r.ino, room))
    {
      hide Ok, StoreOk, CacheOk, AllKept, OnDisk, Marked, RecordAt, RecordBytes, Patched, AllClear, AllSet, Contents, FirstBit,
           SectorOf, FirstClear, ImapOk;
      ghost var s, d, sb, live := View(), vol.disk.data[..], vol.disk.sb, vol.live;
      k := FreeDesc();
      if k == |descs| { return Panicked, k; }
      assert descs[k] in s.descs;
      r := vol.Create();
      if !r.Created? { return; }
      NewNumber(sb, d, live, cached, counts, files, r.ino);
      ghost var m := vol.disk.data[..];
      StartOf(sb, r.e);
      NumberInArray(sb, vol.f, vol.blocks, m, vol.live, r.ino);
      var f := File(r.ino, I_REGULAR, r.e.start, r.e.nr, 0, 0);
      SyncInode(vol.disk, f);
      cached, counts, descs := cached[r.ino := f], counts[r.ino := 1], descs[k := Some(Desc(r.ino, 0))];
      if (r.e.start + r.e.nr) * SECTOR_SIZE <= |d| {
        FileAdded(sb, vol.f, vol.blocks, d, m, live, s.files, r.ino, r.e);
        ghost var room := Contents(d, r.e.start, r.e.nr);
        CacheExtended(live, old(cached), s.counts, files, r.ino, r.e, Content(I_REGULAR, 0, room));
        files := files[r.ino := Content(I_REGULAR, 0, room)];
        NextKeepsOk(s, Op.Create(k, r.ino, room));
      }
    }

    /**
     do_unlink(). It answers -1 for a directory, and if the inode is in the table; then the count stays
     raised. Otherwise it frees the extent that the record names: no assertion fails, and no other file
     is touched.
     */
    method Unlink(num: nat) returns (ok: bool)
      requires Valid() && Enabled(View(), Op.Unlink(num))
      modifies this, vol, vol.disk.data, vol.disk.fsbuf
      ensures View() == Next(old(View()), Op.Unlink(num))
      ensures ok <==> Removable(old(View()), num)
      ensures vol.live == if ok then old(vol.live) - {num} else old(vol.live)
      ensures Valid()
    {
      hide Ok, StoreOk, CacheOk, AllKept, OnDisk, Unmarked, RecordAt, RecordBytes, Patched;
      ghost var s, d, sb, live := View(), vol.disk.data[..], vol.disk.sb, vol.live;
      NextKeepsOk(s, Op.Unlink(num));
      GetInode(num);
      CacheIs(vol.live, cached, counts, files, num);
      var f := cached[num];
      HeldAlone(s, num);
      if f.mode != I_REGULAR || counts[num] > 1 { return false; }
      ok := vol.Unlink(num, Extent(f.start, f.nr));
      FileRemoved(sb, vol.f, vol.blocks, d, vol.disk.data[..], live, files, num);
      SyncInode(vol.disk, File(num, 0, 0, 0, 0, 0));
      CacheRemoved(live, cached, counts, files, num);
      PutInode(num);
      files := files - {num};
      assert counts == s.counts;
    }

    /**
     do_rdwt() for WRITE, within the extent of the file. Exactly the bytes at the position become those of
     the caller; all other bytes of this file and every other file stay.
     */
    method Write(k: nat, buf: array<bv8>, len: nat)
      requires Valid() && len <= buf.Length && buf != vol.disk.data && buf != vol.disk.fsbuf
      requires Enabled(View(), Op.Write(k, buf[..len]))
      requires At(k).OnDevice(true, len, vol.disk.fsbuf.Length / SECTOR_SIZE, vol.disk.data.Length / SECTOR_SIZE)
      modifies this, vol.disk.data, vol.disk.fsbuf, buf
      ensures Valid() && buf[..] == old(buf[..])
      ensures View() == Next(old(View()), Op.Write(k, old(buf[..len])))
    {
      hide DiskOk, StoreOk, File.OnDevice, RecordAt, RecordBytes, Synced, DiskAfter;
      ghost var s, d, sb := View(), vol.disk.data[..], vol.disk.sb;
      NextKeepsOk(s, Op.Write(k, buf[..len]));
      var desc := descs[k].value;
      OnTheDisk(sb, vol.f, vol.blocks, d, vol.live, files, desc.num);
      FileWritten(sb, vol.f, vol.blocks, d, vol.live, files, desc.num, desc.pos, buf[..], len);
      var f' := WriteInRange(vol.disk, cached[desc.num].(pos := desc.pos), buf, len);
      ghost var c := files[desc.num];
      files := files[desc.num := c.(size := f'.size, bytes := Patched(c.bytes, desc.pos, buf[..len]))];
      cached := cached[desc.num := f'.(pos := 0)];
      descs := descs[k := Some(Desc(desc.num, f'.pos))];
    }

    /**
     do_rdwt() for READ. Bytes within the extent are those of the file; a read within the size moves all
     of `len` and leaves the disk alone, and one that ends behind it makes the file longer.
     */
    method Read(k: nat, buf: array<bv8>, len: nat) returns (moved: nat)
      requires Valid() && len <= buf.Length && buf != vol.disk.data && buf != vol.disk.fsbuf
      requires Enabled(View(), Op.Read(k, 0)) && descs[k].value.pos + len < U32
      requires At(k).OnDevice(false, len, vol.disk.fsbuf.Length / SECTOR_SIZE, vol.disk.data.Length / SECTOR_SIZE)
      modifies this, vol.disk.data, vol.disk.fsbuf, buf
      ensures View() == Next(old(View()), Op.Read(k, moved))
      ensures moved == old(At(k)).Moved(false, len, vol.disk.fsbuf.Length / SECTOR_SIZE)
      ensures HandedOut(old(View()), k, moved, old(buf[..]), buf[..])
      ensures PosOf(old(View()), k) + len <= FileOf(old(View()), k).size ==>
                moved == len && vol.disk.data[..] == old(vol.disk.data[..])
      ensures Valid()
    {
      hide DiskOk, StoreOk, CacheOk, Kept, File.OnDevice, RecordAt, RecordBytes, Patched, Synced, BufferAfter, Contents;
      ghost var s, d, sb, b := View(), vol.disk.data[..], vol.disk.sb, buf[..];
      var desc := descs[k].value;
      CacheIs(vol.live, cached, counts, files, desc.num);
      OnTheDisk(sb, vol.f, vol.blocks, d, vol.live, files, desc.num);
      var f := cached[desc.num].(pos := desc.pos);
      var f';
      moved, f' := DoRdwt(vol.disk, false, f, buf, len);
      MovedAtMost(f, len, vol.disk.fsbuf.Length / SECTOR_SIZE);
      NextKeepsOk(s, Op.Read(k, moved));
      FileRead(sb, vol.f, vol.blocks, d, vol.live, files, desc.num, desc.pos, moved);
      BytesHandedOut(sb, d, b, desc.num, vol.live[desc.num], files[desc.num], desc.pos, moved);
      NothingWritten(d, b, sb, f, f', moved);
      CacheChanged(vol.live, cached, counts, files, desc.num, files[desc.num].(size := f'.size));
      files := files[desc.num := files[desc.num].(size := f'.size)];
      cached := cached[desc.num := f'.(pos := 0)];
      descs := descs[k := Some(Desc(desc.num, f'.pos))];
    }
  }

  lemma {:induction false} NobodyNamed(descs: seq<Option<Desc>>)
    requires forall k :: 0 <= k < |descs| ==> descs[k].None?
    ensures forall i :: Named(descs, i) == 0
  {
    if descs != [] { NobodyNamed(descs[1..]); }
  }

  lemma ReadsBack(sb: SuperBlock, d: seq<bv8>, i: nat, e: Extent, c: Content)
    requires Kept(sb, d, i, e, c)
    ensures RecordAt(sb, i) + 16 <= |d|
    ensures RecordFile(i, d[RecordAt(sb, i)..RecordAt(sb, i) + 16]) == InodeOf(i, e, c)
  {
    hide RecordBytes, RecordFile;
    RecordRoundTrip(InodeOf(i, e, c));
  }

  /** The slice of the disk that is handed out is a slice of the file. */
  lemma BytesHandedOut(sb: SuperBlock, d: seq<bv8>, b: seq<bv8>, i: nat, e: Extent, c: Content, pos: nat, moved: nat)
    requires Kept(sb, d, i, e, c) && moved <= |b| && (moved > 0 ==> e.start * SECTOR_SIZE + pos + moved <= |d|)
    ensures pos + moved <= |c.bytes| ==>
              BufferAfter(false, d, b, e.start * SECTOR_SIZE + pos, moved) == Patched(b, 0, c.bytes[pos..pos + moved])
  {
    hide Coherent, Patched;
    if pos + moved <= |c.bytes| {
      SliceOfSlice(d, e.start * SECTOR_SIZE, e.nr * SECTOR_SIZE, pos, moved);
      PatchNothing(b, 0);
    }
  }

  /** A read within the size moves everything and writes no record. */
  lemma NothingWritten(d: seq<bv8>, b: seq<bv8>, sb: SuperBlock, f: File, f': File, moved: nat)
    requires InArray(sb, f.num) && SECTOR_SIZE * sb.N1stSect() <= |d| && f'.pos == f.pos + moved
    requires moved > 0 ==> f.Address() + moved <= |d| && moved <= |b|
    ensures DiskAfter(false, d, b, f.Address(), moved) == d && (f'.pos <= f.size ==> Synced(d, sb, f, f') == d)
  {
  }

  lemma MovedAtMost(f: File, len: nat, bufSects: nat)
    requires bufSects > 0
    ensures f.Moved(false, len, bufSects) <= len
    ensures f.pos + len <= f.size ==> f.Moved(false, len, bufSects) == len
  {
    if f.pos + len <= f.size { InRangeMovesAll(f, false, len, bufSects); }
  }

  lemma CacheDropped(live: map<nat, Extent>, cached: map<nat, File>, counts: map<nat, nat>, files: map<nat, Content>, i: nat)
    requires CacheOk(live, cached, counts, files) && i in counts
    ensures var counts' := Dropped(counts, i);
            CacheOk(live, if i in counts' then cached else cached - {i}, counts', files)
  {
  }

  lemma CacheRemoved(live: map<nat, Extent>, cached: map<nat, File>, counts: map<nat, nat>, files: map<nat, Content>, i: nat)
    requires CacheOk(live, cached, counts, files) && i in counts
    ensures CacheOk(live - {i}, cached - {i}, counts - {i}, files - {i})
  {
  }

  lemma CacheExtended(live: map<nat, Extent>, cached: map<nat, File>, counts: map<nat, nat>, files: map<nat, Content>,
                      i: nat, e: Extent, c: Content)
    requires CacheOk(live, cached, counts, files) && i !in live
    ensures CacheOk(live[i := e], cached[i := InodeOf(i, e, c)], Held(counts, i), files[i := c])
  {
  }

  /** A number of the i-map has a record. */
  lemma NumberInArray(sb: SuperBlock, n: nat, blocks: nat, d: seq<bv8>, live: map<nat, Extent>, i: nat)
    requires Ok(sb, n, blocks, d, live) && Roomy(sb, n, |d|) && i in live
    ensures InArray(sb, i)
  {
  }

  lemma StartOf(sb: SuperBlock, e: Extent)
    ensures SectorOf(sb, FirstBit(sb, e)) == e.start
  {
  }

  /** The number of a new file is not in use. */
  lemma NewNumber(sb: SuperBlock, d: seq<bv8>, live: map<nat, Extent>, cached: map<nat, File>, counts: map<nat, nat>,
                  files: map<nat, Content>, num: nat)
    requires AllKept(sb, d, live, files) && CacheOk(live, cached, counts, files) && num !in live
    ensures num !in files && num !in counts && num !in cached
  {
  }

  /** A new size, in the table as on the disk. */
  lemma CacheChanged(live: map<nat, Extent>, cached: map<nat, File>, counts: map<nat, nat>, files: map<nat, Content>,
                     i: nat, c: Content)
    requires CacheOk(live, cached, counts, files) && i in counts && i in live
    ensures CacheOk(live, cached[i := InodeOf(i, live[i], c)], counts, files[i := c])
  {
  }

  lemma CacheIs(live: map<nat, Extent>, cached: map<nat, File>, counts: map<nat, nat>, files: map<nat, Content>, i: nat)
    requires CacheOk(live, cached, counts, files) && i in counts
    ensures i in cached && i in live && i in files && cached[i] == InodeOf(i, live[i], files[i])
  {
  }

  lemma CacheHeld(live: map<nat, Extent>, cached: map<nat, File>, counts: map<nat, nat>, files: map<nat, Content>, num: nat)
    requires CacheOk(live, cached, counts, files) && num in files && num in live
    ensures var cached' := if num in counts then cached else cached[num := InodeOf(num, live[num], files[num])];
            num in cached' && CacheOk(live, cached', Held(counts, num), files)
  {
  }

  /** A first reference is counted 1, and nothing is left once it is dropped. */
  lemma HeldAlone(s: Store, num: nat)
    requires StoreOk(s) && num in s.files
    ensures if num in s.counts then Held(s.counts, num)[num] > 1
            else Held(s.counts, num)[num] == 1 && Held(s.counts, num) - {num} == s.counts
  {
  }

  lemma HeldIsOk(s: Store, num: nat)
    requires StoreOk(s) && num in s.files
    ensures StoreOk(s.(counts := Held(s.counts, num)))
  {
  }
}
