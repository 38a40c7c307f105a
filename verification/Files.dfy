/** Files on a volume: what a transfer to or from one of them leaves alone. */
module Files {
  import opened Bits
  import opened LittleEndian
  import opened Prelude
  import opened ReadWrite
  import opened SectorMap
  import opened Volume

  /** The descriptor's view of the live inode `i`. */
  predicate Opens(f: File, i: nat, e: Extent) {
    f.num == i && f.start == e.start && f.nr == e.nr
  }

  /** The record on disk is that of the cached inode. */
  ghost predicate Coherent(sb: SuperBlock, d: seq<bv8>, f: File) {
    && InArray(sb, f.num) && RecordAt(sb, f.num) + INODE_SIZE <= SECTOR_SIZE * sb.N1stSect() <= |d|
    && d[RecordAt(sb, f.num)..RecordAt(sb, f.num) + 16] == RecordBytes(f)
  }

  lemma ExtentsApart(sb: SuperBlock, live: map<nat, Extent>, i: nat, j: nat)
    requires InMap(sb, live) && Disjoint(sb, live) && i in live && j in live && i != j
    ensures sb.N1stSect() <= live[i].start
    ensures live[i].nr > 0 && live[j].nr > 0 ==>
              live[j].start + live[j].nr <= live[i].start || live[i].start + live[i].nr <= live[j].start
  {
    if live[i].nr > 0 && live[j].nr > 0 {
      var a, b := FirstBit(sb, live[i]), FirstBit(sb, live[j]);
      var x := if a < b then b else a;
      assert Covers(sb, live[i], x) ==> !Covers(sb, live[j], x);
    }
  }

  lemma BitsBelow(d: seq<bv8>, d': seq<bv8>, n: nat, x: nat)
    requires |d'| == |d| && n <= |d| && d'[..n] == d[..n] && x < 8 * n
    ensures BitAt(d', x) == BitAt(d, x)
  {
    hide Bit;
    assert d'[x / 8] == d'[..n][x / 8];
    assert d[x / 8] == d[..n][x / 8];
  }

  /** Equal sectors before the inode array mean equal bitmaps. */
  lemma MapsStay(sb: SuperBlock, f: nat, blocks: nat, d: seq<bv8>, d': seq<bv8>, live: map<nat, Extent>)
    requires Ok(sb, f, blocks, d, live) && sb.nrImapSects >= 1
    requires |d'| == |d| && SECTOR_SIZE * sb.N1stSect() <= |d|
    requires d'[..SECTOR_SIZE * (2 + sb.nrImapSects + sb.nrSmapSects)] == d[..SECTOR_SIZE * (2 + sb.nrImapSects + sb.nrSmapSects)]
    ensures Ok(sb, f, blocks, d', live)
  {
    forall x: nat | x < sb.SmapEnd()
      ensures BitAt(d', x) == BitAt(d, x)
    { BitsBelow(d, d', SECTOR_SIZE * (2 + sb.nrImapSects + sb.nrSmapSects), x); }
    hide BitAt, Bit, InMap, Disjoint, Gridded, Covers;
  }

  /** Everything before the data is as it was, but for the size in the record of `f`, which is that of `f'`. */
  ghost predicate OnlySizeWritten(sb: SuperBlock, d: seq<bv8>, d': seq<bv8>, f: File, f': File)
    requires InArray(sb, f.num)
  {
    var at, n := RecordAt(sb, f.num) + 4, SECTOR_SIZE * sb.N1stSect();
    && |d'| == |d| && at + 4 <= n <= |d|
    && d'[..at] == d[..at] && d'[at..at + 4] == Le32(f'.size % U32) && d'[at + 4..n] == d[at + 4..n]
    && Coherent(sb, d', f')
  }

  /** Data changed behind the metadata, then the record written: only the size has changed there. */
  lemma TransferWritesSize(sb: SuperBlock, d: seq<bv8>, m: seq<bv8>, f: File, f': File)
    requires Coherent(sb, d, f) && f' == f.(pos := f'.pos, size := Max(f.size, f'.pos))
    requires |m| == |d| && m[..SECTOR_SIZE * sb.N1stSect()] == d[..SECTOR_SIZE * sb.N1stSect()]
    ensures OnlySizeWritten(sb, d, Synced(m, sb, f, f'), f, f')
    ensures Synced(m, sb, f, f')[SECTOR_SIZE * sb.N1stSect()..] == m[SECTOR_SIZE * sb.N1stSect()..]
  {
    var at, n := RecordAt(sb, f.num), SECTOR_SIZE * sb.N1stSect();
    assert forall k :: 0 <= k < n ==> m[k] == m[..n][k] && d[k] == d[..n][k];
    assert m[at..at + 16] == d[at..at + 16];
    SyncChangesTheSize(m, sb, f, f');
    hide RecordBytes, RecordAt, Le32, Synced;
    var s := Synced(m, sb, f, f');
    assert s[..at + 4] == m[..at + 4] == d[..at + 4];
    assert s[at + 8..n] == m[at + 8..n] == d[at + 8..n];
  }

  /** The records of the other inodes lie beside it. */
  lemma OtherRecordsStay(sb: SuperBlock, d: seq<bv8>, d': seq<bv8>, f: File, f': File, n: nat)
    requires InArray(sb, f.num) && OnlySizeWritten(sb, d, d', f, f') && InArray(sb, n) && n != f.num
    ensures RecordAt(sb, n) + INODE_SIZE <= |d|
    ensures d'[RecordAt(sb, n)..RecordAt(sb, n) + INODE_SIZE] == d[RecordAt(sb, n)..RecordAt(sb, n) + INODE_SIZE]
  {
    RecordInArray(sb, n);
    RecordInArray(sb, f.num);
    hide RecordBytes, Le32, Coherent;
    var at, a, end := RecordAt(sb, f.num) + 4, RecordAt(sb, n), SECTOR_SIZE * sb.N1stSect();
    if n < f.num {
      assert a + INODE_SIZE <= at;
      assert forall k :: a <= k < a + INODE_SIZE ==> d'[k] == d'[..at][k] && d[k] == d[..at][k];
    } else {
      assert at + 4 <= a;
      assert forall k :: a <= k < a + INODE_SIZE ==> d'[k] == d'[at + 4..end][k - at - 4] && d[k] == d[at + 4..end][k - at - 4];
    }
  }

  /**
   A read, in range or not, leaves the disk as it was, but for the size of the file if it ends behind it.
   */
  lemma ReadSparesTheDisk(sb: SuperBlock, d: seq<bv8>, f: File, f': File)
    requires Coherent(sb, d, f) && f' == f.(pos := f'.pos, size := Max(f.size, f'.pos))
    ensures OnlySizeWritten(sb, d, Synced(d, sb, f, f'), f, f')
    ensures Synced(d, sb, f, f')[SECTOR_SIZE * sb.N1stSect()..] == d[SECTOR_SIZE * sb.N1stSect()..]
    ensures f'.pos <= f.size ==> Synced(d, sb, f, f') == d
  {
    TransferWritesSize(sb, d, d, f, f');
  }

  /**
   A write in range to one live file, on any volume whose extents lie on the device: it leaves the boot
   sector, the super block and both bitmaps as they were; in the inode array it writes the size of this
   inode, max(old size, new position), and nothing else; it changes no byte of any other live file, and
   this file at the written position only.
   */
  lemma WriteSparesTheRest(sb: SuperBlock, n: nat, blocks: nat, d: seq<bv8>, live: map<nat, Extent>,
                           i: nat, f: File, bytes: seq<bv8>, f': File)
    requires Ok(sb, n, blocks, d, live) && sb.nrImapSects >= 1 && OnDisk(|d|, live)
    requires i in live && Opens(f, i, live[i]) && Coherent(sb, d, f) && f.pos + |bytes| <= f.nr * SECTOR_SIZE
    requires f' == f.(pos := f.pos + |bytes|, size := Max(f.size, f.pos + |bytes|))
    ensures f.Address() + |bytes| <= |d|
    ensures var d' := Synced(Patched(d, f.Address(), bytes), sb, f, f');
            && OnlySizeWritten(sb, d, d', f, f') && Ok(sb, n, blocks, d', live)
            && Contents(d', f.start, f.nr) == Patched(Contents(d, f.start, f.nr), f.pos, bytes)
            && forall j :: j in live && j != i ==>
                 Contents(d', live[j].start, live[j].nr) == Contents(d, live[j].start, live[j].nr)
  {
    var m, end := Patched(d, f.Address(), bytes), SECTOR_SIZE * sb.N1stSect();
    PatchSparesOthers(sb, d, live, i, f, bytes);
    TransferWritesSize(sb, d, m, f, f');
    RecordInArray(sb, f.num);
    var d' := Synced(m, sb, f, f');
    hide Synced, Coherent, RecordBytes, Patched, Disjoint, SmapOk, ImapOk, Gridded, OnDisk;
    MapsUntouched(sb, d, d', f, f');
    MapsStay(sb, n, blocks, d, d', live);
    forall j | j in live
      ensures Contents(d', live[j].start, live[j].nr) == Contents(m, live[j].start, live[j].nr)
    {
      assert sb.N1stSect() <= live[j].start;
      SameData(m, d', end, live[j].start, live[j].nr);
    }
  }

  lemma MapsUntouched(sb: SuperBlock, d: seq<bv8>, d': seq<bv8>, f: File, f': File)
    requires InArray(sb, f.num) && OnlySizeWritten(sb, d, d', f, f')
    ensures var maps := SECTOR_SIZE * (2 + sb.nrImapSects + sb.nrSmapSects);
            maps <= SECTOR_SIZE * sb.N1stSect() && d'[..maps] == d[..maps]
  {
    hide Coherent, Le32;
    var maps, at := SECTOR_SIZE * (2 + sb.nrImapSects + sb.nrSmapSects), RecordAt(sb, f.num) + 4;
    assert forall k :: 0 <= k < maps ==> d'[k] == d'[..at][k] && d[k] == d[..at][k];
  }

  lemma PatchNothing(d: seq<bv8>, a: nat)
    requires a <= |d|
    ensures Patched(d, a, []) == d
  {
  }

  /** The data part of a write: everything before the data and all other live files stay. */
  lemma PatchSparesOthers(sb: SuperBlock, d: seq<bv8>, live: map<nat, Extent>, i: nat, f: File, bytes: seq<bv8>)
    requires InMap(sb, live) && Disjoint(sb, live) && OnDisk(|d|, live) && SECTOR_SIZE * sb.N1stSect() <= |d|
    requires i in live && Opens(f, i, live[i]) && f.pos + |bytes| <= f.nr * SECTOR_SIZE
    ensures sb.N1stSect() <= f.start && f.Address() + |bytes| <= |d|
    ensures var m := Patched(d, f.Address(), bytes);
            && |m| == |d| && m[..SECTOR_SIZE * sb.N1stSect()] == d[..SECTOR_SIZE * sb.N1stSect()]
            && Contents(m, f.start, f.nr) == Patched(Contents(d, f.start, f.nr), f.pos, bytes)
            && forall j :: j in live && j != i ==>
                 Contents(m, live[j].start, live[j].nr) == Contents(d, live[j].start, live[j].nr)
  {
    hide Disjoint, Patched;
    var m := Patched(d, f.Address(), bytes);
    assert sb.N1stSect() <= live[i].start;
    WriteIsLocal(d, f, bytes, 0, 0);
    PatchBeside(d, f.Address(), bytes, 0, SECTOR_SIZE * sb.N1stSect());
    forall j | j in live && j != i
      ensures Contents(m, live[j].start, live[j].nr) == Contents(d, live[j].start, live[j].nr)
    {
      ExtentsApart(sb, live, i, j);
      if bytes == [] {
        PatchNothing(d, f.Address());
      } else if live[j].nr > 0 {
        WriteIsLocal(d, f, bytes, live[j].start, live[j].nr);
      }
    }
  }

  lemma SameData(d: seq<bv8>, d': seq<bv8>, end: nat, start: nat, nr: nat)
    requires |d'| == |d| && end <= start * SECTOR_SIZE && (start + nr) * SECTOR_SIZE <= |d| && d'[end..] == d[end..]
    ensures Contents(d', start, nr) == Contents(d, start, nr)
  {
    var l, r := Contents(d', start, nr), Contents(d, start, nr);
    forall k | 0 <= k < |l|
      ensures l[k] == r[k]
    {
      var p := start * SECTOR_SIZE + k;
      assert d'[p] == d'[end..][p - end] && d[p] == d[end..][p - end];
    }
  }
}
