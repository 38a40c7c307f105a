/** Inode cache, descriptor table and the filp[] rows of the processes. */
module FileTables {
  import opened Prelude
  import opened Refs
  import R = ReadWrite

  const INODES_PER_SECTOR: nat := 16
  const ROOT_INODE: nat := 1

  /** What the inode array on disk keeps of an inode. */
  datatype Inode = Inode(mode: nat, size: nat, start: nat, nr: nat)

  /** A slot of inode_table[]. */
  datatype Slot = Slot(num: nat, cnt: nat, rec: Inode)

  function Counts(slots: seq<Slot>): (c: seq<nat>)
    ensures |c| == |slots| && forall s :: 0 <= s < |slots| ==> c[s] == slots[s].cnt
  {
    seq(|slots|, s requires 0 <= s < |slots| => slots[s].cnt)
  }

  predicate OnDisk(sects: seq<seq<Inode>>, num: nat) {
    1 <= num <= INODES_PER_SECTOR * |sects|
  }

  function Record(sects: seq<seq<Inode>>, num: nat): Inode
    requires OnDisk(sects, num) && |sects[(num - 1) / INODES_PER_SECTOR]| == INODES_PER_SECTOR
  {
    sects[(num - 1) / INODES_PER_SECTOR][(num - 1) % INODES_PER_SECTOR]
  }

  ghost predicate Formatted(sects: seq<seq<Inode>>) {
    forall k :: 0 <= k < |sects| ==> |sects[k]| == INODES_PER_SECTOR
  }

  /** At most one slot in use per inode, and only for inodes that exist. */
  ghost predicate Unambiguous(slots: seq<Slot>, known: set<nat>) {
    && (forall s :: 0 <= s < |slots| && slots[s].cnt > 0 ==> slots[s].num in known)
    && forall s, t :: 0 <= s < t < |slots| && slots[s].cnt > 0 && slots[t].cnt > 0 ==> slots[s].num != slots[t].num
  }

  /** Every slot in use holds the record on disk; the slot `dirty` is exempt. */
  ghost predicate CoherentBut(slots: seq<Slot>, sects: seq<seq<Inode>>, dirty: Option<nat>)
    requires Formatted(sects)
  {
    forall s :: 0 <= s < |slots| && slots[s].cnt > 0 ==>
      OnDisk(sects, slots[s].num) && (Some(s) == dirty || slots[s].rec == Record(sects, slots[s].num))
  }

  /** The inode number behind entry `f` of process `p`. */
  function FileAt(rows: seq<Row>, descs: seq<Desc>, slots: seq<Slot>, p: nat, f: nat): Option<nat>
    requires p < |rows| && f < |rows[p]|
  {
    match rows[p][f]
    case None => None
    case Some(d) =>
      if d < |descs| && descs[d].inode.Some? && descs[d].inode.value < |slots|
      then Some(slots[descs[d].inode.value].num) else None
  }

  /** Entries that were not touched stand for the same file as before. */
  ghost predicate SameFiles(rows: seq<Row>, descs: seq<Desc>, slots: seq<Slot>, rows': seq<Row>, descs': seq<Desc>, slots': seq<Slot>) {
    && |rows'| == |rows|
    && forall p, f :: 0 <= p < |rows| && 0 <= f < |rows[p]| && f < |rows'[p]| && rows'[p][f] == rows[p][f] ==>
         FileAt(rows', descs', slots', p, f) == FileAt(rows, descs, slots, p, f)
  }

  lemma FilesStay(rows: seq<Row>, descs: seq<Desc>, slots: seq<Slot>, extra: multiset<nat>,
                  rows': seq<Row>, descs': seq<Desc>, slots': seq<Slot>, extra': multiset<nat>)
    requires Accounts(Total(rows), descs, Counts(slots), extra)
    requires Accounts(Total(rows'), descs', Counts(slots'), extra')
    requires |rows'| == |rows| && |descs'| == |descs| && |slots'| == |slots|
    requires forall d :: 0 <= d < |descs| && descs[d].cnt > 0 && descs'[d].cnt > 0 ==> descs'[d].inode == descs[d].inode
    requires forall s :: 0 <= s < |slots| && slots[s].cnt > 0 && slots'[s].cnt > 0 ==> slots'[s].num == slots[s].num
    ensures SameFiles(rows, descs, slots, rows', descs', slots')
  {
    FreeMeansUnnamed(rows, descs, Counts(slots), extra);
    FreeMeansUnnamed(rows', descs', Counts(slots'), extra');
    hide Accounts, Total;
  }

  lemma StoreKeepsCache(slots: seq<Slot>, sects: seq<seq<Inode>>, sects': seq<seq<Inode>>, known: set<nat>, s: nat, rec: Inode)
    requires s < |slots| && slots[s].cnt > 0 && Formatted(sects) && Formatted(sects') && |sects'| == |sects|
    requires Unambiguous(slots, known) && CoherentBut(slots, sects, None) && OnDisk(sects, slots[s].num)
    requires Record(sects', slots[s].num) == rec
    requires forall n :: OnDisk(sects, n) && n != slots[s].num ==> Record(sects', n) == Record(sects, n)
    ensures var slots' := slots[s := slots[s].(rec := rec)];
            Unambiguous(slots', known) && CoherentBut(slots', sects', None) && Counts(slots') == Counts(slots)
  {
  }

  lemma LoadKeepsCache(slots: seq<Slot>, sects: seq<seq<Inode>>, known: set<nat>, s: nat, num: nat)
    requires s < |slots| && Formatted(sects) && num in known && OnDisk(sects, num)
    requires Unambiguous(slots, known) && CoherentBut(slots, sects, None)
    requires slots[s].cnt > 0 ==> slots[s].num == num
    requires slots[s].cnt == 0 ==> forall t :: 0 <= t < |slots| && slots[t].cnt > 0 ==> slots[t].num != num
    ensures var slots' := slots[s := Slot(num, slots[s].cnt + 1, Record(sects, num))];
            && Unambiguous(slots', known) && CoherentBut(slots', sects, None)
            && Counts(slots') == Counts(slots)[s := slots[s].cnt + 1]
  {
  }

  /** A slot whose file reaches at least to `pos`. */
  function Grown(v: Slot, pos: nat): Slot {
    v.(rec := v.rec.(size := R.Max(v.rec.size, pos)))
  }

  /** No other record of the inode array differs. */
  ghost predicate OthersKept(sects: seq<seq<Inode>>, sects': seq<seq<Inode>>, num: nat) {
    && Formatted(sects) && Formatted(sects') && |sects'| == |sects|
    && forall n :: OnDisk(sects, n) && n != num ==> Record(sects', n) == Record(sects, n)
  }

  /** The record of `num` is `rec` now, and no other record differs. */
  ghost predicate Recorded(sects: seq<seq<Inode>>, sects': seq<seq<Inode>>, num: nat, rec: Inode) {
    OthersKept(sects, sects', num) && OnDisk(sects', num) && Record(sects', num) == rec
  }

  /** The file `num` is truncated, or not, and no other record differs. */
  ghost predicate TruncatedIf(trunc: bool, sects: seq<seq<Inode>>, sects': seq<seq<Inode>>, num: nat) {
    && Formatted(sects) && OnDisk(sects, num)
    && Recorded(sects, sects', num, if trunc then Record(sects, num).(size := 0) else Record(sects, num))
  }

  datatype UnlinkResult = Removed | Refused | Panicked

  /** The flags of open(); `others` stands for any further bit. */
  datatype Flags = Flags(creat: bool, rdwr: bool, trunc: bool, others: bool)

  datatype OpenResult = Opened(fd: nat) | OpenRefused | OpenPanicked

  class FileTables {
    const slots: array<Slot>              // inode_table
    const descs: array<Desc>              // f_desc_table
    const filp: array<Row>                // filp[] of every process
    const sects: array<seq<Inode>>        // the inode array on disk, sector by sector
    var fsbuf: seq<Inode>
    var root: nat                         // root_inode
    ghost var extra: multiset<nat>        // references from elsewhere: the root, and those never returned
    ghost var known: set<nat>             // the inodes that exist

    ghost predicate Consistent(dirty: Option<nat>)
      reads this, slots, descs, filp, sects
    {
      && Formatted(sects[..])
      && (forall i :: i in known ==> OnDisk(sects[..], i))
      && Unambiguous(slots[..], known) && CoherentBut(slots[..], sects[..], dirty)
      && Accounts(Total(filp[..]), descs[..], Counts(slots[..]), extra)
    }

    ghost predicate Valid()
      reads this, slots, descs, filp, sects
    {
      Consistent(None) && root in extra && root < slots.Length && slots[root].num == ROOT_INODE
    }

    /** init_fs(): the tables are empty. */
    constructor (nrInodes: nat, nrDescs: nat, nrProcs: nat, nrFiles: nat, disk: seq<seq<Inode>>, ghost existing: set<nat>)
      requires Formatted(disk) && forall i :: i in existing ==> OnDisk(disk, i)
      ensures Consistent(None) && extra == multiset{} && known == existing && sects[..] == disk
      ensures slots.Length == nrInodes && descs.Length == nrDescs && filp.Length == nrProcs
      ensures (forall s :: 0 <= s < nrInodes ==> slots[s].cnt == 0) && forall d :: 0 <= d < nrDescs ==> descs[d].inode.None?
      ensures forall p :: 0 <= p < nrProcs ==> filp[p] == seq(nrFiles, _ => None)
      ensures fresh(slots) && fresh(descs) && fresh(filp) && fresh(sects)
    {
      slots := new Slot[nrInodes](_ => Slot(0, 0, Inode(0, 0, 0, 0)));
      descs := new Desc[nrDescs](_ => Desc(0, 0, 0, None));
      filp := new Row[nrProcs](_ => seq(nrFiles, _ => None));
      sects := new seq<Inode>[|disk|](k requires 0 <= k < |disk| => disk[k]);
      fsbuf, root, extra, known := [], 0, multiset{}, existing;
      new;
      hide Accounts, Total, Reach;
      NothingOpen(filp[..], descs[..], Counts(slots[..]));
      assert sects[..] == disk;
    }

    /** The last line of init_fs(): the root inode is fetched for good. */
    method FetchRoot()
      requires Consistent(None) && extra == multiset{} && ROOT_INODE in known
      requires exists s :: 0 <= s < slots.Length && slots[s].cnt == 0
      modifies slots, `fsbuf, `extra, `root
      ensures Valid() && extra == multiset{root}
      ensures forall s :: 0 <= s < slots.Length && s != root ==> slots[s] == old(slots[s])
    {
      hide Accounts, Total, Unambiguous, CoherentBut, Formatted;
      var r := GetInode(ROOT_INODE);
      root := r.value;
    }

    method ReadSector(k: nat)
      requires k < sects.Length
      modifies `fsbuf
      ensures fsbuf == sects[k]
    {
      fsbuf := sects[k];
    }

    /** put_inode(); false is the failed assertion `i_cnt > 0`. */
    method PutInode(s: nat) returns (ok: bool)
      requires s < slots.Length
      modifies slots
      ensures ok <==> old(slots[s].cnt) > 0
      ensures slots[..] == if ok then old(slots[..])[s := old(slots[s]).(cnt := old(slots[s].cnt) - 1)] else old(slots[..])
    {
      if slots[s].cnt <= 0 { return false; }
      slots[s] := slots[s].(cnt := slots[s].cnt - 1);
      ok := true;
    }

    /** sync_inode(): read the sector, replace one record, write the sector. */
    method SyncInode(s: nat)
      requires s < slots.Length && Formatted(sects[..]) && OnDisk(sects[..], slots[s].num)
      modifies sects, `fsbuf
      ensures Formatted(sects[..])
      ensures Record(sects[..], slots[s].num) == slots[s].rec
      ensures forall n :: OnDisk(sects[..], n) && n != slots[s].num ==> Record(sects[..], n) == old(Record(sects[..], n))
    {
      var k, i := (slots[s].num - 1) / INODES_PER_SECTOR, (slots[s].num - 1) % INODES_PER_SECTOR;
      ReadSector(k);
      fsbuf := fsbuf[i := slots[s].rec];
      sects[k] := fsbuf;
    }

    /** Assign the record of a slot in use and write it through. */
    method Store(s: nat, rec: Inode)
      requires Consistent(None) && s < slots.Length && slots[s].cnt > 0
      modifies slots, sects, `fsbuf
      ensures Consistent(None)
      ensures slots[..] == old(slots[..])[s := old(slots[s]).(rec := rec)]
      ensures Record(sects[..], slots[s].num) == rec
      ensures forall n :: OnDisk(sects[..], n) && n != slots[s].num ==> Record(sects[..], n) == old(Record(sects[..], n))
    {
      hide Reach, Total, Accounts;
      ghost var before, disk := slots[..], sects[..];
      slots[s] := slots[s].(rec := rec);
      SyncInode(s);
      StoreKeepsCache(before, disk, sects[..], known, s, rec);
      assert slots[..] == before[s := before[s].(rec := rec)];
    }

    /** The search loop of get_inode(): the slot that caches `num`, or else the first free slot. */
    method FindSlot(num: nat) returns (hit: Option<nat>, free: Option<nat>)
      ensures hit.Some? ==> hit.value < slots.Length && slots[hit.value].cnt > 0 && slots[hit.value].num == num
      ensures hit.None? ==> forall t :: 0 <= t < slots.Length && slots[t].cnt > 0 ==> slots[t].num != num
      ensures hit.None? && free.None? ==> forall t :: 0 <= t < slots.Length ==> slots[t].cnt > 0
      ensures free.Some? ==> free.value < slots.Length && slots[free.value].cnt == 0
                             && forall t :: 0 <= t < free.value ==> slots[t].cnt > 0
    {
      hit, free := None, None;
      var s := 0;
      while s < slots.Length
        invariant s <= slots.Length
        invariant forall t :: 0 <= t < s && slots[t].cnt > 0 ==> slots[t].num != num
        invariant free.None? ==> forall t :: 0 <= t < s ==> slots[t].cnt > 0
        invariant free.Some? ==> free.value < s && slots[free.value].cnt == 0
                                 && forall t :: 0 <= t < free.value ==> slots[t].cnt > 0
      {
        if slots[s].cnt != 0 {
          if slots[s].num == num { return Some(s), free; }
        } else if free.None? {
          free := Some(s);
        }
        s := s + 1;
      }
    }

    /**
     get_inode() for a number other than 0: the one slot in use for it, counted once more, or a free
     slot loaded from disk. None is the panic "the inode table is full".
     */
    method GetInode(num: nat) returns (r: Option<nat>)
      requires Consistent(None) && num in known
      modifies slots, `fsbuf, `extra
      ensures r.None? ==> slots[..] == old(slots[..]) && extra == old(extra)
                          && forall s :: 0 <= s < slots.Length ==> slots[s].cnt > 0 && slots[s].num != num
      ensures r.Some? ==>
                && r.value < slots.Length && Consistent(None) && extra == old(extra) + multiset{r.value}
                && slots[..] == old(slots[..])[r.value := Slot(num, old(slots[r.value].cnt) + 1, Record(sects[..], num))]
                && (old(slots[r.value].cnt) > 0 ==> old(slots[r.value].num) == num)
                && (old(slots[r.value].cnt) == 0 ==>
                      forall s :: 0 <= s < slots.Length && old(slots[s].cnt) > 0 ==> old(slots[s].num) != num)
    {
      hide Reach, Total, Accounts;
      var s, v := ChooseSlot(num);
      if s.None? { return None; }
      r := s;
      LoadKeepsCache(slots[..], sects[..], known, s.value, num);
      AddExtra(Total(filp[..]), descs[..], Counts(slots[..]), extra, s.value);
      hide Unambiguous, CoherentBut, Counts;
      ghost var before := slots[..];
      slots[s.value] := v;
      assert slots[..] == before[s.value := v];
      extra := extra + multiset{s.value};
    }

    /** The slot that get_inode() will return, and what it will hold. */
    method ChooseSlot(num: nat) returns (s: Option<nat>, v: Slot)
      requires Formatted(sects[..]) && OnDisk(sects[..], num) && CoherentBut(slots[..], sects[..], None)
      modifies `fsbuf
      ensures s.None? ==> forall t :: 0 <= t < slots.Length ==> slots[t].cnt > 0 && slots[t].num != num
      ensures s.Some? ==>
                && s.value < slots.Length && v == Slot(num, slots[s.value].cnt + 1, Record(sects[..], num))
                && if slots[s.value].cnt > 0 then slots[s.value].num == num
                   else forall t :: 0 <= t < slots.Length && slots[t].cnt > 0 ==> slots[t].num != num
    {
      var hit, free := FindSlot(num);
      v := Slot(0, 0, Inode(0, 0, 0, 0));
      if hit.Some? {
        s := hit;
        v := slots[s.value].(cnt := slots[s.value].cnt + 1);
      } else if free.Some? {
        s := free;
        ReadSector((num - 1) / INODES_PER_SECTOR);
        v := Slot(num, 1, fsbuf[(num - 1) % INODES_PER_SECTOR]);
      } else {
        s := None;
      }
    }

    // -------------------------------------------------------------- open, close, fork, exit, unlink

    /** First free entry of filp[]; None is the panic "filp[] is full". */
    static method FreeEntry(row: Row) returns (fd: Option<nat>)
      ensures fd.None? <==> None !in row
      ensures fd.Some? ==> fd.value < |row| && row[fd.value].None? && forall i :: 0 <= i < fd.value ==> row[i].Some?
    {
      for i := 0 to |row|
        invariant forall j :: 0 <= j < i ==> row[j].Some?
      {
        if row[i].None? { return Some(i); }
      }
      fd := None;
    }

    /** First free descriptor; None is the panic "f_desc_table[] is full". */
    method FreeDesc() returns (d: Option<nat>)
      ensures d.None? <==> forall i :: 0 <= i < descs.Length ==> descs[i].inode.Some?
      ensures d.Some? ==> d.value < descs.Length && descs[d.value].inode.None?
    {
      for i := 0 to descs.Length
        invariant forall j :: 0 <= j < i ==> descs[j].inode.Some?
      {
        if descs[i].inode.None? { return Some(i); }
      }
      d := None;
    }

    /** The end of do_open(): process entry, descriptor and inode are connected. */
    method Install(p: nat, fd: nat, d: nat, s: nat, mode: int)
      requires Consistent(None) && p < filp.Length && fd < |filp[p]| && filp[p][fd].None?
      requires d < descs.Length && descs[d].inode.None? && s in extra && s < slots.Length
      modifies filp, descs, `extra
      ensures Consistent(None) && extra == old(extra) - multiset{s}
      ensures filp[..] == old(filp[..])[p := old(filp[p])[fd := Some(d)]]
      ensures descs[..] == old(descs[..])[d := Desc(mode, 0, 1, Some(s))]
      ensures FileAt(filp[..], descs[..], slots[..], p, fd) == Some(slots[s].num)
      ensures SameFiles(old(filp[..]), old(descs[..]), slots[..], filp[..], descs[..], slots[..])
    {
      hide Reach, Accounts, Unambiguous, CoherentBut, FileAt, SameFiles, Total;
      ghost var rows, ds, cnts := filp[..], descs[..], Counts(slots[..]);
      var v := Desc(mode, 0, 1, Some(s));
      Connect(Total(rows), ds, cnts, extra, d, v, s);
      AccountsAfterEntry(rows, p, fd, Some(d), ds[d := v], cnts, extra - multiset{s});
      filp[p] := filp[p][fd := Some(d)];
      descs[d] := v;
      ghost var extra0 := extra;
      extra := extra - multiset{s};
      assert filp[..] == rows[p := rows[p][fd := Some(d)]] && descs[..] == ds[d := v];
      FreeDescCount(Total(rows), ds, cnts, extra0, d);
      FilesStay(rows, ds, slots[..], extra0, filp[..], descs[..], slots[..], extra);
      InstalledFile(filp[..], descs[..], slots[..], p, fd, d, s);
    }

    /**
     do_open() of an existing file with O_RDWR, and O_TRUNC if `trunc`. None is one of the panics: no
     free entry, no free descriptor, no free inode slot.
     */
    method Open(p: nat, num: nat, trunc: bool, mode: int) returns (r: Option<nat>)
      requires Valid() && num in known && p < filp.Length
      modifies filp, descs, slots, sects, `fsbuf, `extra
      ensures r.Some? ==> OpenedAs(old(filp[..]), old(descs[..]), old(slots[..]), old(extra), p, num, r.value, mode)
      ensures r.Some? ==> TruncatedIf(trunc, old(sects[..]), sects[..], num)
      ensures r.None? <==>
                || None !in old(filp[p]) || (forall i :: 0 <= i < descs.Length ==> old(descs[i]).inode.Some?)
                || forall s :: 0 <= s < slots.Length ==> old(slots[s]).cnt > 0 && old(slots[s]).num != num
    {
      hide Consistent, FileAt, SameFiles, Accounts, Counts;
      ghost var rows, ds, slots0 := filp[..], descs[..], slots[..];
      var fd := FreeEntry(filp[p]);
      if fd.None? { return None; }
      var d := FreeDesc();
      if d.None? { return None; }
      var s := Acquire(num, trunc);
      if s.None? { return None; }
      ghost var slots1 := slots[..];
      Install(p, fd.value, d.value, s.value, mode);
      SameFilesTransitive(rows, ds, slots0, rows, ds, slots1, filp[..], descs[..], slots[..]);
      r := fd;
    }

    /**
     do_open(), once the path has been searched: `found` says whether it names the inode `num`; if not,
     `num` is the number and [start, start + nr) the extent that create_file() takes. It panics if a
     table is full or a flag combination fails an assertion, and refuses an existing file without
     O_RDWR or with O_CREAT and no O_TRUNC, and a missing one without O_CREAT.
     */
    method DoOpen(p: nat, found: bool, num: nat, flags: Flags, start: nat, nr: nat, mode: int) returns (r: OpenResult)
      requires Valid() && p < filp.Length && (if found then num in known else num !in known && OnDisk(sects[..], num))
      modifies filp, descs, slots, sects, `fsbuf, `extra, `known
      ensures r.OpenPanicked? <==>
                || None !in old(filp[p]) || (forall i :: 0 <= i < descs.Length ==> old(descs[i]).inode.Some?)
                || (found && flags.rdwr && flags.others)
                || ((if found then flags.rdwr && (flags.creat ==> flags.trunc) else flags.creat)
                    && forall s :: 0 <= s < slots.Length ==> old(slots[s]).cnt > 0 && old(slots[s]).num != num)
      ensures r.OpenRefused? ==> if found then !flags.rdwr || (flags.creat && !flags.trunc) else !flags.creat
      ensures r.OpenRefused? ==> Valid() && unchanged(this, filp, descs, slots, sects)
      ensures r.Opened? ==>
                && OpenedAs(old(filp[..]), old(descs[..]), old(slots[..]), old(extra), p, num, r.fd, mode)
                && known == old(known) + {num}
                && if found then TruncatedIf(flags.trunc, old(sects[..]), sects[..], num)
                   else Recorded(old(sects[..]), sects[..], num, Inode(R.I_REGULAR, 0, start, nr))
    {
      hide Consistent, FileAt, SameFiles, Accounts, Counts, OpenedAs, TruncatedIf, Recorded;
      var fd := FreeEntry(filp[p]);
      if fd.None? { return OpenPanicked; }
      var d := FreeDesc();
      if d.None? { return OpenPanicked; }
      if found {
        r := OpenFound(p, num, flags, mode);
      } else {
        r := OpenMissing(p, num, flags, start, nr, mode);
      }
    }

    /** The part of do_open() for a file that exists. */
    method OpenFound(p: nat, num: nat, flags: Flags, mode: int) returns (r: OpenResult)
      requires Valid() && p < filp.Length && num in known
      requires None in filp[p] && exists i :: 0 <= i < descs.Length && descs[i].inode.None?
      modifies filp, descs, slots, sects, `fsbuf, `extra
      ensures r.OpenPanicked? <==>
                && flags.rdwr
                && (flags.others || ((flags.creat ==> flags.trunc)
                      && forall s :: 0 <= s < slots.Length ==> old(slots[s]).cnt > 0 && old(slots[s]).num != num))
      ensures r.OpenRefused? ==> (!flags.rdwr || (flags.creat && !flags.trunc)) && Valid() && unchanged(this, filp, descs, slots, sects)
      ensures r.Opened? ==>
                && OpenedAs(old(filp[..]), old(descs[..]), old(slots[..]), old(extra), p, num, r.fd, mode)
                && TruncatedIf(flags.trunc, old(sects[..]), sects[..], num)
    {
      hide Consistent, FileAt, SameFiles, Accounts, Counts, OpenedAs, TruncatedIf, Recorded;
      if !flags.rdwr { return OpenRefused; }
      if flags.creat && !flags.trunc { return if flags.others then OpenPanicked else OpenRefused; }
      if flags.others { return OpenPanicked; }
      var s := Open(p, num, flags.trunc, mode);
      r := if s.None? then OpenPanicked else Opened(s.value);
    }

    /** The part of do_open() for a file that does not exist. */
    method OpenMissing(p: nat, num: nat, flags: Flags, start: nat, nr: nat, mode: int) returns (r: OpenResult)
      requires Valid() && p < filp.Length && num !in known && OnDisk(sects[..], num)
      requires None in filp[p] && exists i :: 0 <= i < descs.Length && descs[i].inode.None?
      modifies filp, descs, slots, sects, `fsbuf, `extra, `known
      ensures r.OpenPanicked? <==>
                flags.creat && forall s :: 0 <= s < slots.Length ==> old(slots[s]).cnt > 0 && old(slots[s]).num != num
      ensures r.OpenRefused? ==> !flags.creat && Valid() && unchanged(this, filp, descs, slots, sects)
      ensures r.Opened? ==>
                && OpenedAs(old(filp[..]), old(descs[..]), old(slots[..]), old(extra), p, num, r.fd, mode)
                && known == old(known) + {num} && Recorded(old(sects[..]), sects[..], num, Inode(R.I_REGULAR, 0, start, nr))
    {
      assert forall s :: 0 <= s < slots.Length && slots[s].cnt > 0 ==> slots[s].num != num;
      hide Consistent, FileAt, SameFiles, Accounts, Counts, OpenedAs, TruncatedIf, Recorded;
      if !flags.creat { return OpenRefused; }
      var s := Create(p, num, start, nr, mode);
      r := if s.None? then OpenPanicked else Opened(s.value);
    }

    /** get_inode(), and the truncation if asked for. */
    method Acquire(num: nat, trunc: bool) returns (r: Option<nat>)
      requires Valid() && num in known
      modifies slots, sects, `fsbuf, `extra
      ensures r.None? <==> forall s :: 0 <= s < slots.Length ==> old(slots[s]).cnt > 0 && old(slots[s]).num != num
      ensures r.Some? ==>
                && Consistent(None) && r.value < slots.Length && slots[r.value].num == num && root < slots.Length
                && extra == old(extra) + multiset{r.value} && slots[root].num == ROOT_INODE
                && TruncatedIf(trunc, old(sects[..]), sects[..], num)
                && SameFiles(filp[..], descs[..], old(slots[..]), filp[..], descs[..], slots[..])
    {
      hide Accounts, Unambiguous, CoherentBut, SameFiles, Counts;
      ghost var slots0, extra0 := slots[..], extra;
      ExtraInUse(Total(filp[..]), descs[..], Counts(slots[..]), extra, root);
      assert slots[root].cnt > 0;
      r := GetInode(num);
      if r.None? { return; }
      if trunc { Store(r.value, slots[r.value].rec.(size := 0)); }
      SlotsGrow(filp[..], descs[..], slots0, extra0, slots[..], extra);
    }

    /** do_open() with O_CREAT of a new file: new_inode() fills a fresh slot and writes it through. */
    method Create(p: nat, num: nat, start: nat, nr: nat, mode: int) returns (r: Option<nat>)
      requires Valid() && num !in known && OnDisk(sects[..], num) && p < filp.Length
      modifies filp, descs, slots, sects, `fsbuf, `extra, `known
      ensures r.Some? ==> OpenedAs(old(filp[..]), old(descs[..]), old(slots[..]), old(extra), p, num, r.value, mode)
      ensures r.Some? ==> known == old(known) + {num} && Recorded(old(sects[..]), sects[..], num, Inode(R.I_REGULAR, 0, start, nr))
      ensures r.None? <==>
                || None !in old(filp[p]) || (forall i :: 0 <= i < descs.Length ==> old(descs[i]).inode.Some?)
                || forall s :: 0 <= s < slots.Length ==> old(slots[s]).cnt > 0
    {
      hide Consistent, FileAt, SameFiles, Accounts, Counts;
      ghost var rows, ds, slots0 := filp[..], descs[..], slots[..];
      var fd := FreeEntry(filp[p]);
      if fd.None? { return None; }
      var d := FreeDesc();
      if d.None? { return None; }
      var s := NewInode(num, start, nr);
      if s.None? { return None; }
      ghost var slots1 := slots[..];
      Install(p, fd.value, d.value, s.value, mode);
      SameFilesTransitive(rows, ds, slots0, rows, ds, slots1, filp[..], descs[..], slots[..]);
      r := fd;
    }

    /** new_inode(). Its assignment `i_cnt = 1` changes nothing: no other slot caches a new number. */
    method NewInode(num: nat, start: nat, nr: nat) returns (r: Option<nat>)
      requires Valid() && num !in known && OnDisk(sects[..], num)
      modifies slots, sects, `fsbuf, `extra, `known
      ensures r.None? <==> forall s :: 0 <= s < slots.Length ==> old(slots[s]).cnt > 0
      ensures r.Some? ==>
                && Recorded(old(sects[..]), sects[..], num, Inode(R.I_REGULAR, 0, start, nr))
                && Consistent(None) && r.value < slots.Length && slots[r.value].num == num && root < slots.Length
                && extra == old(extra) + multiset{r.value} && slots[root].num == ROOT_INODE
                && slots[r.value].cnt == 1 && known == old(known) + {num}
                && SameFiles(filp[..], descs[..], old(slots[..]), filp[..], descs[..], slots[..])
    {
      hide Accounts, CoherentBut, SameFiles, Counts;
      ghost var slots0, extra0 := slots[..], extra;
      ExtraInUse(Total(filp[..]), descs[..], Counts(slots[..]), extra, root);
      assert slots[root].cnt > 0;
      known := known + {num};
      r := GetInode(num);
      if r.None? { return; }
      assert slots0[r.value].cnt == 0;
      Store(r.value, Inode(R.I_REGULAR, 0, start, nr));
      SlotsGrow(filp[..], descs[..], slots0, extra0, slots[..], extra);
    }

    /** do_lseek(): the position moves if the target lies within the file. */
    method Lseek(p: nat, fd: nat, off: int, whence: R.Whence) returns (r: Option<nat>)
      requires Valid() && p < filp.Length && fd < |filp[p]| && filp[p][fd].Some?
      modifies descs
      ensures Valid()
      ensures var d := filp[p][fd].value;
              && d < descs.Length && old(descs[d]).inode.Some? && old(descs[d]).inode.value < slots.Length
              && r == R.Seek(old(descs[d]).pos, slots[old(descs[d]).inode.value].rec.size, off, whence)
              && descs[..] == if r.None? then old(descs[..]) else old(descs[..])[d := old(descs[d]).(pos := r.value)]
    {
      EntryNames(filp[..], descs[..], Counts(slots[..]), extra, p, fd);
      var d := filp[p][fd].value;
      r := R.Seek(descs[d].pos, slots[descs[d].inode.value].rec.size, off, whence);
      if r.Some? { SetPosition(d, r.value); }
    }

    /** The position belongs to no book. */
    method SetPosition(d: nat, pos: nat)
      requires Valid() && d < descs.Length
      modifies descs
      ensures Valid() && descs[..] == old(descs[..])[d := old(descs[d]).(pos := pos)]
      ensures SameFiles(filp[..], old(descs[..]), slots[..], filp[..], descs[..], slots[..])
    {
      ghost var ds := descs[..];
      PositionIsFree(Total(filp[..]), ds, Counts(slots[..]), extra, d, pos);
      hide Accounts, Unambiguous, CoherentBut, Total, Counts, FileAt, SameFiles;
      descs[d] := descs[d].(pos := pos);
      assert descs[..] == ds[d := ds[d].(pos := pos)];
      SizesAreNotFiles(filp[..], ds, slots[..], descs[..], slots[..]);
    }

    /**
     The end of do_rdwt(), after `moved` bytes: the position goes on, and a file that it has passed gets
     the position as its size, in the cache and on disk. `d` and `s` are descriptor and slot of the entry.
     */
    method Transferred(p: nat, fd: nat, moved: nat) returns (d: nat, s: nat)
      requires Valid() && p < filp.Length && fd < |filp[p]| && filp[p][fd].Some?
      modifies descs, slots, sects, `fsbuf
      ensures Valid() && d < descs.Length && s < slots.Length && filp[p][fd] == Some(d) && old(descs[d]).inode == Some(s)
      ensures descs[..] == old(descs[..])[d := old(descs[d]).(pos := old(descs[d]).pos + moved)]
      ensures slots[..] == old(slots[..])[s := Grown(old(slots[s]), old(descs[d]).pos + moved)]
      ensures var size, pos := old(slots[s]).rec.size, old(descs[d]).pos + moved;
              slots[s].rec == old(slots[s]).rec.(size := if pos > size then pos else size) && slots[s].num == old(slots[s]).num
      ensures Recorded(old(sects[..]), sects[..], slots[s].num, slots[s].rec)
      ensures SameFiles(filp[..], old(descs[..]), old(slots[..]), filp[..], descs[..], slots[..])
    {
      hide Consistent, Recorded, SameFiles, FileAt, Total, Accounts, Counts;
      ghost var ds, sl := descs[..], slots[..];
      d, s := Reached(p, fd);
      var pos := descs[d].pos + moved;
      SetPosition(d, pos);
      Grow(s, pos);
      assert slots[..] == sl[s := Grown(sl[s], pos)];
      assert descs[..] == ds[d := ds[d].(pos := pos)];
      hide Grown;
      GrowthKeepsFiles(filp[..], ds, sl, d, s, pos);
    }

    /** Descriptor and slot of an open entry are in use. */
    method Reached(p: nat, fd: nat) returns (d: nat, s: nat)
      requires Valid() && p < filp.Length && fd < |filp[p]| && filp[p][fd].Some?
      ensures d < descs.Length && s < slots.Length && filp[p][fd] == Some(d) && descs[d].inode == Some(s)
      ensures slots[s].cnt > 0
    {
      EntryNames(filp[..], descs[..], Counts(slots[..]), extra, p, fd);
      d := filp[p][fd].value;
      RefInUse(Total(filp[..]), descs[..], Counts(slots[..]), extra, d);
      s := descs[d].inode.value;
    }

    /** The size follows the position, and the record is written when it does. */
    method Grow(s: nat, pos: nat)
      requires Valid() && s < slots.Length && slots[s].cnt > 0
      modifies slots, sects, `fsbuf
      ensures Valid() && slots[..] == old(slots[..])[s := Grown(old(slots[s]), pos)]
      ensures Recorded(old(sects[..]), sects[..], slots[s].num, slots[s].rec)
    {
      assert slots[s].rec == Record(sects[..], slots[s].num);
      hide Accounts, Unambiguous, CoherentBut, Total, Counts;
      if pos > slots[s].rec.size {
        Store(s, slots[s].rec.(size := pos));
      } else {
        assert slots[..] == slots[..][s := Grown(slots[s], pos)];
      }
    }

    /** One entry is given up: `i_cnt` and `fd_cnt` go down, and the last user frees the descriptor. */
    method Release(p: nat, f: nat)
      requires Consistent(None) && p < filp.Length && f < |filp[p]| && filp[p][f].Some?
      modifies filp, descs, slots
      ensures Consistent(None)
      ensures filp[..] == old(filp[..])[p := old(filp[p])[f := None]]
      ensures forall e :: 0 <= e < descs.Length ==> descs[e] == old(descs[e]).(cnt := descs[e].cnt, inode := descs[e].inode)
      ensures forall s :: 0 <= s < slots.Length ==> slots[s] == old(slots[s]).(cnt := slots[s].cnt)
      ensures SameFiles(old(filp[..]), old(descs[..]), old(slots[..]), filp[..], descs[..], slots[..])
    {
      hide Reach, Accounts, FileAt, SameFiles, Total, Counts, CoherentBut, Unambiguous;
      ghost var rows, ds, sl := filp[..], descs[..], slots[..];
      var d := filp[p][f].value;
      EntryNames(rows, ds, Counts(sl), extra, p, f);
      var v := descs[d].(cnt := descs[d].cnt - 1);
      if v.cnt == 0 { v := v.(inode := None); }
      DropRef(Total(rows), ds, Counts(sl), extra, d, v);
      var s := descs[d].inode.value;
      assert slots[s].cnt > 0;
      slots[s] := slots[s].(cnt := slots[s].cnt - 1);
      descs[d] := v;
      filp[p] := filp[p][f := None];
      assert slots[..] == sl[s := sl[s].(cnt := sl[s].cnt - 1)] && descs[..] == ds[d := v];
      assert filp[..] == rows[p := rows[p][f := None]];
      CountsDown(sl, s, sects[..], known);
      AccountsAfterDrop(rows, p, f, descs[..], Counts(slots[..]), extra);
      FilesStay(rows, ds, sl, extra, filp[..], descs[..], slots[..], extra);
    }

    /** do_close(). The assertion of put_inode() holds. */
    method Close(p: nat, fd: nat)
      requires Valid() && p < filp.Length && fd < |filp[p]| && filp[p][fd].Some?
      modifies filp, descs, slots
      ensures Valid() && extra == old(extra)
      ensures filp[..] == old(filp[..])[p := old(filp[p])[fd := None]]
      ensures forall e :: 0 <= e < descs.Length ==> descs[e] == old(descs[e]).(cnt := descs[e].cnt, inode := descs[e].inode)
      ensures SameFiles(old(filp[..]), old(descs[..]), old(slots[..]), filp[..], descs[..], slots[..])
    {
      hide Consistent, SameFiles;
      Release(p, fd);
    }

    /** fs_exit(): every open entry of the process is given up. */
    method Exit(p: nat)
      requires Valid() && p < filp.Length
      modifies filp, descs, slots
      ensures Valid() && extra == old(extra)
      ensures |filp[p]| == |old(filp[p])| && forall f :: 0 <= f < |filp[p]| ==> filp[p][f].None?
      ensures forall q :: 0 <= q < filp.Length && q != p ==> filp[q] == old(filp[q])
      ensures forall e :: 0 <= e < descs.Length ==> descs[e] == old(descs[e]).(cnt := descs[e].cnt, inode := descs[e].inode)
      ensures SameFiles(old(filp[..]), old(descs[..]), old(slots[..]), filp[..], descs[..], slots[..])
    {
      hide Consistent, SameFiles, FileAt;
      ghost var rows, ds, sl := filp[..], descs[..], slots[..];
      SameFilesReflexive(rows, ds, sl);
      for f := 0 to |filp[p]|
        invariant Valid() && |filp[p]| == |rows[p]|
        invariant forall g :: 0 <= g < |rows[p]| ==> filp[p][g] == if g < f then None else rows[p][g]
        invariant forall q :: 0 <= q < filp.Length && q != p ==> filp[q] == rows[q]
        invariant forall e :: 0 <= e < descs.Length ==> descs[e] == ds[e].(cnt := descs[e].cnt, inode := descs[e].inode)
        invariant SameFiles(rows, ds, sl, filp[..], descs[..], slots[..])
      {
        if filp[p][f].Some? {
          ghost var rows1, ds1, sl1 := filp[..], descs[..], slots[..];
          Release(p, f);
          SameFilesShrink(rows, ds, sl, rows1, ds1, sl1, filp[..], descs[..], slots[..]);
        }
      }
    }

    /**
     fork: do_fork() has copied the filp[] row of the parent, and fs_fork() counts the copies. The
     child then has every file of the parent, through the same descriptors.
     */
    method Fork(parent: nat, child: nat)
      requires Valid() && parent < filp.Length && child < filp.Length
      requires |filp[child]| == |filp[parent]| && forall f :: 0 <= f < |filp[child]| ==> filp[child][f].None?
      modifies filp, descs, slots
      ensures Valid() && extra == old(extra)
      ensures filp[..] == old(filp[..])[child := old(filp[parent])]
      ensures forall e :: 0 <= e < descs.Length ==> descs[e] == old(descs[e]).(cnt := descs[e].cnt)
      ensures SameFiles(old(filp[..]), old(descs[..]), old(slots[..]), filp[..], descs[..], slots[..])
      ensures forall f :: 0 <= f < |filp[parent]| ==>
                FileAt(filp[..], descs[..], slots[..], child, f) == FileAt(filp[..], descs[..], slots[..], parent, f)
    {
      hide Reach, Accounts, SameFiles, Total, Counts, CoherentBut, Unambiguous;
      ghost var rows, ds, sl := filp[..], descs[..], slots[..];
      var row := filp[parent];
      filp[child] := row;
      ghost var total := Total(rows);
      for f := 0 to |row|
        invariant Accounts(total, descs[..], Counts(slots[..]), extra)
        invariant total == Total(rows) + multiset(row[..f])
        invariant filp[..] == rows[child := row]
        invariant Unambiguous(slots[..], known) && CoherentBut(slots[..], sects[..], None)
        invariant forall d :: 0 <= d < descs.Length ==> descs[d] == ds[d].(cnt := descs[d].cnt) && descs[d].cnt >= ds[d].cnt
        invariant forall s :: 0 <= s < slots.Length ==> slots[s] == sl[s].(cnt := slots[s].cnt)
      {
        assert row[..f + 1] == row[..f] + [row[f]];
        if row[f].Some? {
          EntryNames(rows, ds, Counts(sl), extra, parent, f);
          CountUp(row[f].value, total);
        } else {
          MoreNones(total, total + multiset{row[f]}, descs[..], Counts(slots[..]), extra);
        }
        total := total + multiset{row[f]};
      }
      assert row[..|row|] == row;
      AccountsAfterFork(rows, parent, child, total, descs[..], Counts(slots[..]), extra);
      FilesStay(rows, ds, sl, extra, filp[..], descs[..], slots[..], extra);
    }

    /** The body of the loop of fs_fork(). */
    method CountUp(d: nat, ghost total: multiset<Option<nat>>)
      requires Formatted(sects[..]) && Unambiguous(slots[..], known) && CoherentBut(slots[..], sects[..], None)
      requires Accounts(total, descs[..], Counts(slots[..]), extra)
      requires d < descs.Length && descs[d].inode.Some?
      modifies descs, slots
      ensures Accounts(total + multiset{Some(d)}, descs[..], Counts(slots[..]), extra)
      ensures Unambiguous(slots[..], known) && CoherentBut(slots[..], sects[..], None)
      ensures forall e :: 0 <= e < descs.Length ==>
                descs[e] == old(descs[e]).(cnt := descs[e].cnt) && descs[e].cnt >= old(descs[e].cnt)
      ensures forall s :: 0 <= s < slots.Length ==> slots[s] == old(slots[s]).(cnt := slots[s].cnt)
    {
      hide Reach, Accounts, Counts, CoherentBut, Unambiguous;
      ghost var ds, sl := descs[..], slots[..];
      AddRef(total, ds, Counts(sl), extra, d);
      RefInUse(total, ds, Counts(sl), extra, d);
      var s := descs[d].inode.value;
      descs[d] := descs[d].(cnt := descs[d].cnt + 1);
      slots[s] := slots[s].(cnt := slots[s].cnt + 1);
      assert descs[..] == ds[d := ds[d].(cnt := ds[d].cnt + 1)] && slots[..] == sl[s := sl[s].(cnt := sl[s].cnt + 1)];
      CountsUp(sl, s, sects[..], known);
    }

    /**
     do_unlink(), as far as the tables are concerned. A refusal does not return the reference that
     get_inode() took: `extra` keeps one for good. A removal leaves no trace in the cache.
     */
    method Unlink(num: nat) returns (r: UnlinkResult)
      requires Valid() && num in known
      modifies slots, sects, `fsbuf, `extra, `known
      ensures r.Removed? <==>
                && old(Record(sects[..], num)).mode == R.I_REGULAR
                && (forall s :: 0 <= s < slots.Length && old(slots[s]).cnt > 0 ==> old(slots[s]).num != num)
                && exists s :: 0 <= s < slots.Length && old(slots[s]).cnt == 0
      ensures r.Panicked? <==> forall s :: 0 <= s < slots.Length ==> old(slots[s]).cnt > 0 && old(slots[s]).num != num
      ensures r.Removed? ==>
                && Valid() && extra == old(extra) && known == old(known) - {num}
                && Record(sects[..], num) == Inode(0, 0, 0, 0)
                && forall n :: OnDisk(sects[..], n) && n != num ==> Record(sects[..], n) == old(Record(sects[..], n))
      ensures r.Refused? ==>
                && Valid() && known == old(known) && sects[..] == old(sects[..])
                && exists s :: 0 <= s < slots.Length && extra == old(extra) + multiset{s}
                     && slots[..] == old(slots[..])[s := Slot(num, old(slots[s]).cnt + 1, Record(sects[..], num))]
                     && if old(slots[s]).cnt > 0 then old(slots[s]).num == num
                        else forall q :: 0 <= q < slots.Length && old(slots[q]).cnt > 0 ==> old(slots[q]).num != num
      ensures !r.Panicked? ==> SameFiles(filp[..], descs[..], old(slots[..]), filp[..], descs[..], slots[..])
    {
      hide Accounts, SameFiles, Counts, CoherentBut;
      ghost var slots0, extra0 := slots[..], extra;
      ExtraInUse(Total(filp[..]), descs[..], Counts(slots[..]), extra, root);
      assert slots[root].cnt > 0;
      CacheHit(slots0, sects[..], known, num);
      var s := GetInode(num);
      if s.None? { return Panicked; }
      var pin := s.value;
      if slots[pin].rec.mode != R.I_REGULAR || slots[pin].cnt > 1 {
        SlotsGrow(filp[..], descs[..], slots0, extra0, slots[..], extra);
        return Refused;
      }
      Erase(pin, num, slots0, extra0);
      r := Removed;
    }

    /** A cached file is not removed: the reference taken stays with the slot that caches it. */
    method RefuseCached(num: nat, s: nat) returns (r: UnlinkResult)
      requires Valid() && num in known && num != ROOT_INODE
      requires s < slots.Length && slots[s].cnt > 0 && slots[s].num == num
      modifies slots, sects, `fsbuf, `extra, `known
      ensures r.Refused? && Valid() && extra == old(extra) + multiset{s} && s != root
      ensures SameFiles(filp[..], descs[..], old(slots[..]), filp[..], descs[..], slots[..])
    {
      hide Accounts, SameFiles, CoherentBut, Total;
      assert s != root;
      r := Unlink(num);
    }

    /** The i-node itself is cleared, on disk as well, and its slot given back. */
    method Erase(pin: nat, num: nat, ghost slots0: seq<Slot>, ghost extra0: multiset<nat>)
      requires Consistent(None) && num in known && pin < slots.Length && slots[pin].num == num && slots[pin].cnt == 1
      requires root < slots.Length && slots[root].num == ROOT_INODE && root != pin && root in extra0
      requires |slots0| == slots.Length && slots[..] == slots0[pin := slots[pin]] && slots0[pin].cnt == 0
      requires Accounts(Total(filp[..]), descs[..], Counts(slots0), extra0) && extra == extra0 + multiset{pin}
      modifies slots, sects, `fsbuf, `extra, `known
      ensures Valid() && extra == extra0 && known == old(known) - {num}
      ensures Record(sects[..], num) == Inode(0, 0, 0, 0)
      ensures forall n :: OnDisk(sects[..], n) && n != num ==> Record(sects[..], n) == old(Record(sects[..], n))
      ensures SameFiles(filp[..], descs[..], slots0, filp[..], descs[..], slots[..])
    {
      hide Accounts, SameFiles, Counts, CoherentBut, Unambiguous, Total, Reach, FileAt;
      Store(pin, Inode(0, 0, 0, 0));
      SlotsGrow(filp[..], descs[..], slots0, extra0, slots[..], extra);
      PutBack(pin, num, slots0);
    }

    /** put_inode() of the removed file: its slot is free again, and nobody knows the inode any more. */
    method PutBack(pin: nat, num: nat, ghost slots0: seq<Slot>)
      requires Consistent(None) && pin < slots.Length && pin in extra && slots[pin].num == num
      requires slots[pin].cnt == 1 && |slots0| == slots.Length
      requires SameFiles(filp[..], descs[..], slots0, filp[..], descs[..], slots[..])
      modifies slots, `extra, `known
      ensures Consistent(None) && extra == old(extra) - multiset{pin} && known == old(known) - {num}
      ensures SameFiles(filp[..], descs[..], slots0, filp[..], descs[..], slots[..])
      ensures slots[..] == old(slots[..])[pin := old(slots[pin]).(cnt := 0)]
    {
      hide Accounts, Counts, CoherentBut, FileAt;
      ghost var sl, extra1 := slots[..], extra;
      DropExtra(Total(filp[..]), descs[..], Counts(sl), extra, pin);
      CountsDown(sl, pin, sects[..], known);
      var ok := PutInode(pin);
      assert slots[..] == sl[pin := sl[pin].(cnt := sl[pin].cnt - 1)];
      extra := extra - multiset{pin};
      SlotsGrow(filp[..], descs[..], sl, extra1, slots[..], extra);
      SameFilesTransitive(filp[..], descs[..], slots0, filp[..], descs[..], sl, filp[..], descs[..], slots[..]);
      Forget(slots[..], known, num);
      known := known - {num};
    }

    /** The first free entry of `p` is the file `num` now, through a descriptor of its own at position 0. */
    ghost predicate OpenedAs(rows: seq<Row>, ds: seq<Desc>, slots0: seq<Slot>, extra0: multiset<nat>,
                           p: nat, num: nat, fd: nat, mode: int)
      reads this, slots, descs, filp, sects
    {
      && Valid() && extra == extra0
      && p < |rows| && fd < |rows[p]| && rows[p][fd].None? && (forall f :: 0 <= f < fd ==> rows[p][f].Some?)
      && |filp[..]| == |rows| && |filp[p]| == |rows[p]|
      && (forall q :: 0 <= q < |rows| && q != p ==> filp[q] == rows[q])
      && (forall f :: 0 <= f < |rows[p]| && f != fd ==> filp[p][f] == rows[p][f])
      && filp[p][fd].Some? && filp[p][fd].value < descs.Length
      && (var v := descs[filp[p][fd].value]; v.mode == mode && v.pos == 0 && v.cnt == 1)
      && FileAt(filp[..], descs[..], slots[..], p, fd) == Some(num)
      && SameFiles(rows, ds, slots0, filp[..], descs[..], slots[..])
    }
  }

  lemma EntryReplaced(rows: seq<Row>, p: nat, f: nat, e: Option<nat>)
    requires p < |rows| && f < |rows[p]|
    ensures Total(rows[p := rows[p][f := e]]) == Total(rows) - multiset{rows[p][f]} + multiset{e}
    ensures rows[p][f] in Total(rows)
  {
    var row' := rows[p][f := e];
    TotalUpdate(rows, p, row');
    InTotal(rows, rows[p][f]);
    assert multiset(row') == multiset(rows[p]) - multiset{rows[p][f]} + multiset{e};
    assert rows[p][f] in multiset(rows[p]);
    hide Total;
  }

  lemma PositionIsFree(total: multiset<Option<nat>>, descs: seq<Desc>, cnts: seq<nat>, extra: multiset<nat>, d: nat, pos: nat)
    requires Accounts(total, descs, cnts, extra) && d < |descs|
    ensures Accounts(total, descs[d := descs[d].(pos := pos)], cnts, extra)
  {
    var v := descs[d].(pos := pos);
    forall r | 0 <= r < |cnts|
      ensures Reach(total, descs[d := v], r) == Reach(total, descs, r)
    { ReachUpdate(total, descs, d, v, r); }
    hide Reach;
  }

  /** Which file an entry stands for depends on neither positions nor records. */
  lemma SizesAreNotFiles(rows: seq<Row>, descs: seq<Desc>, slots: seq<Slot>, descs': seq<Desc>, slots': seq<Slot>)
    requires |descs'| == |descs| && |slots'| == |slots|
    requires forall d :: 0 <= d < |descs| ==> descs'[d].inode == descs[d].inode
    requires forall s :: 0 <= s < |slots| ==> slots'[s].num == slots[s].num
    ensures SameFiles(rows, descs, slots, rows, descs', slots')
  {
  }

  lemma GrowthKeepsFiles(rows: seq<Row>, descs: seq<Desc>, slots: seq<Slot>, d: nat, s: nat, pos: nat)
    requires d < |descs| && s < |slots|
    ensures SameFiles(rows, descs, slots, rows, descs[d := descs[d].(pos := pos)], slots[s := Grown(slots[s], pos)])
  {
    hide SameFiles, FileAt;
    SizesAreNotFiles(rows, descs, slots, descs[d := descs[d].(pos := pos)], slots[s := Grown(slots[s], pos)]);
  }

  lemma AccountsAfterEntry(rows: seq<Row>, p: nat, f: nat, e: Option<nat>, descs: seq<Desc>, cnts: seq<nat>, extra: multiset<nat>)
    requires p < |rows| && f < |rows[p]| && rows[p][f].None?
    requires Accounts(Total(rows) + multiset{e}, descs, cnts, extra)
    ensures Accounts(Total(rows[p := rows[p][f := e]]), descs, cnts, extra)
  {
    EntryReplaced(rows, p, f, e);
    hide Accounts, Total;
    MoreNones(Total(rows) + multiset{e}, Total(rows[p := rows[p][f := e]]), descs, cnts, extra);
  }

  lemma EntryNames(rows: seq<Row>, descs: seq<Desc>, cnts: seq<nat>, extra: multiset<nat>, p: nat, f: nat)
    requires Accounts(Total(rows), descs, cnts, extra) && p < |rows| && f < |rows[p]| && rows[p][f].Some?
    ensures var d := rows[p][f].value;
            && Some(d) in Total(rows) && d < |descs| && descs[d].cnt > 0
            && descs[d].inode.Some? && descs[d].inode.value < |cnts|
  {
    InTotal(rows, rows[p][f]);
  }

  lemma AccountsAfterDrop(rows: seq<Row>, p: nat, f: nat, descs: seq<Desc>, cnts: seq<nat>, extra: multiset<nat>)
    requires p < |rows| && f < |rows[p]| && rows[p][f].Some?
    requires Accounts(Total(rows) - multiset{rows[p][f]}, descs, cnts, extra)
    ensures Accounts(Total(rows[p := rows[p][f := None]]), descs, cnts, extra)
  {
    EntryReplaced(rows, p, f, None);
    hide Accounts, Total;
    MoreNones(Total(rows) - multiset{rows[p][f]}, Total(rows[p := rows[p][f := None]]), descs, cnts, extra);
  }

  lemma CountsDown(slots: seq<Slot>, s: nat, sects: seq<seq<Inode>>, known: set<nat>)
    requires s < |slots| && slots[s].cnt > 0 && Formatted(sects)
    requires Unambiguous(slots, known) && CoherentBut(slots, sects, None)
    ensures var slots' := slots[s := slots[s].(cnt := slots[s].cnt - 1)];
            && Unambiguous(slots', known) && CoherentBut(slots', sects, None)
            && Counts(slots') == Counts(slots)[s := slots[s].cnt - 1]
  {
  }

  lemma SameFilesReflexive(rows: seq<Row>, descs: seq<Desc>, slots: seq<Slot>)
    ensures SameFiles(rows, descs, slots, rows, descs, slots)
  {
  }

  /** Entries only disappear between the first and the second state, and between the second and the third. */
  lemma SameFilesShrink(r0: seq<Row>, d0: seq<Desc>, s0: seq<Slot>, r1: seq<Row>, d1: seq<Desc>, s1: seq<Slot>,
                        r2: seq<Row>, d2: seq<Desc>, s2: seq<Slot>)
    requires SameFiles(r0, d0, s0, r1, d1, s1) && SameFiles(r1, d1, s1, r2, d2, s2)
    requires |r0| == |r1| == |r2| && forall p :: 0 <= p < |r0| ==> |r0[p]| == |r1[p]| == |r2[p]|
    requires forall p, f :: 0 <= p < |r0| && 0 <= f < |r0[p]| ==>
               (r1[p][f] == r0[p][f] || (r1[p][f].None? && r2[p][f].None?))
    ensures SameFiles(r0, d0, s0, r2, d2, s2)
  {
    forall p, f | 0 <= p < |r0| && 0 <= f < |r0[p]| && r2[p][f] == r0[p][f]
      ensures FileAt(r2, d2, s2, p, f) == FileAt(r0, d0, s0, p, f)
    {
      if r1[p][f] == r0[p][f] { assert r2[p][f] == r1[p][f]; }
    }
  }

  lemma AccountsAfterFork(rows: seq<Row>, parent: nat, child: nat, total: multiset<Option<nat>>,
                          descs: seq<Desc>, cnts: seq<nat>, extra: multiset<nat>)
    requires parent < |rows| && child < |rows| && forall f :: 0 <= f < |rows[child]| ==> rows[child][f].None?
    requires total == Total(rows) + multiset(rows[parent]) && Accounts(total, descs, cnts, extra)
    ensures Accounts(Total(rows[child := rows[parent]]), descs, cnts, extra)
  {
    TotalUpdate(rows, child, rows[parent]);
    forall d: nat
      ensures multiset(rows[child])[Some(d)] == 0
    { assert Some(d) !in rows[child]; }
    MoreNones(total, Total(rows[child := rows[parent]]), descs, cnts, extra);
  }

  lemma RefInUse(total: multiset<Option<nat>>, descs: seq<Desc>, cnts: seq<nat>, extra: multiset<nat>, d: nat)
    requires Accounts(total, descs, cnts, extra) && d < |descs| && descs[d].inode.Some?
    ensures descs[d].inode.value < |cnts| && cnts[descs[d].inode.value] > 0
  {
    ReachAtLeast(total, descs, d, descs[d].inode.value);
  }

  lemma CountsUp(slots: seq<Slot>, s: nat, sects: seq<seq<Inode>>, known: set<nat>)
    requires s < |slots| && slots[s].cnt > 0 && Formatted(sects)
    requires Unambiguous(slots, known) && CoherentBut(slots, sects, None)
    ensures var slots' := slots[s := slots[s].(cnt := slots[s].cnt + 1)];
            && Unambiguous(slots', known) && CoherentBut(slots', sects, None)
            && Counts(slots') == Counts(slots)[s := slots[s].cnt + 1]
  {
  }

  lemma CacheHit(slots: seq<Slot>, sects: seq<seq<Inode>>, known: set<nat>, num: nat)
    requires Formatted(sects) && Unambiguous(slots, known) && CoherentBut(slots, sects, None)
    ensures forall s :: 0 <= s < |slots| && slots[s].cnt > 0 ==> OnDisk(sects, slots[s].num) && slots[s].rec == Record(sects, slots[s].num)
  {
  }

  lemma Forget(slots: seq<Slot>, known: set<nat>, num: nat)
    requires Unambiguous(slots, known) && forall s :: 0 <= s < |slots| && slots[s].cnt > 0 ==> slots[s].num != num
    ensures Unambiguous(slots, known - {num})
  {
  }

  lemma NothingOpen(rows: seq<Row>, descs: seq<Desc>, cnts: seq<nat>)
    requires forall p, f :: 0 <= p < |rows| && 0 <= f < |rows[p]| ==> rows[p][f].None?
    requires forall d :: 0 <= d < |descs| ==> descs[d].inode.None? && descs[d].cnt == 0
    requires forall s :: 0 <= s < |cnts| ==> cnts[s] == 0
    ensures Accounts(Total(rows), descs, cnts, multiset{})
  {
    forall e | e in Total(rows)
      ensures e.None?
    { InTotal(rows, e); }
    forall s | 0 <= s < |cnts|
      ensures Reach(Total(rows), descs, s) == 0
    { NoneReached(Total(rows), descs, s); }
    assert forall d: nat :: Some(d) !in Total(rows);
  }

  lemma {:induction false} NoneReached(total: multiset<Option<nat>>, descs: seq<Desc>, s: nat)
    requires forall d :: 0 <= d < |descs| ==> descs[d].inode.None?
    ensures Reach(total, descs, s) == 0
  {
    if descs != [] { NoneReached(total, descs[..|descs| - 1], s); }
  }

  /** On every run `i_cnt` is the number of filp entries that reach the slot, plus its references in `extra`. */
  lemma CountsAre(rows: seq<Row>, descs: seq<Desc>, slots: seq<Slot>, extra: multiset<nat>, s: nat)
    requires Accounts(Total(rows), descs, Counts(slots), extra) && s < |slots|
    ensures slots[s].cnt == Entries(rows, descs, s) + extra[s]
  {
    ReachCountsEntries(rows, descs, s);
  }

  /**
   On runs in which no unlink was refused (`extra` is then still the root alone), `i_cnt` is exactly
   the number of filp entries that reach the slot, plus one for the root.
   */
  lemma ExactCounts(rows: seq<Row>, descs: seq<Desc>, slots: seq<Slot>, root: nat, s: nat)
    requires Accounts(Total(rows), descs, Counts(slots), multiset{root}) && s < |slots|
    ensures slots[s].cnt == Entries(rows, descs, s) + if s == root then 1 else 0
  {
    ReachCountsEntries(rows, descs, s);
  }

  lemma FreeDescCount(total: multiset<Option<nat>>, descs: seq<Desc>, cnts: seq<nat>, extra: multiset<nat>, d: nat)
    requires Accounts(total, descs, cnts, extra) && d < |descs|
    ensures descs[d].inode.None? <==> descs[d].cnt == 0
  {
  }

  lemma InstalledFile(rows: seq<Row>, descs: seq<Desc>, slots: seq<Slot>, p: nat, f: nat, d: nat, s: nat)
    requires p < |rows| && f < |rows[p]| && rows[p][f] == Some(d)
    requires d < |descs| && descs[d].inode == Some(s) && s < |slots|
    ensures FileAt(rows, descs, slots, p, f) == Some(slots[s].num)
  {
  }

  /** Slots that were in use still cache the same inode, so every entry stands for the same file. */
  lemma SlotsGrow(rows: seq<Row>, descs: seq<Desc>, slots: seq<Slot>, extra: multiset<nat>, slots': seq<Slot>, extra': multiset<nat>)
    requires Accounts(Total(rows), descs, Counts(slots), extra) && Accounts(Total(rows), descs, Counts(slots'), extra')
    requires |slots'| == |slots| && forall s :: 0 <= s < |slots| && slots[s].cnt > 0 ==> slots'[s].num == slots[s].num
    ensures SameFiles(rows, descs, slots, rows, descs, slots')
  {
    hide Accounts, Total;
    FilesStay(rows, descs, slots, extra, rows, descs, slots', extra');
  }

  lemma SameFilesTransitive(r0: seq<Row>, d0: seq<Desc>, s0: seq<Slot>, r1: seq<Row>, d1: seq<Desc>, s1: seq<Slot>,
                            r2: seq<Row>, d2: seq<Desc>, s2: seq<Slot>)
    requires SameFiles(r0, d0, s0, r1, d1, s1) && SameFiles(r1, d1, s1, r2, d2, s2) && r1 == r0
    ensures SameFiles(r0, d0, s0, r2, d2, s2)
  {
    hide FileAt;
  }

  // ---------------------------------------------------------------- a reference that is never returned

  lemma {:induction false} NoEntriesIn(row: Row, descs: seq<Desc>, s: nat)
    requires forall f :: 0 <= f < |row| ==> row[f].None?
    ensures EntriesIn(row, descs, s) == 0
  {
    if row != [] { NoEntriesIn(row[..|row| - 1], descs, s); }
  }

  /** Empty tables with the root held, a free slot and a free descriptor. */
  method Booted() returns (t: FileTables)
    ensures t.Valid() && t.extra == multiset{t.root} && 2 !in t.known && OnDisk(t.sects[..], 2)
    ensures t.filp.Length == 1 && t.filp[0] == [None] && t.descs.Length == 1 && t.descs[0].inode.None?
    ensures t.slots.Length == 2 && t.slots[1 - t.root].cnt == 0
    ensures fresh(t) && fresh(t.slots) && fresh(t.descs) && fresh(t.filp) && fresh(t.sects)
  {
    hide Accounts, Total;
    var blank := Inode(0, 0, 0, 0);
    t := new FileTables(2, 1, 1, 1, [seq(INODES_PER_SECTOR, _ => blank)], {ROOT_INODE});
    assert t.slots[0].cnt == 0;
    t.FetchRoot();
  }

  /**
   The root is held, a process creates the file 2, somebody else tries to remove it and is refused, and
   the process closes it: no entry is left, and the slot stays in use for good.
   */
  method RefusedUnlinkLeaks() returns (t: FileTables, s: nat)
    ensures t.Valid() && t.filp.Length == 1 && forall f :: 0 <= f < |t.filp[0]| ==> t.filp[0][f].None?
    ensures s < t.slots.Length && s != t.root && t.slots[s].cnt == 1
  {
    hide Accounts, Total, SameFiles, CoherentBut, Unambiguous, Counts, Recorded;
    t := Booted();
    var fd := t.Create(0, 2, 100, 8, 2);
    s := OpenSlot(t, fd.value);
    var _ := t.RefuseCached(2, s);
    assert t.extra == multiset{t.root, s};
    t.Close(0, fd.value);
    NothingNamed(t, s);
  }

  lemma NothingNamed(t: FileTables, s: nat)
    requires t.Valid() && t.filp.Length == 1 && s < t.slots.Length && s != t.root && t.extra == multiset{t.root, s}
    requires forall f :: 0 <= f < |t.filp[0]| ==> t.filp[0][f].None?
    ensures t.slots[s].cnt == 1
  {
    NoEntriesIn(t.filp[0], t.descs[..], s);
    assert t.filp[..] == [t.filp[0]];
    CountsAre(t.filp[..], t.descs[..], t.slots[..], t.extra, s);
  }

  /** The slot behind entry `fd` of process 0. */
  method OpenSlot(t: FileTables, fd: nat) returns (s: nat)
    requires t.Valid() && 0 < t.filp.Length && fd < |t.filp[0]| && t.filp[0][fd].Some?
    ensures s < t.slots.Length && t.slots[s].cnt > 0
    ensures FileAt(t.filp[..], t.descs[..], t.slots[..], 0, fd) == Some(t.slots[s].num)
  {
    var d;
    d, s := t.Reached(0, fd);
  }
}
