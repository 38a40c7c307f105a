/**
 The file system as its users see it: files are byte strings, descriptors have positions. The class in
 FileSystem.dfy shows that the disk, with its maps and its inode array, is such a store.
 */
module FileStore {
  import opened Prelude
  import opened ReadWrite

  /** `i_mode`, `i_size`, and the bytes of the whole extent. */
  datatype Content = Content(mode: nat, size: nat, bytes: seq<bv8>)

  datatype Desc = Desc(num: nat, pos: nat)

  /** `counts` holds `i_cnt` of the inodes in the inode table. */
  datatype Store = Store(files: map<nat, Content>, counts: map<nat, nat>, descs: seq<Option<Desc>>)

  datatype Op =
    | Create(k: nat, num: nat, room: seq<bv8>)      // `room` is what the sectors held before
    | Open(k: nat, num: nat, trunc: bool)
    | Close(k: nat)
    | Lseek(k: nat, off: int, whence: Whence)
    | Read(k: nat, moved: nat)
    | Write(k: nat, bytes: seq<bv8>)
    | Unlink(num: nat)

  predicate InUse(s: Store, k: nat) {
    k < |s.descs| && s.descs[k].Some? && s.descs[k].value.num in s.files && s.descs[k].value.num in s.counts
  }

  /** The file that a descriptor names, and its position. */
  function FileOf(s: Store, k: nat): Content
    requires InUse(s, k)
  {
    s.files[s.descs[k].value.num]
  }

  function PosOf(s: Store, k: nat): nat
    requires InUse(s, k)
  {
    s.descs[k].value.pos
  }

  predicate Unused(s: Store, k: nat) { k < |s.descs| && s.descs[k].None? }

  /** No descriptor is left. */
  predicate Full(s: Store) {
    forall d :: d in s.descs ==> d.Some?
  }

  predicate Enabled(s: Store, op: Op) {
    match op
    case Create(k, num, _) => Unused(s, k) && num !in s.files && num !in s.counts
    case Open(k, num, _) => Unused(s, k) && num in s.files
    case Write(k, bytes) => InUse(s, k) && PosOf(s, k) + |bytes| <= |FileOf(s, k).bytes|
    case Unlink(num) => num in s.files
    case _ => InUse(s, op.k)
  }

  function Count(counts: map<nat, nat>, i: nat): nat {
    if i in counts then counts[i] else 0
  }

  /** get_inode() and put_inode(). */
  function Held(counts: map<nat, nat>, i: nat): map<nat, nat> {
    counts[i := Count(counts, i) + 1]
  }

  function Dropped(counts: map<nat, nat>, i: nat): map<nat, nat>
    requires i in counts
  {
    if counts[i] <= 1 then counts - {i} else counts[i := counts[i] - 1]
  }

  /** The answer of lseek(). */
  function Target(s: Store, k: nat, off: int, whence: Whence): Option<nat>
    requires InUse(s, k)
  {
    Seek(PosOf(s, k), FileOf(s, k).size, off, whence)
  }

  /** A read of `moved` bytes within the extent has put those of the file at the start of the buffer. */
  ghost predicate HandedOut(s: Store, k: nat, moved: nat, b: seq<bv8>, b': seq<bv8>)
    requires InUse(s, k)
  {
    && moved <= |b|
    && (PosOf(s, k) + moved <= |FileOf(s, k).bytes| ==>
          b' == Patched(b, 0, FileOf(s, k).bytes[PosOf(s, k)..PosOf(s, k) + moved]))
  }

  /** unlink() removes regular files that nobody holds. */
  predicate Removable(s: Store, num: nat) {
    num in s.files && s.files[num].mode == I_REGULAR && num !in s.counts
  }

  function Next(s: Store, op: Op): Store
    requires Enabled(s, op)
  {
    match op
    case Create(k, num, room) =>
      Store(s.files[num := Content(I_REGULAR, 0, room)], Held(s.counts, num), s.descs[k := Some(Desc(num, 0))])
    case Open(k, num, trunc) =>
      var files := if trunc then s.files[num := s.files[num].(size := 0)] else s.files;
      Store(files, Held(s.counts, num), s.descs[k := Some(Desc(num, 0))])
    case Close(k) =>
      s.(counts := Dropped(s.counts, s.descs[k].value.num), descs := s.descs[k := None])
    case Lseek(k, off, whence) =>
      var target := Target(s, k, off, whence);
      if target.None? then s else s.(descs := s.descs[k := Some(Desc(s.descs[k].value.num, target.value))])
    case Read(k, moved) =>
      var d := s.descs[k].value;
      var c := s.files[d.num];
      s.(files := s.files[d.num := c.(size := Max(c.size, d.pos + moved))],
         descs := s.descs[k := Some(Desc(d.num, d.pos + moved))])
    case Write(k, bytes) =>
      var d := s.descs[k].value;
      var c := s.files[d.num];
      s.(files := s.files[d.num := c.(size := Max(c.size, d.pos + |bytes|), bytes := Patched(c.bytes, d.pos, bytes))],
         descs := s.descs[k := Some(Desc(d.num, d.pos + |bytes|))])
    case Unlink(num) =>
      if Removable(s, num) then s.(files := s.files - {num}) else s.(counts := Held(s.counts, num))
  }

  // ---------------------------------------------------------------- the counters

  /** How many descriptors name the inode `i`. */
  function Named(descs: seq<Option<Desc>>, i: nat): nat {
    if descs == [] then 0 else
      Named(descs[1..], i) + if descs[0].Some? && descs[0].value.num == i then 1 else 0
  }

  lemma {:induction false} NamedUpdate(descs: seq<Option<Desc>>, k: nat, v: Option<Desc>, i: nat)
    requires k < |descs|
    ensures Named(descs[k := v], i) + (if descs[k].Some? && descs[k].value.num == i then 1 else 0)
         == Named(descs, i) + (if v.Some? && v.value.num == i then 1 else 0)
  {
    if k == 0 {
      assert descs[k := v][1..] == descs[1..];
    } else {
      assert descs[k := v][1..] == descs[1..][k - 1 := v];
      NamedUpdate(descs[1..], k - 1, v, i);
    }
  }

  /** Inodes in the table are files, and each is counted at least once for every descriptor that names it. */
  ghost predicate StoreOk(s: Store) {
    && (forall i :: i in s.counts ==> i in s.files && s.counts[i] > 0)
    && forall i :: Named(s.descs, i) <= Count(s.counts, i)
  }

  lemma NamesAreHeld(s: Store, k: nat)
    requires StoreOk(s) && k < |s.descs| && s.descs[k].Some?
    ensures InUse(s, k)
  {
    NamedUpdate(s.descs, k, None, s.descs[k].value.num);
  }

  lemma NextKeepsOk(s: Store, op: Op)
    requires StoreOk(s) && Enabled(s, op)
    ensures StoreOk(Next(s, op))
  {
    var s' := Next(s, op);
    forall i
      ensures Named(s'.descs, i) <= Count(s'.counts, i)
    {
      if !op.Unlink? { NamedUpdate(s.descs, op.k, s'.descs[op.k], i); }
    }
  }

  // ---------------------------------------------------------------- what one operation means for the next

  /** The bytes of the `n` positions from that of the descriptor on. */
  function Ahead(s: Store, k: nat, n: nat): seq<bv8>
    requires InUse(s, k) && PosOf(s, k) + n <= |FileOf(s, k).bytes|
  {
    FileOf(s, k).bytes[PosOf(s, k)..PosOf(s, k) + n]
  }

  /** Nothing changes but descriptor `k` and, of the files, `num`. */
  ghost predicate Only(s: Store, s': Store, k: nat, num: nat) {
    && |s'.descs| == |s.descs| && (forall j :: 0 <= j < |s.descs| && j != k ==> s'.descs[j] == s.descs[j])
    && (forall i :: i != num ==> (i in s'.files <==> i in s.files) && (i in s.files ==> s'.files[i] == s.files[i]))
    && (forall i :: i != num ==> Count(s'.counts, i) == Count(s.counts, i))
  }

  /** The file that an operation is about. */
  function Subject(s: Store, op: Op): nat
    requires Enabled(s, op)
  {
    match op
    case Create(_, num, _) => num
    case Open(_, num, _) => num
    case Unlink(num) => num
    case _ => s.descs[op.k].value.num
  }

  lemma OthersUntouched(s: Store, op: Op)
    requires Enabled(s, op)
    ensures Only(s, Next(s, op), if op.Unlink? then |s.descs| else op.k, Subject(s, op))
  {
  }

  /** No operation changes the mode of a file, and only unlink() removes one: a regular one that nobody holds. */
  lemma FilesStay(s: Store, op: Op, num: nat)
    requires StoreOk(s) && Enabled(s, op) && num in s.files
    ensures var s' := Next(s, op);
            && (num in s'.files <==> !(op == Op.Unlink(num) && s.files[num].mode == I_REGULAR && Count(s.counts, num) == 0))
            && (num in s'.files ==> s'.files[num].mode == s.files[num].mode && |s'.files[num].bytes| == |s.files[num].bytes|)
  {
  }

  /** A write moves the position behind the bytes it has put there, and the size follows if it was passed. */
  lemma WriteMoves(s: Store, k: nat, bytes: seq<bv8>)
    requires Enabled(s, Op.Write(k, bytes))
    ensures var s' := Next(s, Op.Write(k, bytes));
            && InUse(s', k) && PosOf(s', k) == PosOf(s, k) + |bytes|
            && FileOf(s', k).size == Max(FileOf(s, k).size, PosOf(s', k)) && |FileOf(s', k).bytes| == |FileOf(s, k).bytes|
            && FileOf(s', k).bytes[PosOf(s, k)..PosOf(s', k)] == bytes
  {
    PatchedSlice(FileOf(s, k).bytes, PosOf(s, k), bytes);
  }

  lemma PatchedSlice(d: seq<bv8>, a: nat, bytes: seq<bv8>)
    requires a + |bytes| <= |d|
    ensures Patched(d, a, bytes)[a..a + |bytes|] == bytes
    ensures Patched(d, a, bytes)[..a] == d[..a] && Patched(d, a, bytes)[a + |bytes|..] == d[a + |bytes|..]
  {
  }

  lemma PatchedTwice(d: seq<bv8>, p: nat, a: seq<bv8>, b: seq<bv8>)
    requires p + |a| + |b| <= |d|
    ensures Patched(Patched(d, p, a), p + |a|, b) == Patched(d, p, a + b)
  {
  }

  /** Writing `a` and then `b` leaves both behind one another: it is writing `a + b`. */
  lemma WritesAppend(s: Store, k: nat, a: seq<bv8>, b: seq<bv8>)
    requires Enabled(s, Op.Write(k, a + b))
    ensures Enabled(s, Op.Write(k, a))
    ensures var s1 := Next(s, Op.Write(k, a));
            && Enabled(s1, Op.Write(k, b)) && Next(s1, Op.Write(k, b)) == Next(s, Op.Write(k, a + b))
            && var s2 := Next(s1, Op.Write(k, b));
               && FileOf(s2, k).bytes[PosOf(s, k)..PosOf(s, k) + |a| + |b|] == a + b
               && FileOf(s2, k).size == Max(FileOf(s, k).size, PosOf(s, k) + |a| + |b|)
               && PosOf(s2, k) == PosOf(s, k) + |a| + |b|
  {
    hide Patched;
    PatchedTwice(FileOf(s, k).bytes, PosOf(s, k), a, b);
    WriteMoves(s, k, a + b);
    var s1 := Next(s, Op.Write(k, a));
    assert Next(s1, Op.Write(k, b)).files == Next(s, Op.Write(k, a + b)).files;
  }

  /** Two reads in a row hand out consecutive bytes of the file, as one read of both lengths does. */
  lemma ReadsAreConsecutive(s: Store, k: nat, m: nat, n: nat)
    requires Enabled(s, Op.Read(k, m)) && PosOf(s, k) + m + n <= |FileOf(s, k).bytes|
    ensures var s1 := Next(s, Op.Read(k, m));
            && Enabled(s1, Op.Read(k, n)) && PosOf(s1, k) == PosOf(s, k) + m
            && PosOf(s1, k) + n <= |FileOf(s1, k).bytes| && Ahead(s, k, m) + Ahead(s1, k, n) == Ahead(s, k, m + n)
            && Next(s1, Op.Read(k, n)) == Next(s, Op.Read(k, m + n))
            && (PosOf(s, k) + m <= FileOf(s, k).size ==> FileOf(s1, k) == FileOf(s, k))
  {
    var s1 := Next(s, Op.Read(k, m));
    assert s1.descs[k := Some(Desc(s.descs[k].value.num, PosOf(s, k) + m + n))]
        == s.descs[k := Some(Desc(s.descs[k].value.num, PosOf(s, k) + m + n))];
    assert Next(s1, Op.Read(k, n)).files == Next(s, Op.Read(k, m + n)).files;
  }

  /** What is written is read from the same position on, after any seek back. */
  lemma WriteThenRead(s: Store, k: nat, bytes: seq<bv8>)
    requires Enabled(s, Op.Write(k, bytes))
    ensures var s1 := Next(s, Op.Write(k, bytes));
            && Enabled(s1, Op.Lseek(k, PosOf(s, k), SEEK_SET))
            && var s2 := Next(s1, Op.Lseek(k, PosOf(s, k), SEEK_SET));
               && InUse(s2, k) && PosOf(s2, k) == PosOf(s, k)
               && PosOf(s2, k) + |bytes| <= |FileOf(s2, k).bytes| && Ahead(s2, k, |bytes|) == bytes
  {
    hide Patched;
    WriteMoves(s, k, bytes);
  }

  /** An open file is read and written from its start, and truncation leaves nothing to read and all bytes. */
  lemma OpenStarts(s: Store, k: nat, num: nat, trunc: bool)
    requires Enabled(s, Op.Open(k, num, trunc))
    ensures var s' := Next(s, Op.Open(k, num, trunc));
            && InUse(s', k) && s'.descs[k].value.num == num && PosOf(s', k) == 0
            && FileOf(s', k) == s.files[num].(size := if trunc then 0 else s.files[num].size)
            && Count(s'.counts, num) == Count(s.counts, num) + 1
  {
  }

  /** A new file is regular and empty, and open at its start. */
  lemma CreateStarts(s: Store, k: nat, num: nat, room: seq<bv8>)
    requires Enabled(s, Op.Create(k, num, room))
    ensures var s' := Next(s, Op.Create(k, num, room));
            && InUse(s', k) && s'.descs[k].value.num == num && PosOf(s', k) == 0
            && FileOf(s', k) == Content(I_REGULAR, 0, room) && Count(s'.counts, num) == 1
  {
  }

  /** Closing undoes opening, and unlinking undoes creating once the file is closed. */
  lemma CloseUndoesOpen(s: Store, k: nat, num: nat)
    requires Enabled(s, Op.Open(k, num, false)) && StoreOk(s)
    ensures var s' := Next(s, Op.Open(k, num, false));
            Enabled(s', Op.Close(k)) && Next(s', Op.Close(k)) == s
  {
    var s' := Next(s, Op.Open(k, num, false));
    var s'' := Next(s', Op.Close(k));
    assert s''.descs == s.descs && s''.counts == s.counts;
  }

  lemma UnlinkUndoesCreate(s: Store, k: nat, num: nat, room: seq<bv8>)
    requires Enabled(s, Op.Create(k, num, room))
    ensures var s1 := Next(s, Op.Create(k, num, room));
            && Enabled(s1, Op.Close(k))
            && var s2 := Next(s1, Op.Close(k));
               Enabled(s2, Op.Unlink(num)) && Next(s2, Op.Unlink(num)) == s
  {
    var s2 := Next(Next(s, Op.Create(k, num, room)), Op.Close(k));
    var s3 := Next(s2, Op.Unlink(num));
    assert s3.files == s.files && s3.descs == s.descs && s3.counts == s.counts;
  }

  /**
   The origins of lseek(): the start of the file, the position, and the end. A target behind the end or
   before the start is refused.
   */
  lemma SeekTargets(s: Store, k: nat, off: int, whence: Whence)
    requires InUse(s, k)
    ensures var target := (if whence == SEEK_SET then 0 else if whence == SEEK_CUR then PosOf(s, k) else FileOf(s, k).size) + off;
            var s' := Next(s, Op.Lseek(k, off, whence));
            && InUse(s', k) && s'.files == s.files && s'.counts == s.counts
            && (Target(s, k, off, whence).Some? <==> 0 <= target <= FileOf(s, k).size)
            && PosOf(s', k) == if 0 <= target <= FileOf(s, k).size then target else PosOf(s, k)
  {
  }

  /** Seeking by 0 from the end and then writing appends to the file. */
  lemma SeekEndAppends(s: Store, k: nat, bytes: seq<bv8>)
    requires InUse(s, k) && FileOf(s, k).size + |bytes| <= |FileOf(s, k).bytes|
    ensures var s1 := Next(s, Op.Lseek(k, 0, SEEK_END));
            && Enabled(s1, Op.Write(k, bytes))
            && var s2, size := Next(s1, Op.Write(k, bytes)), FileOf(s, k).size;
               && InUse(s2, k) && FileOf(s2, k).size == size + |bytes| <= |FileOf(s2, k).bytes|
               && FileOf(s2, k).bytes[..size + |bytes|] == FileOf(s, k).bytes[..size] + bytes
  {
    var s1 := Next(s, Op.Lseek(k, 0, SEEK_END));
    SeekTargets(s, k, 0, SEEK_END);
    WriteMoves(s1, k, bytes);
    PatchedSlice(FileOf(s, k).bytes, FileOf(s, k).size, bytes);
  }

  // ---------------------------------------------------------------- runs

  ghost predicate IsRun(stores: seq<Store>, ops: seq<Op>) {
    && |stores| == |ops| + 1
    && forall i :: 0 <= i < |ops| ==> Enabled(stores[i], ops[i]) && stores[i + 1] == Next(stores[i], ops[i])
  }

  /** A write to byte `p` of file `num`. */
  predicate Overwrites(s: Store, op: Op, num: nat, p: nat) {
    && op.Write? && InUse(s, op.k)
    && var d := s.descs[op.k].value;
       d.num == num && d.pos <= p < d.pos + |op.bytes|
  }

  predicate Removes(s: Store, op: Op, num: nat) {
    op == Unlink(num) && Removable(s, num)
  }

  lemma StepSpares(s: Store, op: Op, num: nat, p: nat)
    requires Enabled(s, op) && num in s.files && p < |s.files[num].bytes|
    requires !Overwrites(s, op, num, p) && !Removes(s, op, num)
    ensures var s' := Next(s, op);
            num in s'.files && |s'.files[num].bytes| == |s.files[num].bytes| && s'.files[num].bytes[p] == s.files[num].bytes[p]
  {
  }

  lemma RunTail(stores: seq<Store>, ops: seq<Op>)
    requires IsRun(stores, ops) && ops != []
    ensures IsRun(stores[1..], ops[1..])
  {
    hide Enabled, Next;
    forall i | 0 <= i < |ops[1..]|
      ensures Enabled(stores[1..][i], ops[1..][i]) && stores[1..][i + 1] == Next(stores[1..][i], ops[1..][i])
    { assert stores[i + 1 + 1] == Next(stores[i + 1], ops[i + 1]); }
  }

  /** Whatever else happens to it and to other files, a byte stays until it is overwritten or its file removed. */
  lemma {:induction false} BytesStay(stores: seq<Store>, ops: seq<Op>, num: nat, p: nat)
    requires IsRun(stores, ops) && num in stores[0].files && p < |stores[0].files[num].bytes|
    requires forall j :: 0 <= j < |ops| ==> !Overwrites(stores[j], ops[j], num, p) && !Removes(stores[j], ops[j], num)
    ensures num in stores[|ops|].files && p < |stores[|ops|].files[num].bytes|
    ensures stores[|ops|].files[num].bytes[p] == stores[0].files[num].bytes[p]
    decreases |ops|
  {
    if ops != [] {
      assert stores[0 + 1] == Next(stores[0], ops[0]);
      StepSpares(stores[0], ops[0], num, p);
      RunTail(stores, ops);
      hide Enabled, Next, Overwrites, Removes;
      forall j | 0 <= j < |ops[1..]|
        ensures !Overwrites(stores[1..][j], ops[1..][j], num, p) && !Removes(stores[1..][j], ops[1..][j], num)
      { assert stores[1..][j] == stores[j + 1] && ops[1..][j] == ops[j + 1]; }
      BytesStay(stores[1..], ops[1..], num, p);
    }
  }

  /** After any run, a byte of a file is the one that the last write to it has put there. */
  lemma LastWriteStays(stores: seq<Store>, ops: seq<Op>, num: nat, p: nat)
    requires IsRun(stores, ops) && ops != [] && Overwrites(stores[0], ops[0], num, p)
    requires forall j :: 1 <= j < |ops| ==> !Overwrites(stores[j], ops[j], num, p) && !Removes(stores[j], ops[j], num)
    ensures num in stores[|ops|].files && p < |stores[|ops|].files[num].bytes|
    ensures stores[|ops|].files[num].bytes[p] == ops[0].bytes[p - stores[0].descs[ops[0].k].value.pos]
  {
    assert stores[0 + 1] == Next(stores[0], ops[0]);
    RunTail(stores, ops);
    forall j | 0 <= j < |ops[1..]|
      ensures !Overwrites(stores[1..][j], ops[1..][j], num, p) && !Removes(stores[1..][j], ops[1..][j], num)
    { assert stores[1..][j] == stores[j + 1] && ops[1..][j] == ops[j + 1]; }
    BytesStay(stores[1..], ops[1..], num, p);
  }
}
