/** The 1.44 MB FAT12 floppy image: built in place by the script, read back by its own rules. */
module Fat12 {
  import opened LittleEndian
  import opened Prelude

  const SECTOR := 512
  const DISK_SIZE := 2880 * SECTOR
  const FAT_SIZE := 9 * SECTOR
  const ROOT := SECTOR + 2 * FAT_SIZE
  const DATA := ROOT + 224 * 32
  /** One past the last cluster whose sector lies on the disk. */
  const CLUSTERS := 2849
  const END_OF_CHAIN := 0xFFF

  datatype Error = BadBootSector | WrongLayout | DoesNotFit

  datatype File = File(name: seq<bv8>, data: seq<bv8>)
  {
    function Count(): nat { (|data| + SECTOR - 1) / SECTOR }
  }

  // ---- 12-bit entries, two to three bytes ----

  function Pair(lo: bv8, hi: bv8): bv16 { lo as bv16 | ((hi as bv16) << 8) }
  function Low(p: bv16): bv8 { (p & 0xFF) as bv8 }
  function High(p: bv16): bv8 { (p >> 8) as bv8 }

  /** A number as a 16-bit word, and back. */
  function Word(n: nat): bv16
    requires n < 0x1_0000
  {
    Pair(Le16(n)[0], Le16(n)[1])
  }

  function Number(p: bv16): nat { FromLe16([Low(p), High(p)]) }

  function Mixed(odd: bool, pair: bv16, next: bv16): bv16 {
    if odd then (pair & 0x000F) | (next << 4) else (pair & 0xF000) | next
  }

  function Field(odd: bool, pair: bv16): bv16 {
    if odd then pair >> 4 else pair & 0x0FFF
  }

  function Offset(c: nat): nat { c * 3 / 2 }

  predicate InFat(fat: seq<bv8>, c: nat) {
    Offset(c) + 1 < |fat|
  }

  function Entry(fat: seq<bv8>, c: nat): nat
    requires InFat(fat, c)
  {
    Number(Field(c % 2 == 1, Pair(fat[Offset(c)], fat[Offset(c) + 1])))
  }

  function WithEntry(fat: seq<bv8>, c: nat, next: nat): (r: seq<bv8>)
    requires InFat(fat, c) && next < 0x1000
    ensures |r| == |fat|
  {
    var p := Mixed(c % 2 == 1, Pair(fat[Offset(c)], fat[Offset(c) + 1]), Word(next));
    fat[Offset(c) := Low(p)][Offset(c) + 1 := High(p)]
  }

  lemma Split(p: bv16)
    ensures Pair(Low(p), High(p)) == p
  {
  }

  lemma FourBits(n: nat)
    requires n < 16
    ensures n as bv8 <= 0x0F
  {
  }

  lemma TwelveBitWord(lo: bv8, hi: bv8)
    requires hi <= 0x0F
    ensures Pair(lo, hi) <= 0x0FFF
  {
  }

  lemma WordRoundTrip(n: nat)
    requires n < 0x1000
    ensures Number(Word(n)) == n
    ensures Word(n) <= 0x0FFF
  {
    HalvesOfPair(Le16(n)[0], Le16(n)[1]);
    FourBits(n / 256);
    TwelveBitWord(Le16(n)[0], Le16(n)[1]);
    Le16RoundTrip(n);
    hide FromLe16, Pair, Low, High;
    assert [Le16(n)[0], Le16(n)[1]] == Le16(n);
  }

  lemma FieldWritten(odd: bool, pair: bv16, next: bv16)
    requires next <= 0x0FFF
    ensures Field(odd, Mixed(odd, pair, next)) == next
  {
  }

  /** The byte that an even entry shares with the odd one after it. */
  lemma HighNibbleKept(pair: bv16, next: bv16, b: bv8)
    requires next <= 0x0FFF
    ensures Field(true, Pair(High(Mixed(false, pair, next)), b)) == Field(true, Pair(High(pair), b))
  {
  }

  lemma LowNibbleKept(pair: bv16, next: bv16, b: bv8)
    requires next <= 0x0FFF
    ensures Field(false, Pair(b, Low(Mixed(true, pair, next)))) == Field(false, Pair(b, Low(pair)))
  {
  }

  lemma HalvesOfPair(lo: bv8, hi: bv8)
    ensures Low(Pair(lo, hi)) == lo && High(Pair(lo, hi)) == hi
  {
  }

  /** Two entries share a byte only when one is even and the other comes right after it. */
  lemma Offsets(c: nat, other: nat)
    requires c != other
    ensures other == c + 1 && c % 2 == 0 ==> Offset(other) == Offset(c) + 1
    ensures other + 1 == c && c % 2 == 1 ==> Offset(other) + 1 == Offset(c)
    ensures !(other == c + 1 && c % 2 == 0) && !(other + 1 == c && c % 2 == 1)
            ==> Offset(other) + 1 < Offset(c) || Offset(other) > Offset(c) + 1
  {
    assert c == 2 * (c / 2) + c % 2 && other == 2 * (other / 2) + other % 2;
    assert Offset(c) == 3 * (c / 2) + c % 2;
    assert Offset(other) == 3 * (other / 2) + other % 2;
  }

  lemma EntrySet(fat: seq<bv8>, c: nat, next: nat)
    requires InFat(fat, c) && next < 0x1000
    ensures Entry(WithEntry(fat, c, next), c) == next
  {
    var pair := Pair(fat[Offset(c)], fat[Offset(c) + 1]);
    WordRoundTrip(next);
    FieldWritten(c % 2 == 1, pair, Word(next));
    Split(Mixed(c % 2 == 1, pair, Word(next)));
    hide Pair, Low, High, Mixed, Field, Word, Number, Offset;
  }

  lemma NextEntryKept(fat: seq<bv8>, c: nat, next: nat)
    requires InFat(fat, c + 1) && next < 0x1000 && c % 2 == 0
    ensures InFat(fat, c) && Entry(WithEntry(fat, c, next), c + 1) == Entry(fat, c + 1)
  {
    Offsets(c, c + 1);
    var o := Offset(c);
    WordRoundTrip(next);
    HalvesOfPair(fat[o], fat[o + 1]);
    HighNibbleKept(Pair(fat[o], fat[o + 1]), Word(next), fat[o + 2]);
    hide Pair, Low, High, Mixed, Field, Word, Number, Offset;
  }

  lemma EntryBeforeKept(fat: seq<bv8>, c: nat, next: nat)
    requires InFat(fat, c) && next < 0x1000 && c % 2 == 1
    ensures InFat(fat, c - 1) && Entry(WithEntry(fat, c, next), c - 1) == Entry(fat, c - 1)
  {
    Offsets(c, c - 1);
    var o := Offset(c);
    WordRoundTrip(next);
    HalvesOfPair(fat[o], fat[o + 1]);
    LowNibbleKept(Pair(fat[o], fat[o + 1]), Word(next), fat[o - 1]);
    hide Pair, Low, High, Mixed, Field, Word, Number, Offset;
  }

  lemma EntryKept(fat: seq<bv8>, c: nat, next: nat, other: nat)
    requires InFat(fat, c) && next < 0x1000 && InFat(fat, other) && other != c
    ensures Entry(WithEntry(fat, c, next), other) == Entry(fat, other)
  {
    hide Pair, Low, High, Mixed, Field, Word, Number;
    Offsets(c, other);
    hide Offset;
    if other == c + 1 && c % 2 == 0 {
      NextEntryKept(fat, c, next);
    } else if other + 1 == c && c % 2 == 1 {
      EntryBeforeKept(fat, c, next);
    }
  }

  /** Writing one entry sets it and changes no other, whichever byte they share. */
  lemma EntryWritten(fat: seq<bv8>, c: nat, next: nat, other: nat)
    requires InFat(fat, c) && next < 0x1000 && InFat(fat, other)
    ensures Entry(WithEntry(fat, c, next), other) == if other == c then next else Entry(fat, other)
  {
    hide Entry, WithEntry;
    if other == c {
      EntrySet(fat, c, next);
    } else {
      EntryKept(fat, c, next, other);
    }
  }

  /** The format: three bytes hold an even entry and the odd one after it. */
  lemma ThreeBytesTwoEntries(fat: seq<bv8>, c: nat)
    requires c % 2 == 0 && InFat(fat, c + 1)
    ensures Offset(c) == 3 * (c / 2) && Offset(c) + 2 < |fat|
    ensures var a, b, d := fat[Offset(c)], fat[Offset(c) + 1], fat[Offset(c) + 2];
            && Entry(fat, c) == FromLe16([a, b & 0x0F])
            && Entry(fat, c + 1) == FromLe16([(b >> 4) | (d << 4), d >> 4])
  {
    hide FromLe16, Pair, Field, Low, High, Offset;
    EvenOffset(c);
    FieldBytes(fat[Offset(c)], fat[Offset(c) + 1]);
    FieldBytes(fat[Offset(c) + 1], fat[Offset(c) + 2]);
  }

  lemma EvenOffset(c: nat)
    requires c % 2 == 0
    ensures Offset(c) == 3 * (c / 2) && Offset(c + 1) == Offset(c) + 1
  {
    assert c == 2 * (c / 2);
  }

  lemma FieldBytes(lo: bv8, hi: bv8)
    ensures Low(Field(false, Pair(lo, hi))) == lo && High(Field(false, Pair(lo, hi))) == hi & 0x0F
    ensures Low(Field(true, Pair(lo, hi))) == (lo >> 4) | (hi << 4) && High(Field(true, Pair(lo, hi))) == hi >> 4
  {
  }

  // ---- reading a file back ----

  /** The clusters of a chain, or None if it leaves the disk or does not end within `fuel` steps. */
  function Walk(fat: seq<bv8>, c: nat, fuel: nat): Option<seq<nat>>
    decreases fuel
  {
    if fuel == 0 || c < 2 || c >= CLUSTERS || !InFat(fat, c) then None
    else if Entry(fat, c) >= 0xFF8 then Some([c])
    else
      match Walk(fat, Entry(fat, c), fuel - 1)
      case None => None
      case Some(rest) => Some([c] + rest)
  }

  function At(cluster: nat): nat
    requires cluster >= 2
  {
    DATA + (cluster - 2) * SECTOR
  }

  function Gather(disk: seq<bv8>, chain: seq<nat>): seq<bv8>
    requires |disk| == DISK_SIZE
  {
    if chain == [] then []
    else if 2 <= chain[0] < CLUSTERS then disk[At(chain[0])..At(chain[0]) + SECTOR] + Gather(disk, chain[1..])
    else Gather(disk, chain[1..])
  }

  function FatCopy(disk: seq<bv8>, copy: nat): (r: seq<bv8>)
    requires |disk| == DISK_SIZE && copy < 2
    ensures |r| == FAT_SIZE
  {
    disk[SECTOR + copy * FAT_SIZE..SECTOR + copy * FAT_SIZE + FAT_SIZE]
  }

  function Slot(disk: seq<bv8>, k: nat): (r: seq<bv8>)
    requires |disk| == DISK_SIZE && k < 224
    ensures |r| == 32
  {
    disk[ROOT + k * 32..ROOT + k * 32 + 32]
  }

  /** The contents of the `k`-th file, following the chain in one of the two FATs. */
  function ReadFile(disk: seq<bv8>, copy: nat, k: nat): Option<seq<bv8>>
    requires |disk| == DISK_SIZE && copy < 2 && k < 224
  {
    var slot := Slot(disk, k);
    var size := FromLe32(slot[28..32]);
    match Walk(FatCopy(disk, copy), FromLe16(slot[26..28]), CLUSTERS - 2)
    case None => None
    case Some(chain) =>
      var bytes := Gather(disk, chain);
      if |bytes| < size then None else Some(bytes[..size])
  }

  // ---- what the builder lays out ----

  function Clusters(files: seq<File>): nat {
    if files == [] then 0 else Clusters(files[..|files| - 1]) + files[|files| - 1].Count()
  }

  function Start(files: seq<File>, k: nat): (r: nat)
    requires k <= |files|
    ensures r >= 2
  {
    2 + Clusters(files[..k])
  }

  function Chain(start: nat, count: nat): (r: seq<nat>)
    ensures |r| == count && forall k :: 0 <= k < count ==> r[k] == start + k
  {
    seq(count, k => start + k)
  }

  /** No file is empty, and the sectors they need exist. */
  predicate Fits(files: seq<File>) {
    (forall k :: 0 <= k < |files| ==> files[k].data != []) && 2 + Clusters(files) <= CLUSTERS
  }

  predicate GoodBoot(boot: seq<bv8>) {
    |boot| == SECTOR && boot[510..] == [0x55, 0xAA]
  }

  predicate GoodLayout(boot: seq<bv8>)
    requires |boot| == SECTOR
  {
    && FromLe16(boot[11..13]) == SECTOR && boot[13] == 1 && FromLe16(boot[14..16]) == 1 && boot[16] == 2
    && FromLe16(boot[17..19]) == 224 && FromLe16(boot[19..21]) == 2880 && FromLe16(boot[22..24]) == 9
  }

  function Zeros(n: nat): (r: seq<bv8>)
    ensures |r| == n && forall k :: 0 <= k < n ==> r[k] == 0
  {
    seq(n, _ => 0)
  }

  function DirectoryEntry(f: File, start: nat): (r: seq<bv8>)
    requires |f.name| == 11 && start < 0x1_0000 && |f.data| < U32
    ensures |r| == 32
  {
    f.name + [0x20] + Zeros(14) + Le16(start) + Le32(|f.data|)
  }

  ghost predicate Linked(fat: seq<bv8>, start: nat, count: nat)
    requires |fat| == FAT_SIZE && start + count <= CLUSTERS
  {
    forall c {:trigger Entry(fat, c)} :: start <= c < start + count ==>
                                           Entry(fat, c) == if c + 1 < start + count then c + 1 else END_OF_CHAIN
  }

  /** File `k` is entered in the directory and its bytes lie in its clusters. */
  ghost predicate Stored(disk: seq<bv8>, f: File, k: nat, start: nat)
    requires |disk| == DISK_SIZE && k < 224
  {
    && |f.name| == 11 && start >= 2 && start + f.Count() <= CLUSTERS
    && Slot(disk, k) == DirectoryEntry(f, start)
    && disk[At(start)..At(start) + |f.data|] == f.data
  }

  /** The first `n` files are on the disk and in the FAT; the rest of both is unused. */
  ghost predicate Laid(disk: seq<bv8>, fat: seq<bv8>, files: seq<File>, n: nat)
    requires |disk| == DISK_SIZE && |fat| == FAT_SIZE && n <= |files| && n <= 224
  {
    && Start(files, n) <= CLUSTERS
    && (forall k :: 0 <= k < n ==> Stored(disk, files[k], k, Start(files, k)))
    && (forall k :: 0 <= k < n ==> Start(files, k) + files[k].Count() <= CLUSTERS
                                   && Linked(fat, Start(files, k), files[k].Count()))
    && (forall k :: n <= k < 224 ==> Slot(disk, k) == Zeros(32))
    && (forall c :: Start(files, n) <= c < CLUSTERS ==> Entry(fat, c) == 0)
  }

  lemma {:induction false} WalkFollows(fat: seq<bv8>, start: nat, count: nat, fuel: nat)
    requires |fat| == FAT_SIZE && 2 <= start && start + count <= CLUSTERS
    requires 0 < count <= fuel && Linked(fat, start, count)
    ensures Walk(fat, start, fuel) == Some(Chain(start, count))
    decreases count
  {
    hide Entry;
    assert Entry(fat, start) == if count > 1 then start + 1 else END_OF_CHAIN;
    if count > 1 {
      WalkFollows(fat, start + 1, count - 1, fuel - 1);
      assert [start] + Chain(start + 1, count - 1) == Chain(start, count);
    } else {
      assert [start] == Chain(start, count);
    }
  }

  lemma {:induction false} GatherChain(disk: seq<bv8>, start: nat, count: nat)
    requires |disk| == DISK_SIZE && 2 <= start && start + count <= CLUSTERS
    ensures Gather(disk, Chain(start, count)) == disk[At(start)..At(start) + count * SECTOR]
    decreases count
  {
    if count > 0 {
      GatherChain(disk, start + 1, count - 1);
      assert Chain(start, count)[1..] == Chain(start + 1, count - 1);
    }
  }

  lemma EntryReadsBack(disk: seq<bv8>, f: File, k: nat, start: nat)
    requires |disk| == DISK_SIZE && k < 224
    requires |f.name| == 11 && start < CLUSTERS && |f.data| < U32
    requires Slot(disk, k) == DirectoryEntry(f, start)
    ensures Slot(disk, k)[..11] == f.name
    ensures FromLe16(Slot(disk, k)[26..28]) == start
    ensures FromLe32(Slot(disk, k)[28..32]) == |f.data|
  {
    hide FromLe16, FromLe32, Le16, Le32;
    var slot := Slot(disk, k);
    assert slot[26..28] == Le16(start);
    assert slot[28..32] == Le32(|f.data|);
    Le16RoundTrip(start);
    Le32RoundTrip(|f.data|);
  }

  lemma CountCovers(f: File)
    ensures f.Count() * SECTOR >= |f.data|
    ensures f.Count() > 0 <==> f.data != []
  {
  }

  lemma GatherFile(disk: seq<bv8>, f: File, start: nat)
    requires |disk| == DISK_SIZE && start >= 2 && start + f.Count() <= CLUSTERS
    requires At(start) + |f.data| <= DISK_SIZE && disk[At(start)..At(start) + |f.data|] == f.data
    ensures |f.data| <= |Gather(disk, Chain(start, f.Count()))|
    ensures Gather(disk, Chain(start, f.Count()))[..|f.data|] == f.data
  {
    CountCovers(f);
    GatherChain(disk, start, f.Count());
    hide Gather, File.Count;
    assert disk[At(start)..At(start) + f.Count() * SECTOR][..|f.data|] == disk[At(start)..At(start) + |f.data|];
  }

  /** A file that is stored and linked is read back whole. */
  lemma ReadsBack(disk: seq<bv8>, copy: nat, f: File, k: nat, start: nat)
    requires |disk| == DISK_SIZE && copy < 2 && k < 224
    requires Stored(disk, f, k, start) && f.data != [] && Linked(FatCopy(disk, copy), start, f.Count())
    ensures Walk(FatCopy(disk, copy), start, CLUSTERS - 2) == Some(Chain(start, f.Count()))
    ensures ReadFile(disk, copy, k) == Some(f.data)
  {
    EntryReadsBack(disk, f, k, start);
    GatherFile(disk, f, start);
    CountCovers(f);
    hide FromLe16, FromLe32, DirectoryEntry, Slot, Gather, Walk;
    WalkFollows(FatCopy(disk, copy), start, f.Count(), CLUSTERS - 2);
  }

  lemma {:induction false} ClustersGrow(files: seq<File>, j: nat, k: nat)
    requires j < k <= |files|
    ensures Start(files, j) + files[j].Count() <= Start(files, k)
    decreases k
  {
    assert files[..k][..k - 1] == files[..k - 1];
    if j < k - 1 {
      ClustersGrow(files, j, k - 1);
    }
  }

  /** The chains of different files have no cluster in common. */
  lemma ChainsAreDisjoint(files: seq<File>, j: nat, k: nat, c: nat)
    requires j < k < |files|
    requires c in Chain(Start(files, j), files[j].Count())
    ensures c !in Chain(Start(files, k), files[k].Count())
  {
    ClustersGrow(files, j, k);
  }

  /** The first file begins with the first data sector, each one behind the one before. */
  lemma StartsAreConsecutive(files: seq<File>, k: nat)
    requires k < |files|
    ensures Start(files, 0) == 2 && At(2) == 33 * SECTOR
    ensures Start(files, k + 1) == Start(files, k) + files[k].Count()
  {
    assert files[..0] == [] && files[..k + 1][..k] == files[..k];
  }

  /** The files fill the clusters without a gap. */
  lemma {:induction false} ClustersAreFilled(files: seq<File>, n: nat, c: nat) returns (k: nat)
    requires n <= |files| && 2 <= c < Start(files, n)
    ensures k < n && c in Chain(Start(files, k), files[k].Count())
    decreases n
  {
    hide Start, File.Count, Clusters;
    if n == 0 {
      assert false by { NoClusters(files); }
    } else {
      StartsAreConsecutive(files, n - 1);
      if c < Start(files, n - 1) {
        k := ClustersAreFilled(files, n - 1, c);
      } else {
        k := n - 1;
        assert Chain(Start(files, k), files[k].Count())[c - Start(files, k)] == c;
      }
    }
  }

  lemma NoClusters(files: seq<File>)
    ensures Start(files, 0) == 2
  {
    assert files[..0] == [];
  }

  // ---- the in-place writes ----

  /** `s` with `bytes` laid over it from position `a` on. */
  function Over(s: seq<bv8>, a: nat, bytes: seq<bv8>): (r: seq<bv8>)
    requires a + |bytes| <= |s|
    ensures |r| == |s| && r[a..a + |bytes|] == bytes
    ensures forall lo, hi :: 0 <= lo <= hi <= |s| && (hi <= a || a + |bytes| <= lo) ==> r[lo..hi] == s[lo..hi]
  {
    s[..a] + bytes + s[a + |bytes|..]
  }

  lemma OverNext(s: seq<bv8>, a: nat, x: seq<bv8>, y: seq<bv8>)
    requires a + |x| + |y| <= |s|
    ensures Over(Over(s, a, x), a + |x|, y) == Over(s, a, x + y)
  {
  }

  /** The fourteen bytes after the attribute are zero already. */
  lemma OverGap(s: seq<bv8>, k: nat, x: seq<bv8>)
    requires |s| == DISK_SIZE && k < 224 && |x| == 12 && Slot(s, k) == Zeros(32)
    ensures Over(s, ROOT + k * 32, x + Zeros(14)) == Over(s, ROOT + k * 32, x)
  {
    var e := ROOT + k * 32;
    var l, r := Over(s, e, x + Zeros(14)), Over(s, e, x);
    forall i | 0 <= i < |s|
      ensures l[i] == r[i]
    {
      if e + 12 <= i < e + 26 { assert s[i] == Slot(s, k)[i - e]; }
    }
  }

  method Store(to: array<bv8>, a: nat, bytes: seq<bv8>)
    requires a + |bytes| <= to.Length
    modifies to
    ensures to[..] == Over(old(to[..]), a, bytes)
  {
    for k := 0 to |bytes|
      invariant to[..] == Over(old(to[..]), a, bytes[..k])
    {
      to[a + k] := bytes[k];
    }
    assert bytes[..|bytes|] == bytes;
  }

  /** The mask and shift for an odd entry or an even one. */
  method Blend(odd: bool, pair: bv16, next: bv16) returns (r: bv16)
    ensures r == Mixed(odd, pair, next)
  {
    if odd {
      r := (pair & 0x000F) | (next << 4);
    } else {
      r := (pair & 0xF000) | next;
    }
  }

  method SetEntry(fat: array<bv8>, current: nat, next: nat)
    requires fat.Length == FAT_SIZE && current < CLUSTERS && next < 0x1000
    modifies fat
    ensures fat[..] == WithEntry(old(fat[..]), current, next)
  {
    hide Pair, Low, High, Word, Mixed;
    var offset := current * 3 / 2;
    var pair := Pair(fat[offset], fat[offset + 1]);
    pair := Blend(current % 2 == 1, pair, Word(next));
    fat[offset] := Low(pair);
    fat[offset + 1] := High(pair);
  }

  /** Chains `count` clusters from `cluster` on and touches no other entry. */
  method Link(fat: array<bv8>, cluster: nat, count: nat)
    requires fat.Length == FAT_SIZE && 2 <= cluster && cluster + count <= CLUSTERS
    modifies fat
    ensures Linked(fat[..], cluster, count)
    ensures forall c :: 0 <= c < CLUSTERS && !(cluster <= c < cluster + count) ==> Entry(fat[..], c) == old(Entry(fat[..], c))
    ensures fat[..3] == old(fat[..3])
  {
    hide Entry, WithEntry;
    var end := cluster + count;
    var current := cluster;
    while current < end
      invariant cluster <= current <= end
      invariant forall c {:trigger Entry(fat[..], c)} :: cluster <= c < current ==>
                                                           Entry(fat[..], c) == if c + 1 < end then c + 1 else END_OF_CHAIN
      invariant forall c :: 0 <= c < CLUSTERS && !(cluster <= c < current) ==> Entry(fat[..], c) == old(Entry(fat[..], c))
      invariant fat[..3] == old(fat[..3])
    {
      ghost var was := fat[..];
      var next := if current + 1 < end then current + 1 else END_OF_CHAIN;
      SetEntry(fat, current, next);
      HeadKept(was, current, next);
      forall c | 0 <= c < CLUSTERS
        ensures Entry(fat[..], c) == if c == current then next else Entry(was, c)
      {
        EntryWritten(was, current, next, c);
      }
      current := current + 1;
    }
  }

  lemma HeadKept(fat: seq<bv8>, c: nat, next: nat)
    requires |fat| == FAT_SIZE && 2 <= c < CLUSTERS && next < 0x1000
    ensures WithEntry(fat, c, next)[..3] == fat[..3]
  {
    assert Offset(c) >= 3;
  }

  /** What the stores of a directory entry leave: 12 bytes, 14 that are not touched, and 6 more. */
  function EntryOver(s: seq<bv8>, e: nat, f: File, cluster: nat): (r: seq<bv8>)
    requires e + 32 <= |s| && |f.name| == 11 && cluster < 0x1_0000 && |f.data| < U32
    ensures |r| == |s|
  {
    Over(Over(s, e, f.name + [0x20]), e + 26, Le16(cluster) + Le32(|f.data|))
  }

  /** The directory entry of file `index`, wherever it comes to lie. */
  method Enter(disk: array<bv8>, index: nat, f: File, cluster: nat)
    requires disk.Length == DISK_SIZE && ROOT + index * 32 + 32 <= DISK_SIZE
    requires |f.name| == 11 && cluster < CLUSTERS && |f.data| < U32
    modifies disk
    ensures disk[..] == EntryOver(old(disk[..]), ROOT + index * 32, f, cluster)
  {
    hide Le16, Le32;
    ghost var was := disk[..];
    var entry := ROOT + index * 32;
    Store(disk, entry, f.name);
    ghost var named := disk[..];
    disk[entry + 11] := 0x20;
    ghost var marked := disk[..];
    assert marked == Over(named, entry + 11, [0x20]);
    Store(disk, entry + 26, Le16(cluster));
    Store(disk, entry + 28, Le32(|f.data|));
    hide Over;
    OverNext(was, entry, f.name, [0x20]);
    OverNext(marked, entry + 26, Le16(cluster), Le32(|f.data|));
  }

  /** In an unused slot this is a whole directory entry. */
  lemma EnteredInSlot(s: seq<bv8>, k: nat, f: File, cluster: nat)
    requires |s| == DISK_SIZE && k < 224 && Slot(s, k) == Zeros(32)
    requires |f.name| == 11 && cluster < 0x1_0000 && |f.data| < U32
    ensures EntryOver(s, ROOT + k * 32, f, cluster) == Over(s, ROOT + k * 32, DirectoryEntry(f, cluster))
  {
    var e := ROOT + k * 32;
    OverGap(s, k, f.name + [0x20]);
    hide Le16, Le32, Slot;
    assert DirectoryEntry(f, cluster) == (f.name + [0x20] + Zeros(14)) + (Le16(cluster) + Le32(|f.data|));
    hide Over;
    OverNext(s, e, f.name + [0x20] + Zeros(14), Le16(cluster) + Le32(|f.data|));
  }

  // ---- the whole image ----

  /** One more file, written to the unused slot `n` and the unused clusters, as a value. */
  function Added(disk: seq<bv8>, f: File, n: nat, start: nat): (r: seq<bv8>)
    requires |disk| == DISK_SIZE && n < 224 && |f.name| == 11
    requires start >= 2 && start + f.Count() <= CLUSTERS
    ensures |r| == DISK_SIZE
  {
    CountCovers(f);
    Over(Over(disk, ROOT + n * 32, DirectoryEntry(f, start)), At(start), f.data)
  }

  lemma AddedIsStored(disk: seq<bv8>, f: File, n: nat, start: nat)
    requires |disk| == DISK_SIZE && n < 224 && |f.name| == 11
    requires start >= 2 && start + f.Count() <= CLUSTERS
    ensures Stored(Added(disk, f, n, start), f, n, start)
  {
    CountCovers(f);
    hide DirectoryEntry;
  }

  lemma AddedKeeps(disk: seq<bv8>, f: File, n: nat, start: nat, other: File, k: nat, at: nat)
    requires |disk| == DISK_SIZE && n < 224 && |f.name| == 11 && k < 224 && k != n
    requires start >= 2 && start + f.Count() <= CLUSTERS
    ensures Slot(Added(disk, f, n, start), k) == Slot(disk, k)
    ensures Added(disk, f, n, start)[..SECTOR] == disk[..SECTOR]
    ensures Stored(disk, other, k, at) && at + other.Count() <= start ==> Stored(Added(disk, f, n, start), other, k, at)
  {
    CountCovers(f);
    CountCovers(other);
    hide DirectoryEntry, File.Count;
    assert disk[..SECTOR] == disk[0..SECTOR];
    assert Added(disk, f, n, start)[..SECTOR] == Added(disk, f, n, start)[0..SECTOR];
  }

  lemma AddedKeepsBoot(disk: seq<bv8>, f: File, n: nat, start: nat)
    requires |disk| == DISK_SIZE && n < 224 && |f.name| == 11
    requires start >= 2 && start + f.Count() <= CLUSTERS
    ensures Added(disk, f, n, start)[..SECTOR] == disk[..SECTOR]
  {
    AddedKeeps(disk, f, n, start, f, if n == 0 then 1 else 0, start);
  }

  lemma NextStart(files: seq<File>, n: nat)
    requires n < |files|
    ensures Start(files, n + 1) == Start(files, n) + files[n].Count()
  {
    assert files[..n + 1][..n] == files[..n];
  }

  lemma OneMoreLaid(disk: seq<bv8>, fat: seq<bv8>, files: seq<File>, n: nat, fat': seq<bv8>)
    requires |disk| == DISK_SIZE && |fat| == |fat'| == FAT_SIZE && n < |files| && n < 224
    requires Laid(disk, fat, files, n) && |files[n].name| == 11 && Start(files, n) + files[n].Count() <= CLUSTERS
    requires Linked(fat', Start(files, n), files[n].Count())
    requires forall c :: 0 <= c < CLUSTERS && !(Start(files, n) <= c < Start(files, n) + files[n].Count())
                         ==> Entry(fat', c) == Entry(fat, c)
    ensures Laid(Added(disk, files[n], n, Start(files, n)), fat', files, n + 1)
  {
    hide Entry, Stored, Added, Slot, Start, File.Count;
    var f, start := files[n], Start(files, n);
    NextStart(files, n);
    AddedIsStored(disk, f, n, start);
    forall k | 0 <= k < n
      ensures Stored(Added(disk, f, n, start), files[k], k, Start(files, k))
      ensures Start(files, k) + files[k].Count() <= start && Linked(fat', Start(files, k), files[k].Count())
    {
      ClustersGrow(files, k, n);
      AddedKeeps(disk, f, n, start, files[k], k, Start(files, k));
    }
    forall k | n + 1 <= k < 224
      ensures Slot(Added(disk, f, n, start), k) == Slot(disk, k)
    {
      AddedKeeps(disk, f, n, start, f, k, start);
    }
  }

  lemma NothingLaid(disk: seq<bv8>, fat: seq<bv8>, files: seq<File>)
    requires |disk| == DISK_SIZE && |fat| == FAT_SIZE
    requires forall k :: ROOT <= k < DATA ==> disk[k] == 0
    requires forall k :: 3 <= k < FAT_SIZE ==> fat[k] == 0
    ensures Laid(disk, fat, files, 0)
  {
    forall k | 0 <= k < 224
      ensures Slot(disk, k) == Zeros(32)
    {
    }
    forall c | 2 <= c < CLUSTERS
      ensures Entry(fat, c) == 0
    {
      assert fat[Offset(c)] == 0 && fat[Offset(c) + 1] == 0;
    }
  }

  /** The image reads back as the files it was made from, through either FAT. */
  ghost predicate Image(disk: seq<bv8>, boot: seq<bv8>, files: seq<File>) {
    && |disk| == DISK_SIZE && |boot| == SECTOR && |files| <= 224
    && disk[..SECTOR] == boot
    && FatCopy(disk, 0) == FatCopy(disk, 1)
    && FatCopy(disk, 0)[..3] == [boot[21], 0xFF, 0xFF]
    && (forall k :: 0 <= k < |files| ==> Readable(disk, files[k], k, Start(files, k)))
    && (forall k :: |files| <= k < 224 ==> Slot(disk, k) == Zeros(32))
    && (forall c :: Start(files, |files|) <= c < CLUSTERS ==> Entry(FatCopy(disk, 0), c) == 0)
  }

  predicate Readable(disk: seq<bv8>, f: File, k: nat, start: nat)
    requires |disk| == DISK_SIZE && k < 224
  {
    && Slot(disk, k)[..11] == f.name && Slot(disk, k)[11] == 0x20
    && FromLe16(Slot(disk, k)[26..28]) == start
    && Walk(FatCopy(disk, 0), start, CLUSTERS - 2) == Some(Chain(start, f.Count()))
    && ReadFile(disk, 0, k) == Some(f.data) && ReadFile(disk, 1, k) == Some(f.data)
  }

  lemma StoredIsReadable(disk: seq<bv8>, f: File, k: nat, start: nat)
    requires |disk| == DISK_SIZE && k < 224 && Stored(disk, f, k, start) && f.data != []
    requires Linked(FatCopy(disk, 0), start, f.Count()) && Linked(FatCopy(disk, 1), start, f.Count())
    ensures Readable(disk, f, k, start)
  {
    CountCovers(f);
    assert DirectoryEntry(f, start)[11] == 0x20;
    EntryReadsBack(disk, f, k, start);
    ReadsBack(disk, 0, f, k, start);
    ReadsBack(disk, 1, f, k, start);
    hide Stored, Linked, FatCopy, ReadFile, Walk, DirectoryEntry, FromLe16;
  }

  lemma LaidIsImage(disk: seq<bv8>, fat: seq<bv8>, boot: seq<bv8>, files: seq<File>)
    requires |disk| == DISK_SIZE && |fat| == FAT_SIZE && |boot| == SECTOR && |files| <= 224
    requires Laid(disk, fat, files, |files|) && forall k :: 0 <= k < |files| ==> files[k].data != []
    requires disk[..SECTOR] == boot && fat[..3] == [boot[21], 0xFF, 0xFF]
    requires FatCopy(disk, 0) == fat && FatCopy(disk, 1) == fat
    ensures Image(disk, boot, files)
  {
    hide Entry, Linked, FatCopy, Slot, Stored, Readable;
    forall k | 0 <= k < |files|
      ensures Readable(disk, files[k], k, Start(files, k))
    {
      StoredIsReadable(disk, files[k], k, Start(files, k));
    }
  }

  lemma FileBeside(disk: seq<bv8>, fat: seq<bv8>, f: File, k: nat, start: nat)
    requires |disk| == DISK_SIZE && |fat| == FAT_SIZE && k < 224 && Stored(disk, f, k, start)
    ensures Stored(Over(Over(disk, SECTOR, fat), SECTOR + FAT_SIZE, fat), f, k, start)
  {
    CountCovers(f);
  }

  /** The two FATs go to sectors that hold no directory entry and no file. */
  lemma FatsBeside(disk: seq<bv8>, fat: seq<bv8>, files: seq<File>, r: seq<bv8>)
    requires |disk| == DISK_SIZE && |fat| == FAT_SIZE && |files| <= 224
    requires Laid(disk, fat, files, |files|)
    requires r == Over(Over(disk, SECTOR, fat), SECTOR + FAT_SIZE, fat)
    ensures Laid(r, fat, files, |files|)
    ensures r[..SECTOR] == disk[..SECTOR] && FatCopy(r, 0) == fat && FatCopy(r, 1) == fat
  {
    hide Entry, Linked, DirectoryEntry;
    forall k | 0 <= k < 224
      ensures Slot(r, k) == Slot(disk, k)
    {
    }
    forall k | 0 <= k < |files|
      ensures Stored(r, files[k], k, Start(files, k))
    {
      FileBeside(disk, fat, files[k], k, Start(files, k));
    }
    hide Stored;
  }

  /** The first file that is empty or too long is where the whole list fails to fit. */
  lemma FirstMisfit(files: seq<File>, i: nat)
    requires i < |files|
    requires files[i].Count() == 0 || Start(files, i) + files[i].Count() > CLUSTERS
    ensures !Fits(files)
  {
    CountCovers(files[i]);
    ClustersGrow(files, i, |files|);
    assert files[..|files|] == files;
  }

  /** The root directory is overrun: the first data sector begins with the name of the file numbered 224. */
  ghost predicate Overrun(disk: seq<bv8>, files: seq<File>) {
    && |disk| == DISK_SIZE && |files| > 224 && |files[224].name| == 11
    && disk[DATA..DATA + 11] == files[224].name
    && disk[ROOT + 26..ROOT + 28] == Le16(2)
  }

  ghost predicate Built(disk: seq<bv8>, fat: seq<bv8>, files: seq<File>, n: nat)
    requires |disk| == DISK_SIZE && |fat| == FAT_SIZE && n <= |files|
  {
    if n <= 224 then Laid(disk, fat, files, n) else Overrun(disk, files)
  }

  lemma ClusterField(disk: seq<bv8>)
    requires |disk| == DISK_SIZE
    ensures Slot(disk, 0)[26..28] == disk[ROOT + 26..ROOT + 28]
  {
    var l, r := Slot(disk, 0)[26..28], disk[ROOT + 26..ROOT + 28];
    assert l[0] == Slot(disk, 0)[26] == r[0] && l[1] == Slot(disk, 0)[27] == r[1];
  }

  /** A file whose bytes do not begin like that name does not read back. */
  lemma OverrunLosesFirst(disk: seq<bv8>, files: seq<File>, copy: nat)
    requires Overrun(disk, files) && copy < 2
    requires files[0].data != [] && files[0].data[0] != files[224].name[0]
    ensures ReadFile(disk, copy, 0) != Some(files[0].data)
  {
    var slot := Slot(disk, 0);
    ClusterField(disk);
    Le16RoundTrip(2);
    hide FromLe16, FromLe32, Le16, Entry;
    var w := Walk(FatCopy(disk, copy), 2, CLUSTERS - 2);
    if w.Some? {
      assert w.value != [] && w.value[0] == 2;
      var bytes := Gather(disk, w.value);
      assert bytes[0] == disk[DATA] == disk[DATA..DATA + 11][0];
      var size := FromLe32(slot[28..32]);
      if 0 < size <= |bytes| { assert bytes[..size][0] == bytes[0]; }
    }
  }

  /** 225 files of one byte fit, but only 224 entries do. */
  lemma {:induction false} OverfullFits(f: File, n: nat)
    requires f == File(seq(11, _ => 65), [0]) && n <= 2847
    ensures Fits(seq(n, _ => f)) && Clusters(seq(n, _ => f)) == n
  {
    if n > 0 {
      OverfullFits(f, n - 1);
      assert seq(n, _ => f)[..n - 1] == seq(n - 1, _ => f);
    }
  }

  /** The next directory entry and the next file's bytes, with room in the directory or without. */
  lemma AddedBeyond(disk: seq<bv8>, fat: seq<bv8>, files: seq<File>, n: nat, start: nat)
    requires |disk| == DISK_SIZE && |fat| == FAT_SIZE && 224 <= n < |files| && |files[n].name| == 11 && files[0].data != []
    requires n + 2 <= start && start + files[n].Count() <= CLUSTERS && files[n].data != [] && Built(disk, fat, files, n)
    ensures ROOT + n * 32 + 32 <= DISK_SIZE && |files[n].data| < U32
    ensures At(start) + |files[n].data| <= DISK_SIZE
    ensures var r := Over(EntryOver(disk, ROOT + n * 32, files[n], start), At(start), files[n].data);
            Overrun(r, files) && r[..SECTOR] == disk[..SECTOR]
  {
    CountCovers(files[n]);
    var e, f := ROOT + n * 32, files[n];
    if n == 224 { FirstEntryNames(disk, fat, files); }
    hide Laid, Le16, Le32, File.Count;
    var m := EntryOver(disk, e, f, start);
    var r := Over(m, At(start), f.data);
    assert r[ROOT + 26..ROOT + 28] == m[ROOT + 26..ROOT + 28] == disk[ROOT + 26..ROOT + 28];
    assert r[DATA..DATA + 11] == m[DATA..DATA + 11];
    assert r[0..SECTOR] == m[0..SECTOR] == disk[0..SECTOR];
    EntryName(disk, e, f, start);
  }

  lemma EntryName(s: seq<bv8>, e: nat, f: File, cluster: nat)
    requires e + 32 <= |s| && |f.name| == 11 && cluster < 0x1_0000 && |f.data| < U32
    ensures EntryOver(s, e, f, cluster)[e..e + 11] == f.name
    ensures forall lo, hi :: 0 <= lo <= hi <= |s| && (hi <= e || e + 32 <= lo) ==> EntryOver(s, e, f, cluster)[lo..hi] == s[lo..hi]
  {
    hide Le16, Le32;
    var m := Over(s, e, f.name + [0x20]);
    assert m[e..e + 12] == f.name + [0x20];
    assert m[e..e + 11] == m[e..e + 12][..11] == f.name;
  }

  /** Once all 224 entries are used, the first one names cluster 2. */
  lemma FirstEntryNames(disk: seq<bv8>, fat: seq<bv8>, files: seq<File>)
    requires |disk| == DISK_SIZE && |fat| == FAT_SIZE && |files| >= 224 && Laid(disk, fat, files, 224)
    ensures disk[ROOT + 26..ROOT + 28] == Le16(2)
  {
    hide Le16, Le32;
    assert Stored(disk, files[0], 0, Start(files, 0));
    assert files[..0] == [] && Start(files, 0) == 2;
    ClusterField(disk);
    assert Slot(disk, 0)[26..28] == Le16(2);
  }

  /** One round of the loop over the files. */
  method AddFile(disk: array<bv8>, fat: array<bv8>, files: seq<File>, index: nat, cluster: nat) returns (error: Option<Error>)
    requires disk.Length == DISK_SIZE && fat.Length == FAT_SIZE && disk != fat
    requires index < |files| && |files[index].name| == 11 && index + 2 <= cluster == Start(files, index)
    requires forall k :: 0 <= k < index ==> files[k].data != []
    requires Built(disk[..], fat[..], files, index)
    modifies disk, fat
    ensures error == (if files[index].data == [] || cluster + files[index].Count() > CLUSTERS then Some(DoesNotFit) else None)
    ensures error.Some? ==> !Fits(files)
    ensures error.None? ==> Built(disk[..], fat[..], files, index + 1) && Start(files, index + 1) == cluster + files[index].Count()
    ensures error.None? ==> disk[..][..SECTOR] == old(disk[..][..SECTOR]) && fat[..][..3] == old(fat[..][..3])
  {
    hide Linked, DirectoryEntry, Over, Slot, Entry, Stored, EntryOver, Overrun, Laid, Le16, Le32;
    var f := files[index];
    var count := f.Count();
    CountCovers(f);
    if count == 0 || DATA + (cluster - 2 + count) * SECTOR > disk.Length {
      FirstMisfit(files, index);
      return Some(DoesNotFit);
    }
    ghost var was, wasFat := disk[..], fat[..];
    Enter(disk, index, f, cluster);
    var start := DATA + (cluster - 2) * SECTOR;
    Store(disk, start, f.data);
    ghost var filled := disk[..];
    assert filled == Over(EntryOver(was, ROOT + index * 32, f, cluster), At(cluster), f.data);
    Link(fat, cluster, count);
    NextStart(files, index);
    if index < 224 {
      OneMoreIn(was, wasFat, files, index, fat[..]);
    } else {
      AddedBeyond(was, wasFat, files, index, cluster);
    }
    error := None;
  }

  lemma OneMoreIn(disk: seq<bv8>, fat: seq<bv8>, files: seq<File>, n: nat, fat': seq<bv8>)
    requires |disk| == DISK_SIZE && |fat| == |fat'| == FAT_SIZE && n < |files| && n < 224
    requires Laid(disk, fat, files, n) && |files[n].name| == 11 && Start(files, n) + files[n].Count() <= CLUSTERS
    requires Linked(fat', Start(files, n), files[n].Count())
    requires forall c :: 0 <= c < CLUSTERS && !(Start(files, n) <= c < Start(files, n) + files[n].Count())
                         ==> Entry(fat', c) == Entry(fat, c)
    ensures At(Start(files, n)) + |files[n].data| <= DISK_SIZE && |files[n].data| < U32
    ensures var r := Over(EntryOver(disk, ROOT + n * 32, files[n], Start(files, n)), At(Start(files, n)), files[n].data);
            Laid(r, fat', files, n + 1) && r[..SECTOR] == disk[..SECTOR]
  {
    CountCovers(files[n]);
    var start := Start(files, n);
    assert Slot(disk, n) == Zeros(32);
    EnteredInSlot(disk, n, files[n], start);
    OneMoreLaid(disk, fat, files, n, fat');
    AddedKeepsBoot(disk, files[n], n, start);
    hide Laid, Linked, Entry, EntryOver, Slot, Start, File.Count, Over, DirectoryEntry;
  }

  /** The loop over the files. */
  method AddFiles(disk: array<bv8>, fat: array<bv8>, files: seq<File>) returns (error: Option<Error>)
    requires disk.Length == DISK_SIZE && fat.Length == FAT_SIZE && disk != fat
    requires forall k :: 0 <= k < |files| ==> |files[k].name| == 11
    requires Laid(disk[..], fat[..], files, 0)
    modifies disk, fat
    ensures error == if Fits(files) then None else Some(DoesNotFit)
    ensures error.None? ==> Built(disk[..], fat[..], files, |files|)
    ensures error.None? ==> disk[..][..SECTOR] == old(disk[..][..SECTOR]) && fat[..][..3] == old(fat[..][..3])
  {
    hide Laid, Overrun;
    var cluster: nat := 2;
    var index: nat := 0;
    while index < |files|
      invariant index <= |files| && index + 2 <= cluster == Start(files, index) <= CLUSTERS
      invariant Built(disk[..], fat[..], files, index)
      invariant disk[..][..SECTOR] == old(disk[..][..SECTOR]) && fat[..][..3] == old(fat[..][..3])
      invariant forall k :: 0 <= k < index ==> files[k].data != []
    {
      error := AddFile(disk, fat, files, index, cluster);
      if error.Some? {
        return;
      }
      cluster := cluster + files[index].Count();
      index := index + 1;
    }
    assert files[..|files|] == files;
    error := None;
  }

  /** Writing the FATs does not bring the lost bytes back. */
  lemma FatsKeepOverrun(disk: seq<bv8>, fat: seq<bv8>, files: seq<File>)
    requires Overrun(disk, files) && |fat| == FAT_SIZE
    ensures Overrun(Over(Over(disk, SECTOR, fat), SECTOR + FAT_SIZE, fat), files)
  {
    hide Le16;
    var m := Over(disk, SECTOR, fat);
    var r := Over(m, SECTOR + FAT_SIZE, fat);
    assert r[DATA..DATA + 11] == m[DATA..DATA + 11] == disk[DATA..DATA + 11];
    assert r[ROOT + 26..ROOT + 28] == m[ROOT + 26..ROOT + 28] == disk[ROOT + 26..ROOT + 28];
  }

  /** The boot sector on an empty disk, and an empty FAT. */
  method Blank(boot: seq<bv8>, ghost files: seq<File>) returns (disk: array<bv8>, fat: array<bv8>)
    requires |boot| == SECTOR
    ensures fresh(disk) && fresh(fat) && disk != fat && disk.Length == DISK_SIZE && fat.Length == FAT_SIZE
    ensures Laid(disk[..], fat[..], files, 0)
    ensures disk[..][..SECTOR] == boot && fat[..][..3] == [boot[21], 0xFF, 0xFF]
  {
    disk := new bv8[DISK_SIZE](_ => 0);
    Store(disk, 0, boot);
    fat := new bv8[FAT_SIZE](_ => 0);
    Store(fat, 0, [boot[21], 0xFF, 0xFF]);
    NothingLaid(disk[..], fat[..], files);
    hide Laid;
  }

  /**
   floppy_image(): which error, if any, and otherwise an image that reads back, if the directory holds
   all entries. It does not look whether it does: from the 225th file on, entries overwrite the data.
   */
  method FloppyImage(boot: seq<bv8>, files: seq<File>) returns (error: Option<Error>, disk: array<bv8>)
    requires forall k :: 0 <= k < |files| ==> |files[k].name| == 11
    ensures error == if !GoodBoot(boot) then Some(BadBootSector)
                     else if !GoodLayout(boot) then Some(WrongLayout)
                     else if !Fits(files) then Some(DoesNotFit)
                     else None
    ensures error.None? && |files| <= 224 ==> Image(disk[..], boot, files)
    ensures error.None? && |files| > 224 ==> Overrun(disk[..], files)
  {
    disk := new bv8[0];
    if |boot| != SECTOR || boot[510..] != [0x55, 0xAA] {
      return Some(BadBootSector), disk;
    }
    if !GoodLayout(boot) {
      return Some(WrongLayout), disk;
    }
    hide GoodLayout;
    var fat;
    disk, fat := Blank(boot, files);
    hide Laid, Entry, Linked, DirectoryEntry, Over, Image, Slot, Clusters, Overrun;
    error := AddFiles(disk, fat, files);
    if error.None? {
      ghost var before := disk[..];
      Store(disk, SECTOR, fat[..]);
      Store(disk, SECTOR + FAT_SIZE, fat[..]);
      if |files| <= 224 {
        FatsBeside(before, fat[..], files, disk[..]);
        LaidIsImage(disk[..], fat[..], boot, files);
      } else {
        FatsKeepOverrun(before, fat[..], files);
      }
    }
  }
}
