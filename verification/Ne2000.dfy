/**
 The receive path of the network card: the card fills a ring of pages, the interrupt handler moves
 whole packets into a small ring of frames, and a task takes them out one step at a time.
 */
module Ne2000 {
  import opened Prelude

  type Bytes = seq<bv8>

  const RX_START: nat := 0x46
  const RX_STOP: nat := 0x80
  const RX_PAGES: nat := 58
  const NE_FRAME_MAX: nat := 1536

  // ---------------------------------------------------------------- the software ring

  function Inc(n: nat, x: nat): nat
    requires x < n
  {
    if x + 1 == n then 0 else x + 1
  }

  lemma IncIsMod(n: nat, x: nat)
    requires x < n
    ensures (x + 1) % n == Inc(n, x)
  {
  }

  /** Occupied slots from `tail` up to `head`. */
  function Count(n: nat, tail: nat, head: nat): nat
    requires tail < n && head < n
  {
    if head >= tail then head - tail else head + n - tail
  }

  /** The queued frames, oldest first. */
  function Queued(ring: seq<Bytes>, lens: seq<nat>, tail: nat, head: nat): seq<Bytes>
    requires |ring| == |lens| && tail < |ring| && head < |ring|
    requires forall i :: 0 <= i < |ring| ==> lens[i] <= |ring[i]|
    decreases Count(|ring|, tail, head)
  {
    if tail == head then [] else [ring[tail][..lens[tail]]] + Queued(ring, lens, Inc(|ring|, tail), head)
  }

  lemma {:induction false} QueuedCount(ring: seq<Bytes>, lens: seq<nat>, tail: nat, head: nat)
    requires |ring| == |lens| && tail < |ring| && head < |ring|
    requires forall i :: 0 <= i < |ring| ==> lens[i] <= |ring[i]|
    ensures |Queued(ring, lens, tail, head)| == Count(|ring|, tail, head) < |ring|
    decreases Count(|ring|, tail, head)
  {
    if tail != head { QueuedCount(ring, lens, Inc(|ring|, tail), head); }
  }

  /** Filling the free slot at `head` and moving `head` on appends one frame and leaves the others alone. */
  lemma {:induction false} Push(ring: seq<Bytes>, lens: seq<nat>, tail: nat, head: nat, slot: Bytes, len: nat)
    requires |ring| == |lens| && tail < |ring| && head < |ring| && len <= |slot|
    requires forall i :: 0 <= i < |ring| ==> lens[i] <= |ring[i]|
    requires Inc(|ring|, head) != tail
    ensures Queued(ring[head := slot], lens[head := len], tail, Inc(|ring|, head))
         == Queued(ring, lens, tail, head) + [slot[..len]]
    decreases Count(|ring|, tail, head)
  {
    var n, ring', lens' := |ring|, ring[head := slot], lens[head := len];
    if tail == head {
      assert Queued(ring', lens', Inc(n, head), Inc(n, head)) == [];
    } else {
      Push(ring, lens, Inc(n, tail), head, slot, len);
    }
  }

  // ---------------------------------------------------------------- the page ring of the card

  /** A packet in the card's memory: its header, and the bytes behind the header. */
  datatype Packet = Packet(next: nat, count: nat, body: Bytes)

  function PagesFor(f: Bytes): nat { (|f| + 4 + 255) / 256 }

  function Wrap(page: nat): nat { if page >= RX_STOP then RX_START else page }

  /** `k` pages further along the ring. */
  function Advance(page: nat, k: nat): nat
    requires RX_START <= page < RX_STOP && k <= RX_PAGES
  {
    if page + k < RX_STOP then page + k else page + k - RX_PAGES
  }

  function Pages(frames: seq<Bytes>): nat {
    if frames == [] then 0 else PagesFor(frames[0]) + Pages(frames[1..])
  }

  /** The unread packets lie one behind the other from `page` on, each header pointing at the next packet. */
  ghost predicate Chain(mem: map<nat, Packet>, page: nat, frames: seq<Bytes>)
    requires RX_START <= page < RX_STOP && Pages(frames) < RX_PAGES
    decreases |frames|
  {
    frames != [] ==>
      && page in mem && mem[page].body == frames[0] && mem[page].count == |frames[0]| + 4
      && mem[page].next == Advance(page, PagesFor(frames[0]))
      && Chain(mem, mem[page].next, frames[1..])
  }

  /** The card writes behind the last packet, without touching an unread one. */
  lemma {:induction false} ChainAppend(mem: map<nat, Packet>, page: nat, frames: seq<Bytes>, f: Bytes)
    requires RX_START <= page < RX_STOP && Pages(frames) + PagesFor(f) < RX_PAGES && Chain(mem, page, frames)
    ensures Pages(frames + [f]) == Pages(frames) + PagesFor(f)
    ensures var at := Advance(page, Pages(frames));
            Chain(mem[at := Packet(Advance(at, PagesFor(f)), |f| + 4, f)], page, frames + [f])
    decreases |frames|
  {
    var at := Advance(page, Pages(frames));
    var mem' := mem[at := Packet(Advance(at, PagesFor(f)), |f| + 4, f)];
    if frames == [] {
      assert frames + [f] == [f];
      assert Pages([f]) == PagesFor(f) + Pages([]);
    } else {
      assert (frames + [f])[1..] == frames[1..] + [f];
      ChainAppend(mem, mem[page].next, frames[1..], f);
      assert Advance(mem[page].next, Pages(frames[1..])) == at;
    }
  }

  // ---------------------------------------------------------------- history

  /** What the driver takes of a frame. */
  function Cut(f: Bytes): Bytes {
    if |f| > NE_FRAME_MAX then f[..NE_FRAME_MAX] else f
  }

  /** The frames taken from the card that were kept, in order. */
  function Kept(taken: seq<Bytes>, kept: seq<bool>): seq<Bytes>
    requires |taken| == |kept|
  {
    if taken == [] then [] else
      var n := |taken| - 1;
      Kept(taken[..n], kept[..n]) + if kept[n] then [Cut(taken[n])] else []
  }

  function Tally(flags: seq<bool>, b: bool): nat {
    if flags == [] then 0 else Tally(flags[..|flags| - 1], b) + if flags[|flags| - 1] == b then 1 else 0
  }

  /** Of `m` packets the first `free` are kept. */
  function Flags(m: nat, free: nat): seq<bool> {
    seq(m, i => i < free)
  }

  lemma KeptAppend(taken: seq<Bytes>, kept: seq<bool>, f: Bytes, k: bool)
    requires |taken| == |kept|
    ensures Kept(taken + [f], kept + [k]) == Kept(taken, kept) + if k then [Cut(f)] else []
    ensures Tally(kept + [k], true) == Tally(kept, true) + (if k then 1 else 0)
    ensures Tally(kept + [k], false) == Tally(kept, false) + (if k then 0 else 1)
  {
    assert (taken + [f])[..|taken|] == taken && (kept + [k])[..|kept|] == kept;
  }

  lemma {:induction false} TallyAll(flags: seq<bool>)
    ensures Tally(flags, true) + Tally(flags, false) == |flags|
  {
    if flags != [] { TallyAll(flags[..|flags| - 1]); }
  }

  /** What may come between two steps of the reading task: a packet at the card, or a complete drain. */
  datatype Happening = Arrives(f: Bytes) | Irq

  /** Where the reading task is inside ne2000_recv(). */
  datatype Pc = Idle | Checked | Copying(len: nat, done: nat)

  class Nic {
    // the card
    var mem: map<nat, Packet>
    var bnry: nat
    var curr: nat
    // the software ring
    const swRing: array<Bytes>
    const swLen: array<nat>
    var swHead: nat
    var swTail: nat
    var rx: nat
    var dropped: nat
    // the reader
    var pc: Pc
    const buf: array<bv8>
    // history
    ghost var unread: seq<Bytes>      // packets in the card, oldest first
    ghost var taken: seq<Bytes>       // packets that drain_card_ring() has passed
    ghost var kept: seq<bool>         // and whether it kept them
    ghost var delivered: seq<Bytes>   // what ne2000_recv() has returned

    ghost predicate CardOk()
      reads this
    {
      && RX_START - 1 <= bnry < RX_STOP
      && Pages(unread) < RX_PAGES
      && Chain(mem, Wrap(bnry + 1), unread)
      && curr == Advance(Wrap(bnry + 1), Pages(unread))
    }

    ghost predicate RingOk()
      reads this, swRing, swLen
    {
      && swRing as object != swLen && swRing.Length == swLen.Length && swHead < swRing.Length && swTail < swRing.Length
      && (forall i :: 0 <= i < swRing.Length ==> swLen[i] <= NE_FRAME_MAX == |swRing[i]|)
      && |taken| == |kept|
      && Kept(taken, kept) == delivered + Queued(swRing[..], swLen[..], swTail, swHead)
      && rx == Tally(kept, true) && dropped == Tally(kept, false)
    }

    /** While the reader is at work, its frame stays at the tail, and what it has copied stays right. */
    ghost predicate ReaderOk()
      reads this, swRing, swLen, buf
      requires RingOk()
    {
      && buf.Length >= NE_FRAME_MAX && buf as object != swRing && buf as object != swLen
      && (pc != Idle ==> swTail != swHead)
      && (pc.Copying? ==> pc.len == swLen[swTail] && pc.done <= pc.len && buf[..pc.done] == swRing[swTail][..pc.done])
    }

    ghost predicate Valid()
      reads this, swRing, swLen, buf
    {
      CardOk() && RingOk() && ReaderOk()
    }

    /** ne2000_init(), as far as receiving is concerned. */
    constructor (ringSize: nat, bufSize: nat)
      requires ringSize >= 2 && bufSize >= NE_FRAME_MAX
      ensures Valid() && unread == [] && taken == [] && delivered == [] && swRing.Length == ringSize
      ensures fresh(swRing) && fresh(swLen) && fresh(buf)
    {
      mem, bnry, curr := map[], RX_START - 1, RX_START;
      swRing := new Bytes[ringSize](_ => seq(NE_FRAME_MAX, _ => 0));
      swLen := new nat[ringSize](_ => 0);
      swHead, swTail, rx, dropped, pc := 0, 0, 0, 0, Idle;
      buf := new bv8[bufSize](_ => 0);
      unread, taken, kept, delivered := [], [], [], [];
    }

    /** The card stores a packet behind the others and moves CURR, unless that would meet BNRY. */
    method CardReceive(f: Bytes) returns (stored: bool)
      requires Valid()
      modifies `mem, `curr, `unread
      ensures Valid() && unread == if stored then old(unread) + [f] else old(unread)
      ensures stored <==> old(Pages(unread)) + PagesFor(f) < RX_PAGES
    {
      var first := Wrap(bnry + 1);
      var used := if curr >= first then curr - first else curr + RX_PAGES - first;
      stored := used + PagesFor(f) < RX_PAGES;
      if stored {
        ChainAppend(mem, first, unread, f);
        hide Kept, Tally, Queued, Chain, Pages;
        var next := Advance(curr, PagesFor(f));
        mem := mem[curr := Packet(next, |f| + 4, f)];
        curr := next;
        unread := unread + [f];
      }
    }

    /** Free places in the software ring; one slot always stays empty. */
    ghost function Free(): nat
      requires swHead < swRing.Length && swTail < swRing.Length
      reads this
    {
      swRing.Length - 1 - Count(swRing.Length, swTail, swHead)
    }

    /**
     drain_card_ring(): up to 32 packets leave the card in order. The first ones, as many as the ring
     has room for, are queued, the others dropped; the reader's frame and position are not touched.
     */
    method Drain()
      requires Valid()
      modifies `bnry, `swHead, `rx, `dropped, `unread, `taken, `kept, swRing, swLen
      ensures Valid()
      ensures var m := if |old(unread)| < 32 then |old(unread)| else 32;
              && unread == old(unread)[m..] && taken == old(taken) + old(unread)[..m]
              && kept == old(kept) + Flags(m, old(Free()))
      ensures old(swTail != swHead) ==>
                swTail != swHead && swRing[swTail] == old(swRing[swTail]) && swLen[swTail] == old(swLen[swTail])
    {
      hide Queued, Kept, Tally, Chain, Pages;
      ghost var unread0, free0 := unread, Free();
      assert kept == old(kept) + Flags(0, free0);
      var n := 0;
      while n < 32
        invariant n <= 32 && Valid() && n <= |unread0|
        invariant unread == unread0[n..] && taken == old(taken) + unread0[..n]
        invariant kept == old(kept) + Flags(n, free0)
        invariant Free() == if n < free0 then free0 - n else 0
        invariant old(swTail != swHead) ==>
                    swTail != swHead && swRing[swTail] == old(swRing[swTail]) && swLen[swTail] == old(swLen[swTail])
      {
        var pkt := Wrap(bnry + 1);
        if pkt == curr {
          EmptyIff();
          break;
        }
        EmptyIff();
        var header := mem[pkt];
        var count := if header.count < 4 then 4 else header.count;
        var len := if count - 4 > NE_FRAME_MAX then NE_FRAME_MAX else count - 4;
        if header.next < RX_START || header.next >= RX_STOP { break; }
        TakeOne(header, len);
        assert unread0[..n + 1] == unread0[..n] + [unread0[n]];
        assert Flags(n + 1, free0) == Flags(n, free0) + [n < free0];
        n := n + 1;
      }
    }

    /** BNRY + 1 names the oldest unread packet, and equals CURR exactly if there is none. */
    lemma EmptyIff()
      requires CardOk()
      ensures Wrap(bnry + 1) == curr <==> unread == []
      ensures unread != [] ==>
                && Wrap(bnry + 1) in mem && mem[Wrap(bnry + 1)].body == unread[0]
                && mem[Wrap(bnry + 1)].count == |unread[0]| + 4
                && RX_START <= mem[Wrap(bnry + 1)].next < RX_STOP
    {
    }

    /** The body of the loop: queue the oldest packet, or drop it if the ring is full, and move BNRY behind it. */
    method TakeOne(header: Packet, len: nat)
      requires Valid() && unread != [] && Wrap(bnry + 1) in mem && header == mem[Wrap(bnry + 1)]
      requires len == |Cut(unread[0])|
      modifies `bnry, `swHead, `rx, `dropped, `unread, `taken, `kept, swRing, swLen
      ensures Valid()
      ensures unread == old(unread)[1..] && taken == old(taken) + [old(unread)[0]]
      ensures kept == old(kept) + [old(Free()) > 0]
      ensures Free() == if old(Free()) > 0 then old(Free()) - 1 else 0
      ensures old(swTail != swHead) ==>
                swTail != swHead && swRing[swTail] == old(swRing[swTail]) && swLen[swTail] == old(swLen[swTail])
    {
      EmptyIff();
      hide RingOk, ReaderOk, Free, Chain, Pages, Queued, Kept, Tally;
      ghost var rest := unread[1..];
      Enqueue(header.body[..len], unread[0]);
      label queued:
      PassPacket(header);
      assert RingOk() && ReaderOk() && Free() == old@queued(Free());
      assert unread == rest;
    }

    /** BNRY moves to the page before the next packet. */
    method PassPacket(header: Packet)
      requires CardOk() && unread != [] && Wrap(bnry + 1) in mem && header == mem[Wrap(bnry + 1)]
      modifies `bnry, `unread
      ensures CardOk() && unread == old(unread)[1..]
    {
      bnry := header.next - 1;
      if bnry < RX_START { bnry := RX_STOP - 1; }
      unread := unread[1..];
    }

    /** The inner block: remote_read() into the slot at the head, or the drop. */
    method Enqueue(bytes: Bytes, ghost f: Bytes)
      requires RingOk() && ReaderOk() && bytes == Cut(f)
      modifies `swHead, `rx, `dropped, `taken, `kept, swRing, swLen
      ensures RingOk() && ReaderOk()
      ensures taken == old(taken) + [f] && kept == old(kept) + [old(Free()) > 0]
      ensures Free() == if old(Free()) > 0 then old(Free()) - 1 else 0
      ensures old(swTail != swHead) ==>
                swTail != swHead && swRing[swTail] == old(swRing[swTail]) && swLen[swTail] == old(swLen[swTail])
    {
      hide Queued, Kept, Tally;
      var push := (swHead + 1) % swRing.Length;
      IncIsMod(swRing.Length, swHead);
      KeptAppend(taken, kept, f, push != swTail);
      if push == swTail {
        dropped := dropped + 1;
      } else {
        var len: nat := |bytes|;
        var slot := bytes + swRing[swHead][len..];
        ghost var ring, lens := swRing[..], swLen[..];
        Push(ring, lens, swTail, swHead, slot, len);
        assert slot[..len] == bytes;
        swRing[swHead] := slot;
        swLen[swHead] := len;
        assert swRing[..] == ring[swHead := slot] && swLen[..] == lens[swHead := len];
        swHead := push;
        rx := rx + 1;
      }
      taken, kept := taken + [f], kept + [push != swTail];
    }

    // -------------------------------------------------------------- ne2000_recv(), step by step

    /** `if (sw_tail == sw_head) return -1`. */
    method RecvCheck() returns (some: bool)
      requires Valid() && pc == Idle
      modifies `pc
      ensures Valid() && some == (Queued(swRing[..], swLen[..], swTail, swHead) != []) && pc == if some then Checked else Idle
    {
      some := swTail != swHead;
      if some { pc := Checked; }
    }

    /** `len = sw_len[sw_tail]`. */
    method RecvLen()
      requires Valid() && pc == Checked
      modifies `pc
      ensures Valid() && pc == Copying(swLen[swTail], 0)
    {
      pc := Copying(swLen[swTail], 0);
    }

    /** One byte of memory_copy(). */
    method RecvByte()
      requires Valid() && pc.Copying? && pc.done < pc.len
      modifies `pc, buf
      ensures Valid() && pc == Copying(old(pc).len, old(pc).done + 1)
    {
      buf[pc.done] := swRing[swTail][pc.done];
      pc := pc.(done := pc.done + 1);
    }

    /** `sw_tail = (sw_tail + 1) % SW_RING; return len`: the caller has the oldest queued frame. */
    method RecvAdvance() returns (len: nat)
      requires Valid() && pc.Copying? && pc.done == pc.len
      modifies `pc, `swTail, `delivered
      ensures Valid() && pc == Idle && len == old(pc).len <= buf.Length
      ensures delivered == old(delivered) + [buf[..len]]
      ensures old(Queued(swRing[..], swLen[..], swTail, swHead)) == [buf[..len]] + Queued(swRing[..], swLen[..], swTail, swHead)
    {
      len := pc.len;
      delivered := delivered + [buf[..len]];
      IncIsMod(swRing.Length, swTail);
      swTail := (swTail + 1) % swRing.Length;
      pc := Idle;
    }

    /** Any number of packets and interrupts, in any order: the frame that the reader works on stays. */
    method Interrupted(events: seq<Happening>)
      requires Valid()
      modifies `mem, `curr, `bnry, `swHead, `rx, `dropped, `unread, `taken, `kept, swRing, swLen
      ensures Valid()
      ensures old(swTail != swHead) ==>
                swTail != swHead && swRing[swTail] == old(swRing[swTail]) && swLen[swTail] == old(swLen[swTail])
    {
      hide CardOk, Queued, Kept, Tally;
      for i := 0 to |events|
        invariant Valid()
        invariant old(swTail != swHead) ==>
                    swTail != swHead && swRing[swTail] == old(swRing[swTail]) && swLen[swTail] == old(swLen[swTail])
      {
        match events[i] {
          case Arrives(f) => var _ := CardReceive(f);
          case Irq => Drain();
        }
      }
    }

    /**
     ne2000_recv(); before its step `k`, `events(k)` happen, whatever they are. It returns nothing iff
     the ring is empty when it looks, else exactly the frame that was the oldest then.
     */
    method Recv(events: nat -> seq<Happening>) returns (r: Option<nat>)
      requires Valid() && pc == Idle
      modifies this, swRing, swLen, buf
      ensures Valid() && pc == Idle
      ensures r.None? <==> old(swTail == swHead)
      ensures r.None? ==> delivered == old(delivered)
      ensures r.Some? ==>
                && r.value == old(swLen[swTail]) <= buf.Length && buf[..r.value] == old(swRing[swTail][..swLen[swTail]])
                && delivered == old(delivered) + [buf[..r.value]]
    {
      hide CardOk, Kept, Tally;
      var some := RecvCheck();
      hide Queued;
      if !some { return None; }
      ghost var frame, n := swRing[swTail], swLen[swTail];
      Interrupted(events(0));
      RecvLen();
      while pc.done < pc.len
        invariant Valid() && pc.Copying? && pc.len == n && swRing[swTail] == frame && swLen[swTail] == n
        invariant delivered == old(delivered) && swTail == old(swTail)
        decreases pc.len - pc.done
      {
        Interrupted(events(pc.done + 1));
        RecvByte();
      }
      Interrupted(events(pc.len + 1));
      var len := RecvAdvance();
      r := Some(len);
    }

    /**
     From the wire to the caller: packets that find room in the card and in the ring, with an interrupt
     after the last one, are returned whole and in order, and none is dropped.
     */
    method PassThrough(frames: seq<Bytes>) returns (got: seq<Bytes>)
      requires Valid() && pc == Idle && unread == [] && swTail == swHead
      requires Pages(frames) < RX_PAGES && |frames| <= 32 && |frames| < swRing.Length
      requires forall i :: 0 <= i < |frames| ==> |frames[i]| <= NE_FRAME_MAX
      modifies this, swRing, swLen, buf
      ensures Valid() && got == frames && unread == [] && swTail == swHead && dropped == old(dropped)
    {
      hide Chain, Queued, Kept, Tally, Pages;
      for i := 0 to |frames|
        invariant Valid() && pc == Idle && unread == frames[..i] && swTail == swHead
        invariant taken == old(taken) && kept == old(kept) && delivered == old(delivered) && dropped == old(dropped)
      {
        PagesOfPrefix(frames, i);
        var _ := CardReceive(frames[i]);
        assert frames[..i + 1] == frames[..i] + [frames[i]];
      }
      assert frames[..|frames|] == frames;
      Drain();
      assert taken == old(taken) + frames && kept == old(kept) + Flags(|frames|, |frames|);
      AllKept(old(taken), old(kept), frames);
      EmptyQueue(old(swRing[..]), old(swLen[..]), old(swTail));
      assert Queued(swRing[..], swLen[..], swTail, swHead) == frames by {
        ghost var queue := Queued(swRing[..], swLen[..], swTail, swHead);
        assert delivered + queue == delivered + [] + frames;
        assert (delivered + queue)[|delivered|..] == queue && (delivered + [] + frames)[|delivered|..] == frames;
      }
      got := [];
      for i := 0 to |frames|
        invariant Valid() && pc == Idle && unread == [] && dropped == old(dropped) && got == frames[..i]
        invariant Queued(swRing[..], swLen[..], swTail, swHead) == frames[i..]
      {
        var len := TakeFront();
        got := got + [buf[..len]];
      }
      QueuedCount(swRing[..], swLen[..], swTail, swHead);
    }

    /** ne2000_recv() with nothing in between. */
    method TakeFront() returns (len: nat)
      requires Valid() && pc == Idle && Queued(swRing[..], swLen[..], swTail, swHead) != []
      modifies `pc, `swTail, `delivered, buf
      ensures Valid() && pc == Idle && len <= buf.Length
      ensures old(Queued(swRing[..], swLen[..], swTail, swHead)) == [buf[..len]] + Queued(swRing[..], swLen[..], swTail, swHead)
    {
      hide CardOk, Kept, Tally, Queued;
      var _ := RecvCheck();
      RecvLen();
      while pc.done < pc.len
        invariant Valid() && pc.Copying? && swTail == old(swTail)
        decreases pc.len - pc.done
      {
        RecvByte();
      }
      len := RecvAdvance();
    }

    /**
     In every reachable state: what was returned and what is queued are, in card order, the frames that
     were kept; every frame taken from the card is counted once; and one slot of the ring is free.
     */
    lemma NothingLostUnseen()
      requires Valid()
      ensures Kept(taken, kept) == delivered + Queued(swRing[..], swLen[..], swTail, swHead)
      ensures |taken| == rx + dropped
      ensures |Queued(swRing[..], swLen[..], swTail, swHead)| <= swRing.Length - 1
    {
      TallyAll(kept);
      QueuedCount(swRing[..], swLen[..], swTail, swHead);
    }
  }

  lemma EmptyQueue(ring: seq<Bytes>, lens: seq<nat>, tail: nat)
    requires |ring| == |lens| && tail < |ring| && forall i :: 0 <= i < |ring| ==> lens[i] <= |ring[i]|
    ensures Queued(ring, lens, tail, tail) == []
  {
  }

  lemma {:induction false} PagesOfPrefix(frames: seq<Bytes>, i: nat)
    requires i < |frames|
    ensures Pages(frames[..i]) + PagesFor(frames[i]) <= Pages(frames)
  {
    if i > 0 {
      assert frames[..i][1..] == frames[1..][..i - 1];
      PagesOfPrefix(frames[1..], i - 1);
    }
  }

  /** Short frames that were all kept are in the record as they came. */
  lemma {:induction false} AllKept(taken: seq<Bytes>, kept: seq<bool>, frames: seq<Bytes>)
    requires |taken| == |kept| && forall i :: 0 <= i < |frames| ==> |frames[i]| <= NE_FRAME_MAX
    ensures Kept(taken + frames, kept + Flags(|frames|, |frames|)) == Kept(taken, kept) + frames
    ensures Tally(kept + Flags(|frames|, |frames|), false) == Tally(kept, false)
  {
    if frames == [] {
      assert taken + frames == taken && kept + Flags(0, 0) == kept;
    } else {
      var n := |frames| - 1;
      AllKept(taken, kept, frames[..n]);
      KeptAppend(taken + frames[..n], kept + Flags(n, n), frames[n], true);
      assert taken + frames == taken + frames[..n] + [frames[n]];
      assert kept + Flags(n + 1, n + 1) == kept + Flags(n, n) + [true];
      assert frames == frames[..n] + [frames[n]];
    }
  }
}
