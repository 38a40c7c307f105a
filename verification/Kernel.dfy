/** The process table and the linked queues, updated in place, against the protocol of Ipc.dfy. */
module Kernel {
  import opened Prelude
  import opened Ipc
  import opened IpcInvariant
  import opened IpcRendezvous
  import G = SendGraph

  function Following(q: seq<nat>, i: nat): Option<nat> {
    if i + 1 < |q| then Some(q[i + 1]) else None
  }

  /** `heads` and `nexts` are the links of the lists `queue`. */
  ghost predicate Linked(queue: seq<seq<nat>>, heads: seq<Option<nat>>, nexts: seq<Option<nat>>) {
    && |queue| == |heads| == |nexts|
    && (forall d :: 0 <= d < |queue| ==> heads[d] == if queue[d] == [] then None else Some(queue[d][0]))
    && (forall d, i :: 0 <= d < |queue| && 0 <= i < |queue[d]| ==>
          queue[d][i] < |nexts| && nexts[queue[d][i]] == Following(queue[d], i))
  }

  const SEND: int := 1
  const RECEIVE: int := 2

  const MAX_TICKS: nat := 0x7FFFABCD

  /** `Astray`: the code has taken a table entry that does not exist, and anything may follow. */
  datatype Status = Done | Panicked | Hung | Astray

  /** What a call reports and leaves behind, given what the protocol prescribes. */
  ghost predicate Follows(status: Status, after: Sys, prescribed: Outcome<Sys>) {
    match prescribed
    case Ok(s) => status == Done && after == s
    case Panic => status == Panicked
    case Hang => status == Hung
  }

  /** What a system call is to do once its peer is a valid one. */
  ghost function Prescribed(s: Sys, function_: int, peer: Peer, m: Message): Outcome<Sys>
    requires Inv(s)
  {
    if peer == NoTask || peer == Pid(s.ready) || (peer.Pid? && peer.pid >= |s.procs|) then Panic
    else if function_ == SEND && peer.Pid? then Send(s, peer.pid, m)
    else if function_ == RECEIVE then Receive(s, peer, m)
    else Panic
  }

  /**
   The numbers of the functions, by their effects. 1 hands the stamped message to a valid process, and
   the caller blocks if that does not wait for it; 2 hands in nothing, and the caller has a message, an
   interrupt, or waits for whom it has named; any other number halts the kernel.
   */
  lemma FunctionsDo(s: Sys, function_: int, peer: Peer, m: Message)
    requires Inv(s) && peer != NoTask && peer != Pid(s.ready) && (peer.Pid? ==> peer.pid < |s.procs|)
    ensures Prescribed(s, function_, peer, m).Ok? ==> |Prescribed(s, function_, peer, m).value.procs| == |s.procs|
    ensures function_ == 1 && peer.Pid? && Prescribed(s, 1, peer, m).Ok? ==>
              var s', mine := Prescribed(s, 1, peer, m).value, m.(source := Pid(s.ready));
              if s.procs[peer.pid].WaitsFor(Pid(s.ready)) then
                s'.log == s.log + [Accepted(peer.pid, mine), Delivered(peer.pid, mine)] && s'.procs[peer.pid].buf == mine
              else
                s'.log == s.log + [Accepted(peer.pid, mine)] && BlockedSender(s'.procs[s.ready], peer.pid)
    ensures function_ == 2 && Prescribed(s, 2, peer, m).Ok? ==>
              var s' := Prescribed(s, 2, peer, m).value;
              if TakesMessage(s, peer) then s'.log == s.log + [Delivered(s.ready, s'.procs[s.ready].buf)]
              else s'.log == s.log
                   && if TakesInterrupt(s, peer) then Told(s'.procs[s.ready]) else Awaits(s'.procs[s.ready], peer)
    ensures function_ != 1 && function_ != 2 ==> Prescribed(s, function_, peer, m) == Panic
  {
    InvFits(s);
    hide Send, Receive;
    if Prescribed(s, function_, peer, m).Ok? {
      if function_ == 1 {
        SendHandsIn(s, peer.pid, m);
      } else {
        FunctionTwo(s, peer, m);
      }
    }
  }

  lemma FunctionTwo(s: Sys, peer: Peer, m: Message)
    requires Inv(s) && Receive(s, peer, m).Ok?
    ensures var s' := Receive(s, peer, m).value;
            && |s'.procs| == |s.procs|
            && if TakesMessage(s, peer) then s'.log == s.log + [Delivered(s.ready, s'.procs[s.ready].buf)]
               else s'.log == s.log
                    && if TakesInterrupt(s, peer) then Told(s'.procs[s.ready]) else Awaits(s'.procs[s.ready], peer)
  {
    RunningIsIdle(s);
    ReceiveTakes(s, peer, m);
    hide Inv;
    if !TakesInterrupt(s, peer) && !TakesMessage(s, peer) { BlockedAsAsked(s, peer, m); }
  }

  lemma AppendedLinks(queue: seq<seq<nat>>, heads: seq<Option<nat>>, nexts: seq<Option<nat>>, d: nat, x: nat)
    requires Linked(queue, heads, nexts) && d < |queue| && x < |nexts|
    requires forall e, i :: 0 <= e < |queue| && 0 <= i < |queue[e]| ==> queue[e][i] != x
    requires NoDup(queue[d])
    requires forall e, i :: 0 <= e < |queue| && e != d && 0 <= i < |queue[e]| ==> queue[e][i] !in queue[d]
    ensures var queue' := queue[d := queue[d] + [x]];
            if queue[d] == [] then Linked(queue', heads[d := Some(x)], nexts[x := None])
            else var last := queue[d][|queue[d]| - 1];
                 last < |nexts| && Linked(queue', heads, nexts[last := Some(x)][x := None])
  {
    if queue[d] != [] {
      var last := queue[d][|queue[d]| - 1];
      var queue', nexts' := queue[d := queue[d] + [x]], nexts[last := Some(x)][x := None];
      forall e, i | 0 <= e < |queue'| && 0 <= i < |queue'[e]|
        ensures queue'[e][i] < |nexts'|
        ensures nexts'[queue'[e][i]] == Following(queue'[e], i)
      {
        if e == d && i < |queue[d]| {
          assert queue'[e][i] == queue[d][i];
        } else if e != d {
          assert queue'[e][i] == queue[e][i] && queue[e][i] !in queue[d];
        }
      }
    }
  }

  /** The links along the list that lost its entry `k`. */
  lemma UnlinkedOwnLinks(q: seq<nat>, r: seq<nat>, nexts: seq<Option<nat>>, nexts': seq<Option<nat>>, k: nat, i: nat)
    requires k < |q| && |r| == |q| - 1 && i < |r| && NoDup(q)
    requires forall j :: 0 <= j < |r| ==> r[j] == q[if j < k then j else j + 1]
    requires forall j :: 0 <= j < |q| ==> q[j] < |nexts| && nexts[q[j]] == Following(q, j)
    requires nexts' == if k == 0 then nexts[q[k] := None] else nexts[q[k - 1] := nexts[q[k]]][q[k] := None]
    ensures r[i] < |nexts'| && nexts'[r[i]] == Following(r, i)
  {
    var j := if i < k then i else i + 1;
    assert r[i] == q[j] && q[j] != q[k];
    if j + 1 == k {
      assert nexts'[q[j]] == nexts[q[k]];
    } else {
      assert k > 0 ==> q[j] != q[k - 1];
      assert nexts'[q[j]] == nexts[q[j]];
    }
  }

  lemma UnlinkedLinks(queue: seq<seq<nat>>, heads: seq<Option<nat>>, nexts: seq<Option<nat>>, d: nat, k: nat)
    requires Linked(queue, heads, nexts) && d < |queue| && k < |queue[d]| && NoDup(queue[d])
    requires forall e, i :: 0 <= e < |queue| && e != d && 0 <= i < |queue[e]| ==> queue[e][i] !in queue[d]
    ensures var x := queue[d][k];
            var queue' := queue[d := RemoveFirst(queue[d], x)];
            if k == 0 then Linked(queue', heads[d := nexts[x]], nexts[x := None])
            else Linked(queue', heads, nexts[queue[d][k - 1] := nexts[x]][x := None])
  {
    var q, x := queue[d], queue[d][k];
    var r := RemoveFirst(q, x);
    RemoveFirstIndex(q, k);
    hide RemoveFirst, NoDup;
    var queue' := queue[d := r];
    var nexts' := if k == 0 then nexts[x := None] else nexts[q[k - 1] := nexts[x]][x := None];
    forall e, i | 0 <= e < |queue'| && 0 <= i < |queue'[e]|
      ensures queue'[e][i] < |nexts'|
      ensures nexts'[queue'[e][i]] == Following(queue'[e], i)
    {
      if e == d {
        UnlinkedOwnLinks(q, r, nexts, nexts', k, i);
      } else {
        assert queue[e][i] !in q;
      }
    }
  }

  lemma QueuesDisjoint(s: Sys, d: nat)
    requires Queues(s) && d < |s.queue|
    ensures forall e, i :: 0 <= e < |s.queue| && e != d && 0 <= i < |s.queue[e]| ==> s.queue[e][i] !in s.queue[d]
  {
  }

  lemma EdgeOf(procs: seq<Proc>, p: nat)
    requires p < |procs|
    ensures |Edges(procs)| == |procs|
    ensures Edges(procs)[p] == if procs[p].sending && procs[p].sendto.Pid? then Some(procs[p].sendto.pid) else None
  {
  }

  class Kernel {
    const proc: array<Proc>                   // proc_table
    const qSending: array<Option<nat>>        // q_sending of each entry
    const nextSending: array<Option<nat>>     // next_sending of each entry
    var ready: nat                            // p_proc_ready
    var ticks: nat                            // the clock
    ghost var queue: seq<seq<nat>>
    ghost var log: seq<Event>

    ghost function View(): Sys
      reads this, proc
    {
      Sys(proc[..], queue, ready, log)
    }

    ghost predicate Valid()
      reads this, proc, qSending, nextSending
    {
      qSending != nextSending && Linked(queue, qSending[..], nextSending[..]) && Inv(View())
    }

    /** Booting: everybody idle with full ticks, except for the free slots. */
    constructor (priorities: seq<nat>, free: seq<bool>, blank: Message)
      requires 0 < |priorities| == |free| && !free[0]
      ensures Valid() && fresh(proc) && fresh(qSending) && fresh(nextSending)
      ensures Initial(View()) && proc.Length == |priorities|
      ensures forall p :: 0 <= p < |free| ==> proc[p].free == free[p] && proc[p].ticks == proc[p].priority == priorities[p]
    {
      var n := |priorities|;
      proc := new Proc[n](p requires 0 <= p < n =>
        Proc(false, false, free[p], false, blank, NoTask, NoTask, false, priorities[p], priorities[p]));
      qSending := new Option<nat>[n](_ => None);
      nextSending := new Option<nat>[n](_ => None);
      ready, ticks := 0, 0;
      queue := seq(n, _ => []);
      log := [];
      new;
      InitialInv(View());
    }

    /** One search of the table for the runnable process with the most ticks. */
    method Search() returns (greatest: nat)
      requires ready < proc.Length
      modifies this`ready
      ensures greatest == 0 <==> Best(proc[..], proc.Length).None?
      ensures ready < proc.Length
      ensures if greatest == 0 then ready == old(ready) else Best(proc[..], proc.Length) == Some(ready)
    {
      ghost var procs := proc[..];
      greatest := 0;
      var p := 0;
      while p < proc.Length
        invariant p <= proc.Length && ready < proc.Length
        invariant greatest == 0 <==> Best(procs, p).None?
        invariant greatest == 0 ==> ready == old(ready)
        invariant greatest > 0 ==> Best(procs, p) == Some(ready) && greatest == procs[ready].ticks
      {
        assert proc[p] == procs[p];
        if proc[p].Runnable() {
          if proc[p].ticks > greatest {
            greatest := proc[p].ticks;
            ready := p;
          }
        }
        p := p + 1;
      }
    }

    /** schedule(): search the table; refill and search again while nobody runnable has ticks left. */
    method Schedule()
      requires ready < proc.Length && Schedulable(proc[..])
      modifies proc, this`ready
      ensures Reschedule(old(View())) == Ok(View())
    {
      ghost var before := proc[..];
      ghost var refilled := false;
      var greatest := 0;
      while greatest == 0
        invariant ready < proc.Length
        invariant refilled ==> Best(before, |before|).None?
        invariant proc[..] == if refilled then Refilled(before) else before
        invariant if greatest == 0 then ready == old(ready) else Best(proc[..], proc.Length) == Some(ready)
        decreases greatest == 0, !refilled
      {
        greatest := Search();
        if greatest == 0 {
          Refill();
          refilled := true;
        }
      }
    }

    method Refill()
      modifies proc
      ensures proc[..] == Refilled(old(proc[..]))
    {
      for p := 0 to proc.Length
        invariant forall q :: 0 <= q < proc.Length ==>
                    proc[q] == if q < p then Refilled(old(proc[..]))[q] else old(proc[q])
      {
        if proc[p].Runnable() {
          proc[p] := proc[p].(ticks := proc[p].priority);
        }
      }
    }

    /**
     deadlock(): follow the senders from `dest`. The walk ends because the graph has no cycle, and it
     finds `src` exactly when `dest` leads there; then `chain` is the circle that is printed.
     */
    method Deadlock(src: nat, dest: nat) returns (found: bool, chain: seq<nat>)
      requires Valid() && src < proc.Length && dest < proc.Length && src != dest
      ensures found <==> G.Reaches(Edges(proc[..]), dest, src)
      ensures found ==> G.IsPath(Edges(proc[..]), chain) && chain[0] == dest && chain[|chain| - 1] == src
    {
      ghost var g := Edges(proc[..]);
      EdgesClosed(View());
      ghost var rank := G.RankingExists(g, |g|);
      hide G.Reaches, G.IsPath, G.HasCycle, Linked, Queues, NoMissedRendezvous, Edges;
      var p: nat := dest;
      chain := [dest];
      found := false;
      while true
        invariant p < proc.Length && p != src
        invariant G.Reaches(g, dest, src) <==> G.Reaches(g, p, src)
        decreases rank[p]
      {
        assert EntryOk(View(), p);
        EdgeOf(proc[..], p);
        assert g[p] == if proc[p].sending then Some(proc[p].sendto.pid) else None;
        if proc[p].sending {
          var to := proc[p].sendto.pid;
          assert rank[to] < rank[p];
          if G.Reaches(g, p, src) { G.DropEdge(g, p, src); }
          if G.Reaches(g, to, src) { G.PrependEdge(g, p, src); }
          if to == src {
            G.ReachesSelf(g, src);
            chain := Chain(src, dest, rank);
            found := true;
            return;
          }
          p := to;
        } else {
          if G.Reaches(g, p, src) { G.DropEdge(g, p, src); }
          return;
        }
      }
    }

    /** The loop that prints the circle. Its assertion `p_msg` holds, and it arrives at `src`. */
    method Chain(src: nat, dest: nat, ghost rank: seq<nat>) returns (chain: seq<nat>)
      requires Valid() && src < proc.Length && dest < proc.Length && src != dest
      requires G.Ranked(Edges(proc[..]), rank) && G.Reaches(Edges(proc[..]), dest, src)
      ensures G.IsPath(Edges(proc[..]), chain) && chain[0] == dest && chain[|chain| - 1] == src
    {
      ghost var g := Edges(proc[..]);
      var p: nat := dest;
      chain := [dest];
      EdgesClosed(View());
      G.SinglePath(g, dest);
      hide G.Reaches, G.IsPath, G.HasCycle, Linked, Queues, NoMissedRendezvous, Edges;
      while p != src
        invariant p < proc.Length && G.Reaches(g, p, src)
        invariant G.IsPath(g, chain) && |chain| > 0 && chain[0] == dest && chain[|chain| - 1] == p
        decreases rank[p]
      {
        G.DropEdge(g, p, src);
        EdgeOf(proc[..], p);
        assert EntryOk(View(), p);
        assert proc[p].pMsg;
        G.ExtendPath(g, chain, proc[p].sendto.pid);
        p := proc[p].sendto.pid;
        chain := chain + [p];
      }
    }

    /** The walk to the last entry of a list that is not empty. */
    method Last(dest: nat) returns (p: nat)
      requires Linked(queue, qSending[..], nextSending[..]) && dest < |queue| && queue[dest] != []
      ensures p == queue[dest][|queue[dest]| - 1] < nextSending.Length
    {
      p := qSending[dest].value;
      ghost var i := 0;
      while nextSending[p].Some?
        invariant 0 <= i < |queue[dest]| && p == queue[dest][i] && p < nextSending.Length
        decreases |queue[dest]| - i
      {
        p := nextSending[p].value;
        i := i + 1;
      }
    }

    /** Append `sender` to the list of `dest`: hang it on the last entry, or on the head. */
    method Append(sender: nat, dest: nat)
      requires qSending != nextSending && Linked(queue, qSending[..], nextSending[..])
      requires sender < |queue| && dest < |queue| && NoDup(queue[dest])
      requires forall e, i :: 0 <= e < |queue| && 0 <= i < |queue[e]| ==> queue[e][i] != sender
      requires forall e, i :: 0 <= e < |queue| && e != dest && 0 <= i < |queue[e]| ==> queue[e][i] !in queue[dest]
      modifies qSending, nextSending, this`queue
      ensures queue == old(queue)[dest := old(queue)[dest] + [sender]]
      ensures Linked(queue, qSending[..], nextSending[..])
    {
      ghost var heads, nexts := qSending[..], nextSending[..];
      assert |queue| == |heads| == |nexts| && (heads[dest].Some? <==> queue[dest] != []);
      ghost var queue' := queue[dest := queue[dest] + [sender]];
      AppendedLinks(queue, heads, nexts, dest, sender);
      if qSending[dest].Some? {
        HangOnLast(sender, dest);
      } else {
        hide Linked;
        qSending[dest] := Some(sender);
        nextSending[sender] := None;
        assert qSending[..] == heads[dest := Some(sender)] && nextSending[..] == nexts[sender := None];
      }
      hide Linked;
      queue := queue';
    }

    /** Hang the sender on the last entry of a list that is not empty. */
    method HangOnLast(sender: nat, dest: nat)
      requires qSending != nextSending && Linked(queue, qSending[..], nextSending[..])
      requires sender < |queue| && dest < |queue| && queue[dest] != []
      modifies nextSending
      ensures queue[dest][|queue[dest]| - 1] < nextSending.Length
      ensures nextSending[..] == old(nextSending[..])[queue[dest][|queue[dest]| - 1] := Some(sender)][sender := None]
    {
      var p := Last(dest);
      nextSending[p] := Some(sender);
      nextSending[sender] := None;
    }

    /** Find `src` in the list of `dest`, with its predecessor, and take it out. */
    method Unlink(dest: nat, src: nat)
      requires qSending != nextSending && Linked(queue, qSending[..], nextSending[..])
      requires dest < |queue| && src in queue[dest] && NoDup(queue[dest])
      requires forall e, i :: 0 <= e < |queue| && e != dest && 0 <= i < |queue[e]| ==> queue[e][i] !in queue[dest]
      modifies qSending, nextSending, this`queue
      ensures queue == old(queue)[dest := RemoveFirst(old(queue)[dest], src)]
      ensures Linked(queue, qSending[..], nextSending[..])
    {
      ghost var k :| 0 <= k < |queue[dest]| && queue[dest][k] == src;
      UnlinkedLinks(queue, qSending[..], nextSending[..], dest, k);
      var prev: Option<nat> := None;
      var p := qSending[dest];
      ghost var i := 0;
      while p != Some(src)
        invariant 0 <= i <= k && p == Some(queue[dest][i])
        invariant prev == if i == 0 then None else Some(queue[dest][i - 1])
        decreases k - i
      {
        prev := p;
        p := nextSending[p.value];
        i := i + 1;
      }
      if qSending[dest] == Some(src) {
        qSending[dest] := nextSending[src];
      } else {
        nextSending[prev.value] := nextSending[src];
      }
      nextSending[src] := None;
      queue := queue[dest := RemoveFirst(queue[dest], src)];
    }

    /** block(): choose somebody else; the loop of schedule() would not end if nobody could be chosen. */
    method Block() returns (status: Status)
      requires ready < proc.Length
      modifies proc, this`ready
      ensures Follows(status, View(), Reschedule(old(View())))
    {
      if Schedulable(proc[..]) {
        Schedule();
        status := Done;
      } else {
        status := Hung;
      }
    }

    /** msg_send() by the running process. */
    method MsgSend(dest: nat, m: Message) returns (status: Status)
      requires Valid() && dest < proc.Length && m.source == Pid(ready)
      modifies this`ready, this`queue, this`log, proc, qSending, nextSending
      ensures Follows(status, View(), Send(old(View()), dest, m))
      ensures status == Done ==> Valid()
    {
      var sender := ready;
      ghost var s := View();
      if sender == dest { return Panicked; }
      var found, _ := Deadlock(sender, dest);
      if found { return Panicked; }
      assert EntryOk(s, dest);
      RunningIsIdle(s);
      if proc[dest].WaitsFor(Pid(sender)) {
        assert proc[dest].pMsg;
        proc[sender] := proc[sender].(buf := m);
        proc[dest] := proc[dest].Awakened(m);
        assert Idle(proc[dest]) && Idle(proc[sender]);
        log := log + [Accepted(dest, m), Delivered(dest, m)];
        HandOverKeeps(s, dest, m);
        assert View() == HandOver(s, sender, dest, m);
        status := Done;
      } else {
        proc[sender] := proc[sender].(buf := m, pMsg := true, sendto := Pid(dest), sending := true);
        assert BlockedSender(proc[sender], dest);
        QueuesDisjoint(s, dest);
        Append(sender, dest);
        log := log + [Accepted(dest, m)];
        assert View() == Enqueue(s, sender, dest, m);
        EnqueueKeeps(s, dest, m);
        RescheduleKeeps(View());
        status := Block();
        assert status == Done ==> BlockedSender(proc[sender], dest);
      }
    }

    /** The message of the blocked sender `q` is copied out; `q` leaves the queue and can run again. */
    method Accept(q: nat)
      requires Valid() && q < proc.Length && q in queue[ready]
      modifies this`ready, this`queue, this`log, proc, qSending, nextSending
      ensures Valid() && View() == Take(old(View()), ready, q)
    {
      var p := ready;
      ghost var s := View();
      TakeKeeps(s, q);
      RunningIsIdle(s);
      assert EntryOk(s, q);
      assert Idle(proc[p]) && qSending[p].Some? && BlockedSender(proc[q], p);
      QueuesDisjoint(s, p);
      Unlink(p, q);
      hide Linked, Inv, NoDup, RemoveFirst;
      proc[p] := proc[p].(buf := proc[q].buf);
      log := log + [Delivered(p, proc[q].buf)];
      proc[q] := proc[q].Released();
      assert View() == Take(s, p, q);
    }

    /** msg_receive() by the running process. */
    method MsgReceive(src: Peer, m: Message) returns (status: Status)
      requires Valid() && m.source == Pid(ready)
      requires src != NoTask && src != Pid(ready) && (src.Pid? ==> src.pid < proc.Length)
      modifies this`ready, this`queue, this`log, proc, qSending, nextSending
      ensures Follows(status, View(), Receive(old(View()), src, m))
      ensures status == Done ==> Valid()
    {
      var p := ready;
      ghost var s := View();
      ReceiveKeeps(s, src, m);
      RunningIsIdle(s);
      if proc[p].hasInt && (src == Any || src == Interrupt) {
        proc[p] := proc[p].(buf := Message(Interrupt, HARD_INT, []), hasInt := false);
        assert Idle(proc[p]) && !proc[p].hasInt;
        assert View() == TakeInterrupt(s, p);
        return Done;
      }
      var from: Option<nat> := None;
      if src == Any {
        from := qSending[p];
      } else if src.Pid? && proc[src.pid].sending && proc[src.pid].sendto == Pid(p) {
        from := Some(src.pid);
      }
      assert from == Available(s, p, src);
      assert Fits(s) && (from.Some? ==> from.value < proc.Length);
      hide Linked, Queues, Entries, NoMissedRendezvous, G.HasCycle, EntryOk, Reschedule;
      if from.Some? {
        AvailableIsQueued(s, src);
        Accept(from.value);
        status := Done;
      } else {
        if proc[p].hasInt { return Panicked; }
        proc[p] := proc[p].(buf := m, pMsg := true, recvfrom := src, receiving := true);
        assert BlockedReceiver(proc[p]);
        assert View() == Await(s, p, src, m);
        status := Block();
      }
    }

    /**
     sys_sendrec(): stamp the caller's pid on the message and dispatch. Its assertion admits ANY and
     INTERRUPT for SEND as well, and msg_send() then takes them for numbers of table entries: this
     goes astray if and only if such a peer is named.
     */
    method SysSendrec(function_: int, peer: Peer, m: Message) returns (status: Status)
      requires Valid()
      modifies this`ready, this`queue, this`log, proc, qSending, nextSending
      ensures status == Astray <==> function_ == SEND && (peer == Any || peer == Interrupt)
      ensures status == Astray ==> View() == old(View())
      ensures status != Astray ==> Follows(status, View(), Prescribed(old(View()), function_, peer, m))
      ensures status == Done ==> Valid()
    {
      if peer == NoTask || peer == Pid(ready) || (peer.Pid? && peer.pid >= proc.Length) { return Panicked; }
      var stamped := m.(source := Pid(ready));
      if function_ == SEND {
        if !peer.Pid? { return Astray; }
        status := MsgSend(peer.pid, stamped);
      } else if function_ == RECEIVE {
        status := MsgReceive(peer, stamped);
      } else {
        status := Panicked;
      }
    }

    /** inform_int(). */
    method Inform(task: nat)
      requires Valid() && task < proc.Length
      modifies proc
      ensures Valid() && View() == InformInt(old(View()), task)
    {
      ghost var s := View();
      InformKeeps(s, task);
      assert EntryOk(s, task);
      var p := proc[task];
      if p.WaitsFor(Interrupt) {
        proc[task] := p.Awakened(p.buf.(source := Interrupt, kind := HARD_INT)).(hasInt := false);
        assert proc[task].Runnable() && proc[task].sendto == NoTask;
      } else {
        proc[task] := p.(hasInt := true);
      }
      assert View() == InformInt(s, task);
    }

    /** The clock goes on, and starts again at MAX_TICKS. */
    method CountTick()
      requires ticks < MAX_TICKS
      modifies this`ticks
      ensures ticks == (old(ticks) + 1) % MAX_TICKS
    {
      ticks := ticks + 1;
      if ticks >= MAX_TICKS { ticks := 0; }
    }

    /** One tick off the running process. */
    method ChargeTick()
      requires Valid()
      modifies proc
      ensures Valid() && View() == Charge(old(View()))
    {
      ghost var s := View();
      ChargeKeeps(s);
      if proc[ready].ticks > 0 {
        proc[ready] := proc[ready].(ticks := proc[ready].ticks - 1);
      }
      assert View() == Charge(s);
    }

    /** clock_handler(); `key` is key_pressed, `reenter` is k_reenter != 0. */
    method ClockHandler(key: bool, tty: nat, reenter: bool) returns (status: Status)
      requires Valid() && ticks < MAX_TICKS && tty < proc.Length
      modifies this`ready, this`ticks, proc
      ensures Follows(status, View(), Clock(old(View()), key, tty, reenter))
      ensures ticks == (old(ticks) + 1) % MAX_TICKS
      ensures status == Done ==> Valid()
    {
      hide Inv, Linked, Clock;
      CountTick();
      assert View() == old(View());
      status := Tick(key, tty, reenter);
    }

    /** The rest of clock_handler(). */
    method Tick(key: bool, tty: nat, reenter: bool) returns (status: Status)
      requires Valid() && tty < proc.Length
      modifies this`ready, proc
      ensures Follows(status, View(), Clock(old(View()), key, tty, reenter))
      ensures status == Done ==> Valid()
    {
      ghost var s := View();
      ClockKeeps(s, key, tty, reenter);
      ChargeTick();
      hide Charge, Entries, Queues, NoMissedRendezvous, G.HasCycle, Linked;
      if key { Inform(tty); }
      if reenter { return Done; }
      if proc[ready].ticks > 0 { return Done; }
      status := Block();
    }
  }
}
