/** What every step of the message system keeps. */
module IpcInvariant {
  import opened Prelude
  import opened Ipc
  import G = SendGraph

  ghost function Next(s: Sys, step: Step): Outcome<Sys>
    requires Inv(s) && Addressed(|s.procs|, step)
  {
    match step
    case DoSend(dest, m) => Send(s, dest, m)
    case DoReceive(src, m) => Receive(s, src, m)
    case DoInterrupt(task) => Ok(InformInt(s, task))
    case DoClock(key, tty, reenter) => Clock(s, key, tty, reenter)
  }

  /** The fields of one entry agree with its flags. */
  ghost predicate EntryOk(s: Sys, p: nat)
    requires p < |s.procs|
  {
    var e := s.procs[p];
    && !(e.sending && e.receiving)
    && (e.free ==> !e.sending && !e.receiving)
    && (e.sending ==> e.sendto.Pid? && e.sendto.pid < |s.procs| && e.sendto.pid != p && e.buf.source == Pid(p))
    && (e.receiving ==> e.recvfrom != NoTask)
    && (!e.free ==>
          && (e.pMsg <==> e.sending || e.receiving)
          && (e.sendto != NoTask ==> e.sending)
          && (e.recvfrom != NoTask ==> e.receiving))
  }

  ghost predicate Entries(s: Sys) {
    forall p :: 0 <= p < |s.procs| ==> EntryOk(s, p)
  }

  /** `p` stands in the queue of `d` exactly once if it is sending to `d`, and not at all otherwise. */
  ghost predicate Queues(s: Sys) {
    && |s.queue| == |s.procs|
    && (forall d :: 0 <= d < |s.queue| ==> NoDup(s.queue[d]))
    && (forall d, i :: 0 <= d < |s.queue| && 0 <= i < |s.queue[d]| ==>
          s.queue[d][i] < |s.procs| && s.procs[s.queue[d][i]].sending && s.procs[s.queue[d][i]].sendto == Pid(d))
    && (forall p :: 0 <= p < |s.procs| && s.procs[p].sending ==>
          s.procs[p].sendto.Pid? && s.procs[p].sendto.pid < |s.queue| && p in s.queue[s.procs[p].sendto.pid])
  }

  /** Nobody waits for something that is already there. */
  ghost predicate NoMissedRendezvous(s: Sys)
    requires |s.queue| == |s.procs|
  {
    forall p :: 0 <= p < |s.procs| && s.procs[p].receiving ==>
      match s.procs[p].recvfrom
      case Any => s.queue[p] == [] && !s.procs[p].hasInt
      case Interrupt => !s.procs[p].hasInt
      case Pid(q) => q < |s.procs| && q != p && q !in s.queue[p]
      case NoTask => false
  }

  ghost predicate Inv(s: Sys) {
    && s.ready < |s.procs| && s.procs[s.ready].Runnable()
    && Entries(s) && Queues(s) && NoMissedRendezvous(s)
    && !G.HasCycle(Edges(s.procs))
  }

  // ---------------------------------------------------------------- the pieces of a step

  lemma EdgesClosed(s: Sys)
    requires Entries(s)
    ensures G.Closed(Edges(s.procs))
  {
    forall p | 0 <= p < |s.procs| && Edges(s.procs)[p].Some?
      ensures Edges(s.procs)[p].value < |s.procs|
    { assert EntryOk(s, p); }
  }

  /** Only ticks and the choice of the running process differ. */
  ghost predicate SameExceptTicks(s: Sys, s': Sys) {
    && |s'.procs| == |s.procs| && s'.queue == s.queue && s'.log == s.log
    && forall p :: 0 <= p < |s.procs| ==> s'.procs[p] == s.procs[p].(ticks := s'.procs[p].ticks)
  }

  lemma KeepsUnderTicks(s: Sys, s': Sys)
    requires SameExceptTicks(s, s') && Entries(s) && Queues(s) && NoMissedRendezvous(s)
    ensures Entries(s') && Queues(s') && NoMissedRendezvous(s')
    ensures Edges(s'.procs) == Edges(s.procs)
  {
    forall p | 0 <= p < |s'.procs|
      ensures EntryOk(s', p)
    { assert EntryOk(s, p); }
  }

  lemma RescheduleKeeps(s: Sys)
    requires Entries(s) && Queues(s) && NoMissedRendezvous(s) && !G.HasCycle(Edges(s.procs))
    ensures Reschedule(s).Ok? ==> Inv(Reschedule(s).value) && SameExceptTicks(s, Reschedule(s).value)
  {
    if Reschedule(s).Ok? {
      KeepsUnderTicks(s, Reschedule(s).value);
    }
  }

  lemma HandOverEntries(s: Sys, dest: nat, m: Message)
    requires Inv(s) && dest < |s.procs| && dest != s.ready
    requires s.procs[dest].WaitsFor(Pid(s.ready))
    ensures Fits(s) && Entries(HandOver(s, s.ready, dest, m))
    ensures Edges(HandOver(s, s.ready, dest, m).procs) == Edges(s.procs)
  {
    assert Fits(s);
    hide Queues, NoMissedRendezvous, G.HasCycle;
    var s' := HandOver(s, s.ready, dest, m);
    forall p | 0 <= p < |s'.procs|
      ensures EntryOk(s', p)
    { assert EntryOk(s, p); }
  }

  lemma HandOverKeeps(s: Sys, dest: nat, m: Message)
    requires Inv(s) && dest < |s.procs| && dest != s.ready
    requires s.procs[dest].WaitsFor(Pid(s.ready))
    ensures Inv(HandOver(s, s.ready, dest, m))
  {
    HandOverEntries(s, dest, m);
    assert EntryOk(s, dest);
    hide Entries, EntryOk, NoDup, Edges, G.HasCycle;
  }

  lemma EnqueueKeepsQueues(s: Sys, dest: nat, m: Message)
    requires Inv(s) && dest < |s.procs| && dest != s.ready
    ensures Queues(Enqueue(s, s.ready, dest, m))
  {
    var src, s' := s.ready, Enqueue(s, s.ready, dest, m);
    assert src !in s.queue[dest];
    assert NoDup(s.queue[dest]);
    forall p | 0 <= p < |s'.procs| && s'.procs[p].sending
      ensures s'.procs[p].sendto.Pid? && s'.procs[p].sendto.pid < |s'.queue| && p in s'.queue[s'.procs[p].sendto.pid]
    {
      if p == src { assert s'.queue[dest][|s.queue[dest]|] == src; }
    }
  }

  lemma EnqueueKeeps(s: Sys, dest: nat, m: Message)
    requires Inv(s) && dest < |s.procs| && dest != s.ready && m.source == Pid(s.ready)
    requires !s.procs[dest].WaitsFor(Pid(s.ready))
    requires !G.Reaches(Edges(s.procs), dest, s.ready)
    ensures var s' := Enqueue(s, s.ready, dest, m);
            Entries(s') && Queues(s') && NoMissedRendezvous(s') && !G.HasCycle(Edges(s'.procs))
  {
    var src, s' := s.ready, Enqueue(s, s.ready, dest, m);
    assert EntryOk(s, src);
    forall p | 0 <= p < |s'.procs|
      ensures EntryOk(s', p)
    { assert EntryOk(s, p); }
    EnqueueKeepsQueues(s, dest, m);
    EdgesClosed(s);
    G.NewEdgeClosesCycle(Edges(s.procs), src, dest);
    assert Edges(s'.procs) == Edges(s.procs)[src := Some(dest)];
  }

  lemma TakeKeepsQueues(s: Sys, src: nat)
    requires Inv(s) && src < |s.procs| && src in s.queue[s.ready]
    ensures Queues(Take(s, s.ready, src))
  {
    var d, s' := s.ready, Take(s, s.ready, src);
    assert NoDup(s.queue[d]);
    RemoveFirstMembers(s.queue[d], src);
    assert s'.queue[d] == RemoveFirst(s.queue[d], src);
    forall e, i | 0 <= e < |s'.queue| && 0 <= i < |s'.queue[e]|
      ensures s'.queue[e][i] < |s'.procs| && s'.procs[s'.queue[e][i]].sending && s'.procs[s'.queue[e][i]].sendto == Pid(e)
    {
      var x := s'.queue[e][i];
      assert x in s.queue[e] && x != src;
    }
    forall p | 0 <= p < |s'.procs| && s'.procs[p].sending
      ensures s'.procs[p].sendto.Pid? && s'.procs[p].sendto.pid < |s'.queue| && p in s'.queue[s'.procs[p].sendto.pid]
    {
      assert s.procs[p].sending && p != src;
    }
  }

  lemma TakeKeepsEntries(s: Sys, src: nat)
    requires Inv(s) && src < |s.procs| && src in s.queue[s.ready]
    ensures Entries(Take(s, s.ready, src))
    ensures !G.HasCycle(Edges(Take(s, s.ready, src).procs))
  {
    var s' := Take(s, s.ready, src);
    assert EntryOk(s, src) && EntryOk(s, s.ready) && src != s.ready;
    G.RemovedEdgeClosesNoCycle(Edges(s.procs), src);
    hide Queues, NoMissedRendezvous, G.HasCycle;
    forall p | 0 <= p < |s'.procs|
      ensures EntryOk(s', p)
    { assert EntryOk(s, p); }
    assert Edges(s'.procs) == Edges(s.procs)[src := None];
  }

  lemma TakeMissesNothing(s: Sys, src: nat)
    requires Inv(s) && src < |s.procs| && src in s.queue[s.ready]
    requires Queues(Take(s, s.ready, src))
    ensures NoMissedRendezvous(Take(s, s.ready, src))
  {
    assert EntryOk(s, src) && src != s.ready;
    hide Entries, G.HasCycle, NoDup, EntryOk;
  }

  lemma TakeKeeps(s: Sys, src: nat)
    requires Inv(s) && src < |s.procs| && src in s.queue[s.ready]
    ensures Inv(Take(s, s.ready, src))
  {
    TakeKeepsQueues(s, src);
    TakeKeepsEntries(s, src);
    TakeMissesNothing(s, src);
    assert EntryOk(s, src) && src != s.ready;
    hide Entries, Queues, NoMissedRendezvous, G.HasCycle;
  }

  lemma AwaitKeeps(s: Sys, src: Peer, m: Message)
    requires Inv(s) && !s.procs[s.ready].hasInt && Available(s, s.ready, src).None?
    requires src != NoTask && src != Pid(s.ready) && (src.Pid? ==> src.pid < |s.procs|)
    ensures var s' := Await(s, s.ready, src, m);
            Entries(s') && Queues(s') && NoMissedRendezvous(s') && !G.HasCycle(Edges(s'.procs))
  {
    var s' := Await(s, s.ready, src, m);
    assert Entries(s') && Edges(s'.procs) == Edges(s.procs) by {
      hide Queues, NoMissedRendezvous, G.HasCycle;
      forall p | 0 <= p < |s'.procs|
        ensures EntryOk(s', p)
      { assert EntryOk(s, p); }
    }
    hide Entries, EntryOk, Edges, G.HasCycle, NoDup;
  }

  lemma InformKeepsEntries(s: Sys, task: nat)
    requires Inv(s) && task < |s.procs|
    ensures Fits(s) && Entries(InformInt(s, task))
    ensures Edges(InformInt(s, task).procs) == Edges(s.procs)
  {
    assert Fits(s);
    hide Queues, NoMissedRendezvous, G.HasCycle;
    var s' := InformInt(s, task);
    forall p | 0 <= p < |s'.procs|
      ensures EntryOk(s', p)
    { assert EntryOk(s, p); }
  }

  lemma InformKeeps(s: Sys, task: nat)
    requires Inv(s) && task < |s.procs|
    ensures Inv(InformInt(s, task))
  {
    InformKeepsEntries(s, task);
    assert EntryOk(s, task);
    hide Entries, EntryOk, Edges, G.HasCycle, NoDup;
    var s' := InformInt(s, task);
    assert Queues(s') by { hide NoMissedRendezvous; }
    hide Queues;
  }

  lemma ChargeKeeps(s: Sys)
    requires Inv(s)
    ensures Inv(Charge(s)) && |Charge(s).procs| == |s.procs|
  {
    KeepsUnderTicks(s, Charge(s));
    hide Entries, Queues, NoMissedRendezvous, Edges, G.HasCycle;
  }

  lemma ClockKeeps(s: Sys, key: bool, tty: nat, reenter: bool)
    requires Inv(s) && tty < |s.procs|
    ensures Clock(s, key, tty, reenter).Ok? ==>
              Inv(Clock(s, key, tty, reenter).value) && |Clock(s, key, tty, reenter).value.procs| == |s.procs|
  {
    var charged := Charge(s);
    ChargeKeeps(s);
    if key { InformKeeps(charged, tty); }
    RescheduleKeeps(if key then InformInt(charged, tty) else charged);
    hide Entries, Queues, NoMissedRendezvous, Edges, G.HasCycle, Charge, Reschedule;
  }

  /** Every step from a good state leads to a good state, unless the kernel halts. */
  lemma NextKeepsInv(s: Sys, step: Step)
    requires Inv(s) && Addressed(|s.procs|, step)
    ensures Next(s, step).Ok? ==> Inv(Next(s, step).value) && |Next(s, step).value.procs| == |s.procs|
  {
    match step {
      case DoSend(dest, m) =>
        var stamped := m.(source := Pid(s.ready));
        if dest != s.ready && !G.Reaches(Edges(s.procs), dest, s.ready) {
          if s.procs[dest].WaitsFor(Pid(s.ready)) {
            HandOverKeeps(s, dest, stamped);
          } else {
            EnqueueKeeps(s, dest, stamped);
            RescheduleKeeps(Enqueue(s, s.ready, dest, stamped));
          }
        }
      case DoReceive(src, m) =>
        ReceiveKeeps(s, src, m);
      case DoInterrupt(task) =>
        InformKeeps(s, task);
      case DoClock(key, tty, reenter) =>
        ClockKeeps(s, key, tty, reenter);
    }
  }

  lemma AvailableIsQueued(s: Sys, src: Peer)
    requires Inv(s) && Available(s, s.ready, src).Some?
    ensures Available(s, s.ready, src).value in s.queue[s.ready]
  {
  }

  lemma ReceiveKeeps(s: Sys, src: Peer, m: Message)
    requires Inv(s)
    ensures Receive(s, src, m).Ok? ==> Inv(Receive(s, src, m).value) && |Receive(s, src, m).value.procs| == |s.procs|
  {
    var p, stamped := s.ready, m.(source := Pid(s.ready));
    if Receive(s, src, m).Ok? {
      if s.procs[p].hasInt && (src == Any || src == Interrupt) {
        var s' := TakeInterrupt(s, p);
        forall q | 0 <= q < |s'.procs|
          ensures EntryOk(s', q)
        { assert EntryOk(s, q); }
        assert Edges(s'.procs) == Edges(s.procs);
      } else if Available(s, p, src).Some? {
        AvailableIsQueued(s, src);
        TakeKeeps(s, Available(s, p, src).value);
      } else {
        AwaitKeeps(s, src, stamped);
        RescheduleKeeps(Await(s, p, src, stamped));
      }
    }
  }

  // ---------------------------------------------------------------- runs

  /**
   `states` are the states of a run without a halt, `steps` what happened between them. Only the first
   state is required to be good; that the others are good too is what makes `Next` apply to them.
   */
  ghost predicate IsRun(states: seq<Sys>, steps: seq<Step>) {
    && |states| == |steps| + 1
    && Inv(states[0])
    && forall i :: 0 <= i < |steps| && Inv(states[i]) ==>
         Addressed(|states[i].procs|, steps[i]) && Next(states[i], steps[i]) == Ok(states[i + 1])
  }

  lemma RunTail(states: seq<Sys>, steps: seq<Step>)
    requires IsRun(states, steps) && steps != []
    ensures IsRun(states[1..], steps[1..])
  {
    assert Next(states[0], steps[0]) == Ok(states[0 + 1]);
    NextKeepsInv(states[0], steps[0]);
    hide Inv, Next;
    forall i | 0 <= i < |steps[1..]| && Inv(states[1..][i])
      ensures Addressed(|states[1..][i].procs|, steps[1..][i])
      ensures Next(states[1..][i], steps[1..][i]) == Ok(states[1..][i + 1])
    {
      assert Next(states[i + 1], steps[i + 1]) == Ok(states[i + 1 + 1]);
    }
  }

  /** Every state of every run is good. */
  lemma {:induction false} RunKeepsInv(states: seq<Sys>, steps: seq<Step>, k: nat)
    requires IsRun(states, steps) && k <= |steps|
    ensures Inv(states[k]) && |states[k].procs| == |states[0].procs|
  {
    if k > 0 {
      RunKeepsInv(states, steps, k - 1);
      var i := k - 1;
      assert Next(states[i], steps[i]) == Ok(states[i + 1]);
      hide Inv, Next;
      NextKeepsInv(states[i], steps[i]);
    }
  }

  /** All processes idle, no queue, nothing pending, nothing accepted yet. */
  ghost predicate Initial(s: Sys) {
    && s.ready < |s.procs| && |s.queue| == |s.procs| && s.log == []
    && !s.procs[s.ready].free
    && (forall d :: 0 <= d < |s.queue| ==> s.queue[d] == [])
    && forall p :: 0 <= p < |s.procs| ==>
         && !s.procs[p].sending && !s.procs[p].receiving
         && (!s.procs[p].free ==>
               !s.procs[p].pMsg && s.procs[p].sendto == NoTask && s.procs[p].recvfrom == NoTask)
  }

  lemma InitialInv(s: Sys)
    requires Initial(s)
    ensures Inv(s)
  {
    G.NoEdgesNoCycle(Edges(s.procs));
  }

  /** From a good state the chain of blocked senders of any process ends at one that is not sending. */
  lemma ChainsEnd(s: Sys, p: nat)
    requires Inv(s) && p < |s.procs|
    ensures exists end :: 0 <= end < |s.procs| && !s.procs[end].sending && G.Reaches(Edges(s.procs), p, end)
  {
    EdgesClosed(s);
    G.EveryChainEnds(Edges(s.procs), p);
    var end :| 0 <= end < |s.procs| && Edges(s.procs)[end].None? && G.Reaches(Edges(s.procs), p, end);
    assert EntryOk(s, end);
  }

  // ---------------------------------------------------------------- the assertions inside a step

  /** What the code asserts of a process that is not blocked. */
  predicate Idle(e: Proc) {
    e.Runnable() && !e.pMsg && e.recvfrom == NoTask && e.sendto == NoTask
  }

  /** What it asserts of a process that is blocked as a sender to `dest`, and as a receiver. */
  predicate BlockedSender(e: Proc, dest: nat) {
    e.sending && !e.receiving && !e.free && e.pMsg && e.recvfrom == NoTask && e.sendto == Pid(dest)
  }

  predicate BlockedReceiver(e: Proc) {
    e.receiving && !e.sending && !e.free && e.pMsg && e.recvfrom != NoTask && e.sendto == NoTask && !e.hasInt
  }

  lemma RunningIsIdle(s: Sys)
    requires Inv(s)
    ensures Idle(s.procs[s.ready])
  {
    assert EntryOk(s, s.ready);
  }

  /** Whoever RECEIVE takes a message from is blocked on the caller, whose queue is not empty. */
  lemma SenderIsBlocked(s: Sys, src: Peer)
    requires Inv(s) && Available(s, s.ready, src).Some?
    ensures s.queue[s.ready] != [] && BlockedSender(s.procs[Available(s, s.ready, src).value], s.ready)
  {
    AvailableIsQueued(s, src);
    assert EntryOk(s, Available(s, s.ready, src).value);
  }

  /** The assertions of msg_send() after the deadlock test. */
  lemma SendAssertions(s: Sys, dest: nat, m: Message)
    requires Inv(s) && dest < |s.procs| && Send(s, dest, m).Ok?
    ensures var s' := Send(s, dest, m).value;
            if s.procs[dest].WaitsFor(Pid(s.ready)) then
              s.procs[dest].pMsg && Idle(s'.procs[dest]) && Idle(s'.procs[s.ready])
            else
              BlockedSender(s'.procs[s.ready], dest)
  {
    RunningIsIdle(s);
    assert EntryOk(s, dest);
    var after := Enqueue(s, s.ready, dest, m.(source := Pid(s.ready)));
    hide Inv, Edges, G.Reaches;
    assert Reschedule(after).Ok? ==> SameExceptTicks(after, Reschedule(after).value);
  }

  /** The assertions of msg_receive(), on the state after it or, for a queued message, before it. */
  lemma ReceiveAssertions(s: Sys, src: Peer, m: Message)
    requires Inv(s) && Receive(s, src, m).Ok?
    ensures var p, s' := s.ready, Receive(s, src, m).value;
            if s.procs[p].hasInt && (src == Any || src == Interrupt) then
              Idle(s'.procs[p]) && !s'.procs[p].hasInt
            else if Available(s, p, src).Some? then
              Idle(s.procs[p]) && s.queue[p] != [] && BlockedSender(s.procs[Available(s, p, src).value], p)
            else
              BlockedReceiver(s'.procs[p])
  {
    hide Entries, NoMissedRendezvous, G.HasCycle, NoDup, Take, Best;
    RunningIsIdle(s);
    if Available(s, s.ready, src).Some? { SenderIsBlocked(s, src); }
    var after := Await(s, s.ready, src, m.(source := Pid(s.ready)));
    hide Inv, Available;
    assert Reschedule(after).Ok? ==> SameExceptTicks(after, Reschedule(after).value);
  }

  // ---------------------------------------------------------------- exact halting conditions

  /** SEND is refused exactly for a message to oneself and for one that would close a circle of senders. */
  lemma SendPanicsIff(s: Sys, dest: nat, m: Message)
    requires Inv(s) && dest < |s.procs|
    ensures Send(s, dest, m) == Panic <==>
            dest == s.ready || G.HasCycle(Edges(s.procs)[s.ready := Some(dest)])
  {
    EdgesClosed(s);
    assert EntryOk(s, s.ready);
    G.NewEdgeClosesCycle(Edges(s.procs), s.ready, dest);
  }

  /**
   RECEIVE from a valid peer is refused exactly when the caller names a process that is not sending
   to it while an interrupt is pending: the assertion `has_int_msg == 0` before blocking.
   */
  lemma ReceivePanicsIff(s: Sys, src: Peer, m: Message)
    requires Inv(s) && src != NoTask && src != Pid(s.ready) && (src.Pid? ==> src.pid < |s.procs|)
    ensures Receive(s, src, m) == Panic <==>
            src.Pid? && s.procs[s.ready].hasInt && src.pid !in s.queue[s.ready]
  {
    if src.Pid? {
      assert EntryOk(s, src.pid);
      if src.pid in s.queue[s.ready] {
        assert Available(s, s.ready, src).Some?;
      }
    }
  }

  // ---------------------------------------------------------------- runs that halt

  /** Two processes after boot, with one tick each. */
  function TwoProcesses(m: Message): Sys {
    var p := Proc(false, false, false, false, m, NoTask, NoTask, false, 1, 1);
    Sys([p, p], [[], []], 0, [])
  }

  /** An interrupt is pending, and its task asks another one for something first: the kernel panics. */
  lemma NamedReceivePanics(m: Message)
    ensures var s0, steps := TwoProcesses(m), [DoInterrupt(0)];
            var s1 := InformInt(s0, 0);
            Initial(s0) && IsRun([s0, s1], steps) && Inv(s1) && Next(s1, DoReceive(Pid(1), m)) == Panic
  {
    var s0 := TwoProcesses(m);
    var s1 := InformInt(s0, 0);
    InitialInv(s0);
    InformKeeps(s0, 0);
    hide Inv, Receive;
    assert s1.procs[0].hasInt && s1.queue[0] == [] && s1.ready == 0 && |s1.procs| == 2;
    ReceivePanicsIff(s1, Pid(1), m);
  }

  /** Both processes receive from anybody: the second one leaves the scheduler without a choice. */
  lemma AllReceivingHangs(m: Message)
    ensures var s0, step := TwoProcesses(m), DoReceive(Any, m);
            && Initial(s0) && Inv(s0) && Next(s0, step).Ok?
            && var s1 := Next(s0, step).value;
               IsRun([s0, s1], [step]) && Inv(s1) && s1.ready == 1 && Next(s1, step) == Hang
  {
    var s0, step := TwoProcesses(m), DoReceive(Any, m);
    InitialInv(s0);
    var blocked := Await(s0, 0, Any, m.(source := Pid(0)));
    assert Best(blocked.procs, 0) == None && Best(blocked.procs, 1) == None;
    assert Best(blocked.procs, 2) == Some(1);
    var s1 := blocked.(ready := 1);
    assert Receive(s0, Any, m) == Ok(s1);
    NextKeepsInv(s0, step);
    hide Inv;
    var both := Await(s1, 1, Any, m.(source := Pid(1)));
    NobodyToChoose(both.procs, 2);
    NobodyToChoose(Refilled(both.procs), 2);
  }

  lemma {:induction false} NobodyToChoose(procs: seq<Proc>, k: nat)
    requires k <= |procs| && forall p :: 0 <= p < |procs| ==> !procs[p].Runnable()
    ensures Best(procs, k).None?
  {
    if k > 0 { NobodyToChoose(procs, k - 1); }
  }
}
