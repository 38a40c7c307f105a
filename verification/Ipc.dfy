/**
 The rendezvous protocol of the kernel, as functions on values.

 A process table entry keeps the fields that the message system and the scheduler use. The bits of
 `p_flags` are booleans; `p_msg` is the flag `pMsg` ("the pointer is set") together with `buf`, the
 MESSAGE it points at. The queues of blocked senders are sequences here; the class in Kernel.dfy
 holds the linked lists.
 */
module Ipc {
  import opened Prelude
  import G = SendGraph

  datatype Peer = NoTask | Any | Interrupt | Pid(pid: nat)

  const HARD_INT: int := 1

  datatype Message = Message(source: Peer, kind: int, body: seq<int>)

  datatype Proc = Proc(
    sending: bool, receiving: bool, free: bool,      // p_flags: SENDING, RECEIVING, FREE_SLOT
    pMsg: bool, buf: Message,
    recvfrom: Peer, sendto: Peer,
    hasInt: bool,
    ticks: nat, priority: nat)
  {
    predicate Runnable() { !sending && !receiving && !free }

    predicate WaitsFor(peer: Peer) { receiving && (recvfrom == peer || recvfrom == Any) }

    /** The wait is over: `m` is in the buffer and the process can run again. */
    function Awakened(m: Message): Proc {
      this.(buf := m, pMsg := false, receiving := false, recvfrom := NoTask)
    }

    function Released(): Proc {
      this.(pMsg := false, sendto := NoTask, sending := false)
    }
  }

  datatype Event =
    | Accepted(dest: nat, m: Message)    // the kernel took the message from a sender
    | Delivered(dest: nat, m: Message)   // it was copied into the receiver's buffer

  datatype Sys = Sys(procs: seq<Proc>, queue: seq<seq<nat>>, ready: nat, log: seq<Event>)

  /** `Panic` is a failed assertion or a detected deadlock; `Hang` is a scheduler loop without end. */
  datatype Outcome<+T> = Ok(value: T) | Panic | Hang

  // ---------------------------------------------------------------- scheduling

  /** The first process with the most ticks among the runnable ones below `k`; none if all are at 0. */
  function Best(procs: seq<Proc>, k: nat): (r: Option<nat>)
    requires k <= |procs|
    ensures r.Some? ==> r.value < k && procs[r.value].Runnable() && procs[r.value].ticks > 0
    ensures forall p :: 0 <= p < k && procs[p].Runnable() && procs[p].ticks > 0 ==>
              r.Some? && procs[p].ticks <= procs[r.value].ticks
    ensures forall p :: 0 <= p < k && r.Some? && procs[p].Runnable() && procs[p].ticks == procs[r.value].ticks ==>
              r.value <= p
  {
    if k == 0 then None
    else
      var b := Best(procs, k - 1);
      if procs[k - 1].Runnable() && procs[k - 1].ticks > (if b.Some? then procs[b.value].ticks else 0)
      then Some(k - 1) else b
  }

  function Refilled(procs: seq<Proc>): seq<Proc> {
    seq(|procs|, p requires 0 <= p < |procs| =>
      if procs[p].Runnable() then procs[p].(ticks := procs[p].priority) else procs[p])
  }

  /** Some runnable process has ticks left, or gets some from a refill. */
  predicate Schedulable(procs: seq<Proc>) {
    Best(procs, |procs|).Some? || Best(Refilled(procs), |procs|).Some?
  }

  function Reschedule(s: Sys): Outcome<Sys> {
    var b := Best(s.procs, |s.procs|);
    if b.Some? then Ok(s.(ready := b.value))
    else
      var procs := Refilled(s.procs);
      var c := Best(procs, |procs|);
      if c.Some? then Ok(s.(procs := procs, ready := c.value)) else Hang
  }

  // ---------------------------------------------------------------- message passing

  ghost function Edges(procs: seq<Proc>): G.Graph {
    seq(|procs|, p requires 0 <= p < |procs| =>
      if procs[p].sending && procs[p].sendto.Pid? then Some(procs[p].sendto.pid) else None)
  }

  predicate Fits(s: Sys) {
    |s.queue| == |s.procs| && s.ready < |s.procs|
  }

  /** A message of `src` goes straight into the buffer of the waiting process `dest`. */
  function HandOver(s: Sys, src: nat, dest: nat, m: Message): Sys
    requires Fits(s) && src < |s.procs| && dest < |s.procs|
  {
    var procs := s.procs[src := s.procs[src].(buf := m)];
    s.(procs := procs[dest := procs[dest].Awakened(m)],
       log := s.log + [Accepted(dest, m), Delivered(dest, m)])
  }

  /** `src` joins the end of the queue of `dest`. */
  function Enqueue(s: Sys, src: nat, dest: nat, m: Message): Sys
    requires Fits(s) && src < |s.procs| && dest < |s.procs|
  {
    s.(procs := s.procs[src := s.procs[src].(buf := m, pMsg := true, sendto := Pid(dest), sending := true)],
       queue := s.queue[dest := s.queue[dest] + [src]],
       log := s.log + [Accepted(dest, m)])
  }

  /** `dest` takes the message of the blocked sender `src`, who leaves the queue and can run again. */
  function Take(s: Sys, dest: nat, src: nat): Sys
    requires Fits(s) && src < |s.procs| && dest < |s.procs|
  {
    var m := s.procs[src].buf;
    var procs := s.procs[dest := s.procs[dest].(buf := m)];
    s.(procs := procs[src := procs[src].Released()],
       queue := s.queue[dest := RemoveFirst(s.queue[dest], src)],
       log := s.log + [Delivered(dest, m)])
  }

  function Await(s: Sys, p: nat, src: Peer, m: Message): Sys
    requires Fits(s) && p < |s.procs|
  {
    s.(procs := s.procs[p := s.procs[p].(buf := m, pMsg := true, recvfrom := src, receiving := true)])
  }

  function TakeInterrupt(s: Sys, p: nat): Sys
    requires Fits(s) && p < |s.procs|
  {
    s.(procs := s.procs[p := s.procs[p].(buf := Message(Interrupt, HARD_INT, []), hasInt := false)])
  }

  /** SEND by the running process. */
  ghost function Send(s: Sys, dest: nat, m: Message): Outcome<Sys>
    requires Fits(s) && dest < |s.procs|
  {
    var src := s.ready;
    var stamped := m.(source := Pid(src));
    if dest == src || G.Reaches(Edges(s.procs), dest, src) then Panic
    else if s.procs[dest].WaitsFor(Pid(src)) then Ok(HandOver(s, src, dest, stamped))
    else Reschedule(Enqueue(s, src, dest, stamped))
  }

  /** The sender whose message a RECEIVE from `src` can take at once. */
  function Available(s: Sys, p: nat, src: Peer): Option<nat>
    requires Fits(s) && p < |s.procs|
  {
    match src
    case Any => if s.queue[p] != [] then Some(s.queue[p][0]) else None
    case Pid(q) => if q < |s.procs| && s.procs[q].sending && s.procs[q].sendto == Pid(p) then Some(q) else None
    case _ => None
  }

  /** RECEIVE by the running process. */
  function Receive(s: Sys, src: Peer, m: Message): Outcome<Sys>
    requires Fits(s) && (forall i :: 0 <= i < |s.queue[s.ready]| ==> s.queue[s.ready][i] < |s.procs|)
  {
    var p := s.ready;
    if src == NoTask || src == Pid(p) || (src.Pid? && src.pid >= |s.procs|) then Panic
    else if s.procs[p].hasInt && (src == Any || src == Interrupt) then Ok(TakeInterrupt(s, p))
    else if Available(s, p, src).Some? then Ok(Take(s, p, Available(s, p, src).value))
    else if s.procs[p].hasInt then Panic
    else Reschedule(Await(s, p, src, m.(source := Pid(p))))
  }

  function InformInt(s: Sys, task: nat): Sys
    requires Fits(s) && task < |s.procs|
  {
    var p := s.procs[task];
    if p.WaitsFor(Interrupt) then
      s.(procs := s.procs[task := p.Awakened(p.buf.(source := Interrupt, kind := HARD_INT)).(hasInt := false)])
    else
      s.(procs := s.procs[task := p.(hasInt := true)])
  }

  /** One tick is charged to the running process. */
  function Charge(s: Sys): Sys
    requires Fits(s)
  {
    var p := s.procs[s.ready];
    if p.ticks > 0 then s.(procs := s.procs[s.ready := p.(ticks := p.ticks - 1)]) else s
  }

  function Clock(s: Sys, key: bool, tty: nat, reenter: bool): Outcome<Sys>
    requires Fits(s) && tty < |s.procs|
  {
    var charged := Charge(s);
    var told := if key then InformInt(charged, tty) else charged;
    if reenter || told.procs[told.ready].ticks > 0 then Ok(told) else Reschedule(told)
  }

  // ---------------------------------------------------------------- runs

  datatype Step =
    | DoSend(dest: nat, m: Message)
    | DoReceive(src: Peer, m: Message)
    | DoInterrupt(task: nat)
    | DoClock(key: bool, tty: nat, reenter: bool)

  predicate Addressed(n: nat, step: Step) {
    match step
    case DoSend(dest, _) => dest < n
    case DoReceive(_, _) => true
    case DoInterrupt(task) => task < n
    case DoClock(_, tty, _) => tty < n
  }
}
