/** What one step does to the processes that meet in it, and that it leaves all others alone. */
module IpcRendezvous {
  import opened Prelude
  import opened Ipc
  import opened IpcInvariant
  import G = SendGraph

  predicate TakesInterrupt(s: Sys, src: Peer)
    requires Fits(s)
  {
    s.procs[s.ready].hasInt && (src == Any || src == Interrupt)
  }

  predicate TakesMessage(s: Sys, src: Peer)
    requires Fits(s)
  {
    !TakesInterrupt(s, src) && Available(s, s.ready, src).Some?
  }

  /** The entry differs in nothing but ticks and the note of an interrupt. */
  predicate Alike(e: Proc, e': Proc) {
    e' == e.(ticks := e'.ticks, hasInt := e'.hasInt)
  }

  /** The message of an interrupt is in the buffer, and the process does not wait. */
  ghost predicate Told(e: Proc) {
    e.buf.source == Interrupt && e.buf.kind == HARD_INT && !e.receiving
  }

  lemma InvFits(s: Sys)
    requires Inv(s)
    ensures Fits(s) && Queues(s)
  {
  }

  lemma AvailableIsThere(s: Sys, src: Peer)
    requires Inv(s) && Available(s, s.ready, src).Some?
    ensures Available(s, s.ready, src).value < |s.procs| && BlockedSender(s.procs[Available(s, s.ready, src).value], s.ready)
  {
    SenderIsBlocked(s, src);
  }

  lemma ChargeSpares(s: Sys)
    requires Fits(s)
    ensures Charge(s) == s.(procs := Charge(s).procs) && |Charge(s).procs| == |s.procs|
    ensures forall p :: 0 <= p < |s.procs| ==> Charge(s).procs[p] == s.procs[p].(ticks := Charge(s).procs[p].ticks)
  {
  }

  // ---------------------------------------------------------------- what reaches the buffers

  /** Each message that was delivered between the two states is in the buffer of its receiver. */
  ghost predicate Arrived(s: Sys, s': Sys) {
    && s.log <= s'.log
    && forall i :: |s.log| <= i < |s'.log| && s'.log[i].Delivered? ==>
         s'.log[i].dest < |s'.procs| && s'.procs[s'.log[i].dest].buf == s'.log[i].m
  }

  lemma RescheduleSpares(s: Sys)
    requires Reschedule(s).Ok?
    ensures var s' := Reschedule(s).value;
            s'.log == s.log && s'.queue == s.queue && |s'.procs| == |s.procs|
            && forall p :: 0 <= p < |s.procs| ==> s'.procs[p] == s.procs[p].(ticks := s'.procs[p].ticks)
  {
  }

  /**
   SEND hands in exactly the caller's message, with the caller as its source. A receiver that waits for
   it has it in its buffer at once and can run; otherwise it is the caller who keeps it and blocks.
   */
  lemma SendHandsIn(s: Sys, dest: nat, m: Message)
    requires Inv(s) && dest < |s.procs| && Send(s, dest, m).Ok?
    ensures var s', mine := Send(s, dest, m).value, m.(source := Pid(s.ready));
            && |s'.procs| == |s.procs|
            && if s.procs[dest].WaitsFor(Pid(s.ready)) then
                 && s'.log == s.log + [Accepted(dest, mine), Delivered(dest, mine)] && s'.ready == s.ready
                 && s'.procs[dest].buf == mine && s'.procs[dest].Runnable()
               else
                 && s'.log == s.log + [Accepted(dest, mine)]
                 && s'.procs[s.ready].buf == mine && BlockedSender(s'.procs[s.ready], dest)
  {
    hide Queues, NoMissedRendezvous, G.HasCycle, G.Reaches, Edges, Reschedule;
    InvFits(s);
    SendAssertions(s, dest, m);
    if !s.procs[dest].WaitsFor(Pid(s.ready)) {
      RescheduleSpares(Enqueue(s, s.ready, dest, m.(source := Pid(s.ready))));
    }
  }

  /** RECEIVE hands in nothing. It logs the message it takes, which is in the caller's buffer then, or nothing. */
  lemma ReceiveTakes(s: Sys, src: Peer, m: Message)
    requires Inv(s) && Receive(s, src, m).Ok?
    ensures var s' := Receive(s, src, m).value;
            && |s'.procs| == |s.procs|
            && if TakesMessage(s, src) then
                 && s'.log == s.log + [Delivered(s.ready, s'.procs[s.ready].buf)] && s'.ready == s.ready
                 && s'.procs[s.ready].buf == s.procs[Available(s, s.ready, src).value].buf
                 && Idle(s'.procs[Available(s, s.ready, src).value])
               else
                 && s'.log == s.log
                 && (TakesInterrupt(s, src) ==> s'.ready == s.ready && Told(s'.procs[s.ready]) && !s'.procs[s.ready].hasInt)
  {
    hide NoMissedRendezvous, G.HasCycle, Reschedule, RemoveFirst;
    RunningIsIdle(s);
    if Available(s, s.ready, src).Some? { SenderIsBlocked(s, src); }
    var after := Await(s, s.ready, src, m.(source := Pid(s.ready)));
    if Reschedule(after).Ok? { RescheduleSpares(after); }
    hide Entries, Queues;
  }

  lemma InterruptSpares(s: Sys, task: nat)
    requires Fits(s) && task < |s.procs|
    ensures var s' := InformInt(s, task);
            && s'.log == s.log && s'.queue == s.queue && s'.ready == s.ready && |s'.procs| == |s.procs|
            && (forall p :: 0 <= p < |s.procs| && p != task ==> s'.procs[p] == s.procs[p])
            && (!s.procs[task].receiving ==> Alike(s.procs[task], s'.procs[task]))
            && s'.procs[task].priority == s.procs[task].priority && s'.procs[task].free == s.procs[task].free
  {
  }

  lemma ClockSpares(s: Sys, key: bool, tty: nat, reenter: bool)
    requires Fits(s) && tty < |s.procs| && Clock(s, key, tty, reenter).Ok?
    ensures var s' := Clock(s, key, tty, reenter).value;
            && s'.log == s.log && s'.queue == s.queue && |s'.procs| == |s.procs|
            && (forall p :: 0 <= p < |s.procs| && !(key && p == tty && s.procs[p].receiving) ==>
                  Alike(s.procs[p], s'.procs[p]))
            && forall p :: 0 <= p < |s.procs| ==>
                 s'.procs[p].priority == s.procs[p].priority && s'.procs[p].free == s.procs[p].free
  {
    hide InformInt, Reschedule, Charge;
    ChargeSpares(s);
    var charged := Charge(s);
    InterruptSpares(charged, tty);
    var told := if key then InformInt(charged, tty) else charged;
    if Reschedule(told).Ok? { RescheduleSpares(told); }
  }

  /**
   The clock takes the processor away only outside the kernel, from a process that has used up its last
   tick; a nested tick is charged, and the key is passed on, all the same.
   */
  lemma ClockSwitchesIff(s: Sys, key: bool, tty: nat, reenter: bool)
    requires Inv(s) && tty < |s.procs|
    ensures reenter || s.procs[s.ready].ticks > 1 ==>
              && Clock(s, key, tty, reenter).Ok?
              && Clock(s, key, tty, reenter).value == (if key then InformInt(Charge(s), tty) else Charge(s))
              && Clock(s, key, tty, reenter).value.ready == s.ready
    ensures !reenter && s.procs[s.ready].ticks <= 1 ==>
              Clock(s, key, tty, reenter) == Reschedule(if key then InformInt(Charge(s), tty) else Charge(s))
    ensures var e := Charge(s).procs[s.ready];
            |Charge(s).procs| == |s.procs| && e.ticks == if s.procs[s.ready].ticks > 0 then s.procs[s.ready].ticks - 1 else 0
  {
    InvFits(s);
    ChargeSpares(s);
    InterruptSpares(Charge(s), tty);
    RunningIsIdle(s);
    hide Inv, Reschedule, InformInt;
  }

  /** In every step, whatever the log says was delivered is in the buffer of the receiver. */
  lemma NextArrives(s: Sys, step: Step)
    requires Inv(s) && Addressed(|s.procs|, step) && Next(s, step).Ok?
    ensures Arrived(s, Next(s, step).value)
  {
    hide Send, Receive, InformInt, Clock, Inv;
    InvFits(s);
    match step {
      case DoSend(dest, m) => SendHandsIn(s, dest, m);
      case DoReceive(src, m) => ReceiveTakes(s, src, m);
      case DoInterrupt(task) => InterruptSpares(s, task);
      case DoClock(key, tty, reenter) => ClockSpares(s, key, tty, reenter);
    }
  }

  // ---------------------------------------------------------------- what a blocked receiver waits for

  /** The caller of RECEIVE blocks exactly if there is neither an interrupt nor a message for it. */
  lemma ReceiveBlocksIff(s: Sys, src: Peer, m: Message)
    requires Inv(s) && Receive(s, src, m).Ok?
    ensures |Receive(s, src, m).value.procs| == |s.procs|
    ensures Receive(s, src, m).value.procs[s.ready].receiving <==>
              !TakesInterrupt(s, src) && Available(s, s.ready, src).None?
  {
    hide NoMissedRendezvous, G.HasCycle, Reschedule, RemoveFirst;
    RunningIsIdle(s);
    if Available(s, s.ready, src).Some? { SenderIsBlocked(s, src); }
    var after := Await(s, s.ready, src, m.(source := Pid(s.ready)));
    if Reschedule(after).Ok? { RescheduleSpares(after); }
    hide Entries, Queues;
  }

  /** Blocked in RECEIVE from `src`, the caller waits for whom it has named, and for nobody else. */
  ghost predicate Awaits(e: Proc, src: Peer) {
    && e.receiving
    && (forall q: nat :: e.WaitsFor(Pid(q)) <==> src == Any || src == Pid(q))
    && (e.WaitsFor(Interrupt) <==> src == Any || src == Interrupt)
  }

  lemma BlockedAsAsked(s: Sys, src: Peer, m: Message)
    requires Inv(s) && Receive(s, src, m).Ok? && !TakesInterrupt(s, src) && Available(s, s.ready, src).None?
    ensures |Receive(s, src, m).value.procs| == |s.procs| && Awaits(Receive(s, src, m).value.procs[s.ready], src)
  {
    hide Inv, Reschedule;
    InvFits(s);
    var after := Await(s, s.ready, src, m.(source := Pid(s.ready)));
    RescheduleSpares(after);
  }

  /** A send to a process that waits for it is never refused. */
  lemma WaiterIsReached(s: Sys, p: nat, m: Message)
    requires Inv(s) && p < |s.procs| && s.procs[p].WaitsFor(Pid(s.ready))
    ensures Send(s, p, m).Ok?
  {
    assert EntryOk(s, p);
    if G.Reaches(Edges(s.procs), p, s.ready) { G.DropEdge(Edges(s.procs), p, s.ready); }
  }

  /** BOTH in two steps: whoever the caller has asked for is handed over at once, all others are queued. */
  lemma ReceiveThenSend(s: Sys, src: Peer, m: Message, answer: Message)
    requires Inv(s) && Receive(s, src, m).Ok? && !TakesInterrupt(s, src) && Available(s, s.ready, src).None?
    ensures var p, s1 := s.ready, Receive(s, src, m).value;
            var q := s1.ready;
            var mine := answer.(source := Pid(q));
            && Inv(s1) && q != p && p < |s1.procs|
            && if src == Any || src == Pid(q) then
                 && Send(s1, p, answer).Ok?
                 && var s2 := Send(s1, p, answer).value;
                    && s2.log == s.log + [Accepted(p, mine), Delivered(p, mine)]
                    && p < |s2.procs| && s2.procs[p].buf == mine && s2.procs[p].Runnable()
               else
                 Send(s1, p, answer).Ok? ==>
                   Send(s1, p, answer).value.log == s.log + [Accepted(p, mine)]
  {
    var p, s1 := s.ready, Receive(s, src, m).value;
    ReceiveKeeps(s, src, m);
    BlockedAsAsked(s, src, m);
    ReceiveTakes(s, src, m);
    RunningIsIdle(s1);
    hide Inv, Send, Receive, Available;
    if src == Any || src == Pid(s1.ready) { WaiterIsReached(s1, p, answer); }
    if Send(s1, p, answer).Ok? { SendHandsIn(s1, p, answer); }
  }

  lemma ReceiveThenInterrupt(s: Sys, src: Peer, m: Message)
    requires Inv(s) && Receive(s, src, m).Ok? && !TakesInterrupt(s, src) && Available(s, s.ready, src).None?
    ensures var p, s1 := s.ready, Receive(s, src, m).value;
            && Fits(s1) && p < |s1.procs| && |InformInt(s1, p).procs| == |s1.procs|
            && var e := InformInt(s1, p).procs[p];
               if src == Any || src == Interrupt then Told(e) && e.Runnable() && !e.hasInt
               else Awaits(e, src) && e.hasInt
  {
    ReceiveKeeps(s, src, m);
    BlockedAsAsked(s, src, m);
    var s1 := Receive(s, src, m).value;
    assert EntryOk(s1, s.ready);
    hide Receive, Queues, NoMissedRendezvous, G.HasCycle;
  }

  /**
   A blocked receiver is left as it is until somebody it waits for sends to it, or an interrupt comes
   that it waits for.
   */
  lemma NextKeepsWaiting(s: Sys, step: Step, p: nat)
    requires Inv(s) && Addressed(|s.procs|, step) && Next(s, step).Ok? && p < |s.procs| && s.procs[p].receiving
    ensures var s' := Next(s, step).value;
            && |s'.procs| == |s.procs|
            && var e, e' := s.procs[p], s'.procs[p];
               if e'.receiving then Alike(e, e')
               else if step.DoSend? then
                 && step.dest == p && e.WaitsFor(Pid(s.ready)) && e'.buf == step.m.(source := Pid(s.ready))
                 && s'.log == s.log + [Accepted(p, e'.buf), Delivered(p, e'.buf)]
               else
                 && (step == DoInterrupt(p) || (step.DoClock? && step.key && step.tty == p))
                 && e.WaitsFor(Interrupt) && Told(e')
  {
    InvFits(s);
    RunningIsIdle(s);
    hide Inv, Send, Receive, InformInt, Clock;
    match step {
      case DoSend(dest, m) => SendKeepsWaiting(s, dest, m, p);
      case DoReceive(src, m) => ReceiveKeepsWaiting(s, src, m, p);
      case DoInterrupt(task) => InterruptKeepsWaiting(s, task, p);
      case DoClock(key, tty, reenter) => ClockKeepsWaiting(s, key, tty, reenter, p);
    }
  }

  lemma SendKeepsWaiting(s: Sys, dest: nat, m: Message, p: nat)
    requires Inv(s) && dest < |s.procs| && Send(s, dest, m).Ok? && p < |s.procs| && s.procs[p].receiving
    ensures var s' := Send(s, dest, m).value;
            && |s'.procs| == |s.procs|
            && var e, e' := s.procs[p], s'.procs[p];
               if e'.receiving then Alike(e, e')
               else dest == p && e.WaitsFor(Pid(s.ready)) && e'.buf == m.(source := Pid(s.ready))
                    && s'.log == s.log + [Accepted(p, e'.buf), Delivered(p, e'.buf)]
  {
    InvFits(s);
    RunningIsIdle(s);
    SendHandsIn(s, dest, m);
    hide Inv, Edges, G.Reaches, Reschedule;
    if !s.procs[dest].WaitsFor(Pid(s.ready)) {
      RescheduleSpares(Enqueue(s, s.ready, dest, m.(source := Pid(s.ready))));
    }
  }

  lemma ReceiveKeepsWaiting(s: Sys, src: Peer, m: Message, p: nat)
    requires Inv(s) && Receive(s, src, m).Ok? && p < |s.procs| && s.procs[p].receiving
    ensures |Receive(s, src, m).value.procs| == |s.procs|
    ensures s.ready != p && Receive(s, src, m).value.procs[p].receiving && Alike(s.procs[p], Receive(s, src, m).value.procs[p])
  {
    hide Inv, Available, Reschedule, RemoveFirst, NoDup;
    InvFits(s);
    RunningIsIdle(s);
    if Available(s, s.ready, src).Some? { AvailableIsThere(s, src); }
    var after := Await(s, s.ready, src, m.(source := Pid(s.ready)));
    if Reschedule(after).Ok? { RescheduleSpares(after); }
  }

  lemma InterruptKeepsWaiting(s: Sys, task: nat, p: nat)
    requires Fits(s) && task < |s.procs| && p < |s.procs| && s.procs[p].receiving
    ensures |InformInt(s, task).procs| == |s.procs|
    ensures var e, e' := s.procs[p], InformInt(s, task).procs[p];
            if e'.receiving then Alike(e, e') else task == p && e.WaitsFor(Interrupt) && Told(e')
  {
  }

  lemma ClockKeepsWaiting(s: Sys, key: bool, tty: nat, reenter: bool, p: nat)
    requires Fits(s) && tty < |s.procs| && Clock(s, key, tty, reenter).Ok? && p < |s.procs| && s.procs[p].receiving
    ensures |Clock(s, key, tty, reenter).value.procs| == |s.procs|
    ensures var e, e' := s.procs[p], Clock(s, key, tty, reenter).value.procs[p];
            if e'.receiving then Alike(e, e') else key && tty == p && e.WaitsFor(Interrupt) && Told(e')
  {
    hide InformInt, Reschedule, Charge;
    ChargeSpares(s);
    var charged := Charge(s);
    InterruptSpares(charged, tty);
    InterruptKeepsWaiting(charged, tty, p);
    var told := if key then InformInt(charged, tty) else charged;
    if Reschedule(told).Ok? { RescheduleSpares(told); }
  }

  /** As long as it stays blocked, over any run, a receiver waits for whom it has asked. */
  lemma {:induction false} WaitsOn(states: seq<Sys>, steps: seq<Step>, src: Peer, p: nat, k: nat)
    requires IsRun(states, steps) && k <= |steps| && p < |states[0].procs| && Awaits(states[0].procs[p], src)
    requires forall j :: 0 <= j <= k && p < |states[j].procs| ==> states[j].procs[p].receiving
    ensures Inv(states[k]) && p < |states[k].procs| && Awaits(states[k].procs[p], src)
  {
    RunKeepsInv(states, steps, k);
    if k > 0 {
      var i := k - 1;
      WaitsOn(states, steps, src, p, i);
      assert Next(states[i], steps[i]) == Ok(states[i + 1]);
      hide Inv, Next;
      NextKeepsWaiting(states[i], steps[i], p);
    }
  }

  /**
   Over any run: a blocked RECEIVE from `src` ends with the message of a process that `src` admits, in
   the buffer as that process handed it in, or with an interrupt if `src` admits that.
   */
  lemma AnsweredAsAsked(states: seq<Sys>, steps: seq<Step>, src: Peer, p: nat, k: nat)
    requires IsRun(states, steps) && 0 < k <= |steps| && p < |states[0].procs| && Awaits(states[0].procs[p], src)
    requires forall j :: 0 <= j < k && p < |states[j].procs| ==> states[j].procs[p].receiving
    requires p < |states[k].procs| && !states[k].procs[p].receiving
    ensures var e, q := states[k].procs[p], states[k - 1].ready;
            if steps[k - 1].DoSend? then
              steps[k - 1].dest == p && (src == Any || src == Pid(q)) && e.buf == steps[k - 1].m.(source := Pid(q))
            else
              (src == Any || src == Interrupt) && Told(e)
  {
    var i := k - 1;
    WaitsOn(states, steps, src, p, i);
    assert Next(states[i], steps[i]) == Ok(states[i + 1]);
    hide Inv, Next;
    NextKeepsWaiting(states[i], steps[i], p);
  }

  // ---------------------------------------------------------------- what a step leaves alone

  /**
   A process that neither runs nor waits in RECEIVE is not touched, unless the running process takes the
   message that it is blocked with; then it can run again.
   */
  ghost predicate Spared(s: Sys, s': Sys, p: nat)
    requires p < |s.procs| == |s'.procs|
  {
    var e, e' := s.procs[p], s'.procs[p];
    || Alike(e, e')
    || (e.sending && e.sendto == Pid(s.ready) && Alike(e.Released(), e')
        && s'.log == s.log + [Delivered(s.ready, e.buf)]
        && s.ready < |s'.procs| && s'.procs[s.ready].buf == e.buf)
  }

  lemma SendSpares(s: Sys, dest: nat, m: Message, p: nat)
    requires Inv(s) && dest < |s.procs| && Send(s, dest, m).Ok? && p < |s.procs|
    ensures var s' := Send(s, dest, m).value;
            && |s'.procs| == |s.procs|
            && s'.procs[p].priority == s.procs[p].priority && s'.procs[p].free == s.procs[p].free
            && (p != s.ready && !s.procs[p].receiving ==> Alike(s.procs[p], s'.procs[p]))
  {
    InvFits(s);
    hide Inv, Edges, G.Reaches, Reschedule;
    if !s.procs[dest].WaitsFor(Pid(s.ready)) {
      RescheduleSpares(Enqueue(s, s.ready, dest, m.(source := Pid(s.ready))));
    }
  }

  lemma ReceiveSpares(s: Sys, src: Peer, m: Message, p: nat)
    requires Inv(s) && Receive(s, src, m).Ok? && p < |s.procs|
    ensures var s' := Receive(s, src, m).value;
            && |s'.procs| == |s.procs| && s.ready < |s.procs|
            && s'.procs[p].priority == s.procs[p].priority && s'.procs[p].free == s.procs[p].free
            && (p != s.ready ==> Spared(s, s', p))
  {
    hide Inv, Available, Reschedule, RemoveFirst, NoDup;
    InvFits(s);
    RunningIsIdle(s);
    if Available(s, s.ready, src).Some? { AvailableIsThere(s, src); }
    var after := Await(s, s.ready, src, m.(source := Pid(s.ready)));
    if Reschedule(after).Ok? { RescheduleSpares(after); }
  }

  /** No step changes a priority or frees an entry, and the others are left alone. */
  lemma NextSpares(s: Sys, step: Step, p: nat)
    requires Inv(s) && Addressed(|s.procs|, step) && Next(s, step).Ok? && p < |s.procs|
    ensures var s' := Next(s, step).value;
            && |s'.procs| == |s.procs| && s.ready < |s.procs|
            && s'.procs[p].priority == s.procs[p].priority && s'.procs[p].free == s.procs[p].free
            && (p != s.ready && !s.procs[p].receiving ==> Spared(s, s', p))
  {
    InvFits(s);
    hide Inv, Send, Receive, InformInt, Clock;
    match step {
      case DoSend(dest, m) => SendSpares(s, dest, m, p);
      case DoReceive(src, m) => ReceiveSpares(s, src, m, p);
      case DoInterrupt(task) => InterruptSpares(s, task);
      case DoClock(key, tty, reenter) => ClockSpares(s, key, tty, reenter);
    }
  }
}
