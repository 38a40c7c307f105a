/** Every accepted message is delivered exactly once, unchanged, from its true sender, and in order. */
module IpcDelivery {
  import opened Prelude
  import opened Ipc
  import opened IpcInvariant
  import opened IpcRendezvous
  import G = SendGraph

  // ---------------------------------------------------------------- the ideal mailbox

  /** The mailbox of `d` after the events of `log`: a list from which delivery removes what it delivers. */
  function Pending(log: seq<Event>, d: nat): seq<Message> {
    if log == [] then [] else
      var before := Pending(log[..|log| - 1], d);
      match log[|log| - 1]
      case Accepted(dest, m) => if dest == d then before + [m] else before
      case Delivered(dest, m) => if dest == d then RemoveFirst(before, m) else before
  }

  /** Nothing was ever delivered that was not in the mailbox at that moment. */
  ghost predicate Justified(log: seq<Event>) {
    forall i :: 0 <= i < |log| && log[i].Delivered? ==> log[i].m in Pending(log[..i], log[i].dest)
  }

  /** What `p` handed in for `d`, and what `d` got from `p`, in order. */
  function Sent(log: seq<Event>, p: nat, d: nat): seq<Message> {
    if log == [] then [] else
      var e := log[|log| - 1];
      Sent(log[..|log| - 1], p, d) + if e.Accepted? && e.dest == d && e.m.source == Pid(p) then [e.m] else []
  }

  function Got(log: seq<Event>, p: nat, d: nat): seq<Message> {
    if log == [] then [] else
      var e := log[|log| - 1];
      Got(log[..|log| - 1], p, d) + if e.Delivered? && e.dest == d && e.m.source == Pid(p) then [e.m] else []
  }

  // ---------------------------------------------------------------- the kernel against the mailbox

  ghost function Boxed(s: Sys, d: nat): seq<Message>
    requires Queues(s) && d < |s.queue|
  {
    seq(|s.queue[d]|, i requires 0 <= i < |s.queue[d]| => s.procs[s.queue[d][i]].buf)
  }

  ghost predicate MailOk(s: Sys)
    requires Inv(s)
  {
    && Justified(s.log)
    && forall d :: 0 <= d < |s.procs| ==> Pending(s.log, d) == Boxed(s, d)
  }

  /** The one message of `p` to `d` that is still under way, if any. */
  function Outstanding(s: Sys, p: nat, d: nat): seq<Message>
    requires p < |s.procs|
  {
    if s.procs[p].sending && s.procs[p].sendto == Pid(d) then [s.procs[p].buf] else []
  }

  ghost predicate StreamsOk(s: Sys) {
    forall p, d :: 0 <= p < |s.procs| && 0 <= d < |s.procs| ==>
      Sent(s.log, p, d) == Got(s.log, p, d) + Outstanding(s, p, d)
  }

  lemma Append1(log: seq<Event>, e: Event)
    ensures (log + [e])[..|log|] == log
  {
  }

  lemma BoxedSourcesDiffer(s: Sys, d: nat)
    requires Inv(s) && d < |s.procs|
    ensures forall i :: 0 <= i < |s.queue[d]| ==> Boxed(s, d)[i].source == Pid(s.queue[d][i])
    ensures forall i, j :: 0 <= i < j < |s.queue[d]| ==> Boxed(s, d)[i] != Boxed(s, d)[j]
  {
    assert NoDup(s.queue[d]);
    forall i | 0 <= i < |s.queue[d]|
      ensures Boxed(s, d)[i].source == Pid(s.queue[d][i])
    { assert EntryOk(s, s.queue[d][i]); }
  }

  lemma JustifiedExtends(log: seq<Event>, e: Event)
    requires Justified(log) && (e.Delivered? ==> e.m in Pending(log, e.dest))
    ensures Justified(log + [e])
  {
    var longer := log + [e];
    forall i | 0 <= i < |longer| && longer[i].Delivered?
      ensures longer[i].m in Pending(longer[..i], longer[i].dest)
    {
      assert longer[..i] == log[..i];
      if i == |log| { assert log[..i] == log; }
    }
  }

  lemma PendingExtends(log: seq<Event>, e: Event, d: nat)
    ensures Pending(log + [e], d) ==
            if e.dest != d then Pending(log, d)
            else if e.Accepted? then Pending(log, d) + [e.m] else RemoveFirst(Pending(log, d), e.m)
  {
    Append1(log, e);
  }

  /** Accepting and delivering a message at once leaves every mailbox as it was. */
  lemma PassThrough(log: seq<Event>, dest: nat, m: Message)
    requires Justified(log) && m !in Pending(log, dest)
    ensures var log' := log + [Accepted(dest, m), Delivered(dest, m)];
            Justified(log') && forall d :: 0 <= d ==> Pending(log', d) == Pending(log, d)
  {
    var mid, box := log + [Accepted(dest, m)], Pending(log, dest);
    assert log + [Accepted(dest, m), Delivered(dest, m)] == mid + [Delivered(dest, m)];
    assert (box + [m])[|box|] == m;
    RemoveFirstAt(box + [m], |box|);
    assert (box + [m])[..|box|] + (box + [m])[|box| + 1..] == box;
    PendingExtends(log, Accepted(dest, m), dest);
    JustifiedExtends(log, Accepted(dest, m));
    JustifiedExtends(mid, Delivered(dest, m));
    forall d: nat
      ensures Pending(mid + [Delivered(dest, m)], d) == Pending(log, d)
    {
      PendingExtends(log, Accepted(dest, m), d);
      PendingExtends(mid, Delivered(dest, m), d);
    }
  }

  lemma HandOverMail(s: Sys, dest: nat, m: Message)
    requires Inv(s) && MailOk(s) && dest < |s.procs| && dest != s.ready && m.source == Pid(s.ready)
    requires s.procs[dest].WaitsFor(Pid(s.ready)) && Inv(HandOver(s, s.ready, dest, m))
    ensures MailOk(HandOver(s, s.ready, dest, m))
  {
    var s' := HandOver(s, s.ready, dest, m);
    BoxedSourcesDiffer(s, dest);
    assert Pending(s.log, dest) == Boxed(s, dest);
    PassThrough(s.log, dest, m);
    assert EntryOk(s, dest);
    hide Justified, Pending, Entries, EntryOk, NoMissedRendezvous, G.HasCycle, NoDup;
    forall d | 0 <= d < |s'.procs|
      ensures Pending(s'.log, d) == Boxed(s', d)
    {
      assert Pending(s.log, d) == Boxed(s, d);
      assert Boxed(s', d) == Boxed(s, d);
    }
  }

  lemma EnqueueMail(s: Sys, dest: nat, m: Message)
    requires Inv(s) && MailOk(s) && dest < |s.procs| && dest != s.ready
    requires Queues(Enqueue(s, s.ready, dest, m))
    ensures var s' := Enqueue(s, s.ready, dest, m);
            Justified(s'.log) && forall d :: 0 <= d < |s'.procs| ==> Pending(s'.log, d) == Boxed(s', d)
  {
    var s' := Enqueue(s, s.ready, dest, m);
    JustifiedExtends(s.log, Accepted(dest, m));
    hide Justified, Pending;
    forall d | 0 <= d < |s'.procs|
      ensures Pending(s'.log, d) == Boxed(s', d)
    {
      PendingExtends(s.log, Accepted(dest, m), d);
      assert Boxed(s', d) == if d == dest then Boxed(s, d) + [m] else Boxed(s, d);
    }
  }

  lemma OtherBoxAfterTake(s: Sys, src: nat, d: nat)
    requires Inv(s) && src < |s.procs| && d < |s.procs| && d != s.ready
    requires Queues(Take(s, s.ready, src))
    ensures Boxed(Take(s, s.ready, src), d) == Boxed(s, d)
  {
    hide Entries, NoMissedRendezvous, G.HasCycle, NoDup, RemoveFirst;
  }

  lemma BoxWithout(s: Sys, src: nat, k: nat)
    requires Fits(s) && Queues(s) && src < |s.procs| && !s.procs[s.ready].sending
    requires k < |s.queue[s.ready]| && s.queue[s.ready][k] == src
    requires Queues(Take(s, s.ready, src))
    ensures |Boxed(Take(s, s.ready, src), s.ready)| == |Boxed(s, s.ready)| - 1
    ensures forall i :: 0 <= i < |Boxed(s, s.ready)| - 1 ==>
              Boxed(Take(s, s.ready, src), s.ready)[i] == Boxed(s, s.ready)[if i < k then i else i + 1]
  {
    var r, q, s' := s.ready, s.queue[s.ready], Take(s, s.ready, src);
    RemoveFirstIndex(q, k);
    hide RemoveFirst, NoDup;
    forall i | 0 <= i < |q| - 1
      ensures Boxed(s', r)[i] == Boxed(s, r)[if i < k then i else i + 1]
    {
      var j := if i < k then i else i + 1;
      assert s'.queue[r][i] == q[j] && s.procs[q[j]].sending;
    }
  }

  lemma OwnBoxAfterTake(s: Sys, src: nat)
    requires Inv(s) && src < |s.procs| && src in s.queue[s.ready]
    requires Queues(Take(s, s.ready, src))
    ensures s.procs[src].buf in Boxed(s, s.ready)
    ensures Boxed(Take(s, s.ready, src), s.ready) == RemoveFirst(Boxed(s, s.ready), s.procs[src].buf)
  {
    var k :| 0 <= k < |s.queue[s.ready]| && s.queue[s.ready][k] == src;
    BoxedSourcesDiffer(s, s.ready);
    BoxWithout(s, src, k);
    assert Boxed(s, s.ready)[k] == s.procs[src].buf;
    assert NoDup(Boxed(s, s.ready));
    RemoveFirstIndex(Boxed(s, s.ready), k);
    hide Inv, Boxed, Take, RemoveFirst, NoDup;
  }

  lemma TakeMail(s: Sys, src: nat)
    requires Inv(s) && MailOk(s) && src < |s.procs| && src in s.queue[s.ready]
    requires Inv(Take(s, s.ready, src))
    ensures MailOk(Take(s, s.ready, src))
  {
    var d, s' := s.ready, Take(s, s.ready, src);
    var m := s.procs[src].buf;
    OwnBoxAfterTake(s, src);
    JustifiedExtends(s.log, Delivered(d, m));
    hide Justified, Pending, Entries, EntryOk, NoMissedRendezvous, G.HasCycle, Queues;
    forall e | 0 <= e < |s'.procs|
      ensures Pending(s'.log, e) == Boxed(s', e)
    {
      PendingExtends(s.log, Delivered(d, m), e);
      assert Pending(s.log, e) == Boxed(s, e);
      if e != d { OtherBoxAfterTake(s, src, e); }
    }
  }

  lemma MailUnderTicks(s: Sys, s': Sys)
    requires Queues(s) && Inv(s') && SameExceptTicks(s, s')
    requires Justified(s.log) && forall d :: 0 <= d < |s.procs| ==> Pending(s.log, d) == Boxed(s, d)
    ensures MailOk(s')
  {
    forall d | 0 <= d < |s'.procs|
      ensures Boxed(s', d) == Boxed(s, d)
    { }
  }

  /** Neither the queues nor the messages of blocked senders differ. */
  ghost predicate Quiet(s: Sys, s': Sys) {
    && s'.queue == s.queue && s'.log == s.log && |s'.procs| == |s.procs|
    && forall p :: 0 <= p < |s.procs| ==>
         && s'.procs[p].sending == s.procs[p].sending
         && (s.procs[p].sending ==> s'.procs[p].sendto == s.procs[p].sendto && s'.procs[p].buf == s.procs[p].buf)
  }

  lemma QuietMail(s: Sys, s': Sys)
    requires Inv(s) && MailOk(s) && Inv(s') && Quiet(s, s')
    ensures MailOk(s')
  {
    forall d | 0 <= d < |s'.procs|
      ensures Boxed(s', d) == Boxed(s, d)
    { }
  }

  lemma InformIsQuiet(s: Sys, task: nat)
    requires Fits(s) && task < |s.procs| && EntryOk(s, task)
    ensures Quiet(s, InformInt(s, task))
  {
  }

  lemma RescheduleIsQuiet(s: Sys)
    ensures Reschedule(s).Ok? ==> Quiet(s, Reschedule(s).value)
  {
  }

  lemma QuietTransitive(a: Sys, b: Sys, c: Sys)
    requires Quiet(a, b) && Quiet(b, c)
    ensures Quiet(a, c)
  {
  }

  lemma ChargeIsQuiet(s: Sys, tty: nat)
    requires Fits(s) && tty < |s.procs| && EntryOk(s, tty)
    ensures Fits(Charge(s)) && |Charge(s).procs| == |s.procs|
    ensures Quiet(s, Charge(s)) && EntryOk(Charge(s), tty)
  {
  }

  lemma ClockIsQuiet(s: Sys, key: bool, tty: nat, reenter: bool)
    requires Fits(s) && tty < |s.procs| && EntryOk(s, tty)
    ensures Clock(s, key, tty, reenter).Ok? ==> Quiet(s, Clock(s, key, tty, reenter).value)
  {
    hide Quiet, Reschedule, InformInt, Charge, EntryOk;
    ChargeIsQuiet(s, tty);
    var charged := Charge(s);
    InformIsQuiet(charged, tty);
    var told := if key then InformInt(charged, tty) else charged;
    if key { QuietTransitive(s, charged, told); }
    RescheduleIsQuiet(told);
    if Reschedule(told).Ok? { QuietTransitive(s, told, Reschedule(told).value); }
  }

  /** Interrupts and clock ticks touch neither queues nor the messages of blocked senders. */
  lemma QuietStep(s: Sys, step: Step)
    requires Inv(s) && Addressed(|s.procs|, step) && Next(s, step).Ok? && (step.DoInterrupt? || step.DoClock?)
    ensures Quiet(s, Next(s, step).value)
  {
    if step.DoInterrupt? {
      InformIsQuiet(s, step.task);
    } else {
      hide Clock;
      ClockIsQuiet(s, step.key, step.tty, step.reenter);
    }
  }

  lemma OtherReceiveIsQuiet(s: Sys, src: Peer, m: Message)
    requires Inv(s) && Receive(s, src, m).Ok? && !TakesMessage(s, src)
    ensures Quiet(s, Receive(s, src, m).value)
  {
    hide Entries, NoMissedRendezvous, G.HasCycle, Reschedule, Available;
    RescheduleIsQuiet(Await(s, s.ready, src, m.(source := Pid(s.ready))));
  }

  lemma SendKeepsMail(s: Sys, dest: nat, m: Message)
    requires Inv(s) && MailOk(s) && dest < |s.procs| && Send(s, dest, m).Ok? && Inv(Send(s, dest, m).value)
    ensures MailOk(Send(s, dest, m).value)
  {
    var stamped := m.(source := Pid(s.ready));
    if s.procs[dest].WaitsFor(Pid(s.ready)) {
      HandOverMail(s, dest, stamped);
    } else {
      EnqueueKeeps(s, dest, stamped);
      EnqueueMail(s, dest, stamped);
      RescheduleKeeps(Enqueue(s, s.ready, dest, stamped));
      hide Inv, Queues, Entries;
      MailUnderTicks(Enqueue(s, s.ready, dest, stamped), Send(s, dest, m).value);
    }
  }

  lemma ReceiveKeepsMail(s: Sys, src: Peer, m: Message)
    requires Inv(s) && MailOk(s) && Receive(s, src, m).Ok? && Inv(Receive(s, src, m).value)
    ensures MailOk(Receive(s, src, m).value)
  {
    if TakesMessage(s, src) {
      AvailableIsQueued(s, src);
      hide MailOk;
      TakeMail(s, Available(s, s.ready, src).value);
    } else {
      OtherReceiveIsQuiet(s, src, m);
      hide MailOk, Receive;
      QuietMail(s, Receive(s, src, m).value);
    }
  }

  /** The mailboxes of the kernel are the ideal ones after every step. */
  lemma NextKeepsMail(s: Sys, step: Step)
    requires Inv(s) && MailOk(s) && Addressed(|s.procs|, step) && Next(s, step).Ok?
    ensures Inv(Next(s, step).value) && MailOk(Next(s, step).value)
  {
    NextKeepsInv(s, step);
    match step {
      case DoSend(dest, m) => hide MailOk, Send; SendKeepsMail(s, dest, m);
      case DoReceive(src, m) => hide MailOk, Receive; ReceiveKeepsMail(s, src, m);
      case _ => QuietStep(s, step); QuietMail(s, Next(s, step).value);
    }
  }

  /** A RECEIVE from ANY takes the message that has waited longest. */
  lemma AnyTakesTheOldest(s: Sys, m: Message)
    requires Inv(s) && MailOk(s) && !s.procs[s.ready].hasInt && Pending(s.log, s.ready) != []
    ensures Receive(s, Any, m).Ok?
    ensures Receive(s, Any, m).value.log == s.log + [Delivered(s.ready, Pending(s.log, s.ready)[0])]
    ensures Receive(s, Any, m).value.procs[s.ready].buf == Pending(s.log, s.ready)[0]
  {
    assert Boxed(s, s.ready) == Pending(s.log, s.ready);
    assert EntryOk(s, s.queue[s.ready][0]);
    assert s.queue[s.ready][0] in s.queue[s.ready];
  }

  lemma NamedReceive(s: Sys, k: nat, m: Message)
    requires Inv(s) && k < |s.queue[s.ready]|
    ensures var q := s.queue[s.ready][k];
            && q < |s.procs| && q in s.queue[s.ready] && s.procs[q].buf.source == Pid(q)
            && !s.procs[s.ready].sending && Receive(s, Pid(q), m) == Ok(Take(s, s.ready, q))
  {
    assert EntryOk(s, s.queue[s.ready][k]);
    hide G.HasCycle, NoMissedRendezvous, Take, Reschedule;
  }

  lemma InvQueues(s: Sys)
    requires Inv(s)
    ensures Fits(s) && Queues(s)
  {
  }

  lemma MailIs(s: Sys, d: nat)
    requires Inv(s) && MailOk(s) && d < |s.procs|
    ensures Pending(s.log, d) == Boxed(s, d)
  {
  }

  /**
   A RECEIVE from a process whose message is queued, the `k`-th in line, takes exactly that message.
   The others stay pending, in their order.
   */
  lemma NamedTakesHisMessage(s: Sys, k: nat, m: Message)
    requires Inv(s) && MailOk(s) && k < |s.queue[s.ready]|
    ensures var q, pending, r := s.queue[s.ready][k], Pending(s.log, s.ready), Receive(s, Pid(s.queue[s.ready][k]), m);
            && q < |s.procs| && |pending| == |s.queue[s.ready]|
            && pending[k] == s.procs[q].buf && pending[k].source == Pid(q)
            && r == Ok(Take(s, s.ready, q))
            && r.value.log == s.log + [Delivered(s.ready, pending[k])]
            && r.value.procs[s.ready].buf == pending[k]
            && Pending(r.value.log, s.ready) == pending[..k] + pending[k + 1..]
  {
    hide Inv, MailOk, Receive, Entries, NoMissedRendezvous, G.HasCycle, NoDup, RemoveFirst, Pending;
    InvQueues(s);
    var d, q := s.ready, s.queue[s.ready][k];
    NamedReceive(s, k, m);
    TakeKeeps(s, q);
    TakeMail(s, q);
    MailIs(s, d);
    MailIs(Take(s, d, q), d);
    InvQueues(Take(s, d, q));
    BoxWithout(s, q, k);
    var before := Boxed(s, d);
    assert Boxed(Take(s, d, q), d) == before[..k] + before[k + 1..];
  }

  // ---------------------------------------------------------------- exactly once, in order

  lemma StreamAppend(log: seq<Event>, e: Event, p: nat, d: nat)
    ensures Sent(log + [e], p, d) ==
            Sent(log, p, d) + if e.Accepted? && e.dest == d && e.m.source == Pid(p) then [e.m] else []
    ensures Got(log + [e], p, d) ==
            Got(log, p, d) + if e.Delivered? && e.dest == d && e.m.source == Pid(p) then [e.m] else []
  {
    Append1(log, e);
  }

  lemma StreamsUnderReschedule(s: Sys)
    requires StreamsOk(s) && Reschedule(s).Ok? && SameExceptTicks(s, Reschedule(s).value)
    ensures StreamsOk(Reschedule(s).value)
  {
    var s' := Reschedule(s).value;
    forall p, d | 0 <= p < |s'.procs| && 0 <= d < |s'.procs|
      ensures Sent(s'.log, p, d) == Got(s'.log, p, d) + Outstanding(s', p, d)
    { assert Outstanding(s', p, d) == Outstanding(s, p, d); }
  }

  lemma PassStreams(log: seq<Event>, dest: nat, m: Message, p: nat, d: nat)
    ensures var log' := log + [Accepted(dest, m), Delivered(dest, m)];
            var passed := if dest == d && m.source == Pid(p) then [m] else [];
            Sent(log', p, d) == Sent(log, p, d) + passed && Got(log', p, d) == Got(log, p, d) + passed
  {
    var mid := log + [Accepted(dest, m)];
    assert log + [Accepted(dest, m), Delivered(dest, m)] == mid + [Delivered(dest, m)];
    StreamAppend(log, Accepted(dest, m), p, d);
    StreamAppend(mid, Delivered(dest, m), p, d);
  }

  lemma HandOverStreams(s: Sys, dest: nat, m: Message)
    requires Inv(s) && StreamsOk(s) && dest < |s.procs| && dest != s.ready && m.source == Pid(s.ready)
    requires s.procs[dest].receiving
    ensures StreamsOk(HandOver(s, s.ready, dest, m))
  {
    var s' := HandOver(s, s.ready, dest, m);
    assert EntryOk(s, dest);
    hide Entries, Queues, NoMissedRendezvous, G.HasCycle, Sent, Got;
    forall p, d | 0 <= p < |s'.procs| && 0 <= d < |s'.procs|
      ensures Sent(s'.log, p, d) == Got(s'.log, p, d) + Outstanding(s', p, d)
    {
      PassStreams(s.log, dest, m, p, d);
      assert Outstanding(s', p, d) == Outstanding(s, p, d);
      if p == s.ready {
        assert Outstanding(s, p, d) == [];
      }
    }
  }

  lemma EnqueueStreams(s: Sys, dest: nat, m: Message)
    requires Inv(s) && StreamsOk(s) && dest < |s.procs| && dest != s.ready && m.source == Pid(s.ready)
    ensures StreamsOk(Enqueue(s, s.ready, dest, m))
  {
    var s' := Enqueue(s, s.ready, dest, m);
    hide Entries, Queues, NoMissedRendezvous, G.HasCycle, Sent, Got;
    forall p, d | 0 <= p < |s'.procs| && 0 <= d < |s'.procs|
      ensures Sent(s'.log, p, d) == Got(s'.log, p, d) + Outstanding(s', p, d)
    {
      StreamAppend(s.log, Accepted(dest, m), p, d);
      if p == s.ready {
        assert Outstanding(s, p, d) == [];
      } else {
        assert Outstanding(s', p, d) == Outstanding(s, p, d);
      }
    }
  }

  lemma TakeStreams(s: Sys, src: nat)
    requires Inv(s) && StreamsOk(s) && src < |s.procs| && src in s.queue[s.ready]
    ensures StreamsOk(Take(s, s.ready, src))
  {
    var s' := Take(s, s.ready, src);
    assert EntryOk(s, src);
    assert s.procs[src].sendto == Pid(s.ready);
    hide Entries, Queues, NoMissedRendezvous, G.HasCycle, Sent, Got, RemoveFirst;
    forall p, d | 0 <= p < |s'.procs| && 0 <= d < |s'.procs|
      ensures Sent(s'.log, p, d) == Got(s'.log, p, d) + Outstanding(s', p, d)
    {
      StreamAppend(s.log, Delivered(s.ready, s.procs[src].buf), p, d);
      assert Sent(s.log, p, d) == Got(s.log, p, d) + Outstanding(s, p, d);
    }
  }

  lemma QuietStreams(s: Sys, s': Sys)
    requires StreamsOk(s) && Quiet(s, s')
    ensures StreamsOk(s')
  {
    forall p, d | 0 <= p < |s'.procs| && 0 <= d < |s'.procs|
      ensures Sent(s'.log, p, d) == Got(s'.log, p, d) + Outstanding(s', p, d)
    { assert Outstanding(s', p, d) == Outstanding(s, p, d); }
  }

  lemma SendKeepsStreams(s: Sys, dest: nat, m: Message)
    requires Inv(s) && StreamsOk(s) && dest < |s.procs| && Send(s, dest, m).Ok?
    ensures StreamsOk(Send(s, dest, m).value)
  {
    var stamped := m.(source := Pid(s.ready));
    if s.procs[dest].WaitsFor(Pid(s.ready)) {
      HandOverStreams(s, dest, stamped);
    } else {
      EnqueueStreams(s, dest, stamped);
      EnqueueKeeps(s, dest, stamped);
      RescheduleKeeps(Enqueue(s, s.ready, dest, stamped));
      hide StreamsOk, Inv, SameExceptTicks;
      StreamsUnderReschedule(Enqueue(s, s.ready, dest, stamped));
    }
  }

  lemma ReceiveKeepsStreams(s: Sys, src: Peer, m: Message)
    requires Inv(s) && StreamsOk(s) && Receive(s, src, m).Ok?
    ensures StreamsOk(Receive(s, src, m).value)
  {
    hide StreamsOk;
    if TakesMessage(s, src) {
      AvailableIsQueued(s, src);
      TakeStreams(s, Available(s, s.ready, src).value);
    } else {
      OtherReceiveIsQuiet(s, src, m);
      QuietStreams(s, Receive(s, src, m).value);
    }
  }

  /**
   Whatever happens, `d` has got from `p` exactly what `p` handed in for `d`, in that order, except
   for the one message with which `p` is blocked on `d`.
   */
  lemma NextKeepsStreams(s: Sys, step: Step)
    requires Inv(s) && StreamsOk(s) && Addressed(|s.procs|, step) && Next(s, step).Ok?
    ensures StreamsOk(Next(s, step).value)
  {
    hide StreamsOk;
    match step {
      case DoSend(dest, m) => hide Send, Inv; SendKeepsStreams(s, dest, m);
      case DoReceive(src, m) => hide Receive; ReceiveKeepsStreams(s, src, m);
      case _ => QuietStep(s, step); QuietStreams(s, Next(s, step).value);
    }
  }

  lemma InitialDelivers(s: Sys)
    requires Initial(s) && Inv(s)
    ensures MailOk(s) && StreamsOk(s)
  {
    hide Entries, NoMissedRendezvous, G.HasCycle;
  }

  /**
   All of this, over every run from the initial state; and whatever a step delivers is in the buffer of
   the receiver after it.
   */
  lemma {:induction false} RunDelivers(states: seq<Sys>, steps: seq<Step>, k: nat)
    requires IsRun(states, steps) && Initial(states[0]) && k <= |steps|
    ensures Inv(states[k]) && MailOk(states[k]) && StreamsOk(states[k])
    ensures k > 0 ==> Arrived(states[k - 1], states[k])
  {
    if k == 0 {
      InitialDelivers(states[0]);
    } else {
      hide Inv, MailOk, StreamsOk, Next, Arrived;
      RunDelivers(states, steps, k - 1);
      var i := k - 1;
      assert Next(states[i], steps[i]) == Ok(states[i + 1]);
      NextKeepsMail(states[i], steps[i]);
      NextKeepsStreams(states[i], steps[i]);
      NextArrives(states[i], steps[i]);
    }
  }

  // ---------------------------------------------------------------- interrupts

  lemma SendKeepsInterrupts(s: Sys, dest: nat, m: Message, task: nat)
    requires Inv(s) && dest < |s.procs| && Send(s, dest, m).Ok? && task < |s.procs|
    ensures |Send(s, dest, m).value.procs| == |s.procs|
    ensures Send(s, dest, m).value.procs[task].hasInt == s.procs[task].hasInt
  {
    hide Entries, Queues, NoMissedRendezvous, G.HasCycle, G.Reaches;
  }

  lemma ReceiveKeepsInterrupts(s: Sys, src: Peer, m: Message, task: nat)
    requires Inv(s) && Receive(s, src, m).Ok? && task < |s.procs|
    ensures |Receive(s, src, m).value.procs| == |s.procs|
    ensures var e := Receive(s, src, m).value.procs[task];
            (s.procs[task].hasInt && !e.hasInt ==> Told(e)) && (e.hasInt ==> s.procs[task].hasInt)
  {
    hide Entries, NoMissedRendezvous, G.HasCycle, RemoveFirst;
  }

  lemma InformTells(s: Sys, task: nat, p: nat)
    requires Fits(s) && task < |s.procs| && p < |s.procs|
    ensures |InformInt(s, task).procs| == |s.procs|
    ensures var e := InformInt(s, task).procs[p];
            && (p == task ==> e.hasInt || Told(e))
            && (s.procs[p].hasInt && !e.hasInt ==> Told(e))
            && (p != task ==> e == s.procs[p])
  {
  }

  lemma RescheduleKeepsInterrupts(s: Sys, p: nat)
    requires Fits(s) && p < |s.procs| && Reschedule(s).Ok?
    ensures |Reschedule(s).value.procs| == |s.procs|
    ensures var e := Reschedule(s).value.procs[p];
            e.hasInt == s.procs[p].hasInt && (Told(s.procs[p]) ==> Told(e))
  {
  }

  lemma ClockTells(s: Sys, key: bool, tty: nat, reenter: bool, p: nat)
    requires Fits(s) && tty < |s.procs| && p < |s.procs| && Clock(s, key, tty, reenter).Ok?
    ensures |Clock(s, key, tty, reenter).value.procs| == |s.procs|
    ensures var e := Clock(s, key, tty, reenter).value.procs[p];
            && (s.procs[p].hasInt && !e.hasInt ==> Told(e))
            && (if key && p == tty then e.hasInt || Told(e) else e.hasInt == s.procs[p].hasInt)
  {
    var charged := Charge(s);
    var told := if key then InformInt(charged, tty) else charged;
    InformTells(charged, tty, p);
    if Reschedule(told).Ok? { RescheduleKeepsInterrupts(told, p); }
    hide Reschedule, InformInt, Told;
  }

  /** The task for which a step brings an interrupt: that of the interrupt, or the TTY task after a key. */
  predicate Brings(step: Step, task: nat) {
    step == DoInterrupt(task) || (step.DoClock? && step.key && step.tty == task)
  }

  /**
   An interrupt is noted or handed over at once, and a noted one is dropped only by handing it over;
   nothing is noted without an interrupt.
   */
  lemma NoInterruptIsLost(s: Sys, step: Step, task: nat)
    requires Inv(s) && Addressed(|s.procs|, step) && Next(s, step).Ok? && task < |s.procs|
    ensures |Next(s, step).value.procs| == |s.procs|
    ensures var e := Next(s, step).value.procs[task];
            && (Brings(step, task) ==> e.hasInt || Told(e))
            && (s.procs[task].hasInt && !e.hasInt ==> Told(e))
            && (e.hasInt && !s.procs[task].hasInt ==> Brings(step, task))
  {
    assert Fits(s);
    hide Send, Receive, InformInt, Clock, Inv, Told;
    match step {
      case DoSend(dest, m) => SendKeepsInterrupts(s, dest, m, task);
      case DoReceive(src, m) => ReceiveKeepsInterrupts(s, src, m, task);
      case DoInterrupt(t) => InformTells(s, t, task);
      case DoClock(key, tty, reenter) => ClockTells(s, key, tty, reenter, task);
    }
  }
}
