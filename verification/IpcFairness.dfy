/** Who gets the processor, and when. */
module IpcFairness {
  import opened Prelude
  import opened Ipc
  import opened IpcInvariant
  import G = SendGraph

  function Ticks(procs: seq<Proc>): (t: seq<nat>)
    ensures |t| == |procs| && forall q :: 0 <= q < |procs| ==> t[q] == procs[q].ticks
  {
    seq(|procs|, q requires 0 <= q < |procs| => procs[q].ticks)
  }

  /** The ticks that everybody but `p` has left. */
  function Others(s: Sys, p: nat): nat
    requires p < |s.procs|
  {
    Sum(Ticks(s.procs)[p := 0])
  }

  function ClockSteps(steps: seq<Step>): nat {
    if steps == [] then 0 else (if steps[0].DoClock? then 1 else 0) + ClockSteps(steps[1..])
  }

  /** The running process has ticks left; only ticks taken inside the kernel break this. */
  predicate Paid(s: Sys) {
    s.ready < |s.procs| && s.procs[s.ready].ticks > 0
  }

  /** Nobody has more ticks than before: in particular nobody was refilled. */
  ghost predicate NobodyGains(s: Sys, s': Sys) {
    |s'.procs| == |s.procs| && forall q :: 0 <= q < |s.procs| ==> s'.procs[q].ticks <= s.procs[q].ticks
  }

  // ---------------------------------------------------------------- the scheduler loop

  function Passes(procs: seq<Proc>, k: nat): seq<Proc> {
    if k == 0 then procs else Refilled(Passes(procs, k - 1))
  }

  /** The loop of `schedule` ends iff some runnable process has ticks left or a positive priority. */
  lemma SchedulableIff(procs: seq<Proc>)
    ensures Schedulable(procs) <==>
            exists p :: 0 <= p < |procs| && procs[p].Runnable() && (procs[p].ticks > 0 || procs[p].priority > 0)
  {
    var refilled := Refilled(procs);
    var b, c := Best(procs, |procs|), Best(refilled, |procs|);
    if b.Some? {
      assert procs[b.value].Runnable();
    } else if c.Some? {
      assert refilled[c.value] == procs[c.value].(ticks := procs[c.value].priority);
      assert procs[c.value].Runnable();
    }
    forall p | 0 <= p < |procs| && procs[p].Runnable() && (procs[p].ticks > 0 || procs[p].priority > 0)
      ensures b.Some? || c.Some?
    {
      assert refilled[p].Runnable();
    }
  }

  /** Otherwise no number of refills lets a search of the table succeed. */
  lemma {:induction false} HangLastsForever(procs: seq<Proc>, k: nat)
    requires !Schedulable(procs)
    ensures |Passes(procs, k)| == |procs| && Best(Passes(procs, k), |procs|).None?
  {
    if k > 1 {
      HangLastsForever(procs, k - 1);
      RefillTwice(Passes(procs, k - 2));
    }
  }

  lemma RefillTwice(procs: seq<Proc>)
    ensures Refilled(Refilled(procs)) == Refilled(procs)
  {
    var once := Refilled(procs);
    assert forall p :: 0 <= p < |procs| ==> Refilled(once)[p] == once[p];
  }

  /** The choice: a runnable process with the most ticks; ticks change only if nobody runnable had any. */
  lemma RescheduleChooses(s: Sys)
    requires Reschedule(s).Ok?
    ensures var s' := Reschedule(s).value;
            && Paid(s') && |s'.procs| == |s.procs| && s'.procs[s'.ready].Runnable()
            && (forall p :: 0 <= p < |s.procs| ==> s'.procs[p] == s.procs[p].(ticks := s'.procs[p].ticks))
            && (forall p :: 0 <= p < |s.procs| && s'.procs[p].Runnable() ==>
                  s'.procs[p].ticks <= s'.procs[s'.ready].ticks)
            && if exists p :: 0 <= p < |s.procs| && s.procs[p].Runnable() && s.procs[p].ticks > 0
               then s'.procs == s.procs
               else forall p :: 0 <= p < |s.procs| && s.procs[p].Runnable() ==>
                      s'.procs[p].ticks == s.procs[p].priority
  {
  }

  // ---------------------------------------------------------------- no starvation

  lemma SameTicksSameOthers(s: Sys, s': Sys, p: nat)
    requires p < |s.procs| == |s'.procs|
    requires forall q :: 0 <= q < |s.procs| ==> s'.procs[q].ticks == s.procs[q].ticks
    ensures Others(s', p) == Others(s, p)
  {
    assert Ticks(s'.procs) == Ticks(s.procs);
  }

  lemma ChargeOthers(s: Sys, p: nat)
    requires Paid(s) && Fits(s) && p < |s.procs| && p != s.ready
    ensures Others(Charge(s), p) + 1 == Others(s, p)
  {
    var t := Ticks(s.procs)[p := 0];
    SumUpdate(t, s.ready, t[s.ready] - 1);
    assert Ticks(Charge(s).procs)[p := 0] == t[s.ready := t[s.ready] - 1];
  }

  lemma RescheduleSpares(s: Sys, p: nat)
    requires p < |s.procs| && s.procs[p].Runnable() && s.procs[p].ticks > 0 && Reschedule(s).Ok?
    ensures Paid(Reschedule(s).value) && Reschedule(s).value.procs == s.procs
  {
  }

  lemma ClockSpares(s: Sys, key: bool, tty: nat, p: nat)
    requires Fits(s) && Paid(s) && p < |s.procs| && tty < |s.procs| && Clock(s, key, tty, false).Ok?
    requires s.ready != p && s.procs[p].Runnable() && s.procs[p].ticks > 0
    ensures var s' := Clock(s, key, tty, false).value;
            NobodyGains(s, s') && Paid(s') && s'.procs[p].ticks == s.procs[p].ticks && Others(s', p) + 1 == Others(s, p)
  {
    var charged := Charge(s);
    var told := if key then InformInt(charged, tty) else charged;
    ChargeOthers(s, p);
    SameTicksSameOthers(charged, told, p);
    if told.procs[told.ready].ticks == 0 { RescheduleSpares(told, p); }
  }

  lemma SendSpares(s: Sys, dest: nat, m: Message, p: nat)
    requires Inv(s) && Paid(s) && dest < |s.procs| && Send(s, dest, m).Ok?
    requires p < |s.procs| && s.procs[p].Runnable() && s.procs[p].ticks > 0 && p != s.ready
    ensures var s' := Send(s, dest, m).value;
            NobodyGains(s, s') && Paid(s') && s'.procs[p].ticks == s.procs[p].ticks && Others(s', p) == Others(s, p)
  {
    assert Fits(s);
    hide Entries, NoMissedRendezvous, G.HasCycle, G.Reaches, Others, Edges, Queues;
    var queued := Enqueue(s, s.ready, dest, m.(source := Pid(s.ready)));
    if !s.procs[dest].WaitsFor(Pid(s.ready)) { RescheduleSpares(queued, p); }
    hide Reschedule;
    SameTicksSameOthers(s, Send(s, dest, m).value, p);
  }

  lemma ReceiveSpares(s: Sys, src: Peer, m: Message, p: nat)
    requires Inv(s) && Paid(s) && Receive(s, src, m).Ok?
    requires p < |s.procs| && s.procs[p].Runnable() && s.procs[p].ticks > 0 && p != s.ready
    ensures var s' := Receive(s, src, m).value;
            NobodyGains(s, s') && Paid(s') && s'.procs[p].ticks == s.procs[p].ticks && Others(s', p) == Others(s, p)
  {
    hide Entries, NoMissedRendezvous, G.HasCycle, Others, Edges;
    var waiting := Await(s, s.ready, src, m.(source := Pid(s.ready)));
    if Reschedule(waiting).Ok? { RescheduleSpares(waiting, p); }
    hide Reschedule;
    SameTicksSameOthers(s, Receive(s, src, m).value, p);
  }

  /** One step brings `p` nearer to the processor, or at least no further away. */
  lemma StepSpares(s: Sys, step: Step, p: nat)
    requires Inv(s) && Paid(s) && Addressed(|s.procs|, step) && Next(s, step).Ok?
    requires step.DoClock? ==> !step.reenter
    requires p < |s.procs| && s.procs[p].Runnable() && s.procs[p].ticks > 0 && p != s.ready
    ensures var s' := Next(s, step).value;
            && NobodyGains(s, s') && Paid(s') && s'.procs[p].ticks == s.procs[p].ticks
            && Others(s', p) + (if step.DoClock? then 1 else 0) == Others(s, p)
  {
    assert Fits(s);
    hide Inv, Others, Send, Receive, Clock;
    match step {
      case DoSend(dest, m) => SendSpares(s, dest, m, p);
      case DoReceive(src, m) => ReceiveSpares(s, src, m, p);
      case DoInterrupt(task) => SameTicksSameOthers(s, Next(s, step).value, p);
      case DoClock(key, tty, reenter) => ClockSpares(s, key, tty, p);
    }
  }

  /**
   A process that stays runnable with ticks left gets the processor before the clock has ticked more
   often than all other processes together have ticks left, and before any refill: its own ticks are
   still untouched, and up to then nobody's ticks rise. Blocking, unblocking and interrupts may happen in any order meanwhile.
   */
  lemma {:induction false} GetsTheProcessor(states: seq<Sys>, steps: seq<Step>, p: nat) returns (k: nat)
    requires IsRun(states, steps) && Paid(states[0])
    requires forall i :: 0 <= i < |steps| && steps[i].DoClock? ==> !steps[i].reenter
    requires forall i :: 0 <= i < |states| ==> p < |states[i].procs| && states[i].procs[p].Runnable()
    requires states[0].procs[p].ticks > 0
    requires ClockSteps(steps) > Others(states[0], p)
    ensures k < |states| && states[k].ready == p
    ensures states[k].procs[p].ticks == states[0].procs[p].ticks
    ensures ClockSteps(steps[..k]) <= Others(states[0], p)
    ensures forall i :: 0 <= i < k ==> NobodyGains(states[i], states[i + 1])
    decreases |steps|
  {
    hide Inv, Next, Others, Paid, NobodyGains;
    if states[0].ready == p {
      k := 0;
    } else {
      FirstStep(states, steps, p);
      var j := GetsTheProcessor(states[1..], steps[1..], p);
      k := j + 1;
      assert steps[..k][1..] == steps[1..][..j];
      forall i | 0 <= i < k
        ensures NobodyGains(states[i], states[i + 1])
      {
        if i > 0 { assert NobodyGains(states[1..][i - 1], states[1..][i - 1 + 1]); }
      }
    }
  }

  lemma FirstStep(states: seq<Sys>, steps: seq<Step>, p: nat)
    requires IsRun(states, steps) && Paid(states[0]) && |steps| > 0
    requires steps[0].DoClock? ==> !steps[0].reenter
    requires p < |states[0].procs| && states[0].procs[p].Runnable() && states[0].ready != p
    requires states[0].procs[p].ticks > 0
    ensures IsRun(states[1..], steps[1..]) && Paid(states[1]) && NobodyGains(states[0], states[1])
    ensures states[1].procs[p].ticks == states[0].procs[p].ticks
    ensures Others(states[1], p) + (if steps[0].DoClock? then 1 else 0) == Others(states[0], p)
  {
    RunTail(states, steps);
    var s, step := states[0], steps[0];
    assert Next(s, step) == Ok(states[0 + 1]);
    hide Next, Others;
    StepSpares(s, step, p);
  }

  // ---------------------------------------------------------------- shares

  /** States one clock tick apart, with no key pressed and no tick inside the kernel. */
  ghost predicate Ticking(states: seq<Sys>) {
    && |states| > 0
    && (forall i :: 0 <= i < |states| ==> Fits(states[i]))
    && forall i :: 0 <= i < |states| - 1 ==> Clock(states[i], false, 0, false) == Ok(states[i + 1])
  }

  /** How many of the ticks between `states` were charged to `q`. */
  function Charged(states: seq<Sys>, q: nat): nat {
    if |states| <= 1 then 0 else (if states[0].ready == q then 1 else 0) + Charged(states[1..], q)
  }

  function RunnableTicks(procs: seq<Proc>): (t: seq<nat>)
    ensures |t| == |procs|
    ensures forall q :: 0 <= q < |procs| ==> t[q] == if procs[q].Runnable() then procs[q].ticks else 0
  {
    seq(|procs|, q requires 0 <= q < |procs| => if procs[q].Runnable() then procs[q].ticks else 0)
  }

  lemma {:induction false} SumZero(t: seq<nat>)
    ensures Sum(t) == 0 <==> forall q :: 0 <= q < |t| ==> t[q] == 0
  {
    if t != [] { SumZero(t[1..]); }
  }

  /** The charge leaves one tick fewer among the runnable; the last one shows in every entry. */
  lemma ChargeSpends(s: Sys)
    requires Fits(s) && Paid(s) && s.procs[s.ready].Runnable()
    ensures var c, total := Charge(s), Sum(RunnableTicks(s.procs));
            && total > 0 && Sum(RunnableTicks(c.procs)) == total - 1
            && (total == 1 ==> forall q :: 0 <= q < |s.procs| && s.procs[q].Runnable() ==>
                  c.procs[q].ticks == 0 && s.procs[q].ticks == if s.ready == q then 1 else 0)
            && (total > 1 ==> exists q :: 0 <= q < |s.procs| && c.procs[q].Runnable() && c.procs[q].ticks > 0)
  {
    var charged, t := Charge(s), RunnableTicks(s.procs);
    var t' := t[s.ready := t[s.ready] - 1];
    SumUpdate(t, s.ready, t[s.ready] - 1);
    assert RunnableTicks(charged.procs) == t';
    SumZero(t');
    hide Sum;
    if Sum(t) == 1 {
      assert forall q :: 0 <= q < |t'| ==> t'[q] == 0;
      forall q | 0 <= q < |s.procs| && s.procs[q].Runnable()
        ensures charged.procs[q].ticks == 0 && s.procs[q].ticks == if s.ready == q then 1 else 0
      {
        assert t'[q] == 0;
      }
    } else {
      var q :| 0 <= q < |t'| && t'[q] != 0;
      assert charged.procs[q].Runnable() && charged.procs[q].ticks > 0;
    }
  }

  lemma QuietClock(s: Sys)
    requires Fits(s)
    ensures Fits(Charge(s)) && |Charge(s).procs| == |s.procs| && Charge(s).ready == s.ready
    ensures Clock(s, false, 0, false) ==
              if Charge(s).procs[s.ready].ticks > 0 then Ok(Charge(s)) else Reschedule(Charge(s))
    ensures forall q :: 0 <= q < |s.procs| ==>
              Charge(s).procs[q] == s.procs[q].(ticks :=
                if q == s.ready && s.procs[q].ticks > 0 then s.procs[q].ticks - 1 else s.procs[q].ticks)
  {
  }

  /** While somebody has ticks left, a tick changes nothing but the charge. */
  lemma TickWithin(s: Sys)
    requires Fits(s) && Paid(s) && s.procs[s.ready].Runnable() && Clock(s, false, 0, false).Ok?
    requires Sum(RunnableTicks(s.procs)) > 1
    ensures var s' := Clock(s, false, 0, false).value;
            Paid(s') && s'.procs == Charge(s).procs && s'.ready < |s'.procs| && s'.procs[s'.ready].Runnable()
  {
    QuietClock(s);
    ChargeSpends(s);
    if Charge(s).procs[s.ready].ticks == 0 { RescheduleChooses(Charge(s)); }
    hide Sum, RunnableTicks, Charge, Clock, Reschedule;
  }

  /** The last tick of an epoch: everybody starts again. */
  lemma TickRefills(s: Sys)
    requires Fits(s) && Paid(s) && s.procs[s.ready].Runnable() && Clock(s, false, 0, false).Ok?
    requires Sum(RunnableTicks(s.procs)) == 1
    ensures var s' := Clock(s, false, 0, false).value;
            && Paid(s') && |s'.procs| == |s.procs| && s'.ready < |s'.procs| && s'.procs[s'.ready].Runnable()
            && (forall q :: 0 <= q < |s.procs| ==> s'.procs[q] == s.procs[q].(ticks := s'.procs[q].ticks))
            && forall q :: 0 <= q < |s.procs| && s.procs[q].Runnable() ==>
                 s'.procs[q].ticks == s.procs[q].priority && s.procs[q].ticks == if s.ready == q then 1 else 0
  {
    QuietClock(s);
    ChargeSpends(s);
    var charged := Charge(s);
    assert charged.procs[s.ready].ticks == 0;
    RescheduleChooses(charged);
    hide Sum, RunnableTicks, Charge, Clock, Reschedule;
    assert forall q :: 0 <= q < |s.procs| && charged.procs[q].Runnable() ==> charged.procs[q].ticks == 0;
  }

  /** One tick: the total of the runnable falls by one, or it was 1 and everybody has its priority again. */
  lemma TickOnce(s: Sys)
    requires Fits(s) && Paid(s) && s.procs[s.ready].Runnable() && Clock(s, false, 0, false).Ok?
    ensures var s', total := Clock(s, false, 0, false).value, Sum(RunnableTicks(s.procs));
            && Paid(s') && |s'.procs| == |s.procs| && s'.ready < |s'.procs| && s'.procs[s'.ready].Runnable() && total > 0
            && (forall q :: 0 <= q < |s.procs| ==> s'.procs[q] == s.procs[q].(ticks := s'.procs[q].ticks))
            && (total > 1 ==> Sum(RunnableTicks(s'.procs)) == total - 1)
            && (total > 1 ==> forall q :: 0 <= q < |s.procs| && s.procs[q].Runnable() ==>
                  s'.procs[q].ticks + (if s.ready == q then 1 else 0) == s.procs[q].ticks)
            && (total == 1 ==> forall q :: 0 <= q < |s.procs| && s.procs[q].Runnable() ==>
                  s'.procs[q].ticks == s.procs[q].priority
                  && s.procs[q].ticks == if s.ready == q then 1 else 0)
  {
    QuietClock(s);
    ChargeSpends(s);
    hide Sum, RunnableTicks, Charge, Clock, Reschedule;
    if Sum(RunnableTicks(s.procs)) > 1 { TickWithin(s); } else { TickRefills(s); }
  }

  /**
   With a fixed set of runnable processes, the ticks that are left at some moment are spent exactly:
   each process is charged what it had, and then everybody starts again with `priority` ticks. An
   epoch that starts with a refill therefore gives every process exactly `priority` ticks.
   */
  lemma {:induction false} EpochShares(states: seq<Sys>)
    requires Ticking(states) && Paid(states[0]) && states[0].procs[states[0].ready].Runnable()
    requires |states| - 1 == Sum(RunnableTicks(states[0].procs))
    ensures var s, s' := states[0], states[|states| - 1];
            && |s'.procs| == |s.procs| && Paid(s')
            && forall q :: 0 <= q < |s.procs| && s.procs[q].Runnable() ==>
                 Charged(states, q) == s.procs[q].ticks && s'.procs[q].ticks == s.procs[q].priority
    decreases |states|
  {
    var s := states[0];
    assert |states| > 1 by { SumZero(RunnableTicks(s.procs)); assert RunnableTicks(s.procs)[s.ready] > 0; }
    assert Clock(s, false, 0, false) == Ok(states[0 + 1]);
    TickOnce(s);
    if |states| == 2 {
      assert forall q :: 0 <= q < |s.procs| ==> Charged(states, q) == if s.ready == q then 1 else 0;
    } else {
      assert Ticking(states[1..]) by {
        hide Clock;
        forall i | 0 <= i < |states| - 2
          ensures Clock(states[1..][i], false, 0, false) == Ok(states[1..][i + 1])
        { assert states[1..][i] == states[i + 1]; assert Clock(states[i + 1], false, 0, false) == Ok(states[i + 1 + 1]); }
      }
      EpochShares(states[1..]);
    }
  }
}
