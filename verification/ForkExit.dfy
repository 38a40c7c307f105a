/** fork, exit and wait: the protocol between parents, zombies and waiters. */
module ForkExit {
  import opened Prelude

  /** Flags and fields that MM uses of a process table entry; `parent` None is NO_TASK. */
  datatype Slot = Slot(free: bool, waiting: bool, hanging: bool, parent: Option<nat>, status: int) {
    predicate Live() { !free }

    /** cleanup() releases the entry: `p_flags = FREE_SLOT`, the other fields stay. */
    function Freed(): Slot { this.(free := true, waiting := false, hanging := false) }
  }

  type Table = seq<Slot>

  datatype Event =
    | Exited(pid: nat, code: int)
    | Reaped(parent: nat, pid: nat, code: int)     // cleanup() told the parent and released the entry
    | NoChild(pid: nat)                        // wait() answered that there is no child

  datatype Sys = Sys(slots: Table, log: seq<Event>)

  /** `native` entries exist from the start and never end; INIT is one of them. */
  ghost predicate Inv(s: Sys, native: nat, init: nat) {
    Sound(s.slots, native, init) && Books(s)
  }

  ghost predicate Sound(t: Table, native: nat, init: nat) {
    && init < native <= |t|
    && (forall p :: 0 <= p < native ==> t[p].Live() && !t[p].hanging)
    && (forall p :: 0 <= p < |t| && t[p].free ==> !t[p].waiting && !t[p].hanging)
    && (forall p :: 0 <= p < |t| && t[p].hanging ==> !t[p].waiting)
    && (forall p :: native <= p < |t| && t[p].Live() ==> HasLiveParent(t, p))
    && NoLostWakeup(t)
  }

  ghost predicate HasLiveParent(t: Table, p: nat)
    requires p < |t|
  {
    && t[p].parent.Some? && t[p].parent.value < |t| && t[p].parent.value != p
    && t[t[p].parent.value].Live() && !t[t[p].parent.value].hanging
  }

  /** Nobody waits who has a child that has already ended. */
  ghost predicate NoLostWakeup(t: Table) {
    forall p :: 0 <= p < |t| && t[p].hanging && t[p].parent.Some? && t[p].parent.value < |t| ==>
      !t[t[p].parent.value].waiting
  }

  // ---------------------------------------------------------------- exactly once

  /** The codes with which entry `p` ended, and those that were reported for it, in order. */
  function Ended(log: seq<Event>, p: nat): seq<int> {
    if log == [] then [] else
      var e := log[|log| - 1];
      Ended(log[..|log| - 1], p) + if e.Exited? && e.pid == p then [e.code] else []
  }

  function Told(log: seq<Event>, p: nat): seq<int> {
    if log == [] then [] else
      var e := log[|log| - 1];
      Told(log[..|log| - 1], p) + if e.Reaped? && e.pid == p then [e.code] else []
  }

  /** Every exit was reported once, or is still to be reported because the entry is hanging. */
  ghost predicate Books(s: Sys) {
    forall p :: 0 <= p < |s.slots| ==>
      Ended(s.log, p) == Told(s.log, p) + if s.slots[p].hanging then [s.slots[p].status] else []
  }

  lemma LogAppend(log: seq<Event>, e: Event, p: nat)
    ensures Ended(log + [e], p) == Ended(log, p) + if e.Exited? && e.pid == p then [e.code] else []
    ensures Told(log + [e], p) == Told(log, p) + if e.Reaped? && e.pid == p then [e.code] else []
  {
    assert (log + [e])[..|log|] == log;
  }

  // ---------------------------------------------------------------- the steps

  /** First entry below `k` that satisfies "free", or `k`. */
  function FirstFree(t: Table, k: nat): (r: nat)
    requires k <= |t|
    ensures r <= k && (r < k ==> t[r].free) && forall p :: 0 <= p < r ==> !t[p].free
  {
    if k == 0 then 0 else
      var r := FirstFree(t, k - 1);
      if r < k - 1 || t[k - 1].free then r else k
  }

  predicate IsZombieOf(t: Table, parent: nat, p: nat)
    requires p < |t|
  {
    t[p].parent == Some(parent) && t[p].hanging
  }

  /** First hanging child of `parent` below `k`. */
  function FirstZombie(t: Table, parent: nat, k: nat): (r: Option<nat>)
    requires k <= |t|
    ensures r.Some? ==> r.value < k && IsZombieOf(t, parent, r.value)
    ensures r.Some? ==> forall p :: 0 <= p < r.value ==> !IsZombieOf(t, parent, p)
    ensures r.None? ==> forall p :: 0 <= p < k ==> !IsZombieOf(t, parent, p)
  {
    if k == 0 then None else
      var r := FirstZombie(t, parent, k - 1);
      if r.Some? then r else if IsZombieOf(t, parent, k - 1) then Some(k - 1) else None
  }

  lemma NoZombies(t: Table, parent: nat)
    requires FirstZombie(t, parent, |t|).None?
    ensures forall p :: 0 <= p < |t| && t[p].parent == Some(parent) ==> !t[p].hanging
  {
    forall p | 0 <= p < |t| && t[p].parent == Some(parent)
      ensures !t[p].hanging
    { assert !IsZombieOf(t, parent, p); }
  }

  /** do_fork(): the child is a copy of the caller in the first free entry. */
  function Fork(s: Sys, pid: nat): (r: Option<(nat, Sys)>)
    requires pid < |s.slots|
  {
    var child := FirstFree(s.slots, |s.slots|);
    if child == |s.slots| then None
    else Some((child, s.(slots := s.slots[child := s.slots[pid].(parent := Some(pid))])))
  }

  /** cleanup(): tell the parent and release the entry. */
  function Cleanup(s: Sys, p: nat): Sys
    requires p < |s.slots| && s.slots[p].parent.Some?
  {
    s.(slots := s.slots[p := s.slots[p].Freed()],
       log := s.log + [Reaped(s.slots[p].parent.value, p, s.slots[p].status)])
  }

  /** The first half of do_exit(): report to a waiting parent at once, or stay as a zombie. */
  function Report(s: Sys, pid: nat, code: int): Sys
    requires pid < |s.slots| && s.slots[pid].parent.Some? && s.slots[pid].parent.value < |s.slots|
  {
    var parent := s.slots[pid].parent.value;
    var t := Sys(s.slots[pid := s.slots[pid].(status := code)], s.log + [Exited(pid, code)]);
    if t.slots[parent].waiting
    then Cleanup(t.(slots := t.slots[parent := t.slots[parent].(waiting := false)]), pid)
    else t.(slots := t.slots[pid := t.slots[pid].(hanging := true)])
  }

  /** All children of `pid` below `k` belong to INIT from now on. */
  function Reparented(t: Table, pid: nat, init: nat, k: nat): (r: Table)
    ensures |r| == |t|
    ensures forall p :: 0 <= p < |t| ==>
              r[p] == if p < k && t[p].parent == Some(pid) then t[p].(parent := Some(init)) else t[p]
  {
    seq(|t|, p requires 0 <= p < |t| => if p < k && t[p].parent == Some(pid) then t[p].(parent := Some(init)) else t[p])
  }

  /** The second half: INIT adopts the children below `k`, and if it waits it gets the first zombie among them. */
  function Adopt(s: Sys, pid: nat, init: nat, k: nat): Sys
    requires init < |s.slots| && k <= |s.slots|
  {
    var z := FirstZombie(s.slots, pid, k);
    var t := s.(slots := Reparented(s.slots, pid, init, k));
    if t.slots[init].waiting && z.Some?
    then Cleanup(t.(slots := t.slots[init := t.slots[init].(waiting := false)]), z.value)
    else t
  }

  /** do_exit(). */
  function Exit(s: Sys, pid: nat, code: int, init: nat): Sys
    requires pid < |s.slots| && s.slots[pid].parent.Some? && s.slots[pid].parent.value < |s.slots| && init < |s.slots|
  {
    Adopt(Report(s, pid, code), pid, init, |s.slots|)
  }

  /** do_wait(): take the first zombie; else wait if some entry names the caller as its parent. */
  function Wait(s: Sys, pid: nat): Sys
    requires pid < |s.slots|
  {
    var z := FirstZombie(s.slots, pid, |s.slots|);
    if z.Some? then Cleanup(s, z.value)
    else if exists p :: 0 <= p < |s.slots| && s.slots[p].parent == Some(pid)
    then s.(slots := s.slots[pid := s.slots[pid].(waiting := true)])
    else s.(log := s.log + [NoChild(pid)])
  }

  // ---------------------------------------------------------------- what the steps keep

  /** A process that can make a call: neither ended nor waiting. */
  predicate Active(s: Sys, pid: nat) {
    pid < |s.slots| && s.slots[pid].Live() && !s.slots[pid].waiting && !s.slots[pid].hanging
  }

  lemma ForkKeeps(s: Sys, native: nat, init: nat, pid: nat)
    requires Inv(s, native, init) && Active(s, pid)
    ensures Fork(s, pid).Some? ==>
              && Inv(Fork(s, pid).value.1, native, init) && Fork(s, pid).value.0 >= native
              && s.slots[Fork(s, pid).value.0].free
              && HasLiveParent(Fork(s, pid).value.1.slots, Fork(s, pid).value.0)
  {
    if Fork(s, pid).Some? {
      var (child, s') := Fork(s, pid).value;
      assert Books(s');
      hide Books;
      forall p | native <= p < |s'.slots| && s'.slots[p].Live()
        ensures HasLiveParent(s'.slots, p)
      {
        if p != child { assert HasLiveParent(s.slots, p); }
      }
    }
  }

  lemma CleanupBooks(s: Sys, p: nat)
    requires p < |s.slots| && s.slots[p].parent.Some? && s.slots[p].hanging && Books(s)
    ensures Books(Cleanup(s, p))
  {
    var s' := Cleanup(s, p);
    forall q | 0 <= q < |s'.slots|
      ensures Ended(s'.log, q) == Told(s'.log, q) + if s'.slots[q].hanging then [s'.slots[q].status] else []
    { LogAppend(s.log, Reaped(s.slots[p].parent.value, p, s.slots[p].status), q); }
  }

  lemma SameBooks(s: Sys, s': Sys)
    requires Books(s) && s'.log == s.log && |s'.slots| == |s.slots|
    requires forall p :: 0 <= p < |s.slots| ==>
               s'.slots[p].hanging == s.slots[p].hanging && (s.slots[p].hanging ==> s'.slots[p].status == s.slots[p].status)
    ensures Books(s')
  {
  }

  lemma WaitSound(s: Sys, native: nat, init: nat, pid: nat)
    requires Sound(s.slots, native, init) && Active(s, pid)
    ensures Sound(Wait(s, pid).slots, native, init)
  {
    var s' := Wait(s, pid);
    if FirstZombie(s.slots, pid, |s.slots|).None? { NoZombies(s.slots, pid); }
    forall p | native <= p < |s'.slots| && s'.slots[p].Live()
      ensures HasLiveParent(s'.slots, p)
    { assert HasLiveParent(s.slots, p); }
  }

  lemma WaitKeeps(s: Sys, native: nat, init: nat, pid: nat)
    requires Inv(s, native, init) && Active(s, pid)
    ensures Inv(Wait(s, pid), native, init)
  {
    WaitSound(s, native, init, pid);
    hide Sound;
    var z, s' := FirstZombie(s.slots, pid, |s.slots|), Wait(s, pid);
    if z.Some? {
      CleanupBooks(s, z.value);
    } else {
      forall q | 0 <= q < |s.slots|
        ensures Ended(s.log + [NoChild(pid)], q) == Ended(s.log, q) && Told(s.log + [NoChild(pid)], q) == Told(s.log, q)
      { LogAppend(s.log, NoChild(pid), q); }
    }
  }

  lemma ReportBooks(s: Sys, pid: nat, code: int)
    requires pid < |s.slots| && s.slots[pid].parent.Some? && s.slots[pid].parent.value < |s.slots|
    requires s.slots[pid].parent.value != pid && !s.slots[pid].hanging && Books(s)
    ensures Books(Report(s, pid, code))
  {
    var parent, s' := s.slots[pid].parent.value, Report(s, pid, code);
    var logged := s.log + [Exited(pid, code)];
    assert s'.log == if s.slots[parent].waiting then logged + [Reaped(parent, pid, code)] else logged;
    hide Ended, Told;
    forall q | 0 <= q < |s'.slots|
      ensures Ended(s'.log, q) == Told(s'.log, q) + if s'.slots[q].hanging then [s'.slots[q].status] else []
    {
      LogAppend(s.log, Exited(pid, code), q);
      LogAppend(logged, Reaped(parent, pid, code), q);
      assert Ended(s.log, q) == Told(s.log, q) + if s.slots[q].hanging then [s.slots[q].status] else [];
      assert q != pid ==> s'.slots[q].hanging == s.slots[q].hanging && s'.slots[q].status == s.slots[q].status;
    }
  }

  lemma AdoptBooks(s: Sys, pid: nat, init: nat, k: nat)
    requires init < |s.slots| && k <= |s.slots| && !s.slots[init].hanging && Books(s)
    ensures Books(Adopt(s, pid, init, k))
  {
    var z := FirstZombie(s.slots, pid, k);
    var t := s.(slots := Reparented(s.slots, pid, init, k));
    SameBooks(s, t);
    if t.slots[init].waiting && z.Some? {
      var u := t.(slots := t.slots[init := t.slots[init].(waiting := false)]);
      SameBooks(t, u);
      CleanupBooks(u, z.value);
    }
  }

  /** The table between the two halves of do_exit(): only the children of `pid` may lack a live parent. */
  ghost predicate Reported(t: Table, native: nat, init: nat, pid: nat) {
    && init < native <= |t| && native <= pid < |t|
    && (forall p :: 0 <= p < native ==> t[p].Live() && !t[p].hanging)
    && (forall p :: 0 <= p < |t| && t[p].free ==> !t[p].waiting && !t[p].hanging)
    && (forall p :: 0 <= p < |t| && t[p].hanging ==> !t[p].waiting)
    && (t[pid].free || t[pid].hanging) && t[pid].parent != Some(pid)
    && (forall p :: native <= p < |t| && t[p].Live() && t[p].parent != Some(pid) ==> HasLiveParent(t, p))
    && NoLostWakeup(t)
  }

  lemma ReportSound(s: Sys, native: nat, init: nat, pid: nat, code: int)
    requires Sound(s.slots, native, init) && Active(s, pid) && pid >= native
    ensures HasLiveParent(s.slots, pid) && Reported(Report(s, pid, code).slots, native, init, pid)
  {
    assert HasLiveParent(s.slots, pid);
    var t := Report(s, pid, code).slots;
    forall p | native <= p < |t| && t[p].Live() && t[p].parent != Some(pid)
      ensures HasLiveParent(t, p)
    { assert HasLiveParent(s.slots, p); }
  }

  lemma AdoptParents(s: Sys, native: nat, init: nat, pid: nat)
    requires Reported(s.slots, native, init, pid)
    ensures var t := Adopt(s, pid, init, |s.slots|).slots;
            forall p :: native <= p < |t| && t[p].Live() ==> HasLiveParent(t, p)
  {
    hide NoLostWakeup;
    var t := Adopt(s, pid, init, |s.slots|).slots;
    forall p | native <= p < |t| && t[p].Live()
      ensures HasLiveParent(t, p)
    {
      if s.slots[p].parent != Some(pid) { assert HasLiveParent(s.slots, p); }
    }
  }

  lemma AdoptWakes(s: Sys, native: nat, init: nat, pid: nat)
    requires Reported(s.slots, native, init, pid)
    ensures NoLostWakeup(Adopt(s, pid, init, |s.slots|).slots)
  {
    hide HasLiveParent;
    if FirstZombie(s.slots, pid, |s.slots|).None? { NoZombies(s.slots, pid); }
  }

  lemma AdoptSound(s: Sys, native: nat, init: nat, pid: nat)
    requires Reported(s.slots, native, init, pid)
    ensures Sound(Adopt(s, pid, init, |s.slots|).slots, native, init)
    ensures forall p :: 0 <= p < |s.slots| ==> Adopt(s, pid, init, |s.slots|).slots[p].parent != Some(pid)
    ensures Adopt(s, pid, init, |s.slots|).slots[pid].hanging || Adopt(s, pid, init, |s.slots|).slots[pid].free
  {
    AdoptParents(s, native, init, pid);
    AdoptWakes(s, native, init, pid);
    hide HasLiveParent, NoLostWakeup;
  }

  /** do_exit() of a forked process leaves a good table; its children belong to INIT. */
  lemma ExitKeeps(s: Sys, native: nat, init: nat, pid: nat, code: int)
    requires Inv(s, native, init) && Active(s, pid) && pid >= native
    ensures HasLiveParent(s.slots, pid)
    ensures var s' := Exit(s, pid, code, init);
            Inv(s', native, init) && !Active(s', pid) && forall p :: 0 <= p < |s'.slots| ==> s'.slots[p].parent != Some(pid)
  {
    ReportSound(s, native, init, pid, code);
    var r := Report(s, pid, code);
    AdoptSound(r, native, init, pid);
    ReportBooks(s, pid, code);
    AdoptBooks(r, pid, init, |s.slots|);
  }

  // ---------------------------------------------------------------- runs

  datatype Step = DoFork(pid: nat) | DoExit(pid: nat, code: int) | DoWait(pid: nat)

  /** Only an active process makes a call, and the native ones do not end. */
  predicate Allowed(s: Sys, native: nat, step: Step) {
    Active(s, step.pid) && (step.DoExit? ==> step.pid >= native)
  }

  ghost function Next(s: Sys, native: nat, init: nat, step: Step): Sys
    requires Inv(s, native, init) && Allowed(s, native, step)
  {
    match step
    case DoFork(pid) => if Fork(s, pid).Some? then Fork(s, pid).value.1 else s
    case DoExit(pid, code) => assert HasLiveParent(s.slots, pid); Exit(s, pid, code, init)
    case DoWait(pid) => Wait(s, pid)
  }

  lemma NextKeepsInv(s: Sys, native: nat, init: nat, step: Step)
    requires Inv(s, native, init) && Allowed(s, native, step)
    ensures Inv(Next(s, native, init, step), native, init)
  {
    match step {
      case DoFork(pid) => ForkKeeps(s, native, init, pid); hide Inv;
      case DoExit(pid, code) => ExitKeeps(s, native, init, pid, code); hide Inv;
      case DoWait(pid) => WaitKeeps(s, native, init, pid); hide Inv;
    }
  }

  /** Only the first state is required to be good; that the others are makes `Next` apply to them. */
  ghost predicate IsRun(states: seq<Sys>, steps: seq<Step>, native: nat, init: nat) {
    && |states| == |steps| + 1
    && Inv(states[0], native, init)
    && forall i :: 0 <= i < |steps| && Inv(states[i], native, init) ==>
         Allowed(states[i], native, steps[i]) && states[i + 1] == Next(states[i], native, init, steps[i])
  }

  /**
   On every run nobody waits beside a zombie child, every forked process has a live parent that is no
   zombie, and no exit is reported twice: what was told of an entry is what it ended with, in order,
   except for the last end while that is still to be reported.
   */
  lemma {:induction false} RunReportsOnce(states: seq<Sys>, steps: seq<Step>, native: nat, init: nat, k: nat)
    requires IsRun(states, steps, native, init) && k <= |steps|
    ensures Inv(states[k], native, init)
    ensures forall p :: 0 <= p < |states[k].slots| ==>
              && Told(states[k].log, p) <= Ended(states[k].log, p)
              && |Ended(states[k].log, p)| == |Told(states[k].log, p)| + if states[k].slots[p].hanging then 1 else 0
  {
    if k > 0 {
      RunReportsOnce(states, steps, native, init, k - 1);
      var i := k - 1;
      assert states[i + 1] == Next(states[i], native, init, steps[i]);
      NextKeepsInv(states[i], native, init, steps[i]);
    }
    hide Ended, Told, Sound, Next;
  }

  // ---------------------------------------------------------------- who is told what

  /**
   The exit of a process is reported in the same step if its parent waits, and the waiting ends; else
   it stays as a zombie. INIT, if it still waits, is told of the first zombie it adopts.
   */
  lemma ExitReports(s: Sys, native: nat, init: nat, pid: nat, code: int)
    requires Inv(s, native, init) && Active(s, pid) && pid >= native
    ensures HasLiveParent(s.slots, pid)
    ensures var s', parent := Exit(s, pid, code, init), s.slots[pid].parent.value;
            var z := FirstZombie(s.slots, pid, |s.slots|);
            var told := s.slots[parent].waiting;
            var adopts := z.Some? && s.slots[init].waiting && !(told && parent == init);
            && s'.log == s.log + [Exited(pid, code)]
                 + (if told then [Reaped(parent, pid, code)] else [])
                 + (if adopts then [Reaped(init, z.value, s.slots[z.value].status)] else [])
            && (told ==> s'.slots[pid].free && !s'.slots[parent].waiting)
            && (!told ==> s'.slots[pid].hanging && s'.slots[pid].status == code)
            && (adopts ==> s'.slots[z.value].free && !s'.slots[init].waiting)
  {
    assert HasLiveParent(s.slots, pid);
    var r := Report(s, pid, code);
    var parent := s.slots[pid].parent.value;
    assert !s.slots[pid].hanging && s.slots[pid].parent != Some(pid);
    SameZombies(s.slots, r.slots, pid, |s.slots|);
    hide Books;
    if s.slots[parent].waiting {
      assert r.log == s.log + [Exited(pid, code)] + [Reaped(parent, pid, code)];
    } else {
      assert r.log == s.log + [Exited(pid, code)] + [];
    }
  }

  lemma {:induction false} SameZombies(t: Table, t': Table, parent: nat, k: nat)
    requires |t'| == |t| && k <= |t|
    requires forall p :: 0 <= p < |t| ==> IsZombieOf(t', parent, p) == IsZombieOf(t, parent, p)
    ensures FirstZombie(t', parent, k) == FirstZombie(t, parent, k)
  {
    if k > 0 { SameZombies(t, t', parent, k - 1); }
  }

  /** wait() reports exactly the first zombie child, if there is one, frees its entry, and does not block. */
  lemma WaitReports(s: Sys, pid: nat)
    requires Active(s, pid)
    ensures var z, s' := FirstZombie(s.slots, pid, |s.slots|), Wait(s, pid);
            && (z.Some? <==> exists p :: 0 <= p < |s.slots| && IsZombieOf(s.slots, pid, p))
            && (z.Some? ==>
                  && s'.log == s.log + [Reaped(pid, z.value, s.slots[z.value].status)]
                  && s'.slots == s.slots[z.value := s.slots[z.value].Freed()]
                  && s'.slots[z.value].free && !s'.slots[pid].waiting)
  {
    var z := FirstZombie(s.slots, pid, |s.slots|);
    if z.Some? {
      assert IsZombieOf(s.slots, pid, z.value);
    }
  }

  // ---------------------------------------------------------------- parents and their children

  /**
   fork() fails if and only if no entry is free. The child takes the first free entry, can run, and has
   the caller as its parent; every other entry stays, the caller's included.
   */
  lemma ForkMakes(s: Sys, pid: nat)
    requires Active(s, pid)
    ensures Fork(s, pid).None? <==> forall p :: 0 <= p < |s.slots| ==> !s.slots[p].free
    ensures Fork(s, pid).Some? ==>
              var (c, s') := Fork(s, pid).value;
              && c < |s.slots| && s.slots[c].free && (forall p :: 0 <= p < c ==> !s.slots[p].free)
              && s'.log == s.log && |s'.slots| == |s.slots|
              && Active(s', c) && s'.slots[c].parent == Some(pid)
              && forall p :: 0 <= p < |s.slots| && p != c ==> s'.slots[p] == s.slots[p]
  {
    var c := FirstFree(s.slots, |s.slots|);
    if c < |s.slots| { assert s.slots[c].free; }
  }

  /** A free entry is nobody's parent but in name: none of its entries is a zombie. */
  lemma FreeHasNoZombies(s: Sys, native: nat, init: nat, c: nat)
    requires Sound(s.slots, native, init) && c < |s.slots| && s.slots[c].free
    ensures forall p :: 0 <= p < |s.slots| ==> !IsZombieOf(s.slots, c, p)
  {
    forall p | 0 <= p < |s.slots|
      ensures !IsZombieOf(s.slots, c, p)
    {
      if s.slots[p].hanging { assert HasLiveParent(s.slots, p); }
    }
  }

  lemma NoZombieFound(t: Table, parent: nat, k: nat)
    requires k <= |t| && forall p :: 0 <= p < |t| ==> !IsZombieOf(t, parent, p)
    ensures FirstZombie(t, parent, k).None?
  {
  }

  /** p forks c, p waits, c ends with a code: p is told of exactly that, and c's entry is free again. */
  lemma ForkWaitExit(s: Sys, native: nat, init: nat, pid: nat, code: int)
    requires Inv(s, native, init) && Active(s, pid) && Fork(s, pid).Some?
    requires FirstZombie(s.slots, pid, |s.slots|).None?
    ensures var (c, s1) := Fork(s, pid).value;
            && Active(s1, pid)
            && var s2 := Wait(s1, pid);
               && Inv(s2, native, init) && s2.slots[pid].waiting && Active(s2, c) && c >= native && HasLiveParent(s2.slots, c)
               && var s3 := Exit(s2, c, code, init);
                  s3.log == s.log + [Exited(c, code), Reaped(pid, c, code)] && s3.slots[c].free && !s3.slots[pid].waiting
  {
    hide Inv, Fork, Wait, Exit;
    ForkThenWait(s, native, init, pid);
    var c := Fork(s, pid).value.0;
    var s2 := Wait(Fork(s, pid).value.1, pid);
    ChildHasParent(s2, native, init, c);
    NoZombieFound(s2.slots, c, |s2.slots|);
    ExitReports(s2, native, init, c, code);
  }

  lemma ForkThenWait(s: Sys, native: nat, init: nat, pid: nat)
    requires Inv(s, native, init) && Active(s, pid) && Fork(s, pid).Some?
    requires FirstZombie(s.slots, pid, |s.slots|).None?
    ensures var (c, s1) := Fork(s, pid).value;
            && Active(s1, pid)
            && var s2 := Wait(s1, pid);
               && Inv(s2, native, init) && s2.log == s.log && s2.slots[pid].waiting && Active(s2, c) && c >= native
               && s2.slots[c].parent == Some(pid) && forall p :: 0 <= p < |s2.slots| ==> !IsZombieOf(s2.slots, c, p)
  {
    ForkKeeps(s, native, init, pid);
    ForkMakes(s, pid);
    FreeHasNoZombies(s, native, init, Fork(s, pid).value.0);
    hide Books, Sound;
    var (c, s1) := Fork(s, pid).value;
    SameZombiesOf(s, s1, pid, c);
    WaitKeeps(s1, native, init, pid);
    WaitAnswersIff(s1, pid);
    var s2 := Wait(s1, pid);
    assert s2 == s1.(slots := s1.slots[pid := s1.slots[pid].(waiting := true)]) by {
      assert s1.slots[c].parent == Some(pid);
    }
    forall p | 0 <= p < |s2.slots|
      ensures !IsZombieOf(s2.slots, c, p)
    { assert !IsZombieOf(s.slots, c, p); }
  }

  /** The new entry is no zombie, and the others are as they were. */
  lemma SameZombiesOf(s: Sys, s1: Sys, pid: nat, c: nat)
    requires |s1.slots| == |s.slots| && c < |s.slots| && !s1.slots[c].hanging
    requires forall p :: 0 <= p < |s.slots| && p != c ==> s1.slots[p] == s.slots[p]
    requires FirstZombie(s.slots, pid, |s.slots|).None?
    ensures FirstZombie(s1.slots, pid, |s1.slots|).None?
  {
    NoZombies(s.slots, pid);
    NoZombieFound(s1.slots, pid, |s1.slots|);
  }

  /** A live child stays the child of its parent until one of the two ends. */
  lemma ChildStays(s: Sys, native: nat, init: nat, step: Step, pid: nat, c: nat)
    requires Inv(s, native, init) && Allowed(s, native, step) && c < |s.slots| && pid < |s.slots|
    requires s.slots[c].Live() && !s.slots[c].hanging && s.slots[c].parent == Some(pid)
    requires step.DoExit? ==> step.pid != pid && step.pid != c
    ensures var s' := Next(s, native, init, step);
            |s'.slots| == |s.slots| && s'.slots[c].Live() && !s'.slots[c].hanging && s'.slots[c].parent == Some(pid)
  {
    hide Books, NoLostWakeup;
    if step.DoExit? { assert HasLiveParent(s.slots, step.pid); }
  }

  lemma {:induction false} ChildStaysOn(states: seq<Sys>, steps: seq<Step>, native: nat, init: nat, pid: nat, c: nat,
                                        i: nat, k: nat)
    requires IsRun(states, steps, native, init) && i <= k <= |steps| && c < |states[i].slots| && pid < |states[i].slots|
    requires states[i].slots[c].Live() && !states[i].slots[c].hanging && states[i].slots[c].parent == Some(pid)
    requires forall j :: i <= j < k && steps[j].DoExit? ==> steps[j].pid != pid && steps[j].pid != c
    ensures Inv(states[k], native, init) && |states[k].slots| == |states[i].slots|
    ensures states[k].slots[c].Live() && !states[k].slots[c].hanging && states[k].slots[c].parent == Some(pid)
  {
    hide Sound, Books, Next, Ended, Told;
    RunReportsOnce(states, steps, native, init, k);
    if k > i {
      ChildStaysOn(states, steps, native, init, pid, c, i, k - 1);
      var j := k - 1;
      RunReportsOnce(states, steps, native, init, j);
      assert states[j + 1] == Next(states[j], native, init, steps[j]);
      ChildStays(states[j], native, init, steps[j], pid, c);
    }
  }

  /** The end of `c` is logged, and its parent was told at once if it waited, or else can still be told. */
  ghost predicate ParentLearns(s: Sys, s': Sys, pid: nat, c: nat, code: int) {
    && pid < |s.slots| == |s'.slots| && c < |s.slots| && s.log + [Exited(c, code)] <= s'.log
    && if s.slots[pid].waiting then
         s.log + [Exited(c, code), Reaped(pid, c, code)] <= s'.log && s'.slots[c].free && !s'.slots[pid].waiting
       else s'.slots[c].hanging && s'.slots[c].status == code
  }

  /**
   Over any run: p forks c, and whatever happens then, as long as neither ends p stays its parent. When
   c ends, p is told of its code at once if it waits, and else c is a zombie with that code.
   */
  lemma ChildIsReported(states: seq<Sys>, steps: seq<Step>, native: nat, init: nat, pid: nat, code: int, k: nat)
    requires IsRun(states, steps, native, init) && 0 < k <= |steps|
    requires steps[0] == DoFork(pid) && pid < |states[0].slots| && Fork(states[0], pid).Some?
    requires var c := Fork(states[0], pid).value.0;
             forall j :: 1 <= j < k && steps[j].DoExit? ==> steps[j].pid != pid && steps[j].pid != c
    ensures var c, s := Fork(states[0], pid).value.0, states[k];
            && Inv(s, native, init) && c < |s.slots| && s.slots[c].Live() && pid < |s.slots| && HasLiveParent(s.slots, c)
            && (Active(s, c) ==> ParentLearns(s, Exit(s, c, code, init), pid, c, code))
  {
    assert states[0 + 1] == Next(states[0], native, init, steps[0]);
    ForkKeeps(states[0], native, init, pid);
    ForkMakes(states[0], pid);
    var c := Fork(states[0], pid).value.0;
    hide Sound, Books, Next, Fork;
    ChildStaysOn(states, steps, native, init, pid, c, 1, k);
    var s := states[k];
    ChildHasParent(s, native, init, c);
    hide Inv, IsRun, Exit, ParentLearns;
    if Active(s, c) { ChildExits(s, native, init, pid, c, code); }
  }

  lemma ChildExits(s: Sys, native: nat, init: nat, pid: nat, c: nat, code: int)
    requires Inv(s, native, init) && Active(s, c) && c >= native && s.slots[c].parent == Some(pid)
    ensures HasLiveParent(s.slots, c) && pid < |s.slots|
    ensures init < |s.slots| && ParentLearns(s, Exit(s, c, code, init), pid, c, code)
  {
    ChildHasParent(s, native, init, c);
    ExitReports(s, native, init, c, code);
    assert init < |s.slots|;
    hide Inv, Exit;
  }

  lemma ChildHasParent(s: Sys, native: nat, init: nat, c: nat)
    requires Inv(s, native, init) && native <= c < |s.slots| && s.slots[c].Live()
    ensures HasLiveParent(s.slots, c)
  {
  }

  /** An exit gives INIT the children, ends at most two waits, frees at most two entries, and leaves all else. */
  lemma ExitSpares(s: Sys, native: nat, init: nat, pid: nat, code: int, p: nat)
    requires Inv(s, native, init) && Active(s, pid) && pid >= native && p < |s.slots| && p != pid
    ensures HasLiveParent(s.slots, pid)
    ensures var s' := Exit(s, pid, code, init);
            && |s'.slots| == |s.slots|
            && var e, e' := s.slots[p], s'.slots[p];
               && e'.status == e.status && e'.parent == (if e.parent == Some(pid) then Some(init) else e.parent)
               && (e'.waiting != e.waiting ==> e.waiting && (Some(p) == s.slots[pid].parent || p == init))
               && (e'.hanging != e.hanging || e'.free != e.free ==> e.hanging && e'.free && e.parent == Some(pid))
  {
    assert HasLiveParent(s.slots, pid);
    assert s.slots[p].hanging ==> !s.slots[p].waiting;
    ReportSpares(s, pid, code, p);
    hide Inv, Report;
    AdoptSpares(Report(s, pid, code), pid, init, p);
  }

  lemma ReportSpares(s: Sys, pid: nat, code: int, p: nat)
    requires pid < |s.slots| && s.slots[pid].parent.Some? && s.slots[pid].parent.value < |s.slots|
    requires p < |s.slots| && p != pid
    ensures var t := Report(s, pid, code);
            && |t.slots| == |s.slots|
            && t.slots[p] == s.slots[p].(waiting := s.slots[p].waiting && s.slots[pid].parent != Some(p))
  {
  }

  lemma AdoptSpares(s: Sys, pid: nat, init: nat, p: nat)
    requires init < |s.slots| && p < |s.slots|
    ensures var t, e := Adopt(s, pid, init, |s.slots|), s.slots[p];
            && |t.slots| == |s.slots| && t.slots[p].status == e.status
            && t.slots[p].parent == (if e.parent == Some(pid) then Some(init) else e.parent)
            && (t.slots[p].waiting != e.waiting ==> e.waiting && (p == init || (e.hanging && e.parent == Some(pid))))
            && (t.slots[p].hanging != e.hanging || t.slots[p].free != e.free ==>
                  e.hanging && t.slots[p].free && e.parent == Some(pid))
  {
  }

  /** wait() touches the caller, or the entry that it reports. */
  lemma WaitSpares(s: Sys, pid: nat, p: nat)
    requires Active(s, pid) && p < |s.slots|
    ensures var z, s' := FirstZombie(s.slots, pid, |s.slots|), Wait(s, pid);
            && |s'.slots| == |s.slots| && (p != pid && Some(p) != z ==> s'.slots[p] == s.slots[p])
            && (p == pid && z.None? ==> s'.slots[p] == s.slots[p].(waiting := s'.slots[p].waiting))
  {
  }

  // ---------------------------------------------------------------- waiting without children

  /**
   wait() answers "no child" exactly if no entry of the table, in use or freed, names the caller as its
   parent; it blocks exactly if some entry does and none of them is a zombie.
   */
  lemma WaitAnswersIff(s: Sys, pid: nat)
    requires Active(s, pid)
    ensures Wait(s, pid).log == s.log + [NoChild(pid)] <==>
              forall p :: 0 <= p < |s.slots| ==> s.slots[p].parent != Some(pid)
    ensures Wait(s, pid).slots[pid].waiting <==>
              && (exists p :: 0 <= p < |s.slots| && s.slots[p].parent == Some(pid))
              && forall p :: 0 <= p < |s.slots| && s.slots[p].parent == Some(pid) ==> !s.slots[p].hanging
  {
    hide Books, Sound;
    var z := FirstZombie(s.slots, pid, |s.slots|);
    if z.Some? {
      assert Wait(s, pid).log[|s.log|] == Reaped(pid, z.value, s.slots[z.value].status);
    } else {
      NoZombies(s.slots, pid);
      if p :| 0 <= p < |s.slots| && s.slots[p].parent == Some(pid) {
        assert |Wait(s, pid).log| == |s.log|;
      }
    }
  }

  /** A caller whose only child has been reaped waits for ever: the freed entry still names it. */
  lemma WaitAfterReapBlocks()
    ensures var s0 := Sys([Slot(false, false, false, None, 0), Slot(true, false, false, Some(0), 0)], []);
            && Inv(s0, 1, 0) && Fork(s0, 0).Some?
            && var s1 := Fork(s0, 0).value.1;
               && Active(s1, 1)
               && var s2 := Exit(s1, 1, 7, 0);
                  var s3 := Wait(s2, 0);
                  var s4 := Wait(s3, 0);
                  && s3.log == [Exited(1, 7), Reaped(0, 1, 7)]
                  && s4.slots[0].waiting && s4.slots[1].free
  {
    var s0 := Sys([Slot(false, false, false, None, 0), Slot(true, false, false, Some(0), 0)], []);
    var s1 := Fork(s0, 0).value.1;
    var s2 := Exit(s1, 1, 7, 0);
    assert s2.slots[1] == Slot(false, false, true, Some(0), 7);
    assert FirstZombie(s2.slots, 0, 2) == Some(1);
    var s3 := Wait(s2, 0);
    assert s3.slots[1].parent == Some(0);
    assert FirstZombie(s3.slots, 0, 2) == None;
  }

  // ---------------------------------------------------------------- the table in place

  class ProcTable {
    const slots: array<Slot>
    const native: nat      // NR_TASKS + NR_NATIVE_PROCS
    const init: nat        // INIT
    ghost var log: seq<Event>

    ghost function View(): Sys
      reads this, slots
    {
      Sys(slots[..], log)
    }

    ghost predicate Valid()
      reads this, slots
    {
      Inv(View(), native, init)
    }

    /** Booting: the native processes have no parent, all other entries are free and zero. */
    constructor (native: nat, init: nat, total: nat)
      requires init < native <= total
      ensures Valid() && fresh(slots) && slots.Length == total && this.native == native && this.init == init
    {
      this.native, this.init := native, init;
      slots := new Slot[total](p => if p < native then Slot(false, false, false, None, 0) else Slot(true, false, false, Some(0), 0));
      log := [];
    }

    method DoFork(pid: nat) returns (child: Option<nat>)
      requires Valid() && Active(View(), pid)
      modifies slots
      ensures Valid()
      ensures match Fork(old(View()), pid)
              case None => child.None? && View() == old(View())
              case Some((c, s)) => child == Some(c) && View() == s
    {
      ForkKeeps(View(), native, init, pid);
      var i := 0;
      while i < slots.Length && !slots[i].free
        invariant i <= slots.Length && FirstFree(slots[..], i) == i
      {
        i := i + 1;
      }
      if i == slots.Length { return None; }
      FirstFreeStays(slots[..], i, slots.Length);
      slots[i] := slots[pid].(parent := Some(pid));
      child := Some(i);
    }

    method CleanUp(p: nat)
      requires p < slots.Length && slots[p].parent.Some?
      modifies this`log, slots
      ensures View() == Cleanup(old(View()), p)
    {
      log := log + [Reaped(slots[p].parent.value, p, slots[p].status)];
      slots[p] := slots[p].Freed();
    }

    method DoExit(pid: nat, code: int)
      requires Valid() && Active(View(), pid) && pid >= native
      modifies this`log, slots
      ensures old(slots[pid].parent).Some? && old(slots[pid].parent).value < slots.Length
      ensures Valid() && View() == Exit(old(View()), pid, code, init)
    {
      hide Books, NoLostWakeup;
      ExitKeeps(View(), native, init, pid, code);
      ghost var s0 := View();
      var parent := slots[pid].parent.value;
      slots[pid] := slots[pid].(status := code);
      log := log + [Exited(pid, code)];
      if slots[parent].waiting {
        slots[parent] := slots[parent].(waiting := false);
        CleanUp(pid);
      } else {
        slots[pid] := slots[pid].(hanging := true);
      }
      ghost var s1 := View();
      assert s1 == Report(s0, pid, code);
      ReportSound(s0, native, init, pid, code);
      Orphans(pid);
    }

    /** The loop of do_exit() over all entries. */
    method Orphans(pid: nat)
      requires Reported(slots[..], native, init, pid)
      modifies this`log, slots
      ensures View() == Adopt(old(View()), pid, init, slots.Length)
    {
      hide Books, NoLostWakeup, HasLiveParent;
      ghost var s := View();
      assert Reparented(s.slots, pid, init, 0) == s.slots;
      for i := 0 to slots.Length
        invariant View() == Adopt(s, pid, init, i)
      {
        AdoptNext(s, native, init, pid, i);
        if slots[i].parent == Some(pid) {
          slots[i] := slots[i].(parent := Some(init));
          if slots[init].waiting && slots[i].hanging {
            slots[init] := slots[init].(waiting := false);
            CleanUp(i);
          }
        }
      }
    }

    method DoWait(pid: nat)
      requires Valid() && Active(View(), pid)
      modifies this`log, slots
      ensures Valid() && View() == Wait(old(View()), pid)
    {
      WaitKeeps(View(), native, init, pid);
      hide Sound, Books;
      var children := 0;
      for i := 0 to slots.Length
        invariant View() == old(View()) && FirstZombie(slots[..], pid, i).None?
        invariant children > 0 <==> exists p :: 0 <= p < i && slots[..][p].parent == Some(pid)
      {
        if slots[i].parent == Some(pid) {
          assert slots[..][i].parent == Some(pid);
          children := children + 1;
          if slots[i].hanging {
            FirstZombieStays(slots[..], pid, i + 1, slots.Length);
            CleanUp(i);
            return;
          }
        }
      }
      if children > 0 {
        slots[pid] := slots[pid].(waiting := true);
      } else {
        log := log + [NoChild(pid)];
      }
    }
  }

  lemma {:induction false} FirstFreeStays(t: Table, i: nat, n: nat)
    requires i < n <= |t| && FirstFree(t, i) == i && t[i].free
    ensures FirstFree(t, n) == i
  {
    if i + 1 < n { FirstFreeStays(t, i, n - 1); }
  }

  lemma {:induction false} FirstZombieStays(t: Table, parent: nat, i: nat, n: nat)
    requires i <= n <= |t| && FirstZombie(t, parent, i).Some?
    ensures FirstZombie(t, parent, n) == FirstZombie(t, parent, i)
  {
    if i < n { FirstZombieStays(t, parent, i, n - 1); }
  }

  /** One entry more: what the loop body does to the state after `i` entries. */
  lemma AdoptNext(s: Sys, native: nat, init: nat, pid: nat, i: nat)
    requires Reported(s.slots, native, init, pid) && i < |s.slots|
    ensures var a, b := Adopt(s, pid, init, i), Adopt(s, pid, init, i + 1);
            && |a.slots| == |b.slots| == |s.slots|
            && if a.slots[i].parent != Some(pid) then b == a else
               var t := a.(slots := a.slots[i := a.slots[i].(parent := Some(init))]);
               if t.slots[init].waiting && t.slots[i].hanging
               then b == Cleanup(t.(slots := t.slots[init := t.slots[init].(waiting := false)]), i)
               else b == t
  {
  }
}
