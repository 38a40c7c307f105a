/** The task table, updated in place, against the scheduler of TaskSched.dfy. */
module Scheduler {
  import opened Prelude
  import opened TaskSched

  /** The slot that the search of scheduler_tick() looks at in round `i`. */
  function Candidate(n: nat, c: nat, i: nat): nat
    requires n >= 2
  {
    var idx := (c + i) % n;
    if idx == 0 then (idx + 1) % n else idx
  }

  /** The slot `k` steps along the ring from `x`. */
  function Walk(n: nat, x: nat, k: nat): nat
    decreases k
  {
    if k == 0 then x else Walk(n, Succ(n, x), k - 1)
  }

  lemma {:induction false} WalkIs(n: nat, x: nat, k: nat)
    requires 1 <= x < n && k < n
    ensures Walk(n, x, k) == if x + k < n then x + k else x + k - n + 1
    decreases k
  {
    if k > 0 { WalkIs(n, Succ(n, x), k - 1); }
  }

  lemma ModOnce(x: nat, n: nat)
    requires 0 < n && x < 2 * n
    ensures x % n == if x < n then x else x - n
  {
  }

  /** Round `i` looks at a slot of the ring, and in ring order; slot 1 may come up twice in a row. */
  lemma CandidateIs(n: nat, c: nat, i: nat)
    requires n >= 2 && c < n && 1 <= i <= n
    ensures Candidate(n, c, i) == if c == 0 then (if i < n then i else 1)
                                  else if c + i <= n then (if c + i == n then 1 else c + i) else c + i - n
  {
    ModOnce(c + i, n);
    ModOnce(1, n);
  }

  /** How many slots of the ring the first `i` rounds have looked at. */
  function Seen(n: nat, c: nat, i: nat): nat
    requires n >= 2 && c < n && i <= n
  {
    if c > 0 && c + i > n then i - 1 else if i == n then n - 1 else i
  }

  lemma {:induction false} FindStep(t: seq<Task>, now: nat, x: nat, k: nat)
    requires 1 <= x < |t| && k < |t|
    ensures 1 <= Walk(|t|, x, k) < |t|
    ensures Find(t, now, x, k).Some? ==> Find(t, now, x, k + 1) == Find(t, now, x, k)
    ensures Find(t, now, x, k).None? ==>
              Find(t, now, x, k + 1) == if t[Walk(|t|, x, k)].Due(now) then Some(Walk(|t|, x, k)) else None
    decreases k
  {
    if k > 0 { FindStep(t, now, Succ(|t|, x), k - 1); }
  }

  lemma {:induction false} FindMore(t: seq<Task>, now: nat, x: nat, k: nat, m: nat)
    requires 1 <= x < |t| && k <= m && Find(t, now, x, k).Some?
    ensures Find(t, now, x, m) == Find(t, now, x, k)
    decreases k
  {
    if !t[x].Due(now) { FindMore(t, now, Succ(|t|, x), k - 1, m - 1); }
  }

  /** Round `i` looks at the next slot that has not been seen, or at one that has. */
  lemma RoundLooksAt(n: nat, c: nat, i: nat)
    requires n >= 2 && c < n && 1 <= i <= n
    ensures var x, k := Succ(n, c), Seen(n, c, i - 1);
            && k <= n - 1 && Seen(n, c, n) == n - 1
            && if Seen(n, c, i) == k then exists j :: 0 <= j < k && Candidate(n, c, i) == Walk(n, x, j)
               else Seen(n, c, i) == k + 1 && Candidate(n, c, i) == Walk(n, x, k)
  {
    var x, k := Succ(n, c), Seen(n, c, i - 1);
    CandidateIs(n, c, i);
    if Seen(n, c, i) == k {
      var j := if c == 0 then 0 else k - 1;
      WalkIs(n, x, j);
      assert Candidate(n, c, i) == Walk(n, x, j);
    } else {
      WalkIs(n, x, k);
    }
  }

  lemma {:induction false} SeenAreNotDue(t: seq<Task>, now: nat, x: nat, k: nat, j: nat)
    requires 1 <= x < |t| && j < k && Find(t, now, x, k).None?
    ensures 1 <= Walk(|t|, x, j) < |t| && !t[Walk(|t|, x, j)].Due(now)
    decreases k
  {
    if j > 0 { SeenAreNotDue(t, now, Succ(|t|, x), k - 1, j - 1); }
  }

  class Scheduler {
    const tasks: array<Task>
    var current: nat
    var tick: nat
    ghost var log: seq<Event>

    ghost function View(): Sys
      reads this, tasks
    {
      Sys(tasks[..], current, tick, log)
    }

    ghost predicate Valid()
      reads this, tasks
    {
      Inv(View())
    }

    /** task_init(). */
    constructor (maxTasks: nat, blank: Frame)
      requires maxTasks >= 2
      ensures Valid() && Initial(View()) && fresh(tasks) && tasks.Length == maxTasks
    {
      tasks := new Task[maxTasks](i =>
        Task(if i == 0 then RUNNING else DEAD, 0, false, 0, 0, 0, 0, blank));
      current, tick, log := 0, 0, [];
    }

    /** The search of scheduler_tick(): a due sleeper is woken, and the first ready task is the answer. */
    method Search() returns (next: Option<nat>)
      requires Fits(View()) && tasks[current].state != RUNNING
      requires forall i :: 1 <= i < tasks.Length ==> tasks[i].state != RUNNING
      modifies tasks
      ensures next == Find(old(tasks[..]), tick, Succ(tasks.Length, current), tasks.Length - 1)
      ensures next.None? ==> tasks[..] == old(tasks[..])
      ensures next.Some? ==> tasks[..] == old(tasks[..])[next.value := old(tasks[next.value]).(state := READY)]
    {
      ghost var t, n, x := tasks[..], tasks.Length, Succ(tasks.Length, current);
      for i := 1 to tasks.Length + 1
        invariant tasks[..] == t && Find(t, tick, x, Seen(n, current, i - 1)).None?
      {
        RoundLooksAt(n, current, i);
        var idx := Candidate(tasks.Length, current, i);
        ghost var k := Seen(n, current, i - 1);
        if Seen(n, current, i) == k {
          ghost var j :| 0 <= j < k && idx == Walk(n, x, j);
          SeenAreNotDue(t, tick, x, k, j);
        } else {
          FindStep(t, tick, x, k);
        }
        if tasks[idx].state == DEAD { continue; }
        if tasks[idx].state == SLEEPING {
          if tick >= tasks[idx].wakeTick {
            tasks[idx] := tasks[idx].(state := READY);
          } else {
            continue;
          }
        }
        if tasks[idx].state == READY {
          FindMore(t, tick, x, k + 1, n - 1);
          assert tasks[..] == t[idx := t[idx].(state := READY)];
          return Some(idx);
        }
      }
      next := None;
    }

    /** scheduler_tick(): `r` is the interrupted frame, `resumed` the one that the stub goes on with. */
    method Tick(r: Frame) returns (resumed: Frame)
      requires Valid()
      modifies this`current, this`log, tasks
      ensures Valid() && (View(), resumed) == SchedulerTick(old(View()), r)
    {
      TickElects(View(), r);
      var s := SaveContext(r);
      hide Inv, Rotate, Find, Save;
      var cur := tasks[current];
      if s && cur.quantumLeft > 0 {
        tasks[current] := cur.(quantumLeft := cur.quantumLeft - 1, ticks := cur.ticks + 1, state := RUNNING);
        resumed := r;
      } else {
        resumed := HandOver(r);
      }
    }

    /** The interrupted context is saved; `s` says whether a weighted task was interrupted while running. */
    method SaveContext(r: Frame) returns (s: bool)
      requires Valid()
      modifies this`log, tasks
      ensures View() == Save(old(View()), r) && Fits(View())
      ensures s <==> current > 0 && tasks[current].state == READY
      ensures tasks[current].state != RUNNING && forall i :: 1 <= i < tasks.Length ==> tasks[i].state != RUNNING
    {
      hide LastFrame;
      ghost var u := Save(View(), r);
      tasks[current] := tasks[current].(regs := r);
      if tasks[current].state == RUNNING {
        tasks[current] := tasks[current].(state := READY);
      }
      log := log + [Saved(current, r)];
      s := current > 0 && tasks[current].state == READY;
      assert tasks[..] == u.tasks;
    }

    /** The rest of scheduler_tick(): search the ring and switch. */
    method HandOver(r: Frame) returns (resumed: Frame)
      requires Fits(View()) && tasks[current].state != RUNNING
      requires forall i :: 1 <= i < tasks.Length ==> tasks[i].state != RUNNING
      modifies this`current, tasks
      ensures (View(), resumed) == Rotate(old(View()), r)
    {
      hide Find;
      ghost var t0 := tasks[..];
      var next := Search();
      if next.None? {
        if current > 0 {
          tasks[0] := tasks[0].(state := RUNNING, ticks := tasks[0].ticks + 1);
          current := 0;
          resumed := tasks[0].regs;
        } else {
          tasks[0] := tasks[0].(state := RUNNING);
          resumed := r;
        }
        assert tasks[..] == t0[0 := tasks[0]];
      } else {
        var t := tasks[next.value];
        tasks[next.value] := t.(state := RUNNING, ticks := t.ticks + 1, quantumLeft := if t.weight > 0 then t.weight - 1 else 255);
        current := next.value;
        resumed := tasks[next.value].regs;
        assert tasks[..] == t0[next.value := tasks[next.value]];
      }
    }

    /** The timer interrupt. */
    method Timer(r: Frame) returns (resumed: Frame)
      requires Valid()
      modifies this, tasks
      ensures Valid() && (View(), resumed) == SchedulerTick(old(View()).(tick := old(tick) + 1), r)
    {
      TimePasses(View());
      tick := tick + 1;
      resumed := Tick(r);
    }

    /** task_create_prio(); `newStack` is the answer of kmalloc(), 0 if there is no memory. */
    method CreatePrio(weight: nat, newStack: nat, trampoline: nat) returns (r: Option<nat>)
      requires Valid() && tasks[current].state == RUNNING && weight < 256
      modifies this`log, tasks
      ensures Valid()
      ensures match TaskSched.Create(old(View()), weight, newStack, trampoline)
              case None => r.None? && View() == old(View())
              case Some((slot, s)) => r == Some(slot) && View() == s
    {
      CreateKeeps(View(), weight, newStack, trampoline);
      hide Inv;
      var slot := 1;
      while slot < tasks.Length && tasks[slot].state != DEAD
        invariant 1 <= slot <= tasks.Length && FirstDead(tasks[..], slot).None?
      {
        slot := slot + 1;
      }
      if slot == tasks.Length { return None; }
      FirstDeadStays(tasks[..], slot, tasks.Length);
      var w := if weight == 0 then 1 else weight;
      var stack := if tasks[slot].stackBase != 0 then tasks[slot].stackBase else newStack;
      if stack == 0 { return None; }
      var f := StartFrame(stack, trampoline);
      tasks[slot] := Task(READY, 0, false, 0, stack, w, w, f);
      log := log + [Started(slot, f)];
      r := Some(slot);
    }

    /** task_kill(): -1 for the kernel task, a number out of range or a dead slot. */
    method RequestKill(id: int) returns (r: int)
      requires Valid()
      modifies tasks
      ensures Valid() && View() == TaskSched.Kill(old(View()), id)
      ensures r == 0 <==> 0 < id < tasks.Length && old(tasks[id].state) != DEAD
    {
      KillKeeps(View(), id);
      hide Inv;
      if id <= 0 || id >= tasks.Length || tasks[id].state == DEAD { return -1; }
      tasks[id] := tasks[id].(killReq := true);
      r := 0;
    }

    /** The end of task_trampoline(), up to its idle loop. */
    method Finish()
      requires Valid() && tasks[current].state == RUNNING && current > 0
      modifies tasks
      ensures Valid() && View() == TaskSched.Die(old(View()))
    {
      DieKeeps(View());
      hide Inv;
      tasks[current] := tasks[current].(state := DEAD, killReq := false);
    }

    /** task_sleep(), up to its yield. */
    method SleepUntil(ms: nat)
      requires Valid() && tasks[current].state == RUNNING
      modifies tasks
      ensures Valid() && View() == TaskSched.Sleep(old(View()), ms)
      ensures current > 0 && ms < U32 ==>
                && tasks[current].state == SLEEPING && tasks[current].wakeTick > tick
                && (20 * (tasks[current].wakeTick - tick) >= ms <==> ms + 19 < U32)
    {
      SleepKeeps(View(), ms);
      hide Inv;
      if current == 0 { return; }
      var ticksNeeded := (ms + 19) % U32 / 20;
      if ticksNeeded == 0 { ticksNeeded := 1; }
      tasks[current] := tasks[current].(wakeTick := tick + ticksNeeded, state := SLEEPING);
    }
  }

  lemma {:induction false} FirstDeadStays(t: seq<Task>, i: nat, n: nat)
    requires 1 <= i < n <= |t| && FirstDead(t, i).None? && t[i].state == DEAD
    ensures FirstDead(t, n) == Some(i)
  {
    if i + 1 < n { FirstDeadStays(t, i, n - 1); }
  }
}
