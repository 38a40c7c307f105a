/** The life of a task: creation, its turns, the frames it is resumed with, the kill mark, and its end. */
module TaskLife {
  import opened Prelude
  import opened TaskSched
  import opened TaskFairness

  // ---------------------------------------------------------------- birth

  predicate LowestDead(s: Sys, i: nat) {
    1 <= i < |s.tasks| && s.tasks[i].state == DEAD && forall j :: 1 <= j < i ==> s.tasks[j].state != DEAD
  }

  /** The weight that a creation with the argument `weight` gives. */
  function Granted(weight: nat): (w: nat)
    ensures w > 0 && (weight > 0 ==> w == weight)
  {
    if weight == 0 then 1 else weight
  }

  /** Ready to start at the trampoline, in kernel mode with interrupts on, at the top of a stack of its own. */
  predicate Newborn(t: Task, weight: nat, stack: nat, trampoline: nat) {
    && t.state == READY && t.weight == t.quantumLeft == Granted(weight)
    && t.ticks == 0 && !t.killReq && t.stackBase == stack > 0
    && t.regs.eip == trampoline && t.regs.cs == KERNEL_CS && t.regs.ds == 0x10 && t.regs.eflags == 0x202
    && stack <= t.regs.useless && t.regs.useless + 20 == stack + TASK_STACK_SIZE
  }

  /**
   Creation fails if and only if no slot is dead, or the lowest dead one has no stack and there is no
   memory. The new task has the lowest dead slot and the weight asked for; all other slots stay.
   */
  lemma CreateMakes(s: Sys, weight: nat, newStack: nat, trampoline: nat)
    requires Fits(s)
    ensures Create(s, weight, newStack, trampoline).None? <==>
              forall i: nat :: LowestDead(s, i) ==> s.tasks[i].stackBase == 0 && newStack == 0
    ensures Create(s, weight, newStack, trampoline).Some? ==>
              var (slot, s') := Create(s, weight, newStack, trampoline).value;
              && LowestDead(s, slot) && |s'.tasks| == |s.tasks| && s'.current == s.current && s'.tick == s.tick
              && (forall i :: 0 <= i < |s.tasks| && i != slot ==> s'.tasks[i] == s.tasks[i])
              && Newborn(s'.tasks[slot], weight, if s.tasks[slot].stackBase > 0 then s.tasks[slot].stackBase else newStack,
                         trampoline)
              && LastFrame(s'.log, slot) == Some(s'.tasks[slot].regs)
  {
    var d := FirstDead(s.tasks, |s.tasks|);
    if d.Some? {
      assert LowestDead(s, d.value);
      if Create(s, weight, newStack, trampoline).Some? {
        var (slot, s') := Create(s, weight, newStack, trampoline).value;
        LastFrameAppend(s.log, s'.log[|s.log|], slot);
      }
    }
  }

  // ---------------------------------------------------------------- what the steps leave alone

  /** The one who ends in this step. */
  predicate Ends(s: Sys, step: Step, i: nat) {
    step.DoDie? && i == s.current
  }

  lemma TickSpares(s: Sys, r: Frame, i: nat)
    requires Inv(s) && i < |s.tasks| && s.tasks[i].state != DEAD
    ensures var s' := SchedulerTick(s, r).0;
            && |s'.tasks| == |s.tasks|
            && var t, t' := s.tasks[i], s'.tasks[i];
               && t' == t.(state := t'.state, ticks := t'.ticks, quantumLeft := t'.quantumLeft,
                           regs := if i == s.current then r else t.regs)
               && t'.state != DEAD
  {
    hide LastFrame;
  }

  /**
   A live task keeps its weight and its stack through every step, and its mark until it ends; its frame
   is replaced only by the one it is interrupted with, its wake tick only by its own sleep.
   */
  lemma NextSpares(s: Sys, step: Step, i: nat)
    requires Inv(s) && Allowed(s, step) && i < |s.tasks| && s.tasks[i].state != DEAD && !Ends(s, step, i)
    ensures var s' := Next(s, step);
            && |s'.tasks| == |s.tasks|
            && var t, t' := s.tasks[i], s'.tasks[i];
               && t'.state != DEAD && t'.weight == t.weight && t'.stackBase == t.stackBase
               && t'.killReq == (t.killReq || (step == DoKill(i) && i > 0))
               && t'.regs == (if step.Schedules() && i == s.current then step.r else t.regs)
               && (t'.wakeTick != t.wakeTick ==> step.DoSleep? && i == s.current)
  {
    hide SchedulerTick, LastFrame;
    match step {
      case DoTimer(r) => TimePasses(s); TickSpares(s.(tick := s.tick + 1), r, i);
      case DoYield(r) => TickSpares(s, r, i);
      case _ =>
    }
  }

  /** A kill answers 0 for a live task other than the kernel's, marks just that one, and else changes nothing. */
  lemma KillMarks(s: Sys, id: int)
    requires Fits(s)
    ensures if 0 < id < |s.tasks| && s.tasks[id].state != DEAD then
              && Kill(s, id) == s.(tasks := Kill(s, id).tasks) && |Kill(s, id).tasks| == |s.tasks|
              && Kill(s, id).tasks[id] == s.tasks[id].(killReq := true)
              && forall i :: 0 <= i < |s.tasks| && i != id ==> Kill(s, id).tasks[i] == s.tasks[i]
            else Kill(s, id) == s
  {
  }

  // ---------------------------------------------------------------- turns

  /** A task that the scheduler changes over to begins a turn with its whole weight. */
  lemma ChosenTurns(s: Sys, r: Frame)
    requires Inv(s)
    ensures var s' := SchedulerTick(s, r).0;
            |s'.tasks| == |s.tasks| && (s'.current != s.current && s'.current > 0 ==> Turning(s', s'.current))
  {
    hide LastFrame;
  }

  /** As long as it does not end, a created task has the weight asked for. */
  lemma {:induction false} WeightStays(states: seq<Sys>, steps: seq<Step>, x: nat, w: nat, i: nat, k: nat)
    requires IsRun(states, steps) && i <= k <= |steps| && x < |states[i].tasks|
    requires states[i].tasks[x].state != DEAD && states[i].tasks[x].weight == w
    requires forall j :: i <= j < k ==> !Ends(states[j], steps[j], x)
    ensures Inv(states[k]) && |states[k].tasks| == |states[i].tasks|
    ensures states[k].tasks[x].state != DEAD && states[k].tasks[x].weight == w
  {
    RunKeepsInv(states, steps, k);
    RunKeepsInv(states, steps, i);
    if k > i {
      WeightStays(states, steps, x, w, i, k - 1);
      assert states[k - 1 + 1] == Next(states[k - 1], steps[k - 1]);
      hide Inv, Next;
      NextSpares(states[k - 1], steps[k - 1], x);
    }
  }

  /**
   Over any run from its creation until it ends: each turn of a task lasts as many ticks as the weight it
   was created with, and then the next member of the ring begins.
   */
  lemma CreatedTurns(states: seq<Sys>, steps: seq<Step>, x: nat, k: nat, rs: seq<Frame>)
    requires IsRun(states, steps) && 0 < k <= |steps| && steps[0].DoCreate?
    requires var c := steps[0]; var made := Create(states[0], c.weight, c.newStack, c.trampoline);
             made.Some? && made.value.0 == x
    requires forall j :: 1 <= j < k ==> !Ends(states[j], steps[j], x)
    requires x < |states[k].tasks| && Turning(states[k], x)
    ensures Inv(states[k])
    ensures |rs| < Granted(steps[0].weight) ==> Timers(states[k], rs).current == x
    ensures |rs| == Granted(steps[0].weight) && Stable(states[k], |rs|) ==>
              var s' := Timers(states[k], rs);
              var y := NextMember(states[k], Succ(|states[k].tasks|, x), |states[k].tasks| - 1);
              y.Some? && Turning(s', y.value)
  {
    hide IsRun, Inv, Create, Timers, NextMember, Stable, Ends, Turning, Granted;
    CreatedWeight(states, steps, x, k);
    TurnOfWeight(states[k], x, rs);
  }

  lemma TurnOfWeight(s: Sys, x: nat, rs: seq<Frame>)
    requires Inv(s) && Turning(s, x)
    ensures |rs| < s.tasks[x].weight ==> Timers(s, rs).current == x
    ensures |rs| == s.tasks[x].weight && Stable(s, |rs|) ==>
              var y := NextMember(s, Succ(|s.tasks|, x), |s.tasks| - 1);
              y.Some? && Turning(Timers(s, rs), y.value)
  {
    hide Inv, Timers, NextMember, Stable;
    if |rs| < s.tasks[x].weight { TurnLasts(s, rs, x, s.tasks[x].weight - 1); }
    if |rs| == s.tasks[x].weight && Stable(s, |rs|) { TurnEnds(s, rs, x); }
  }

  lemma CreatedWeight(states: seq<Sys>, steps: seq<Step>, x: nat, k: nat)
    requires IsRun(states, steps) && 0 < k <= |steps| && steps[0].DoCreate?
    requires var c := steps[0]; var made := Create(states[0], c.weight, c.newStack, c.trampoline);
             made.Some? && made.value.0 == x
    requires forall j :: 1 <= j < k ==> !Ends(states[j], steps[j], x)
    ensures |states| == |steps| + 1
    ensures Inv(states[k]) && x < |states[k].tasks| && states[k].tasks[x].weight == Granted(steps[0].weight)
  {
    var c := steps[0];
    assert states[0 + 1] == Next(states[0], c);
    CreateMakes(states[0], c.weight, c.newStack, c.trampoline);
    hide Inv, Create;
    WeightStays(states, steps, x, Granted(c.weight), 1, k);
  }

  // ---------------------------------------------------------------- frames

  /** While another task is current, the frame of a live one stays. */
  lemma {:induction false} FrameStays(states: seq<Sys>, steps: seq<Step>, c: nat, r: Frame, i: nat, k: nat)
    requires IsRun(states, steps) && i <= k <= |steps| && c < |states[i].tasks|
    requires states[i].tasks[c].state != DEAD && states[i].tasks[c].regs == r
    requires forall j :: i <= j < k ==> states[j].current != c
    ensures Inv(states[k]) && |states[k].tasks| == |states[i].tasks|
    ensures states[k].tasks[c].state != DEAD && states[k].tasks[c].regs == r
  {
    RunKeepsInv(states, steps, k);
    RunKeepsInv(states, steps, i);
    if k > i {
      FrameStays(states, steps, c, r, i, k - 1);
      assert states[k - 1 + 1] == Next(states[k - 1], steps[k - 1]);
      hide Inv, Next;
      NextSpares(states[k - 1], steps[k - 1], c);
    }
  }

  /** The stub goes on with the interrupted frame if the task stays current, and else with that of the next one. */
  lemma ResumesOwnFrame(s: Sys, r: Frame)
    requires Inv(s)
    ensures var (s', r') := SchedulerTick(s, r);
            s'.current < |s.tasks| && r' == if s'.current == s.current then r else s.tasks[s'.current].regs
  {
    hide LastFrame;
  }

  /**
   Over any run: a live task that is interrupted with the frame `r` and loses the processor is resumed
   with exactly `r` by the first tick or yield that makes it current again.
   */
  lemma ResumedAsInterrupted(states: seq<Sys>, steps: seq<Step>, c: nat, k: nat, r2: Frame)
    requires IsRun(states, steps) && 0 < k <= |steps| && steps[0].Schedules()
    requires states[0].current == c && states[0].tasks[c].state != DEAD
    requires forall j :: 1 <= j <= k ==> states[j].current != c
    ensures Fits(states[k])
    ensures var (s', resumed) := SchedulerTick(states[k], r2); s'.current == c ==> resumed == steps[0].r
    ensures var (s', resumed) := SchedulerTick(states[k].(tick := states[k].tick + 1), r2);
            s'.current == c ==> resumed == steps[0].r
  {
    assert states[0 + 1] == Next(states[0], steps[0]);
    assert c < |states[0].tasks|;
    NextSpares(states[0], steps[0], c);
    FrameStays(states, steps, c, steps[0].r, 1, k);
    TimePasses(states[k]);
    ResumesOwnFrame(states[k], r2);
    ResumesOwnFrame(states[k].(tick := states[k].tick + 1), r2);
    hide Inv, SchedulerTick, Next;
  }

  // ---------------------------------------------------------------- the end

  predicate TakesSlot(s: Sys, step: Step, x: nat)
    requires Fits(s)
  {
    step.DoCreate? && Create(s, step.weight, step.newStack, step.trampoline).Some?
    && Create(s, step.weight, step.newStack, step.trampoline).value.0 == x
  }

  /** The ended task is dead, its mark is gone, and nothing else has changed. */
  lemma DieEnds(s: Sys)
    requires Fits(s)
    ensures var s' := Die(s);
            && |s'.tasks| == |s.tasks| && s' == s.(tasks := s'.tasks)
            && s'.tasks[s.current] == s.tasks[s.current].(state := DEAD, killReq := false)
            && forall i :: 0 <= i < |s.tasks| && i != s.current ==> s'.tasks[i] == s.tasks[i]
  {
  }

  lemma DeadIsPassed(s: Sys, step: Step, x: nat)
    requires Inv(s) && Allowed(s, step) && 1 <= x < |s.tasks| && s.tasks[x].state == DEAD && !TakesSlot(s, step, x)
    ensures var s' := Next(s, step);
            && |s'.tasks| == |s.tasks| && s'.tasks[x].state == DEAD
            && s'.tasks[x].stackBase == s.tasks[x].stackBase
            && (if step.Schedules() then s'.current != x else s'.current == s.current)
  {
    hide LastFrame;
  }

  /**
   Over any run: a dead slot stays dead, with its stack, until a creation takes it, and from the first tick or
   yield on it is not current. If it is the lowest dead one, the next creation does take it.
   */
  lemma {:induction false} DeadStays(states: seq<Sys>, steps: seq<Step>, x: nat, k: nat)
    requires IsRun(states, steps) && k <= |steps| && 1 <= x < |states[0].tasks| && states[0].tasks[x].state == DEAD
    requires forall j :: 0 <= j < k && Fits(states[j]) ==> !TakesSlot(states[j], steps[j], x)
    ensures Inv(states[k]) && |states[k].tasks| == |states[0].tasks| && states[k].tasks[x].state == DEAD
    ensures states[k].tasks[x].stackBase == states[0].tasks[x].stackBase
    ensures states[0].current != x || (exists j :: 0 <= j < k && steps[j].Schedules()) ==> states[k].current != x
    ensures forall w: nat, m: nat, tr: nat :: LowestDead(states[k], x) && (states[0].tasks[x].stackBase > 0 || m > 0) ==>
              TakesSlot(states[k], DoCreate(w, m, tr), x)
  {
    RunKeepsInv(states, steps, k);
    if k > 0 {
      DeadStays(states, steps, x, k - 1);
      assert states[k - 1 + 1] == Next(states[k - 1], steps[k - 1]);
      DeadIsPassed(states[k - 1], steps[k - 1], x);
    }
    forall w: nat, m: nat, tr: nat | LowestDead(states[k], x) && (states[0].tasks[x].stackBase > 0 || m > 0)
      ensures TakesSlot(states[k], DoCreate(w, m, tr), x)
    { CreateMakes(states[k], w, m, tr); }
  }
}
