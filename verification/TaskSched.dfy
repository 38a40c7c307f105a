/** The weighted round-robin scheduler as functions on values, and what holds on every run of it. */
module TaskSched {
  import opened Prelude

  datatype State = DEAD | READY | RUNNING | SLEEPING

  /** What the interrupt stub saves and restores. */
  datatype Frame = Frame(ds: nat, useless: nat, eip: nat, cs: nat, eflags: nat, general: seq<nat>)

  datatype Task = Task(
    state: State, ticks: nat, killReq: bool, wakeTick: nat,
    stackBase: nat, weight: nat, quantumLeft: nat, regs: Frame)
  {
    predicate Due(now: nat) { state == READY || (state == SLEEPING && wakeTick <= now) }
  }

  datatype Event = Saved(slot: nat, frame: Frame) | Started(slot: nat, frame: Frame)

  datatype Sys = Sys(tasks: seq<Task>, current: nat, tick: nat, log: seq<Event>)

  const TASK_STACK_SIZE: nat := 4096
  const KERNEL_CS: nat := 8

  /** The frame built by task_create_prio() below the top of the new stack. */
  function StartFrame(stack: nat, trampoline: nat): Frame {
    Frame(0x10, stack + TASK_STACK_SIZE - 20, trampoline, KERNEL_CS, 0x202, [0, 0, 0, 0, 0, 0, 0])
  }

  /** What slot `i` has to be resumed with. */
  function LastFrame(log: seq<Event>, i: nat): Option<Frame> {
    if log == [] then None
    else if log[|log| - 1].slot == i then Some(log[|log| - 1].frame)
    else LastFrame(log[..|log| - 1], i)
  }

  // ---------------------------------------------------------------- the ring of slots 1..n-1

  function Succ(n: nat, x: nat): nat {
    if x + 1 < n then x + 1 else 1
  }

  /** Steps along the ring from `c` to `x`; a full round if they are the same. */
  function Ahead(n: nat, c: nat, x: nat): nat
    requires 1 <= x < n && c < n
  {
    if x > c then x - c else x + (n - 1) - c
  }

  /** The first slot that may run among the `k` slots from `x` on. */
  function Find(t: seq<Task>, now: nat, x: nat, k: nat): (r: Option<nat>)
    requires 1 <= x < |t|
    ensures r.Some? ==> 1 <= r.value < |t| && t[r.value].Due(now)
    decreases k
  {
    if k == 0 then None
    else if t[x].Due(now) then Some(x)
    else Find(t, now, Succ(|t|, x), k - 1)
  }

  // ---------------------------------------------------------------- the steps

  predicate Fits(s: Sys) { 2 <= |s.tasks| && s.current < |s.tasks| }

  /** The interrupted context goes into the task's entry; a running task becomes ready. */
  function Save(s: Sys, r: Frame): Sys
    requires Fits(s)
  {
    var t := s.tasks[s.current];
    s.(tasks := s.tasks[s.current := t.(regs := r, state := if t.state == RUNNING then READY else t.state)],
       log := s.log + [Saved(s.current, r)])
  }

  /** The search and the hand-over to its result, or to the kernel task. */
  function Rotate(u: Sys, r: Frame): (res: (Sys, Frame))
    requires Fits(u)
    ensures |res.0.tasks| == |u.tasks| && Fits(res.0)
  {
    match Find(u.tasks, u.tick, Succ(|u.tasks|, u.current), |u.tasks| - 1)
    case Some(next) =>
      var t := u.tasks[next];
      (u.(tasks := u.tasks[next := t.(state := RUNNING, ticks := t.ticks + 1,
                                      quantumLeft := if t.weight > 0 then t.weight - 1 else 255)],
          current := next), t.regs)
    case None =>
      var idle := u.tasks[0];
      if u.current > 0 then
        (u.(tasks := u.tasks[0 := idle.(state := RUNNING, ticks := idle.ticks + 1)], current := 0), idle.regs)
      else
        (u.(tasks := u.tasks[0 := idle.(state := RUNNING)]), r)
  }

  /** scheduler_tick(): the new state and the frame to resume. */
  function SchedulerTick(s: Sys, r: Frame): (res: (Sys, Frame))
    requires Fits(s)
    ensures |res.0.tasks| == |s.tasks| && Fits(res.0)
  {
    var u := Save(s, r);
    var cur := u.tasks[s.current];
    if s.current > 0 && cur.state == READY && cur.quantumLeft > 0 then
      (u.(tasks := u.tasks[s.current := cur.(quantumLeft := cur.quantumLeft - 1, ticks := cur.ticks + 1, state := RUNNING)]), r)
    else
      Rotate(u, r)
  }

  function FirstDead(t: seq<Task>, k: nat): (r: Option<nat>)
    requires k <= |t|
    ensures r.Some? ==> 1 <= r.value < k && t[r.value].state == DEAD
    ensures forall i :: 1 <= i < (if r.Some? then r.value else k) ==> t[i].state != DEAD
  {
    if k <= 1 then None else
      var r := FirstDead(t, k - 1);
      if r.Some? then r else if t[k - 1].state == DEAD then Some(k - 1) else None
  }

  /** task_create_prio(); `newStack` is what kmalloc() would answer. None is the answer -1. */
  function Create(s: Sys, weight: nat, newStack: nat, trampoline: nat): Option<(nat, Sys)>
    requires Fits(s)
  {
    match FirstDead(s.tasks, |s.tasks|)
    case None => None
    case Some(slot) =>
      var w := if weight == 0 then 1 else weight;
      var stack := if s.tasks[slot].stackBase != 0 then s.tasks[slot].stackBase else newStack;
      if stack == 0 then None
      else
        var f := StartFrame(stack, trampoline);
        Some((slot, s.(tasks := s.tasks[slot := Task(READY, 0, false, 0, stack, w, w, f)],
                       log := s.log + [Started(slot, f)])))
  }

  /** task_kill(): a mark, nothing more. */
  function Kill(s: Sys, id: int): Sys
    requires Fits(s)
  {
    if id <= 0 || id >= |s.tasks| || s.tasks[id].state == DEAD then s
    else s.(tasks := s.tasks[id := s.tasks[id].(killReq := true)])
  }

  /** task_sleep() by the running task, up to its yield; arithmetic on `ms` is that of uint32_t. */
  function Sleep(s: Sys, ms: nat): Sys
    requires Fits(s)
  {
    if s.current == 0 || s.tasks[s.current].state == DEAD then s
    else
      var needed := (ms + 19) % U32 / 20;
      s.(tasks := s.tasks[s.current := s.tasks[s.current].(
           wakeTick := s.tick + (if needed == 0 then 1 else needed), state := SLEEPING)])
  }

  /** The end of task_trampoline(). */
  function Die(s: Sys): Sys
    requires Fits(s)
  {
    s.(tasks := s.tasks[s.current := s.tasks[s.current].(state := DEAD, killReq := false)])
  }

  datatype Step =
    | DoTimer(r: Frame)     // tick++ and scheduler_tick()
    | DoYield(r: Frame)     // scheduler_tick() through the software interrupt
    | DoCreate(weight: nat, newStack: nat, trampoline: nat)
    | DoKill(id: int)
    | DoSleep(ms: nat)
    | DoDie
  {
    predicate Schedules() { DoTimer? || DoYield? }
  }

  /** Only a running task creates tasks, sleeps or ends, and the kernel task does not end. */
  predicate Allowed(s: Sys, step: Step)
    requires Fits(s)
  {
    match step
    case DoTimer(_) => true
    case DoYield(_) => true
    case DoCreate(w, _, _) => s.tasks[s.current].state == RUNNING && w < 256
    case DoKill(_) => true
    case DoSleep(_) => s.tasks[s.current].state == RUNNING
    case DoDie => s.tasks[s.current].state == RUNNING && s.current > 0
  }

  function Next(s: Sys, step: Step): Sys
    requires Fits(s)
  {
    match step
    case DoTimer(r) => SchedulerTick(s.(tick := s.tick + 1), r).0
    case DoYield(r) => SchedulerTick(s, r).0
    case DoCreate(w, newStack, tr) => (match Create(s, w, newStack, tr) case None => s case Some((_, s')) => s')
    case DoKill(id) => Kill(s, id)
    case DoSleep(ms) => Sleep(s, ms)
    case DoDie => Die(s)
  }

  // ---------------------------------------------------------------- the invariant

  ghost predicate Inv(s: Sys) {
    && Fits(s)
    && (s.tasks[0].state == RUNNING || s.tasks[0].state == READY)
    && (s.current == 0 ==> s.tasks[0].state == RUNNING)
    && s.tasks[s.current].state != READY
    && (forall i :: 0 <= i < |s.tasks| && i != s.current ==> s.tasks[i].state != RUNNING)
    && (forall i :: 1 <= i < |s.tasks| && s.tasks[i].state != DEAD ==>
          0 < s.tasks[i].weight < 256 && s.tasks[i].quantumLeft <= s.tasks[i].weight)
    && (forall i :: 0 <= i < |s.tasks| && i != s.current && s.tasks[i].state != DEAD ==>
          LastFrame(s.log, i) == Some(s.tasks[i].regs))
  }

  lemma LastFrameAppend(log: seq<Event>, e: Event, i: nat)
    ensures LastFrame(log + [e], i) == if e.slot == i then Some(e.frame) else LastFrame(log, i)
  {
    assert (log + [e])[..|log|] == log;
  }

  /** Whoever may run among the slots of the ring is found. */
  lemma {:induction false} FindMisses(t: seq<Task>, now: nat, x: nat, k: nat, i: nat)
    requires 1 <= x < |t| && Find(t, now, x, k).None? && 1 <= i < |t|
    requires (if i >= x then i - x else i + (|t| - 1) - x) < k
    ensures !t[i].Due(now)
    decreases k
  {
    if i != x { FindMisses(t, now, Succ(|t|, x), k - 1, i); }
  }

  /** The frame table agrees with the history, except at the slot that is about to be written. */
  ghost predicate FramesBut(t: seq<Task>, log: seq<Event>, c: nat) {
    forall i :: 0 <= i < |t| && i != c && t[i].state != DEAD ==> LastFrame(log, i) == Some(t[i].regs)
  }

  lemma SaveKeepsFrames(s: Sys, r: Frame)
    requires Inv(s)
    ensures FramesBut(Save(s, r).tasks, Save(s, r).log, |s.tasks|)
  {
    forall i | 0 <= i < |s.tasks|
      ensures LastFrame(s.log + [Saved(s.current, r)], i) == if i == s.current then Some(r) else LastFrame(s.log, i)
    { LastFrameAppend(s.log, Saved(s.current, r), i); }
  }

  /**
   After every tick exactly the current task is running; the kernel task only if nobody else could; and
   the frame handed to the interrupt stub is the one with which that task was last saved or created.
   */
  lemma TickElects(s: Sys, r: Frame)
    requires Inv(s)
    ensures var (s', r') := SchedulerTick(s, r);
            && Inv(s') && |s'.tasks| == |s.tasks| && s'.tasks[s'.current].state == RUNNING
            && (s'.current == 0 ==> forall i :: 1 <= i < |s.tasks| ==> !Save(s, r).tasks[i].Due(s.tick))
            && LastFrame(s'.log, s'.current) == Some(r')
  {
    SaveKeepsFrames(s, r);
    var u := Save(s, r);
    var (s', r') := SchedulerTick(s, r);
    if s'.current == 0 {
      var x := Succ(|s.tasks|, s.current);
      forall i | 1 <= i < |s.tasks|
        ensures !u.tasks[i].Due(s.tick)
      { FindMisses(u.tasks, s.tick, x, |s.tasks| - 1, i); }
    }
  }

  /** A sleeping task leaves that state only at or after its wake tick, and then it is the one that runs. */
  lemma NobodyWakesEarly(s: Sys, step: Step, i: nat)
    requires Inv(s) && Allowed(s, step) && i < |s.tasks| && s.tasks[i].state == SLEEPING
    ensures |Next(s, step).tasks| == |s.tasks|
    ensures var s' := Next(s, step);
            s'.tasks[i].state != SLEEPING ==>
              s'.current == i && s'.tasks[i].state == RUNNING && s.tasks[i].wakeTick <= s'.tick
    ensures var s' := Next(s, step);
            s'.tasks[i].state == SLEEPING ==> s'.tasks[i].wakeTick == s.tasks[i].wakeTick
  {
  }

  const U32: nat := 0x1_0000_0000

  /**
   A sleep lasts at least one tick of 20 ms and less than one more than asked for. It lasts as long as
   asked for if and only if rounding up does not leave the 32 bits of the argument.
   */
  lemma SleepCovers(s: Sys, ms: nat)
    requires Fits(s) && s.current > 0 && s.tasks[s.current].state != DEAD && ms < U32
    ensures var t := Sleep(s, ms).tasks[s.current];
            && t.state == SLEEPING && t.wakeTick > s.tick
            && (20 * (t.wakeTick - s.tick) >= ms <==> ms + 19 < U32)
            && (t.wakeTick - s.tick > 1 ==> 20 * (t.wakeTick - s.tick - 1) < ms)
  {
  }

  /** The longest sleep, 49 days, ends with the next tick. */
  lemma LongestSleepIsShort(s: Sys)
    requires Fits(s) && s.current > 0 && s.tasks[s.current].state != DEAD
    ensures Sleep(s, U32 - 1).tasks[s.current].wakeTick == s.tick + 1
  {
  }

  lemma CreateKeeps(s: Sys, weight: nat, newStack: nat, trampoline: nat)
    requires Inv(s) && s.tasks[s.current].state == RUNNING && weight < 256
    ensures Create(s, weight, newStack, trampoline).Some? ==>
              && Inv(Create(s, weight, newStack, trampoline).value.1)
              && |Create(s, weight, newStack, trampoline).value.1.tasks| == |s.tasks|
  {
    if Create(s, weight, newStack, trampoline).Some? {
      var (slot, s') := Create(s, weight, newStack, trampoline).value;
      forall i | 0 <= i < |s.tasks|
        ensures LastFrame(s'.log, i) == if i == slot then Some(s'.tasks[slot].regs) else LastFrame(s.log, i)
      { LastFrameAppend(s.log, s'.log[|s.log|], i); }
    }
  }

  lemma KillKeeps(s: Sys, id: int)
    requires Inv(s)
    ensures Inv(Kill(s, id)) && |Kill(s, id).tasks| == |s.tasks|
  {
  }

  lemma SleepKeeps(s: Sys, ms: nat)
    requires Inv(s) && s.tasks[s.current].state == RUNNING
    ensures Inv(Sleep(s, ms)) && |Sleep(s, ms).tasks| == |s.tasks|
  {
  }

  lemma DieKeeps(s: Sys)
    requires Inv(s) && s.tasks[s.current].state == RUNNING && s.current > 0
    ensures Inv(Die(s)) && |Die(s).tasks| == |s.tasks|
  {
  }

  lemma NextKeepsInv(s: Sys, step: Step)
    requires Inv(s) && Allowed(s, step)
    ensures Inv(Next(s, step)) && |Next(s, step).tasks| == |s.tasks|
  {
    hide Inv, SchedulerTick, Create, Kill, Sleep, Die, LastFrame;
    match step {
      case DoTimer(r) => TimePasses(s); TickElects(s.(tick := s.tick + 1), r);
      case DoYield(r) => TickElects(s, r);
      case DoCreate(w, newStack, tr) => CreateKeeps(s, w, newStack, tr);
      case DoKill(id) => KillKeeps(s, id);
      case DoSleep(ms) => SleepKeeps(s, ms);
      case DoDie => DieKeeps(s);
    }
  }

  lemma TimePasses(s: Sys)
    requires Inv(s)
    ensures Inv(s.(tick := s.tick + 1))
  {
  }

  /** task_init(). */
  ghost predicate Initial(s: Sys) {
    && Fits(s) && s.current == 0 && s.log == [] && s.tasks[0].state == RUNNING
    && forall i :: 1 <= i < |s.tasks| ==> s.tasks[i].state == DEAD
  }

  ghost predicate IsRun(states: seq<Sys>, steps: seq<Step>) {
    && |states| == |steps| + 1 && Inv(states[0])
    && forall i :: 0 <= i < |steps| && Inv(states[i]) ==>
         Allowed(states[i], steps[i]) && states[i + 1] == Next(states[i], steps[i])
  }

  lemma InitialInv(s: Sys)
    requires Initial(s)
    ensures Inv(s)
  {
  }

  /** On every run every state is good. */
  lemma {:induction false} RunKeepsInv(states: seq<Sys>, steps: seq<Step>, k: nat)
    requires IsRun(states, steps) && k <= |steps|
    ensures Inv(states[k]) && |states[k].tasks| == |states[0].tasks|
  {
    if k > 0 {
      RunKeepsInv(states, steps, k - 1);
      var i := k - 1;
      assert states[i + 1] == Next(states[i], steps[i]);
      hide Inv, Next;
      NextKeepsInv(states[i], steps[i]);
    }
  }
}
