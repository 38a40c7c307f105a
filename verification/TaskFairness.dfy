/** How long a ready task waits, and what share of the ticks it gets. */
module TaskFairness {
  import opened Prelude
  import opened TaskSched

  /** Steps along the ring from `y` to `x`; none if they are the same. */
  function Gap(n: nat, y: nat, x: nat): nat
    requires 1 <= y < n && 1 <= x < n
  {
    if x >= y then x - y else x + (n - 1) - y
  }

  /** The allowance `w` of the slots from `y` on, up to but without `x`. */
  function Load(n: nat, w: seq<nat>, y: nat, x: nat): nat
    requires 1 <= y < n && 1 <= x < n && |w| == n
    decreases Gap(n, y, x)
  {
    if y == x then 0 else w[y] + Load(n, w, Succ(n, y), x)
  }

  /** How many ticks may pass before `x` is chosen: the rest of the current quantum, and the slots ahead of `x`. */
  function Patience(s: Sys, w: seq<nat>, x: nat): nat
    requires Fits(s) && |w| == |s.tasks| && 1 <= x < |s.tasks|
  {
    (if s.current > 0 then s.tasks[s.current].quantumLeft else 0) + Load(|s.tasks|, w, Succ(|s.tasks|, s.current), x)
  }

  /** The search of the ring does not pass a slot that may run. */
  lemma {:induction false} FindStops(t: seq<Task>, now: nat, y: nat, k: nat, x: nat, w: seq<nat>)
    requires 1 <= y < |t| && 1 <= x < |t| && |w| == |t| && t[x].Due(now) && Gap(|t|, y, x) < k
    ensures var z := Find(t, now, y, k);
            z.Some? && (z.value == x || Load(|t|, w, y, x) >= w[z.value] + Load(|t|, w, Succ(|t|, z.value), x))
    decreases k
  {
    if !t[y].Due(now) { FindStops(t, now, Succ(|t|, y), k - 1, x, w); }
  }

  /** `x` may run, but does not: it is ready, or its sleep is over. */
  predicate Waits(s: Sys, x: nat) {
    && 1 <= x < |s.tasks| && x != s.current
    && (s.tasks[x].state == READY || (s.tasks[x].state == SLEEPING && s.tasks[x].wakeTick <= s.tick))
  }

  /** One tick: `x` is chosen, or its patience gets shorter. */
  lemma TickShortens(s: Sys, r: Frame, w: seq<nat>, x: nat)
    requires Inv(s) && |w| == |s.tasks| && Waits(s, x)
    requires forall i :: 1 <= i < |s.tasks| && s.tasks[i].state != DEAD ==> s.tasks[i].weight <= w[i]
    ensures var s' := SchedulerTick(s, r).0;
            && |s'.tasks| == |s.tasks| && Fits(s')
            && (s'.current == x || (Waits(s', x) && Patience(s', w, x) < Patience(s, w, x)))
  {
    var u, n := Save(s, r), |s.tasks|;
    FindStops(u.tasks, s.tick, Succ(n, s.current), n - 1, x, w);
  }

  function Schedules(steps: seq<Step>): nat {
    if steps == [] then 0 else (if steps[0].Schedules() then 1 else 0) + Schedules(steps[1..])
  }

  lemma OtherStepKeeps(s: Sys, step: Step, w: seq<nat>, x: nat)
    requires Inv(s) && Allowed(s, step) && !step.Schedules() && |w| == |s.tasks| && Waits(s, x)
    ensures var s' := Next(s, step);
            && |s'.tasks| == |s.tasks| && Fits(s') && s'.current == s.current
            && s'.tasks[s.current].quantumLeft == s.tasks[s.current].quantumLeft
            && Waits(s', x)
  {
    hide LastFrame;
  }

  /** Everything between two ticks leaves the patience of a waiting task alone. */
  lemma StepShortens(s: Sys, step: Step, w: seq<nat>, x: nat)
    requires Inv(s) && Allowed(s, step) && |w| == |s.tasks| && Waits(s, x)
    requires forall i :: 1 <= i < |s.tasks| && s.tasks[i].state != DEAD ==> s.tasks[i].weight <= w[i]
    ensures var s' := Next(s, step);
            && |s'.tasks| == |s.tasks| && Fits(s')
            && (s'.current == x || (Waits(s', x)
                 && Patience(s', w, x) + (if step.Schedules() then 1 else 0) <= Patience(s, w, x)))
  {
    match step {
      case DoTimer(r) => hide SchedulerTick; TickShortens(s.(tick := s.tick + 1), r, w, x);
      case DoYield(r) => hide SchedulerTick; TickShortens(s, r, w, x);
      case _ => OtherStepKeeps(s, step, w, x); hide Next, Load, Inv;
    }
  }

  /** All weights are within the allowance. */
  ghost predicate Within(s: Sys, w: seq<nat>) {
    |s.tasks| == |w| && forall i :: 1 <= i < |w| && s.tasks[i].state != DEAD ==> s.tasks[i].weight <= w[i]
  }

  lemma RunTail(states: seq<Sys>, steps: seq<Step>)
    requires IsRun(states, steps) && steps != []
    ensures IsRun(states[1..], steps[1..])
  {
    assert states[0 + 1] == Next(states[0], steps[0]);
    NextKeepsInv(states[0], steps[0]);
    hide Inv, Next, Allowed;
    forall i | 0 <= i < |steps[1..]| && Inv(states[1..][i])
      ensures Fits(states[1..][i]) && Allowed(states[1..][i], steps[1..][i])
      ensures states[1..][i + 1] == Next(states[1..][i], steps[1..][i])
    {
      assert Inv(states[i + 1]) && states[i + 1 + 1] == Next(states[i + 1], steps[i + 1]);
    }
  }

  /**
   No starvation. A task that is ready, or whose sleep is over, runs before the scheduler has been called more often than the rest of
   the current quantum plus the weights of the slots ahead of it, plus one. Other tasks may sleep, wake,
   end, be killed and be created meanwhile, as long as their weights stay within the allowance `w`.
   */
  lemma {:induction false} NoStarvation(states: seq<Sys>, steps: seq<Step>, w: seq<nat>, x: nat) returns (k: nat)
    requires IsRun(states, steps) && |w| == |states[0].tasks| && 1 <= x < |w|
    requires Waits(states[0], x)
    requires |states| == |steps| + 1 && forall j :: 0 <= j < |states| ==> Within(states[j], w)
    requires Schedules(steps) > Patience(states[0], w, x)
    ensures k < |states| && states[k].current == x
    ensures Schedules(steps[..k]) <= Patience(states[0], w, x) + 1
    decreases |steps|
  {
    hide IsRun, Inv, Next, Patience, Allowed, Within;
    FirstShortens(states, steps, w, x);
    if states[1].current == x {
      k := 1;
      assert steps[..1][1..] == [];
    } else {
      var j := NoStarvation(states[1..], steps[1..], w, x);
      k := j + 1;
      assert steps[..k][1..] == steps[1..][..j];
    }
  }

  lemma FirstShortens(states: seq<Sys>, steps: seq<Step>, w: seq<nat>, x: nat)
    requires IsRun(states, steps) && steps != [] && |w| == |states[0].tasks| && 1 <= x < |w|
    requires Waits(states[0], x)
    requires Within(states[0], w)
    ensures IsRun(states[1..], steps[1..]) && |states[1].tasks| == |w| && Fits(states[1])
    ensures states[1].current == x || (Waits(states[1], x)
              && Patience(states[1], w, x) + (if steps[0].Schedules() then 1 else 0) <= Patience(states[0], w, x))
  {
    RunTail(states, steps);
    assert states[0 + 1] == Next(states[0], steps[0]);
    hide Next, Patience, Allowed;
    StepShortens(states[0], steps[0], w, x);
  }

  // ---------------------------------------------------------------- shares

  /** Timer ticks, one after the other, with whatever frames they interrupt. */
  function Timers(s: Sys, rs: seq<Frame>): (s': Sys)
    requires Fits(s)
    ensures |s'.tasks| == |s.tasks| && Fits(s')
    decreases |rs|
  {
    if rs == [] then s else Timers(SchedulerTick(s.(tick := s.tick + 1), rs[0]).0, rs[1..])
  }

  lemma {:induction false} TimersSplit(s: Sys, a: seq<Frame>, b: seq<Frame>)
    requires Fits(s)
    ensures Timers(s, a + b) == Timers(Timers(s, a), b)
    decreases |a|
  {
    hide SchedulerTick;
    if a == [] {
      assert a + b == b;
    } else {
      assert (a + b)[1..] == a[1..] + b;
      TimersSplit(SchedulerTick(s.(tick := s.tick + 1), a[0]).0, a[1..], b);
    }
  }

  /** The slots that take part in the rotation. */
  predicate Member(s: Sys, i: nat) {
    1 <= i < |s.tasks| && (s.tasks[i].state == READY || s.tasks[i].state == RUNNING)
  }

  /** Nobody wakes up within the next `h` ticks. */
  predicate Stable(s: Sys, h: nat) {
    forall i :: 1 <= i < |s.tasks| && s.tasks[i].state == SLEEPING ==> s.tasks[i].wakeTick > s.tick + h
  }

  /** The same slots take part, with the same weights; sleepers and the dead are as they were. */
  ghost predicate Same(s: Sys, s': Sys) {
    && |s'.tasks| == |s.tasks|
    && forall i :: 1 <= i < |s.tasks| ==>
         && s'.tasks[i].weight == s.tasks[i].weight
         && (Member(s', i) <==> Member(s, i))
         && (!Member(s, i) ==> s'.tasks[i] == s.tasks[i])
  }

  /** Some task of the rotation runs, and with `q` slices of its quantum left. */
  predicate Running(s: Sys, c: nat, q: nat) {
    s.current == c && 1 <= c < |s.tasks| && s.tasks[c].state == RUNNING && s.tasks[c].quantumLeft == q
  }

  /** The beginning of a turn. */
  predicate Turning(s: Sys, c: nat) {
    1 <= c < |s.tasks| && s.tasks[c].weight > 0 && Running(s, c, s.tasks[c].weight - 1)
  }

  /** Slices taken, counting those that the running task has been granted already. */
  function Used(s: Sys, i: nat): nat
    requires i < |s.tasks|
  {
    s.tasks[i].ticks + if i == s.current then s.tasks[i].quantumLeft else 0
  }

  function Shares(s: Sys): (w: seq<nat>)
    ensures |w| == |s.tasks| && forall i :: 0 <= i < |w| ==> w[i] == if Member(s, i) then s.tasks[i].weight else 0
  {
    seq(|s.tasks|, i requires 0 <= i < |s.tasks| => if Member(s, i) then s.tasks[i].weight else 0)
  }

  /** The first member among the `k` slots from `y` on. */
  function NextMember(s: Sys, y: nat, k: nat): (r: Option<nat>)
    requires 1 <= y < |s.tasks|
    ensures r.Some? ==> Member(s, r.value)
    decreases k
  {
    if k == 0 then None else if Member(s, y) then Some(y) else NextMember(s, Succ(|s.tasks|, y), k - 1)
  }

  lemma {:induction false} FindIsNextMember(s: Sys, t: seq<Task>, now: nat, y: nat, k: nat)
    requires 1 <= y < |t| && |t| == |s.tasks| && forall i :: 1 <= i < |t| ==> (t[i].Due(now) <==> Member(s, i))
    ensures Find(t, now, y, k) == NextMember(s, y, k)
    decreases k
  {
    if k > 0 { FindIsNextMember(s, t, now, Succ(|t|, y), k - 1); }
  }

  /** Slots that do not take part weigh nothing: the load up to a member is that from the next member on. */
  lemma {:induction false} NextMemberIsNear(s: Sys, y: nat, k: nat, z: nat)
    requires 1 <= y < |s.tasks| && Member(s, z) && Gap(|s.tasks|, y, z) < k
    ensures NextMember(s, y, k).Some?
    ensures var m := NextMember(s, y, k).value;
            && Gap(|s.tasks|, y, m) <= Gap(|s.tasks|, y, z)
            && Load(|s.tasks|, Shares(s), y, z) == Load(|s.tasks|, Shares(s), m, z)
            && forall i :: Member(s, i) ==> Gap(|s.tasks|, y, i) >= Gap(|s.tasks|, y, m)
    decreases k
  {
    if !Member(s, y) {
      var y' := Succ(|s.tasks|, y);
      NextMemberIsNear(s, y', k - 1, z);
      var m := NextMember(s, y', k - 1).value;
      forall i | Member(s, i)
        ensures Gap(|s.tasks|, y, i) >= Gap(|s.tasks|, y, m)
      { assert Gap(|s.tasks|, y', i) >= Gap(|s.tasks|, y', m); }
    }
  }

  /** One tick within a turn. */
  lemma TickContinues(s: Sys, r: Frame, c: nat, q: nat)
    requires Inv(s) && Running(s, c, q) && q > 0
    ensures var s' := SchedulerTick(s.(tick := s.tick + 1), r).0;
            && Inv(s') && Running(s', c, q - 1) && Same(s, s') && s'.tick == s.tick + 1
            && forall i :: 1 <= i < |s.tasks| ==> Used(s', i) == Used(s, i)
  {
    TimePasses(s);
    TickElects(s.(tick := s.tick + 1), r);
    hide Inv, LastFrame;
  }

  /** The tick that ends a turn: the next member along the ring begins its own, with its whole weight. */
  lemma TickRotates(s: Sys, r: Frame, c: nat)
    requires Inv(s) && Running(s, c, 0) && Stable(s, 1)
    ensures var s', y := SchedulerTick(s.(tick := s.tick + 1), r).0, NextMember(s, Succ(|s.tasks|, c), |s.tasks| - 1);
            && Inv(s') && y.Some? && Turning(s', y.value) && Same(s, s') && s'.tick == s.tick + 1
            && forall i :: 1 <= i < |s.tasks| ==> Used(s', i) == Used(s, i) + if i == y.value then s.tasks[i].weight else 0
  {
    var now := s.(tick := s.tick + 1);
    var u := Save(now, r);
    FindIsNextMember(s, u.tasks, now.tick, Succ(|s.tasks|, c), |s.tasks| - 1);
    NextMemberIsNear(s, Succ(|s.tasks|, c), |s.tasks| - 1, c);
    TimePasses(s);
    TickElects(now, r);
    hide Inv, LastFrame, Find, NextMember, Load, Shares, Gap;
  }

  /** A turn lasts: the task is current for as long as its quantum says. */
  lemma {:induction false} TurnLasts(s: Sys, rs: seq<Frame>, c: nat, q: nat)
    requires Inv(s) && Running(s, c, q) && |rs| <= q
    ensures var s' := Timers(s, rs);
            && Inv(s') && Running(s', c, q - |rs|) && Same(s, s') && s'.tick == s.tick + |rs|
            && forall i :: 1 <= i < |s.tasks| ==> Used(s', i) == Used(s, i)
    decreases |rs|
  {
    if rs != [] {
      TickContinues(s, rs[0], c, q);
      hide Inv, SchedulerTick;
      TurnLasts(SchedulerTick(s.(tick := s.tick + 1), rs[0]).0, rs[1..], c, q - 1);
    }
  }

  /** A whole turn takes `weight` ticks, and then the next member begins its turn. */
  lemma TurnEnds(s: Sys, rs: seq<Frame>, c: nat)
    requires Inv(s) && Turning(s, c) && |rs| == s.tasks[c].weight && Stable(s, |rs|)
    ensures var s', y := Timers(s, rs), NextMember(s, Succ(|s.tasks|, c), |s.tasks| - 1);
            && Inv(s') && y.Some? && Turning(s', y.value) && Same(s, s') && s'.tick == s.tick + |rs|
            && forall i :: 1 <= i < |s.tasks| ==> Used(s', i) == Used(s, i) + if i == y.value then s.tasks[i].weight else 0
  {
    hide Inv, SchedulerTick, Stable, Same, Used, NextMember;
    var n := |rs| - 1;
    assert rs == rs[..n] + [rs[n]];
    TimersSplit(s, rs[..n], [rs[n]]);
    TurnLasts(s, rs[..n], c, s.tasks[c].weight - 1);
    var m := Timers(s, rs[..n]);
    StableLater(s, m, |rs|, n);
    TickRotates(m, rs[n], c);
    SameNextMember(s, m, Succ(|s.tasks|, c), |s.tasks| - 1);
    LastTick(m, rs[n]);
    SameTransitive(s, m, Timers(s, rs));
  }

  lemma TimersOfNone(s: Sys)
    requires Fits(s)
    ensures Timers(s, []) == s
  {
  }

  lemma LastTick(s: Sys, r: Frame)
    requires Fits(s)
    ensures Timers(s, [r]) == SchedulerTick(s.(tick := s.tick + 1), r).0
  {
    hide SchedulerTick;
    var t, rest := SchedulerTick(s.(tick := s.tick + 1), r).0, [r][1..];
    assert rest == [] && Timers(t, rest) == t;
  }

  lemma StableLater(s: Sys, s': Sys, h: nat, k: nat)
    requires Stable(s, h) && Same(s, s') && s'.tick == s.tick + k && k <= h
    ensures Stable(s', h - k)
  {
  }

  lemma SameTransitive(a: Sys, b: Sys, c: Sys)
    requires Same(a, b) && Same(b, c)
    ensures Same(a, c)
    ensures forall i :: 1 <= i < |a.tasks| ==> b.tasks[i].weight == a.tasks[i].weight && (Member(b, i) <==> Member(a, i))
  {
  }

  lemma {:induction false} SameNextMember(s: Sys, s': Sys, y: nat, k: nat)
    requires Same(s, s') && 1 <= y < |s.tasks|
    ensures NextMember(s', y, k) == NextMember(s, y, k)
    decreases k
  {
    if k > 0 { SameNextMember(s, s', Succ(|s.tasks|, y), k - 1); }
  }

  /** Along the ring from `c` (without it) to `z` (with it). */
  predicate InArc(n: nat, c: nat, z: nat, i: nat) {
    1 <= c < n && 1 <= z < n && 1 <= i < n && Ahead(n, c, i) <= Ahead(n, c, z)
  }

  /**
   From the beginning of one turn to that of another: every member passed on the way, and the last one,
   is granted exactly its weight.
   */
  lemma {:induction false} Sweep(s: Sys, rs: seq<Frame>, c: nat, z: nat)
    requires Inv(s) && Turning(s, c) && Member(s, z) && z != c
    requires |rs| == Load(|s.tasks|, Shares(s), c, z) && Stable(s, |rs|)
    ensures var s' := Timers(s, rs);
            && Inv(s') && Turning(s', z) && Same(s, s') && s'.tick == s.tick + |rs|
            && forall i :: 1 <= i < |s.tasks| ==>
                 Used(s', i) == Used(s, i) + if Member(s, i) && InArc(|s.tasks|, c, z, i) then s.tasks[i].weight else 0
    decreases Gap(|s.tasks|, c, z)
  {
    hide Inv, SchedulerTick, Same, Stable, Used;
    var n, w, x := |s.tasks|, s.tasks[c].weight, Succ(|s.tasks|, c);
    NextMemberIsNear(s, x, n - 1, z);
    var y := NextMember(s, x, n - 1).value;
    assert |rs| == w + Load(n, Shares(s), y, z);
    StableSooner(s, |rs|, w);
    TurnEnds(s, rs[..w], c);
    assert rs == rs[..w] + rs[w..];
    TimersSplit(s, rs[..w], rs[w..]);
    var m := Timers(s, rs[..w]);
    StableLater(s, m, |rs|, w);
    SameShares(s, m);
    ArcSplits(s, c, y, z);
    assert Gap(n, y, z) < Gap(n, c, z);
    assert y == z ==> rs[w..] == [];
    hide NextMember, Timers, InArc, Gap, Ahead, Succ, Load, Shares;
    if y == z {
      TimersOfNone(m);
    } else {
      Sweep(m, rs[w..], y, z);
      SameTransitive(s, m, Timers(s, rs));
    }
  }

  lemma StableSooner(s: Sys, h: nat, k: nat)
    requires Stable(s, h) && k <= h
    ensures Stable(s, k)
  {
  }

  lemma SameShares(s: Sys, s': Sys)
    requires Same(s, s')
    ensures Shares(s') == Shares(s)
    ensures forall i :: 1 <= i < |s.tasks| ==> s'.tasks[i].weight == s.tasks[i].weight && (Member(s', i) <==> Member(s, i))
  {
  }

  /** If `y` is the first member after `c`, the members on the way to `z` are `y` and those from `y` on. */
  lemma ArcSplits(s: Sys, c: nat, y: nat, z: nat)
    requires 1 <= c < |s.tasks| && Member(s, y) && Member(s, z)
    requires var x := Succ(|s.tasks|, c); forall i :: Member(s, i) ==> Gap(|s.tasks|, x, i) >= Gap(|s.tasks|, x, y)
    requires z != c || y == c
    ensures y == z ==> forall i :: Member(s, i) ==> (InArc(|s.tasks|, c, z, i) <==> i == y)
    ensures y != z ==> forall i :: Member(s, i) ==> (InArc(|s.tasks|, c, z, i) <==> i == y || InArc(|s.tasks|, y, z, i))
    ensures y != z ==> !InArc(|s.tasks|, y, z, y)
  {
    var n, x := |s.tasks|, Succ(|s.tasks|, c);
    forall i | Member(s, i)
      ensures Ahead(n, c, i) == Gap(n, x, i) + 1
      ensures i != y ==> Ahead(n, y, i) == if i == c then (n - 1) - Ahead(n, c, y) else Ahead(n, c, i) - Ahead(n, c, y)
    {
      assert Gap(n, x, i) >= Gap(n, x, y);
    }
  }

  /** A full round: whatever a member is granted is its weight. */
  lemma RoundGrants(s: Sys, rs: seq<Frame>, c: nat)
    requires Inv(s) && Turning(s, c)
    requires |rs| == s.tasks[c].weight + Load(|s.tasks|, Shares(s), Succ(|s.tasks|, c), c) && Stable(s, |rs|)
    ensures var s' := Timers(s, rs);
            && Turning(s', c) && Same(s, s')
            && forall i: nat :: Member(s, i) ==> Used(s', i) == Used(s, i) + s.tasks[i].weight
  {
    hide Inv, SchedulerTick, Same, Stable, Used;
    var n, w, x := |s.tasks|, s.tasks[c].weight, Succ(|s.tasks|, c);
    NextMemberIsNear(s, x, n - 1, c);
    var y := NextMember(s, x, n - 1).value;
    StableSooner(s, |rs|, w);
    TurnEnds(s, rs[..w], c);
    assert rs == rs[..w] + rs[w..];
    TimersSplit(s, rs[..w], rs[w..]);
    var m := Timers(s, rs[..w]);
    StableLater(s, m, |rs|, w);
    SameShares(s, m);
    RestOfRing(s, c, y);
    assert y == c ==> rs[w..] == [];
    hide Turning, Load, Shares, NextMember, Gap, InArc, Ahead, Succ, Timers;
    if y == c {
      assert Timers(m, rs[w..]) == m by { TimersOfNone(m); }
    } else {
      Sweep(m, rs[w..], y, c);
      SameTransitive(s, m, Timers(s, rs));
    }
  }

  /** From the first member after `c` the ring back to `c` holds all other members. */
  lemma RestOfRing(s: Sys, c: nat, y: nat)
    requires Member(s, c) && Member(s, y)
    requires var x := Succ(|s.tasks|, c); forall i :: Member(s, i) ==> Gap(|s.tasks|, x, i) >= Gap(|s.tasks|, x, y)
    ensures y == c ==> forall i :: Member(s, i) ==> i == c
    ensures y != c ==> forall i :: Member(s, i) && i != y ==> InArc(|s.tasks|, y, c, i)
  {
    var n, x := |s.tasks|, Succ(|s.tasks|, c);
    forall i | Member(s, i)
      ensures if y == c then i == c else i == y || InArc(n, y, c, i)
    { assert Gap(n, x, i) >= Gap(n, x, y); }
  }

  /** Between two beginnings of a turn of the same task, slices granted are slices taken. */
  lemma GrantedIsTaken(s: Sys, s': Sys, c: nat, i: nat)
    requires Turning(s, c) && Turning(s', c) && Same(s, s') && Member(s, i)
    ensures Used(s', i) - Used(s, i) == s'.tasks[i].ticks - s.tasks[i].ticks
  {
  }

  /**
   Shares in proportion to weight. From the beginning of a turn of `c`, a full round of the ring takes
   as many ticks as all members weigh together; then `c` begins its next turn, and the slice counter of
   every member has grown by exactly its weight.
   */
  lemma RoundShares(s: Sys, rs: seq<Frame>, c: nat)
    requires Inv(s) && Turning(s, c)
    requires |rs| == s.tasks[c].weight + Load(|s.tasks|, Shares(s), Succ(|s.tasks|, c), c) && Stable(s, |rs|)
    ensures var s' := Timers(s, rs);
            && Turning(s', c) && Same(s, s')
            && forall i: nat :: Member(s, i) ==> s'.tasks[i].ticks == s.tasks[i].ticks + s.tasks[i].weight
  {
    RoundGrants(s, rs, c);
    var s' := Timers(s, rs);
    forall i: nat | Member(s, i)
      ensures s'.tasks[i].ticks == s.tasks[i].ticks + s.tasks[i].weight
    { GrantedIsTaken(s, s', c, i); }
  }
}
