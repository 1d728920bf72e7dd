/** The scheduler as a value: the run list, the task states and the current task; what each step
    keeps, and how long a ready task waits. */
module Sched {
  import opened Common

  datatype TaskState = READY | RUNNING | BLOCKED | DEAD
  const KERNEL: nat := 1   // the kernel task: current at boot, never in the run list

  /** `unused` is the next task name; names are never used twice. */
  datatype State = State(list: seq<nat>, state: map<nat, TaskState>, cur: nat, unused: nat)

  /** Every listed task and the kernel task have a state, and no other task has. */
  ghost predicate Shape(s: State) {
    && Distinct(s.list) && KERNEL !in s.list && 0 !in s.list
    && (forall t :: t in s.state <==> t in s.list || t == KERNEL)
    && (s.cur == KERNEL || s.cur in s.list)
    && (forall t :: t in s.list ==> t < s.unused) && KERNEL < s.unused
  }

  /** Only the current task runs, and nothing is blocked. */
  ghost predicate Calm(s: State) {
    && Shape(s)
    && (forall t :: t in s.state && s.state[t] == RUNNING ==> t == s.cur)
    && (forall t :: t in s.state ==> s.state[t] != BLOCKED)
  }

  /** Between steps the current task, when it is listed, is running or dead. */
  ghost predicate Inv(s: State) {
    Calm(s) && (s.cur in s.list ==> s.state[s.cur] == RUNNING || s.state[s.cur] == DEAD)
  }

  // ---------------------------------------------------------------- the steps

  /** A dead task other than the current one is reaped. */
  predicate Reapable(s: State, t: nat)
    requires t in s.state
  {
    s.state[t] == DEAD && t != s.cur
  }

  function Without(list: seq<nat>, t: nat): (r: seq<nat>)
    ensures t !in list ==> r == list
  {
    if list == [] then [] else if list[0] == t then Without(list[1..], t) else [list[0]] + Without(list[1..], t)
  }

  function Remove(s: State, t: nat): State {
    s.(list := Without(s.list, t), state := s.state - {t})
  }

  /** The reaper walks the list as it was; `k` tasks are still ahead of it. */
  function ReapFrom(s: State, walk: seq<nat>): State
    requires forall t :: t in walk ==> t in s.state
    requires Distinct(walk)
    decreases |walk|
  {
    if walk == [] then s
    else if Reapable(s, walk[0]) then ReapFrom(Remove(s, walk[0]), walk[1..])
    else ReapFrom(s, walk[1..])
  }

  function Reap(s: State): State
    requires Shape(s)
  {
    ReapFrom(s, s.list)
  }

  /** The position of `t`. */
  function IndexOf(list: seq<nat>, t: nat): (i: nat)
    requires t in list
    ensures i < |list| && list[i] == t
  {
    if list[0] == t then 0 else 1 + IndexOf(list[1..], t)
  }

  /** Where the search for the next task starts. */
  function StartAt(list: seq<nat>, cur: nat): (i: nat)
    requires list != []
    ensures i < |list|
  {
    if cur in list && IndexOf(list, cur) + 1 < |list| then IndexOf(list, cur) + 1 else 0
  }

  /** The `d`-th listed task in circular order from position `start`. */
  function Circular(list: seq<nat>, start: nat, d: nat): (t: nat)
    requires start < |list| && d < |list|
    ensures t in list
  {
    if start + d < |list| then list[start + d] else list[start + d - |list|]
  }

  function FirstReady(list: seq<nat>, state: map<nat, TaskState>, start: nat, d: nat): (r: Option<nat>)
    requires start < |list| && d <= |list| && forall t :: t in list ==> t in state
    ensures r.Some? ==> r.value in list && state[r.value] == READY
    ensures r.None? ==> forall e :: d <= e < |list| ==> state[Circular(list, start, e)] != READY
    decreases |list| - d
  {
    if d == |list| then None
    else if state[Circular(list, start, d)] == READY then Some(Circular(list, start, d))
    else FirstReady(list, state, start, d + 1)
  }

  /** The fallback scan: the first listed task that is not dead. */
  function FirstAlive(list: seq<nat>, state: map<nat, TaskState>): (r: Option<nat>)
    requires forall t :: t in list ==> t in state
    ensures r.Some? ==> r.value in list && state[r.value] != DEAD
    ensures r.None? ==> forall t :: t in list ==> state[t] == DEAD
  {
    if list == [] then None
    else if state[list[0]] != DEAD then Some(list[0])
    else FirstAlive(list[1..], state)
  }

  function Yield(s: State): State
    requires s.cur in s.state
  {
    if s.state[s.cur] == RUNNING then s.(state := s.state[s.cur := READY]) else s
  }

  function Switch(s: State, t: nat): State {
    s.(cur := t, state := s.state[t := RUNNING])
  }

  /** The choice of the next task, after reaping and yielding. */
  function Pick(s: State): State
    requires Shape(s)
  {
    if s.list == [] then s
    else
      match FirstReady(s.list, s.state, StartAt(s.list, s.cur), 0)
      case Some(t) => Switch(s, t)
      case None =>
        match FirstAlive(s.list, s.state)
        case Some(t) => Switch(s, t)
        case None => s
  }

  lemma {:induction false} WithoutElements(list: seq<nat>, t: nat, x: nat)
    ensures x in Without(list, t) <==> x in list && x != t
  {
    if list != [] {
      WithoutElements(list[1..], t, x);
      assert list == [list[0]] + list[1..];
    }
  }

  lemma {:induction false} WithoutDistinct(list: seq<nat>, t: nat)
    requires Distinct(list)
    ensures Distinct(Without(list, t))
  {
    if list != [] {
      WithoutDistinct(list[1..], t);
      if list[0] != t {
        WithoutElements(list[1..], t, list[0]);
        var r := Without(list[1..], t);
        assert list[0] !in list[1..];
        forall i, j | 0 <= i < j < |[list[0]] + r| ensures ([list[0]] + r)[i] != ([list[0]] + r)[j] {
          if i == 0 { assert ([list[0]] + r)[j] in r; }
        }
      }
    }
  }

  lemma RemoveKeeps(s: State, t: nat)
    requires Calm(s) && t in s.list && t != s.cur
    ensures Calm(Remove(s, t))
    ensures forall x :: x in Remove(s, t).list <==> x in s.list && x != t
  {
    forall x ensures x in Without(s.list, t) <==> x in s.list && x != t { WithoutElements(s.list, t, x); }
    WithoutDistinct(s.list, t);
  }

  lemma {:induction false} ReapFromKeeps(s: State, walk: seq<nat>)
    requires Calm(s) && Distinct(walk) && forall t :: t in walk ==> t in s.list
    ensures Calm(ReapFrom(s, walk)) && ReapFrom(s, walk).cur == s.cur
    ensures forall t :: t in ReapFrom(s, walk).list <==> t in s.list && !(t in walk && Reapable(s, t))
    ensures forall t :: t in ReapFrom(s, walk).state ==> t in s.state && ReapFrom(s, walk).state[t] == s.state[t]
    decreases |walk|
  {
    if walk != [] {
      var x := walk[0];
      assert walk == [x] + walk[1..] && x !in walk[1..];
      if Reapable(s, x) {
        RemoveKeeps(s, x);
        ReapFromKeeps(Remove(s, x), walk[1..]);
      } else {
        ReapFromKeeps(s, walk[1..]);
      }
    }
  }

  /** After reaping, the listed tasks are the old ones without the dead, except the current one. */
  lemma ReapKeeps(s: State)
    requires Calm(s)
    ensures Calm(Reap(s)) && Reap(s).cur == s.cur
    ensures forall t :: t in Reap(s).list <==> t in s.list && !Reapable(s, t)
    ensures forall t :: t in Reap(s).state ==> t in s.state && Reap(s).state[t] == s.state[t]
  {
    ReapFromKeeps(s, s.list);
  }

  function Schedule(s: State): State
    requires Calm(s)
  {
    ReapKeeps(s);
    Pick(Yield(Reap(s)))
  }

  /** Nothing is ever blocked, so the fallback scan is reached only when every listed task is dead,
      and then finds nothing. */
  lemma FallbackOnlyDead(s: State)
    requires Calm(s) && s.list != [] && s.state[s.cur] != RUNNING
    requires FirstReady(s.list, s.state, StartAt(s.list, s.cur), 0).None?
    ensures FirstAlive(s.list, s.state).None?
  {
    var start := StartAt(s.list, s.cur);
    forall t | t in s.list ensures s.state[t] == DEAD {
      var i := IndexOf(s.list, t);
      var d := if i >= start then i - start else i + |s.list| - start;
      assert Circular(s.list, start, d) == t;
    }
  }

  lemma PickKeeps(s: State)
    requires Calm(s) && s.state[s.cur] != RUNNING
    ensures Inv(Pick(s)) && Pick(s).list == s.list
    ensures Pick(s).cur != s.cur || Pick(s).state != s.state ==>
      Pick(s).state[Pick(s).cur] == RUNNING && Pick(s).cur in s.list
  {
    if s.list != [] && FirstReady(s.list, s.state, StartAt(s.list, s.cur), 0).None? { FallbackOnlyDead(s); }
  }

  lemma ScheduleKeeps(s: State)
    requires Calm(s)
    ensures Inv(Schedule(s))
    ensures forall t :: t in Schedule(s).list <==> t in s.list && !Reapable(s, t)
  {
    ReapKeeps(s);
    PickKeeps(Yield(Reap(s)));
  }

  /** The current task ends; its state is dead until it is reaped. */
  function Exit(s: State): State
    requires Calm(s)
  {
    Schedule(s.(state := s.state[s.cur := DEAD]))
  }

  /** A new task at the tail. */
  function Append(s: State): State {
    var t := s.unused;
    s.(list := s.list + [t], state := s.state[t := READY], unused := t + 1)
  }

  datatype Step = Tick | End | Start | Collect(t: nat)

  /** What may happen: a timer tick, the current task ending, a new task (fork, spawn), or wait
      collecting a dead task. */
  ghost predicate Enabled(s: State, a: Step) {
    a.Collect? ==> a.t in s.list && a.t != s.cur && a.t in s.state && s.state[a.t] == DEAD
  }

  function Next(s: State, a: Step): State
    requires Inv(s) && Enabled(s, a)
  {
    match a
    case Tick => Schedule(s)
    case End => Exit(s)
    case Start => Append(s)
    case Collect(t) => Remove(s, t)
  }

  /** Every step keeps the list duplicate-free, at most one task running (the current one), nothing
      blocked, and the current task listed or the kernel's. */
  lemma StepKeeps(s: State, a: Step)
    requires Inv(s) && Enabled(s, a)
    ensures Inv(Next(s, a))
  {
    match a
    case Tick => ScheduleKeeps(s);
    case End => ScheduleKeeps(s.(state := s.state[s.cur := DEAD]));
    case Start =>
      forall i | 0 <= i < |s.list| ensures s.list[i] != s.unused { assert s.list[i] in s.list; }
    case Collect(t) => RemoveKeeps(s, t);
  }

  const Boot := State([], map[KERNEL := RUNNING], KERNEL, KERNEL + 1)

  ghost predicate IsRun(trace: seq<State>, acts: seq<Step>) {
    && |trace| == |acts| + 1 && trace[0] == Boot
    && forall k :: 0 <= k < |acts| ==> RunStep(trace[k], acts[k], trace[k + 1])
  }

  /** One step of a run. `Next` is defined on states with the invariant; what happens from others is
      left open, and `RunInv` shows that no run gets there. */
  ghost predicate RunStep(s: State, a: Step, s': State) {
    Inv(s) ==> Enabled(s, a) && s' == Next(s, a)
  }

  lemma {:induction false} RunInv(trace: seq<State>, acts: seq<Step>, k: nat)
    requires IsRun(trace, acts) && k <= |acts|
    ensures Inv(trace[k])
  {
    if k > 0 {
      RunInv(trace, acts, k - 1);
      assert RunStep(trace[k - 1], acts[k - 1], trace[k]);
      StepKeeps(trace[k - 1], acts[k - 1]);
    }
  }

  // ---------------------------------------------------------------- what a step does to each task

  /** A task's state once the running task has given up the processor. */
  function Yielded(s: State, t: nat): TaskState
    requires t in s.state
  {
    if t == s.cur && s.state[t] == RUNNING then READY else s.state[t]
  }

  /** A listed task that may run next. */
  ghost predicate Eligible(s: State, t: nat) {
    t in s.list && t in s.state && Yielded(s, t) == READY
  }

  /** A schedule, task by task: dead tasks other than the current one are gone; if a task may run, one of
      them is running, and otherwise nothing is switched; every other task keeps its state, except that
      the running one is ready. */
  lemma ScheduleExact(s: State)
    requires Calm(s)
    ensures var s' := Schedule(s);
      && (forall t :: t in s'.list <==> t in s.list && !Reapable(s, t))
      && (forall t :: t in s'.state <==> t in s.state && !(t in s.list && Reapable(s, t)))
      && (forall t :: t in s'.state && t != s'.cur ==> s'.state[t] == Yielded(s, t))
      && s'.cur in s'.state && s'.unused == s.unused
      && if exists t :: Eligible(s, t) then Eligible(s, s'.cur) && s'.state[s'.cur] == RUNNING
         else s'.cur == s.cur && s'.state[s.cur] == Yielded(s, s.cur)
  {
    hide Reap, Yield, Pick, Shape, Reapable;
    ReapYields(s);
    var y := Yield(Reap(s));
    PickExact(y);
    assert Schedule(s) == Pick(y);
    if t :| Eligible(s, t) {
      EligibleStays(s, t);
      assert t in y.list && y.state[t] == READY;
      assert Eligible(s, Schedule(s).cur);
    } else {
      forall t | t in y.list ensures y.state[t] != READY {
        if y.state[t] == READY { assert Eligible(s, t); }
      }
      assert Schedule(s) == y;
    }
  }

  lemma EligibleStays(s: State, t: nat)
    requires Calm(s) && Eligible(s, t)
    ensures t in s.list && t in s.state && !Reapable(s, t)
  {
  }

  /** Reaping and yielding, task by task. */
  lemma ReapYields(s: State)
    requires Calm(s)
    ensures Reap(s).cur == s.cur && s.cur in Reap(s).state
    ensures var y := Yield(Reap(s));
      && Calm(y) && y.cur == s.cur && y.cur in y.state && y.state[y.cur] != RUNNING && y.unused == s.unused
      && (forall t :: t in y.list ==> t in y.state) && (forall t :: t in s.list ==> t in s.state)
      && (forall t :: t in y.list <==> t in s.list && !Reapable(s, t))
      && (forall t :: t in y.state <==> t in s.state && !(t in s.list && Reapable(s, t)))
      && (forall t :: t in y.state ==> y.state[t] == Yielded(s, t))
  {
    hide ReapFrom;
    ReapKeeps(s);
    ReapNames(s, s.list);
  }

  lemma PickExact(s: State)
    requires Calm(s) && s.state[s.cur] != RUNNING
    ensures Pick(s).list == s.list && Pick(s).unused == s.unused
    ensures if exists t :: t in s.list && s.state[t] == READY
      then Pick(s).cur in s.list && s.state[Pick(s).cur] == READY && Pick(s) == Switch(s, Pick(s).cur)
      else Pick(s) == s
  {
    hide FirstAlive;
    if s.list != [] {
      var start := StartAt(s.list, s.cur);
      if FirstReady(s.list, s.state, start, 0).None? {
        FallbackOnlyDead(s);
        forall t | t in s.list ensures s.state[t] != READY {
          var i := IndexOf(s.list, t);
          var d := if i >= start then i - start else i + |s.list| - start;
          assert Circular(s.list, start, d) == t;
        }
      }
    }
  }

  /** A task that ends is dead, and still listed until a schedule finds it no longer current. */
  lemma ExitIsDead(s: State)
    requires Calm(s)
    ensures s.cur in Exit(s).state && Exit(s).state[s.cur] == DEAD
    ensures s.cur in s.list ==> s.cur in Exit(s).list
    ensures forall t :: t in Exit(s).state && t != s.cur && t != Exit(s).cur ==>
      t in s.state && Exit(s).state[t] == s.state[t]
  {
    hide Schedule;
    ScheduleExact(s.(state := s.state[s.cur := DEAD]));
  }

  /** The task has been there and is not alive: dead, or gone. */
  ghost predicate Ended(s: State, t: nat) {
    t < s.unused && (t in s.state ==> s.state[t] == DEAD)
  }

  /** A task that has ended stays so; no step makes it the current one, and the next schedule that finds
      another task current removes it from the list. */
  lemma StepEnded(s: State, a: Step, t: nat)
    requires Inv(s) && Enabled(s, a) && Ended(s, t)
    ensures Ended(Next(s, a), t)
    ensures s.cur != t ==> Next(s, a).cur != t
    ensures s.cur != t && Picks(a) ==> t !in Next(s, a).list
  {
    hide Schedule, Without;
    match a
    case Tick => ScheduleExact(s);
    case End => ScheduleExact(s.(state := s.state[s.cur := DEAD]));
    case Start =>
    case Collect(d) =>
  }

  /** In every run, a task that ended is never picked again, and is off the list after the first schedule
      that finds another task current. */
  lemma {:induction false} ExitedIsGone(trace: seq<State>, acts: seq<Step>, j: nat, k: nat)
    requires IsRun(trace, acts) && j < k <= |acts| && acts[j].End?
    ensures Ended(trace[k], trace[j].cur)
    ensures k < |acts| && trace[k].cur != trace[j].cur ==>
      && trace[k + 1].cur != trace[j].cur
      && (Picks(acts[k]) ==> trace[j].cur !in trace[k + 1].list)
    decreases k - j
  {
    hide Schedule, Next;
    var t := trace[j].cur;
    RunInv(trace, acts, k - 1);
    RunInv(trace, acts, k);
    assert RunStep(trace[k - 1], acts[k - 1], trace[k]);
    if j + 1 == k {
      EndIsExit(trace[j]);
      ExitIsDead(trace[j]);
      StepNames(trace[j], acts[j]);
    } else {
      ExitedIsGone(trace, acts, j, k - 1);
      StepEnded(trace[k - 1], acts[k - 1], t);
    }
    if k < |acts| {
      assert RunStep(trace[k], acts[k], trace[k + 1]);
      StepEnded(trace[k], acts[k], t);
    }
  }

  lemma EndIsExit(s: State)
    requires Inv(s)
    ensures Next(s, End) == Exit(s) && s.cur < s.unused
  {
    hide Schedule;
  }

  /** A new task is ready, at the tail, and under a name that was not used before; a collected task is
      off the list and has no state. Nothing else changes. */
  lemma StartCollectExact(s: State, d: nat)
    requires Inv(s)
    ensures var s' := Next(s, Start);
      && s'.list == s.list + [s.unused] && s.unused !in s.state && s'.state == s.state[s.unused := READY]
      && s'.cur == s.cur && s'.unused == s.unused + 1
    ensures Enabled(s, Collect(d)) ==>
      var s' := Next(s, Collect(d));
      && (forall x :: x in s'.list <==> x in s.list && x != d) && s'.state == s.state - {d}
      && s'.cur == s.cur && s'.unused == s.unused
  {
    hide Without, Schedule;
    if Enabled(s, Collect(d)) { RemoveKeeps(s, d); }
  }

  // ---------------------------------------------------------------- bounded bypass

  /** `x` comes after the current task and before `t` in circular order. */
  ghost predicate Between(list: seq<nat>, cur: nat, t: nat, x: nat)
    requires t in list
  {
    x in list && x != t &&
    var i, k := IndexOf(list, t), IndexOf(list, x);
    if cur !in list then k < i
    else
      var c := IndexOf(list, cur);
      if c < i then c < k < i else c < k || k < i
  }

  /** `x` has had its turn: it is not between the current task and `t`, and never will be again
      before `t` is picked. */
  ghost predicate Passed(s: State, t: nat, x: nat)
    requires t in s.list
  {
    x < s.unused && !Between(s.list, s.cur, t, x)
  }

  lemma {:induction false} IndexUnique(list: seq<nat>, i: nat)
    requires i < |list| && Distinct(list)
    ensures IndexOf(list, list[i]) == i
  {
    if i > 0 {
      assert list[0] != list[i];
      IndexUnique(list[1..], i - 1);
    }
  }

  /** Removing a task keeps the order of the others. */
  lemma {:induction false} WithoutOrder(list: seq<nat>, d: nat, x: nat, y: nat)
    requires x in list && y in list && x != d && y != d
    ensures x in Without(list, d) && y in Without(list, d)
    ensures IndexOf(Without(list, d), x) < IndexOf(Without(list, d), y) <==> IndexOf(list, x) < IndexOf(list, y)
  {
    WithoutElements(list, d, x);
    WithoutElements(list, d, y);
    if x in list[1..] { WithoutElements(list[1..], d, x); }
    if y in list[1..] { WithoutElements(list[1..], d, y); }
    if list[0] == d {
      WithoutOrder(list[1..], d, x, y);
    } else {
      assert Without(list, d)[1..] == Without(list[1..], d);
      if list[0] != x && list[0] != y { WithoutOrder(list[1..], d, x, y); }
    }
  }

  lemma RemoveBetween(list: seq<nat>, d: nat, cur: nat, t: nat, x: nat)
    requires t in list && t != d && cur != d
    ensures t in Without(list, d)
    ensures Between(Without(list, d), cur, t, x) <==> Between(list, cur, t, x) && x != d
  {
    WithoutElements(list, d, t);
    WithoutElements(list, d, x);
    WithoutElements(list, d, cur);
    if x in list && x != d {
      WithoutOrder(list, d, x, t);
      WithoutOrder(list, d, t, x);
      if cur in list {
        WithoutOrder(list, d, cur, t);
        WithoutOrder(list, d, cur, x);
      }
    }
  }

  lemma {:induction false} ReapBetween(s: State, walk: seq<nat>, t: nat, x: nat)
    requires Calm(s) && Distinct(walk) && (forall y :: y in walk ==> y in s.list)
    requires t in s.list && s.state[t] != DEAD
    ensures t in ReapFrom(s, walk).list
    ensures Between(ReapFrom(s, walk).list, s.cur, t, x) ==> Between(s.list, s.cur, t, x)
    decreases |walk|
  {
    if walk != [] {
      var y := walk[0];
      assert walk == [y] + walk[1..] && y !in walk[1..];
      if Reapable(s, y) {
        RemoveKeeps(s, y);
        RemoveBetween(s.list, y, s.cur, t, x);
        ReapBetween(Remove(s, y), walk[1..], t, x);
      } else {
        ReapBetween(s, walk[1..], t, x);
      }
    }
  }

  /** The offset of a task from the start of the search. */
  lemma OffsetOf(list: seq<nat>, start: nat, t: nat) returns (d: nat)
    requires t in list && start < |list|
    ensures d < |list| && Circular(list, start, d) == t
    ensures d == if IndexOf(list, t) >= start then IndexOf(list, t) - start else IndexOf(list, t) + |list| - start
  {
    var i := IndexOf(list, t);
    d := if i >= start then i - start else i + |list| - start;
  }

  /** The search stops at the first ready task. */
  lemma {:induction false} FirstReadyAt(list: seq<nat>, state: map<nat, TaskState>, start: nat, d: nat, e: nat)
    returns (f: nat)
    requires start < |list| && d <= e < |list| && (forall t :: t in list ==> t in state)
    requires state[Circular(list, start, e)] == READY
    ensures d <= f <= e && FirstReady(list, state, start, d) == Some(Circular(list, start, f))
    decreases e - d
  {
    if state[Circular(list, start, d)] == READY {
      f := d;
    } else {
      f := FirstReadyAt(list, state, start, d + 1, e);
    }
  }

  lemma CircularIndex(list: seq<nat>, start: nat, d: nat)
    requires Distinct(list) && start < |list| && d < |list|
    ensures IndexOf(list, Circular(list, start, d)) == if start + d < |list| then start + d else start + d - |list|
  {
    IndexUnique(list, if start + d < |list| then start + d else start + d - |list|);
  }

  /** While `t` is ready, the picked task is `t` or lies between the current task and `t`; and what
      lies between the picked task and `t` lay there before, but not the picked task itself. */
  lemma PickBetween(s: State, t: nat, x: nat)
    requires Calm(s) && t in s.list && t != s.cur && s.state[t] == READY && Pick(s).cur != t
    ensures Between(s.list, s.cur, t, Pick(s).cur)
    ensures Between(s.list, Pick(s).cur, t, x) ==> Between(s.list, s.cur, t, x) && x != Pick(s).cur
  {
    hide FirstAlive, Between, IndexOf, StartAt, Circular;
    var start := StartAt(s.list, s.cur);
    var e := OffsetOf(s.list, start, t);
    var f := FirstReadyAt(s.list, s.state, start, 0, e);
    CircularBetween(s.list, s.cur, t, x, e, f);
  }

  /** A task nearer to the start of the search than `t` lies between the current task and `t`. */
  lemma CircularBetween(list: seq<nat>, cur: nat, t: nat, x: nat, e: nat, f: nat)
    requires Distinct(list) && t in list && t != cur && f <= e < |list|
    requires Circular(list, StartAt(list, cur), e) == t && Circular(list, StartAt(list, cur), f) != t
    ensures var c := Circular(list, StartAt(list, cur), f);
      Between(list, cur, t, c) && (Between(list, c, t, x) ==> Between(list, cur, t, x) && x != c)
  {
    var start := StartAt(list, cur);
    CircularIndex(list, start, f);
    CircularIndex(list, start, e);
  }

  lemma {:induction false} IndexAppend(list: seq<nat>, y: nat, x: nat)
    requires x in list
    ensures IndexOf(list + [y], x) == IndexOf(list, x)
  {
    if list[0] != x {
      assert (list + [y])[1..] == list[1..] + [y];
      IndexAppend(list[1..], y, x);
    }
  }

  /** A new task at the tail changes nothing between older tasks. */
  lemma AppendBetween(list: seq<nat>, y: nat, cur: nat, t: nat, x: nat)
    requires t in list && y !in list && x != y && cur != y
    ensures Between(list + [y], cur, t, x) ==> Between(list, cur, t, x)
  {
    IndexAppend(list, y, t);
    if x in list { IndexAppend(list, y, x); }
    if cur in list { IndexAppend(list, y, cur); }
  }

  predicate Picks(a: Step) { a.Tick? || a.End? }

  /** One scheduling step while `t` waits. */
  lemma ScheduleBetween(s: State, t: nat, x: nat)
    requires Calm(s) && t in s.list && t != s.cur && s.state[t] == READY
    requires t in Schedule(s).list && t in Schedule(s).state && Schedule(s).state[t] == READY
    ensures Between(s.list, s.cur, t, Schedule(s).cur)
    ensures Between(Schedule(s).list, Schedule(s).cur, t, x) ==> Between(s.list, s.cur, t, x) && x != Schedule(s).cur
  {
    hide Between, FirstReady, FirstAlive, IndexOf, StartAt, Without, ReapFrom;
    ReapKeeps(s);
    var r := Yield(Reap(s));
    PickKeeps(r);
    ReapBetween(s, s.list, t, Schedule(s).cur);
    ReapBetween(s, s.list, t, x);
    PickBetween(r, t, x);
  }

  lemma {:induction false} ReapNames(s: State, walk: seq<nat>)
    requires Calm(s) && Distinct(walk) && forall y :: y in walk ==> y in s.list
    ensures ReapFrom(s, walk).unused == s.unused
    decreases |walk|
  {
    if walk != [] {
      assert walk == [walk[0]] + walk[1..] && walk[0] !in walk[1..];
      if Reapable(s, walk[0]) {
        RemoveKeeps(s, walk[0]);
        ReapNames(Remove(s, walk[0]), walk[1..]);
      } else {
        ReapNames(s, walk[1..]);
      }
    }
  }

  lemma ScheduleNames(s: State)
    requires Calm(s)
    ensures Schedule(s).unused == s.unused
  {
    ReapKeeps(s);
    ReapNames(s, s.list);
  }

  /** A task that has had its turn keeps having had it, whatever step comes, and a picked task has
      not had its turn before. */
  lemma StepPassed(s: State, a: Step, t: nat, x: nat)
    requires Inv(s) && Enabled(s, a) && t in s.list && s.state[t] == READY
    requires var s' := Next(s, a); t in s'.list && t in s'.state && s'.state[t] == READY
    ensures Passed(s, t, x) ==> Passed(Next(s, a), t, x)
    ensures Picks(a) ==> !Passed(s, t, Next(s, a).cur) && Passed(Next(s, a), t, Next(s, a).cur)
  {
    hide Between, Schedule, Remove, Without;
    match a
    case Tick => SchedulePassed(s, t, x);
    case End => SchedulePassed(s.(state := s.state[s.cur := DEAD]), t, x);
    case Start =>
      assert s.unused !in s.list;
      if x != s.unused { AppendBetween(s.list, s.unused, s.cur, t, x); }
    case Collect(d) => RemovePassed(s, d, t, x);
  }

  lemma SchedulePassed(s: State, t: nat, x: nat)
    requires Calm(s) && t in s.list && t != s.cur && s.state[t] == READY
    requires t in Schedule(s).list && t in Schedule(s).state && Schedule(s).state[t] == READY
    ensures Passed(s, t, x) ==> Passed(Schedule(s), t, x)
    ensures !Passed(s, t, Schedule(s).cur) && Passed(Schedule(s), t, Schedule(s).cur)
  {
    hide Between, Schedule;
    ScheduleKeeps(s);
    ScheduleBetween(s, t, x);
    ScheduleBetween(s, t, Schedule(s).cur);
    ScheduleNames(s);
  }

  lemma RemovePassed(s: State, d: nat, t: nat, x: nat)
    requires Calm(s) && t in s.list && t != d && s.cur != d
    ensures t in Remove(s, d).list
    ensures Passed(s, t, x) ==> Passed(Remove(s, d), t, x)
  {
    RemoveBetween(s.list, d, s.cur, t, x);
  }

  /** `t` is listed and ready from `j` to `k`. */
  ghost predicate Waits(trace: seq<State>, t: nat, j: nat, k: nat)
    requires k < |trace|
  {
    forall i :: j <= i <= k ==> t in trace[i].list && t in trace[i].state && trace[i].state[t] == READY
  }

  lemma {:induction false} RunPassed(trace: seq<State>, acts: seq<Step>, t: nat, x: nat, j: nat, k: nat)
    requires IsRun(trace, acts) && j <= k <= |acts| && Waits(trace, t, j, k)
    requires Passed(trace[j], t, x)
    ensures Passed(trace[k], t, x)
    decreases k - j
  {
    if j < k {
      RunInv(trace, acts, j);
      assert RunStep(trace[j], acts[j], trace[j + 1]);
      assert t in trace[j + 1].list;
      StepPassed(trace[j], acts[j], t, x);
      RunPassed(trace, acts, t, x, j + 1, k);
    }
  }

  /** Round robin has bounded bypass: while a listed task stays ready, no task is picked twice. */
  lemma BoundedBypass(trace: seq<State>, acts: seq<Step>, t: nat, j: nat, k: nat)
    requires IsRun(trace, acts) && j < k < |acts| && Picks(acts[j]) && Picks(acts[k]) && Waits(trace, t, j, k + 1)
    ensures trace[j + 1].cur != trace[k + 1].cur
  {
    RunInv(trace, acts, j);
    RunInv(trace, acts, k);
    assert RunStep(trace[j], acts[j], trace[j + 1]) && RunStep(trace[k], acts[k], trace[k + 1]);
    assert t in trace[j + 1].list && t in trace[k + 1].list;
    StepPassed(trace[j], acts[j], t, t);
    RunPassed(trace, acts, t, trace[j + 1].cur, j + 1, k);
    StepPassed(trace[k], acts[k], t, t);
  }

  /** The steps from `j` to `k` that pick a task. */
  function PickSteps(acts: seq<Step>, j: nat, k: nat): set<nat>
    requires k <= |acts|
  {
    set i: nat | j <= i < k && Picks(acts[i])
  }

  /** The tasks that were listed with `t`, and those started between the two states. */
  function Rivals(s: State, s': State, t: nat): set<nat> {
    Elements(s.list) - {t} + Names(s.unused, s'.unused)
  }

  function Elements(list: seq<nat>): (r: set<nat>)
    ensures |r| <= |list| && forall x :: x in r <==> x in list
  {
    if list == [] then {} else {list[0]} + Elements(list[1..])
  }

  function Names(lo: nat, hi: nat): (r: set<nat>)
    ensures |r| == (if lo <= hi then hi - lo else 0) && forall x :: x in r <==> lo <= x < hi
  {
    if hi <= lo then {} else Names(lo, hi - 1) + {hi - 1}
  }

  /** A ready task waits at most one pick for each other task that was listed when it began to wait, and
      one for each task started since. */
  lemma WaitBound(trace: seq<State>, acts: seq<Step>, t: nat, j: nat, k: nat)
    requires IsRun(trace, acts) && j <= k <= |acts| && Waits(trace, t, j, k)
    ensures trace[j].unused <= trace[k].unused
    ensures |PickSteps(acts, j, k)| <= |trace[j].list| - 1 + (trace[k].unused - trace[j].unused)
  {
    hide RunStep, PickSteps;
    RunNames(trace, acts, j, k);
    var names := PickedBy(trace, acts, t, j, k);
    SubsetCount(names, Rivals(trace[j], trace[k], t));
    assert t in Elements(trace[j].list);
  }

  /** The picked tasks are as many as the picks, and all of them are rivals. */
  lemma {:induction false} PickedBy(trace: seq<State>, acts: seq<Step>, t: nat, j: nat, k: nat)
    returns (names: set<nat>)
    requires IsRun(trace, acts) && j <= k <= |acts| && Waits(trace, t, j, k)
    ensures |names| == |PickSteps(acts, j, k)| && names <= Rivals(trace[j], trace[k], t)
    ensures forall x :: x in names ==> PickedAt(trace, acts, j, k, x)
    decreases k - j
  {
    hide RunStep, Rivals, PickedAt, Picks, PickSteps;
    PickCount(acts, j, k);
    if j == k { return {}; }
    names := PickedBy(trace, acts, t, j, k - 1);
    RunNames(trace, acts, k - 1, k);
    RivalsGrow(trace[j], trace[k - 1], trace[k], t);
    forall x | x in names ensures PickedAt(trace, acts, j, k, x) { PickedStays(trace, acts, j, k - 1, x); }
    if Picks(acts[k - 1]) {
      PickedIsRival(trace, acts, t, j, k);
      PickedIsNew(trace, acts, t, j, k);
      names := names + {trace[k].cur};
    }
  }

  lemma PickCount(acts: seq<Step>, j: nat, k: nat)
    requires j <= k <= |acts|
    ensures |PickSteps(acts, j, k)| ==
      if j == k then 0 else |PickSteps(acts, j, k - 1)| + if Picks(acts[k - 1]) then 1 else 0
  {
    hide Picks;
    if j == k {
      assert PickSteps(acts, j, k) == {};
    } else {
      assert PickSteps(acts, j, k) == PickSteps(acts, j, k - 1) + if Picks(acts[k - 1]) then {k - 1} else {};
    }
  }

  ghost predicate PickedAt(trace: seq<State>, acts: seq<Step>, j: nat, k: nat, x: nat)
    requires k <= |acts| < |trace|
  {
    exists i :: j <= i < k && Picks(acts[i]) && trace[i + 1].cur == x
  }

  lemma PickedStays(trace: seq<State>, acts: seq<Step>, j: nat, k: nat, x: nat)
    requires k < |acts| < |trace| && PickedAt(trace, acts, j, k, x)
    ensures PickedAt(trace, acts, j, k + 1, x)
  {
  }

  lemma RivalsGrow(s: State, s': State, s'': State, t: nat)
    requires s'.unused <= s''.unused
    ensures Rivals(s, s', t) <= Rivals(s, s'', t)
  {
  }

  lemma PickedIsNew(trace: seq<State>, acts: seq<Step>, t: nat, j: nat, k: nat)
    requires IsRun(trace, acts) && j < k <= |acts| && Picks(acts[k - 1]) && Waits(trace, t, j, k)
    ensures !PickedAt(trace, acts, j, k - 1, trace[k].cur) && PickedAt(trace, acts, j, k, trace[k].cur)
  {
    hide RunStep;
    var x := trace[k].cur;
    if PickedAt(trace, acts, j, k - 1, x) {
      var i :| j <= i < k - 1 && Picks(acts[i]) && trace[i + 1].cur == x;
      BoundedBypass(trace, acts, t, i, k - 1);
    }
  }

  lemma PickedIsRival(trace: seq<State>, acts: seq<Step>, t: nat, j: nat, k: nat)
    requires IsRun(trace, acts) && j < k <= |acts| && Picks(acts[k - 1]) && Waits(trace, t, j, k)
    ensures trace[k].cur in Rivals(trace[j], trace[k], t)
  {
    hide Inv, Enabled, Next, Passed, Rivals, Picks;
    var x := trace[k].cur;
    RunInv(trace, acts, k - 1);
    RunInv(trace, acts, k);
    assert RunStep(trace[k - 1], acts[k - 1], trace[k]);
    assert t in trace[k - 1].list;
    StepPassed(trace[k - 1], acts[k - 1], t, t);
    if Passed(trace[j], t, x) { RunPassed(trace, acts, t, x, j, k - 1); }
    NotPassed(trace[j], trace[k], t, x);
  }

  lemma NotPassed(s: State, s': State, t: nat, x: nat)
    requires t in s.list && !Passed(s, t, x) && t in s'.list && Passed(s', t, x)
    ensures x in Rivals(s, s', t)
  {
    hide IndexOf;
  }

  /** Names are never used twice. */
  lemma {:induction false} RunNames(trace: seq<State>, acts: seq<Step>, j: nat, k: nat)
    requires IsRun(trace, acts) && j <= k <= |acts|
    ensures trace[j].unused <= trace[k].unused
    decreases k - j
  {
    if j < k {
      RunNames(trace, acts, j, k - 1);
      RunInv(trace, acts, k - 1);
      assert RunStep(trace[k - 1], acts[k - 1], trace[k]);
      StepNames(trace[k - 1], acts[k - 1]);
    }
  }

  lemma StepNames(s: State, a: Step)
    requires Inv(s) && Enabled(s, a)
    ensures s.unused <= Next(s, a).unused
  {
    hide Schedule, Remove;
    match a
    case Tick => ScheduleNames(s);
    case End => ScheduleNames(s.(state := s.state[s.cur := DEAD]));
    case Start =>
    case Collect(d) => RemoveNames(s, d);
  }

  lemma RemoveNames(s: State, d: nat)
    ensures Remove(s, d).unused == s.unused
  {
  }

  lemma SubsetCount(a: set<nat>, b: set<nat>)
    requires a <= b
    ensures |a| <= |b|
  {
    assert b == a + (b - a);
  }
}
