/** The scheduler of scheduler.cpp over task records in memory: a singly linked run list, task
    destruction, and the address space loaded in CR3. A freed record is gone from `tasks`, so every
    dereference below shows that the record is still there. */
module Scheduler {
  import opened Common
  import opened Sched

  datatype Task = Task(state: TaskState, next: nat, space: nat)

  function LinkOf(list: seq<nat>, k: nat): nat
    requires k < |list|
  {
    if k + 1 < |list| then list[k + 1] else 0
  }

  /** The records are linked in list order, from head to tail. */
  ghost predicate Chain(tasks: map<nat, Task>, list: seq<nat>, head: nat, tail: nat) {
    && (forall k :: 0 <= k < |list| ==> list[k] in tasks && tasks[list[k]].next == LinkOf(list, k))
    && head == (if list == [] then 0 else list[0])
    && tail == (if list == [] then 0 else list[|list| - 1])
  }

  function States(tasks: map<nat, Task>): (m: map<nat, TaskState>)
    ensures m.Keys == tasks.Keys && forall t :: t in tasks ==> m[t] == tasks[t].state
  {
    map t | t in tasks :: tasks[t].state
  }

  lemma {:induction false} WithoutAt(list: seq<nat>, k: nat)
    requires k < |list| && Distinct(list)
    ensures Without(list, list[k]) == list[..k] + list[k + 1..]
  {
    if k == 0 {
      assert list[0] !in list[1..];
      assert list[..0] + list[1..] == list[1..];
    } else {
      WithoutAt(list[1..], k - 1);
      WithoutHead(list, k);
    }
  }

  lemma WithoutHead(list: seq<nat>, k: nat)
    requires 0 < k < |list| && list[0] != list[k]
    requires Without(list[1..], list[k]) == list[1..][..k - 1] + list[1..][k..]
    ensures Without(list, list[k]) == list[..k] + list[k + 1..]
  {
    Regrouped(list, k);
  }

  lemma Regrouped(list: seq<nat>, k: nat)
    requires 0 < k < |list|
    ensures [list[0]] + (list[1..][..k - 1] + list[1..][k..]) == list[..k] + list[k + 1..]
  {
    assert list[1..][k..] == list[k + 1..];
    assert [list[0]] + list[1..][..k - 1] == list[..k];
  }

  /** The chain without its `k`-th task. */
  lemma UnlinkChain(tasks: map<nat, Task>, list: seq<nat>, k: nat)
    requires k < |list| && Distinct(list)
    requires forall j :: 0 <= j < |list| ==> list[j] in tasks && tasks[list[j]].next == LinkOf(list, j)
    ensures var rest := list[..k] + list[k + 1..];
      if k == 0
      then Chain(tasks, rest, LinkOf(list, 0), if |list| == 1 then 0 else list[|list| - 1])
      else Chain(tasks[list[k - 1] := tasks[list[k - 1]].(next := LinkOf(list, k))], rest, list[0],
                 if k == |list| - 1 then list[k - 1] else list[|list| - 1])
  {
    var rest := list[..k] + list[k + 1..];
    var tasks' := if k == 0 then tasks else tasks[list[k - 1] := tasks[list[k - 1]].(next := LinkOf(list, k))];
    forall j | 0 <= j < |rest| ensures rest[j] in tasks' && tasks'[rest[j]].next == LinkOf(rest, j) {
      var i := if j < k then j else j + 1;
      assert rest[j] == list[i];
      if j + 1 < |rest| { assert rest[j + 1] == if j + 1 < k then list[j + 1] else list[j + 2]; }
      if k > 0 && i != k - 1 { assert list[i] != list[k - 1]; }
    }
  }

  /** The scheduler's memory: `spaces` are the address spaces that exist, `cr3` the loaded one (0 is
      the kernel's), `loaded` the task it belongs to, and `owner` the task of each space. */
  datatype Memory = Memory(tasks: map<nat, Task>, head: nat, tail: nat, cur: nat, unused: nat,
                           spaces: set<nat>, owner: map<nat, nat>, cr3: nat, list: seq<nat>, loaded: nat)
  {
    ghost function Abs(): State {
      State(list, States(tasks), cur, unused)
    }

    /** Every listed task owns its address space. */
    ghost predicate Owned() {
      && KERNEL in tasks && tasks[KERNEL].space == 0 && tasks[KERNEL].next == 0
      && (forall t :: t in tasks && t != KERNEL ==>
            tasks[t].space != 0 && tasks[t].space in spaces && tasks[t].space in owner && owner[tasks[t].space] == t)
    }

    /** The loaded space is the kernel's, the current task's, or that of a task that is not dead. */
    ghost predicate Loaded() {
      if loaded == KERNEL then cr3 == 0
      else loaded in tasks && tasks[loaded].space == cr3 && (loaded == cur || tasks[loaded].state != DEAD)
    }

    ghost predicate Sane() {
      Calm(Abs()) && Chain(tasks, list, head, tail) && Owned() && Loaded()
    }

    ghost predicate Valid() {
      Sane() && Inv(Abs())
    }
  }

  /** `m'` is `m` after task `t` was unlinked, its space torn down and its record freed. */
  ghost predicate Freed(m: Memory, m': Memory, t: nat) {
    && t in m.list && t in m.tasks
    && m'.list == Without(m.list, t) && m'.tasks.Keys == m.tasks.Keys - {t}
    && (forall x :: x in m'.tasks ==> m'.tasks[x].state == m.tasks[x].state && m'.tasks[x].space == m.tasks[x].space)
    && (KERNEL in m'.tasks && KERNEL in m.tasks ==> m'.tasks[KERNEL] == m.tasks[KERNEL])
    && Chain(m'.tasks, m'.list, m'.head, m'.tail)
    && m'.spaces == m.spaces - {m.tasks[t].space}
    && m'.cur == m.cur && m'.unused == m.unused && m'.cr3 == m.cr3 && m'.loaded == m.loaded
    && m'.owner == m.owner
  }

  /** The space of a dead task that is not current is not the loaded one. */
  lemma NotLoaded(m: Memory, t: nat)
    requires m.Owned() && m.Loaded() && t in m.tasks && t != KERNEL && t != m.cur && m.tasks[t].state == DEAD
    ensures m.tasks[t].space in m.spaces && m.tasks[t].space != m.cr3
  {
  }

  lemma FreedIs(m: Memory, m': Memory, t: nat)
    requires Calm(m.Abs()) && Freed(m, m', t) && t != m.cur
    ensures m'.Abs() == Remove(m.Abs(), t) && Calm(m'.Abs())
  {
    hide Without, Calm;
    RemoveKeeps(m.Abs(), t);
    assert States(m'.tasks) == m.Abs().state - {t};
  }

  lemma FreedSane(m: Memory, m': Memory, t: nat)
    requires m.Sane() && Freed(m, m', t) && t != m.cur && t in m.tasks && m.tasks[t].state == DEAD
    ensures m'.Sane() && m'.Abs() == Remove(m.Abs(), t)
  {
    hide Calm, Without, States, Chain, Remove, Freed, Memory.Owned, Memory.Loaded;
    FreedIs(m, m', t);
    FreedParts(m, m', t);
    FreedOwned(m, m', t);
  }

  /** Unlinked, torn down and erased. */
  lemma FreedBy(m: Memory, m': Memory, linked: map<nat, Task>, k: nat)
    requires k < |m.list| && Distinct(m.list) && m.list[k] in m.tasks && linked.Keys == m.tasks.Keys
    requires forall x :: x in linked ==> linked[x].state == m.tasks[x].state && linked[x].space == m.tasks[x].space
    requires forall x :: x in linked && x !in m.list ==> linked[x] == m.tasks[x]
    requires KERNEL !in m.list && Chain(linked, m.list[..k] + m.list[k + 1..], m'.head, m'.tail)
    requires m' == m.(tasks := linked - {m.list[k]}, list := m.list[..k] + m.list[k + 1..],
                      spaces := m.spaces - {m.tasks[m.list[k]].space}, head := m'.head, tail := m'.tail)
    ensures Freed(m, m', m.list[k])
  {
    hide Without, Chain;
    WithoutAt(m.list, k);
    GoneAt(m.list, k);
    ShortChain(linked, m'.list, m'.head, m'.tail, m.list[k]);
  }

  lemma FreedParts(m: Memory, m': Memory, t: nat)
    requires Freed(m, m', t) && Calm(m.Abs())
    ensures Chain(m'.tasks, m'.list, m'.head, m'.tail) && t != KERNEL && t in m.tasks
  {
    hide Without, Chain, States;
  }

  lemma FreedOwned(m: Memory, m': Memory, t: nat)
    requires m.Owned() && m.Loaded() && Freed(m, m', t) && t != m.cur && m.tasks[t].state == DEAD && t != KERNEL
    ensures m'.Owned() && m'.Loaded()
  {
    hide Without, Chain;
  }

  class RunQueue {
    var tasks: map<nat, Task>
    var head: nat
    var tail: nat
    var current: nat
    var unused: nat
    var spaces: set<nat>
    var cr3: nat
    ghost var list: seq<nat>
    ghost var loaded: nat
    ghost var owner: map<nat, nat>

    ghost function M(): Memory
      reads this
    {
      Memory(tasks, head, tail, current, unused, spaces, owner, cr3, list, loaded)
    }

    constructor ()
      ensures M().Valid() && M().Abs() == Boot && cr3 == 0
    {
      tasks := map[KERNEL := Task(RUNNING, 0, 0)];
      head, tail, current, unused := 0, 0, KERNEL, KERNEL + 1;
      spaces, cr3 := {}, 0;
      list, loaded, owner := [], KERNEL, map[];
    }

    /** Tears down an address space; it must exist and must not be the loaded one. */
    method DestroySpace(space: nat)
      requires space in spaces && space != cr3
      modifies this`spaces
      ensures spaces == old(spaces) - {space}
    {
      spaces := spaces - {space};
    }

    /** Unlinks a dead task, tears down its address space and frees it; nothing happens to the current
        task and for null. */
    method RemoveAndDestroy(task: nat, ghost k: nat)
      requires M().Sane()
      requires task == 0 || task == current
        || (k < |list| && list[k] == task && task in tasks && tasks[task].state == DEAD)
      modifies this
      ensures M().Sane() && cr3 == old(cr3) && current == old(current) && loaded == old(loaded)
      ensures task == 0 || task == current ==> M() == old(M())
      ensures task != 0 && task != current ==>
        && M().Abs() == Remove(old(M().Abs()), task) && Freed(old(M()), M(), task)
        && list == old(list)[..k] + old(list)[k + 1..]
    {
      hide Calm, Remove, Without, Chain, States, Freed, Memory.Owned, Memory.Loaded;
      if task == 0 || task == current { return; }
      ghost var m := M();
      ListFacts(m.Abs(), k);
      NotLoaded(m, task);
      var space := tasks[task].space;
      Unlink(task, k);
      DestroySpace(space);
      ghost var linked := tasks;
      tasks := tasks - {task};
      list := list[..k] + list[k + 1..];
      FreedBy(m, M(), linked, k);
      FreedSane(m, M(), task);
    }

    /** Takes a task out of the chain. */
    method Unlink(task: nat, ghost k: nat)
      requires Chain(tasks, list, head, tail) && k < |list| && list[k] == task && Distinct(list) && 0 !in list
      modifies this`tasks, this`head, this`tail
      ensures tasks.Keys == old(tasks).Keys
      ensures forall t :: t in tasks ==> tasks[t].state == old(tasks)[t].state && tasks[t].space == old(tasks)[t].space
      ensures forall t :: t in tasks && t !in list ==> tasks[t] == old(tasks)[t]
      ensures Chain(tasks, list[..k] + list[k + 1..], head, tail)
    {
      UnlinkChain(tasks, list, k);
      if head == task {
        head := tasks[task].next;
        if tail == task { tail := head; }
      } else {
        var t := head;
        ghost var j := 0;
        while t != 0 && tasks[t].next != task
          invariant j < k && t == list[j]
          decreases k - j
        {
          t := tasks[t].next;
          j := j + 1;
        }
        if t != 0 {
          assert list[j + 1] == task && j + 1 == k;
          tasks := tasks[t := tasks[t].(next := tasks[task].next)];
          if tail == task { tail := t; }
        }
      }
    }

    /** Destroys every dead task but the current one, walking the list as it was. */
    method ReapDead()
      requires M().Sane()
      modifies this
      ensures M().Sane() && M().Abs() == Reap(old(M().Abs())) && cr3 == old(cr3) && current == old(current)
      ensures loaded == old(loaded)
    {
      hide Calm, Shape, Chain, States, Without, Remove, ReapFrom, Freed, Memory.Owned, Memory.Loaded;
      ghost var s := M().Abs();
      CalmShape(s);
      HeadIs(M());
      var t := head;
      ghost var kept: seq<nat>, walk := [], list;
      WalkFacts(M().Abs(), kept, walk);
      while t != 0
        invariant M().Sane() && list == kept + walk && t == (if walk == [] then 0 else walk[0])
        invariant cr3 == old(cr3) && current == old(current) && loaded == old(loaded)
        invariant Distinct(walk) && (forall x :: x in walk ==> x in M().Abs().state)
        invariant Reap(s) == ReapFrom(M().Abs(), walk)
        decreases |walk|
      {
        RecordAt(M(), |kept|);
        WalkFacts(M().Abs(), kept, walk);
        var next := tasks[t].next;
        kept := ReapOne(t, kept, walk);
        walk := walk[1..];
        t := next;
      }
      WalkFacts(M().Abs(), kept, walk);
      ReapEnd(M().Abs());
    }

    /** Destroys the task if it is dead and not current. */
    method ReapOne(t: nat, ghost kept: seq<nat>, ghost walk: seq<nat>) returns (ghost kept': seq<nat>)
      requires M().Sane() && walk != [] && list == kept + walk && t == walk[0] && t in tasks
      requires Distinct(walk) && (forall x :: x in walk ==> x in M().Abs().state)
      modifies this
      ensures M().Sane() && list == kept' + walk[1..] && cr3 == old(cr3) && current == old(current)
      ensures loaded == old(loaded)
      ensures Distinct(walk[1..]) && (forall x :: x in walk[1..] ==> x in M().Abs().state)
      ensures ReapFrom(M().Abs(), walk[1..]) == old(ReapFrom(M().Abs(), walk))
    {
      hide Calm, Shape, Chain, States, Without, Remove, ReapFrom, Freed, Memory.Owned, Memory.Loaded;
      ghost var m := M();
      ghost var k := |kept|;
      RecordAt(m, k);
      ListFacts(m.Abs(), k);
      if tasks[t].state == DEAD && t != current {
        RemoveAndDestroy(t, k);
        ReapStep(m.Abs(), walk);
        kept' := kept;
        assert kept + walk[1..] == (kept + walk)[..k] + (kept + walk)[k + 1..];
      } else {
        ReapStep(m.Abs(), walk);
        kept' := kept + [t];
      }
    }

    method SetState(t: nat, st: TaskState)
      requires t in tasks && Chain(tasks, list, head, tail) && M().Owned() && M().Loaded()
      requires st == DEAD ==> t == current
      modifies this`tasks
      ensures Chain(tasks, list, head, tail) && M().Owned() && M().Loaded()
      ensures M().Abs() == old(M().Abs()).(state := old(M().Abs()).state[t := st])
      ensures tasks == old(tasks)[t := old(tasks)[t].(state := st)]
    {
      hide Chain, States;
      StatesSet(tasks, t, st);
      ChainSet(tasks, list, head, tail, t, st);
      tasks := tasks[t := tasks[t].(state := st)];
    }

    /** A timer tick: reap, yield, and switch to the next ready task in circular order. */
    method Tick()
      requires M().Sane()
      modifies this
      ensures M().Valid() && M().Abs() == Schedule(old(M().Abs()))
    {
      hide Calm, Shape, Chain, States, Reap, Pick, Memory.Owned, Memory.Loaded;
      ghost var s := M().Abs();
      CalmShape(s);
      ScheduleKeeps(s);
      ReapKeeps(s);
      ReapDead();
      CurrentIs(M());
      if tasks[current].state == RUNNING { SetState(current, READY); }
      ghost var y := M().Abs();
      YieldCalm(Reap(s));
      assert y == Yield(Reap(s));
      PickNext();
    }

    /** The choice of the next task. */
    method PickNext()
      requires M().Sane() && M().Abs().state[current] != RUNNING
      modifies this
      ensures M().Valid() && M().Abs() == Pick(old(M().Abs()))
    {
      hide Calm, Shape, Chain, States, Memory.Owned, Memory.Loaded;
      ghost var s := M().Abs();
      CalmShape(s);
      PickKeeps(s);
      HeadIs(M());
      ListFacts(s, 0);
      if head == 0 { return; }
      CurrentIs(M());
      var start := tasks[current].next;
      if start == 0 { start := head; }
      ghost var at := StartAt(list, current);
      StartIs(M());
      var found, next := FindReady(start, at);
      if !found {
        FallbackOnlyDead(s);
        var t := head;
        ghost var d := 0;
        while true
          invariant d < |list| && t == list[d] && M() == old(M())
          decreases |list| - d
        {
          RecordAt(M(), d);
          AllDead(s, d);
          if tasks[t].state != DEAD { assert false; }   // the source would switch here without loading the space
          t := if tasks[t].next != 0 then tasks[t].next else head;
          d := d + 1;
          ListFacts(s, d);
          if t == head { return; }
        }
      }
      SwitchTo(next);
    }

    /** The first ready task from `start` on, around the list at most once. */
    method FindReady(start: nat, ghost at: nat) returns (found: bool, next: nat)
      requires M().Sane() && at < |list| && start == list[at]
      ensures FirstReady(list, M().Abs().state, at, 0) == if found then Some(next) else None
    {
      hide Calm, Shape, Chain, States, Memory.Owned, Memory.Loaded;
      ghost var s := M().Abs();
      ListedStates(s);
      HeadIs(M());
      next := start;
      ghost var d := 0;
      while true
        invariant d < |list| && next == Circular(list, at, d)
        invariant FirstReady(list, s.state, at, 0) == FirstReady(list, s.state, at, d)
        decreases |list| - d
      {
        ghost var i := if at + d < |list| then at + d else at + d - |list|;
        RecordAt(M(), i);
        ListFacts(s, i);
        if tasks[next].state == READY { return true, next; }
        next := tasks[next].next;
        if next == 0 { next := head; }
        ListFacts(s, if i + 1 < |list| then i + 1 else 0);
        d := d + 1;
        if next == start {
          return false, next;
        }
      }
    }

    /** Makes a ready task the running one and loads its address space. */
    method SwitchTo(t: nat)
      requires M().Sane() && M().Abs().state[current] != RUNNING && t in tasks && t != KERNEL && tasks[t].state == READY
      requires Inv(Switch(M().Abs(), t))
      modifies this
      ensures M().Valid() && M().Abs() == Switch(old(M().Abs()), t) && cr3 == tasks[t].space && loaded == t
    {
      hide Calm, Shape, Chain, States;
      ghost var m := M();
      tasks := tasks[t := tasks[t].(state := RUNNING)];
      current := t;
      cr3 := tasks[t].space;
      loaded := t;
      StatesSet(m.tasks, t, RUNNING);
      ChainSet(m.tasks, m.list, m.head, m.tail, t, RUNNING);
    }

    /** The current task ends: it is marked dead and the next one is chosen. */
    method Exit()
      requires M().Valid()
      modifies this
      ensures M().Valid() && M().Abs() == Sched.Exit(old(M().Abs()))
      ensures old(current) in tasks && tasks[old(current)].state == DEAD
      ensures old(current) in old(list) ==> old(current) in list
    {
      hide Calm, Shape, Chain, States, Schedule, Memory.Owned, Memory.Loaded;
      CurrentIs(M());
      DeadCalm(M().Abs());
      ExitIsDead(M().Abs());
      SetState(current, DEAD);
      Tick();
    }

    /** Links a new record at the tail. */
    method Add(task: nat)
      requires Chain(tasks, list, head, tail) && task in tasks && task !in list && task != 0
      requires Distinct(list) && 0 !in list
      modifies this`tasks, this`head, this`tail, this`list
      ensures list == old(list) + [task] && Chain(tasks, list, head, tail) && tasks.Keys == old(tasks).Keys
      ensures forall t :: t in tasks ==> tasks[t].state == old(tasks)[t].state && tasks[t].space == old(tasks)[t].space
      ensures forall t :: t in tasks && t !in list ==> tasks[t] == old(tasks)[t]
    {
      hide Chain;
      AppendChain(tasks, list, head, tail, task);
      assert list == [] ==> list + [task] == [task];
      list := list + [task];
      tasks := tasks[task := tasks[task].(next := 0)];
      if head == 0 {
        head, tail := task, task;
        return;
      }
      tasks := tasks[tail := tasks[tail].(next := task)];
      tail := task;
    }

    /** A new ready task with its own address space, at the tail of the list. */
    method StartTask(space: nat) returns (task: nat)
      requires Calm(M().Abs()) && Chain(tasks, list, head, tail)
      modifies this
      ensures task == old(unused) && Started(old(M()), M(), task, space)
      ensures cr3 == old(cr3) && loaded == old(loaded)
    {
      hide Calm, Chain, States, Memory.Owned, Memory.Loaded, Started;
      ghost var m := M();
      NewFacts(m);
      task := unused;
      GrownChain(tasks, list, head, tail, task, Task(READY, 0, space));
      tasks := tasks[task := Task(READY, 0, space)];
      Add(task);
      unused := unused + 1;
      spaces := spaces + {space};
      owner := owner[space := task];
      StartedBy(m, M(), task, space);
    }

    /** Fork: `space` is the new address space, 0 when none could be made, and `copied` tells whether
        the pages and the records could be copied. The loaded space stays. */
    method Clone(space: nat, copied: bool) returns (child: nat)
      requires M().Valid() && space !in spaces
      modifies this
      ensures M().Valid() && cr3 == old(cr3)
      ensures child == if old(current) == KERNEL || space == 0 || !copied then 0 else old(unused)
      ensures child == 0 ==> M() == old(M())
      ensures child != 0 ==>
        M().Abs() == Append(old(M().Abs())) && tasks[child].space == space && spaces == old(spaces) + {space}
    {
      hide Calm, Chain, States, Memory.Owned, Memory.Loaded;
      if current == KERNEL { return 0; }
      if space == 0 { return 0; }
      ghost var m := M();
      NewFacts(m);
      if !copied {
        NotMine(m, space);
        spaces := spaces + {space};
        DestroySpace(space);
        return 0;
      }
      child := StartTask(space);
      StartedKeeps(m, M(), child, space);
    }

    /** A process started from a file: its space is loaded while its stack is written, then the
        caller's space again; the kernel's own record has none, so its caller keeps the new one. When
        the program or the records fail (`ready` is false) the space is left behind, owned by nobody. */
    method Spawn(space: nat, ready: bool) returns (task: nat)
      requires M().Valid() && space !in spaces
      modifies this
      ensures M().Valid() && task == if space == 0 || !ready then 0 else old(unused)
      ensures space == 0 ==> M() == old(M())
      ensures space != 0 ==> spaces == old(spaces) + {space}
      ensures space != 0 && !ready ==> M() == old(M()).(spaces := spaces)
      ensures task != 0 ==> M().Abs() == Append(old(M().Abs())) && tasks[task].space == space
      ensures task != 0 ==> cr3 == if current == KERNEL then space else tasks[current].space
    {
      hide Calm, Chain, States, Memory.Owned, Memory.Loaded;
      if space == 0 { return 0; }
      ghost var m := M();
      if !ready {
        SpaceKept(m, space);
        spaces := spaces + {space};
        return 0;
      }
      CurrentIs(m);
      NewFacts(m);
      CallerSpace(m);
      var caller := tasks[current].space;
      cr3 := space;
      task := StartTask(space);
      loaded := task;
      if caller != 0 {
        cr3 := caller;
        loaded := current;
      }
      StartedKeeps(m, M(), task, space);
    }

    /** Exec: the current task gets a new address space, which is loaded before the old one is torn
        down. `space` is 0 when none could be made; `entry` tells whether the program loaded. */
    method ExecCurrent(space: nat, entry: bool) returns (ok: bool)
      requires M().Valid() && space !in spaces && current != KERNEL
      modifies this
      ensures M().Valid() && M().Abs() == old(M().Abs()) && ok == (space != 0 && entry)
      ensures !ok ==> M() == old(M())
      ensures ok ==> cr3 == space && tasks[current].space == space
      ensures ok ==> spaces == old(spaces) + {space} - {old(tasks[current].space)}
    {
      hide Calm, Chain, States, Memory.Owned, Memory.Loaded;
      if space == 0 { return false; }
      ghost var m := M();
      CurrentIs(m);
      OwnSpace(m);
      spaces := spaces + {space};
      if !entry {
        NotMine(m, space);
        DestroySpace(space);
        return false;
      }
      var old_space := tasks[current].space;
      tasks := tasks[current := tasks[current].(space := space)];
      owner := owner[space := current];
      cr3 := space;
      loaded := current;
      if old_space != 0 { DestroySpace(old_space); }
      ExecKeeps(m, M(), space);
      return true;
    }

    /** The listed task of that name, 0 when there is none. */
    method Find(pid: nat) returns (t: nat, ghost k: nat)
      requires M().Sane()
      ensures t == (if pid in list then pid else 0) && (t != 0 ==> k < |list| && list[k] == t)
    {
      hide Calm, Chain, States, Memory.Owned, Memory.Loaded;
      HeadIs(M());
      t := head;
      k := 0;
      ListFacts(M().Abs(), 0);
      while t != 0
        invariant k <= |list| && t == (if k == |list| then 0 else list[k]) && pid !in list[..k]
        decreases |list| - k
      {
        RecordAt(M(), k);
        if t == pid { return; }
        t := tasks[t].next;
        k := k + 1;
      }
    }

    /** One round of wait: done when the task is not listed or dead; a dead one is destroyed, unless
        it is the current one. */
    method Wait(pid: nat) returns (done: bool)
      requires M().Valid()
      modifies this
      ensures M().Valid() && cr3 == old(cr3)
      ensures done == (pid !in old(list) || old(M()).Abs().state[pid] == DEAD)
      ensures M().Abs() ==
        if done && pid in old(list) && pid != current then Remove(old(M()).Abs(), pid) else old(M()).Abs()
    {
      hide Calm, Chain, States, Remove, Freed, Memory.Owned, Memory.Loaded;
      var t, k := Find(pid);
      if t == 0 { ListFacts(M().Abs(), 0); return true; }
      RecordAt(M(), k);
      if tasks[t].state != DEAD { return false; }
      if t != current {
        CollectKeeps(M().Abs(), t);
        RemoveAndDestroy(t, k);
      }
      return true;
    }
  }

  /** `m'` is `m` with a new ready task at the tail; nothing is said of the loaded space. */
  ghost predicate Started(m: Memory, m': Memory, t: nat, space: nat) {
    && t == m.unused && m'.unused == t + 1 && m'.cur == m.cur
    && m'.list == m.list + [t] && m'.tasks.Keys == m.tasks.Keys + {t}
    && m'.tasks[t].state == READY && m'.tasks[t].space == space
    && (forall x :: x in m.tasks && x != t ==>
          m'.tasks[x].state == m.tasks[x].state && m'.tasks[x].space == m.tasks[x].space)
    && (KERNEL in m.tasks && KERNEL != t ==> m'.tasks[KERNEL] == m.tasks[KERNEL])
    && Chain(m'.tasks, m'.list, m'.head, m'.tail)
    && m'.spaces == m.spaces + {space} && m'.owner == m.owner[space := t]
  }

  lemma StartedBy(m: Memory, m': Memory, t: nat, space: nat)
    requires t == m.unused && t !in m.tasks && KERNEL !in m.list && KERNEL != t
    requires m'.unused == t + 1 && m'.cur == m.cur && m'.list == m.list + [t] && m'.tasks.Keys == m.tasks.Keys + {t}
    requires m'.tasks[t].state == READY && m'.tasks[t].space == space
    requires forall x :: x in m.tasks ==> m'.tasks[x].state == m.tasks[x].state && m'.tasks[x].space == m.tasks[x].space
    requires forall x :: x in m.tasks && x !in m'.list ==> m'.tasks[x] == m.tasks[x]
    requires Chain(m'.tasks, m'.list, m'.head, m'.tail) && m'.spaces == m.spaces + {space}
    requires m'.owner == m.owner[space := t]
    ensures Started(m, m', t, space)
  {
    hide Chain;
  }

  lemma StartedKeeps(m: Memory, m': Memory, t: nat, space: nat)
    requires m.Valid() && Started(m, m', t, space) && space != 0 && space !in m.spaces
    requires (m'.cr3 == m.cr3 && m'.loaded == m.loaded) || (m'.cr3 == space && m'.loaded == t)
          || (m.cur != KERNEL && m'.loaded == m.cur && m.cur in m.tasks && m'.cr3 == m.tasks[m.cur].space)
    ensures m'.Valid() && m'.Abs() == Append(m.Abs())
  {
    hide Calm, Chain, States, Memory.Owned, Memory.Loaded;
    StartedIs(m, m', t, space);
    StepKeeps(m.Abs(), Start);
    StartedOwned(m, m', t, space);
    CurrentIs(m);
    StartedLoaded(m, m', t, space);
    InvCalm(m'.Abs());
  }

  lemma StartedIs(m: Memory, m': Memory, t: nat, space: nat)
    requires m.Sane() && Started(m, m', t, space)
    ensures m'.Abs() == Append(m.Abs()) && t !in m.tasks && t != KERNEL && t != 0
    ensures Chain(m'.tasks, m'.list, m'.head, m'.tail)
  {
    hide Chain, Memory.Owned, Memory.Loaded;
    NewFacts(m);
    assert States(m'.tasks) == m.Abs().state[t := READY];
  }

  lemma StartedOwned(m: Memory, m': Memory, t: nat, space: nat)
    requires m.Owned() && Started(m, m', t, space) && space != 0 && space !in m.spaces && t !in m.tasks
    ensures m'.Owned()
  {
    hide Chain;
  }

  lemma StartedLoaded(m: Memory, m': Memory, t: nat, space: nat)
    requires m.Loaded() && Started(m, m', t, space) && t !in m.tasks && t != KERNEL
    requires (m'.cr3 == m.cr3 && m'.loaded == m.loaded) || (m'.cr3 == space && m'.loaded == t)
          || (m.cur != KERNEL && m'.loaded == m.cur && m.cur in m.tasks && m'.cr3 == m.tasks[m.cur].space)
    ensures m'.Loaded()
  {
    hide Chain;
  }

  /** The current task's new space is loaded and the old one gone. */
  lemma ExecKeeps(m: Memory, m': Memory, space: nat)
    requires m.Valid() && space != 0 && space !in m.spaces && m.cur != KERNEL && m.cur in m.tasks
    requires m' == m.(tasks := m.tasks[m.cur := m.tasks[m.cur].(space := space)], cr3 := space, loaded := m.cur,
                      spaces := m.spaces + {space} - {m.tasks[m.cur].space}, owner := m.owner[space := m.cur])
    ensures m'.Valid() && m'.Abs() == m.Abs()
  {
    hide Calm;
    assert States(m'.tasks) == States(m.tasks);
  }

  /** A space more that nobody owns. */
  lemma SpaceKept(m: Memory, space: nat)
    requires m.Valid()
    ensures m.(spaces := m.spaces + {space}).Valid()
  {
    hide Calm, Chain, States;
  }

  lemma CallerSpace(m: Memory)
    requires m.Sane()
    ensures m.cur in m.tasks && (m.tasks[m.cur].space == 0 <==> m.cur == KERNEL)
  {
  }

  lemma OwnSpace(m: Memory)
    requires m.Sane() && m.cur != KERNEL
    ensures m.cur in m.tasks && m.tasks[m.cur].space in m.spaces && m.tasks[m.cur].space != 0
  {
  }

  /** A space that does not exist is not the loaded one. */
  lemma NotMine(m: Memory, space: nat)
    requires m.Sane() && space != 0 && space !in m.spaces
    ensures space != m.cr3 && m.spaces + {space} - {space} == m.spaces
  {
  }

  lemma InvCalm(s: State)
    requires Inv(s)
    ensures Calm(s)
  {
  }

  lemma DeadCalm(s: State)
    requires Calm(s)
    ensures s.cur in s.state && Calm(s.(state := s.state[s.cur := DEAD]))
  {
  }

  lemma CollectKeeps(s: State, t: nat)
    requires Inv(s) && t in s.list && t != s.cur && s.state[t] == DEAD
    ensures Inv(Remove(s, t))
  {
    StepKeeps(s, Collect(t));
  }

  lemma NewFacts(m: Memory)
    requires Calm(m.Abs()) && Chain(m.tasks, m.list, m.head, m.tail)
    ensures m.unused !in m.tasks && m.unused !in m.list && m.unused != 0 && m.unused != KERNEL
    ensures Distinct(m.list) && 0 !in m.list && Chain(m.tasks, m.list, m.head, m.tail)
    ensures KERNEL !in m.list
  {
    assert forall t :: t in m.tasks <==> t in m.Abs().state;
  }

  lemma GrownChain(tasks: map<nat, Task>, list: seq<nat>, head: nat, tail: nat, t: nat, record: Task)
    requires Chain(tasks, list, head, tail) && t !in list
    ensures Chain(tasks[t := record], list, head, tail)
  {
  }

  lemma AppendChain(tasks: map<nat, Task>, list: seq<nat>, head: nat, tail: nat, t: nat)
    requires Chain(tasks, list, head, tail) && t in tasks && t !in list && t != 0 && Distinct(list) && 0 !in list
    ensures head == 0 <==> list == []
    ensures tail in tasks || list == []
    ensures list != [] ==> tail in list && tail != t
    ensures var tasks' := tasks[t := tasks[t].(next := 0)];
      if list == [] then Chain(tasks', [t], t, t)
      else Chain(tasks'[tail := tasks'[tail].(next := t)], list + [t], head, t)
  {
    if list != [] {
      var n := |list|;
      assert list[0] in list && tail == list[n - 1];
      forall k | 0 <= k < n - 1 ensures list[k] != tail && list[k] != t {}
    }
  }

  lemma StatesSet(tasks: map<nat, Task>, t: nat, st: TaskState)
    requires t in tasks
    ensures States(tasks[t := tasks[t].(state := st)]) == States(tasks)[t := st]
  {
  }

  lemma ChainSet(tasks: map<nat, Task>, list: seq<nat>, head: nat, tail: nat, t: nat, st: TaskState)
    requires Chain(tasks, list, head, tail) && t in tasks
    ensures Chain(tasks[t := tasks[t].(state := st)], list, head, tail)
  {
  }

  lemma ReapEnd(s: State)
    ensures ReapFrom(s, []) == s
  {
  }

  /** One step of the reaper's walk. */
  lemma ReapStep(s: State, walk: seq<nat>)
    requires Calm(s) && walk != [] && Distinct(walk) && (forall x :: x in walk ==> x in s.state)
    requires Calm(Remove(s, walk[0])) || !Reapable(s, walk[0])
    ensures Distinct(walk[1..])
    ensures (forall x :: x in walk[1..] ==> x in s.state && (Reapable(s, walk[0]) ==> x in Remove(s, walk[0]).state))
    ensures ReapFrom(s, walk) == ReapFrom(if Reapable(s, walk[0]) then Remove(s, walk[0]) else s, walk[1..])
  {
    assert walk == [walk[0]] + walk[1..] && walk[0] !in walk[1..];
  }

  lemma AllDead(s: State, d: nat)
    requires Calm(s) && d < |s.list| && FirstAlive(s.list, s.state).None?
    ensures s.state[s.list[d]] == DEAD
  {
    assert s.list[d] in s.list;
  }

  lemma ListedStates(s: State)
    requires Calm(s)
    ensures (forall t :: t in s.list ==> t in s.state) && Distinct(s.list)
  {
  }

  lemma CalmShape(s: State)
    requires Calm(s)
    ensures Shape(s)
  {
  }

  lemma CurrentIs(m: Memory)
    requires m.Sane()
    ensures m.cur in m.tasks && m.cur in m.Abs().state && m.Abs().state[m.cur] == m.tasks[m.cur].state
  {
  }

  lemma YieldCalm(s: State)
    requires Calm(s)
    ensures s.cur in s.state && Calm(Yield(s)) && Yield(s).state[s.cur] != RUNNING
  {
  }

  /** Following the current task's link gives the start of the search. */
  lemma StartIs(m: Memory)
    requires m.Sane() && m.list != []
    ensures var start := m.tasks[m.cur].next; m.cur in m.tasks
    ensures m.list[StartAt(m.list, m.cur)] == if m.tasks[m.cur].next == 0 then m.head else m.tasks[m.cur].next
  {
    if m.cur in m.list {
      var i := IndexOf(m.list, m.cur);
      assert m.tasks[m.list[i]].next == LinkOf(m.list, i);
      if i + 1 < |m.list| { assert m.list[i + 1] in m.list; }
    }
  }

  /** The list splits into the part already walked and the rest. */
  lemma WalkFacts(s: State, kept: seq<nat>, walk: seq<nat>)
    requires Calm(s) && s.list == kept + walk
    ensures Distinct(walk) && (forall x :: x in walk ==> x in s.state)
    ensures walk != [] ==>
      LinkOf(s.list, |kept|) == (if |walk| > 1 then walk[1] else 0) && s.list[|kept|] == walk[0] && walk[0] != 0
  {
    forall i, j | 0 <= i < j < |walk| ensures walk[i] != walk[j] {
      assert s.list[|kept| + i] == walk[i] && s.list[|kept| + j] == walk[j];
    }
    forall x | x in walk ensures x in s.state {
      assert x in s.list;
    }
    if walk != [] { assert walk[0] in s.list; }
  }

  lemma HeadIs(m: Memory)
    requires m.Sane()
    ensures m.head == (if m.list == [] then 0 else m.list[0])
    ensures m.tail == (if m.list == [] then 0 else m.list[|m.list| - 1])
  {
  }

  lemma RecordAt(m: Memory, k: nat)
    requires m.Sane() && k < |m.list|
    ensures m.list[k] in m.tasks && m.tasks[m.list[k]].next == LinkOf(m.list, k)
    ensures m.Abs().state[m.list[k]] == m.tasks[m.list[k]].state
  {
    hide Calm;
  }

  lemma GoneAt(list: seq<nat>, k: nat)
    requires k < |list| && Distinct(list)
    ensures list[k] !in list[..k] + list[k + 1..]
  {
  }

  lemma ListFacts(s: State, k: nat)
    requires Calm(s)
    ensures Distinct(s.list) && 0 !in s.list && KERNEL !in s.list
    ensures k < |s.list| ==> s.list[k] in s.list && s.list[k] in s.state
    ensures s.cur == KERNEL || s.cur in s.list
  {
  }

  lemma ShortChain(tasks: map<nat, Task>, list: seq<nat>, head: nat, tail: nat, t: nat)
    requires Chain(tasks, list, head, tail) && t !in list
    ensures Chain(tasks - {t}, list, head, tail)
  {
  }
}
