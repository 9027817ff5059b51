/** The round-robin scheduler (sys/scheduler.c). */
module Scheduler {
  const MAX_TASKS := 10       // SCHED_MAX_TASKS
  const QUANTUM := 4          // SCHED_QUANTUM_TICKS

  /** A slot of _tasks: NULL, a process in state RUNNING, or one in another state. */
  datatype Slot = Empty | Running | Waiting

  type Slots = s: seq<Slot> | |s| == MAX_TASKS witness seq(MAX_TASKS, i => Empty)

  datatype Choice = Idle | Task(slot: nat)

  // ---- one decision ---------------------------------------------------------------------------

  function Wrap(x: int): nat
    requires x >= 0
  {
    x % MAX_TASKS
  }

  /** The slot at distance i after cur is RUNNING. */
  predicate RunningAt(slots: Slots, cur: nat, i: nat) { slots[Wrap(i + cur)] == Running }

  /** The first RUNNING slot at distance i or more after cur; MAX_TASKS + 1 if there is none. */
  function Search(slots: Slots, cur: nat, i: nat): (r: nat)
    requires cur < MAX_TASKS && 1 <= i <= MAX_TASKS + 1
    ensures i <= r <= MAX_TASKS + 1
    ensures r <= MAX_TASKS ==> RunningAt(slots, cur, r)
    ensures forall j :: i <= j < r ==> !RunningAt(slots, cur, j)
    decreases MAX_TASKS + 1 - i
  {
    if i > MAX_TASKS || RunningAt(slots, cur, i) then i else Search(slots, cur, i + 1)
  }

  function Decide(slots: Slots, cur: nat): Choice
    requires cur < MAX_TASKS
  {
    var i := Search(slots, cur, 1);
    if i <= MAX_TASKS then Task(Wrap(i + cur)) else Idle
  }

  lemma SearchOn(slots: Slots, cur: nat, i: nat)
    requires cur < MAX_TASKS && 1 <= i <= MAX_TASKS + 1
    ensures Search(slots, cur, i) == if i > MAX_TASKS || RunningAt(slots, cur, i) then i else Search(slots, cur, i + 1)
  {
  }

  /** How many slots the search looks at to reach w. */
  function Distance(cur: nat, w: nat): (d: nat)
    requires cur < MAX_TASKS && w < MAX_TASKS
    ensures 1 <= d <= MAX_TASKS
  {
    if w > cur then w - cur else w + MAX_TASKS - cur
  }

  lemma DistanceReaches(cur: nat, w: nat)
    requires cur < MAX_TASKS && w < MAX_TASKS
    ensures Wrap(Distance(cur, w) + cur) == w
  {
  }

  /** The idle task runs exactly when no task is RUNNING. */
  lemma IdleExact(slots: Slots, cur: nat)
    requires cur < MAX_TASKS
    ensures Decide(slots, cur) == Idle <==> forall w :: 0 <= w < MAX_TASKS ==> slots[w] != Running
    ensures Decide(slots, cur).Task? ==>
              Decide(slots, cur).slot < MAX_TASKS && slots[Decide(slots, cur).slot] == Running
  {
    hide Wrap, Distance;
    var i := Search(slots, cur, 1);
    forall w | 0 <= w < MAX_TASKS && i > MAX_TASKS ensures slots[w] != Running {
      DistanceReaches(cur, w);
      assert !RunningAt(slots, cur, Distance(cur, w));
    }
    WrapInside(i + cur);
  }

  lemma WrapInside(x: nat)
    ensures Wrap(x) < MAX_TASKS
  {
  }

  /** A RUNNING task is chosen, or comes nearer. */
  lemma DecisionApproaches(slots: Slots, cur: nat, w: nat)
    requires cur < MAX_TASKS && w < MAX_TASKS && slots[w] == Running
    ensures var c := Decide(slots, cur);
            && c.Task? && c.slot < MAX_TASKS
            && (c.slot == w || Distance(c.slot, w) < Distance(cur, w))
  {
    hide Wrap;
    var i, d := Search(slots, cur, 1), Distance(cur, w);
    DistanceReaches(cur, w);
    WrapInside(i + cur);
    assert RunningAt(slots, cur, d);
    if i < d { Nearer(cur, w, i); }
  }

  lemma Nearer(cur: nat, w: nat, i: nat)
    requires cur < MAX_TASKS && w < MAX_TASKS && 1 <= i < Distance(cur, w)
    ensures Wrap(i + cur) < MAX_TASKS && Distance(Wrap(i + cur), w) == Distance(cur, w) - i
  {
  }

  // ---- decisions in a row ------------------------------------------------------------------------

  /** The current slot after a decision; the idle task leaves it alone. */
  function CurAfter(slots: Slots, cur: nat): nat
    requires cur < MAX_TASKS
    ensures CurAfter(slots, cur) < MAX_TASKS
  {
    IdleExact(slots, cur);
    match Decide(slots, cur)
    case Idle => cur
    case Task(s) => s
  }

  /** The slots w was chosen from, for each decision in a row; the other slots may change in any way
      between decisions. */
  ghost predicate ChosenWithin(history: seq<Slots>, cur: nat, w: nat)
    requires cur < MAX_TASKS
    decreases |history|
  {
    history != [] && (Decide(history[0], cur) == Task(w) || ChosenWithin(history[1..], CurAfter(history[0], cur), w))
  }

  /** A task that stays RUNNING is chosen within MAX_TASKS decisions. */
  lemma {:induction false} BoundedDecisions(history: seq<Slots>, cur: nat, w: nat)
    requires cur < MAX_TASKS && w < MAX_TASKS && |history| >= Distance(cur, w)
    requires forall i :: 0 <= i < |history| ==> history[i][w] == Running
    ensures ChosenWithin(history, cur, w)
    decreases |history|
  {
    hide Decide, Distance;
    DecisionApproaches(history[0], cur, w);
    if Decide(history[0], cur) != Task(w) {
      BoundedDecisions(history[1..], CurAfter(history[0], cur), w);
    }
  }

  lemma WithinMaxTasks(history: seq<Slots>, cur: nat, w: nat)
    requires cur < MAX_TASKS && w < MAX_TASKS && |history| >= MAX_TASKS
    requires forall i :: 0 <= i < |history| ==> history[i][w] == Running
    ensures ChosenWithin(history, cur, w)
  {
    BoundedDecisions(history, cur, w);
  }

  // ---- clock ticks -----------------------------------------------------------------------------------

  datatype State = State(slots: Slots, cur: nat, quantum: int, need: bool, level: nat, current: Choice)

  /** Tick: a clock interrupt, sched_check then sched_if_needed. Interrupt: any other interrupt. Yield:
      sched_schedule. Change: a task is added, removed, woken or put to sleep. */
  datatype Event = Tick | Interrupt | Yield | Change(slot: nat, to: Slot) | Block | Unblock

  ghost predicate Ok(s: State) { s.cur < MAX_TASKS }

  /** context_saved_next. */
  function Switched(s: State): (r: State)
    requires Ok(s)
    ensures Ok(r)
  {
    State(s.slots, CurAfter(s.slots, s.cur), QUANTUM, false, s.level, Decide(s.slots, s.cur))
  }

  /** sched_check. */
  function Checked(s: State): State {
    s.(quantum := s.quantum - 1, need := s.need || s.quantum - 1 <= 0)
  }

  /** sched_if_needed decides. */
  predicate Due(s: State) { s.need && s.level == 0 }

  ghost predicate Switches(s: State, e: Event) {
    match e
    case Tick => Due(Checked(s))
    case Interrupt => Due(s)
    case Yield => true
    case Change(_, _) => false
    case Block => false
    case Unblock => false
  }

  ghost function Next(s: State, e: Event): (r: State)
    requires Ok(s) && (e.Change? ==> e.slot < MAX_TASKS)
    ensures Ok(r)
  {
    match e
    case Tick => if Due(Checked(s)) then Switched(Checked(s)) else Checked(s)
    case Interrupt => if Due(s) then Switched(s) else s
    case Yield => Switched(s)
    case Change(i, to) => s.(slots := s.slots[i := to])
    case Block => s.(level := s.level + 1)
    case Unblock => s.(level := if s.level > 0 then s.level - 1 else 0)
  }

  /** The events leave w RUNNING. */
  ghost predicate Keeps(events: seq<Event>, w: nat) {
    forall i :: 0 <= i < |events| && events[i].Change? ==> events[i].slot < MAX_TASKS && events[i].slot != w
  }

  /** Some event hands the processor to w. */
  ghost predicate Dispatched(s: State, events: seq<Event>, w: nat)
    requires Ok(s) && Keeps(events, w)
    decreases |events|
  {
    events != [] &&
    ((Switches(s, events[0]) && Next(s, events[0]).current == Task(w))
     || Dispatched(Next(s, events[0]), events[1..], w))
  }

  /** Clock ticks that come while preemption is not blocked. */
  ghost function OpenTicks(s: State, events: seq<Event>, w: nat): nat
    requires Ok(s) && Keeps(events, w)
    decreases |events|
  {
    if events == [] then 0
    else (if events[0].Tick? && s.level == 0 then 1 else 0) + OpenTicks(Next(s, events[0]), events[1..], w)
  }

  /** Ticks w can still have to wait. */
  ghost function Wait(s: State, w: nat): (r: nat)
    requires Ok(s) && w < MAX_TASKS
    ensures r >= 1
  {
    (Distance(s.cur, w) - 1) * QUANTUM + (if s.quantum >= 1 then s.quantum else 1)
  }

  lemma SwitchedWait(s: State, w: nat)
    requires Ok(s) && w < MAX_TASKS && s.slots[w] == Running && Switched(s).current != Task(w)
    ensures Wait(Switched(s), w) < Wait(s, w) && Switched(s).slots[w] == Running
  {
    hide Decide, Distance;
    DecisionApproaches(s.slots, s.cur, w);
  }

  /** No event lengthens the wait, and an open tick shortens it, until w is chosen. */
  lemma WaitShrinks(s: State, e: Event, w: nat)
    requires Ok(s) && w < MAX_TASKS && s.slots[w] == Running
    requires e.Change? ==> e.slot < MAX_TASKS && e.slot != w
    requires !(Switches(s, e) && Next(s, e).current == Task(w))
    ensures Next(s, e).slots[w] == Running
    ensures Wait(Next(s, e), w) + (if e.Tick? && s.level == 0 then 1 else 0) <= Wait(s, w)
  {
    hide Decide, Distance, CurAfter;
    match e {
      case Tick =>
        if Due(Checked(s)) { SwitchedWait(Checked(s), w); }
      case Interrupt =>
        if Due(s) { SwitchedWait(s, w); }
      case Yield => SwitchedWait(s, w);
      case Change(_, _) =>
      case Block =>
      case Unblock =>
    }
  }

  lemma {:induction false} WaitBounds(s: State, events: seq<Event>, w: nat)
    requires Ok(s) && w < MAX_TASKS && s.slots[w] == Running && Keeps(events, w)
    requires !Dispatched(s, events, w)
    ensures OpenTicks(s, events, w) < Wait(s, w)
    decreases |events|
  {
    hide Next, Wait, Switches;
    if events != [] {
      WaitShrinks(s, events[0], w);
      WaitBounds(Next(s, events[0]), events[1..], w);
    }
  }

  /** Bounded waiting: a task that stays RUNNING is dispatched within MAX_TASKS * QUANTUM clock ticks
      that find preemption open, whatever the other tasks and interrupts do. */
  lemma BoundedWaiting(s: State, events: seq<Event>, w: nat)
    requires Ok(s) && w < MAX_TASKS && s.slots[w] == Running && Keeps(events, w) && s.quantum <= QUANTUM
    requires OpenTicks(s, events, w) >= MAX_TASKS * QUANTUM
    ensures Dispatched(s, events, w)
  {
    hide Dispatched, OpenTicks;
    if !Dispatched(s, events, w) {
      WaitBounds(s, events, w);
    }
  }

  // ---- the scheduler ------------------------------------------------------------------------------------

  class Sched {
    const tasks: array<Slot>
    var cur: int
    var quantum: int
    var need: bool
    var started: bool
    var level: nat
    var current: Choice

    ghost predicate Valid()
      reads this, tasks
    {
      tasks.Length == MAX_TASKS && started && 0 <= cur < MAX_TASKS
    }

    ghost function View(): State
      requires tasks.Length == MAX_TASKS && cur >= 0
      reads this, tasks
    {
      State(tasks[..], cur, quantum, need, level, current)
    }

    /** sched_init followed by sched_start. */
    constructor ()
      ensures Valid() && fresh(tasks) && forall i :: 0 <= i < MAX_TASKS ==> tasks[i] == Empty
      ensures cur == 0 && quantum == QUANTUM && need && level == 0 && current == Idle
    {
      tasks := new Slot[MAX_TASKS](i => Empty);
      started, cur, quantum, need, level, current := true, 0, QUANTUM, true, 0, Idle;
    }

    /** sched_add_task. */
    method AddTask() returns (slot: int)
      requires Valid()
      modifies tasks
      ensures Valid()
      ensures slot == -1 ==> tasks[..] == old(tasks[..]) && forall i :: 0 <= i < MAX_TASKS ==> tasks[i] != Empty
      ensures slot != -1 ==> 0 <= slot < MAX_TASKS && old(tasks[slot]) == Empty
                             && (forall j :: 0 <= j < slot ==> old(tasks[j]) != Empty)
                             && View() == Next(old(View()), Change(slot, Running))
    {
      var i := 0;
      while i < MAX_TASKS && tasks[i] != Empty
        invariant 0 <= i <= MAX_TASKS && forall j :: 0 <= j < i ==> tasks[j] != Empty
      {
        i := i + 1;
      }
      slot := -1;
      if i < MAX_TASKS {
        tasks[i] := Running;
        slot := i;
      }
    }

    method NextSlot(i: nat, c: nat) returns (next: nat)
      ensures next == Wrap(i + c) && next < MAX_TASKS
    {
      next := (i + c) % MAX_TASKS;
    }

    /** context_saved_next. */
    method ContextSavedNext()
      requires Valid()
      modifies `cur, `quantum, `need, `current
      ensures Valid() && View() == Switched(old(View()))
    {
      hide Wrap, Search;
      var i: nat, c: nat := 1, cur;
      ghost var slots: Slots := tasks[..];
      IdleExact(slots, c);
      var next := NextSlot(i, c);
      while i <= MAX_TASKS && tasks[next] != Running
        invariant 1 <= i <= MAX_TASKS + 1 && next == Wrap(i + c) && next < MAX_TASKS
        invariant Search(slots, c, i) == Search(slots, c, 1)
        modifies {}
      {
        SearchOn(slots, c, i);
        i := i + 1;
        next := NextSlot(i, c);
      }
      SearchOn(slots, c, i);
      quantum := QUANTUM;
      need := false;
      if i <= MAX_TASKS {
        cur := next;
        current := Task(next);
      } else {
        current := Idle;
      }
    }

    /** sched_check. */
    method Check()
      requires Valid()
      modifies `quantum, `need
      ensures Valid() && View() == Checked(old(View()))
    {
      if started {
        quantum := quantum - 1;
        if quantum <= 0 {
          need := true;
        }
      }
    }

    /** sched_if_needed. */
    method IfNeeded()
      requires Valid()
      modifies `cur, `quantum, `need, `current
      ensures Valid() && View() == Next(old(View()), Interrupt)
    {
      if started && need && level <= 0 {
        ContextSavedNext();
      }
    }

    /** A clock interrupt. */
    method ClockTick()
      requires Valid()
      modifies `cur, `quantum, `need, `current
      ensures Valid() && View() == Next(old(View()), Tick)
    {
      Check();
      IfNeeded();
    }

    /** sched_preempt_unblock. */
    method PreemptUnblock()
      requires Valid()
      modifies `level
      ensures Valid() && View() == Next(old(View()), Unblock)
    {
      var l: int := level - 1;
      if l < 0 {
        l := 0;
      }
      level := l;
    }
  }
}
