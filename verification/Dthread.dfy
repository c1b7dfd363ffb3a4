/** The scheduler of cooperative threads: a table of slots that doubles when it is full,
    and control that passes between threads and the main context. */
module Dthread {

  const DEFAULT_NUM: nat := 16

  datatype Status = DEAD | READY | RUNNING | SUSPEND

  datatype Slot = Empty | Thread(status: Status, parent: int)

  /** A scheduler: its counter, the running thread (-1 for the main context) and the
      slots, whose number is the capacity. */
  datatype State = State(count: int, running: int, dt: seq<Slot>)

  const OPEN: State := State(0, -1, seq(DEFAULT_NUM, _ => Empty))

  predicate Live(slot: Slot) {
    slot.Thread? && slot.status != DEAD
  }

  function LiveCount(dt: seq<Slot>): nat {
    if dt == [] then 0 else LiveCount(dt[..|dt| - 1]) + if Live(dt[|dt| - 1]) then 1 else 0
  }

  // ----- The four operations -----

  /** The first slot that can be taken; the last one if there is none. */
  function FirstFree(dt: seq<Slot>, i: nat): (id: nat)
    requires i < |dt|
    ensures i <= id < |dt|
    decreases |dt| - i
  {
    if !Live(dt[i]) || i == |dt| - 1 then i else FirstFree(dt, i + 1)
  }

  function Grown(dt: seq<Slot>): seq<Slot> {
    dt + seq(|dt|, _ => Empty)
  }

  function CreateId(s: State): nat
    requires s.dt != []
  {
    if s.count >= |s.dt| then |s.dt| else FirstFree(s.dt, 0)
  }

  function AfterCreate(s: State): State
    requires s.dt != []
  {
    var dt := if s.count >= |s.dt| then Grown(s.dt) else s.dt;
    State(s.count + 1, s.running, dt[CreateId(s) := Thread(READY, -1)])
  }

  predicate InTable(s: State, id: int) {
    0 <= id < |s.dt|
  }

  predicate ThreadRuns(s: State) {
    InTable(s, s.running) && s.dt[s.running].Thread?
  }

  /** The thread that runs, if any, is put aside. */
  function Suspended(s: State): seq<Slot> {
    if ThreadRuns(s) then s.dt[s.running := s.dt[s.running].(status := SUSPEND)] else s.dt
  }

  datatype Outcome = Goes(state: State) | Aborts

  /** Control goes to thread `id`; an empty slot is passed over, and a thread that runs
      or is dead cannot be resumed. */
  function AfterResume(s: State, id: int): Outcome {
    if !InTable(s, id) then Aborts
    else match s.dt[id]
      case Empty => Goes(s)
      case Thread(READY, parent) =>
        Goes(State(s.count, id, Suspended(s)[id := Thread(RUNNING, if ThreadRuns(s) then s.running else parent)]))
      case Thread(SUSPEND, parent) =>
        Goes(State(s.count, id, Suspended(s.(dt := s.dt[id := Thread(RUNNING, parent)]))))
      case _ => Aborts
  }

  function AfterYield(s: State): Outcome {
    if !ThreadRuns(s) then Aborts
    else Goes(State(s.count, -1, s.dt[s.running := s.dt[s.running].(status := SUSPEND)]))
  }

  /** The running thread returns from its function; control goes to whoever started it. */
  function AfterFinish(s: State): Outcome {
    if !ThreadRuns(s) then Aborts
    else Goes(State(s.count - 1, s.dt[s.running].parent, s.dt[s.running := s.dt[s.running].(status := DEAD)]))
  }

  /** A slot that is not there, and a thread that runs or is dead, stop the program; an empty
      slot is passed over; and otherwise control is with the thread. */
  lemma ResumeIs(s: State, id: int)
    ensures AfterResume(s, id).Aborts? <==>
            id < 0 || id >= |s.dt| || (s.dt[id].Thread? && s.dt[id].status in {RUNNING, DEAD})
    ensures AfterResume(s, id).Goes? ==>
              var t := AfterResume(s, id).state;
              if s.dt[id].Empty? then t == s
              else && |t.dt| == |s.dt| && t.running == id && t.count == s.count && t.dt[id].Thread?
                   && (s.running != id ==> t.dt[id].status == RUNNING)
  {
  }

  /** Yielding and finishing need a thread that runs. */
  lemma LeaveIs(s: State)
    ensures AfterYield(s).Aborts? <==> !ThreadRuns(s)
    ensures AfterFinish(s).Aborts? <==> !ThreadRuns(s)
    ensures ThreadRuns(s) ==>
              && AfterYield(s).state.running == -1 && AfterYield(s).state.dt[s.running].status == SUSPEND
              && AfterFinish(s).state.running == s.dt[s.running].parent
              && AfterFinish(s).state.dt[s.running].status == DEAD
  {
  }

  // ----- Runs -----

  datatype Event = Create | Resume(id: int) | Yield | Finish

  function Step(s: State, e: Event): Outcome
    requires s.dt != []
  {
    match e
    case Create => Goes(AfterCreate(s))
    case Resume(id) => AfterResume(s, id)
    case Yield => AfterYield(s)
    case Finish => AfterFinish(s)
  }

  /** Some live thread was started by thread p. */
  predicate HasChild(dt: seq<Slot>, p: int) {
    exists i :: 0 <= i < |dt| && Live(dt[i]) && dt[i].parent == p
  }

  /** What every state of an orderly run satisfies. */
  ghost predicate Consistent(s: State) {
    && s.dt != []
    && s.count == LiveCount(s.dt)
    && (s.running == -1 || (InTable(s, s.running) && Started(s.dt[s.running])))
    && (forall i :: 0 <= i < |s.dt| && Live(s.dt[i]) ==> ParentOk(s.dt, i))
    && (forall i :: 0 <= i < |s.dt| && s.dt[i].Thread? && s.dt[i].status == RUNNING ==> i == s.running)
  }

  predicate Started(slot: Slot) {
    slot.Thread? && (slot.status == RUNNING || slot.status == SUSPEND)
  }

  /** The thread was started from the main context, or by a thread that is still there. */
  predicate ParentOk(dt: seq<Slot>, i: nat)
    requires i < |dt| && dt[i].Thread?
  {
    var p := dt[i].parent;
    p == -1 || (0 <= p < |dt| && p != i && Started(dt[p]))
  }

  /** Threads finish after those they started. */
  ghost predicate Orderly(s: State, events: seq<Event>)
    decreases |events|
  {
    events == [] ||
    (&& s.dt != []
     && (events[0].Finish? ==> s.running == -1 || !HasChild(s.dt, s.running))
     && (Step(s, events[0]).Goes? ==> Orderly(Step(s, events[0]).state, events[1..])))
  }

  function Run(s: State, events: seq<Event>): Outcome
    requires s.dt != []
    decreases |events|
  {
    if events == [] then Goes(s)
    else match Step(s, events[0])
      case Aborts => Aborts
      case Goes(t) => if t.dt == [] then Aborts else Run(t, events[1..])
  }

  // ----- Counting -----

  lemma {:induction false} CountUpdate(dt: seq<Slot>, i: nat, slot: Slot)
    requires i < |dt|
    ensures LiveCount(dt[i := slot]) ==
            LiveCount(dt) - (if Live(dt[i]) then 1 else 0) + (if Live(slot) then 1 else 0)
    decreases |dt|
  {
    var init := dt[..|dt| - 1];
    if i == |dt| - 1 {
      assert dt[i := slot][..|dt| - 1] == init;
    } else {
      assert dt[i := slot][..|dt| - 1] == init[i := slot];
      CountUpdate(init, i, slot);
    }
  }

  lemma {:induction false} CountGrown(dt: seq<Slot>, n: nat)
    ensures LiveCount(dt + seq(n, _ => Empty)) == LiveCount(dt)
    decreases n
  {
    if n == 0 {
      assert dt + seq(n, _ => Empty) == dt;
    } else {
      var more := dt + seq(n, _ => Empty);
      assert more[..|more| - 1] == dt + seq(n - 1, _ => Empty);
      CountGrown(dt, n - 1);
    }
  }

  /** The count is the capacity exactly when no slot can be taken. */
  lemma {:induction false} CountFull(dt: seq<Slot>)
    ensures LiveCount(dt) <= |dt|
    ensures LiveCount(dt) == |dt| <==> forall i :: 0 <= i < |dt| ==> Live(dt[i])
  {
    if dt != [] {
      CountFull(dt[..|dt| - 1]);
    }
  }

  lemma {:induction false} FirstFreeIs(dt: seq<Slot>, i: nat)
    requires i < |dt|
    ensures var id := FirstFree(dt, i);
            Live(dt[id]) ==> forall j :: i <= j < |dt| ==> Live(dt[j])
    decreases |dt| - i
  {
    if Live(dt[i]) && i < |dt| - 1 {
      FirstFreeIs(dt, i + 1);
    }
  }

  /** A new thread takes the slot of one that lives exactly when every slot is live and
      the counter does not say so. */
  lemma CreateReplaces(s: State)
    requires s.dt != []
    ensures InTable(s, CreateId(s)) && Live(s.dt[CreateId(s)]) <==>
            s.count < |s.dt| && forall i :: 0 <= i < |s.dt| ==> Live(s.dt[i])
  {
    FirstFreeIs(s.dt, 0);
  }

  /** With a right counter that never happens. */
  lemma CreateIsFree(s: State)
    requires s.dt != [] && s.count == LiveCount(s.dt)
    ensures InTable(s, CreateId(s)) ==> !Live(s.dt[CreateId(s)])
  {
    CreateReplaces(s);
    CountFull(s.dt);
  }

  // ----- Every step keeps the state consistent -----

  lemma CreateKeeps(s: State)
    requires Consistent(s)
    ensures Consistent(AfterCreate(s))
  {
    hide LiveCount;
    CreateIsFree(s);
    var dt := if s.count >= |s.dt| then Grown(s.dt) else s.dt;
    var id := CreateId(s);
    CountGrown(s.dt, |s.dt|);
    CountUpdate(dt, id, Thread(READY, -1));
    assert !Live(dt[id]);
  }

  lemma ResumeKeeps(s: State, id: int)
    requires Consistent(s) && AfterResume(s, id).Goes?
    ensures Consistent(AfterResume(s, id).state)
  {
    hide LiveCount;
    var t := AfterResume(s, id).state;
    if s.dt[id].Thread? {
      var parent := if s.dt[id].status == READY && s.running != -1 then s.running else s.dt[id].parent;
      var mid := s.dt[id := Thread(RUNNING, parent)];
      CountUpdate(s.dt, id, Thread(RUNNING, parent));
      if s.running != -1 {
        CountUpdate(mid, s.running, mid[s.running].(status := SUSPEND));
        assert t.dt == mid[s.running := mid[s.running].(status := SUSPEND)];
      } else {
        assert t.dt == mid;
      }
      StartedStays(s, t, id);
    }
  }

  /** Resuming changes no parent but the resumed thread's, and ends no thread. */
  lemma StartedStays(s: State, t: State, id: int)
    requires Consistent(s) && AfterResume(s, id) == Goes(t) && s.dt[id].Thread?
    ensures |t.dt| == |s.dt|
    ensures forall i :: 0 <= i < |s.dt| && Started(s.dt[i]) ==> Started(t.dt[i])
    ensures forall i :: 0 <= i < |s.dt| && i != id && Live(s.dt[i]) ==> t.dt[i].Thread? && t.dt[i].parent == s.dt[i].parent
    ensures forall i :: 0 <= i < |s.dt| ==> (Live(s.dt[i]) <==> Live(t.dt[i]))
    ensures forall i :: 0 <= i < |s.dt| && t.dt[i].Thread? && t.dt[i].status == RUNNING ==> i == id
  {
    hide LiveCount;
  }

  lemma YieldKeeps(s: State)
    requires Consistent(s) && AfterYield(s).Goes?
    ensures Consistent(AfterYield(s).state)
  {
    hide LiveCount;
    CountUpdate(s.dt, s.running, s.dt[s.running].(status := SUSPEND));
  }

  /** Finishing keeps the state consistent exactly when the thread has no child left. */
  lemma FinishKeeps(s: State)
    requires Consistent(s) && AfterFinish(s).Goes?
    ensures Consistent(AfterFinish(s).state) <==> !HasChild(s.dt, s.running)
  {
    hide LiveCount;
    var t := AfterFinish(s).state;
    CountUpdate(s.dt, s.running, s.dt[s.running].(status := DEAD));
    if HasChild(s.dt, s.running) {
      var i :| 0 <= i < |s.dt| && Live(s.dt[i]) && s.dt[i].parent == s.running;
      assert ParentOk(s.dt, i) && !ParentOk(t.dt, i);
    }
  }

  /** The counter stays right exactly when the thread that finishes was alive. */
  lemma FinishCounts(s: State)
    requires s.count == LiveCount(s.dt) && AfterFinish(s).Goes?
    ensures var t := AfterFinish(s).state; t.count == LiveCount(t.dt) <==> Live(s.dt[s.running])
  {
    hide LiveCount;
    CountUpdate(s.dt, s.running, s.dt[s.running].(status := DEAD));
  }

  lemma StepKeeps(s: State, e: Event)
    requires Consistent(s) && Step(s, e).Goes? && (e.Finish? ==> s.running == -1 || !HasChild(s.dt, s.running))
    ensures Consistent(Step(s, e).state)
  {
    hide Consistent, AfterCreate, AfterResume, AfterYield, HasChild;
    match e
    case Create => CreateKeeps(s);
    case Resume(id) => ResumeKeeps(s, id);
    case Yield => YieldKeeps(s);
    case Finish => FinishKeeps(s);
  }

  lemma OpenConsistent()
    ensures Consistent(OPEN) && |OPEN.dt| == 16 && OPEN.count == 0 && OPEN.running == -1
  {
    CountGrown([], DEFAULT_NUM);
    assert [] + seq(DEFAULT_NUM, _ => Empty) == OPEN.dt;
  }

  lemma {:induction false} RunKeeps(s: State, events: seq<Event>)
    requires Consistent(s) && Orderly(s, events) && Run(s, events).Goes?
    ensures Consistent(Run(s, events).state)
    decreases |events|
  {
    hide Step;
    if events != [] {
      StepKeeps(s, events[0]);
      RunKeeps(Step(s, events[0]).state, events[1..]);
    }
  }

  /** In every orderly run of a scheduler the counter is the number of live slots, so that
      a new thread never takes the slot of one that lives. */
  lemma OrderlyRun(events: seq<Event>)
    requires Orderly(OPEN, events) && Run(OPEN, events).Goes?
    ensures var s := Run(OPEN, events).state;
            Consistent(s) && (InTable(s, CreateId(s)) ==> !Live(s.dt[CreateId(s)]))
  {
    hide Run, Orderly, CreateId;
    OpenConsistent();
    RunKeeps(OPEN, events);
    CreateIsFree(Run(OPEN, events).state);
  }

  /** A live thread stays in its slot until it finishes itself. */
  lemma LiveStays(s: State, e: Event, i: nat)
    requires Consistent(s) && Step(s, e).Goes? && i < |s.dt| && Live(s.dt[i]) && !(e.Finish? && i == s.running)
    ensures var t := Step(s, e).state; i < |t.dt| && Live(t.dt[i])
    ensures e.Create? ==> Step(s, e).state.dt[i] == s.dt[i]
  {
    hide LiveCount;
    if e.Create? {
      CreateIsFree(s);
    }
  }

  // ----- When a thread finishes before one it started -----

  lemma {:induction false} RunAppend(s: State, first: seq<Event>, more: seq<Event>)
    requires s.dt != [] && Run(s, first).Goes? && Run(s, first).state.dt != []
    ensures Run(s, first + more) == Run(Run(s, first).state, more)
    decreases |first|
  {
    hide Step;
    if first == [] {
      assert first + more == more;
    } else {
      assert (first + more)[1..] == first[1..] + more;
      RunAppend(Step(s, first[0]).state, first[1..], more);
    }
  }

  /** A table with threads in the first two slots and nothing else. */
  function Two(a: Slot, b: Slot): (r: seq<Slot>)
    ensures |r| == DEFAULT_NUM && r[0] == a && r[1] == b
  {
    [a, b] + seq(DEFAULT_NUM - 2, _ => Empty)
  }

  const START: seq<Event> := [Create, Create, Resume(0), Resume(1), Yield]
  const EARLY: seq<Event> := [Resume(0), Finish, Resume(1), Finish, Finish]

  lemma StartRun()
    ensures Run(OPEN, START) == Goes(State(2, -1, Two(Thread(SUSPEND, -1), Thread(SUSPEND, 0))))
  {
    var s1 := AfterCreate(OPEN);
    assert s1.dt == Two(Thread(READY, -1), Empty);
    var s2 := AfterCreate(s1);
    assert FirstFree(s1.dt, 0) == 1;
    assert s2.dt == Two(Thread(READY, -1), Thread(READY, -1));
    StartRest(s2);
    assert START[1..][1..] == [Resume(0), Resume(1), Yield];
  }

  lemma StartRest(s: State)
    requires s == State(2, -1, Two(Thread(READY, -1), Thread(READY, -1)))
    ensures Run(s, [Resume(0), Resume(1), Yield]) == Goes(State(2, -1, Two(Thread(SUSPEND, -1), Thread(SUSPEND, 0))))
  {
  }

  lemma EarlyRun()
    ensures Run(State(2, -1, Two(Thread(SUSPEND, -1), Thread(SUSPEND, 0))), EARLY)
            == Goes(State(-1, -1, Two(Thread(DEAD, -1), Thread(DEAD, 0))))
  {
  }

  /** Thread 0 starts thread 1, which yields, and finishes before it. When thread 1
      finishes, control goes back to thread 0, which finishes again: the counter is below
      zero and no thread is alive. */
  lemma EarlyFinishMiscounts()
    ensures Run(OPEN, START + EARLY).Goes?
    ensures var s := Run(OPEN, START + EARLY).state;
            s.count == -1 && |s.dt| == DEFAULT_NUM && forall i :: 0 <= i < |s.dt| ==> !Live(s.dt[i])
  {
    hide Run;
    StartRun();
    RunAppend(OPEN, START, EARLY);
    EarlyRun();
  }

  // ----- What a low counter leads to -----

  function Creates(n: nat): seq<Event> {
    if n == 0 then [] else [Create] + Creates(n - 1)
  }

  /** Once the counter is below the number of live threads, as many threads as there are
      free slots, and one more, replace a live thread. */
  lemma {:induction false} MiscountReplaces(s: State)
    requires s.dt != [] && s.count < LiveCount(s.dt)
    ensures LiveCount(s.dt) <= |s.dt|
    ensures var run := Run(s, Creates(|s.dt| - LiveCount(s.dt)));
            && run.Goes? && run.state.dt != []
            && InTable(run.state, CreateId(run.state)) && Live(run.state.dt[CreateId(run.state)])
    decreases |s.dt| - LiveCount(s.dt)
  {
    hide LiveCount;
    CountFull(s.dt);
    CreateReplaces(s);
    if LiveCount(s.dt) < |s.dt| {
      var t := AfterCreate(s);
      CountUpdate(s.dt, CreateId(s), Thread(READY, -1));
      MiscountReplaces(t);
      var n := |s.dt| - LiveCount(s.dt);
      assert Creates(n)[1..] == Creates(n - 1);
    }
  }

  /** So after the early finish 17 new threads lose one. */
  lemma EarlyFinishReplaces()
    ensures var run := Run(OPEN, START + EARLY + Creates(DEFAULT_NUM));
            && run.Goes? && run.state.dt != []
            && InTable(run.state, CreateId(run.state)) && Live(run.state.dt[CreateId(run.state)])
  {
    hide Run, Creates, CreateId;
    EarlyFinishMiscounts();
    var s := Run(OPEN, START + EARLY).state;
    NoneLive(s.dt);
    MiscountReplaces(s);
    RunAppend(OPEN, START + EARLY, Creates(DEFAULT_NUM));
  }

  lemma {:induction false} NoneLive(dt: seq<Slot>)
    requires forall i :: 0 <= i < |dt| ==> !Live(dt[i])
    ensures LiveCount(dt) == 0
  {
    if dt != [] {
      NoneLive(dt[..|dt| - 1]);
    }
  }

  // ----- The scheduler object -----

  class ThreadObject {
    var status: Status
    var parent: int

    constructor ()
      ensures status == READY && parent == -1
    {
      status, parent := READY, -1;
    }
  }

  ghost function SlotOf(t: ThreadObject?): Slot
    reads t
  {
    if t == null then Empty else Thread(t.status, t.parent)
  }

  /** The table of thread pointers, which is reallocated when it doubles, and the threads,
      which are changed in place. */
  class Scheduler {
    var nDthread: int
    var cap: nat
    var runningId: int
    var dt: array<ThreadObject?>
    /** Every thread ever created. */
    ghost var threads: set<ThreadObject>

    /** No two slots share a thread. */
    ghost predicate Valid()
      reads this, dt
    {
      && cap == dt.Length > 0
      && (forall i :: 0 <= i < cap ==> dt[i] == null || dt[i] in threads)
      && (forall i, j :: 0 <= i < j < cap ==> dt[i] == null || dt[i] != dt[j])
    }

    ghost function Slots(): (s: seq<Slot>)
      requires Valid()
      reads this, dt, threads
      ensures |s| == cap && forall i :: 0 <= i < cap ==> s[i] == SlotOf(dt[i])
    {
      seq(cap, i requires Valid() && 0 <= i < cap reads this, dt, threads => SlotOf(dt[i]))
    }

    ghost function Now(): State
      requires Valid()
      reads this, dt, threads
    {
      State(nDthread, runningId, Slots())
    }

    constructor ()
      ensures Valid() && Now() == OPEN && fresh(dt) && threads == {}
    {
      nDthread, cap, runningId := 0, DEFAULT_NUM, -1;
      dt := new ThreadObject?[DEFAULT_NUM](_ => null);
      threads := {};
      new;
      assert Slots() == OPEN.dt;
    }

    method Create() returns (id: nat)
      requires Valid()
      modifies this, dt
      ensures Valid() && (dt == old(dt) || fresh(dt))
      ensures forall t :: t in threads ==> t in old(threads) || fresh(t)
      ensures id == CreateId(old(Now())) && Now() == AfterCreate(old(Now()))
    {
      hide FirstFree;
      if nDthread >= cap {
        id := cap;
        Double();
      } else {
        id := Search();
      }
      Fill(id);
      nDthread := nDthread + 1;
    }

    /** The table in a block of twice the size, whose new half is cleared. */
    method Double()
      requires Valid()
      modifies this`dt, this`cap
      ensures Valid() && fresh(dt) && cap == 2 * old(cap) && Slots() == Grown(old(Slots()))
    {
      var block := new ThreadObject?[cap * 2](_ => null);
      for i := 0 to cap
        invariant forall j :: 0 <= j < i ==> block[j] == dt[j]
        invariant forall j :: i <= j < block.Length ==> block[j] == null
        modifies block
      {
        block[i] := dt[i];
      }
      dt := block;
      cap := cap * 2;
    }

    /** The scan for a slot. */
    method Search() returns (id: nat)
      requires Valid()
      ensures id == FirstFree(Slots(), 0)
    {
      id := 0;
      var i := 0;
      while i < cap
        invariant 0 <= i <= cap && FirstFree(Slots(), 0) == if i < cap then FirstFree(Slots(), i) else cap - 1
        invariant i > 0 ==> id == i - 1
      {
        id := (i + cap) % cap;
        WrapsTo(i, cap);
        if dt[id] == null || dt[id].status == DEAD {
          break;
        }
        i := i + 1;
      }
    }

    /** A new thread in the slot; a dead one there is released. */
    method Fill(id: nat)
      requires Valid() && id < cap
      modifies this`threads, dt
      ensures Valid() && (forall t :: t in threads ==> t in old(threads) || fresh(t))
      ensures Slots() == old(Slots())[id := Thread(READY, -1)]
    {
      if dt[id] != null && dt[id].status == DEAD {
        dt[id] := null;
      }
      var t := new ThreadObject();
      dt[id] := t;
      threads := threads + {t};
    }

    /** False stands for an assertion of the source that fails. */
    method Resume(id: int) returns (ok: bool)
      requires Valid()
      modifies this`runningId, threads
      ensures Valid() && if ok then AfterResume(old(Now()), id) == Goes(Now()) else AfterResume(old(Now()), id) == Aborts
    {
      if !(0 <= id < cap) {
        return false;
      }
      var running: ThreadObject? := null;
      if 0 <= runningId < cap {
        running := dt[runningId];
      }
      var thread := dt[id];
      if thread == null {
        return true;
      }
      match thread.status
      case READY =>
        if running != null {
          thread.parent := runningId;
          running.status := SUSPEND;
        }
        runningId := id;
        thread.status := RUNNING;
        return true;
      case SUSPEND =>
        runningId := id;
        thread.status := RUNNING;
        if running != null {
          running.status := SUSPEND;
        }
        return true;
      case _ => return false;
    }

    method Yield() returns (ok: bool)
      requires Valid()
      modifies this`runningId, threads
      ensures Valid() && if ok then AfterYield(old(Now())) == Goes(Now()) else AfterYield(old(Now())) == Aborts
    {
      if !(0 <= runningId < cap) || dt[runningId] == null {
        return false;
      }
      dt[runningId].status := SUSPEND;
      runningId := -1;
      ok := true;
    }

    method Finish() returns (ok: bool)
      requires Valid()
      modifies this`nDthread, this`runningId, threads
      ensures Valid() && if ok then AfterFinish(old(Now())) == Goes(Now()) else AfterFinish(old(Now())) == Aborts
    {
      if !(0 <= runningId < cap) || dt[runningId] == null {
        return false;
      }
      var thread := dt[runningId];
      thread.status := DEAD;
      nDthread := nDthread - 1;
      runningId := thread.parent;
      ok := true;
    }

    /** A whole run: the table of objects goes through the states of the transition system,
        and in an orderly run from a consistent state it ends in one. */
    method Play(events: seq<Event>) returns (ok: bool)
      requires Valid()
      modifies this, dt, threads
      ensures Valid() && if ok then Run(old(Now()), events) == Goes(Now()) else Run(old(Now()), events) == Aborts
      ensures ok && old(Consistent(Now()) && Orderly(Now(), events)) ==> Consistent(Now())
    {
      hide AfterCreate, AfterResume, AfterYield, AfterFinish, Consistent, Orderly;
      ghost var s := Now();
      assert events[0..] == events;
      for i := 0 to |events|
        invariant Valid() && (dt == old(dt) || fresh(dt)) && (forall t :: t in threads ==> t in old(threads) || fresh(t))
        invariant Run(s, events) == Run(Now(), events[i..])
      {
        assert events[i..][0] == events[i] && events[i..][1..] == events[i + 1..];
        ok := Do(events[i]);
        if !ok {
          return;
        }
      }
      if Consistent(s) && Orderly(s, events) {
        RunKeeps(s, events);
      }
      ok := true;
    }

    method Do(e: Event) returns (ok: bool)
      requires Valid()
      modifies this, dt, threads
      ensures Valid() && (dt == old(dt) || fresh(dt)) && (forall t :: t in threads ==> t in old(threads) || fresh(t))
      ensures if ok then Step(old(Now()), e) == Goes(Now()) else Step(old(Now()), e) == Aborts
    {
      hide AfterCreate, AfterResume, AfterYield, AfterFinish;
      match e
      case Create =>
        var _ := Create();
        ok := true;
      case Resume(id) => ok := Resume(id);
      case Yield => ok := Yield();
      case Finish => ok := Finish();
    }
  }

  lemma WrapsTo(i: nat, cap: nat)
    requires i < cap
    ensures (i + cap) % cap == i
  {
  }
}
