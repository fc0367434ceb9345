/** The state behind the timer interrupt as a function of what happened: each part of it in terms of the events
    alone, with no state in between. */
module SchedulerHistory {
  import opened Common
  import opened SchedulerSpec

  function Before(es: seq<Event>): (r: seq<Event>)
    requires es != []
    ensures |r| == |es| - 1
  {
    es[..|es| - 1]
  }

  function Last(es: seq<Event>): Event
    requires es != []
  {
    es[|es| - 1]
  }

  // ---------------------------------------------------------------- what was created

  /** Threads are numbered in the order of their creation, and so are their tasks; there is one to start with. */
  function Threads(es: seq<Event>): nat {
    if es == [] then 1 else Threads(Before(es)) + if Last(es).NewThread? then 1 else 0
  }

  /** Processes use up a number even if they could not be created. */
  function Processes(es: seq<Event>): nat {
    if es == [] then 1 else Processes(Before(es)) + if Last(es).NewProcess? then 1 else 0
  }

  predicate MakesProcess(es: seq<Event>, pid: nat)
    requires es != []
  {
    Last(es).NewProcess? && Last(es).page && Processes(Before(es)) == pid
  }

  predicate MakesThread(es: seq<Event>, tid: nat)
    requires es != []
  {
    Last(es).NewThread? && Threads(Before(es)) == tid
  }

  predicate Made(es: seq<Event>, pid: nat) {
    if es == [] then pid == 0 else MakesProcess(es, pid) || Made(Before(es), pid)
  }

  /** The threads created for a process. */
  function Members(es: seq<Event>, pid: nat): set<nat> {
    if es == [] then if pid == 0 then {0} else {}
    else if MakesProcess(es, pid) then {}
    else Members(Before(es), pid) + if Last(es).NewThread? && Last(es).pid == pid then {Threads(Before(es))} else {}
  }

  /** A flag is what the last event that names it says: the creation, or a change. */
  predicate ProcessFlag(es: seq<Event>, pid: nat) {
    if es == [] then false
    else if MakesProcess(es, pid) then Last(es).noPreempt
    else if Last(es).SetProcessFlag? && Last(es).pid == pid then Last(es).noPreempt
    else ProcessFlag(Before(es), pid)
  }

  predicate ThreadFlag(es: seq<Event>, tid: nat) {
    if es == [] then false
    else if MakesThread(es, tid) then Last(es).noPreempt
    else if Last(es).SetThreadFlag? && Last(es).tid == tid then Last(es).noPreempt
    else ThreadFlag(Before(es), tid)
  }

  /** The context a task was created with: the function it starts in and its stack. */
  function Created(es: seq<Event>, id: nat): Context {
    if es == [] then Context([], 0, 0)
    else if MakesThread(es, id) then Context([], Last(es).init, Last(es).stack)
    else Created(Before(es), id)
  }

  function Entry(es: seq<Event>, id: nat): nat {
    if es == [] then 0 else if MakesThread(es, id) then Last(es).entry else Entry(Before(es), id)
  }

  // ---------------------------------------------------------------- who runs

  /** All locks are free, and neither the kernel's flag nor that of the current thread is set. */
  predicate Asks(es: seq<Event>, t: Tick)
    decreases |es|, 1
  {
    t.schedulerFree && t.processFree && t.threadFree && !ProcessFlag(es, 0) && !ThreadFlag(es, Current(es))
  }

  /** The tick takes the processor from the current task. */
  predicate Preempts(es: seq<Event>, t: Tick)
    decreases |es|, 2
  {
    Asks(es, t) && t.next.Some? && t.next.value != Current(es)
  }

  /** The task that the last tick that took the processor gave it to. */
  function Current(es: seq<Event>): nat
    decreases |es|, 0
  {
    if es == [] then 0
    else if Last(es).OnTick? && Preempts(Before(es), Last(es).tick) then Last(es).tick.next.value
    else Current(Before(es))
  }

  /** Some tick named a task that was never created, or some thread was created for a process that was not. */
  predicate Panicked(es: seq<Event>) {
    es != [] && (
      || Panicked(Before(es))
      || (Last(es).NewThread? && !Made(Before(es), Last(es).pid))
      || (Last(es).OnTick? && Preempts(Before(es), Last(es).tick) &&
          Last(es).tick.next.value >= Threads(Before(es))))
  }

  predicate SwitchesOut(es: seq<Event>, id: nat)
    requires es != []
  {
    Last(es).OnTick? && Preempts(Before(es), Last(es).tick) && Current(Before(es)) == id
  }

  /** The context of the frame at which a task was last switched out, if it ever was. */
  function LastOut(es: seq<Event>, id: nat): Option<Context> {
    if es == [] then None
    else if SwitchesOut(es, id) then Some(Last(es).tick.frame.ctx)
    else LastOut(Before(es), id)
  }

  /** The ticks since the last one that asked for the next task that found a lock taken or the thread's flag set. */
  function Failed(es: seq<Event>): nat {
    if es == [] then 0
    else if !Last(es).OnTick? || !Last(es).tick.schedulerFree then Failed(Before(es))
    else if Asks(Before(es), Last(es).tick) then 0
    else if Last(es).tick.processFree && ProcessFlag(Before(es), 0) then Failed(Before(es))
    else Failed(Before(es)) + 1
  }

  /** A task that was never switched out is as it was created, even while it runs; any other one runs exactly if
      it is the current one. */
  function StateIn(es: seq<Event>, id: nat): TaskState {
    if LastOut(es, id).None? then Uninitialized(Entry(es, id))
    else if id == Current(es) then Running
    else Waiting
  }

  /** What a task does when it is resumed: it goes on where it was last switched out, or starts. */
  function ContextIn(es: seq<Event>, id: nat): Context {
    if LastOut(es, id).Some? then LastOut(es, id).value else Created(es, id)
  }

  // ---------------------------------------------------------------- the state is the history

  ghost predicate TaskIs(es: seq<Event>, s: State, id: nat) {
    && (id in s.tasks <==> id < Threads(es))
    && (id in s.tasks ==> s.tasks[id] == Task(0, id, StateIn(es, id), ContextIn(es, id)))
  }

  ghost predicate ThreadIs(es: seq<Event>, s: State, tid: nat) {
    && (tid in s.threads <==> tid < Threads(es))
    && (tid in s.threads ==> s.threads[tid] == Thread(tid, ThreadFlag(es, tid)))
  }

  ghost predicate ProcessIs(es: seq<Event>, s: State, pid: nat) {
    && (pid in s.processes <==> Made(es, pid))
    && (pid in s.processes ==> s.processes[pid] == Process(Members(es, pid), ProcessFlag(es, pid)))
  }

  ghost predicate NumbersAre(es: seq<Event>, s: State) {
    && s.currentTask == Current(es) && s.currentThread == Current(es) && s.currentProcess == 0
    && s.nextTask == Threads(es) && s.nextTid == Threads(es) && s.nextPid == Processes(es) && s.failed == Failed(es)
  }

  ghost predicate StateIs(es: seq<Event>, s: State) {
    && NumbersAre(es, s) && Current(es) < Threads(es)
    && (forall id: nat {:trigger TaskIs(es, s, id)} :: TaskIs(es, s, id))
    && (forall tid: nat {:trigger ThreadIs(es, s, tid)} :: ThreadIs(es, s, tid))
    && (forall pid: nat {:trigger ProcessIs(es, s, pid)} :: ProcessIs(es, s, pid))
  }

  /** The processor is only given to tasks that were created. */
  lemma {:induction false} CurrentMade(es: seq<Event>)
    requires !Panicked(es)
    ensures Current(es) < Threads(es)
  {
    if es != [] { CurrentMade(Before(es)); }
  }

  lemma {:induction false} NeverOut(es: seq<Event>, id: nat)
    requires !Panicked(es) && id >= Threads(es)
    ensures LastOut(es, id).None?
  {
    if es != [] {
      CurrentMade(Before(es));
      NeverOut(Before(es), id);
    }
  }

  /** What a tick looks at. */
  lemma TickReads(es: seq<Event>, s: State, t: Tick)
    requires !s.halted && StateIs(es, s)
    ensures MayPreempt(s, t) <==> Asks(es, t)
    ensures Leaves(s, t) <==> Preempts(es, t)
    ensures Switches(s, t) <==> Preempts(es, t) && t.next.value < Threads(es)
    ensures Fails(s, t) <==> t.schedulerFree && !Asks(es, t) && !(t.processFree && ProcessFlag(es, 0))
  {
    assert ThreadIs(es, s, Current(es)) && ProcessIs(es, s, 0);
    MadeFirst(es);
    if t.next.Some? { assert TaskIs(es, s, t.next.value); }
  }

  lemma {:induction false} MadeFirst(es: seq<Event>)
    ensures Made(es, 0)
  {
    if es != [] { MadeFirst(Before(es)); }
  }

  ghost predicate StepReady(es: seq<Event>) {
    es != [] && !Panicked(Before(es)) && !Run(Before(es)).halted && StateIs(Before(es), Run(Before(es)))
  }

  lemma HaltStep(es: seq<Event>)
    requires StepReady(es)
    ensures Run(es).halted <==> Panicked(es)
  {
    var es0, s, e := Before(es), Run(Before(es)), Last(es);
    if e.OnTick? { TickReads(es0, s, e.tick); }
    if e.NewThread? { assert ProcessIs(es0, s, e.pid); }
  }

  lemma NumbersStep(es: seq<Event>)
    requires StepReady(es) && !Panicked(es)
    ensures NumbersAre(es, Run(es)) && Current(es) < Threads(es)
  {
    var es0, s, e := Before(es), Run(Before(es)), Last(es);
    HaltStep(es);
    CurrentMade(es);
    if e.OnTick? {
      TickReads(es0, s, e.tick);
      if e.tick.next.Some? { assert TaskIs(es0, s, e.tick.next.value); }
    }
    if e.NewThread? { assert ProcessIs(es0, s, e.pid); }
  }

  lemma TaskStep(es: seq<Event>, id: nat)
    requires StepReady(es) && !Panicked(es)
    ensures TaskIs(es, Run(es), id)
  {
    var es0, s, e := Before(es), Run(Before(es)), Last(es);
    HaltStep(es);
    assert TaskIs(es0, s, id);
    if e.OnTick? { TickReads(es0, s, e.tick); }
    if e.NewThread? {
      assert ProcessIs(es0, s, e.pid);
      if id == Threads(es0) { NeverOut(es0, id); }
    }
  }

  lemma ThreadStep(es: seq<Event>, tid: nat)
    requires StepReady(es) && !Panicked(es)
    ensures ThreadIs(es, Run(es), tid)
  {
    var es0, s, e := Before(es), Run(Before(es)), Last(es);
    HaltStep(es);
    assert ThreadIs(es0, s, tid);
    if e.NewThread? { assert ProcessIs(es0, s, e.pid); }
  }

  lemma ProcessStep(es: seq<Event>, pid: nat)
    requires StepReady(es) && !Panicked(es)
    ensures ProcessIs(es, Run(es), pid)
  {
    var es0, s, e := Before(es), Run(Before(es)), Last(es);
    HaltStep(es);
    assert ProcessIs(es0, s, pid);
    if e.NewThread? { assert ProcessIs(es0, s, e.pid); }
  }

  lemma StartIs()
    ensures StateIs([], INITIAL)
  {
    forall id: nat {:trigger TaskIs([], INITIAL, id)} ensures TaskIs([], INITIAL, id) {
    }
    forall tid: nat {:trigger ThreadIs([], INITIAL, tid)} ensures ThreadIs([], INITIAL, tid) {
    }
    forall pid: nat {:trigger ProcessIs([], INITIAL, pid)} ensures ProcessIs([], INITIAL, pid) {
    }
  }

  /** After every sequence of events the kernel panicked exactly if the history says so, and otherwise every table,
      flag and counter is what the history says. */
  lemma {:induction false} RunIsHistory(es: seq<Event>)
    ensures Run(es).halted <==> Panicked(es)
    ensures !Panicked(es) ==> StateIs(es, Run(es))
    decreases |es|
  {
    if es == [] {
      StartIs();
    } else {
      RunIsHistory(Before(es));
      if !Panicked(Before(es)) {
        HaltStep(es);
        if !Panicked(es) { HistoryStep(es); }
      }
    }
  }

  lemma HistoryStep(es: seq<Event>)
    requires StepReady(es) && !Panicked(es)
    ensures StateIs(es, Run(es))
  {
    NumbersStep(es);
    forall id: nat {:trigger TaskIs(es, Run(es), id)} ensures TaskIs(es, Run(es), id) {
      TaskStep(es, id);
    }
    forall tid: nat {:trigger ThreadIs(es, Run(es), tid)} ensures ThreadIs(es, Run(es), tid) {
      ThreadStep(es, tid);
    }
    forall pid: nat {:trigger ProcessIs(es, Run(es), pid)} ensures ProcessIs(es, Run(es), pid) {
      ProcessStep(es, pid);
    }
  }

  // ---------------------------------------------------------------- what this means

  /** A task that was never switched out is uninitialised, with the entry it was created with; any other one is
      running if it is the current one and waiting if not. */
  lemma StatesKept(es: seq<Event>, id: nat)
    requires !Run(es).halted && id in Run(es).tasks
    ensures LastOut(es, id).None? ==> Run(es).tasks[id].state == Uninitialized(Entry(es, id))
    ensures LastOut(es, id).Some? ==> Run(es).tasks[id].state == if id == Run(es).currentTask then Running else Waiting
  {
    RunIsHistory(es);
    assert TaskIs(es, Run(es), id);
  }

  /** A tick that switches to another task resumes exactly what that task was doing when it was last switched
      out; a task that never ran starts with the context it was created with. */
  lemma ResumesWhereLeft(es: seq<Event>, t: Tick)
    requires Switches(Run(es), t)
    ensures var id := t.next.value;
            Resumed(Run(es), t).ctx == if LastOut(es, id).Some? then LastOut(es, id).value else Created(es, id)
  {
    RunIsHistory(es);
    assert TaskIs(es, Run(es), t.next.value);
  }

  lemma {:induction false} ThreadsGrow(es: seq<Event>, i: nat)
    requires i <= |es|
    ensures Threads(es[..i]) <= Threads(es)
    decreases |es|
  {
    if i == |es| {
      assert es[..i] == es;
    } else {
      assert Before(es)[..i] == es[..i];
      ThreadsGrow(Before(es), i);
    }
  }

  /** The events from position `i + 1` on do not change the flag of thread `tid`. */
  predicate FlagUntouched(es: seq<Event>, i: nat, tid: nat) {
    forall k {:trigger es[k]} :: i < k < |es| ==> !(es[k].SetThreadFlag? && es[k].tid == tid)
  }

  /** A thread keeps the flag it was created with until it is changed. */
  lemma {:induction false} FlagKept(es: seq<Event>, i: nat)
    requires i < |es| && es[i].NewThread? && FlagUntouched(es, i, Threads(es[..i]))
    ensures ThreadFlag(es, Threads(es[..i])) == es[i].noPreempt
    decreases |es|
  {
    var es0 := Before(es);
    if i < |es0| {
      assert es0[..i] == es[..i] && es0[i] == es[i];
      FlagKept(es0, i);
      assert es0[..i + 1] == es[..i + 1] && es[..i + 1][..i] == es[..i];
      ThreadsGrow(es0, i + 1);
    } else {
      assert es0 == es[..i];
    }
  }

  /** A thread created with the flag that forbids preemption, and not changed since, is never left by a tick. */
  lemma NeverLeft(es: seq<Event>, i: nat, t: Tick)
    requires i < |es| && es[i].NewThread? && es[i].noPreempt && FlagUntouched(es, i, Threads(es[..i]))
    requires !Run(es).halted && Run(es).currentThread == Threads(es[..i])
    ensures Resumed(Run(es), t) == t.frame && !AfterTick(Run(es), t).halted
    ensures AfterTick(Run(es), t).currentTask == Run(es).currentTask && AfterTick(Run(es), t).tasks == Run(es).tasks
  {
    RunIsHistory(es);
    FlagKept(es, i);
    TickReads(es, Run(es), t);
  }
}
