/** The state behind the timer interrupt: tasks, processes, threads and what is current. */
module SchedulerSpec {
  import opened Common

  const KERNEL_INIT_PID: nat := 0
  const KERNEL_INIT_TID: nat := 0
  const INIT_TASK: nat := 0

  type Registers = seq<nat>

  /** What a task needs to go on: general registers, instruction pointer and stack pointer. */
  datatype Context = Context(gpr: Registers, rip: nat, stack: nat)

  /** An interrupt frame: the context of the interrupted code and what is handed on unchanged. */
  datatype Frame = Frame(ctx: Context, cs: nat, rflags: nat, stackSegment: nat)

  datatype TaskState = Running | Waiting | Uninitialized(entry: nat)

  datatype Task = Task(pid: nat, tid: nat, state: TaskState, ctx: Context)

  datatype Process = Process(threads: set<nat>, noPreempt: bool)

  datatype Thread = Thread(task: nat, noPreempt: bool)

  datatype State = State(
    tasks: map<nat, Task>, processes: map<nat, Process>, threads: map<nat, Thread>,
    currentTask: nat, currentProcess: nat, currentThread: nat,
    nextTask: nat, nextPid: nat, nextTid: nat,
    failed: nat, halted: bool)

  /** A timer tick: the interrupted frame, which locks are free, and what the strategy names next. */
  datatype Tick = Tick(frame: Frame, schedulerFree: bool, processFree: bool, threadFree: bool, next: Option<nat>)

  const NO_CONTEXT := Context([], 0, 0)

  /** The state once the kernel process exists. */
  const INITIAL := State(
    map[INIT_TASK := Task(KERNEL_INIT_PID, KERNEL_INIT_TID, Uninitialized(0), NO_CONTEXT)],
    map[KERNEL_INIT_PID := Process({KERNEL_INIT_TID}, false)],
    map[KERNEL_INIT_TID := Thread(INIT_TASK, false)],
    INIT_TASK, KERNEL_INIT_PID, KERNEL_INIT_TID, 1, 1, 1, 0, false)

  // ---------------------------------------------------------------- ticks

  /** The tick gets as far as asking the strategy for the next task. */
  predicate MayPreempt(s: State, t: Tick) {
    && t.schedulerFree
    && s.currentProcess in s.processes && t.processFree && !s.processes[s.currentProcess].noPreempt
    && s.currentThread in s.threads && t.threadFree && !s.threads[s.currentThread].noPreempt
  }

  /** The tick leaves the current task for another. */
  predicate Leaves(s: State, t: Tick) {
    !s.halted && MayPreempt(s, t) && t.next.Some? && t.next.value != s.currentTask
  }

  predicate Switches(s: State, t: Tick) {
    Leaves(s, t) && t.next.value in s.tasks
  }

  /** The tick counts as a failed attempt to schedule. */
  predicate Fails(s: State, t: Tick) {
    && t.schedulerFree && !MayPreempt(s, t)
    && !(s.currentProcess in s.processes && t.processFree && s.processes[s.currentProcess].noPreempt)
  }

  function Counted(s: State, t: Tick): State {
    if MayPreempt(s, t) then s.(failed := 0) else if Fails(s, t) then s.(failed := s.failed + 1) else s
  }

  function SaveCurrent(s: State, f: Frame): State {
    if s.currentTask in s.tasks then
      s.(tasks := s.tasks[s.currentTask := s.tasks[s.currentTask].(state := Waiting, ctx := f.ctx)])
    else s
  }

  function MakeCurrent(s: State, id: nat): State
    requires id in s.tasks
  {
    var task := s.tasks[id];
    var state := if task.state.Uninitialized? then task.state else Running;
    s.(tasks := s.tasks[id := task.(state := state)], currentTask := id, currentProcess := task.pid,
       currentThread := task.tid)
  }

  function AfterTick(s: State, t: Tick): State {
    if s.halted then s
    else if !Leaves(s, t) then Counted(s, t)
    else if t.next.value !in s.tasks then SaveCurrent(Counted(s, t), t.frame).(halted := true)
    else MakeCurrent(SaveCurrent(Counted(s, t), t.frame), t.next.value)
  }

  /** What runs after the tick: the interrupted code, or the next task with its own context. */
  function Resumed(s: State, t: Tick): Frame {
    if Switches(s, t) then t.frame.(ctx := s.tasks[t.next.value].ctx) else t.frame
  }

  // ---------------------------------------------------------------- creation

  /** A new process, unless there is no page for its page table; its id is used up in any case. */
  function SpawnProcess(s: State, noPreempt: bool, page: bool): State {
    var s1 := s.(nextPid := s.nextPid + 1);
    if page then s1.(processes := s.processes[s.nextPid := Process({}, noPreempt)]) else s1
  }

  /** A new thread of `pid` and its task, which starts in `init` on a new stack. */
  function SpawnThread(s: State, pid: nat, init: nat, entry: nat, stack: nat, noPreempt: bool): State {
    var task := Task(KERNEL_INIT_PID, s.nextTid, Uninitialized(entry), Context([], init, stack));
    var s1 := s.(tasks := s.tasks[s.nextTask := task], nextTask := s.nextTask + 1, nextTid := s.nextTid + 1);
    if pid !in s.processes then s1.(halted := true)
    else s1.(processes := s.processes[pid := s.processes[pid].(threads := s.processes[pid].threads + {s.nextTid})],
             threads := s.threads[s.nextTid := Thread(s.nextTask, noPreempt)])
  }

  // ---------------------------------------------------------------- runs

  datatype Event =
    | OnTick(tick: Tick)
    | NewProcess(noPreempt: bool, page: bool)
    | NewThread(pid: nat, init: nat, entry: nat, stack: nat, noPreempt: bool)
    | SetProcessFlag(pid: nat, noPreempt: bool)
    | SetThreadFlag(tid: nat, noPreempt: bool)

  function After(s: State, e: Event): State {
    if s.halted then s else
    match e
    case OnTick(t) => AfterTick(s, t)
    case NewProcess(flag, page) => SpawnProcess(s, flag, page)
    case NewThread(pid, init, entry, stack, flag) => SpawnThread(s, pid, init, entry, stack, flag)
    case SetProcessFlag(pid, flag) =>
      if pid in s.processes then s.(processes := s.processes[pid := s.processes[pid].(noPreempt := flag)]) else s
    case SetThreadFlag(tid, flag) =>
      if tid in s.threads then s.(threads := s.threads[tid := s.threads[tid].(noPreempt := flag)]) else s
  }

  function Run(es: seq<Event>): State {
    if es == [] then INITIAL else After(Run(es[..|es| - 1]), es[|es| - 1])
  }

  // ---------------------------------------------------------------- invariants

  ghost predicate TaskOk(s: State, id: nat) {
    && id in s.tasks && id < s.nextTask && s.tasks[id].pid == KERNEL_INIT_PID && s.tasks[id].tid < s.nextTid
    && (s.tasks[id].state == Running ==> id == s.currentTask) && (s.halted || s.tasks[id].tid in s.threads)
  }

  /** At most the current task is running, the current ids are its own, and every thread is registered unless
      its creation panicked. */
  ghost predicate Inv(s: State) {
    && s.currentTask in s.tasks
    && s.currentProcess == s.tasks[s.currentTask].pid && s.currentThread == s.tasks[s.currentTask].tid
    && KERNEL_INIT_PID in s.processes
    && (forall pid {:trigger s.processes[pid]} :: pid in s.processes ==> pid < s.nextPid)
    && forall id {:trigger TaskOk(s, id)} :: id in s.tasks ==> TaskOk(s, id)
  }

  lemma TickKeepsInv(s: State, t: Tick)
    requires Inv(s)
    ensures Inv(AfterTick(s, t))
  {
    var s' := AfterTick(s, t);
    assert TaskOk(s, s.currentTask);
    forall id {:trigger TaskOk(s', id)} | id in s'.tasks ensures TaskOk(s', id) {
      assert TaskOk(s, id);
    }
  }

  lemma EventKeepsInv(s: State, e: Event)
    requires Inv(s)
    ensures Inv(After(s, e))
  {
    var s' := After(s, e);
    if e.OnTick? {
      TickKeepsInv(s, e.tick);
    } else {
      assert TaskOk(s, s.currentTask);
      forall id {:trigger TaskOk(s', id)} | id in s'.tasks ensures TaskOk(s', id) {
        if id in s.tasks { assert TaskOk(s, id); }
      }
    }
  }

  /** In every reachable state at most one task is running, it is the current one, and the current process
      and thread are those the current task names. */
  lemma {:induction false} RunInv(es: seq<Event>)
    ensures Inv(Run(es))
  {
    if es == [] {
      assert TaskOk(INITIAL, INIT_TASK);
    } else {
      RunInv(es[..|es| - 1]);
      EventKeepsInv(Run(es[..|es| - 1]), es[|es| - 1]);
    }
  }

  // ---------------------------------------------------------------- preemption

  /** After every run, no tick takes the processor from a task whose thread, or whose process as the task
      names it, must not be preempted. */
  lemma NoPreemptHonoured(es: seq<Event>, t: Tick)
    requires Leaves(Run(es), t)
    ensures var s := Run(es);
            && s.currentTask in s.tasks
            && var task := s.tasks[s.currentTask];
            && task.pid in s.processes && !s.processes[task.pid].noPreempt
            && task.tid in s.threads && !s.threads[task.tid].noPreempt
  {
    RunInv(es);
  }

  /** The process that lists the current thread may ask not to be preempted. That is honoured exactly if the
      process is the kernel, or the kernel or the thread asks for it too: every task names the kernel as its
      process. */
  lemma GroupFlag(es: seq<Event>, pid: nat)
    requires var s := Run(es);
             && !s.halted && pid in s.processes && s.currentThread in s.processes[pid].threads
             && s.processes[pid].noPreempt
    ensures var s := Run(es);
            && KERNEL_INIT_PID in s.processes && s.currentThread in s.threads
            && ((forall t {:trigger Leaves(s, t)} :: !Leaves(s, t)) <==>
                 || pid == KERNEL_INIT_PID || s.processes[KERNEL_INIT_PID].noPreempt
                 || s.threads[s.currentThread].noPreempt)
  {
    var s := Run(es);
    RunInv(es);
    assert TaskOk(s, s.currentTask);
    var t := Tick(Frame(NO_CONTEXT, 0, 0, 0), true, true, true, Some(s.currentTask + 1));
    assert Leaves(s, t) <==> MayPreempt(s, t);
  }

  /** The main thread of a process that must not be preempted is preempted by the next tick. */
  lemma GroupFlagIgnored(frame: Frame)
    ensures var es := [NewProcess(true, true), NewThread(1, 10, 20, 30, false),
                       OnTick(Tick(frame, true, true, true, Some(1)))];
            var s := Run(es);
            && !s.halted && 1 in s.processes && s.currentThread in s.processes[1].threads && s.processes[1].noPreempt
            && Switches(s, Tick(frame, true, true, true, Some(INIT_TASK)))
  {
    var e0, e1 := NewProcess(true, true), NewThread(1, 10, 20, 30, false);
    var e2 := OnTick(Tick(frame, true, true, true, Some(1)));
    assert [e0, e1, e2][..2] == [e0, e1] && [e0, e1][..1] == [e0] && [e0][..0] == [];
    var s1 := After(INITIAL, e0);
    assert Run([]) == INITIAL;
    assert Run([e0]) == s1;
    var s2 := After(s1, e1);
    assert Run([e0, e1]) == s2;
    assert Run([e0, e1, e2]) == After(s2, e2);
  }
}
