/** The timer interrupt and the creation of tasks, as they change the global tables in place. */
module Scheduler {
  import opened Common
  import opened SchedulerHistory
  import opened SchedulerSpec

  /** How a tick ends: in the code of some frame, or in a panic. */
  datatype Outcome = Resume(frame: Frame) | Panic

  class Kernel {
    var tasks: map<nat, Task>
    var processes: map<nat, Process>
    var threads: map<nat, Thread>
    var currentTask: nat
    var currentProcess: nat
    var currentThread: nat
    var nextTask: nat
    var nextPid: nat
    var nextTid: nat
    var failed: nat
    var halted: bool

    ghost function View(): State
      reads this
    {
      State(tasks, processes, threads, currentTask, currentProcess, currentThread, nextTask, nextPid, nextTid, failed,
            halted)
    }

    /** The state once the kernel process exists. */
    constructor ()
      ensures View() == INITIAL
    {
      tasks := map[INIT_TASK := Task(KERNEL_INIT_PID, KERNEL_INIT_TID, Uninitialized(0), NO_CONTEXT)];
      processes := map[KERNEL_INIT_PID := Process({KERNEL_INIT_TID}, false)];
      threads := map[KERNEL_INIT_TID := Thread(INIT_TASK, false)];
      currentTask, currentProcess, currentThread := INIT_TASK, KERNEL_INIT_PID, KERNEL_INIT_TID;
      nextTask, nextPid, nextTid := 1, 1, 1;
      failed, halted := 0, false;
    }

    /** The handler of the timer interrupt: schedules unless a lock is taken or the current process or thread
        must not be preempted. */
    method TimerIrqEntry(t: Tick) returns (outcome: Outcome)
      requires !halted
      modifies this
      ensures View() == AfterTick(old(View()), t)
      ensures outcome == if halted then Panic else Resume(Resumed(old(View()), t))
    {
      if !t.schedulerFree {
        return Resume(t.frame);
      }
      if currentProcess !in processes {
        failed := failed + 1;
        return Resume(t.frame);
      }
      if t.processFree {
        if processes[currentProcess].noPreempt {
          return Resume(t.frame);
        }
        if currentThread in threads {
          if t.threadFree {
            if !threads[currentThread].noPreempt {
              failed := 0;
              outcome := IrqScheduleNextTask(t.frame, t.next);
              return;
            }
          }
        }
      }
      failed := failed + 1;
      return Resume(t.frame);
    }

    /** Keeps the context of the interrupted task, if it is registered. */
    method SaveInterrupted(frame: Frame)
      modifies this`tasks
      ensures View() == SaveCurrent(old(View()), frame)
    {
      if currentTask in tasks {
        tasks := tasks[currentTask := tasks[currentTask].(state := Waiting)];
        tasks := tasks[currentTask := tasks[currentTask].(ctx := frame.ctx)];
      }
    }

    /** Makes a registered task the current one. */
    method Enter(id: nat)
      requires id in tasks
      modifies this`tasks, this`currentTask, this`currentProcess, this`currentThread
      ensures View() == MakeCurrent(old(View()), id)
    {
      if !tasks[id].state.Uninitialized? {
        tasks := tasks[id := tasks[id].(state := Running)];
      }
      currentTask := id;
      currentProcess := tasks[id].pid;
      currentThread := tasks[id].tid;
    }

    /** Saves the interrupted task and goes on with the next one. */
    method IrqScheduleNextTask(frame: Frame, next: Option<nat>) returns (outcome: Outcome)
      requires !halted
      modifies this
      ensures next.None? || next.value == old(currentTask) ==> View() == old(View()) && outcome == Resume(frame)
      ensures next.Some? && next.value != old(currentTask) && next.value !in old(tasks) ==>
                View() == SaveCurrent(old(View()), frame).(halted := true) && outcome == Panic
      ensures next.Some? && next.value != old(currentTask) && next.value in old(tasks) ==>
                && View() == MakeCurrent(SaveCurrent(old(View()), frame), next.value)
                && currentTask == next.value
                && tasks[next.value] == old(tasks)[next.value].(state :=
                     if old(tasks)[next.value].state.Uninitialized? then old(tasks)[next.value].state else Running)
                && (old(currentTask) in old(tasks) ==>
                      tasks[old(currentTask)] == old(tasks)[old(currentTask)].(state := Waiting, ctx := frame.ctx))
                && outcome == Resume(frame.(ctx := old(tasks)[next.value].ctx))
    {
      if next.None? {
        return Resume(frame);
      }
      var id := next.value;
      if id == currentTask {
        return Resume(frame);
      }
      SaveInterrupted(frame);
      if id !in tasks {
        halted := true;
        return Panic;
      }
      outcome := Resume(Frame(tasks[id].ctx, frame.cs, frame.rflags, frame.stackSegment));
      Enter(id);
    }

    /** Creates a task in the kernel process. */
    method InitKernelTask(init: nat, entry: nat, tid: nat, stack: nat) returns (id: nat)
      modifies this
      ensures id == old(nextTask)
      ensures View() == old(View()).(nextTask := id + 1,
                tasks := old(tasks)[id := Task(KERNEL_INIT_PID, tid, Uninitialized(entry), Context([], init, stack))])
    {
      id := nextTask;
      nextTask := nextTask + 1;
      tasks := tasks[id := Task(KERNEL_INIT_PID, tid, Uninitialized(entry), Context([], init, stack))];
    }

    /** Creates a thread of a process, with its task; panics if there is no such process. */
    method SpawnThread(pid: nat, init: nat, entry: nat, stack: nat, noPreempt: bool) returns (tid: nat)
      requires !halted
      modifies this
      ensures tid == old(nextTid)
      ensures View() == SchedulerSpec.SpawnThread(old(View()), pid, init, entry, stack, noPreempt)
    {
      tid := nextTid;
      nextTid := nextTid + 1;
      var task := InitKernelTask(init, entry, tid, stack);
      if pid !in processes {
        halted := true;
        return;
      }
      processes := processes[pid := processes[pid].(threads := processes[pid].threads + {tid})];
      threads := threads[tid := Thread(task, noPreempt)];
    }

    /** Creates a process if there is a page for its page table. */
    method SpawnProcess(noPreempt: bool, page: bool) returns (r: Option<nat>)
      requires !halted
      modifies this
      ensures r == if page then Some(old(nextPid)) else None
      ensures View() == SchedulerSpec.SpawnProcess(old(View()), noPreempt, page)
    {
      var pid := nextPid;
      nextPid := nextPid + 1;
      if !page {
        return None;
      }
      processes := processes[pid := Process({}, noPreempt)];
      return Some(pid);
    }
  }

  /** One event; nothing happens after a panic. */
  method Step(kernel: Kernel, e: Event)
    modifies kernel
    ensures kernel.View() == After(old(kernel.View()), e)
  {
    if kernel.halted {
      return;
    }
    match e
    case OnTick(tick) =>
      var o := kernel.TimerIrqEntry(tick);
    case NewProcess(flag, page) =>
      var r := kernel.SpawnProcess(flag, page);
    case NewThread(pid, init, entry, stack, flag) =>
      var tid := kernel.SpawnThread(pid, init, entry, stack, flag);
    case SetProcessFlag(pid, flag) =>
      if pid in kernel.processes {
        kernel.processes := kernel.processes[pid := kernel.processes[pid].(noPreempt := flag)];
      }
    case SetThreadFlag(tid, flag) =>
      if tid in kernel.threads {
        kernel.threads := kernel.threads[tid := kernel.threads[tid].(noPreempt := flag)];
      }
  }

  /** Runs any sequence of events from the start, and then one more tick. The code that is resumed is the interrupted
      one, or the next task where it was last left or where it starts, and the state is what the history says. */
  method RunThenTick(es: seq<Event>, t: Tick) returns (kernel: Kernel, outcome: Outcome)
    ensures Inv(kernel.View()) && (kernel.halted <==> Panicked(es + [OnTick(t)]))
    ensures !kernel.halted ==> StateIs(es + [OnTick(t)], kernel.View())
    ensures outcome == if Panicked(es + [OnTick(t)]) then Panic
                       else if Preempts(es, t) then Resume(t.frame.(ctx := ContextIn(es, t.next.value)))
                       else Resume(t.frame)
  {
    kernel := new Kernel();
    for i := 0 to |es|
      invariant fresh(kernel) && kernel.View() == Run(es[..i])
    {
      assert es[..i + 1][..i] == es[..i];
      Step(kernel, es[i]);
    }
    assert es[..|es|] == es;
    RunThen(es, t);
    outcome := Panic;
    if !kernel.halted { outcome := kernel.TimerIrqEntry(t); }
  }

  lemma RunThen(es: seq<Event>, t: Tick)
    ensures var s, es' := Run(es), es + [OnTick(t)];
            && Run(es') == After(s, OnTick(t)) && Inv(Run(es')) && (Run(es').halted <==> Panicked(es'))
            && (!Panicked(es') ==> StateIs(es', Run(es')))
            && (!s.halted && !Panicked(es') ==>
                  Resumed(s, t) == if Preempts(es, t) then t.frame.(ctx := ContextIn(es, t.next.value)) else t.frame)
  {
    var s, es' := Run(es), es + [OnTick(t)];
    assert es'[..|es|] == es && Before(es') == es;
    RunInv(es');
    RunIsHistory(es);
    RunIsHistory(es');
    if !s.halted && !Panicked(es') {
      TickReads(es, s, t);
      if Preempts(es, t) { assert TaskIs(es, s, t.next.value); }
    }
  }
}
