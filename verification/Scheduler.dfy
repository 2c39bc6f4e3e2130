/** The scheduler (kernel/src/scheduler/scheduler.cc), proved to take the steps of SchedulerModel. */
module Scheduler {
  import opened Machine
  import opened Ring
  import opened SchedulerModel

  const KERNEL_CS := 0x08
  const KERNEL_SS := 0x10
  const USER_CS := 0x23
  const USER_SS := 0x1b
  const FLAGS := 0x202
  const STACK := 0x10000   // the stack of a thread; its first frame is at the half

  /** What happens to the scheduler: a timer interrupt with the SSE image its entry saved, a new task, or an exit. */
  datatype Command = Interrupt(cpu: Cpu, image: seq<Byte>) | Start(cpu: Cpu, thread: bool) | Leave

  /** The step a command comes to while `sse` is the saved image. */
  function OpOf(c: Command, sse: seq<Byte>): Op {
    match c
    case Interrupt(cpu, image) => SchedulerModel.Tick(Context(cpu, image))
    case Start(cpu, thread) => Add(Context(cpu, sse), thread)
    case Leave => Exit
  }

  /** The image after the command: a switch loads that of the task it lands on. */
  function ImageAfter(s: Sched, c: Command, sse: seq<Byte>): seq<Byte>
    requires s.cur < |s.items|
  {
    if c.Interrupt? then s.items[s.cur].data.ctx.sse else sse
  }

  /** The steps a sequence of commands comes to. */
  function OpsOf(s: Sched, sse: seq<Byte>, cs: seq<Command>): seq<Op>
    requires s.cur < |s.items|
    decreases |cs|
  {
    if cs == [] then []
    else
      var op := OpOf(cs[0], sse);
      var rest :=
        match Step(s, op)
        case Next(s') => if s'.cur < |s'.items| then OpsOf(s', ImageAfter(s', cs[0], sse), cs[1..]) else []
        case _ => [];
      [op] + rest
  }

  /** A run of commands, one command at a time. */
  lemma RunOne(s: Sched, sse: seq<Byte>, cs: seq<Command>)
    requires Inv(s) && cs != []
    ensures var op := OpOf(cs[0], sse);
            Run(s, OpsOf(s, sse, cs)) ==
            match Step(s, op)
            case Next(s') =>
              if s'.cur < |s'.items| then Run(s', OpsOf(s', ImageAfter(s', cs[0], sse), cs[1..])) else Dangling
            case Stopped => Stopped
            case Dangling => Dangling
  {
    hide Step;
    var ops := OpsOf(s, sse, cs);
    assert ops[0] == OpOf(cs[0], sse);
  }

  lemma TickStep(s: Sched, ctx: Context)
    requires Inv(s)
    ensures Step(s, SchedulerModel.Tick(ctx)).Dangling? <==> s.items[s.cur].data.marked && |s.items| == 1
    ensures !Step(s, SchedulerModel.Tick(ctx)).Dangling? ==>
              Step(s, SchedulerModel.Tick(ctx)).Next? && Inv(Step(s, SchedulerModel.Tick(ctx)).sched)
  {
    if Step(s, SchedulerModel.Tick(ctx)).Next? {
      StepKeeps(s, SchedulerModel.Tick(ctx));
    }
  }

  /** What adding a task comes to: it works exactly while the last item carries the mark. */
  lemma AddStep(s: Sched, ctx: Context, thread: bool)
    requires Inv(s)
    ensures s.items != []
    ensures !s.items[|s.items| - 1].last ==> Step(s, Add(ctx, thread)).Stopped?
    ensures s.items[|s.items| - 1].last ==>
              var s' := Sched(Appended(s.items, Task(ctx, s.nextId, thread, false)), s.cur, s.nextId + 1);
              Step(s, Add(ctx, thread)) == Next(s') && Inv(s')
  {
    if Step(s, Add(ctx, thread)).Next? {
      StepKeeps(s, Add(ctx, thread));
    }
  }

  lemma NoMore(s: Sched, sse: seq<Byte>)
    requires s.cur < |s.items|
    ensures Run(s, OpsOf(s, sse, [])) == Next(s)
  {
  }

  /** The context of the kernel task before its first switch. */
  function BootContext(image: seq<Byte>): (c: Context)
    ensures c.cpu.cs == 0x08 && c.cpu.ss == 0x10 && c.sse == image
  {
    Context(Cpu(KERNEL_CS, KERNEL_SS, 0, 0, 0, 0, 0, 0, []), image)
  }

  class Scheduler {
    const tasks: LinkedList<Task>
    var current: Link<Task>     // the running task's node
    var sse: seq<Byte>          // the image the interrupt entry saved
    var nextId: nat
    var running: bool           // false: ticks are ignored
    var words: map<nat, nat>    // the stack words written so far
    ghost var cur: nat

    ghost function Snapshot(): Sched
      reads this, tasks, tasks.ring
    {
      Sched(tasks.Items(), cur, nextId)
    }

    ghost predicate Valid()
      reads this, tasks, tasks.ring
    {
      tasks.Valid() && cur < |tasks.ring| && current == tasks.ring[cur] && Inv(Snapshot())
    }

    /** `sched_start`, up to the interrupt that makes the first tick: one kernel process, already running. */
    constructor (image: seq<Byte>)
      ensures Valid() && fresh(tasks) && fresh(tasks.ring)
      ensures Snapshot() == Booted(BootContext(image)) && sse == image && running
    {
      var list := new LinkedList<Task>();
      var boot := Task(BootContext(image), 0, false, false);
      var l := list.PushFront(boot);
      tasks := list;
      current := l;
      sse := image;
      nextId := 1;
      running := true;
      words := map[];
      cur := 0;
    }

    /** The task marked for deletion leaves the ring; its successor is next. */
    method DropCurrent()
      requires Valid() && current.data.marked && |tasks.ring| > 1
      modifies `current, `cur, tasks, tasks.ring
      ensures tasks.Valid() && cur < |tasks.ring| && current == tasks.ring[cur]
      ensures forall ctx :: Step(old(Snapshot()), SchedulerModel.Tick(ctx)) == Next(Snapshot())
      ensures forall i :: 0 <= i < |tasks.ring| ==> tasks.ring[i] in old(tasks.ring) || fresh(tasks.ring[i])
    {
      assert NodeOk(tasks.ring, cur);
      hide Inv;
      var next := current.next;
      tasks.Remove(current, cur);
      cur := if cur == |tasks.ring| then 0 else cur;
      current := next;
    }

    /** The running task keeps its context, and its successor is next. */
    method SaveCurrent(state: Cpu)
      requires Valid() && !current.data.marked
      modifies `current, `cur, tasks, tasks.ring
      ensures tasks.Valid() && cur < |tasks.ring| && current == tasks.ring[cur]
      ensures Step(old(Snapshot()), SchedulerModel.Tick(Context(state, sse))) == Next(Snapshot())
      ensures forall i :: 0 <= i < |tasks.ring| ==> tasks.ring[i] in old(tasks.ring) || fresh(tasks.ring[i])
    {
      assert NodeOk(tasks.ring, cur);
      hide Inv;
      var next := current.next;
      tasks.SetData(current, current.data.(ctx := Context(state, sse)), cur);
      cur := Succ(cur, |tasks.ring|);
      current := next;
    }

    /** The context switch. None: the deleted task was the only one, and freed memory is dispatched. */
    method Switch(state: Cpu) returns (loaded: Option<Context>)
      requires Valid()
      modifies `current, `sse, `cur, tasks, tasks.ring
      ensures match Step(old(Snapshot()), SchedulerModel.Tick(Context(state, old(sse))))
              case Next(s) => Valid() && Snapshot() == s && loaded == Some(s.items[s.cur].data.ctx)
                && sse == loaded.value.sse
              case _ => loaded.None?
      ensures forall i :: 0 <= i < |tasks.ring| ==> tasks.ring[i] in old(tasks.ring) || fresh(tasks.ring[i])
    {
      hide Inv, Step, Closed;
      TickStep(Snapshot(), Context(state, sse));
      if current.data.marked {
        if tasks.size == 1 {
          return None;
        }
        DropCurrent();
      } else {
        SaveCurrent(state);
      }
      sse := current.data.ctx.sse;
      return Some(current.data.ctx);
    }

    /** `sched_tick`: while the scheduler is stopped only a forced tick counts. */
    method Tick(state: Cpu, force: bool) returns (effective: bool, loaded: Option<Context>)
      requires Valid()
      modifies `current, `sse, `cur, tasks, tasks.ring
      ensures effective <==> running || force
      ensures !effective ==> Valid() && Snapshot() == old(Snapshot()) && sse == old(sse)
      ensures effective ==>
                match Step(old(Snapshot()), SchedulerModel.Tick(Context(state, old(sse))))
                case Next(s) => Valid() && Snapshot() == s && loaded == Some(s.items[s.cur].data.ctx)
                  && sse == loaded.value.sse
                case _ => loaded.None?
      ensures forall i :: 0 <= i < |tasks.ring| ==> tasks.ring[i] in old(tasks.ring) || fresh(tasks.ring[i])
    {
      if !running && !force {
        return false, None;
      }
      effective := true;
      loaded := Switch(state);
    }

    /**
     Both ways of adding a task end in `push_back`, with the SSE image of the moment; the guard restarts the
     scheduler.
     */
    method AddTask(cpu: Cpu, thread: bool) returns (r: Outcome<()>)
      requires Valid()
      modifies `nextId, `running, tasks, tasks.ring
      ensures match Step(old(Snapshot()), Add(Context(cpu, sse), thread))
              case Next(s) => r.Done? && Valid() && Snapshot() == s && running
              case _ => r.Halted?
      ensures r.Done? ==> forall i :: 0 <= i < |tasks.ring| ==> tasks.ring[i] in old(tasks.ring) || fresh(tasks.ring[i])
    {
      hide Inv, Step, Appended;
      AddStep(Snapshot(), Context(cpu, sse), thread);
      running := false;
      var l := tasks.PushBack(Task(Context(cpu, sse), nextId, thread, false));
      if l.Halted? {
        return Halted;
      }
      nextId := nextId + 1;
      running := true;
      return Done(());
    }

    /** A stopped scheduler takes no new process. */
    method AddUserProcess(cr3: nat, stackptr: nat, entry: nat) returns (r: Outcome<()>)
      requires Valid()
      modifies `nextId, `running, tasks, tasks.ring
      ensures !old(running) ==> r.Halted?
      ensures old(running) ==>
                var cpu := Cpu(0x20 + 3, 0x18 + 3, entry, stackptr, stackptr, 0x202, 0, cr3, []);
                match Step(old(Snapshot()), Add(Context(cpu, sse), false))
                case Next(s) => r.Done? && Valid() && Snapshot() == s && running
                case _ => r.Halted?
    {
      if !running {
        return Halted;
      }
      r := AddTask(Cpu(USER_CS, USER_SS, entry, stackptr, stackptr, FLAGS, 0, cr3, []), false);
    }

    /** `sched_add_thread`: the stack at `stack` starts with the address of `sched_exit_thread` to return to. */
    method AddThread(code: nat, fun: nat, stack: nat, cr3: nat, exit: nat) returns (r: Outcome<()>)
      requires Valid()
      modifies `nextId, `running, `words, tasks, tasks.ring
      ensures var slot := stack + STACK / 2 - 8;
              && stack <= slot && slot + 8 <= stack + STACK && words == old(words)[slot := exit]
              && var cpu := Cpu(0x08, 0x10, code, slot, slot + 8, 0x202, fun, cr3, []);
                 match Step(old(Snapshot()), Add(Context(cpu, sse), true))
                 case Next(s) => r.Done? && Valid() && Snapshot() == s && running
                 case _ => r.Halted?
    {
      hide Inv, Step, Closed;
      var rbp := stack + STACK / 2;
      var rsp := rbp - 8;
      words := words[rsp := exit];
      r := AddTask(Cpu(KERNEL_CS, KERNEL_SS, code, rsp, rbp, FLAGS, fun, cr3, []), true);
    }

    /** The marking part of `sched_exit_thread`. */
    method ExitThread()
      requires Valid()
      modifies `running, tasks, tasks.ring
      ensures Valid() && running && Step(old(Snapshot()), Exit) == Next(Snapshot())
      ensures forall i :: 0 <= i < |tasks.ring| ==> tasks.ring[i] in old(tasks.ring) || fresh(tasks.ring[i])
    {
      StepKeeps(Snapshot(), Exit);
      hide Inv;
      running := false;
      tasks.SetData(current, current.data.(marked := true), cur);
      running := true;
    }

    /** One command. */
    method Obey(c: Command) returns (going: bool)
      requires Valid() && running
      modifies this, tasks, tasks.ring
      ensures match Step(old(Snapshot()), OpOf(c, old(sse)))
              case Next(s) =>
                && going && Valid() && running && Snapshot() == s
                && s.cur < |s.items| && sse == ImageAfter(s, c, old(sse))
              case _ => !going
      ensures going ==> forall i :: 0 <= i < |tasks.ring| ==> tasks.ring[i] in old(tasks.ring) || fresh(tasks.ring[i])
    {
      hide Inv, Step;
      match c {
        case Interrupt(cpu, image) =>
          sse := image;   // the interrupt entry saves it
          var effective, loaded := Tick(cpu, false);
          going := loaded.Some?;
        case Start(cpu, thread) =>
          var r := AddTask(cpu, thread);
          going := r.Done?;
        case Leave =>
          ExitThread();
          going := true;
      }
    }

    /** Any sequence of commands leaves the object where the run of the model ends, or stops where that one does. */
    method ObeyAll(cs: seq<Command>) returns (going: bool)
      requires Valid() && running
      modifies this, tasks, tasks.ring
      ensures match Run(old(Snapshot()), OpsOf(old(Snapshot()), old(sse), cs))
              case Next(s) => going && Valid() && Snapshot() == s
              case _ => !going
    {
      hide Inv, Step, OpsOf, Run;
      assert cs[0..] == cs;
      ghost var all := Run(Snapshot(), OpsOf(Snapshot(), sse, cs));
      for i := 0 to |cs|
        invariant forall k :: 0 <= k < |tasks.ring| ==> tasks.ring[k] in old(tasks.ring) || fresh(tasks.ring[k])
        invariant Valid() && running && Run(Snapshot(), OpsOf(Snapshot(), sse, cs[i..])) == all
      {
        assert cs[i..][0] == cs[i] && cs[i..][1..] == cs[i + 1..];
        RunOne(Snapshot(), sse, cs[i..]);
        going := Obey(cs[i]);
        if !going {
          return;
        }
      }
      NoMore(Snapshot(), sse);
      return true;
    }
  }
}
