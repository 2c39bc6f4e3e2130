/** Round-robin scheduling as a step system over the ring of tasks. */
module SchedulerModel {
  import opened Machine
  import opened Ring

  datatype Cpu = Cpu(cs: nat, ss: nat, rip: nat, rsp: nat, rbp: nat, rfl: nat, rdi: nat, cr3: nat, others: seq<nat>)

  /** Everything a dispatch loads: the CPU state and the 512-byte SSE image. */
  datatype Context = Context(cpu: Cpu, sse: seq<Byte>)

  datatype Task = Task(ctx: Context, id: nat, thread: bool, marked: bool)

  /** The ring from `first` on, the position of the running task, and the next PID. */
  datatype Sched = Sched(items: seq<Item<Task>>, cur: nat, nextId: nat)

  /** What happens: an effective timer tick, a new task, or the running task asking to be deleted. */
  datatype Op = Tick(ctx: Context) | Add(ctx: Context, thread: bool) | Exit

  datatype Result = Next(sched: Sched) | Stopped | Dangling

  function Saved(item: Item<Task>, ctx: Context): Item<Task> {
    item.(data := item.data.(ctx := ctx))
  }

  function Step(s: Sched, op: Op): Result
    requires s.cur < |s.items|
  {
    var n := |s.items|;
    match op
    case Tick(ctx) =>
      if s.items[s.cur].data.marked then
        if n == 1 then Dangling   // the only task: its freed memory is what gets dispatched
        else Next(s.(items := Removed(s.items, s.cur), cur := if s.cur == n - 1 then 0 else s.cur))
      else Next(s.(items := s.items[s.cur := Saved(s.items[s.cur], ctx)], cur := Succ(s.cur, n)))
    case Add(ctx, thread) =>
      if !s.items[n - 1].last then Stopped
      else Next(s.(items := Appended(s.items, Task(ctx, s.nextId, thread, false)), nextId := s.nextId + 1))
    case Exit =>
      Next(s.(items := s.items[s.cur := s.items[s.cur].(data := s.items[s.cur].data.(marked := true))]))
  }

  /** PIDs are distinct and used up, and only the running task can be marked for deletion. */
  ghost predicate Inv(s: Sched) {
    && s.cur < |s.items|
    && (forall i, j :: 0 <= i < j < |s.items| ==> s.items[i].data.id != s.items[j].data.id)
    && (forall i :: 0 <= i < |s.items| ==> s.items[i].data.id < s.nextId)
    && (forall i :: 0 <= i < |s.items| && s.items[i].data.marked ==> i == s.cur)
    && (forall i :: 0 <= i < |s.items| - 1 ==> !s.items[i].last)
  }

  lemma DropKeeps(s: Sched)
    requires Inv(s) && |s.items| > 1
    ensures Inv(s.(items := Removed(s.items, s.cur), cur := if s.cur == |s.items| - 1 then 0 else s.cur))
  {
  }

  lemma AddKeeps(s: Sched, t: Task)
    requires Inv(s) && t.id == s.nextId && !t.marked && s.items[|s.items| - 1].last
    ensures Inv(s.(items := Appended(s.items, t), nextId := s.nextId + 1))
  {
  }

  lemma StepKeeps(s: Sched, op: Op)
    requires Inv(s) && Step(s, op).Next?
    ensures Inv(Step(s, op).sched)
  {
    match op
    case Tick(_) =>
      if s.items[s.cur].data.marked {
        DropKeeps(s);
        hide Inv;
      }
    case Add(ctx, thread) =>
      AddKeeps(s, Task(ctx, s.nextId, thread, false));
      hide Inv;
    case Exit =>
  }

  // ---- waiting ----

  ghost predicate Present(s: Sched, id: nat) {
    exists i :: 0 <= i < |s.items| && s.items[i].data.id == id
  }

  /** How many dispatches away position i is. */
  function Ahead(s: Sched, i: nat): nat
    requires s.cur < |s.items| && i < |s.items|
  {
    if i >= s.cur then i - s.cur else |s.items| - s.cur + i
  }

  ghost function Position(s: Sched, id: nat): (i: nat)
    requires Inv(s) && Present(s, id)
    ensures i < |s.items| && s.items[i].data.id == id
  {
    var i :| 0 <= i < |s.items| && s.items[i].data.id == id;
    i
  }

  ghost function Distance(s: Sched, id: nat): nat
    requires Inv(s) && Present(s, id)
  {
    Ahead(s, Position(s, id))
  }

  /** Where position i ends up. */
  function Moved(s: Sched, op: Op, i: nat): nat
    requires s.cur < |s.items| && i < |s.items|
  {
    if op.Tick? && s.items[s.cur].data.marked && i > s.cur then i - 1 else i
  }

  lemma MovedHolds(s: Sched, op: Op, i: nat)
    requires Inv(s) && Step(s, op).Next? && i < |s.items| && !(op.Tick? && i == s.cur)
    ensures var s' := Step(s, op).sched;
            && Moved(s, op, i) < |s'.items| && s'.items[Moved(s, op, i)].data.id == s.items[i].data.id
            && var d := Ahead(s', Moved(s, op, i));
               match op
               case Tick(_) => d == Ahead(s, i) - 1
               case Add(_, _) => Ahead(s, i) <= d <= Ahead(s, i) + 1
               case Exit => d == Ahead(s, i)
  {
  }

  /** A waiting task gets one step closer on every tick, and at most one further per added task. */
  lemma Closer(s: Sched, op: Op, id: nat)
    requires Inv(s) && Step(s, op).Next? && Present(s, id) && (op.Tick? ==> Distance(s, id) > 0)
    ensures Inv(Step(s, op).sched) && Present(Step(s, op).sched, id)
    ensures var d, d' := Distance(s, id), Distance(Step(s, op).sched, id);
            match op
            case Tick(_) => d' == d - 1
            case Add(_, _) => d <= d' <= d + 1
            case Exit => d' == d
  {
    StepKeeps(s, op);
    var i := Position(s, id);
    MovedHolds(s, op, i);
    var s' := Step(s, op).sched;
    assert s'.items[Moved(s, op, i)].data.id == id;
    assert Position(s', id) == Moved(s, op, i);
  }

  // ---- runs ----

  function Run(s: Sched, ops: seq<Op>): Result
    requires s.cur < |s.items|
    decreases |ops|
  {
    if ops == [] then Next(s)
    else match Step(s, ops[0])
      case Next(s') => if s'.cur < |s'.items| then Run(s', ops[1..]) else Dangling
      case Stopped => Stopped
      case Dangling => Dangling
  }

  function Ticks(ops: seq<Op>): nat {
    if ops == [] then 0 else (if ops[0].Tick? then 1 else 0) + Ticks(ops[1..])
  }

  function Adds(ops: seq<Op>): nat {
    if ops == [] then 0 else (if ops[0].Add? then 1 else 0) + Adds(ops[1..])
  }

  /** At some point of the run the task is the running one. */
  ghost predicate Dispatched(s: Sched, ops: seq<Op>, id: nat)
    requires s.cur < |s.items|
    decreases |ops|
  {
    || s.items[s.cur].data.id == id
    || (ops != [] && Step(s, ops[0]).Next? &&
        var s' := Step(s, ops[0]).sched; s'.cur < |s'.items| && Dispatched(s', ops[1..], id))
  }

  /** A task d steps ahead is dispatched within d ticks plus one per task added meanwhile. */
  lemma {:induction false} BoundedWaiting(s: Sched, ops: seq<Op>, id: nat)
    requires Inv(s) && Run(s, ops).Next? && Present(s, id)
    requires Ticks(ops) >= Distance(s, id) + Adds(ops)
    ensures Dispatched(s, ops, id)
    decreases |ops|
  {
    if Distance(s, id) > 0 {
      Closer(s, ops[0], id);
      BoundedWaiting(Step(s, ops[0]).sched, ops[1..], id);
    }
  }

  lemma {:induction false} RunKeeps(s: Sched, ops: seq<Op>)
    requires Inv(s) && Run(s, ops).Next?
    ensures Inv(Run(s, ops).sched)
    decreases |ops|
  {
    if ops != [] {
      StepKeeps(s, ops[0]);
      RunKeeps(Step(s, ops[0]).sched, ops[1..]);
    }
  }

  /** A removed task never comes back: over any later run it is not in the ring, so it is never dispatched. */
  lemma {:induction false} RemovedStaysGone(s: Sched, ops: seq<Op>, id: nat)
    requires Inv(s) && id < s.nextId && !Present(s, id)
    ensures !Dispatched(s, ops, id)
    ensures Run(s, ops).Next? ==> !Present(Run(s, ops).sched, id)
    decreases |ops|
  {
    if ops != [] && Step(s, ops[0]).Next? {
      var s' := Step(s, ops[0]).sched;
      StepKeeps(s, ops[0]);
      StillAbsent(s, ops[0], id);
      RemovedStaysGone(s', ops[1..], id);
    }
  }

  lemma StillAbsent(s: Sched, op: Op, id: nat)
    requires Inv(s) && id < s.nextId && !Present(s, id) && Step(s, op).Next?
    ensures !Present(Step(s, op).sched, id) && id < Step(s, op).sched.nextId
  {
  }

  /** With two or more tasks a tick on a marked task takes exactly that task out, and dispatches another. */
  lemma DeletedIsGone(s: Sched, ctx: Context)
    requires Inv(s) && s.items[s.cur].data.marked
    ensures Step(s, Tick(ctx)).Dangling? <==> |s.items| == 1
    ensures |s.items| > 1 ==>
              var s', id := Step(s, Tick(ctx)).sched, s.items[s.cur].data.id;
              && Inv(s') && !Present(s', id) && id < s'.nextId
              && s'.items[s'.cur].data.id == s.items[Succ(s.cur, |s.items|)].data.id
  {
    if |s.items| > 1 {
      StepKeeps(s, Tick(ctx));
    }
  }

  /** Taking out position k takes out that task and no other. */
  lemma OthersStay(items: seq<Item<Task>>, k: nat, id: nat)
    requires k < |items| && forall i, j :: 0 <= i < j < |items| ==> items[i].data.id != items[j].data.id
    ensures (exists i :: 0 <= i < |items| - 1 && Removed(items, k)[i].data.id == id) <==>
            (exists i :: 0 <= i < |items| && items[i].data.id == id) && id != items[k].data.id
  {
    var rest := Removed(items, k);
    assert forall i :: 0 <= i < |rest| ==> rest[i] == items[if i < k then i else i + 1];
    forall i | 0 <= i < |items| && i != k && items[i].data.id == id
      ensures exists j :: 0 <= j < |rest| && rest[j].data.id == id
    {
      assert rest[if i < k then i else i - 1] == items[i];
    }
  }

  lemma MarkedLeaves(s: Sched, ctx: Context, id: nat)
    requires Inv(s) && |s.items| > 1 && s.items[s.cur].data.marked
    ensures Step(s, Tick(ctx)).Next?
    ensures Present(Step(s, Tick(ctx)).sched, id) <==> Present(s, id) && id != s.items[s.cur].data.id
  {
    hide Removed;
    RemovedSize(s.items, s.cur);
    OthersStay(s.items, s.cur, id);
  }

  lemma RemovedSize(items: seq<Item<Task>>, k: nat)
    requires k < |items|
    ensures |Removed(items, k)| == |items| - 1
  {
  }

  lemma ExitKeepsIds(s: Sched, id: nat)
    requires Inv(s)
    ensures Step(s, Exit).Next?
    ensures var s' := Step(s, Exit).sched;
            && |s'.items| == |s.items| && s'.cur == s.cur && s'.items[s.cur].data.marked
            && s'.items[s.cur].data.id == s.items[s.cur].data.id && (Present(s', id) <==> Present(s, id))
  {
    var s' := Step(s, Exit).sched;
    assert forall i :: 0 <= i < |s.items| ==> s'.items[i].data.id == s.items[i].data.id;
  }

  /** A task that asks to be deleted is out of the ring after the next tick, and every other task still in it. */
  lemma ExitThenTick(s: Sched, ctx: Context, id: nat)
    requires Inv(s) && |s.items| > 1
    ensures Step(s, Exit).Next? && Inv(Step(s, Exit).sched) && Step(Step(s, Exit).sched, Tick(ctx)).Next?
    ensures Present(Step(Step(s, Exit).sched, Tick(ctx)).sched, id) <==>
            Present(s, id) && id != s.items[s.cur].data.id
  {
    ExitKeepsIds(s, id);
    StepKeeps(s, Exit);
    hide Inv, Present, Step;
    MarkedLeaves(Step(s, Exit).sched, ctx, id);
  }

  /** A new task comes last in the ring, with its context, its kind and the next number; the others stay. */
  lemma AddedLast(s: Sched, ctx: Context, thread: bool)
    requires Inv(s) && Step(s, Add(ctx, thread)).Next?
    ensures var s', n := Step(s, Add(ctx, thread)).sched, |s.items|;
            && |s'.items| == n + 1 && s'.cur == s.cur && s'.nextId == s.nextId + 1
            && s'.items[n].data == Task(ctx, s.nextId, thread, false)
            && forall i :: 0 <= i < n ==> s'.items[i].data == s.items[i].data
  {
  }

  // ---- context integrity ----

  /** One context recorded for one task, at its creation or when it was suspended. */
  datatype Record = Record(id: nat, ctx: Context)

  /** What the step records, read off the event alone. */
  function Recorded(s: Sched, op: Op): seq<Record>
    requires s.cur < |s.items|
  {
    match op
    case Tick(ctx) => if s.items[s.cur].data.marked then [] else [Record(s.items[s.cur].data.id, ctx)]
    case Add(ctx, _) => [Record(s.nextId, ctx)]
    case Exit => []
  }

  function Latest(log: seq<Record>, id: nat): Option<Context> {
    if log == [] then None
    else if log[|log| - 1].id == id then Some(log[|log| - 1].ctx)
    else Latest(log[..|log| - 1], id)
  }

  /** Every task holds the context most recently recorded for it. */
  ghost predicate Faithful(s: Sched, log: seq<Record>) {
    forall i :: 0 <= i < |s.items| ==> Latest(log, s.items[i].data.id) == Some(s.items[i].data.ctx)
  }

  lemma LatestOfOne(log: seq<Record>, r: Record, id: nat)
    ensures Latest(log + [r], id) == if r.id == id then Some(r.ctx) else Latest(log, id)
  {
    assert (log + [r])[..|log + [r]| - 1] == log;
  }

  lemma StepIsFaithful(s: Sched, op: Op, log: seq<Record>)
    requires Inv(s) && Faithful(s, log) && Step(s, op).Next?
    ensures Faithful(Step(s, op).sched, log + Recorded(s, op))
  {
    var s' := Step(s, op).sched;
    var rs := Recorded(s, op);
    assert rs == [] ==> log + rs == log;
    forall i | 0 <= i < |s'.items| ensures Latest(log + rs, s'.items[i].data.id) == Some(s'.items[i].data.ctx) {
      if rs != [] {
        LatestOfOne(log, rs[0], s'.items[i].data.id);
      }
    }
  }

  /** All records of a run, in order. */
  function Log(s: Sched, ops: seq<Op>): seq<Record>
    requires s.cur < |s.items|
    decreases |ops|
  {
    if ops == [] then []
    else
      var rest :=
        match Step(s, ops[0])
        case Next(s') => if s'.cur < |s'.items| then Log(s', ops[1..]) else []
        case _ => [];
      Recorded(s, ops[0]) + rest
  }

  /** Over every run each task, the one being dispatched included, has exactly the context last recorded for it. */
  lemma {:induction false} ContextIntegrity(s: Sched, ops: seq<Op>, log: seq<Record>)
    requires Inv(s) && Faithful(s, log) && Run(s, ops).Next?
    ensures Inv(Run(s, ops).sched) && Faithful(Run(s, ops).sched, log + Log(s, ops))
    decreases |ops|
  {
    if ops == [] {
      assert log + Log(s, ops) == log;
    } else {
      var s' := Step(s, ops[0]).sched;
      StepKeeps(s, ops[0]);
      StepIsFaithful(s, ops[0], log);
      ContextIntegrity(s', ops[1..], log + Recorded(s, ops[0]));
      assert log + Recorded(s, ops[0]) + Log(s', ops[1..]) == log + Log(s, ops);
    }
  }

  /** A tick changes no other task's saved state. */
  lemma TickTouchesOnlyCurrent(s: Sched, ctx: Context, i: nat)
    requires Inv(s) && Step(s, Tick(ctx)).Next? && i < |s.items| && i != s.cur
    ensures Moved(s, Tick(ctx), i) < |Step(s, Tick(ctx)).sched.items|
    ensures Step(s, Tick(ctx)).sched.items[Moved(s, Tick(ctx), i)] == s.items[i]
  {
  }

  // ---- where the code falls short: the last mark ----

  predicate TailMarked(s: Sched) {
    s.items != [] && s.items[|s.items| - 1].last
  }

  /** Tasks can be added exactly while the tail carries the mark; deleting the tail loses it. */
  lemma MarkStep(s: Sched, op: Op)
    requires Inv(s)
    ensures op.Add? ==> (Step(s, op).Next? <==> TailMarked(s))
    ensures Step(s, op).Next? ==>
              (TailMarked(Step(s, op).sched) <==>
               TailMarked(s) && !(op.Tick? && s.items[s.cur].data.marked && s.cur == |s.items| - 1))
  {
  }

  /** Once the mark is lost it never comes back, and every later addition stops the machine. */
  lemma {:induction false} MarkLostForEver(s: Sched, ops: seq<Op>)
    requires Inv(s) && !TailMarked(s) && Run(s, ops).Next?
    ensures Adds(ops) == 0 && !TailMarked(Run(s, ops).sched)
    decreases |ops|
  {
    if ops != [] {
      MarkStep(s, ops[0]);
      StepKeeps(s, ops[0]);
      MarkLostForEver(Step(s, ops[0]).sched, ops[1..]);
    }
  }

  /** The kernel task alone, as `sched_start` leaves it. */
  function Booted(ctx: Context): Sched {
    Sched([Item(Task(ctx, 0, false, false), true)], 0, 1)
  }

  /** One task comes and goes, and the next addition stops the machine. */
  lemma OneTaskTooMany(ctx: Context)
    ensures Inv(Booted(ctx)) && Run(Booted(ctx), [Add(ctx, true), Tick(ctx), Exit, Tick(ctx), Add(ctx, true)]).Stopped?
  {
    var s0 := Booted(ctx);
    var ops := [Add(ctx, true), Tick(ctx), Exit, Tick(ctx), Add(ctx, true)];
    var s1 := Step(s0, ops[0]).sched;
    var s2 := Step(s1, ops[1]).sched;
    var s3 := Step(s2, ops[2]).sched;
    var s4 := Step(s3, ops[3]).sched;
    assert ops[1..][0] == ops[1] && ops[1..][1..] == ops[2..] && ops[2..][1..] == ops[3..] && ops[3..][1..] == ops[4..];
    assert |s1.items| == 2 && s2.cur == 1 && !s1.items[0].last;
    assert s4.items == [s1.items[0].(data := s4.items[0].data)];
    assert Step(s4, ops[4]).Stopped?;
    assert Run(s4, ops[4..]).Stopped?;
    assert Run(s3, ops[3..]).Stopped?;
    assert Run(s2, ops[2..]).Stopped?;
  }
}
