/** The round-robin scheduler as a list of tasks in creation order, a running position,
    and one saved register context per suspended task. */
module SchedulerModel {
  import opened Bytes
  import opened HeapModel
  import opened HeapTheorems

  const TCB_SIZE: u32 := 24      // sizeof(task_t)
  const STACK_SIZE: u32 := 4096

  // What a resumed task sees: the registers switch_task preserves, the stack pointer and
  // the address it continues at.
  datatype Context = Context(ebp: u32, ebx: u32, esi: u32, edi: u32, esp: int, eip: u32)

  // A task owns its control block and its stack [lo, hi).
  datatype Task = Task(tcb: nat, lo: nat, hi: nat, saved: Context)

  // `cpu` is the context of the running task `tasks[cur]`.
  datatype State = State(bs: seq<Block>, tasks: seq<Task>, cur: nat, cpu: Context)

  datatype Event =
    | Compute(cpu: Context)    // the running task's own code, up to here
    | Switch(ret: u32)         // task_switch; `ret` is the address after its inner call
    | Create(entry: u32)       // create_kernel_thread

  // The inner call pushes two arguments and a return address, the switch four registers.
  const SWITCH_ROOM := 28

  predicate OnStack(t: Task, esp: int) { t.lo + SWITCH_ROOM <= esp <= t.hi && esp % 4 == 0 }

  // The two allocations of a thread creation.
  function TcbAlloc(bs: seq<Block>): (seq<Block>, nat) { Alloc(bs, TCB_SIZE) }
  function StackAlloc(bs: seq<Block>): (seq<Block>, nat) { Alloc(TcbAlloc(bs).0, STACK_SIZE) }

  // What the code relies on: a stack with room, and allocations that succeed.
  predicate Allowed(s: State, e: Event) {
    && s.cur < |s.tasks|
    && match e
       case Compute(cpu) => OnStack(s.tasks[s.cur], cpu.esp)
       case Switch(_) => OnStack(s.tasks[s.cur], s.cpu.esp)
       case Create(_) => TcbAlloc(s.bs).1 != 0 && StackAlloc(s.bs).1 != 0
  }

  function Next(i: nat, n: nat): nat { if i + 1 < n then i + 1 else 0 }

  // What is saved of the running task: when it returns, the two arguments are still on its stack.
  function Suspended(cpu: Context, ret: u32): Context { cpu.(esp := cpu.esp - 8, eip := ret) }

  function NewTask(tcb: nat, stack: nat, entry: u32): Task {
    Task(tcb, stack, stack + STACK_SIZE, Context(0, 0, 0, 0, stack + STACK_SIZE, entry))
  }

  function Step(s: State, e: Event): State
    requires Allowed(s, e)
  {
    match e
    case Compute(cpu) => s.(cpu := cpu)
    case Switch(ret) =>
      if |s.tasks| == 1 then s
      else
        var next := Next(s.cur, |s.tasks|);
        s.(tasks := s.tasks[s.cur := s.tasks[s.cur].(saved := Suspended(s.cpu, ret))],
           cur := next, cpu := s.tasks[next].saved)
    case Create(entry) =>
      s.(bs := StackAlloc(s.bs).0, tasks := s.tasks + [NewTask(TcbAlloc(s.bs).1, StackAlloc(s.bs).1, entry)])
  }
  // ----- Memory layout: who owns what -----

  predicate Apart(lo1: nat, hi1: nat, lo2: nat, hi2: nat) { hi1 <= lo2 || hi2 <= lo1 }

  // [lo, hi) lies below the heap or inside one live payload that starts at `lo`.
  predicate Owned(bs: seq<Block>, lo: nat, hi: nat) {
    lo % 4 == 0 && (hi <= HEAP_START || (lo in Live(bs) && hi <= lo + Live(bs)[lo]))
  }

  predicate TaskOwned(bs: seq<Block>, t: Task) {
    Owned(bs, t.tcb, t.tcb + TCB_SIZE) && Owned(bs, t.lo, t.hi) && t.tcb != 0
  }

  predicate TcbOffStack(t: Task, u: Task) { Apart(t.tcb, t.tcb + TCB_SIZE, u.lo, u.hi) }

  predicate TasksApart(t: Task, u: Task) {
    Apart(t.tcb, t.tcb + TCB_SIZE, u.tcb, u.tcb + TCB_SIZE) && Apart(t.lo, t.hi, u.lo, u.hi)
  }

  // All control blocks and stacks are pairwise apart.
  ghost predicate Layout(bs: seq<Block>, tasks: seq<Task>) {
    && HeapOk(bs) && |tasks| > 0
    && (forall i {:trigger TaskOwned(bs, tasks[i])} :: 0 <= i < |tasks| ==> TaskOwned(bs, tasks[i]))
    && (forall i, j {:trigger TcbOffStack(tasks[i], tasks[j])} ::
          0 <= i < |tasks| && 0 <= j < |tasks| ==> TcbOffStack(tasks[i], tasks[j]))
    && (forall i, j {:trigger TasksApart(tasks[i], tasks[j])} ::
          0 <= i < |tasks| && 0 <= j < |tasks| && i != j ==> TasksApart(tasks[i], tasks[j]))
  }

  // A fresh payload is apart from everything that was owned before.
  lemma FreshIsApart(bs: seq<Block>, size: u32, lo: nat, hi: nat)
    requires HeapOk(bs) && Alloc(bs, size).1 != 0 && 0 < size <= 0xFFFF_FFFC && Owned(bs, lo, hi)
    ensures var (bs', p) := Alloc(bs, size);
      && HeapOk(bs') && Owned(bs', p, p + size) && Owned(bs', lo, hi)
      && Apart(p, p + size, lo, hi) && p > HEAP_START
  {
    var (bs', p) := Alloc(bs, size);
    AllocKeepsHeap(bs, size);
    LiveInRange(bs', HEAP_START);
    if hi > HEAP_START {
      if p < lo { LiveDisjoint(bs', HEAP_START, p, lo); }
      if lo < p { LiveDisjoint(bs', HEAP_START, lo, p); }
    }
  }

  lemma FreshOwned(bs: seq<Block>, size: u32)
    requires HeapOk(bs) && Alloc(bs, size).1 != 0 && 0 < size <= 0xFFFF_FFFC
    ensures var (bs', p) := Alloc(bs, size);
      HeapOk(bs') && Owned(bs', p, p + size) && p > HEAP_START && p + size <= HEAP_END
  {
    AllocKeepsHeap(bs, size);
    LiveInRange(Alloc(bs, size).0, HEAP_START);
  }

  // What a thread creation takes is apart from everything an existing task owns.
  lemma NewTaskApart(bs: seq<Block>, t: Task, entry: u32)
    requires HeapOk(bs) && TcbAlloc(bs).1 != 0 && StackAlloc(bs).1 != 0 && TaskOwned(bs, t)
    ensures var u := NewTask(TcbAlloc(bs).1, StackAlloc(bs).1, entry);
      && TaskOwned(StackAlloc(bs).0, t)
      && TcbOffStack(t, u) && TcbOffStack(u, t) && TasksApart(t, u) && TasksApart(u, t)
  {
    var bs1 := TcbAlloc(bs).0;
    FreshIsApart(bs, TCB_SIZE, t.tcb, t.tcb + TCB_SIZE);
    FreshIsApart(bs, TCB_SIZE, t.lo, t.hi);
    FreshIsApart(bs1, STACK_SIZE, t.tcb, t.tcb + TCB_SIZE);
    FreshIsApart(bs1, STACK_SIZE, t.lo, t.hi);
  }

  lemma NewTaskOwned(bs: seq<Block>, entry: u32)
    requires HeapOk(bs) && TcbAlloc(bs).1 != 0 && StackAlloc(bs).1 != 0
    ensures var u := NewTask(TcbAlloc(bs).1, StackAlloc(bs).1, entry);
      HeapOk(StackAlloc(bs).0) && TaskOwned(StackAlloc(bs).0, u) && TcbOffStack(u, u) && u.tcb > HEAP_START && u.lo > HEAP_START
  {
    FreshOwned(bs, TCB_SIZE);
    var (bs1, tcb) := TcbAlloc(bs);
    FreshOwned(bs1, STACK_SIZE);
    FreshIsApart(bs1, STACK_SIZE, tcb, tcb + TCB_SIZE);
  }

  // Creating a thread keeps all control blocks and stacks apart.
  lemma CreateKeepsLayout(bs: seq<Block>, tasks: seq<Task>, entry: u32)
    requires Layout(bs, tasks) && TcbAlloc(bs).1 != 0 && StackAlloc(bs).1 != 0
    ensures Layout(StackAlloc(bs).0, tasks + [NewTask(TcbAlloc(bs).1, StackAlloc(bs).1, entry)])
  {
    var u := NewTask(TcbAlloc(bs).1, StackAlloc(bs).1, entry);
    var tasks' := tasks + [u];
    NewTaskOwned(bs, entry);
    forall i | 0 <= i < |tasks|
      ensures TaskOwned(StackAlloc(bs).0, tasks[i])
      ensures TcbOffStack(tasks[i], u) && TcbOffStack(u, tasks[i]) && TasksApart(tasks[i], u) && TasksApart(u, tasks[i])
    {
      assert TaskOwned(bs, tasks[i]);
      NewTaskApart(bs, tasks[i], entry);
    }
    forall i, j | 0 <= i < |tasks'| && 0 <= j < |tasks'| ensures TcbOffStack(tasks'[i], tasks'[j]) {
      if i < |tasks| && j < |tasks| { assert TcbOffStack(tasks[i], tasks[j]); }
    }
    forall i, j | 0 <= i < |tasks'| && 0 <= j < |tasks'| && i != j ensures TasksApart(tasks'[i], tasks'[j]) {
      if i < |tasks| && j < |tasks| { assert TasksApart(tasks[i], tasks[j]); }
    }
  }

  // Layout does not depend on what is saved.
  lemma SavedKeepsLayout(bs: seq<Block>, tasks: seq<Task>, i: nat, t: Task)
    requires Layout(bs, tasks) && i < |tasks| && t == tasks[i].(saved := t.saved)
    ensures Layout(bs, tasks[i := t])
  {
    var tasks' := tasks[i := t];
    forall j | 0 <= j < |tasks| ensures TaskOwned(bs, tasks'[j]) { assert TaskOwned(bs, tasks[j]); }
    forall j, k | 0 <= j < |tasks| && 0 <= k < |tasks| ensures TcbOffStack(tasks'[j], tasks'[k]) {
      assert TcbOffStack(tasks[j], tasks[k]);
    }
    forall j, k | 0 <= j < |tasks| && 0 <= k < |tasks| && j != k ensures TasksApart(tasks'[j], tasks'[k]) {
      assert TasksApart(tasks[j], tasks[k]);
    }
  }
}
