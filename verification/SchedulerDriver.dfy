/** task.c and switch.S as they run: control blocks, links and stacks are words of the
    same memory the heap manages, and the switch is a sequence of pushes and pops. */
module SchedulerDriver {
  import opened Bytes
  import opened HeapModel
  import HeapTheorems
  import opened HeapDriver
  import opened SchedulerModel

  // Field offsets of task_t.
  const ID := 0
  const ESP := 4
  const EBP := 8
  const EIP := 12
  const CR3 := 16
  const NEXT := 20

  // Memory holds the words `ws` from `sp` upwards.
  ghost predicate WordsAt(mem: Memory, sp: int, ws: seq<u32>) {
    forall k :: 0 <= k < |ws| ==> sp + 4 * k in mem && mem[sp + 4 * k] == ws[k]
  }

  // A suspended stack from its stack pointer upwards, as the switch routine pops it.
  function Frame(c: Context): seq<u32> { [c.edi, c.esi, c.ebx, c.ebp, c.eip] }

  lemma WordsFrame(mem: Memory, mem': Memory, sp: nat, ws: seq<u32>, lo: nat, hi: nat)
    requires WordsAt(mem, sp, ws) && SameOutside(mem, mem', lo, hi) && Apart(sp, sp + 4 * |ws|, lo, hi)
    ensures WordsAt(mem', sp, ws)
  {
  }

  // The control block of a task, linked to `next`.
  predicate TcbIs(mem: Memory, tcb: nat, id: u32, cr3: u32, next: nat) {
    && tcb + ID in mem && tcb + CR3 in mem && tcb + NEXT in mem
    && mem[tcb + ID] == id && mem[tcb + CR3] == cr3 && mem[tcb + NEXT] == next
  }

  // The three fields of a new control block that no one reads before its first turn.
  predicate TcbStart(mem: Memory, tcb: nat, sp: int, bp: int, ip: int) {
    && tcb + 4 in mem && mem[tcb + 4] == sp
    && tcb + 8 in mem && mem[tcb + 8] == bp
    && tcb + 12 in mem && mem[tcb + 12] == ip
  }

  // A suspended task: its saved stack pointer leads to its frame, on its own stack.
  ghost predicate SuspendedIs(mem: Memory, t: Task) {
    && t.lo + 20 <= t.saved.esp <= t.hi && t.saved.esp % 4 == 0
    && t.tcb + ESP in mem && mem[t.tcb + ESP] == t.saved.esp - 20
    && WordsAt(mem, t.saved.esp - 20, Frame(t.saved))
  }

  function Pid(i: nat): u32 { (i + 1) % 0x1_0000_0000 }

  function NextTcb(tasks: seq<Task>, i: nat): nat
    requires i < |tasks|
  {
    tasks[Next(i, |tasks|)].tcb
  }

  ghost predicate TaskIs(mem: Memory, tasks: seq<Task>, i: nat, cur: nat, cr3: u32)
    requires i < |tasks|
  {
    TcbIs(mem, tasks[i].tcb, Pid(i), cr3, NextTcb(tasks, i)) && (i != cur ==> SuspendedIs(mem, tasks[i]))
  }

  // The `next` links form one ring through all tasks in order; every task but the running
  // one is suspended.
  ghost predicate RingIs(mem: Memory, tasks: seq<Task>, cur: nat, cr3: u32) {
    forall i :: 0 <= i < |tasks| ==> TaskIs(mem, tasks, i, cur, cr3)
  }

  lemma FrameWords(mem: Memory, sp: int, c: Context)
    requires WordsAt(mem, sp, Frame(c))
    ensures sp in mem && mem[sp] == c.edi && sp + 4 in mem && mem[sp + 4] == c.esi
    ensures sp + 8 in mem && mem[sp + 8] == c.ebx && sp + 12 in mem && mem[sp + 12] == c.ebp
    ensures sp + 16 in mem && mem[sp + 16] == c.eip
  {
    var f := Frame(c);
    assert f[0] == c.edi && f[1] == c.esi && f[2] == c.ebx && f[3] == c.ebp && f[4] == c.eip;
    assert sp + 4 * 0 in mem && sp + 4 * 1 in mem && sp + 4 * 2 in mem && sp + 4 * 3 in mem && sp + 4 * 4 in mem;
  }

  // Task `i` of the ring in numbers: its control block holds the process ID, the page
  // directory and the link to the next task; unless it is running, the word at 4 points
  // 20 bytes below its stack pointer, where EDI, ESI, EBX, EBP and EIP lie upwards.
  lemma TaskInMemory(mem: Memory, tasks: seq<Task>, cur: nat, cr3: u32, i: nat)
    requires RingIs(mem, tasks, cur, cr3) && i < |tasks|
    ensures var t := tasks[i];
      && t.tcb in mem && mem[t.tcb] == (i + 1) % 0x1_0000_0000
      && t.tcb + 16 in mem && mem[t.tcb + 16] == cr3
      && t.tcb + 20 in mem && mem[t.tcb + 20] == tasks[if i + 1 < |tasks| then i + 1 else 0].tcb
    ensures i != cur ==> var (t, c) := (tasks[i], tasks[i].saved); var sp := c.esp - 20;
      && t.tcb + 4 in mem && mem[t.tcb + 4] == sp
      && t.lo <= sp && c.esp <= t.hi && sp % 4 == 0
      && sp in mem && mem[sp] == c.edi && sp + 4 in mem && mem[sp + 4] == c.esi
      && sp + 8 in mem && mem[sp + 8] == c.ebx && sp + 12 in mem && mem[sp + 12] == c.ebp
      && sp + 16 in mem && mem[sp + 16] == c.eip
  {
    assert TaskIs(mem, tasks, i, cur, cr3);
    if i != cur {
      var c := tasks[i].saved;
      assert WordsAt(mem, c.esp - 20, Frame(c));
      FrameWords(mem, c.esp - 20, c);
    }
  }

  lemma TcbFrame(mem: Memory, mem': Memory, tcb: nat, id: u32, cr3: u32, next: nat, lo: nat, hi: nat)
    requires TcbIs(mem, tcb, id, cr3, next) && SameOutside(mem, mem', lo, hi) && Apart(tcb, tcb + TCB_SIZE, lo, hi)
    ensures TcbIs(mem', tcb, id, cr3, next)
  {
  }

  lemma SuspendedFrame(mem: Memory, mem': Memory, t: Task, lo: nat, hi: nat)
    requires SuspendedIs(mem, t) && SameOutside(mem, mem', lo, hi)
    requires Apart(t.tcb, t.tcb + TCB_SIZE, lo, hi) && Apart(t.lo, t.hi, lo, hi)
    ensures SuspendedIs(mem', t)
  {
  }

  // Words of an owned stretch belong to no block header, so stores there keep the heap.
  lemma StoresKeepHeap(mem: Memory, mem': Memory, bs: seq<Block>, lo: nat, hi: nat)
    requires RamOk(mem) && HeapOk(bs) && Rep(mem, bs) && Owned(bs, lo, hi)
    requires SameOutside(mem, mem', lo, hi)
    ensures RamOk(mem') && Rep(mem', bs)
  {
    PayloadWritesKeepRep(mem, mem', bs, lo, hi);
  }

  lemma OwnedInRam(mem: Memory, bs: seq<Block>, lo: nat, hi: nat)
    requires RamOk(mem) && HeapOk(bs) && Owned(bs, lo, hi)
    ensures hi <= HEAP_END && forall a: nat :: lo <= a < hi && a % 4 == 0 ==> a in mem
  {
    LiveInRange(bs, HEAP_START);
  }

  predicate Writes(t: Task, a: nat) {
    t.lo <= a < t.hi || t.tcb + ESP <= a < t.tcb + ESP + 4 || t.tcb + EIP <= a < t.tcb + EIP + 4
  }

  // Only words of the task's stack and two fields of its control block differ.
  ghost predicate WroteOnly(mem: Memory, mem': Memory, t: Task) {
    && mem'.Keys == mem.Keys
    && forall a :: a in mem && !Writes(t, a) ==> mem'[a] == mem[a]
  }

  predicate WordsExist(mem: Memory, lo: nat, hi: nat) { forall a: nat :: lo <= a < hi && a % 4 == 0 ==> a in mem }

  // A word pushed below `sp`.
  lemma Pushed(mem: Memory, sp: nat, w: u32, ws: seq<u32>)
    requires sp >= 4 && sp - 4 in mem && WordsAt(mem, sp, ws)
    ensures WordsAt(mem[sp - 4 := w], sp - 4, [w] + ws)
    ensures SameOutside(mem, mem[sp - 4 := w], sp - 4, sp)
  {
    var m := mem[sp - 4 := w];
    forall k | 0 <= k < |ws| + 1 ensures sp - 4 + 4 * k in m && m[sp - 4 + 4 * k] == ([w] + ws)[k] {
      if k > 0 { assert sp + 4 * (k - 1) in mem && mem[sp + 4 * (k - 1)] == ws[k - 1]; }
    }
    assert m.Keys == mem.Keys;
  }

  lemma StackOrder(edi: u32, esi: u32, ebx: u32, ebp: u32, rest: seq<u32>)
    ensures [edi] + ([esi] + ([ebx] + ([ebp] + rest))) == [edi, esi, ebx, ebp] + rest
  {
    assert [ebx] + ([ebp] + rest) == [ebx, ebp] + rest;
    assert [esi] + ([ebx, ebp] + rest) == [esi, ebx, ebp] + rest;
    assert [edi] + ([esi, ebx, ebp] + rest) == [edi, esi, ebx, ebp] + rest;
  }

  lemma FrameSaved(mem: Memory, sp: int, words: seq<u32>, c: Context)
    requires WordsAt(mem, sp, words) && |words| >= 5
    requires words[0] == c.edi && words[1] == c.esi && words[2] == c.ebx && words[3] == c.ebp && words[4] == c.eip
    ensures WordsAt(mem, sp, Frame(c))
  {
    forall k | 0 <= k < 5 ensures sp + 4 * k in mem && mem[sp + 4 * k] == Frame(c)[k] {
      assert mem[sp + 4 * k] == words[k];
    }
  }

  lemma SwitchWroteOnly(m0: Memory, m1: Memory, m2: Memory, m3: Memory, t: Task)
    requires SameOutside(m0, m1, t.tcb + EIP, t.tcb + EIP + 4)
    requires SameOutside(m1, m2, t.lo, t.hi)
    requires SameOutside(m2, m3, t.tcb + ESP, t.tcb + ESP + 4)
    ensures WroteOnly(m0, m3, t)
  {
  }

  // The new control block and stack lie apart from everything task `t` owns.
  predicate ClearOf(t: Task, tcb: nat, stack: nat) {
    && Apart(t.tcb, t.tcb + TCB_SIZE, tcb, tcb + TCB_SIZE) && Apart(t.lo, t.hi, tcb, tcb + TCB_SIZE)
    && Apart(t.tcb, t.tcb + TCB_SIZE, stack, stack + STACK_SIZE) && Apart(t.lo, t.hi, stack, stack + STACK_SIZE)
  }

  lemma NewThreadClear(bs: seq<Block>, tasks: seq<Task>, entry: u32)
    requires Layout(bs, tasks) && TcbAlloc(bs).1 != 0 && StackAlloc(bs).1 != 0
    ensures forall i :: 0 <= i < |tasks| ==> ClearOf(tasks[i], TcbAlloc(bs).1, StackAlloc(bs).1)
  {
    forall i | 0 <= i < |tasks| ensures ClearOf(tasks[i], TcbAlloc(bs).1, StackAlloc(bs).1) {
      assert TaskOwned(bs, tasks[i]);
      NewTaskApart(bs, tasks[i], entry);
    }
  }

  lemma AllocKeepsOwned(bs: seq<Block>, size: u32, t: Task)
    requires HeapOk(bs) && TaskOwned(bs, t)
    ensures TaskOwned(Alloc(bs, size).0, t)
  {
    HeapTheorems.AllocKeepsHeap(bs, size);
  }

  lemma OwnedKept(m: Memory, m': Memory, bs: seq<Block>, lo: nat, hi: nat)
    requires HeapOk(bs) && Owned(bs, lo, hi) && KeepsPayloads(m, m', Live(bs))
    ensures forall a :: a in m && lo <= a < hi ==> m'[a] == m[a]
  {
    forall a | a in m && lo <= a < hi ensures m'[a] == m[a] {
      if hi > HEAP_START { assert InLive(Live(bs), a); }
    }
  }

  // An allocation leaves every task's control block and suspended frame alone.
  lemma AllocKeepsTask(m: Memory, m': Memory, bs: seq<Block>, tasks: seq<Task>, i: nat, cur: nat, cr3: u32)
    requires HeapOk(bs) && i < |tasks| && TaskOwned(bs, tasks[i]) && KeepsPayloads(m, m', Live(bs))
    requires TaskIs(m, tasks, i, cur, cr3)
    ensures TaskIs(m', tasks, i, cur, cr3)
  {
    OwnedKept(m, m', bs, tasks[i].tcb, tasks[i].tcb + TCB_SIZE);
    OwnedKept(m, m', bs, tasks[i].lo, tasks[i].hi);
  }

  // Stores apart from everything the tasks own leave the ring alone.
  lemma ElsewhereKeepsRing(m: Memory, m': Memory, tasks: seq<Task>, cur: nat, cr3: u32, lo: nat, hi: nat)
    requires RingIs(m, tasks, cur, cr3) && SameOutside(m, m', lo, hi)
    requires forall i :: 0 <= i < |tasks| ==>
      Apart(tasks[i].tcb, tasks[i].tcb + TCB_SIZE, lo, hi) && Apart(tasks[i].lo, tasks[i].hi, lo, hi)
    ensures RingIs(m', tasks, cur, cr3)
  {
    forall i | 0 <= i < |tasks| ensures TaskIs(m', tasks, i, cur, cr3) {
      assert TaskIs(m, tasks, i, cur, cr3);
      if i != cur { SuspendedFrame(m, m', tasks[i], lo, hi); }
    }
  }

  // What the running task stores on its own stack is its own business.
  lemma OwnStackKeepsRing(m: Memory, m': Memory, bs: seq<Block>, tasks: seq<Task>, cur: nat, cr3: u32)
    requires RamOk(m) && Rep(m, bs) && Layout(bs, tasks) && cur < |tasks| && RingIs(m, tasks, cur, cr3)
    requires SameOutside(m, m', tasks[cur].lo, tasks[cur].hi)
    ensures RamOk(m') && Rep(m', bs) && RingIs(m', tasks, cur, cr3)
  {
    assert TaskOwned(bs, tasks[cur]);
    StoresKeepHeap(m, m', bs, tasks[cur].lo, tasks[cur].hi);
    forall i | 0 <= i < |tasks| ensures TaskIs(m', tasks, i, cur, cr3) {
      assert TaskIs(m, tasks, i, cur, cr3) && TcbOffStack(tasks[i], tasks[cur]);
      TcbFrame(m, m', tasks[i].tcb, Pid(i), cr3, NextTcb(tasks, i), tasks[cur].lo, tasks[cur].hi);
      if i != cur {
        assert TasksApart(tasks[i], tasks[cur]);
        SuspendedFrame(m, m', tasks[i], tasks[cur].lo, tasks[cur].hi);
      }
    }
  }

  lemma LinkKeepsSuspended(m: Memory, m': Memory, t: Task, at: nat)
    requires SuspendedIs(m, t) && SameOutside(m, m', at, at + 4)
    requires Apart(t.tcb + ESP, t.tcb + ESP + 4, at, at + 4) && Apart(t.lo, t.hi, at, at + 4)
    ensures SuspendedIs(m', t)
  {
  }

  // Pointing the last task at the new one closes the longer ring.
  lemma LinkedRing(m: Memory, m': Memory, bs: seq<Block>, tasks: seq<Task>, u: Task, cur: nat, cr3: u32)
    requires Layout(bs, tasks + [u]) && |tasks| > 0 && cur < |tasks| && RingIs(m, tasks, cur, cr3)
    requires TcbIs(m, u.tcb, Pid(|tasks|), cr3, tasks[0].tcb) && SuspendedIs(m, u)
    requires var at := tasks[|tasks| - 1].tcb + NEXT; SameOutside(m, m', at, at + 4) && at in m' && m'[at] == u.tcb
    ensures RingIs(m', tasks + [u], cur, cr3)
  {
    var tasks', n := tasks + [u], |tasks|;
    var at := tasks[n - 1].tcb + NEXT;
    forall i | 0 <= i < |tasks'| ensures TaskIs(m', tasks', i, cur, cr3) {
      assert i < n ==> TaskIs(m, tasks, i, cur, cr3);
      assert TcbOffStack(tasks'[n - 1], tasks'[i]) && TcbOffStack(tasks'[i], tasks'[i]);
      assert i != n - 1 ==> TasksApart(tasks'[i], tasks'[n - 1]);
      if i != cur { LinkKeepsSuspended(m, m', tasks'[i], at); }
    }
  }

  lemma PidStep(n: nat)
    ensures (Pid(n) + 1) % 0x1_0000_0000 == Pid(n + 1)
  {
    var q := (n + 1) / 0x1_0000_0000;
    assert n + 2 == q * 0x1_0000_0000 + (Pid(n) + 1);
  }

  lemma FirstIsUnique(bs: seq<Block>, tasks: seq<Task>, u: Task)
    requires Layout(bs, tasks + [u]) && |tasks| > 0
    ensures forall i :: 0 < i < |tasks| ==> tasks[i].tcb != tasks[0].tcb
  {
    forall i | 0 < i < |tasks| ensures tasks[i].tcb != tasks[0].tcb {
      assert TasksApart((tasks + [u])[i], (tasks + [u])[0]);
    }
  }

  lemma TcbWords(mem: Memory, tcb: nat)
    requires tcb % 4 == 0 && WordsExist(mem, tcb, tcb + TCB_SIZE)
    ensures tcb + ID in mem && tcb + ESP in mem && tcb + EBP in mem && tcb + EIP in mem && tcb + CR3 in mem && tcb + NEXT in mem
  {
    assert (tcb + 4) % 4 == 0 && (tcb + 8) % 4 == 0 && (tcb + 12) % 4 == 0 && (tcb + 16) % 4 == 0 && (tcb + 20) % 4 == 0;
  }

  // A single task linked to itself.
  lemma OneTask(mem: Memory, bs: seq<Block>, t: Task, cr3: u32)
    requires HeapOk(bs) && Owned(bs, t.tcb, t.tcb + TCB_SIZE) && t.lo % 4 == 0 && t.hi <= HEAP_START < t.tcb
    requires TcbIs(mem, t.tcb, 1, cr3, t.tcb)
    ensures Layout(bs, [t]) && RingIs(mem, [t], 0, cr3)
  {
    var tasks := [t];
    assert TaskOwned(bs, tasks[0]) && TcbOffStack(tasks[0], tasks[0]) && TaskIs(mem, tasks, 0, 0, cr3);
  }

  function Left(tasks: seq<Task>, cur: nat, left: Context): seq<Task>
    requires cur < |tasks|
  {
    tasks[cur := tasks[cur].(saved := left)]
  }

  // A switch writes only memory its task owns, so the heap's headers are untouched.
  lemma StoresKeepHeap2(m0: Memory, m3: Memory, bs: seq<Block>, t: Task)
    requires RamOk(m0) && HeapOk(bs) && Rep(m0, bs) && WroteOnly(m0, m3, t)
    requires Owned(bs, t.tcb, t.tcb + TCB_SIZE) && Owned(bs, t.lo, t.hi)
    ensures RamOk(m3) && Rep(m3, bs)
  {
    var m1: Memory := map a | a in m0 :: if t.tcb <= a < t.tcb + TCB_SIZE then m3[a] else m0[a];
    assert m1.Keys == m0.Keys;
    StoresKeepHeap(m0, m1, bs, t.tcb, t.tcb + TCB_SIZE);
    StoresKeepHeap(m1, m3, bs, t.lo, t.hi);
  }

  lemma LeftKeepsLayout(bs: seq<Block>, tasks: seq<Task>, cur: nat, left: Context)
    requires Layout(bs, tasks) && cur < |tasks|
    ensures Layout(bs, Left(tasks, cur, left))
  {
    SavedKeepsLayout(bs, tasks, cur, tasks[cur].(saved := left));
  }

  lemma SuspendedElsewhere(mem: Memory, mem': Memory, t: Task, c: Task)
    requires SuspendedIs(mem, t) && WroteOnly(mem, mem', c)
    requires Apart(t.tcb, t.tcb + TCB_SIZE, c.lo, c.hi) && Apart(t.tcb, t.tcb + TCB_SIZE, c.tcb, c.tcb + TCB_SIZE)
    requires Apart(t.lo, t.hi, c.lo, c.hi) && Apart(t.lo, t.hi, c.tcb, c.tcb + TCB_SIZE)
    ensures SuspendedIs(mem', t)
  {
  }

  // After the hand-over the old task is suspended and every other one still is.
  lemma SwitchKeepsRing(mem: Memory, mem': Memory, bs: seq<Block>, tasks: seq<Task>, cur: nat, cr3: u32, left: Context)
    requires Layout(bs, tasks) && cur < |tasks| && RingIs(mem, tasks, cur, cr3)
    requires WroteOnly(mem, mem', tasks[cur])
    requires SuspendedIs(mem', tasks[cur].(saved := left))
    ensures RingIs(mem', Left(tasks, cur, left), Next(cur, |tasks|), cr3)
  {
    var tasks' := tasks[cur := tasks[cur].(saved := left)];
    forall i | 0 <= i < |tasks| ensures TaskIs(mem', tasks', i, Next(cur, |tasks|), cr3) {
      assert TaskIs(mem, tasks, i, cur, cr3);
      assert NextTcb(tasks', i) == NextTcb(tasks, i);
      assert TcbOffStack(tasks[i], tasks[cur]) && TcbOffStack(tasks[cur], tasks[i]);
      assert i != cur ==> TasksApart(tasks[i], tasks[cur]);
      if i != cur { SuspendedElsewhere(mem, mem', tasks[i], tasks[cur]); }
    }
  }

  // What the hand-over leaves in memory.
  lemma Handed(mem: Memory, mem': Memory, bs: seq<Block>, tasks: seq<Task>, cur: nat, cr3: u32, left: Context)
    requires RamOk(mem) && Rep(mem, bs) && Layout(bs, tasks) && cur < |tasks| && RingIs(mem, tasks, cur, cr3)
    requires WroteOnly(mem, mem', tasks[cur]) && SuspendedIs(mem', tasks[cur].(saved := left))
    ensures RamOk(mem') && Rep(mem', bs) && Layout(bs, Left(tasks, cur, left))
    ensures RingIs(mem', Left(tasks, cur, left), Next(cur, |tasks|), cr3)
  {
    assert TaskOwned(bs, tasks[cur]);
    StoresKeepHeap2(mem, mem', bs, tasks[cur]);
    SwitchKeepsRing(mem, mem', bs, tasks, cur, cr3, left);
    LeftKeepsLayout(bs, tasks, cur, left);
  }

  // What the hand-over finds in memory: the next task, suspended, and room to leave.
  lemma ReadyToSwitch(mem: Memory, bs: seq<Block>, tasks: seq<Task>, cur: nat, cr3: u32)
    requires RamOk(mem) && Layout(bs, tasks) && cur < |tasks| && RingIs(mem, tasks, cur, cr3) && |tasks| > 1
    ensures var (t, u) := (tasks[cur], tasks[Next(cur, |tasks|)]);
      && TcbIs(mem, t.tcb, Pid(cur), cr3, u.tcb) && TcbIs(mem, u.tcb, Pid(Next(cur, |tasks|)), cr3, NextTcb(tasks, Next(cur, |tasks|)))
      && t.tcb != u.tcb && t.tcb != 0
      && SuspendedIs(mem, u)
      && t.tcb % 4 == 0 && t.lo % 4 == 0 && t.hi <= HEAP_END && t.tcb + TCB_SIZE <= HEAP_END
      && WordsExist(mem, t.lo, t.hi) && t.tcb + EIP in mem && t.tcb + ESP in mem
      && Owned(bs, t.tcb, t.tcb + TCB_SIZE) && Owned(bs, t.lo, t.hi)
      && Apart(t.tcb, t.tcb + TCB_SIZE, t.lo, t.hi) && Apart(t.tcb, t.tcb + TCB_SIZE, u.lo, u.hi)
      && Apart(t.lo, t.hi, u.lo, u.hi) && Apart(t.tcb, t.tcb + TCB_SIZE, u.tcb, u.tcb + TCB_SIZE)
  {
    var t, u := tasks[cur], tasks[Next(cur, |tasks|)];
    assert TaskIs(mem, tasks, cur, cur, cr3) && TaskIs(mem, tasks, Next(cur, |tasks|), cur, cr3);
    assert TaskOwned(bs, t) && TcbOffStack(t, t) && TcbOffStack(t, u) && TasksApart(t, u);
    OwnedInRam(mem, bs, t.tcb, t.tcb + TCB_SIZE);
    OwnedInRam(mem, bs, t.lo, t.hi);
    assert (t.tcb + EIP) % 4 == 0 && (t.tcb + ESP) % 4 == 0;
  }

  // The last task in numbers: 4096 bytes of live stack with the first frame at the top, a
  // live control block of 24 bytes with its links, and the link of the task before it.
  ghost predicate NewThread(mem: Memory, bs: seq<Block>, tasks: seq<Task>, entry: u32)
    requires |tasks| > 1
  {
    var (n, t) := (|tasks| - 1, tasks[|tasks| - 1]);
    && t.hi == t.lo + 4096 && t.lo in Live(bs) && 4096 <= Live(bs)[t.lo]
    && t.tcb in Live(bs) && 24 <= Live(bs)[t.tcb]
    && t.lo + 4076 in mem && mem[t.lo + 4076] == 0 && t.lo + 4080 in mem && mem[t.lo + 4080] == 0
    && t.lo + 4084 in mem && mem[t.lo + 4084] == 0 && t.lo + 4088 in mem && mem[t.lo + 4088] == 0
    && t.lo + 4092 in mem && mem[t.lo + 4092] == entry
    && t.tcb + 4 in mem && mem[t.tcb + 4] == t.lo + 4076
    && t.tcb in mem && mem[t.tcb] == (n + 1) % 0x1_0000_0000
    && t.tcb + 20 in mem && mem[t.tcb + 20] == tasks[0].tcb
    && tasks[n - 1].tcb + 20 in mem && mem[tasks[n - 1].tcb + 20] == t.tcb
  }

  lemma NewThreadIs(mem: Memory, bs: seq<Block>, was: seq<Block>, tasks: seq<Task>, cur: nat, cr3: u32, entry: u32)
    requires |tasks| > 1 && cur < |tasks| - 1 && Layout(bs, tasks) && RingIs(mem, tasks, cur, cr3)
    requires HeapOk(was) && TcbAlloc(was).1 != 0 && StackAlloc(was).1 != 0 && bs == StackAlloc(was).0
    requires tasks[|tasks| - 1] == NewTask(TcbAlloc(was).1, StackAlloc(was).1, entry)
    ensures NewThread(mem, bs, tasks, entry)
  {
    var n := |tasks| - 1;
    NewTaskOwned(was, entry);
    TaskInMemory(mem, tasks, cur, cr3, n);
    TaskInMemory(mem, tasks, cur, cr3, n - 1);
    assert TaskOwned(bs, tasks[n]);
  }

  // Every word outside the heap or inside one of these payloads is as it was, but for one.
  ghost predicate KeepsBut(m: Memory, m': Memory, live: map<nat, nat>, at: nat) {
    && m'.Keys == m.Keys
    && forall a :: a in m && !(at <= a < at + 4) && (a < 0x10_0000 || 0x20_0000 <= a || InLive(live, a)) ==> m'[a] == m[a]
  }

  ghost predicate SameBut(m: Memory, m': Memory, tcb: nat, stack: nat) {
    && m'.Keys == m.Keys
    && forall a :: a in m && !(tcb <= a < tcb + TCB_SIZE) && !(stack <= a < stack + STACK_SIZE) ==> m'[a] == m[a]
  }

  lemma AllocKeepsLive(bs: seq<Block>, size: u32)
    requires HeapOk(bs)
    ensures forall a: nat :: InLive(Live(bs), a) ==> InLive(Live(Alloc(bs, size).0), a)
  {
    HeapTheorems.AllocKeepsHeap(bs, size);
    forall a: nat | InLive(Live(bs), a) ensures InLive(Live(Alloc(bs, size).0), a) {
      var p :| p in Live(bs) && p <= a < p + Live(bs)[p];
      assert p in Live(Alloc(bs, size).0);
    }
  }

  lemma KeepsTwice(m0: Memory, m1: Memory, m2: Memory, live: map<nat, nat>, live': map<nat, nat>)
    requires KeepsPayloads(m0, m1, live) && KeepsPayloads(m1, m2, live')
    requires forall a: nat :: InLive(live, a) ==> InLive(live', a)
    ensures KeepsPayloads(m0, m2, live)
  {
  }

  // A fresh payload holds no word that was in a live one or outside the heap.
  lemma FreshNotLive(bs: seq<Block>, size: u32, a: nat)
    requires HeapOk(bs) && Alloc(bs, size).1 != 0 && 0 < size <= 0xFFFF_FFFC
    requires a < HEAP_START || HEAP_END <= a || InLive(Live(bs), a)
    ensures var p := Alloc(bs, size).1; !(p <= a < p + size)
  {
    FreshOwned(bs, size);
    LiveInRange(bs, HEAP_START);
    if HEAP_START <= a < HEAP_END {
      var q :| q in Live(bs) && q <= a < q + Live(bs)[q];
      FreshIsApart(bs, size, q, q + Live(bs)[q]);
    }
  }

  lemma FillKeepsPayloads(m0: Memory, m1: Memory, m2: Memory, bs: seq<Block>)
    requires HeapOk(bs) && TcbAlloc(bs).1 != 0 && StackAlloc(bs).1 != 0
    requires KeepsPayloads(m0, m1, Live(bs)) && SameBut(m1, m2, TcbAlloc(bs).1, StackAlloc(bs).1)
    ensures KeepsPayloads(m0, m2, Live(bs))
  {
    FreshOwned(bs, TCB_SIZE);
    AllocKeepsLive(bs, TCB_SIZE);
    forall a | a in m0 && (a < HEAP_START || HEAP_END <= a || InLive(Live(bs), a)) ensures m2[a] == m0[a] {
      FreshNotLive(bs, TCB_SIZE, a);
      FreshNotLive(TcbAlloc(bs).0, STACK_SIZE, a);
    }
  }

  class Scheduler {
    const heap: Heap
    var currentTask: nat
    var readyQueue: nat
    var nextPid: u32
    // the processor
    var eax: u32
    var ebp: u32
    var ebx: u32
    var esi: u32
    var edi: u32
    var esp: int
    var eip: u32
    var cr3: u32

    ghost var tasks: seq<Task>
    ghost var cur: nat

    function Cpu(): Context
      reads this
    {
      Context(ebp, ebx, esi, edi, esp, eip)
    }

    // The machine before tasking_init, running with registers `boot`.
    constructor (h: Heap, boot: Context)
      ensures heap == h && Cpu() == boot
    {
      heap := h;
      ebp, ebx, esi, edi, esp, eip := boot.ebp, boot.ebx, boot.esi, boot.edi, boot.esp, boot.eip;
      eax, cr3, currentTask, readyQueue, nextPid := 0, 0, 0, 0, 1;
      tasks, cur := [], 0;
    }

    method Store(a: nat, w: u32)
      requires a in heap.mem
      modifies heap`mem
      ensures heap.mem == old(heap.mem)[a := w] && SameOutside(old(heap.mem), heap.mem, a, a + 4)
    {
      heap.mem := heap.mem[a := w];
      assert heap.mem.Keys == old(heap.mem).Keys;
    }

    method StoreFields(tcb: nat, id: u32, sp: u32, bp: u32, ip: u32, pageDirectory: u32, next: u32)
      requires tcb + ID in heap.mem && tcb + ESP in heap.mem && tcb + EBP in heap.mem
      requires tcb + EIP in heap.mem && tcb + CR3 in heap.mem && tcb + NEXT in heap.mem
      modifies heap`mem
      ensures SameOutside(old(heap.mem), heap.mem, tcb, tcb + TCB_SIZE)
      ensures TcbIs(heap.mem, tcb, id, pageDirectory, next) && TcbStart(heap.mem, tcb, sp, bp, ip)
    {
      Store(tcb + ID, id);
      Store(tcb + CR3, pageDirectory);
      Store(tcb + ESP, sp);
      Store(tcb + EBP, bp);
      Store(tcb + EIP, ip);
      Store(tcb + NEXT, next);
    }

    // The field stores with which a control block is set up.
    method FillTcb(tcb: nat, id: u32, sp: u32, bp: u32, ip: u32, pageDirectory: u32, next: u32)
      requires heap.Valid() && Owned(heap.blocks, tcb, tcb + TCB_SIZE)
      modifies heap`mem
      ensures heap.Valid() && SameOutside(old(heap.mem), heap.mem, tcb, tcb + TCB_SIZE)
      ensures TcbIs(heap.mem, tcb, id, pageDirectory, next) && TcbStart(heap.mem, tcb, sp, bp, ip)
    {
      OwnedInRam(heap.mem, heap.blocks, tcb, tcb + TCB_SIZE);
      TcbWords(heap.mem, tcb);
      StoreFields(tcb, id, sp, bp, ip, pageDirectory, next);
      StoresKeepHeap(old(heap.mem), heap.mem, heap.blocks, tcb, tcb + TCB_SIZE);
    }

    // The control block of the task that is already running, linked to itself.
    method FirstTcb(pageDirectory: u32, ghost lo: nat, ghost hi: nat, ghost boot: Context) returns (tcb: nat)
      requires heap.Valid() && TcbAlloc(heap.blocks).1 != 0
      requires lo % 4 == 0 && hi <= HEAP_START
      modifies heap
      ensures heap.Valid() && (heap.blocks, tcb) == TcbAlloc(old(heap.blocks))
      ensures Layout(heap.blocks, [Task(tcb, lo, hi, boot)])
      ensures RingIs(heap.mem, [Task(tcb, lo, hi, boot)], 0, pageDirectory) && TcbStart(heap.mem, tcb, 0, 0, 0)
      ensures KeepsPayloads(old(heap.mem), heap.mem, Live(old(heap.blocks)))
    {
      FreshOwned(heap.blocks, TCB_SIZE);
      ghost var bs := heap.blocks;
      tcb := heap.MemoryAlloc(TCB_SIZE);
      forall a: nat | a < HEAP_START || HEAP_END <= a || InLive(Live(bs), a) ensures !(tcb <= a < tcb + TCB_SIZE) {
        FreshNotLive(bs, TCB_SIZE, a);
      }
      FillTcb(tcb, 1, 0, 0, 0, pageDirectory, tcb);
      OneTask(heap.mem, heap.blocks, Task(tcb, lo, hi, boot), pageDirectory);
    }

    ghost predicate Valid()
      reads this, heap
    {
      && heap.Valid() && Layout(heap.blocks, tasks) && cur < |tasks|
      && currentTask == tasks[cur].tcb && readyQueue == tasks[0].tcb
      && nextPid == Pid(|tasks|)
      && RingIs(heap.mem, tasks, cur, cr3)
    }

    ghost function Model(): State
      reads this, heap
    {
      State(heap.blocks, tasks, cur, Cpu())
    }

    // tasking_init, run on the boot stack [lo, hi) below the heap.  `pageDirectory` is CR3.
    method TaskingInit(pageDirectory: u32, ghost lo: nat, ghost hi: nat)
      requires heap.Valid() && TcbAlloc(heap.blocks).1 != 0
      requires lo % 4 == 0 && hi <= HEAP_START && nextPid == 1
      modifies this, heap
      ensures Valid() && cr3 == pageDirectory
      ensures Model() == State(TcbAlloc(old(heap.blocks)).0, [Task(TcbAlloc(old(heap.blocks)).1, lo, hi, old(Cpu()))], 0, old(Cpu()))
      ensures KeepsPayloads(old(heap.mem), heap.mem, Live(old(heap.blocks)))
      ensures (heap.blocks, currentTask) == Alloc(old(heap.blocks), 24) && TcbStart(heap.mem, currentTask, 0, 0, 0)
    {
      ghost var boot := Cpu();
      var tcb := FirstTcb(pageDirectory, lo, hi, boot);
      cr3 := pageDirectory;
      nextPid := 2;
      currentTask, readyQueue := tcb, tcb;
      tasks, cur := [Task(tcb, lo, hi, boot)], 0;
    }

    // *(--sp) = w.  `ws` are the words on the stack before the push; all stores since
    // memory `start` lie in the stack [lo, hi).
    method PushWord(sp: nat, w: u32, ghost ws: seq<u32>, ghost start: Memory, ghost lo: nat, ghost hi: nat) returns (sp': nat)
      requires lo + 4 <= sp <= hi && sp % 4 == 0 && lo % 4 == 0
      requires WordsExist(heap.mem, lo, hi) && WordsAt(heap.mem, sp, ws) && SameOutside(start, heap.mem, lo, hi)
      modifies heap`mem
      ensures sp' == sp - 4 && WordsAt(heap.mem, sp', [w] + ws)
      ensures SameOutside(start, heap.mem, lo, hi) && WordsExist(heap.mem, lo, hi)
    {
      Pushed(heap.mem, sp, w, ws);
      sp' := sp - 4;
      heap.mem := heap.mem[sp' := w];
    }

    // The processor's push.
    method Push(w: u32, ghost ws: seq<u32>, ghost start: Memory, ghost lo: nat, ghost hi: nat)
      requires lo + 4 <= esp <= hi && esp % 4 == 0 && lo % 4 == 0
      requires WordsExist(heap.mem, lo, hi) && WordsAt(heap.mem, esp, ws) && SameOutside(start, heap.mem, lo, hi)
      modifies heap`mem, this`esp
      ensures esp == old(esp) - 4 && WordsAt(heap.mem, esp, [w] + ws)
      ensures SameOutside(start, heap.mem, lo, hi) && WordsExist(heap.mem, lo, hi)
    {
      esp := PushWord(esp, w, ws, start, lo, hi);
    }

    method PushTwo(v: u32, w: u32, ghost ws: seq<u32>, ghost start: Memory, ghost lo: nat, ghost hi: nat)
      requires lo + 8 <= esp <= hi && esp % 4 == 0 && lo % 4 == 0
      requires WordsExist(heap.mem, lo, hi) && WordsAt(heap.mem, esp, ws) && SameOutside(start, heap.mem, lo, hi)
      modifies heap`mem, this`esp
      ensures esp == old(esp) - 8 && WordsAt(heap.mem, esp, [w] + ([v] + ws))
      ensures SameOutside(start, heap.mem, lo, hi) && WordsExist(heap.mem, lo, hi)
    {
      Push(v, ws, start, lo, hi);
      Push(w, [v] + ws, start, lo, hi);
    }

    method Pop(ghost ws: seq<u32>) returns (w: u32)
      requires ws != [] && WordsAt(heap.mem, esp, ws)
      modifies this`esp
      ensures esp == old(esp) + 4 && w == ws[0] && WordsAt(heap.mem, esp, ws[1..])
    {
      assert esp + 4 * 0 in heap.mem && heap.mem[esp + 4 * 0] == ws[0];
      w := heap.mem[esp];
      forall k | 0 <= k < |ws[1..]| ensures esp + 4 + 4 * k in heap.mem && heap.mem[esp + 4 + 4 * k] == ws[1..][k] {
        assert heap.mem[esp + 4 * (k + 1)] == ws[k + 1];
      }
      esp := esp + 4;
    }

    // switch.S up to the store into the first argument's target: the four registers go
    // onto the running stack.
    method SaveRegisters(ghost ret: u32, ghost p: u32, ghost newEsp: u32, ghost start: Memory, ghost lo: nat, ghost hi: nat)
      requires lo + 16 <= esp <= hi && esp % 4 == 0 && lo % 4 == 0
      requires WordsExist(heap.mem, lo, hi) && SameOutside(start, heap.mem, lo, hi)
      requires WordsAt(heap.mem, esp, [ret, p, newEsp])
      modifies heap`mem, this`esp
      ensures esp == old(esp) - 16 && SameOutside(start, heap.mem, lo, hi)
      ensures WordsAt(heap.mem, esp, [edi, esi, ebx, ebp] + [ret, p, newEsp])
    {
      ghost var args := [ret, p, newEsp];
      PushTwo(ebp, ebx, args, start, lo, hi);
      PushTwo(esi, edi, [ebx] + ([ebp] + args), start, lo, hi);
      StackOrder(edi, esi, ebx, ebp, args);
    }

    // switch.S from the change of stacks on: the registers and the return address come
    // off the stack ESP now points at.
    method RestoreRegisters(ghost c: Context)
      requires WordsAt(heap.mem, esp, Frame(c))
      modifies this`edi, this`esi, this`ebx, this`ebp, this`eip, this`esp
      ensures Cpu() == c.(esp := old(esp) + 20)
    {
      edi := Pop(Frame(c));
      esi := Pop(Frame(c)[1..]);
      ebx := Pop(Frame(c)[1..][1..]);
      ebp := Pop(Frame(c)[1..][1..][1..]);
      eip := Pop(Frame(c)[1..][1..][1..][1..]);
    }

    method StoreOwn(stores: seq<(nat, u32)>, ghost t: Task)
      requires RamOk(heap.mem) && HeapOk(heap.blocks) && Owned(heap.blocks, t.lo, t.hi)
      requires forall k :: 0 <= k < |stores| ==> t.lo <= stores[k].0 && stores[k].0 + 4 <= t.hi && stores[k].0 % 4 == 0
      modifies heap`mem
      ensures SameOutside(old(heap.mem), heap.mem, t.lo, t.hi)
    {
      OwnedInRam(heap.mem, heap.blocks, t.lo, t.hi);
      for k := 0 to |stores|
        invariant SameOutside(old(heap.mem), heap.mem, t.lo, t.hi)
      {
        Store(stores[k].0, stores[k].1);
      }
    }

    method StoreOnStack(stores: seq<(nat, u32)>)
      requires Valid()
      requires forall k :: 0 <= k < |stores| ==>
        tasks[cur].lo <= stores[k].0 && stores[k].0 + 4 <= tasks[cur].hi && stores[k].0 % 4 == 0
      modifies heap`mem
      ensures heap.Valid() && RingIs(heap.mem, tasks, cur, cr3)
    {
      assert TaskOwned(heap.blocks, tasks[cur]);
      StoreOwn(stores, tasks[cur]);
      OwnStackKeepsRing(old(heap.mem), heap.mem, heap.blocks, tasks, cur, cr3);
    }

    method LoadRegisters(cpu: Context)
      modifies this`ebp, this`ebx, this`esi, this`edi, this`esp, this`eip
      ensures Cpu() == cpu
    {
      ebp, ebx, esi, edi, esp, eip := cpu.ebp, cpu.ebx, cpu.esi, cpu.edi, cpu.esp, cpu.eip;
    }

    // A task between two scheduler calls: it may load its registers with anything and
    // store anything anywhere on its own stack.
    method RunOwnCode(cpu: Context, stores: seq<(nat, u32)>)
      requires Valid() && Allowed(Model(), Compute(cpu))
      requires forall k :: 0 <= k < |stores| ==>
        tasks[cur].lo <= stores[k].0 && stores[k].0 + 4 <= tasks[cur].hi && stores[k].0 % 4 == 0
      modifies this, heap`mem
      ensures Valid() && Model() == Step(old(Model()), Compute(cpu))
    {
      StoreOnStack(stores);
      LoadRegisters(cpu);
    }

    method AllocateKeepingRing(size: u32) returns (p: nat)
      requires heap.Valid() && cur < |tasks| && RingIs(heap.mem, tasks, cur, cr3)
      requires forall i {:trigger TaskOwned(heap.blocks, tasks[i])} :: 0 <= i < |tasks| ==> TaskOwned(heap.blocks, tasks[i])
      modifies heap
      ensures heap.Valid() && (heap.blocks, p) == Alloc(old(heap.blocks), size)
      ensures RingIs(heap.mem, tasks, cur, cr3) && KeepsPayloads(old(heap.mem), heap.mem, Live(old(heap.blocks)))
      ensures forall i {:trigger TaskOwned(heap.blocks, tasks[i])} :: 0 <= i < |tasks| ==> TaskOwned(heap.blocks, tasks[i])
    {
      ghost var bs, mem0 := heap.blocks, heap.mem;
      p := heap.MemoryAlloc(size);
      forall i | 0 <= i < |tasks| ensures TaskOwned(heap.blocks, tasks[i]) && TaskIs(heap.mem, tasks, i, cur, cr3) {
        assert TaskOwned(bs, tasks[i]) && TaskIs(mem0, tasks, i, cur, cr3);
        AllocKeepsOwned(bs, size, tasks[i]);
        AllocKeepsTask(mem0, heap.mem, bs, tasks, i, cur, cr3);
      }
    }

    method AllocateThread() returns (tcb: nat, stack: nat)
      requires Valid() && TcbAlloc(heap.blocks).1 != 0 && StackAlloc(heap.blocks).1 != 0
      modifies heap
      ensures heap.Valid() && heap.blocks == StackAlloc(old(heap.blocks)).0
      ensures tcb == TcbAlloc(old(heap.blocks)).1 && stack == StackAlloc(old(heap.blocks)).1
      ensures RingIs(heap.mem, tasks, cur, cr3)
      ensures forall i :: 0 <= i < |tasks| ==> ClearOf(tasks[i], tcb, stack)
      ensures Owned(heap.blocks, tcb, tcb + TCB_SIZE) && Owned(heap.blocks, stack, stack + STACK_SIZE)
      ensures Apart(tcb, tcb + TCB_SIZE, stack, stack + STACK_SIZE) && tcb != 0
      ensures currentTask + CR3 in heap.mem && heap.mem[currentTask + CR3] == cr3
      ensures readyQueue < RAM_END && tcb < RAM_END
      ensures KeepsPayloads(old(heap.mem), heap.mem, Live(old(heap.blocks)))
    {
      assert TaskOwned(heap.blocks, tasks[0]);
      OwnedInRam(heap.mem, heap.blocks, tasks[0].tcb, tasks[0].tcb + TCB_SIZE);
      ghost var bs := heap.blocks;
      NewTaskOwned(bs, 0);
      NewThreadClear(bs, tasks, 0);
      tcb := AllocateKeepingRing(TCB_SIZE);
      ghost var mem1, bs1 := heap.mem, heap.blocks;
      stack := AllocateKeepingRing(STACK_SIZE);
      AllocKeepsLive(bs, TCB_SIZE);
      KeepsTwice(old(heap.mem), mem1, heap.mem, Live(bs), Live(bs1));
      OwnedInRam(heap.mem, heap.blocks, tcb, tcb + TCB_SIZE);
      assert TaskIs(heap.mem, tasks, cur, cur, cr3);
    }

    method FirstFrame(stack: nat, entry: u32) returns (sp: nat)
      requires stack % 4 == 0 && WordsExist(heap.mem, stack, stack + STACK_SIZE)
      modifies heap`mem
      ensures SameOutside(old(heap.mem), heap.mem, stack, stack + STACK_SIZE)
      ensures sp == stack + STACK_SIZE - 20 && WordsAt(heap.mem, sp, [0, 0, 0, 0, entry])
    {
      ghost var start, hi := heap.mem, stack + STACK_SIZE;
      assert SameOutside(start, start, stack, hi) && WordsAt(start, hi, []);
      sp := stack + STACK_SIZE;
      sp := PushWord(sp, entry, [], start, stack, hi);
      sp := PushWord(sp, 0, [entry] + [], start, stack, hi);
      sp := PushWord(sp, 0, [0] + ([entry] + []), start, stack, hi);
      sp := PushWord(sp, 0, [0] + ([0] + ([entry] + [])), start, stack, hi);
      sp := PushWord(sp, 0, [0] + ([0] + ([0] + ([entry] + []))), start, stack, hi);
      assert [entry] + [] == [entry];
      StackOrder(0, 0, 0, 0, [entry]);
    }

    // The first frame of a thread and the fields of its control block.
    method FillThread(tcb: nat, stack: nat, entry: u32, pageDirectory: u32, ghost u: Task)
      requires heap.Valid() && cur < |tasks| && RingIs(heap.mem, tasks, cur, cr3) && pageDirectory == cr3
      requires forall i :: 0 <= i < |tasks| ==> ClearOf(tasks[i], tcb, stack)
      requires Owned(heap.blocks, tcb, tcb + TCB_SIZE) && Owned(heap.blocks, stack, stack + STACK_SIZE)
      requires Apart(tcb, tcb + TCB_SIZE, stack, stack + STACK_SIZE) && u == NewTask(tcb, stack, entry)
      requires readyQueue < RAM_END
      modifies heap`mem
      ensures heap.Valid() && RingIs(heap.mem, tasks, cur, cr3)
      ensures TcbIs(heap.mem, tcb, nextPid, cr3, readyQueue) && SuspendedIs(heap.mem, u)
      ensures TcbStart(heap.mem, tcb, stack + STACK_SIZE - 20, 0, entry)
      ensures SameBut(old(heap.mem), heap.mem, tcb, stack)
    {
      ghost var mem0 := heap.mem;
      OwnedInRam(mem0, heap.blocks, stack, stack + STACK_SIZE);
      var sp := FirstFrame(stack, entry);
      ghost var mem1 := heap.mem;
      StoresKeepHeap(mem0, mem1, heap.blocks, stack, stack + STACK_SIZE);
      ElsewhereKeepsRing(mem0, mem1, tasks, cur, cr3, stack, stack + STACK_SIZE);
      FillTcb(tcb, nextPid, sp, 0, entry, pageDirectory, readyQueue);
      ElsewhereKeepsRing(mem1, heap.mem, tasks, cur, cr3, tcb, tcb + TCB_SIZE);
      WordsFrame(mem1, heap.mem, sp, Frame(u.saved), tcb, tcb + TCB_SIZE);
    }

    // The new task's control block and its stack, laid out as switch.S will pop it.
    method PrepareThread(entry: u32) returns (tcb: nat)
      requires Valid() && TcbAlloc(heap.blocks).1 != 0 && StackAlloc(heap.blocks).1 != 0
      modifies heap
      ensures heap.Valid() && heap.blocks == StackAlloc(old(heap.blocks)).0 && tcb == TcbAlloc(old(heap.blocks)).1
      ensures RingIs(heap.mem, tasks, cur, cr3) && TcbIs(heap.mem, tcb, nextPid, cr3, readyQueue)
      ensures SuspendedIs(heap.mem, NewTask(tcb, StackAlloc(old(heap.blocks)).1, entry)) && tcb < RAM_END
      ensures TcbStart(heap.mem, tcb, StackAlloc(old(heap.blocks)).1 + STACK_SIZE - 20, 0, entry)
      ensures KeepsPayloads(old(heap.mem), heap.mem, Live(old(heap.blocks)))
    {
      var stack;
      tcb, stack := AllocateThread();
      ghost var u := NewTask(tcb, stack, entry);
      ghost var mem1 := heap.mem;
      FillThread(tcb, stack, entry, heap.mem[currentTask + CR3], u);
      FillKeepsPayloads(old(heap.mem), mem1, heap.mem, old(heap.blocks));
    }

    method FindTail(ghost u: Task) returns (tail: nat)
      requires Layout(heap.blocks, tasks + [u]) && |tasks| > 0
      requires RingIs(heap.mem, tasks, cur, cr3) && readyQueue == tasks[0].tcb
      ensures tail == tasks[|tasks| - 1].tcb && tail + NEXT in heap.mem
    {
      tail := readyQueue;
      ghost var i := 0;
      FirstIsUnique(heap.blocks, tasks, u);
      assert TaskIs(heap.mem, tasks, 0, cur, cr3);
      while heap.mem[tail + NEXT] != readyQueue
        invariant 0 <= i < |tasks| && tail == tasks[i].tcb && tail + NEXT in heap.mem
        decreases |tasks| - i
      {
        assert TaskIs(heap.mem, tasks, i, cur, cr3);
        assert i + 1 < |tasks|;
        assert TaskIs(heap.mem, tasks, i + 1, cur, cr3);
        tail := heap.mem[tail + NEXT];
        i := i + 1;
      }
      assert TaskIs(heap.mem, tasks, i, cur, cr3);
    }

    // The walk to the last task of the ring, whose link is pointed at the new task `u`.
    method LinkAtTail(tcb: nat, ghost u: Task)
      requires heap.Valid() && Layout(heap.blocks, tasks + [u]) && |tasks| > 0 && cur < |tasks|
      requires RingIs(heap.mem, tasks, cur, cr3) && readyQueue == tasks[0].tcb && tcb == u.tcb < RAM_END
      requires TcbIs(heap.mem, u.tcb, Pid(|tasks|), cr3, readyQueue) && SuspendedIs(heap.mem, u)
      modifies heap`mem
      ensures heap.Valid() && RingIs(heap.mem, tasks + [u], cur, cr3)
      ensures var last := tasks[|tasks| - 1].tcb; SameOutside(old(heap.mem), heap.mem, last + 20, last + 24)
    {
      ghost var mem0, last := heap.mem, tasks[|tasks| - 1];
      var tail := FindTail(u);
      Store(tail + NEXT, tcb);
      assert TaskOwned(heap.blocks, (tasks + [u])[|tasks| - 1]);
      StoresKeepHeap(mem0, heap.mem, heap.blocks, last.tcb, last.tcb + TCB_SIZE);
      LinkedRing(mem0, heap.mem, heap.blocks, tasks, u, cur, cr3);
    }

    method AddThread(entry: u32, ghost u: Task)
      requires Valid() && TcbAlloc(heap.blocks).1 != 0 && StackAlloc(heap.blocks).1 != 0
      requires u == NewTask(TcbAlloc(heap.blocks).1, StackAlloc(heap.blocks).1, entry)
      modifies heap
      ensures heap.Valid() && heap.blocks == StackAlloc(old(heap.blocks)).0
      ensures Layout(heap.blocks, tasks + [u]) && RingIs(heap.mem, tasks + [u], cur, cr3)
      ensures TcbStart(heap.mem, u.tcb, u.lo + STACK_SIZE - 20, 0, entry)
      ensures KeepsBut(old(heap.mem), heap.mem, Live(old(heap.blocks)), tasks[|tasks| - 1].tcb + 20)
    {
      CreateKeepsLayout(heap.blocks, tasks, entry);
      var tcb := PrepareThread(entry);
      LinkAtTail(tcb, u);
      assert TasksApart((tasks + [u])[|tasks| - 1], (tasks + [u])[|tasks|]);
    }

    // Adds the thread, counts its process ID and brings the ring's description up to date.
    method CreateThread(entry: u32)
      requires Valid() && Allowed(Model(), Create(entry))
      modifies this, heap
      ensures Valid() && Model() == Step(old(Model()), Create(entry))
      ensures var u := NewTask(TcbAlloc(old(heap.blocks)).1, StackAlloc(old(heap.blocks)).1, entry);
        && tasks == old(tasks) + [u] && TcbStart(heap.mem, u.tcb, u.lo + STACK_SIZE - 20, 0, entry)
      ensures KeepsBut(old(heap.mem), heap.mem, Live(old(heap.blocks)), tasks[|tasks| - 2].tcb + 20)
    {
      ghost var u := NewTask(TcbAlloc(heap.blocks).1, StackAlloc(heap.blocks).1, entry);
      AddThread(entry, u);
      PidStep(|tasks|);
      nextPid := (nextPid + 1) % 0x1_0000_0000;
      tasks := tasks + [u];
    }

    // create_kernel_thread.
    method CreateKernelThread(entry: u32)
      requires Valid() && Allowed(Model(), Create(entry))
      modifies this, heap
      ensures Valid() && Model() == Step(old(Model()), Create(entry))
      ensures |tasks| == |old(tasks)| + 1 && old(tasks) == tasks[..|tasks| - 1]
      ensures var (bs, tcb) := Alloc(old(heap.blocks), 24);
        (heap.blocks, tasks[|tasks| - 1].lo) == Alloc(bs, 4096) && tasks[|tasks| - 1].tcb == tcb
      ensures NewThread(heap.mem, heap.blocks, tasks, entry)
      ensures var t := tasks[|tasks| - 1];
        && t.hi == t.lo + 4096 && t.lo in Live(heap.blocks) && 4096 <= Live(heap.blocks)[t.lo]
        && TcbStart(heap.mem, t.tcb, t.lo + 4076, 0, entry)
      ensures KeepsBut(old(heap.mem), heap.mem, Live(old(heap.blocks)), tasks[|tasks| - 2].tcb + 20)
    {
      CreateThread(entry);
      NewThreadIs(heap.mem, heap.blocks, old(heap.blocks), tasks, cur, cr3, entry);
    }

    // The pushes, by the caller and by switch.S.
    method EnterSwitch(p: u32, newEsp: u32, ret: u32, ghost t: Task)
      requires WordsExist(heap.mem, t.lo, t.hi) && OnStack(t, esp) && t.lo % 4 == 0
      modifies heap`mem, this`esp
      ensures esp == old(esp) - 28 && SameOutside(old(heap.mem), heap.mem, t.lo, t.hi)
      ensures WordsAt(heap.mem, esp, [edi, esi, ebx, ebp] + [ret, p, newEsp])
    {
      ghost var start := heap.mem;
      assert SameOutside(start, start, t.lo, t.hi) && WordsAt(heap.mem, esp, []);
      Push(newEsp, [], start, t.lo, t.hi);
      Push(p, [newEsp] + [], start, t.lo, t.hi);
      Push(ret, [p] + ([newEsp] + []), start, t.lo, t.hi);
      assert [ret] + ([p] + ([newEsp] + [])) == [ret, p, newEsp];
      SaveRegisters(ret, p, newEsp, start, t.lo, t.hi);
    }

    // mov reg, [esp + 4 * k]
    method LoadWord(k: nat, ghost ws: seq<u32>) returns (w: u32)
      requires k < |ws| && WordsAt(heap.mem, esp, ws)
      ensures w == ws[k]
    {
      w := heap.mem[esp + 4 * k];
    }

    // switch.S: ESP is stored through the first argument; the second is loaded.
    method SaveStackPointer(newEsp: u32, ghost t: Task, ghost left: Context)
      requires t.tcb + ESP in heap.mem && t.tcb + ESP < 0x1_0000_0000 && 0 <= esp < 0x1_0000_0000
      requires t.lo <= esp && esp + 28 <= t.hi && esp % 4 == 0 && Apart(t.tcb, t.tcb + TCB_SIZE, t.lo, t.hi)
      requires WordsAt(heap.mem, esp, [left.edi, left.esi, left.ebx, left.ebp] + [left.eip, t.tcb + ESP, newEsp])
      requires left.esp == esp + 20
      modifies heap`mem, this`eax, this`esp
      ensures SameOutside(old(heap.mem), heap.mem, t.tcb + ESP, t.tcb + ESP + 4)
      ensures SuspendedIs(heap.mem, t.(saved := left)) && esp == newEsp
    {
      ghost var words := [left.edi, left.esi, left.ebx, left.ebp] + [left.eip, t.tcb + ESP, newEsp];
      ghost var before := heap.mem;
      eax := LoadWord(5, words);
      Store(eax, esp);
      WordsFrame(before, heap.mem, esp, words, eax, eax + 4);
      FrameSaved(heap.mem, esp, words, left);
      esp := LoadWord(6, words);
    }

    // The call of switch_task by the running task `t`: two arguments and the return
    // address are pushed, then switch.S runs.  `c` is the context suspended at `newEsp`
    // in [lo2, hi2); `mid` is memory before the saved ESP is stored.
    method CallSwitch(oldTask: nat, newEsp: u32, ret: u32, ghost t: Task, ghost c: Context, ghost lo2: nat, ghost hi2: nat)
      returns (ghost mid: Memory)
      requires WordsExist(heap.mem, t.lo, t.hi) && OnStack(t, esp) && t.lo % 4 == 0 && t.hi < RAM_END
      requires oldTask == t.tcb < RAM_END && t.tcb + ESP in heap.mem
      requires Apart(t.tcb, t.tcb + TCB_SIZE, t.lo, t.hi)
      requires lo2 <= newEsp && newEsp + 20 <= hi2 && WordsAt(heap.mem, newEsp, Frame(c))
      requires Apart(t.lo, t.hi, lo2, hi2) && Apart(t.tcb, t.tcb + TCB_SIZE, lo2, hi2)
      modifies heap`mem, this`eax, this`edi, this`esi, this`ebx, this`ebp, this`eip, this`esp
      ensures Cpu() == c.(esp := newEsp + 20)
      ensures SameOutside(old(heap.mem), mid, t.lo, t.hi) && SameOutside(mid, heap.mem, t.tcb + ESP, t.tcb + ESP + 4)
      ensures SuspendedIs(heap.mem, t.(saved := Suspended(old(Cpu()), ret)))
    {
      ghost var start, cpu := heap.mem, Cpu();
      EnterSwitch(oldTask + ESP, newEsp, ret, t);
      mid := heap.mem;
      WordsFrame(start, mid, newEsp, Frame(c), t.lo, t.hi);
      SaveStackPointer(newEsp, t, Suspended(cpu, ret));
      WordsFrame(mid, heap.mem, newEsp, Frame(c), t.tcb + ESP, t.tcb + ESP + 4);
      RestoreRegisters(c);
    }

    // CR3 is reloaded only when the two tasks' page directories differ.
    method LoadPageDirectory(from: u32, to: u32)
      requires cr3 == from
      modifies this`cr3
      ensures cr3 == to
    {
      if from != to { cr3 := to; }
    }

    // task_switch up to the call: the EIP field is stored and the next task becomes current.
    method ChooseNext(readEip: u32, ghost t: Task, ghost u: Task) returns (oldTask: nat)
      requires currentTask == t.tcb && t.tcb + EIP in heap.mem && t.tcb + NEXT in heap.mem && t.tcb + CR3 in heap.mem
      requires u.tcb + CR3 in heap.mem && heap.mem[t.tcb + NEXT] == u.tcb
      requires heap.mem[t.tcb + CR3] == cr3 && heap.mem[u.tcb + CR3] == cr3 && SuspendedIs(heap.mem, u)
      requires Apart(t.tcb, t.tcb + TCB_SIZE, u.lo, u.hi) && Apart(t.tcb, t.tcb + TCB_SIZE, u.tcb, u.tcb + TCB_SIZE)
      modifies heap`mem, this`currentTask, this`cr3
      ensures oldTask == t.tcb && currentTask == u.tcb && cr3 == old(cr3)
      ensures SameOutside(old(heap.mem), heap.mem, t.tcb + EIP, t.tcb + EIP + 4)
      ensures t.tcb + EIP in heap.mem && heap.mem[t.tcb + EIP] == readEip && SuspendedIs(heap.mem, u)
    {
      ghost var mem0 := heap.mem;
      oldTask := currentTask;
      Store(currentTask + EIP, readEip);
      WordsFrame(mem0, heap.mem, u.saved.esp - 20, Frame(u.saved), t.tcb + EIP, t.tcb + EIP + 4);
      currentTask := heap.mem[currentTask + NEXT];
      LoadPageDirectory(heap.mem[oldTask + CR3], heap.mem[currentTask + CR3]);
    }

    // The hand-over from `t` to `u`, as memory and registers see it.
    method HandOver(readEip: u32, ret: u32, ghost t: Task, ghost u: Task)
      requires currentTask == t.tcb && OnStack(t, esp) && t.lo % 4 == 0 && t.hi <= HEAP_END && t.tcb + TCB_SIZE <= HEAP_END
      requires t.tcb + EIP in heap.mem && t.tcb + ESP in heap.mem && t.tcb + NEXT in heap.mem && t.tcb + CR3 in heap.mem
      requires u.tcb + CR3 in heap.mem && heap.mem[t.tcb + NEXT] == u.tcb
      requires heap.mem[t.tcb + CR3] == cr3 && heap.mem[u.tcb + CR3] == cr3
      requires WordsExist(heap.mem, t.lo, t.hi) && SuspendedIs(heap.mem, u)
      requires Apart(t.tcb, t.tcb + TCB_SIZE, t.lo, t.hi) && Apart(t.tcb, t.tcb + TCB_SIZE, u.lo, u.hi)
      requires Apart(t.lo, t.hi, u.lo, u.hi) && Apart(t.tcb, t.tcb + TCB_SIZE, u.tcb, u.tcb + TCB_SIZE)
      modifies heap`mem, this`eax, this`edi, this`esi, this`ebx, this`ebp, this`eip, this`esp, this`currentTask, this`cr3
      ensures currentTask == u.tcb && cr3 == old(cr3) && Cpu() == u.saved
      ensures WroteOnly(old(heap.mem), heap.mem, t)
      ensures SuspendedIs(heap.mem, t.(saved := Suspended(old(Cpu()), ret)))
      ensures t.tcb + 12 in heap.mem && heap.mem[t.tcb + 12] == readEip
    {
      ghost var mem0 := heap.mem;
      var oldTask := ChooseNext(readEip, t, u);
      ghost var mem1 := heap.mem;
      ghost var mid := CallSwitch(oldTask, heap.mem[currentTask + ESP], ret, t, u.saved, u.lo, u.hi);
      SwitchWroteOnly(mem0, mem1, mid, heap.mem, t);
    }

    // The hand-over in memory and registers; the ring's description is updated by the caller.
    method SwitchAway(readEip: u32, ret: u32)
      requires Valid() && OnStack(tasks[cur], esp) && |tasks| > 1
      modifies heap`mem, this`eax, this`edi, this`esi, this`ebx, this`ebp, this`eip, this`esp, this`currentTask, this`cr3
      ensures RamOk(heap.mem) && Rep(heap.mem, heap.blocks)
      ensures Layout(heap.blocks, Left(tasks, cur, Suspended(old(Cpu()), ret)))
      ensures RingIs(heap.mem, Left(tasks, cur, Suspended(old(Cpu()), ret)), Next(cur, |tasks|), cr3)
      ensures currentTask == tasks[Next(cur, |tasks|)].tcb && Cpu() == tasks[Next(cur, |tasks|)].saved
      ensures tasks[cur].tcb + 12 in heap.mem && heap.mem[tasks[cur].tcb + 12] == readEip
      ensures WroteOnly(old(heap.mem), heap.mem, tasks[cur])
    {
      ghost var mem0, left := heap.mem, Suspended(Cpu(), ret);
      ReadyToSwitch(mem0, heap.blocks, tasks, cur, cr3);
      HandOver(readEip, ret, tasks[cur], tasks[Next(cur, |tasks|)]);
      Handed(mem0, heap.mem, heap.blocks, tasks, cur, cr3, left);
    }

    // The hand-over, and the ring's description brought up to date.
    method SwitchTasks(readEip: u32, ret: u32)
      requires Valid() && OnStack(tasks[cur], esp) && |tasks| > 1
      modifies this, heap
      ensures Valid() && heap.blocks == old(heap.blocks) && cur == Next(old(cur), |old(tasks)|)
      ensures tasks == Left(old(tasks), old(cur), Suspended(old(Cpu()), ret))
      ensures Cpu() == old(tasks)[cur].saved
      ensures old(currentTask) + 12 in heap.mem && heap.mem[old(currentTask) + 12] == readEip
      ensures WroteOnly(old(heap.mem), heap.mem, old(tasks[cur]))
    {
      SwitchAway(readEip, ret);
      tasks := Left(tasks, cur, Suspended(old(Cpu()), ret));
      cur := Next(cur, |tasks|);
    }

    // task_switch.  `readEip` is what __read_eip yields and `ret` the address after the
    // inner call; the test for the magic EAX value is taken as never firing.
    method TaskSwitch(readEip: u32, ret: u32)
      requires Valid() && Allowed(Model(), Switch(ret))
      modifies this, heap
      ensures Valid() && Model() == Step(old(Model()), Switch(ret))
      ensures |tasks| > 1 ==> old(currentTask) + 12 in heap.mem && heap.mem[old(currentTask) + 12] == readEip
      ensures WroteOnly(old(heap.mem), heap.mem, old(tasks[cur])) && (|tasks| == 1 ==> heap.mem == old(heap.mem))
    {
      assert TaskIs(heap.mem, tasks, cur, cur, cr3);
      if |tasks| > 1 { ReadyToSwitch(heap.mem, heap.blocks, tasks, cur, cr3); }
      if currentTask == 0 || heap.mem[currentTask + NEXT] == currentTask {
        return;
      }
      SwitchTasks(readEip, ret);
    }
  }
}
