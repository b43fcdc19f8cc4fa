/** Whole runs of the scheduler: contexts survive suspension, turns are fair, memory stays apart. */
module SchedulerTheorems {
  import opened HeapModel
  import opened SchedulerModel

  ghost predicate IsRun(ss: seq<State>, es: seq<Event>) {
    && |ss| == |es| + 1
    && forall i :: 0 <= i < |es| ==> Allowed(ss[i], es[i]) && ss[i + 1] == Step(ss[i], es[i])
  }

  // Event `k` hands the processor from one task to the next.
  ghost predicate Hands(ss: seq<State>, es: seq<Event>, k: nat)
    requires IsRun(ss, es) && k < |es|
  {
    es[k].Switch? && |ss[k].tasks| > 1
  }

  // Task `t` is off the processor in all of ss[i..j].
  ghost predicate Waits(ss: seq<State>, t: nat, i: nat, j: nat)
    requires j <= |ss|
  {
    forall k :: i <= k < j ==> ss[k].cur != t
  }
  // ----- Shape of every reachable state -----

  lemma StepKeepsLayout(s: State, e: Event)
    requires Layout(s.bs, s.tasks) && Allowed(s, e)
    ensures Layout(Step(s, e).bs, Step(s, e).tasks) && Step(s, e).cur < |Step(s, e).tasks|
  {
    match e
    case Compute(_) =>
    case Switch(ret) => SavedKeepsLayout(s.bs, s.tasks, s.cur, s.tasks[s.cur].(saved := Suspended(s.cpu, ret)));
    case Create(entry) => CreateKeepsLayout(s.bs, s.tasks, entry);
  }

  // Control blocks and stacks of all tasks stay pairwise disjoint, tasks are only ever
  // appended, and the running position stays on the ring.
  lemma {:induction false} RunKeepsLayout(ss: seq<State>, es: seq<Event>, i: nat, j: nat)
    requires IsRun(ss, es) && i <= j < |ss|
    requires Layout(ss[i].bs, ss[i].tasks) && ss[i].cur < |ss[i].tasks|
    ensures Layout(ss[j].bs, ss[j].tasks) && ss[j].cur < |ss[j].tasks|
    ensures |ss[i].tasks| <= |ss[j].tasks|
    ensures forall t :: 0 <= t < |ss[i].tasks| ==>
      ss[j].tasks[t].(saved := ss[i].tasks[t].saved) == ss[i].tasks[t]
    decreases j
  {
    if i >= j {
    } else {
      RunKeepsLayout(ss, es, i, j - 1);
      assert ss[j - 1 + 1] == Step(ss[j - 1], es[j - 1]);
      StepKeepsLayout(ss[j - 1], es[j - 1]);
    }
  }
  // ----- Context preservation -----

  // While a task waits, nothing touches its saved context.
  lemma {:induction false} SavedStays(ss: seq<State>, es: seq<Event>, t: nat, i: nat, j: nat)
    requires IsRun(ss, es) && i <= j < |ss| && t < |ss[i].tasks| && Waits(ss, t, i, j)
    ensures t < |ss[j].tasks| && ss[j].tasks[t].saved == ss[i].tasks[t].saved
    decreases j
  {
    if i >= j {
    } else {
      SavedStays(ss, es, t, i, j - 1);
      assert ss[j - 1 + 1] == Step(ss[j - 1], es[j - 1]);
    }
  }

  // A task that leaves the processor at event `i` and gets it back at event `j` finds
  // EBP, EBX, ESI, EDI, its stack pointer and its return address as it left them.
  lemma ContextPreserved(ss: seq<State>, es: seq<Event>, i: nat, j: nat)
    requires IsRun(ss, es) && i < j < |es| && Hands(ss, es, i)
    requires Waits(ss, ss[i].cur, i + 1, j + 1) && ss[j + 1].cur == ss[i].cur
    ensures ss[j + 1].cpu == Suspended(ss[i].cpu, es[i].ret)
  {
    assert ss[i + 1] == Step(ss[i], es[i]) && ss[j + 1] == Step(ss[j], es[j]);
    SavedStays(ss, es, ss[i].cur, i + 1, j);
  }

  // A task keeps its control block and its stack.
  lemma {:induction false} TaskStays(ss: seq<State>, es: seq<Event>, t: nat, i: nat, j: nat)
    requires IsRun(ss, es) && i <= j < |ss| && t < |ss[i].tasks|
    ensures t < |ss[j].tasks| && ss[j].tasks[t].(saved := ss[i].tasks[t].saved) == ss[i].tasks[t]
    decreases j
  {
    if i == j {
    } else {
      TaskStays(ss, es, t, i, j - 1);
      assert ss[j - 1 + 1] == Step(ss[j - 1], es[j - 1]);
    }
  }

  // A thread created at event `i` starts, on its first turn, at its entry point on the
  // top of its own 4096 bytes of stack with the four registers zero, and it may use the
  // stack down to 28 bytes above its start.
  lemma FirstTurn(ss: seq<State>, es: seq<Event>, i: nat, j: nat)
    requires IsRun(ss, es) && i < j < |es| && es[i].Create?
    requires Waits(ss, |ss[i].tasks|, i + 1, j + 1) && ss[j + 1].cur == |ss[i].tasks|
    ensures |ss[i].tasks| < |ss[j + 1].tasks|
    ensures var t := ss[j + 1].tasks[|ss[i].tasks|];
      && ss[j + 1].cpu == Context(0, 0, 0, 0, t.hi, es[i].entry) && t.hi == t.lo + 4096
      && forall sp :: t.lo + 28 <= sp <= t.lo + 4096 && sp % 4 == 0 ==> OnStack(t, sp)
  {
    assert ss[i + 1] == Step(ss[i], es[i]) && ss[j + 1] == Step(ss[j], es[j]);
    SavedStays(ss, es, |ss[i].tasks|, i + 1, j);
    TaskStays(ss, es, |ss[i].tasks|, i + 1, j + 1);
  }

  // From its creation on, a thread's stack and its control block each lie inside one live
  // payload of the heap.
  lemma StackIsLive(ss: seq<State>, es: seq<Event>, i: nat, j: nat)
    requires IsRun(ss, es) && i < j < |ss| && es[i].Create?
    requires Layout(ss[i].bs, ss[i].tasks) && ss[i].cur < |ss[i].tasks|
    ensures |ss[i].tasks| < |ss[j].tasks|
    ensures var t := ss[j].tasks[|ss[i].tasks|];
      && t.lo in Live(ss[j].bs) && 4096 == t.hi - t.lo <= Live(ss[j].bs)[t.lo]
      && t.tcb in Live(ss[j].bs) && 24 <= Live(ss[j].bs)[t.tcb]
  {
    assert ss[i + 1] == Step(ss[i], es[i]);
    NewTaskOwned(ss[i].bs, es[i].entry);
    RunKeepsLayout(ss, es, i, i + 1);
    RunKeepsLayout(ss, es, i + 1, j);
    TaskStays(ss, es, |ss[i].tasks|, i + 1, j);
    assert TaskOwned(ss[j].bs, ss[j].tasks[|ss[i].tasks|]);
  }
  // ----- Fairness -----

  // How many times task `u` is given the processor by events i .. j-1.
  ghost function Turns(ss: seq<State>, es: seq<Event>, u: nat, i: nat, j: nat): nat
    requires IsRun(ss, es) && i <= j <= |es|
  {
    if i == j then 0
    else Turns(ss, es, u, i, j - 1) + if Hands(ss, es, j - 1) && ss[j].cur == u then 1 else 0
  }

  // Going round from `t`, position `u` has been reached once position `c` is.
  predicate Passed(t: nat, c: nat, u: nat) { if t < c then t < u <= c else t < u || u <= c }

  // Since `t` left the processor, each other task has had one turn if the ring has come
  // past it and none otherwise.
  lemma {:induction false} TurnsSoFar(ss: seq<State>, es: seq<Event>, u: nat, i: nat, j: nat)
    requires IsRun(ss, es) && i < j <= |es| && Hands(ss, es, i)
    requires Waits(ss, ss[i].cur, i + 1, j + 1) && u != ss[i].cur && u < |ss[i].tasks|
    ensures |ss[i].tasks| <= |ss[j].tasks| && ss[j].cur < |ss[j].tasks|
    ensures Turns(ss, es, u, i, j) == if Passed(ss[i].cur, ss[j].cur, u) then 1 else 0
    decreases j
  {
    assert ss[j - 1 + 1] == Step(ss[j - 1], es[j - 1]);
    if i + 1 < j {
      TurnsSoFar(ss, es, u, i, j - 1);
    } else {
      assert Turns(ss, es, u, i, i) == 0;
    }
  }

  // Between two consecutive turns of a task in a ring of at least two, every other task
  // present at the first turn runs exactly once.
  lemma RoundRobin(ss: seq<State>, es: seq<Event>, u: nat, i: nat, j: nat)
    requires IsRun(ss, es) && i < j < |es| && Hands(ss, es, i)
    requires Waits(ss, ss[i].cur, i + 1, j + 1) && ss[j + 1].cur == ss[i].cur
    requires u != ss[i].cur && u < |ss[i].tasks|
    ensures Turns(ss, es, u, i, j + 1) == 1
  {
    TurnsSoFar(ss, es, u, i, j);
    assert ss[j + 1] == Step(ss[j], es[j]);
  }

  // A waiting task's distance from the processor, which every hand-over shortens.
  function Distance(c: nat, t: nat, n: nat): int { if c < t then t - c else n - c + t }

  // How many of events i .. j-1 hand the processor on.
  ghost function HandOvers(ss: seq<State>, es: seq<Event>, i: nat, j: nat): nat
    requires IsRun(ss, es) && i <= j <= |es|
  {
    if i == j then 0 else HandOvers(ss, es, i, j - 1) + if Hands(ss, es, j - 1) then 1 else 0
  }

  // How many of them create a thread ahead of task `t` on the way round the ring.
  ghost function CreatedAhead(ss: seq<State>, es: seq<Event>, t: nat, i: nat, j: nat): nat
    requires IsRun(ss, es) && i <= j <= |es|
  {
    if i == j then 0
    else CreatedAhead(ss, es, t, i, j - 1) + if es[j - 1].Create? && ss[j - 1].cur >= t then 1 else 0
  }

  lemma StepMoves(s: State, e: Event, t: nat)
    requires Allowed(s, e) && t < |s.tasks| && t != s.cur && t != Step(s, e).cur
    ensures var s' := Step(s, e);
      && |s.tasks| <= |s'.tasks| && s'.cur < |s'.tasks|
      && Distance(s'.cur, t, |s'.tasks|) == Distance(s.cur, t, |s.tasks|)
           + (if e.Create? && s.cur >= t then 1 else 0) - (if e.Switch? && |s.tasks| > 1 then 1 else 0)
  {
  }

  // While a task waits, its distance is what it was, plus the threads created ahead of
  // it, less the hand-overs.
  lemma {:induction false} DistanceSoFar(ss: seq<State>, es: seq<Event>, t: nat, i: nat, j: nat)
    requires IsRun(ss, es) && i <= j <= |es| && t < |ss[i].tasks| && ss[i].cur < |ss[i].tasks|
    requires Waits(ss, t, i, j + 1)
    ensures |ss[i].tasks| <= |ss[j].tasks| && ss[j].cur < |ss[j].tasks|
    ensures Distance(ss[j].cur, t, |ss[j].tasks|) ==
      Distance(ss[i].cur, t, |ss[i].tasks|) + CreatedAhead(ss, es, t, i, j) - HandOvers(ss, es, i, j)
    decreases j
  {
    if i == j {
    } else {
      DistanceSoFar(ss, es, t, i, j - 1);
      assert ss[j - 1 + 1] == Step(ss[j - 1], es[j - 1]);
      StepMoves(ss[j - 1], es[j - 1], t);
    }
  }

  // No task waits for ever: as many hand-overs as its distance from the processor and the
  // threads created ahead of it meanwhile are enough to reach it.
  lemma TaskIsReached(ss: seq<State>, es: seq<Event>, t: nat, i: nat, j: nat)
    requires IsRun(ss, es) && i <= j <= |es| && t < |ss[i].tasks| && ss[i].cur < |ss[i].tasks|
    requires HandOvers(ss, es, i, j) >= Distance(ss[i].cur, t, |ss[i].tasks|) + CreatedAhead(ss, es, t, i, j)
    ensures exists k :: i <= k <= j && ss[k].cur == t
  {
    if Waits(ss, t, i, j + 1) { DistanceSoFar(ss, es, t, i, j); }
  }
}
