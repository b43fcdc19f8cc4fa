/** The keyboard's 256-byte ring: pushed to by the interrupt handler, popped by one
    reader.  The array form is proved against a queue; the reader is then cut into its
    single memory accesses, with pushes allowed between any two of them. */
module KeyRing {
  import opened Bytes

  const KEY_BUF_SIZE := 256

  // buf_head is where the next key goes, buf_tail where the next one is taken.
  datatype Ring = Ring(buf: seq<byte>, head: nat, tail: nat)

  predicate RingOk(r: Ring) { |r.buf| == KEY_BUF_SIZE && r.head < KEY_BUF_SIZE && r.tail < KEY_BUF_SIZE }

  // The queue a ring stands for, oldest key first.
  function Contents(r: Ring): seq<byte>
    requires RingOk(r)
  {
    if r.tail <= r.head then r.buf[r.tail..r.head] else r.buf[r.tail..] + r.buf[..r.head]
  }

  function After(i: nat): nat { (i + 1) % KEY_BUF_SIZE }

  function PushTo(r: Ring, c: byte): Ring
    requires RingOk(r)
  {
    if After(r.head) != r.tail then r.(buf := r.buf[r.head := c], head := After(r.head)) else r
  }

  // A push appends, unless 255 keys are waiting; then the key is dropped.
  lemma PushIsEnqueue(r: Ring, c: byte)
    requires RingOk(r)
    ensures RingOk(PushTo(r, c)) && PushTo(r, c).tail == r.tail
    ensures |Contents(r)| <= 255
    ensures Contents(PushTo(r, c)) == if |Contents(r)| < 255 then Contents(r) + [c] else Contents(r)
    ensures After(r.head) != r.tail <==> |Contents(r)| < 255
  {
  }

  // Moving the tail removes the oldest key, which is the one stored there.
  lemma TailIsFront(r: Ring)
    requires RingOk(r) && r.head != r.tail
    ensures Contents(r) != [] && Contents(r)[0] == r.buf[r.tail]
    ensures RingOk(r.(tail := After(r.tail))) && Contents(r.(tail := After(r.tail))) == Contents(r)[1..]
  {
  }

  lemma EmptyIff(r: Ring)
    requires RingOk(r)
    ensures r.tail == r.head <==> Contents(r) == []
  {
  }

  class KeyBuffer {
    const buffer: array<byte>
    var head: nat
    var tail: nat

    function View(): Ring
      reads this, buffer
    {
      Ring(buffer[..], head, tail)
    }

    ghost predicate Valid()
      reads this, buffer
    {
      RingOk(View())
    }

    ghost function Queue(): seq<byte>
      requires Valid()
      reads this, buffer
    {
      Contents(View())
    }

    constructor ()
      ensures Valid() && Queue() == []
    {
      buffer := new byte[KEY_BUF_SIZE](_ => 0);
      head, tail := 0, 0;
    }

    method Push(c: byte)
      requires Valid()
      modifies this`head, buffer
      ensures Valid() && View() == PushTo(old(View()), c)
      ensures Queue() == if |old(Queue())| < 255 then old(Queue()) + [c] else old(Queue())
    {
      PushIsEnqueue(View(), c);
      var next := (head + 1) % KEY_BUF_SIZE;
      if next != tail {
        buffer[head] := c;
        head := next;
      }
    }

    method IsEmpty() returns (e: bool)
      requires Valid()
      ensures e <==> Queue() == []
    {
      EmptyIff(View());
      e := tail == head;
    }

    // 0 stands for "nothing there": the handler pushes nonzero characters only.
    method Pop() returns (c: byte)
      requires Valid()
      modifies this`tail
      ensures Valid()
      ensures 0 !in old(Queue()) ==> (c == 0 <==> old(Queue()) == []) && 0 !in Queue()
      ensures if old(Queue()) == [] then c == 0 && Queue() == []
              else c == old(Queue())[0] && Queue() == old(Queue())[1..]
    {
      ghost var r := View();
      EmptyIff(r);
      if tail == head { return 0; }
      TailIsFront(r);
      c := buffer[tail];
      tail := (tail + 1) % KEY_BUF_SIZE;
      assert View() == r.(tail := After(r.tail)) && c == r.buf[r.tail];
    }
  }
  // ----- keyboard_read, one memory access at a time -----

  datatype Pc =
    | EmptyTail                    // buf_empty: about to load buf_tail
    | EmptyHead(t: nat)            // ... and buf_head
    | PopTail                      // buf_pop: about to load buf_tail for its own test
    | PopHead(t: nat)
    | IndexLoad                    // about to load buf_tail as an index
    | KeyLoad(i: nat)              // ... and the key there
    | AdvanceLoad(c: byte)         // about to load buf_tail to advance it
    | AdvanceStore(c: byte, t: nat)

  // `accepted` are the keys the interrupt handler managed to store, `returned` the values
  // keyboard_read has returned.
  datatype Machine = Machine(ring: Ring, pc: Pc, accepted: seq<byte>, returned: seq<byte>)

  datatype Event = KeyPress(c: byte) | ReaderStep

  function Step(m: Machine, e: Event): Machine
    requires RingOk(m.ring)
  {
    match e
    case KeyPress(c) =>
      if c == 0 then m      // the handler pushes nonzero characters only
      else if After(m.ring.head) != m.ring.tail
      then m.(ring := PushTo(m.ring, c), accepted := m.accepted + [c])
      else m.(ring := PushTo(m.ring, c))
    case ReaderStep =>
      match m.pc
      case EmptyTail => m.(pc := EmptyHead(m.ring.tail))
      case EmptyHead(t) => m.(pc := if t == m.ring.head then EmptyTail else PopTail)   // hlt, or go on
      case PopTail => m.(pc := PopHead(m.ring.tail))
      case PopHead(t) =>
        if t == m.ring.head then m.(pc := EmptyTail, returned := m.returned + [0]) else m.(pc := IndexLoad)
      case IndexLoad => m.(pc := KeyLoad(m.ring.tail))
      case KeyLoad(i) => m.(pc := AdvanceLoad(if i < |m.ring.buf| then m.ring.buf[i] else 0))
      case AdvanceLoad(c) => m.(pc := AdvanceStore(c, m.ring.tail))
      case AdvanceStore(c, t) =>
        m.(pc := EmptyTail, ring := m.ring.(tail := After(t)), returned := m.returned + [c])
  }

  // What the reader knows at each point, whatever the handler has pushed meanwhile.
  ghost predicate ReaderKnows(r: Ring, pc: Pc)
    requires RingOk(r)
  {
    match pc
    case EmptyTail => true
    case EmptyHead(t) => t == r.tail
    case PopTail => r.head != r.tail
    case PopHead(t) => t == r.tail != r.head
    case IndexLoad => r.head != r.tail
    case KeyLoad(i) => i == r.tail != r.head
    case AdvanceLoad(c) => r.head != r.tail && c == r.buf[r.tail]
    case AdvanceStore(c, t) => t == r.tail != r.head && c == r.buf[r.tail]
  }

  ghost predicate MachineOk(m: Machine) {
    && RingOk(m.ring) && ReaderKnows(m.ring, m.pc)
    && m.accepted == m.returned + Contents(m.ring)
    && forall i :: 0 <= i < |m.accepted| ==> m.accepted[i] != 0
  }

  // A push between any two accesses of the reader leaves what the reader knows true.
  lemma PushKeepsKnowledge(r: Ring, pc: Pc, c: byte)
    requires RingOk(r) && ReaderKnows(r, pc)
    ensures RingOk(PushTo(r, c)) && ReaderKnows(PushTo(r, c), pc)
  {
  }

  lemma PressKeepsOk(m: Machine, c: byte)
    requires MachineOk(m)
    ensures MachineOk(Step(m, KeyPress(c)))
    ensures Contents(Step(m, KeyPress(c)).ring) ==
      if c != 0 && |Contents(m.ring)| < 255 then Contents(m.ring) + [c] else Contents(m.ring)
  {
    PushIsEnqueue(m.ring, c);
    PushKeepsKnowledge(m.ring, m.pc, c);
  }

  lemma LoadKeepsOk(m: Machine)
    requires MachineOk(m) && !m.pc.AdvanceStore?
    ensures MachineOk(Step(m, ReaderStep)) && Step(m, ReaderStep) == m.(pc := Step(m, ReaderStep).pc)
  {
  }

  // One step is one queue operation or none: a push enqueues (or drops when 255 keys
  // wait), the reader's store dequeues exactly the key it returns, nothing else changes
  // the queue.
  lemma StepRefinesQueue(m: Machine, e: Event)
    requires MachineOk(m)
    ensures var m' := Step(m, e); var q := Contents(m.ring);
      && MachineOk(m')
      && match e
         case KeyPress(c) =>
           && m'.returned == m.returned
           && Contents(m'.ring) == if c != 0 && |q| < 255 then q + [c] else q
         case ReaderStep =>
           && m'.accepted == m.accepted
           && if m.pc.AdvanceStore? then q != [] && m'.returned == m.returned + [q[0]] && Contents(m'.ring) == q[1..]
              else m'.returned == m.returned && Contents(m'.ring) == q
  {
    match e
    case KeyPress(c) => PressKeepsOk(m, c);
    case ReaderStep =>
      if m.pc.AdvanceStore? {
        TailIsFront(m.ring);
        assert m.accepted == m.returned + [m.pc.c] + Contents(m.ring)[1..];
      } else {
        LoadKeepsOk(m);
      }
  }

  function Run(m: Machine, es: seq<Event>): Machine
    requires MachineOk(m)
    decreases |es|
  {
    if es == [] then m
    else
      StepRefinesQueue(m, es[0]);
      Run(Step(m, es[0]), es[1..])
  }

  const START := Machine(Ring(seq(KEY_BUF_SIZE, _ => 0), 0, 0), EmptyTail, [], [])

  lemma StartOk()
    ensures MachineOk(START)
  {
  }
  // ----- The queue a run refines -----

  // A queue of 255 places, with everything that ever entered and left it.
  datatype Fifo = Fifo(waiting: seq<byte>, entered: seq<byte>, left: seq<byte>)

  datatype QueueOp = Offer(c: byte) | Take

  const EMPTY := Fifo([], [], [])

  // A key offered when 255 wait is dropped, and only then; one is taken from the front.
  function Serve(f: Fifo, op: QueueOp): Fifo {
    match op
    case Offer(c) => if |f.waiting| < 255 then Fifo(f.waiting + [c], f.entered + [c], f.left) else f
    case Take => if f.waiting == [] then f else Fifo(f.waiting[1..], f.entered, f.left + [f.waiting[0]])
  }

  function ServeAll(f: Fifo, ops: seq<QueueOp>): Fifo
    decreases |ops|
  {
    if ops == [] then f else ServeAll(Serve(f, ops[0]), ops[1..])
  }

  // The queue operations in a run: every nonzero key pressed is offered, and one is taken
  // each time the reader returns.
  function OpsOf(m: Machine, e: Event): seq<QueueOp> {
    match e
    case KeyPress(c) => if c == 0 then [] else [Offer(c)]
    case ReaderStep => if m.pc.AdvanceStore? then [Take] else []
  }

  function Trace(m: Machine, es: seq<Event>): seq<QueueOp>
    requires MachineOk(m)
    decreases |es|
  {
    if es == [] then []
    else
      StepRefinesQueue(m, es[0]);
      OpsOf(m, es[0]) + Trace(Step(m, es[0]), es[1..])
  }

  ghost predicate Refines(m: Machine, f: Fifo) {
    MachineOk(m) && f == Fifo(Contents(m.ring), m.accepted, m.returned)
  }

  lemma StepServes(m: Machine, f: Fifo, e: Event)
    requires Refines(m, f)
    ensures Refines(Step(m, e), ServeAll(f, OpsOf(m, e)))
  {
    StepRefinesQueue(m, e);
    var ops := OpsOf(m, e);
    if ops != [] { assert ops[1..] == [] && ServeAll(f, ops) == Serve(f, ops[0]); }
    match e
    case KeyPress(c) => PushIsEnqueue(m.ring, c);
    case ReaderStep =>
  }

  lemma {:induction false} ServeAllAppend(f: Fifo, a: seq<QueueOp>, b: seq<QueueOp>)
    ensures ServeAll(f, a + b) == ServeAll(ServeAll(f, a), b)
    decreases |a|
  {
    if a == [] {
      assert a + b == b;
    } else {
      assert (a + b)[1..] == a[1..] + b;
      ServeAllAppend(Serve(f, a[0]), a[1..], b);
    }
  }

  lemma {:induction false} RunServes(m: Machine, f: Fifo, es: seq<Event>)
    requires Refines(m, f)
    ensures Refines(Run(m, es), ServeAll(f, Trace(m, es)))
    decreases |es|
  {
    if es == [] {
    } else {
      var ops := OpsOf(m, es[0]);
      StepServes(m, f, es[0]);
      RunServes(Step(m, es[0]), ServeAll(f, ops), es[1..]);
      ServeAllAppend(f, ops, Trace(Step(m, es[0]), es[1..]));
    }
  }

  // Every interleaving is a run of the 255-place queue: the keys that entered, left and
  // wait are the queue's, so keys come out in order, once each, and only those arriving
  // when it is full are dropped.  No read returns 0.
  lemma EveryRunIsFifo(es: seq<Event>)
    ensures MachineOk(START)
    ensures var (m, f) := (Run(START, es), ServeAll(EMPTY, Trace(START, es)));
      && RingOk(m.ring) && Contents(m.ring) == f.waiting && m.accepted == f.entered && m.returned == f.left
      && f.entered == f.left + f.waiting && |f.waiting| <= 255
      && forall i :: 0 <= i < |m.returned| ==> m.returned[i] != 0
  {
    StartOk();
    RunServes(START, EMPTY, es);
    var m := Run(START, es);
    PushIsEnqueue(m.ring, 0);
    forall i | 0 <= i < |m.returned| ensures m.returned[i] != 0 {
      assert m.returned[i] == m.accepted[i];
    }
  }
  // ----- Progress -----

  // How many accesses the reader still has to make before it returns a key.
  function Left(m: Machine): nat {
    match m.pc
    case EmptyTail => 8
    case EmptyHead(_) => 7
    case PopTail => 6
    case PopHead(_) => 5
    case IndexLoad => 4
    case KeyLoad(_) => 3
    case AdvanceLoad(_) => 2
    case AdvanceStore(_, _) => 1
  }

  // With a key waiting, each access of the reader brings it one nearer to returning that
  // key, and a push changes nothing in this.
  lemma StepMakesProgress(m: Machine, e: Event)
    requires MachineOk(m) && Contents(m.ring) != []
    ensures var m' := Step(m, e);
      match e
      case KeyPress(_) => Left(m') == Left(m) && m'.returned == m.returned && Contents(m.ring) <= Contents(m'.ring)
      case ReaderStep =>
        if m.pc.AdvanceStore? then m'.returned == m.returned + [Contents(m.ring)[0]]
        else Left(m') == Left(m) - 1 && m'.returned == m.returned && Contents(m'.ring) == Contents(m.ring)
  {
    StepRefinesQueue(m, e);
    EmptyIff(m.ring);
  }

  function ReaderSteps(es: seq<Event>): nat
    decreases |es|
  {
    if es == [] then 0 else ReaderSteps(es[1..]) + if es[0].ReaderStep? then 1 else 0
  }

  // What has been returned stays returned.
  lemma {:induction false} ReturnedGrows(m: Machine, es: seq<Event>)
    requires MachineOk(m)
    ensures m.returned <= Run(m, es).returned
    decreases |es|
  {
    if es == [] {
    } else {
      StepRefinesQueue(m, es[0]);
      ReturnedGrows(Step(m, es[0]), es[1..]);
    }
  }

  // With a key waiting, every run in which the reader makes the accesses it has left, at
  // most eight, returns that key next, however many pushes come in between.
  lemma {:induction false} ReadMakesProgress(m: Machine, es: seq<Event>)
    requires MachineOk(m) && Contents(m.ring) != [] && ReaderSteps(es) >= Left(m)
    ensures m.returned + [Contents(m.ring)[0]] <= Run(m, es).returned
    decreases |es|
  {
    var m' := Step(m, es[0]);
    StepRefinesQueue(m, es[0]);
    StepMakesProgress(m, es[0]);
    if es[0].ReaderStep? && m.pc.AdvanceStore? {
      ReturnedGrows(m', es[1..]);
    } else {
      ReadMakesProgress(m', es[1..]);
    }
  }
}
