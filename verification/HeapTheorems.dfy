/** What memory_alloc and memory_free guarantee together. */
module HeapTheorems {
  import opened Bytes
  import opened HeapModel
  // ----- Every call keeps the heap tiled and coalesced -----

  // One live payload appears, of at least the rounded size; nothing else moves.
  lemma AllocKeepsHeap(bs: seq<Block>, size: u32)
    requires HeapOk(bs)
    ensures var (bs', p) := Alloc(bs, size);
      && HeapOk(bs') && (size == 0 ==> p == 0)
      && if p == 0 then bs' == bs
         else p !in Live(bs) && p in Live(bs') && Rounded(size) <= Live(bs')[p] < Rounded(size) + 16
              && Live(bs') == Live(bs)[p := Live(bs')[p]]
  {
    if size != 0 {
      FirstFitTiles(bs, HEAP_START, Rounded(size));
      FirstFitNoTwoFree(bs, Rounded(size));
      FirstFitLive(bs, HEAP_START, Rounded(size));
    }
  }

  // Exactly the freed payload disappears; nothing else moves.
  lemma FreeKeepsHeap(bs: seq<Block>, p: nat)
    requires HeapOk(bs)
    ensures HeapOk(Free(bs, p)) && Live(Free(bs, p)) == Live(bs) - {p}
  {
    if p != 0 {
      MarkTiles(bs, HEAP_START, p);
      MarkLive(bs, HEAP_START, p);
      CoalesceKeeps(Mark(bs, p), HEAP_START);
    } else {
      LiveInRange(bs, HEAP_START);
    }
  }

  // A returned payload holds what was asked for exactly when the rounding did not wrap.
  lemma AllocLargeEnoughIff(bs: seq<Block>, size: u32)
    requires HeapOk(bs) && Alloc(bs, size).1 != 0
    ensures var (bs', p) := Alloc(bs, size);
      p in Live(bs') && (size <= Live(bs')[p] <==> size <= 0xFFFF_FFFC)
  {
    AllocKeepsHeap(bs, size);
    FirstFitLive(bs, HEAP_START, Rounded(size));
  }
  // ----- Exact first fit -----

  lemma {:induction false} AddressesRise(bs: seq<Block>, a: nat)
    requires Tiles(bs, a)
    ensures forall i :: 0 <= i < |bs| ==> a <= bs[i].addr && bs[i].End() <= HEAP_END && bs[i].addr % 4 == 0 && bs[i].size % 4 == 0
    ensures forall i, j :: 0 <= i < j < |bs| ==> bs[i].End() <= bs[j].addr
    decreases |bs|
  {
    if bs == [] {
    } else {
      LiveInRange(bs, a);
      LiveInRange(bs[1..], bs[0].End());
      AddressesRise(bs[1..], bs[0].End());
      assert bs == [bs[0]] + bs[1..];
    }
  }

  // The returned block is the lowest free one that is large enough; 0 means there is none.
  lemma {:induction false} FirstFitIsLowest(bs: seq<Block>, a: nat, need: nat)
    requires Tiles(bs, a)
    ensures var p := FirstFit(bs, need).1;
      && (p == 0 <==> forall i :: 0 <= i < |bs| && bs[i].free ==> bs[i].size < need)
      && (p != 0 ==> exists i :: 0 <= i < |bs| && bs[i].free && bs[i].size >= need && bs[i].Payload() == p)
      && (p != 0 ==> forall i :: 0 <= i < |bs| && bs[i].free && bs[i].size >= need ==> p <= bs[i].Payload())
    decreases |bs|
  {
    if bs == [] {
    } else {
      if bs[0].free && bs[0].size >= need {
        AddressesRise(bs, a);
      } else {
        var t := bs[1..];
        FirstFitIsLowest(t, bs[0].End(), need);
        var p := FirstFit(t, need).1;
        assert forall i :: 0 < i < |bs| ==> bs[i] == t[i - 1];
        if p != 0 {
          var i :| 0 <= i < |t| && t[i].free && t[i].size >= need && t[i].Payload() == p;
          assert bs[i + 1] == t[i];
        } else {
          forall i | 0 <= i < |bs| && bs[i].free ensures bs[i].size < need {
            if i > 0 { assert t[i - 1].size < need; }
          }
        }
      }
    }
  }

  // A stretch [lo, hi) of the heap that no live block, header included, touches.
  ghost predicate Gap(bs: seq<Block>, lo: nat, hi: nat) {
    && 0x10_0000 <= lo < hi <= 0x20_0000
    && forall p :: p in Live(bs) ==> hi <= p - 12 || p + Live(bs)[p] <= lo
  }

  lemma {:induction false} FreeBlockIsGap(bs: seq<Block>, a: nat, i: nat)
    requires Tiles(bs, a) && i < |bs| && bs[i].free
    ensures forall p :: p in Live(bs) ==> bs[i].End() <= p - HEADER || p + Live(bs)[p] <= bs[i].addr
    decreases |bs|
  {
    AddressesRise(bs, a);
    LiveInRange(bs[1..], bs[0].End());
    if i == 0 {
    } else {
      FreeBlockIsGap(bs[1..], bs[0].End(), i - 1);
    }
  }

  lemma {:induction false} LiveHas(bs: seq<Block>, a: nat, i: nat)
    requires Tiles(bs, a) && i < |bs|
    ensures !bs[i].free ==> bs[i].Payload() in Live(bs) && Live(bs)[bs[i].Payload()] == bs[i].size
    decreases |bs|
  {
    LiveInRange(bs[1..], bs[0].End());
    if i == 0 {
    } else {
      LiveHas(bs[1..], bs[0].End(), i - 1);
    }
  }

  // Since no two neighbours are free, every gap lies within one free block.
  lemma {:induction false} GapInFreeBlock(bs: seq<Block>, a: nat, lo: nat, hi: nat) returns (i: nat)
    requires Tiles(bs, a) && NoTwoFree(bs) && a <= lo < hi <= HEAP_END
    requires forall p :: p in Live(bs) ==> hi <= p - HEADER || p + Live(bs)[p] <= lo
    ensures i < |bs| && bs[i].free && bs[i].addr <= lo && hi <= bs[i].End()
    decreases |bs|
  {
    LiveInRange(bs[1..], bs[0].End());
    if lo < bs[0].End() {
      i := 0;
      LiveHas(bs, a, 0);
      if |bs| > 1 { LiveHas(bs, a, 1); }
      assert bs[0].free;
      assert |bs| > 1 ==> bs[1].addr == bs[0].End() by { if |bs| > 1 { assert bs[1..][0] == bs[1]; } }
    } else {
      forall p | p in Live(bs[1..]) ensures hi <= p - HEADER || p + Live(bs[1..])[p] <= lo {
        assert p in Live(bs) && Live(bs)[p] == Live(bs[1..])[p];
      }
      i := GapInFreeBlock(bs[1..], bs[0].End(), lo, hi);
      i := i + 1;
    }
  }

  // An allocation of a nonzero size fails exactly when no stretch of heap space outside
  // the live blocks can hold one header and the rounded size.
  lemma AllocFailsIffNoGap(bs: seq<Block>, size: u32)
    requires HeapOk(bs) && size != 0
    ensures Alloc(bs, size).1 == 0 <==>
      forall lo: nat, hi: nat :: Gap(bs, lo, hi) ==> hi - lo < 12 + Rounded(size)
  {
    var need := Rounded(size);
    FirstFitIsLowest(bs, HEAP_START, need);
    if Alloc(bs, size).1 == 0 {
      forall lo: nat, hi: nat | Gap(bs, lo, hi) ensures hi - lo < HEADER + need {
        var i := GapInFreeBlock(bs, HEAP_START, lo, hi);
      }
    } else {
      var i :| 0 <= i < |bs| && bs[i].free && bs[i].size >= need;
      FreeBlockIsGap(bs, HEAP_START, i);
      AddressesRise(bs, HEAP_START);
      assert Gap(bs, bs[i].addr, bs[i].End());
    }
  }

  // A size whose rounding wraps is met by the first free block there is, however small.
  lemma WrappedSizeSucceedsIff(bs: seq<Block>, size: u32)
    requires HeapOk(bs) && size > 0xFFFF_FFFC
    ensures Alloc(bs, size).1 != 0 <==> exists i :: 0 <= i < |bs| && bs[i].free
  {
    FirstFitIsLowest(bs, HEAP_START, 0);
  }

  // On the initial heap such a request yields a payload of no bytes at all.
  lemma WrappedSizeGetsNothing()
    ensures var (bs', p) := Alloc(INITIAL, 0xFFFF_FFFD);
      p == 0x10_000C && p in Live(bs') && Live(bs')[p] == 0
  {
    var (bs', p) := Alloc(INITIAL, 0xFFFF_FFFD);
    assert bs'[0] == Block(HEAP_START, 0, false) && |bs'| == 2;
  }
  // ----- Undoing -----

  lemma HeadTakenThenFreed(bs: seq<Block>, need: nat)
    requires bs != [] && NoTwoFree(bs) && bs[0].free && bs[0].size >= need
    ensures Coalesce(Mark(Taken(bs[0], need) + bs[1..], bs[0].Payload())) == bs
  {
    var t := Taken(bs[0], need);
    var m := Mark(t + bs[1..], bs[0].Payload());
    assert (t + bs[1..])[1..] == t[1..] + bs[1..];
    if |t| == 2 {
      assert m == [Block(bs[0].addr, need, true), t[1]] + bs[1..];
      assert m[2..] == bs[1..] && Merged(m[0], m[1]) == bs[0];
      assert [Merged(m[0], m[1])] + m[2..] == bs;
    } else {
      assert m == bs;
    }
    CoalesceNothing(bs);
  }

  // A block in front that does not meet a free neighbour stays as it is.
  lemma KeepHead(b: Block, m: seq<Block>, t: seq<Block>)
    requires Coalesce(m) == t && |m| > 0 && |t| > 0 && m[0].free == t[0].free && !(b.free && t[0].free)
    ensures Coalesce([b] + m) == [b] + t
  {
    assert ([b] + m)[1..] == m;
  }

  lemma TailTakenThenFreed(bs: seq<Block>, a: nat, need: nat)
    requires Tiles(bs, a) && NoTwoFree(bs) && need % 4 == 0 && bs != []
    requires FirstFit(bs[1..], need).1 != 0 && !(bs[0].free && bs[0].size >= need)
    requires Coalesce(Mark(FirstFit(bs[1..], need).0, FirstFit(bs[1..], need).1)) == bs[1..]
    ensures Coalesce(Mark(FirstFit(bs, need).0, FirstFit(bs, need).1)) == bs
  {
    var (rest, p) := FirstFit(bs[1..], need);
    FirstFitLive(bs[1..], bs[0].End(), need);
    FirstFitTiles(bs[1..], bs[0].End(), need);
    MarkTiles(rest, bs[0].End(), p);
    var m := Mark(rest, p);
    CoalesceKeeps(m, bs[0].End());
    assert ([bs[0]] + rest)[1..] == rest;
    assert Mark([bs[0]] + rest, p) == [bs[0]] + m;
    KeepHead(bs[0], m, bs[1..]);
    assert [bs[0]] + bs[1..] == bs;
  }

  lemma {:induction false} FirstFitThenFree(bs: seq<Block>, a: nat, need: nat)
    requires Tiles(bs, a) && NoTwoFree(bs) && need % 4 == 0 && FirstFit(bs, need).1 != 0
    ensures Coalesce(Mark(FirstFit(bs, need).0, FirstFit(bs, need).1)) == bs
    decreases |bs|
  {
    if bs[0].free && bs[0].size >= need {
      HeadTakenThenFreed(bs, need);
    } else {
      FirstFitThenFree(bs[1..], bs[0].End(), need);
      TailTakenThenFreed(bs, a, need);
    }
  }

  // Allocating and at once freeing restores the block list exactly.
  lemma AllocFreeRestores(bs: seq<Block>, size: u32)
    requires HeapOk(bs)
    ensures var (bs', p) := Alloc(bs, size); Free(bs', p) == bs
  {
    AllocKeepsHeap(bs, size);
    if Alloc(bs, size).1 != 0 {
      FirstFitThenFree(bs, HEAP_START, Rounded(size));
    }
  }

  // With nothing live the heap is the single initial block.
  lemma NothingLiveIsInitial(bs: seq<Block>)
    requires HeapOk(bs) && Live(bs) == map[]
    ensures bs == INITIAL
  {
    LiveHas(bs, HEAP_START, 0);
    if |bs| > 1 {
      LiveHas(bs, HEAP_START, 1);
    } else {
      assert bs[1..] == [] && Tiles(bs[1..], bs[0].End());
      assert bs[0] == Block(HEAP_START, HEAP_SIZE - HEADER, true);
      assert bs == [bs[0]];
    }
  }

  lemma InitialIsOk()
    ensures HeapOk(INITIAL) && Live(INITIAL) == map[]
  {
    assert INITIAL[1..] == [] && Tiles(INITIAL[1..], INITIAL[0].End());
  }
  // ----- Runs -----

  datatype Op = AllocOp(size: u32) | FreeOp(p: nat)

  // The block list together with what each live pointer was requested with.
  datatype State = State(bs: seq<Block>, asked: map<nat, u32>)

  // free takes null or a pointer that is live.
  predicate Callable(s: State, op: Op) { op.FreeOp? ==> op.p == 0 || op.p in s.asked }

  function Step(s: State, op: Op): State {
    match op
    case AllocOp(size) =>
      var (bs', p) := Alloc(s.bs, size);
      State(bs', if p == 0 then s.asked else s.asked[p := size])
    case FreeOp(p) => State(Free(s.bs, p), s.asked - {p})
  }

  ghost predicate IsRun(ss: seq<State>, ops: seq<Op>) {
    && |ss| == |ops| + 1
    && ss[0] == State(INITIAL, map[])
    && forall i :: 0 <= i < |ops| ==> Callable(ss[i], ops[i]) && ss[i + 1] == Step(ss[i], ops[i])
  }

  // Tiled, coalesced, and every pointer handed out and not yet freed still has its
  // payload, as large as requested whenever the request did not wrap.
  ghost predicate Inv(s: State) {
    && HeapOk(s.bs)
    && Live(s.bs).Keys == s.asked.Keys
    && forall p :: p in s.asked ==> p in Live(s.bs) && (s.asked[p] <= 0xFFFF_FFFC ==> s.asked[p] <= Live(s.bs)[p])
  }

  lemma StepKeepsInv(s: State, op: Op)
    requires Inv(s)
    ensures Inv(Step(s, op))
  {
    match op
    case AllocOp(size) => AllocKeepsHeap(s.bs, size);
    case FreeOp(p) => FreeKeepsHeap(s.bs, p);
  }

  // In every state of every run, live payloads are inside the heap, word aligned, large
  // enough, and disjoint together with their headers.
  lemma {:induction false} RunIsSafe(ss: seq<State>, ops: seq<Op>, i: nat)
    requires IsRun(ss, ops) && i < |ss|
    ensures Inv(ss[i])
    ensures forall p :: p in ss[i].asked ==>
      && p in Live(ss[i].bs) && p % 4 == 0
      && 0x10_000C <= p && p + Live(ss[i].bs)[p] <= 0x20_0000
    ensures forall p, q :: p in ss[i].asked && q in ss[i].asked && p < q ==>
      p in Live(ss[i].bs) && p + Live(ss[i].bs)[p] + 12 <= q
  {
    if i == 0 {
      InitialIsOk();
    } else {
      RunIsSafe(ss, ops, i - 1);
      assert ss[i - 1 + 1] == Step(ss[i - 1], ops[i - 1]);
      StepKeepsInv(ss[i - 1], ops[i - 1]);
    }
    LiveInRange(ss[i].bs, HEAP_START);
    forall p, q | p in ss[i].asked && q in ss[i].asked && p < q
      ensures p in Live(ss[i].bs) && p + Live(ss[i].bs)[p] + HEADER <= q
    {
      LiveDisjoint(ss[i].bs, HEAP_START, p, q);
    }
  }

  // A run that has freed everything it was given ends in the initial heap.
  lemma RunReturnsToInitial(ss: seq<State>, ops: seq<Op>)
    requires IsRun(ss, ops) && ss[|ops|].asked == map[]
    ensures ss[|ops|].bs == [Block(0x10_0000, 0xF_FFF4, true)]
  {
    RunIsSafe(ss, ops, |ops|);
    NothingLiveIsInitial(ss[|ops|].bs);
  }
}
