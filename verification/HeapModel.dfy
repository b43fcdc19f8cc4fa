/** The heap as the list of blocks that tile it, and what memory_alloc and memory_free
    do to that list.  Module HeapDriver does the same through pointers. */
module HeapModel {
  import opened Bytes

  const HEAP_START := 0x10_0000
  const HEAP_SIZE := 0x10_0000
  const HEAP_END := HEAP_START + HEAP_SIZE
  const HEADER := 12

  // `size` does not count the header.
  datatype Block = Block(addr: nat, size: nat, free: bool) {
    function Payload(): nat { addr + HEADER }
    function End(): nat { addr + HEADER + size }
  }

  // The blocks follow one another from `a` to the end of the heap, word aligned.
  predicate Tiles(bs: seq<Block>, a: nat) {
    if bs == [] then a == HEAP_END
    else bs[0].addr == a && a % 4 == 0 && bs[0].size % 4 == 0 && Tiles(bs[1..], bs[0].End())
  }

  predicate NoTwoFree(bs: seq<Block>) {
    forall i :: 0 <= i < |bs| - 1 ==> !(bs[i].free && bs[i + 1].free)
  }

  predicate HeapOk(bs: seq<Block>) { Tiles(bs, HEAP_START) && NoTwoFree(bs) }

  const INITIAL: seq<Block> := [Block(HEAP_START, HEAP_SIZE - HEADER, true)]
  // ----- Allocation -----

  // (size + 3) & ~3 in 32-bit arithmetic.
  function Rounded(size: u32): (r: nat)
    ensures r % 4 == 0
    ensures size <= 0xFFFF_FFFC ==> size <= r < size + 4
    ensures size > 0xFFFF_FFFC ==> r == 0
  {
    (size + 3) % 0x1_0000_0000 / 4 * 4
  }

  function Taken(b: Block, need: nat): seq<Block>
    requires need <= b.size
  {
    if b.size >= need + HEADER + 4
    then [Block(b.addr, need, false), Block(b.addr + HEADER + need, b.size - need - HEADER, true)]
    else [b.(free := false)]
  }

  function FirstFit(bs: seq<Block>, need: nat): (seq<Block>, nat) {
    if bs == [] then ([], 0)
    else if bs[0].free && bs[0].size >= need then (Taken(bs[0], need) + bs[1..], bs[0].Payload())
    else
      var (rest, p) := FirstFit(bs[1..], need);
      ([bs[0]] + rest, p)
  }

  function Alloc(bs: seq<Block>, size: u32): (seq<Block>, nat) {
    if size == 0 then (bs, 0) else FirstFit(bs, Rounded(size))
  }
  // ----- Release -----

  function Mark(bs: seq<Block>, p: nat): seq<Block> {
    if bs == [] then []
    else if bs[0].Payload() == p then [bs[0].(free := true)] + bs[1..]
    else [bs[0]] + Mark(bs[1..], p)
  }

  function Merged(a: Block, b: Block): Block { a.(size := a.size + HEADER + b.size) }

  function Coalesce(bs: seq<Block>): seq<Block>
    decreases |bs|
  {
    if |bs| < 2 then bs
    else if bs[0].free && bs[1].free then Coalesce([Merged(bs[0], bs[1])] + bs[2..])
    else [bs[0]] + Coalesce(bs[1..])
  }

  function Free(bs: seq<Block>, p: nat): seq<Block> {
    if p == 0 then bs else Coalesce(Mark(bs, p))
  }
  // ----- Live payloads: a map from the pointer a caller holds to the bytes behind it -----

  function Live(bs: seq<Block>): map<nat, nat> {
    if bs == [] then map[]
    else if bs[0].free then Live(bs[1..])
    else Live(bs[1..])[bs[0].Payload() := bs[0].size]
  }

  // Every live payload lies inside the tiled stretch, past the first header.
  lemma {:induction false} LiveInRange(bs: seq<Block>, a: nat)
    requires Tiles(bs, a)
    ensures a <= HEAP_END && a % 4 == 0
    ensures forall p :: p in Live(bs) ==> a + HEADER <= p && p + Live(bs)[p] <= HEAP_END && p % 4 == 0 && Live(bs)[p] % 4 == 0
    decreases |bs|
  {
    if bs == [] {
    } else {
      LiveInRange(bs[1..], bs[0].End());
    }
  }

  // Different live payloads do not overlap, headers included.
  lemma {:induction false} LiveDisjoint(bs: seq<Block>, a: nat, p: nat, q: nat)
    requires Tiles(bs, a) && p in Live(bs) && q in Live(bs) && p < q
    ensures p + Live(bs)[p] + HEADER <= q
    decreases |bs|
  {
    LiveInRange(bs[1..], bs[0].End());
    if p == bs[0].Payload() {
    } else {
      LiveDisjoint(bs[1..], bs[0].End(), p, q);
    }
  }
  // ----- What an allocation does -----

  lemma {:induction false} FirstFitTiles(bs: seq<Block>, a: nat, need: nat)
    requires Tiles(bs, a) && need % 4 == 0
    ensures Tiles(FirstFit(bs, need).0, a)
    decreases |bs|
  {
    if bs == [] {
    } else {
      if bs[0].free && bs[0].size >= need {
        var t := Taken(bs[0], need);
        if |t| == 2 {
          assert (t + bs[1..])[1..] == [t[1]] + bs[1..];
          assert ([t[1]] + bs[1..])[1..] == bs[1..];
        } else {
          assert (t + bs[1..])[1..] == bs[1..];
        }
      } else {
        FirstFitTiles(bs[1..], bs[0].End(), need);
      }
    }
  }

  lemma {:induction false} FirstFitNoTwoFree(bs: seq<Block>, need: nat)
    requires NoTwoFree(bs)
    ensures NoTwoFree(FirstFit(bs, need).0)
    ensures bs != [] && !bs[0].free ==> FirstFit(bs, need).0 != [] && !FirstFit(bs, need).0[0].free
    ensures bs == [] ==> FirstFit(bs, need).0 == []
    decreases |bs|
  {
    if bs == [] || (bs[0].free && bs[0].size >= need) {
    } else {
      FirstFitNoTwoFree(bs[1..], need);
    }
  }

  // One live payload is added: the returned one; none moves or changes size.
  lemma {:induction false} FirstFitLive(bs: seq<Block>, a: nat, need: nat)
    requires Tiles(bs, a)
    ensures var (bs', p) := FirstFit(bs, need);
      if p == 0 then bs' == bs
      else p !in Live(bs) && a + HEADER <= p && p in Live(bs') && need <= Live(bs')[p] < need + HEADER + 4
           && Live(bs') == Live(bs)[p := Live(bs')[p]]
    decreases |bs|
  {
    if bs == [] {
    } else {
      LiveInRange(bs[1..], bs[0].End());
      if bs[0].free && bs[0].size >= need {
        var t := Taken(bs[0], need);
        if |t| == 2 {
          assert (t + bs[1..])[1..] == [t[1]] + bs[1..];
          assert ([t[1]] + bs[1..])[1..] == bs[1..];
        } else {
          assert (t + bs[1..])[1..] == bs[1..];
        }
      } else {
        FirstFitLive(bs[1..], bs[0].End(), need);
        var (rest, p) := FirstFit(bs[1..], need);
        assert ([bs[0]] + rest)[1..] == rest;
      }
    }
  }
  // ----- What a release does -----

  lemma {:induction false} MarkTiles(bs: seq<Block>, a: nat, p: nat)
    requires Tiles(bs, a)
    ensures Tiles(Mark(bs, p), a)
    decreases |bs|
  {
    if bs == [] {
    } else {
      MarkTiles(bs[1..], bs[0].End(), p);
    }
  }

  lemma {:induction false} MarkLive(bs: seq<Block>, a: nat, p: nat)
    requires Tiles(bs, a)
    ensures Live(Mark(bs, p)) == Live(bs) - {p}
    decreases |bs|
  {
    if bs == [] {
    } else {
      MarkLive(bs[1..], bs[0].End(), p);
      LiveInRange(bs[1..], bs[0].End());
    }
  }

  lemma {:induction false} CoalesceKeeps(bs: seq<Block>, a: nat)
    requires Tiles(bs, a)
    ensures Tiles(Coalesce(bs), a) && Live(Coalesce(bs)) == Live(bs)
    ensures NoTwoFree(Coalesce(bs))
    ensures |Coalesce(bs)| > 0 <==> |bs| > 0
    ensures bs != [] ==> Coalesce(bs)[0].free == bs[0].free
    decreases |bs|
  {
    if |bs| < 2 {
    } else {
      if bs[0].free && bs[1].free {
        var m := [Merged(bs[0], bs[1])] + bs[2..];
        assert m[1..] == bs[2..] == bs[1..][1..];
        CoalesceKeeps(m, a);
      } else {
        CoalesceKeeps(bs[1..], bs[0].End());
        assert ([bs[0]] + Coalesce(bs[1..]))[1..] == Coalesce(bs[1..]);
      }
    }
  }

  lemma {:induction false} CoalesceNothing(bs: seq<Block>)
    requires NoTwoFree(bs)
    ensures Coalesce(bs) == bs
    decreases |bs|
  {
    if |bs| < 2 {
    } else {
      CoalesceNothing(bs[1..]);
    }
  }
}
