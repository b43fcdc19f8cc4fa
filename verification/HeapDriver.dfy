/** memory.c as it runs: block headers in word memory, linked by addresses. */
module HeapDriver {
  import opened Bytes
  import opened HeapModel
  import opened HeapTheorems

  // Main memory, by the byte address of each aligned word.
  const RAM_END := 0x40_0000
  type Memory = map<nat, u32>

  predicate RamOk(mem: Memory) { forall a: nat :: a < RAM_END && a % 4 == 0 ==> a in mem }

  predicate HeaderIs(mem: Memory, b: Block, next: nat) {
    && b.addr in mem && b.addr + 4 in mem && b.addr + 8 in mem
    && mem[b.addr] == b.size && mem[b.addr + 4] == (if b.free then 1 else 0) && mem[b.addr + 8] == next
  }

  function NextOf(bs: seq<Block>, i: nat, after: nat): nat { if i + 1 < |bs| then bs[i + 1].addr else after }

  // The headers in memory describe the list; `next` links its blocks in order, and the
  // last one points at `after`.
  ghost predicate RepUpTo(mem: Memory, bs: seq<Block>, after: nat) {
    forall i :: 0 <= i < |bs| ==> HeaderIs(mem, bs[i], NextOf(bs, i, after))
  }

  ghost predicate Rep(mem: Memory, bs: seq<Block>) { RepUpTo(mem, bs, 0) }

  function Head(bs: seq<Block>, after: nat): nat { if bs == [] then after else bs[0].addr }

  lemma RepSplit(mem: Memory, a: seq<Block>, b: seq<Block>, after: nat)
    ensures RepUpTo(mem, a + b, after) <==> RepUpTo(mem, a, Head(b, after)) && RepUpTo(mem, b, after)
  {
    var bs := a + b;
    forall i | 0 <= i < |a| ensures bs[i] == a[i] && NextOf(bs, i, after) == NextOf(a, i, Head(b, after)) { }
    forall i | 0 <= i < |b| ensures bs[|a| + i] == b[i] && NextOf(bs, |a| + i, after) == NextOf(b, i, after) { }
    if RepUpTo(mem, bs, after) {
      forall i | 0 <= i < |b| ensures HeaderIs(mem, b[i], NextOf(b, i, after)) {
        assert HeaderIs(mem, bs[|a| + i], NextOf(bs, |a| + i, after));
      }
    }
  }

  // Words written between two states all lie in [lo, hi).
  ghost predicate SameOutside(m: Memory, m': Memory, lo: nat, hi: nat) {
    m'.Keys == m.Keys && forall a :: a in m && !(lo <= a < hi) ==> m'[a] == m[a]
  }

  lemma RepFrame(mem: Memory, mem': Memory, bs: seq<Block>, after: nat, lo: nat, hi: nat)
    requires RepUpTo(mem, bs, after) && SameOutside(mem, mem', lo, hi)
    requires forall i :: 0 <= i < |bs| ==> bs[i].addr + HEADER <= lo || hi <= bs[i].addr
    ensures RepUpTo(mem', bs, after)
  {
    forall i | 0 <= i < |bs| ensures HeaderIs(mem', bs[i], NextOf(bs, i, after)) {
      assert HeaderIs(mem, bs[i], NextOf(bs, i, after));
    }
  }

  ghost predicate InLive(live: map<nat, nat>, a: nat) { exists p :: p in live && p <= a < p + live[p] }

  // Every word outside the heap or inside one of these payloads is as it was.
  ghost predicate KeepsPayloads(m: Memory, m': Memory, live: map<nat, nat>) {
    && m'.Keys == m.Keys
    && forall a :: a in m && (a < HEAP_START || HEAP_END <= a || InLive(live, a)) ==> m'[a] == m[a]
  }

  lemma KeepsTrans(m: Memory, m': Memory, m'': Memory, live: map<nat, nat>)
    requires KeepsPayloads(m, m', live) && KeepsPayloads(m', m'', live)
    ensures KeepsPayloads(m, m'', live)
  {
  }

  lemma Order(p: seq<Block>, mid: seq<Block>, s: seq<Block>)
    requires Tiles(p + (mid + s), HEAP_START) && mid != []
    ensures forall i :: 0 <= i < |p| ==> p[i].End() <= mid[0].addr
    ensures forall i :: 0 <= i < |s| ==> mid[|mid| - 1].End() <= s[i].addr
  {
    var bs := p + (mid + s);
    AddressesRise(bs, HEAP_START);
    assert bs[|p|] == mid[0] && bs[|p| + |mid| - 1] == mid[|mid| - 1];
    forall i | 0 <= i < |p| ensures p[i].End() <= mid[0].addr { assert bs[i] == p[i]; }
    forall i | 0 <= i < |s| ensures mid[|mid| - 1].End() <= s[i].addr { assert bs[|p| + |mid| + i] == s[i]; }
  }

  // A stretch of blocks replaced by another that starts at the same address.
  lemma RepReplace(mem: Memory, mem': Memory, p: seq<Block>, mid: seq<Block>, t: seq<Block>, s: seq<Block>)
    requires Tiles(p + (mid + s), HEAP_START) && Rep(mem, p + (mid + s))
    requires mid != [] && t != [] && t[0].addr == mid[0].addr
    requires SameOutside(mem, mem', mid[0].addr, mid[|mid| - 1].End())
    requires RepUpTo(mem', t, Head(s, 0))
    ensures Rep(mem', p + (t + s))
  {
    RepSplit(mem, p, mid + s, 0);
    RepSplit(mem, mid, s, 0);
    Order(p, mid, s);
    RepFrame(mem, mem', p, mid[0].addr, mid[0].addr, mid[|mid| - 1].End());
    RepFrame(mem, mem', s, 0, mid[0].addr, mid[|mid| - 1].End());
    RepSplit(mem', t, s, 0);
    RepSplit(mem', p, t + s, 0);
  }

  lemma {:induction false} NextStarts(bs: seq<Block>, a: nat, i: nat)
    requires Tiles(bs, a) && i + 1 < |bs|
    ensures bs[i].End() == bs[i + 1].addr
    decreases i
  {
    if i > 0 { NextStarts(bs[1..], bs[0].End(), i - 1); } else { assert bs[1..][0] == bs[1]; }
  }

  lemma BlockBounds(bs: seq<Block>, i: nat)
    requires Tiles(bs, HEAP_START) && i < |bs|
    ensures HEAP_START <= bs[i].addr && bs[i].End() <= HEAP_END && bs[i].addr % 4 == 0 && bs[i].size % 4 == 0
    ensures i == 0 ==> bs[i].addr == HEAP_START
    ensures i + 1 < |bs| ==> bs[i].End() == bs[i + 1].addr
  {
    AddressesRise(bs, HEAP_START);
    if i + 1 < |bs| { NextStarts(bs, HEAP_START, i); }
  }

  lemma {:induction false} LastEnds(bs: seq<Block>, a: nat)
    requires Tiles(bs, a) && bs != []
    ensures bs[|bs| - 1].End() == HEAP_END
    decreases |bs|
  {
    if |bs| == 1 {
      assert bs[1..] == [];
    } else {
      LastEnds(bs[1..], bs[0].End());
    }
  }

  // The headers in numbers: the first at 0x100000, each of three words -- size, 1 for
  // free, address of the next -- and 12 bytes before its payload.
  lemma HeadersInMemory(mem: Memory, bs: seq<Block>, i: nat)
    requires Tiles(bs, HEAP_START) && Rep(mem, bs) && i < |bs|
    ensures var b := bs[i];
      && b.addr in mem && mem[b.addr] == b.size
      && b.addr + 4 in mem && mem[b.addr + 4] == (if b.free then 1 else 0)
      && b.addr + 8 in mem && mem[b.addr + 8] == (if i + 1 < |bs| then b.addr + 12 + b.size else 0)
      && (i == 0 ==> b.addr == 0x10_0000) && (i + 1 == |bs| ==> b.addr + 12 + b.size == 0x20_0000)
  {
    BlockBounds(bs, i);
    LastEnds(bs, HEAP_START);
    assert HeaderIs(mem, bs[i], NextOf(bs, i, 0));
  }

  lemma {:induction false} BlockOf(bs: seq<Block>, a: nat, ptr: nat) returns (i: nat)
    requires Tiles(bs, a) && ptr in Live(bs)
    ensures i < |bs| && !bs[i].free && bs[i].Payload() == ptr
    ensures forall j :: 0 <= j < i ==> bs[j].Payload() != ptr
    decreases |bs|
  {
    LiveInRange(bs[1..], bs[0].End());
    if bs[0].Payload() == ptr {
      i := 0;
    } else {
      var j := BlockOf(bs[1..], bs[0].End(), ptr);
      i := j + 1;
      assert bs[i] == bs[1..][j];
      assert forall k :: 0 < k < i ==> bs[k] == bs[1..][k - 1];
    }
  }

  // A live payload in numbers: its size is 12 bytes before it, its mark 8 bytes.
  lemma PayloadInMemory(mem: Memory, bs: seq<Block>, p: nat)
    requires Tiles(bs, HEAP_START) && Rep(mem, bs) && p in Live(bs)
    ensures 0x10_000C <= p && p + Live(bs)[p] <= 0x20_0000 && p % 4 == 0
    ensures p - 12 in mem && mem[p - 12] == Live(bs)[p] && p - 8 in mem && mem[p - 8] == 0
  {
    LiveInRange(bs, HEAP_START);
    var i := BlockOf(bs, HEAP_START, p);
    LiveHas(bs, HEAP_START, i);
    assert HeaderIs(mem, bs[i], NextOf(bs, i, 0));
  }

  // Writes inside a free block disturb no payload.
  lemma FreeBlockWrites(m: Memory, m': Memory, bs: seq<Block>, i: nat)
    requires Tiles(bs, HEAP_START) && i < |bs| && bs[i].free
    requires SameOutside(m, m', bs[i].addr, bs[i].End())
    ensures KeepsPayloads(m, m', Live(bs))
  {
    FreeBlockIsGap(bs, HEAP_START, i);
    AddressesRise(bs, HEAP_START);
  }

  // No header overlaps a live payload.
  lemma {:induction false} HeaderApart(bs: seq<Block>, a: nat, i: nat, p: nat)
    requires Tiles(bs, a) && i < |bs| && p in Live(bs)
    ensures bs[i].addr + HEADER <= p || p + Live(bs)[p] <= bs[i].addr
    decreases |bs|
  {
    AddressesRise(bs, a);
    LiveInRange(bs[1..], bs[0].End());
    if p in Live(bs[1..]) && bs[0].Payload() != p && i > 0 {
      HeaderApart(bs[1..], bs[0].End(), i - 1, p);
    }
  }

  // Stores below the heap or inside one live payload reach no header.
  lemma PayloadWritesKeepRep(mem: Memory, mem': Memory, bs: seq<Block>, lo: nat, hi: nat)
    requires Tiles(bs, HEAP_START) && Rep(mem, bs) && SameOutside(mem, mem', lo, hi)
    requires hi <= HEAP_START || (lo in Live(bs) && hi <= lo + Live(bs)[lo])
    ensures Rep(mem', bs)
  {
    forall i | 0 <= i < |bs| ensures bs[i].addr + HEADER <= lo || hi <= bs[i].addr {
      BlockBounds(bs, i);
      if hi > HEAP_START { HeaderApart(bs, HEAP_START, i, lo); }
    }
    RepFrame(mem, mem', bs, 0, lo, hi);
  }

  // First fit, given that the first `i` blocks do not fit and block `i`, if any, does.
  lemma {:induction false} FirstFitAt(bs: seq<Block>, need: nat, i: nat)
    requires i <= |bs| && forall j :: 0 <= j < i ==> !(bs[j].free && bs[j].size >= need)
    requires i < |bs| ==> bs[i].free && bs[i].size >= need
    ensures FirstFit(bs, need) ==
      if i == |bs| then (bs, 0) else (bs[..i] + (Taken(bs[i], need) + bs[i + 1..]), bs[i].Payload())
    decreases i
  {
    if i == 0 {
      assert bs != [] ==> bs[..0] + (Taken(bs[0], need) + bs[1..]) == Taken(bs[0], need) + bs[1..];
    } else {
      FirstFitAt(bs[1..], need, i - 1);
      assert [bs[0]] + bs[1..] == bs;
      if i < |bs| {
        var rest := Taken(bs[i], need) + bs[i + 1..];
        assert bs[1..][i - 1 + 1..] == bs[i + 1..];
        assert [bs[0]] + (bs[1..][..i - 1] + rest) == bs[..i] + rest;
      }
    }
  }

  lemma AllocAt(bs: seq<Block>, size: u32, i: nat)
    requires size != 0 && i <= |bs|
    requires forall j :: 0 <= j < i ==> !(bs[j].free && bs[j].size >= Rounded(size))
    requires i < |bs| ==> bs[i].free && bs[i].size >= Rounded(size)
    ensures Alloc(bs, size) ==
      if i == |bs| then (bs, 0) else (bs[..i] + (Taken(bs[i], Rounded(size)) + bs[i + 1..]), bs[i].Payload())
  {
    FirstFitAt(bs, Rounded(size), i);
  }

  lemma {:induction false} FirstIndex(bs: seq<Block>, need: nat) returns (i: nat)
    ensures i <= |bs| && forall j :: 0 <= j < i ==> !(bs[j].free && bs[j].size >= need)
    ensures i < |bs| ==> bs[i].free && bs[i].size >= need
  {
    if bs == [] || (bs[0].free && bs[0].size >= need) {
      i := 0;
    } else {
      var j := FirstIndex(bs[1..], need);
      i := j + 1;
      assert forall k :: 0 < k <= j + 1 && k < |bs| ==> bs[k] == bs[1..][k - 1];
    }
  }

  // A successful request takes the first free block that is large enough.  The block is
  // split when at least 16 bytes more than the rounded size are there, and the rest, less
  // a header of 12, stays free; otherwise it is taken whole.
  lemma AllocExactly(bs: seq<Block>, size: u32) returns (i: nat)
    requires Tiles(bs, HEAP_START) && Alloc(bs, size).1 != 0
    ensures i < |bs| && bs[i].free && bs[i].size >= Rounded(size)
    ensures forall j :: 0 <= j < i ==> !(bs[j].free && bs[j].size >= Rounded(size))
    ensures var (b, n) := (bs[i], Rounded(size));
      Alloc(bs, size) == (
        bs[..i]
        + ((if b.size >= n + 16 then [Block(b.addr, n, false), Block(b.addr + 12 + n, b.size - n - 12, true)]
            else [Block(b.addr, b.size, false)])
        + bs[i + 1..]), b.addr + 12)
  {
    i := FirstIndex(bs, Rounded(size));
    AllocAt(bs, size, i);
    if i < |bs| { BlockBounds(bs, i); }
  }

  lemma AroundTwo(bs: seq<Block>, i: nat)
    requires i + 1 < |bs|
    ensures bs == bs[..i] + ([bs[i], bs[i + 1]] + bs[i + 2..])
  {
  }

  ghost function MergedAt(bs: seq<Block>, i: nat): seq<Block>
    requires i + 1 < |bs|
  {
    bs[..i] + ([Merged(bs[i], bs[i + 1])] + bs[i + 2..])
  }

  // Memory after a merge of blocks `i` and `i + 1`, from what was written.
  lemma MergeRep(mem: Memory, mem': Memory, bs: seq<Block>, i: nat)
    requires Tiles(bs, HEAP_START) && Rep(mem, bs) && i + 1 < |bs| && bs[i].free
    requires SameOutside(mem, mem', bs[i].addr, bs[i].End())
    requires SameOutside(mem, mem', bs[i].addr, bs[i + 1].End())
    requires RepUpTo(mem', [Merged(bs[i], bs[i + 1])], Head(bs[i + 2..], 0))
    ensures Rep(mem', MergedAt(bs, i)) && KeepsPayloads(mem, mem', Live(bs))
  {
    FreeBlockWrites(mem, mem', bs, i);
    AroundTwo(bs, i);
    RepReplace(mem, mem', bs[..i], [bs[i], bs[i + 1]], [Merged(bs[i], bs[i + 1])], bs[i + 2..]);
  }

  lemma {:induction false} MergeTiles(bs: seq<Block>, a: nat, i: nat)
    requires Tiles(bs, a) && i + 1 < |bs| && bs[i].free && bs[i + 1].free
    ensures Tiles(MergedAt(bs, i), a) && Live(MergedAt(bs, i)) == Live(bs)
    decreases i
  {
    if i == 0 {
      assert MergedAt(bs, 0)[1..] == bs[2..] == bs[1..][1..];
    } else {
      MergeTiles(bs[1..], bs[0].End(), i - 1);
      assert MergedAt(bs, i)[1..] == MergedAt(bs[1..], i - 1);
    }
  }

  lemma ConsSlices(bs: seq<Block>, i: nat)
    requires 0 < i < |bs|
    ensures [bs[0]] + bs[1..][..i - 1] == bs[..i] && bs[1..][i - 1] == bs[i] && bs[1..][i..] == bs[i + 1..]
  {
  }

  lemma Regroup(a: seq<Block>, b: seq<Block>, c: seq<Block>)
    ensures a + (b + c) == (a + b) + c
  {
  }

  lemma {:induction false} MarkAt(bs: seq<Block>, i: nat, ptr: nat)
    requires i < |bs| && bs[i].Payload() == ptr && forall j :: 0 <= j < i ==> bs[j].Payload() != ptr
    ensures Mark(bs, ptr) == bs[..i] + ([bs[i].(free := true)] + bs[i + 1..])
    decreases i
  {
    if i == 0 {
      assert bs[..0] == [];
    } else {
      var t, marked := bs[1..], [bs[i].(free := true)] + bs[i + 1..];
      assert forall j :: 0 <= j < i - 1 ==> t[j] == bs[j + 1];
      MarkAt(t, i - 1, ptr);
      ConsSlices(bs, i);
      Regroup([bs[0]], t[..i - 1], marked);
    }
  }

  class Heap {
    var mem: Memory
    ghost var blocks: seq<Block>

    ghost predicate Valid()
      reads this
    {
      RamOk(mem) && HeapOk(blocks) && Rep(mem, blocks)
    }

    constructor (ram: Memory)
      requires RamOk(ram)
      ensures Valid() && blocks == INITIAL
      ensures mem.Keys == ram.Keys && SameOutside(ram, mem, HEAP_START, HEAP_END)
      ensures mem == ram[0x10_0000 := 0xF_FFF4][0x10_0004 := 1][0x10_0008 := 0]
    {
      // memory_init
      mem := ram[HEAP_START := HEAP_SIZE - HEADER][HEAP_START + 4 := 1][HEAP_START + 8 := 0];
      blocks := INITIAL;
      InitialIsOk();
    }

    method SetHeader(at: nat, size: u32, isFree: u32, next: u32)
      requires RamOk(mem) && at % 4 == 0 && at + 8 < RAM_END && isFree <= 1
      modifies this`mem
      ensures RamOk(mem) && SameOutside(old(mem), mem, at, at + HEADER)
      ensures HeaderIs(mem, Block(at, size, isFree == 1), next)
    {
      mem := mem[at := size];
      mem := mem[at + 4 := isFree];
      mem := mem[at + 8 := next];
    }

    method WriteTaken(current: nat, need: u32, ghost b: Block, ghost after: nat)
      requires RamOk(mem) && HeaderIs(mem, b, after) && current == b.addr && b.size >= need
      requires b.addr % 4 == 0 && b.size % 4 == 0 && need % 4 == 0 && b.End() <= HEAP_END
      modifies this`mem
      ensures RamOk(mem) && SameOutside(old(mem), mem, b.addr, b.End())
      ensures RepUpTo(mem, Taken(b, need), after)
    {
      var size, next := mem[current], mem[current + 8];
      if size >= need + HEADER + 4 {
        var block := current + HEADER + need;
        SetHeader(block, size - need - HEADER, 1, next);
        ghost var split := mem;
        SetHeader(current, need, 0, block);
        assert HeaderIs(split, Taken(b, need)[1], after);
        assert HeaderIs(mem, Taken(b, need)[1], after);
      } else {
        mem := mem[current + 4 := 0];
      }
    }

    // Marks block `i` used, splitting off what is left over when that can hold a block.
    method TakeBlock(current: nat, need: u32, ghost i: nat)
      requires Valid() && i < |blocks| && blocks[i].free && blocks[i].size >= need && need % 4 == 0
      requires current == blocks[i].addr
      modifies this
      ensures RamOk(mem) && Rep(mem, blocks) && KeepsPayloads(old(mem), mem, Live(old(blocks)))
      ensures blocks == old(blocks[..i]) + (Taken(old(blocks[i]), need) + old(blocks[i + 1..]))
    {
      ghost var b, p, s := blocks[i], blocks[..i], blocks[i + 1..];
      assert blocks == p + ([b] + s);
      assert HeaderIs(mem, b, NextOf(blocks, i, 0)) && NextOf(blocks, i, 0) == Head(s, 0);
      BlockBounds(blocks, i);
      WriteTaken(current, need, b, Head(s, 0));
      FreeBlockWrites(old(mem), mem, blocks, i);
      RepReplace(old(mem), mem, p, [b], Taken(b, need), s);
      blocks := p + (Taken(b, need) + s);
    }

    // The walk along the links to the first free block that is large enough.
    method FindFit(need: u32) returns (current: nat, ghost i: nat)
      requires Valid()
      ensures i <= |blocks| && forall j :: 0 <= j < i ==> !(blocks[j].free && blocks[j].size >= need)
      ensures if i < |blocks| then blocks[i].free && blocks[i].size >= need && current == blocks[i].addr && current != 0
              else current == 0
    {
      current, i := HEAP_START, 0;
      assert HEAP_START == Head(blocks, 0) && blocks[0..] == blocks;
      while current != 0
        invariant i <= |blocks| && current == Head(blocks[i..], 0)
        invariant forall j :: 0 <= j < i ==> !(blocks[j].free && blocks[j].size >= need)
        decreases |blocks| - i
      {
        assert HeaderIs(mem, blocks[i], NextOf(blocks, i, 0)) && NextOf(blocks, i, 0) == Head(blocks[i + 1..], 0);
        if mem[current + 4] != 0 && mem[current] >= need {
          return current, i;
        }
        current := mem[current + 8];
        i := i + 1;
      }
      if i < |blocks| { BlockBounds(blocks, i); }
    }

    // The walk, and the block it stops at.
    method TakeFit(size: u32, need: u32) returns (ptr: nat)
      requires Valid() && size != 0 && need == Rounded(size)
      modifies this
      ensures RamOk(mem) && Rep(mem, blocks) && (blocks, ptr) == Alloc(old(blocks), size)
      ensures KeepsPayloads(old(mem), mem, Live(old(blocks)))
      ensures ptr == 0 ==> mem == old(mem)
    {
      ghost var i: nat;
      var current;
      current, i := FindFit(need);
      AllocAt(blocks, size, i);
      if current == 0 { return 0; }
      TakeBlock(current, need, i);
      return current + HEADER;
    }

    // memory_alloc: first fit along the linked blocks.
    method MemoryAlloc(size: u32) returns (ptr: nat)
      requires Valid()
      modifies this
      ensures Valid() && (blocks, ptr) == Alloc(old(blocks), size)
      ensures KeepsPayloads(old(mem), mem, Live(old(blocks)))
      ensures size == 0 ==> ptr == 0
      ensures ptr == 0 ==> mem == old(mem)
    {
      if size == 0 { return 0; }
      AllocKeepsHeap(blocks, size);
      ptr := TakeFit(size, (size + 3) % 0x1_0000_0000 / 4 * 4);
    }

    method SetFreeWord(header: nat, ghost b: Block, ghost after: nat)
      requires RamOk(mem) && HeaderIs(mem, b, after) && header == b.addr
      modifies this`mem
      ensures RamOk(mem) && SameOutside(old(mem), mem, b.addr, b.End())
      ensures RepUpTo(mem, [b.(free := true)], after)
    {
      mem := mem[header + 4 := 1];
    }

    method MarkFree(ptr: nat)
      requires Valid() && ptr in Live(blocks)
      modifies this
      ensures RamOk(mem) && blocks == Mark(old(blocks), ptr) && Rep(mem, blocks)
      ensures KeepsPayloads(old(mem), mem, Live(blocks))
    {
      ghost var i := BlockOf(blocks, HEAP_START, ptr);
      MarkAt(blocks, i, ptr);
      ghost var b, p, s := blocks[i], blocks[..i], blocks[i + 1..];
      assert blocks == p + ([b] + s);
      BlockBounds(blocks, i);
      assert HeaderIs(mem, b, NextOf(blocks, i, 0)) && NextOf(blocks, i, 0) == Head(s, 0);
      SetFreeWord(ptr - HEADER, b, Head(s, 0));
      RepReplace(old(mem), mem, p, [b], [b.(free := true)], s);
      blocks := p + ([b.(free := true)] + s);
      MarkTiles(old(blocks), HEAP_START, ptr);
      FreeBlockWrites(old(mem), mem, blocks, i);
    }

    method MergeWords(current: nat, after: nat, ghost b: Block, ghost c: Block, ghost last: nat)
      requires RamOk(mem) && HeaderIs(mem, b, after) && HeaderIs(mem, c, last) && b.free
      requires current == b.addr && after == c.addr && b.End() == c.addr && c.End() <= HEAP_END
      modifies this`mem
      ensures RamOk(mem) && SameOutside(old(mem), mem, b.addr, b.End()) && SameOutside(old(mem), mem, b.addr, c.End())
      ensures RepUpTo(mem, [Merged(b, c)], last)
    {
      mem := mem[current := mem[current] + HEADER + mem[after]];
      mem := mem[current + 8 := mem[after + 8]];
    }

    // Swallows the next block into block `i`, both being free.
    method MergeNext(current: nat, after: nat, ghost i: nat)
      requires RamOk(mem) && Tiles(blocks, HEAP_START) && Rep(mem, blocks)
      requires i + 1 < |blocks| && blocks[i].free && blocks[i + 1].free
      requires current == blocks[i].addr && after == blocks[i + 1].addr
      modifies this
      ensures RamOk(mem) && Rep(mem, blocks) && KeepsPayloads(old(mem), mem, Live(old(blocks)))
      ensures blocks == MergedAt(old(blocks), i)
    {
      ghost var b, c := blocks[i], blocks[i + 1];
      BlockBounds(blocks, i);
      BlockBounds(blocks, i + 1);
      assert HeaderIs(mem, b, NextOf(blocks, i, 0)) && HeaderIs(mem, c, NextOf(blocks, i + 1, 0));
      MergeWords(current, after, b, c, Head(blocks[i + 2..], 0));
      MergeRep(old(mem), mem, blocks, i);
      blocks := MergedAt(blocks, i);
    }

    // The body of the merging pass.
    method CoalesceStep(current: nat, ghost i: nat) returns (ghost i': nat, next: nat)
      requires RamOk(mem) && Tiles(blocks, HEAP_START) && Rep(mem, blocks)
      requires i < |blocks| && current == blocks[i].addr
      modifies this
      ensures RamOk(mem) && Tiles(blocks, HEAP_START) && Rep(mem, blocks)
      ensures i' <= |blocks| && next == Head(blocks[i'..], 0) && |blocks| - i' < |old(blocks)| - i
      ensures blocks[..i'] + Coalesce(blocks[i'..]) == old(blocks[..i]) + Coalesce(old(blocks[i..]))
      ensures Live(blocks) == Live(old(blocks)) && KeepsPayloads(old(mem), mem, Live(blocks))
    {
      ghost var rest := blocks[i..];
      BlockBounds(blocks, i);
      assert HeaderIs(mem, blocks[i], NextOf(blocks, i, 0));
      var after := mem[current + 8];
      if i + 1 < |blocks| { assert HeaderIs(mem, blocks[i + 1], NextOf(blocks, i + 1, 0)); }
      if mem[current + 4] != 0 && after != 0 && mem[after + 4] != 0 {
        MergeNext(current, after, i);
        MergeTiles(old(blocks), HEAP_START, i);
        assert blocks[i..] == [Merged(rest[0], rest[1])] + rest[2..];
        assert blocks[..i] == old(blocks)[..i];
        i', next := i, current;
      } else {
        i', next := i + 1, after;
        assert rest[1..] == blocks[i + 1..];
        assert blocks[..i + 1] == blocks[..i] + [rest[0]];
      }
    }

    // The merging pass, on any tiled list.
    method CoalescePass()
      requires RamOk(mem) && Tiles(blocks, HEAP_START) && Rep(mem, blocks)
      modifies this
      ensures RamOk(mem) && Rep(mem, blocks) && blocks == Coalesce(old(blocks))
      ensures KeepsPayloads(old(mem), mem, Live(old(blocks)))
    {
      var current := HEAP_START;
      ghost var i: nat := 0;
      assert HEAP_START == Head(blocks, 0);
      assert blocks[..0] == [] && blocks[0..] == blocks;
      while current != 0
        invariant RamOk(mem) && Tiles(blocks, HEAP_START) && Rep(mem, blocks)
        invariant i <= |blocks| && current == Head(blocks[i..], 0)
        invariant Coalesce(old(blocks)) == blocks[..i] + Coalesce(blocks[i..])
        invariant Live(blocks) == Live(old(blocks)) && KeepsPayloads(old(mem), mem, Live(blocks))
        decreases |blocks| - i
      {
        ghost var before := mem;
        i, current := CoalesceStep(current, i);
        KeepsTrans(old(mem), before, mem, Live(blocks));
      }
      if i < |blocks| { BlockBounds(blocks, i); }
      assert blocks[i..] == [] && blocks[..i] == blocks;
    }

    // memory_free: mark the block free, then one pass that merges neighbouring free blocks.
    method MemoryFree(ptr: nat)
      requires Valid() && (ptr == 0 || ptr in Live(blocks))
      modifies this
      ensures Valid() && blocks == Free(old(blocks), ptr)
      ensures KeepsPayloads(old(mem), mem, Live(blocks))
    {
      if ptr == 0 { return; }
      FreeKeepsHeap(blocks, ptr);
      MarkFree(ptr);
      MarkTiles(old(blocks), HEAP_START, ptr);
      MarkLive(old(blocks), HEAP_START, ptr);
      ghost var marked := mem;
      CoalescePass();
      KeepsTrans(old(mem), marked, mem, Live(blocks));
    }
  }
}
