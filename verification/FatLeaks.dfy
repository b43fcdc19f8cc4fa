/** Clusters that are allocated and belong to no file: which calls make them, and how many. */
module FatLeaks {
  import opened Bytes
  import opened FatVolume
  import opened FatDelete
  import opened FatWrite
  import opened FatTheorems

  ghost function ChainAt(v: Volume, i: nat): seq<nat>
    requires Shape(v) && i < |v.dir|
  {
    ChainOf(v.fat, |v.clusters|, SlotFirst(v.dir[i]))
  }

  // Some live slot's chain goes through cluster `c`.
  ghost predicate Held(v: Volume, c: nat)
    requires Shape(v)
  {
    exists i :: 0 <= i < |v.dir| && Live(v.dir[i]) && c in ChainAt(v, i)
  }

  // Allocated clusters that no file reaches.
  ghost function Orphans(v: Volume): set<nat>
    requires Shape(v)
  {
    set c: nat | 2 <= c < |v.fat| && v.fat[c] != 0 && !Held(v, c)
  }

  ghost function Elements(ch: seq<nat>): set<nat> { set c | c in ch }

  lemma ChainAtIs(v: Volume, chs: seq<seq<nat>>, i: nat)
    requires WellFormedWith(v, chs) && i < |v.dir| && Live(v.dir[i])
    ensures ChainAt(v, i) == chs[i]
    ensures forall c :: c in chs[i] ==> 2 <= c < |v.clusters| && v.fat[c] != 0
  {
    assert SlotOk(v, i, chs[i]);
    ChainOfIs(v.fat, |v.clusters|, SlotFirst(v.dir[i]), chs[i]);
    ChainInRange(v.fat, |v.clusters|, SlotFirst(v.dir[i]), chs[i]);
  }

  lemma HeldIs(v: Volume, chs: seq<seq<nat>>, c: nat)
    requires WellFormedWith(v, chs)
    ensures Held(v, c) <==> exists i :: 0 <= i < |v.dir| && Live(v.dir[i]) && c in chs[i]
    ensures Held(v, c) ==> 2 <= c < |v.clusters| && v.fat[c] != 0
  {
    forall i | 0 <= i < |v.dir| && Live(v.dir[i])
      ensures ChainAt(v, i) == chs[i] && (c in chs[i] ==> 2 <= c < |v.clusters| && v.fat[c] != 0)
    {
      ChainAtIs(v, chs, i);
    }
  }
  // ----- Delete -----

  lemma DeleteHolds(v: Volume, chs: seq<seq<nat>>, name: Name, c: nat)
    requires WellFormedWith(v, chs) && WellFormedWith(Delete(v, name).0, chs)
    requires Delete(v, name).1 == 0
    ensures var i := Find(v.dir, name, 0);
      && 0 <= i < |v.dir| && Live(v.dir[i])
      && (Held(v, c) <==> Held(Delete(v, name).0, c) || c in chs[i])
  {
    var v', i := Delete(v, name).0, Find(v.dir, name, 0);
    FindMeaning(v.dir, name, 0);
    HeldIs(v, chs, c);
    HeldIs(v', chs, c);
    if Held(v, c) && c !in chs[i] {
      var j :| 0 <= j < |v.dir| && Live(v.dir[j]) && c in chs[j];
      assert Live(v'.dir[j]);
    }
    if Held(v', c) {
      var j :| 0 <= j < |v'.dir| && Live(v'.dir[j]) && c in chs[j];
      assert Live(v.dir[j]);
    }
  }

  // A delete leaves no cluster behind and frees none but the file's own.
  lemma DeleteLeaksNothing(v: Volume, chs: seq<seq<nat>>, name: Name)
    requires WellFormedWith(v, chs)
    ensures WellFormedWith(Delete(v, name).0, chs)
    ensures Orphans(Delete(v, name).0) == Orphans(v)
  {
    DeleteRefinesMap(v, chs, name);
    var (v', r) := Delete(v, name);
    if r == 0 {
      var i := Find(v.dir, name, 0);
      forall c: nat | 2 <= c < |v.fat| ensures c in Orphans(v') <==> c in Orphans(v) {
        DeleteHolds(v, chs, name, c);
        HeldIs(v', chs, c);
        assert v'.fat[c] == if c in chs[i] then 0 else v.fat[c];
      }
    }
  }
  // ----- Write -----

  // Linking the taken clusters makes exactly those allocated; no file holds them yet.
  lemma StoredOrphans(v: Volume, chs: seq<seq<nat>>, data: seq<byte>)
    requires WellFormedWith(v, chs) && |data| < 0x1_0000_0000
    requires Below(Taken(v.fat, |data|, v.clusterBytes), |v.clusters|)
    ensures WellFormedWith(Stored(v, data), chs)
    ensures Orphans(Stored(v, data)) == Orphans(v) + Elements(Taken(v.fat, |data|, v.clusterBytes))
    ensures Orphans(v) !! Elements(Taken(v.fat, |data|, v.clusterBytes))
  {
    var v', ch := Stored(v, data), Taken(v.fat, |data|, v.clusterBytes);
    StoredKeepsChains(v, chs, data);
    LinkZeros(v.fat, ch);
    forall c: nat | 2 <= c < |v.fat| ensures c in Orphans(v') <==> c in Orphans(v) || c in ch {
      HeldIs(v, chs, c);
      HeldIs(v', chs, c);
    }
  }

  // A new slot holds its own chain; a slot that is not live holds nothing.
  lemma SlotHolds(v: Volume, j: nat, s: Slot, ch: seq<nat>, c: nat)
    requires Shape(v) && FirstFree(v.dir, j) && IsChain(v.fat, |v.clusters|, SlotFirst(s), ch)
    ensures Held(WithSlot(v, j, s), c) <==> Held(v, c) || (Live(s) && c in ch)
  {
    var v' := WithSlot(v, j, s);
    ChainOfIs(v.fat, |v.clusters|, SlotFirst(s), ch);
    assert ChainAt(v', j) == ch;
    forall i | 0 <= i < |v.dir| && i != j ensures v'.dir[i] == v.dir[i] && ChainAt(v', i) == ChainAt(v, i) { }
    if Held(v, c) {
      var i :| 0 <= i < |v.dir| && Live(v.dir[i]) && c in ChainAt(v, i);
      assert i != j && Live(v'.dir[i]) && c in ChainAt(v', i);
    }
  }

  // What a write leaves allocated and unreachable: nothing if it returned 0 and its name
  // can be found again, otherwise every cluster it took.
  ghost function Leaked(v: Volume, name: Name, data: seq<byte>): set<nat>
    requires Shape(v) && |data| < 0x1_0000_0000 && Fits(v, name, |data|)
  {
    if Write(v, name, data).1 == 0 && name[0] != DELETED then {}
    else Elements(Taken(Delete(v, name).0.fat, |data|, v.clusterBytes))
  }

  lemma CreateOrphans(v: Volume, chs: seq<seq<nat>>, name: Name, data: seq<byte>)
    requires WellFormedWith(v, chs) && |data| < 0x1_0000_0000
    requires Below(Taken(v.fat, |data|, v.clusterBytes), |v.clusters|)
    ensures var ((v', r), ch) := (Create(v, name, data), Taken(v.fat, |data|, v.clusterBytes));
      && Shape(v') && Orphans(v) !! Elements(ch)
      && Orphans(v') == if r == 0 && name[0] != DELETED then Orphans(v) else Orphans(v) + Elements(ch)
  {
    StoredOrphans(v, chs, data);
    StoredShape(v, data);
    FindFreeMeaning(v.dir, 0);
    var (v', r) := Create(v, name, data);
    if r == 0 {
      var ch, j := Taken(v.fat, |data|, v.clusterBytes), FindFree(v.dir, 0);
      var s := MakeSlot(name, ch[0], |data|);
      assert s[..11][0] == s[0] == name[0];
      TakenIsChain(v, chs, data);
      LinkZeros(v.fat, ch);
      forall c: nat | 2 <= c < |v.fat|
        ensures c in Orphans(v') <==> c in Orphans(Stored(v, data)) && !(Live(s) && c in ch)
      {
        SlotHolds(Stored(v, data), j, s, ch, c);
      }
    }
  }

  // For every write on a well-formed volume, whatever it returns: exactly the clusters in
  // `Leaked` become orphans, none was one before, and no orphan is reclaimed.
  lemma WriteLeaks(v: Volume, chs: seq<seq<nat>>, name: Name, data: seq<byte>)
    requires WellFormedWith(v, chs) && |data| < 0x1_0000_0000 && Fits(v, name, |data|)
    ensures Shape(Write(v, name, data).0)
    ensures Orphans(v) !! Leaked(v, name, data)
    ensures Orphans(Write(v, name, data).0) == Orphans(v) + Leaked(v, name, data)
  {
    DeleteLeaksNothing(v, chs, name);
    CreateOrphans(Delete(v, name).0, chs, name, data);
  }

  // A write loses no cluster exactly when it succeeds under a name that can be found
  // again, or when nothing was free for it to take.
  lemma WriteLeaksNothingIff(v: Volume, chs: seq<seq<nat>>, name: Name, data: seq<byte>)
    requires WellFormedWith(v, chs) && |data| < 0x1_0000_0000 && Fits(v, name, |data|)
    ensures Shape(Write(v, name, data).0)
    ensures Orphans(Write(v, name, data).0) == Orphans(v) <==>
      (Write(v, name, data).1 == 0 && name[0] != DELETED) || FreeFrom(Delete(v, name).0.fat, 2) == []
  {
    WriteLeaks(v, chs, name, data);
    var ch := Taken(Delete(v, name).0.fat, |data|, v.clusterBytes);
    if ch != [] { assert ch[0] in Elements(ch); }
  }

  // A write that runs out of clusters takes, and loses, every free one there was.
  lemma FullWriteLosesAll(v: Volume, chs: seq<seq<nat>>, name: Name, data: seq<byte>)
    requires WellFormedWith(v, chs) && |data| < 0x1_0000_0000 && Fits(v, name, |data|)
    requires !EnoughFree(Delete(v, name).0, |data|)
    ensures Leaked(v, name, data) == FreeSet(Delete(v, name).0.fat, 2)
    ensures FreeFrom(Write(v, name, data).0.fat, 2) == []
  {
    var fat := Delete(v, name).0.fat;
    var free := FreeFrom(fat, 2);
    FreeFromMeaning(fat, 2);
    assert free[..|free|] == free && free[|free|..] == [];
    LinkLeavesRest(fat, free, |free|);
  }
  // ----- Runs -----

  ghost predicate LeaksNothing(v: Volume, op: Op, r: int)
    requires Shape(v)
  {
    match op
    case WriteOp(name, _) => (r == 0 && name[0] != DELETED) || FreeFrom(Delete(v, name).0.fat, 2) == []
    case DeleteOp(_) => true
  }

  ghost predicate LeakFree(vs: seq<Volume>, ops: seq<Op>, rs: seq<int>, i: nat)
    requires IsRun(vs, ops, rs) && i <= |ops|
  {
    forall k :: 0 <= k < i ==> LeaksNothing(vs[k], ops[k], rs[k])
  }

  lemma LeakFreeSnoc(vs: seq<Volume>, ops: seq<Op>, rs: seq<int>, i: nat)
    requires IsRun(vs, ops, rs) && 0 < i <= |ops|
    ensures LeakFree(vs, ops, rs, i) <==> LeakFree(vs, ops, rs, i - 1) && LeaksNothing(vs[i - 1], ops[i - 1], rs[i - 1])
  {
  }

  lemma StepLeaks(v: Volume, op: Op)
    requires WellFormed(v) && Callable(v, op)
    ensures var (v', r) := Apply(v, op);
      && WellFormed(v') && Orphans(v) <= Orphans(v')
      && (Orphans(v') == Orphans(v) <==> LeaksNothing(v, op, r))
  {
    var chs :| WellFormedWith(v, chs);
    StepRefinesMap(v, op);
    match op
    case WriteOp(name, data) =>
      WriteLeaks(v, chs, name, data);
      WriteLeaksNothingIff(v, chs, name, data);
    case DeleteOp(name) => DeleteLeaksNothing(v, chs, name);
  }

  // Over every run orphans only accumulate, and none has appeared exactly when every
  // write so far succeeded under a name that can be found again or found nothing free.
  lemma {:induction false} RunLeaksNothingIff(vs: seq<Volume>, ops: seq<Op>, rs: seq<int>, i: nat)
    requires IsRun(vs, ops, rs) && WellFormed(vs[0]) && i <= |ops|
    ensures WellFormed(vs[i]) && Orphans(vs[0]) <= Orphans(vs[i])
    ensures Orphans(vs[i]) == Orphans(vs[0]) <==> LeakFree(vs, ops, rs, i)
    decreases i
  {
    if i == 0 {
    } else {
      RunLeaksNothingIff(vs, ops, rs, i - 1);
      assert Apply(vs[i - 1], ops[i - 1]) == (vs[i - 1 + 1], rs[i - 1]);
      StepLeaks(vs[i - 1], ops[i - 1]);
      LeakFreeSnoc(vs, ops, rs, i);
    }
  }

  lemma HeldIsNamed(v: Volume, c: nat)
    requires Shape(v)
    ensures Held(v, c) ==> Files(v) != map[]
  {
    if Held(v, c) {
      var i :| 0 <= i < |v.dir| && Live(v.dir[i]) && c in ChainAt(v, i);
      assert SlotName(v.dir[i]) in Files(v);
    }
  }

  // A run that starts without orphans, loses no cluster and ends without files has given
  // every cluster back.
  lemma LeakFreeRunReturnsAll(vs: seq<Volume>, ops: seq<Op>, rs: seq<int>)
    requires IsRun(vs, ops, rs) && WellFormed(vs[0]) && Orphans(vs[0]) == {}
    requires LeakFree(vs, ops, rs, |ops|) && Shape(vs[|ops|]) && Files(vs[|ops|]) == map[]
    ensures forall c :: 2 <= c < |vs[|ops|].fat| ==> vs[|ops|].fat[c] == 0
  {
    var v := vs[|ops|];
    RunLeaksNothingIff(vs, ops, rs, |ops|);
    forall c: nat | 2 <= c < |v.fat| ensures v.fat[c] == 0 {
      assert c !in Orphans(v);
      HeldIsNamed(v, c);
    }
  }
}
