/** fat16_delete_file on volumes: freeing a chain and releasing its slot. */
module FatDelete {
  import opened Bytes
  import opened FatVolume

  ghost function NonZero(fat: seq<u16>): set<nat> {
    set i: nat | i < |fat| && fat[i] != 0
  }

  // Zeroing an entry takes it out of the measure, or leaves the table as it was.
  lemma ZeroingShrinks(fat: seq<u16>, c: u16)
    requires c < |fat|
    ensures if fat[c] != 0 then NonZero(fat[c := 0]) < NonZero(fat) else fat[c := 0] == fat
  {
    assert c in NonZero(fat) <==> fat[c] != 0;
    assert c !in NonZero(fat[c := 0]);
  }

  // The freeing walk, on any table at all.  A cyclic or cross-linked table makes it
  // stop at the first entry it has already zeroed.
  ghost function FreeWalk(fat: seq<u16>, c: u16): (r: seq<u16>)
    ensures |r| == |fat|
    decreases NonZero(fat), if IsLink(c) then 1 else 0
  {
    if !IsLink(c) || c >= |fat| then fat
    else
      ZeroingShrinks(fat, c);
      FreeWalk(fat[c := 0], fat[c])
  }

  // Every link the walk follows lies inside the table.
  ghost predicate WalkInTable(fat: seq<u16>, c: u16)
    decreases NonZero(fat), if IsLink(c) then 1 else 0
  {
    if !IsLink(c) then true
    else if c >= |fat| then false
    else
      ZeroingShrinks(fat, c);
      WalkInTable(fat[c := 0], fat[c])
  }

  // A table whose links all stay inside it is enough, whatever cycles it holds.
  lemma {:induction false} LinksInTable(fat: seq<u16>, c: u16)
    requires forall i :: 0 <= i < |fat| && IsLink(fat[i]) ==> fat[i] < |fat|
    requires IsLink(c) ==> c < |fat|
    ensures WalkInTable(fat, c)
    decreases NonZero(fat), if IsLink(c) then 1 else 0
  {
    if !IsLink(c) {
    } else {
      ZeroingShrinks(fat, c);
      LinksInTable(fat[c := 0], fat[c]);
    }
  }

  // `p` follows links of the table from `c`, staying inside it.
  ghost predicate IsPath(fat: seq<u16>, c: int, p: seq<nat>) {
    && p != [] && p[0] == c
    && (forall i :: 0 <= i < |p| ==> IsLink(p[i]) && p[i] < |fat|)
    && (forall i :: 0 <= i < |p| - 1 ==> fat[p[i]] == p[i + 1])
  }

  ghost predicate Reachable(fat: seq<u16>, c: int, x: nat) {
    exists p :: IsPath(fat, c, p) && p[|p| - 1] == x
  }

  lemma PathCons(fat: seq<u16>, c: nat, p: seq<nat>)
    requires c < |fat| && IsLink(c) && IsPath(fat, fat[c], p)
    ensures IsPath(fat, c, [c] + p)
  {
    var q := [c] + p;
    forall i | 0 <= i < |q| - 1 ensures fat[q[i]] == q[i + 1] {
      if i > 0 { assert q[i] == p[i - 1] && q[i + 1] == p[i]; }
    }
  }

  // Zeroing `c` cuts no path to another cluster short of `c` itself.
  lemma ReachAfterZero(fat: seq<u16>, c: u16, x: nat)
    requires IsLink(c) && c < |fat| && x != c && Reachable(fat[c := 0], fat[c], x)
    ensures Reachable(fat, c, x)
  {
    var cut := fat[c := 0];
    var p :| IsPath(cut, fat[c], p) && p[|p| - 1] == x;
    forall i | 0 <= i < |p| - 1 ensures fat[p[i]] == p[i + 1] {
      assert cut[p[i]] == p[i + 1];
    }
    assert IsPath(fat, fat[c], p);
    PathCons(fat, c, p);
    assert ([c] + p)[|p|] == x;
  }

  // The zeroed clusters are closed under following the original links.
  lemma {:induction false} FreeWalkClosed(fat: seq<u16>, c: u16, x: nat)
    requires x < |fat|
    ensures IsLink(c) && c < |fat| ==> FreeWalk(fat, c)[c] == 0
    ensures FreeWalk(fat, c)[x] == 0 || FreeWalk(fat, c)[x] == fat[x]
    ensures FreeWalk(fat, c)[x] != fat[x] && IsLink(fat[x]) && fat[x] < |fat| ==> FreeWalk(fat, c)[fat[x]] == 0
    decreases NonZero(fat), if IsLink(c) then 1 else 0
  {
    if !IsLink(c) || c >= |fat| {
    } else {
      ZeroingShrinks(fat, c);
      FreeWalkClosed(fat[c := 0], fat[c], x);
      FreeWalkClosed(fat[c := 0], fat[c], c);
      var next := fat[x];
      if next < |fat| { FreeWalkClosed(fat[c := 0], fat[c], next); }
    }
  }

  lemma {:induction false} FreeWalkOnlyReachable(fat: seq<u16>, c: u16, x: nat)
    requires x < |fat| && FreeWalk(fat, c)[x] != fat[x]
    ensures Reachable(fat, c, x)
    decreases NonZero(fat), if IsLink(c) then 1 else 0
  {
    if !IsLink(c) || c >= |fat| {
    } else {
      ZeroingShrinks(fat, c);
      if x == c {
        assert IsPath(fat, c, [x]);
      } else {
        FreeWalkOnlyReachable(fat[c := 0], fat[c], x);
        ReachAfterZero(fat, c, x);
      }
    }
  }

  lemma {:induction false} ReachableIsFreed(fat: seq<u16>, c: u16, p: seq<nat>, k: nat)
    requires IsPath(fat, c, p) && k < |p|
    ensures FreeWalk(fat, c)[p[k]] == 0
    decreases k
  {
    if k == 0 {
      FreeWalkClosed(fat, c, p[0]);
    } else {
      ReachableIsFreed(fat, c, p, k - 1);
      assert fat[p[k - 1]] == p[k];
      FreeWalkClosed(fat, c, p[k - 1]);
    }
  }

  // On every table, cyclic and cross-linked ones included, the walk zeroes exactly the
  // clusters that can be reached from its start.
  lemma FreeWalkZeroesReachable(fat: seq<u16>, c: u16, x: nat)
    requires x < |fat|
    ensures FreeWalk(fat, c)[x] == if Reachable(fat, c, x) then 0 else fat[x]
  {
    FreeWalkClosed(fat, c, x);
    if Reachable(fat, c, x) {
      var p :| IsPath(fat, c, p) && p[|p| - 1] == x;
      ReachableIsFreed(fat, c, p, |p| - 1);
    } else if FreeWalk(fat, c)[x] != fat[x] {
      FreeWalkOnlyReachable(fat, c, x);
    }
  }

  // The walk a delete of `name` makes stays inside the table.
  ghost predicate DeleteInTable(v: Volume, name: seq<byte>) {
    var k := Find(v.dir, name, 0);
    0 <= k < |v.dir| ==> WalkInTable(v.fat, SlotFirst(v.dir[k]))
  }

  lemma InTableDeletes(v: Volume, name: seq<byte>)
    requires forall c :: 0 <= c < |v.fat| && IsLink(v.fat[c]) ==> v.fat[c] < |v.fat|
    requires forall i :: 0 <= i < |v.dir| && IsLink(SlotFirst(v.dir[i])) ==> SlotFirst(v.dir[i]) < |v.fat|
    ensures DeleteInTable(v, name)
  {
    var k := Find(v.dir, name, 0);
    if 0 <= k < |v.dir| { LinksInTable(v.fat, SlotFirst(v.dir[k])); }
  }

  function Zeroed(fat: seq<u16>, ch: seq<nat>): (r: seq<u16>)
    ensures |r| == |fat|
  {
    seq(|fat|, i requires 0 <= i < |fat| => if i in ch then 0 else fat[i])
  }

  // On a terminated chain the walk stays in the table and zeroes exactly that chain.
  lemma {:induction false} FreeWalkZeroesChain(fat: seq<u16>, limit: nat, c: u16, ch: seq<nat>)
    requires limit <= |fat| && IsChain(fat, limit, c, ch)
    ensures WalkInTable(fat, c)
    ensures FreeWalk(fat, c) == Zeroed(fat, ch)
    decreases |ch|
  {
    if ch == [] {
    } else {
      ChainAcyclic(fat, limit, c, ch);
      ChainFrame(fat, fat[c := 0], limit, fat[c], ch[1..]);
      FreeWalkZeroesChain(fat[c := 0], limit, fat[c], ch[1..]);
      assert ch == [c] + ch[1..];
      assert Zeroed(fat[c := 0], ch[1..]) == Zeroed(fat, ch);
    }
  }

  function Released(dir: seq<Slot>, i: nat): seq<Slot>
    requires i < |dir|
  {
    dir[i := dir[i][0 := DELETED]]
  }

  ghost function Delete(v: Volume, name: Name): (Volume, int) {
    var i := Find(v.dir, name, 0);
    if i < 0 || i >= |v.dir| then (v, -1)
    else (v.(fat := FreeWalk(v.fat, SlotFirst(v.dir[i])), dir := Released(v.dir, i)), 0)
  }

  lemma DeleteKeepsSlots(v: Volume, chs: seq<seq<nat>>, i: nat)
    requires WellFormedWith(v, chs) && i < |v.dir| && Live(v.dir[i])
    ensures var v' := v.(fat := FreeWalk(v.fat, SlotFirst(v.dir[i])), dir := Released(v.dir, i));
      WellFormedWith(v', chs)
  {
    var v' := v.(fat := FreeWalk(v.fat, SlotFirst(v.dir[i])), dir := Released(v.dir, i));
    FreeWalkZeroesChain(v.fat, |v.clusters|, SlotFirst(v.dir[i]), chs[i]);
    forall j | 0 <= j < |v'.dir| && Live(v'.dir[j]) ensures SlotOk(v', j, chs[j]) {
      assert j != i && v'.dir[j] == v.dir[j] && SlotOk(v, j, chs[j]);
      assert Disjoint(chs[i], chs[j]) || Disjoint(chs[j], chs[i]);
      ChainFrame(v.fat, v'.fat, |v.clusters|, SlotFirst(v.dir[j]), chs[j]);
    }
  }

  lemma RemoveName(dir: seq<Slot>, dir': seq<Slot>, i: nat)
    requires |dir'| == |dir| && i < |dir| && Live(dir[i]) && !Live(dir'[i])
    requires forall j :: 0 <= j < |dir| && j != i ==> dir'[j] == dir[j]
    requires forall j :: 0 <= j < |dir| && j != i && Live(dir[j]) ==> SlotName(dir[j]) != SlotName(dir[i])
    ensures Names(dir') == Names(dir) - {SlotName(dir[i])}
  {
    forall n | n in Names(dir) - {SlotName(dir[i])} ensures n in Names(dir') {
      var j :| 0 <= j < |dir| && Live(dir[j]) && SlotName(dir[j]) == n;
      assert Live(dir'[j]);
    }
  }

  // Two well-formed volumes that differ only in that slot `i` is no longer live
  // hold the same files apart from that slot's.
  lemma RemoveSlot(v: Volume, v': Volume, chs: seq<seq<nat>>, i: nat)
    requires WellFormedWith(v, chs) && WellFormedWith(v', chs)
    requires |v'.dir| == |v.dir| && i < |v.dir| && Live(v.dir[i]) && !Live(v'.dir[i])
    requires forall j :: 0 <= j < |v.dir| && j != i ==> v'.dir[j] == v.dir[j]
    requires v'.clusters == v.clusters
    ensures Files(v') == Files(v) - {SlotName(v.dir[i])}
  {
    var m := Files(v) - {SlotName(v.dir[i])};
    forall j | 0 <= j < |v'.dir| && Live(v'.dir[j])
      ensures SlotName(v'.dir[j]) in m && Below(chs[j], |v.clusters|)
      ensures m[SlotName(v'.dir[j])] == Take(Flat(v.clusters, chs[j]), SlotSize(v'.dir[j]))
    {
      FileAt(v, chs, j);
    }
    RemoveName(v.dir, v'.dir, i);
    FilesAre(v', chs, m);
  }

  // Deleting removes the name from the file map and nothing else, keeps the volume
  // well formed, zeroes exactly the file's chain, and reports whether the name was there.
  lemma DeleteRefinesMap(v: Volume, chs: seq<seq<nat>>, name: Name)
    requires WellFormedWith(v, chs)
    ensures var (v', r) := Delete(v, name);
      && WellFormedWith(v', chs)
      && Files(v') == Files(v) - {name}
      && r == (if name in Files(v) then 0 else -1)
      && (r == 0 ==> v'.fat == Zeroed(v.fat, chs[Find(v.dir, name, 0)]))
  {
    var i := Find(v.dir, name, 0);
    FindMeaning(v.dir, name, 0);
    FindIsLookup(v, name);
    var (v', r) := Delete(v, name);
    if r == 0 {
      DeleteKeepsSlots(v, chs, i);
      FreeWalkZeroesChain(v.fat, |v.clusters|, SlotFirst(v.dir[i]), chs[i]);
      RemoveSlot(v, v', chs, i);
    } else {
      assert Files(v) - {name} == Files(v);
    }
  }
}
