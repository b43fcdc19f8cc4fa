/** What the file system is for: a volume behaves as a map from names to byte strings. */
module FatTheorems {
  import opened Bytes
  import opened FatVolume
  import opened FatDelete
  import opened FatWrite
  import opened FatRead

  // What a write should do to the file map.
  function MapAfterWrite(m: map<seq<byte>, seq<byte>>, name: Name, data: seq<byte>, r: int): map<seq<byte>, seq<byte>> {
    if r == 0 && name[0] != DELETED then m[name := data] else m - {name}
  }

  // The chain a write has just linked is a proper chain, apart from every live file's.
  lemma TakenIsChain(v: Volume, chs: seq<seq<nat>>, data: seq<byte>)
    requires WellFormedWith(v, chs) && |data| < 0x1_0000_0000 && EnoughFree(v, |data|)
    requires Below(Taken(v.fat, |data|, v.clusterBytes), |v.clusters|)
    ensures var ch := Taken(v.fat, |data|, v.clusterBytes);
      && |ch| == ClustersNeeded(|data|, v.clusterBytes)
      && IsChain(Stored(v, data).fat, |v.clusters|, ch[0], ch)
      && forall i :: 0 <= i < |v.dir| && Live(v.dir[i]) ==> Disjoint(ch, chs[i]) && Disjoint(chs[i], ch)
  {
    var ch := Taken(v.fat, |data|, v.clusterBytes);
    LinkIsChain(v.fat, |v.clusters|, ch, 0);
    assert ch[0..] == ch;
    forall i | 0 <= i < |v.dir| && Live(v.dir[i]) ensures Disjoint(ch, chs[i]) && Disjoint(chs[i], ch) {
      assert SlotOk(v, i, chs[i]);
      ChainInRange(v.fat, |v.clusters|, SlotFirst(v.dir[i]), chs[i]);
    }
  }

  // The last step of a successful write, on the volume left by the delete.
  lemma SlotAfterStore(v: Volume, chs: seq<seq<nat>>, j: nat, name: Name, data: seq<byte>)
    requires WellFormedWith(v, chs) && |data| < 0x1_0000_0000 && EnoughFree(v, |data|)
    requires Below(Taken(v.fat, |data|, v.clusterBytes), |v.clusters|)
    requires FirstFree(v.dir, j) && name !in Files(v)
    requires Rounds(|data|, v.clusterBytes) || name[0] == DELETED
    ensures var ch := Taken(v.fat, |data|, v.clusterBytes);
      var v' := WithSlot(Stored(v, data), j, MakeSlot(name, ch[0], |data|));
      && WellFormedWith(v', chs[j := ch])
      && Files(v') == MapAfterWrite(Files(v), name, data, 0)
  {
    var ch := Taken(v.fat, |data|, v.clusterBytes);
    var v2 := Stored(v, data);
    var s := MakeSlot(name, ch[0], |data|);
    assert s[..11][0] == s[0] == name[0];
    StoredKeepsFiles(v, chs, data);
    TakenIsChain(v, chs, data);
    if Live(s) { ClustersNeededCeil(|data|, v.clusterBytes); }
    assert Files(v2).Keys == Names(v2.dir);
    AddSlotWellFormed(v2, chs, j, s, ch);
    if Live(s) {
      AddSlotFiles(v2, chs, j, s, ch);
      FilledReadsBack(v.clusters, ch, data, v.clusterBytes);
    } else {
      AddDeadSlotFiles(v2, chs, j, s, ch);
      assert Files(v) - {name} == Files(v);
    }
  }

  ghost function ChainsAfterCreate(v: Volume, chs: seq<seq<nat>>, name: Name, data: seq<byte>): seq<seq<nat>>
    requires Shape(v) && |chs| == |v.dir| && |data| < 0x1_0000_0000
    requires Below(Taken(v.fat, |data|, v.clusterBytes), |v.clusters|)
  {
    var j := FindFree(v.dir, 0);
    if Create(v, name, data).1 == 0 && 0 <= j < |chs|
    then chs[j := Taken(v.fat, |data|, v.clusterBytes)] else chs
  }

  lemma CreateRefinesMap(v: Volume, chs: seq<seq<nat>>, name: Name, data: seq<byte>)
    requires WellFormedWith(v, chs) && |data| < 0x1_0000_0000 && name !in Files(v)
    requires Below(Taken(v.fat, |data|, v.clusterBytes), |v.clusters|)
    requires Rounds(|data|, v.clusterBytes) || name[0] == DELETED || Create(v, name, data).1 != 0
    ensures var (v', r) := Create(v, name, data);
      && WellFormedWith(v', ChainsAfterCreate(v, chs, name, data))
      && Files(v') == MapAfterWrite(Files(v), name, data, r)
  {
    FindFreeMeaning(v.dir, 0);
    if Create(v, name, data).1 == 0 {
      SlotAfterStore(v, chs, FindFree(v.dir, 0), name, data);
    } else {
      StoredKeepsFiles(v, chs, data);
      assert Files(v) - {name} == Files(v);
    }
  }

  lemma AfterDelete(m: map<seq<byte>, seq<byte>>, name: Name, data: seq<byte>, r: int)
    ensures MapAfterWrite(m - {name}, name, data, r) == MapAfterWrite(m, name, data, r)
  {
    assert (m - {name})[name := data] == m[name := data];
    assert m - {name} - {name} == m - {name};
  }

  // A write, whatever it returns, keeps the volume well formed.  When it returns 0 the
  // name maps to the data; when it fails the old file is gone; every other file is as it was.
  lemma WriteRefinesMap(v: Volume, chs: seq<seq<nat>>, name: Name, data: seq<byte>) returns (chs': seq<seq<nat>>)
    requires WellFormedWith(v, chs) && |data| < 0x1_0000_0000 && Fits(v, name, |data|)
    requires Rounds(|data|, v.clusterBytes) || name[0] == DELETED || Write(v, name, data).1 != 0
    ensures var (v', r) := Write(v, name, data);
      && WellFormedWith(v', chs')
      && Files(v') == MapAfterWrite(Files(v), name, data, r)
  {
    DeleteRefinesMap(v, chs, name);
    var v1 := Delete(v, name).0;
    CreateRefinesMap(v1, chs, name, data);
    chs' := ChainsAfterCreate(v1, chs, name, data);
    AfterDelete(Files(v), name, data, Write(v, name, data).1);
  }
  // ----- Exactly which table entries a write changes -----

  // `ch` is made of the `k` lowest free clusters of `before`, linked upwards in `after`,
  // which agrees with `before` everywhere else.
  ghost predicate LinksLowestFree(before: seq<u16>, after: seq<u16>, ch: seq<nat>, k: nat) {
    && |before| == |after| && SCAN_LIMIT <= |before| && |ch| == k > 0
    && (forall i :: 0 <= i < k ==> 2 <= ch[i] < 2048 && before[ch[i]] == 0)
    && (forall i, j :: 0 <= i < j < k ==> ch[i] < ch[j])
    && (forall i :: 0 <= i < k ==> after[ch[i]] == if i + 1 < k then ch[i + 1] else 0xFFFF)
    && (forall c: nat :: c < |before| && c !in ch ==> after[c] == before[c])
    && (forall c: nat, i :: 2 <= c < 2048 && before[c] == 0 && c !in ch && 0 <= i < k ==> ch[i] < c)
  }

  // A free cluster that is not among the first `k` of the scan lies above all of them.
  lemma PassedOverIsHigher(fat: seq<u16>, k: nat, c: nat, i: nat)
    requires SCAN_LIMIT <= |fat| && i < k <= |FreeFrom(fat, 2)|
    requires 2 <= c < SCAN_LIMIT && fat[c] == 0 && c !in FreeFrom(fat, 2)[..k]
    ensures FreeFrom(fat, 2)[i] < c
  {
    var free := FreeFrom(fat, 2);
    FreeFromMeaning(fat, 2);
    assert free == free[..k] + free[k..];
    var j :| 0 <= j < |free[k..]| && free[k..][j] == c;
  }

  lemma LinkTakesLowest(fat: seq<u16>, size: u32, clusterBytes: nat)
    requires SCAN_LIMIT <= |fat| && clusterBytes > 0
    requires ClustersNeeded(size, clusterBytes) <= |FreeFrom(fat, 2)|
    ensures var ch := Taken(fat, size, clusterBytes);
      LinksLowestFree(fat, Link(fat, ch), ch, ClustersNeeded(size, clusterBytes))
  {
    var ch := Taken(fat, size, clusterBytes);
    LinkMeaning(fat, ch);
    forall c: nat, i | 2 <= c < SCAN_LIMIT && fat[c] == 0 && c !in ch && 0 <= i < |ch| ensures ch[i] < c {
      PassedOverIsHigher(fat, |ch|, c, i);
    }
  }

  // A successful write takes exactly the k lowest clusters free once the old file is
  // gone, links them upwards, and changes no other table entry.
  lemma WriteTakesLowestFree(v: Volume, name: Name, data: seq<byte>)
    requires Shape(v) && |data| < 0x1_0000_0000 && Fits(v, name, |data|)
    requires Write(v, name, data).1 == 0
    ensures var before := Delete(v, name).0.fat;
      LinksLowestFree(before, Write(v, name, data).0.fat, Taken(before, |data|, v.clusterBytes),
                      ClustersNeeded(|data|, v.clusterBytes))
  {
    LinkTakesLowest(Delete(v, name).0.fat, |data|, v.clusterBytes);
  }

  ghost function FreeSet(fat: seq<u16>, lo: nat): set<nat>
    requires SCAN_LIMIT <= |fat|
  {
    set c: nat | lo <= c < 2048 && fat[c] == 0
  }

  lemma {:induction false} FreeFromCount(fat: seq<u16>, lo: nat)
    requires SCAN_LIMIT <= |fat|
    ensures |FreeFrom(fat, lo)| == |FreeSet(fat, lo)|
    decreases SCAN_LIMIT - lo
  {
    if lo >= SCAN_LIMIT {
      assert FreeSet(fat, lo) == {};
    } else {
      FreeFromCount(fat, lo + 1);
      if fat[lo] == 0 {
        assert FreeSet(fat, lo) == FreeSet(fat, lo + 1) + {lo};
      } else {
        assert FreeSet(fat, lo) == FreeSet(fat, lo + 1);
      }
    }
  }

  // A write succeeds exactly when enough clusters and one slot are free once the old
  // file of that name is gone.
  lemma WriteSucceedsIff(v: Volume, chs: seq<seq<nat>>, name: Name, data: seq<byte>)
    requires WellFormedWith(v, chs) && |data| < 0x1_0000_0000 && Fits(v, name, |data|)
    ensures Write(v, name, data).1 == 0 <==>
      && ClustersNeeded(|data|, v.clusterBytes) <= |FreeSet(Delete(v, name).0.fat, 2)|
      && (name in Files(v) || exists j :: 0 <= j < |v.dir| && v.dir[j][0] in {0, 0xE5})
    ensures Write(v, name, data).1 in {0, -1}
  {
    DeleteRefinesMap(v, chs, name);
    FindIsLookup(v, name);
    FindMeaning(v.dir, name, 0);
    var v1 := Delete(v, name).0;
    FreeFromCount(v1.fat, 2);
    FindFreeMeaning(v1.dir, 0);
    var i := Find(v.dir, name, 0);
    if i != -1 {
      assert !Live(v1.dir[i]);
    }
  }

  // Zeroing the linked clusters undoes the linking, which did change the table.
  lemma LinkThenZero(fat: seq<u16>, ch: seq<nat>)
    requires SCAN_LIMIT <= |fat| && Scanned(ch) && Increasing(ch) && ch != []
    requires forall i :: 0 <= i < |ch| ==> fat[ch[i]] == 0
    ensures Zeroed(Link(fat, ch), ch) == fat && Link(fat, ch) != fat
  {
    LinkMeaning(fat, ch);
    assert Link(fat, ch)[ch[|ch| - 1]] != fat[ch[|ch| - 1]];
  }

  // Writing a new name and deleting it again restores the table exactly -- unless the
  // name begins with the deleted mark, in which case the clusters stay taken.
  lemma WriteDeleteRestoresFat(v: Volume, chs: seq<seq<nat>>, name: Name, data: seq<byte>)
    requires WellFormedWith(v, chs) && |data| < 0x1_0000_0000 && Fits(v, name, |data|)
    requires Rounds(|data|, v.clusterBytes) && name !in Files(v) && Write(v, name, data).1 == 0
    ensures Delete(Write(v, name, data).0, name).0.fat == v.fat <==> name[0] != 0xE5
  {
    DeleteRefinesMap(v, chs, name);
    FindIsLookup(v, name);
    assert Delete(v, name).0 == v;
    var v', ch := Write(v, name, data).0, Taken(v.fat, |data|, v.clusterBytes);
    CreateRefinesMap(v, chs, name, data);
    var chs' := ChainsAfterCreate(v, chs, name, data);
    DeleteRefinesMap(v', chs', name);
    LinkThenZero(v.fat, ch);
    if name[0] != DELETED {
      var j := FindFree(v.dir, 0);
      FindFreeMeaning(v.dir, 0);
      assert v'.dir[j][..11][0] == name[0];
      FileAt(v', chs', j);
      assert chs'[j] == ch;
    }
  }

  lemma OversizedSlot(v: Volume, j: nat, s: Slot, ch: seq<nat>)
    requires Shape(v) && j < |v.dir| && SlotName(s)[0] != 0 && SlotName(s)[0] != DELETED
    requires IsChain(v.fat, |v.clusters|, SlotFirst(s), ch)
    requires |ch| == 1 && SlotSize(s) > v.clusterBytes
    ensures !WellFormed(WithSlot(v, j, s))
  {
    var v' := WithSlot(v, j, s);
    forall chs | WellFormedWith(v', chs) ensures false {
      assert SlotOk(v', j, chs[j]);
      ChainUnique(v'.fat, |v'.clusters|, SlotFirst(s), ch, chs[j]);
    }
  }

  lemma WrappedCreateBreaks(v: Volume, chs: seq<seq<nat>>, name: Name, data: seq<byte>)
    requires WellFormedWith(v, chs) && |data| < 0x1_0000_0000
    requires Below(Taken(v.fat, |data|, v.clusterBytes), |v.clusters|)
    requires name[0] != DELETED && Create(v, name, data).1 == 0 && !Rounds(|data|, v.clusterBytes)
    ensures !WellFormed(Create(v, name, data).0)
  {
    FindFreeMeaning(v.dir, 0);
    TakenIsChain(v, chs, data);
    ClustersNeededWraps(|data|, v.clusterBytes);
    StoredShape(v, data);
    var j, ch := FindFree(v.dir, 0), Taken(v.fat, |data|, v.clusterBytes);
    OversizedSlot(Stored(v, data), j, MakeSlot(name, ch[0], |data|), ch);
  }

  lemma WrappedWriteBreaks(v: Volume, chs: seq<seq<nat>>, name: Name, data: seq<byte>)
    requires WellFormedWith(v, chs) && |data| < 0x1_0000_0000 && Fits(v, name, |data|)
    requires name[0] != DELETED && Write(v, name, data).1 == 0 && !Rounds(|data|, v.clusterBytes)
    ensures !WellFormed(Write(v, name, data).0)
  {
    DeleteRefinesMap(v, chs, name);
    WrappedCreateBreaks(Delete(v, name).0, chs, name, data);
  }

  // The size computation wraps for sizes within one cluster of 2^32; the slot then
  // records more bytes than its one cluster holds, and the volume is no longer well formed.
  lemma WriteWellFormedIff(v: Volume, chs: seq<seq<nat>>, name: Name, data: seq<byte>)
    requires WellFormedWith(v, chs) && |data| < 0x1_0000_0000 && Fits(v, name, |data|)
    requires name[0] != DELETED && Write(v, name, data).1 == 0
    ensures WellFormed(Write(v, name, data).0) <==> |data| + v.clusterBytes - 1 < 0x1_0000_0000
  {
    if Rounds(|data|, v.clusterBytes) {
      var chs' := WriteRefinesMap(v, chs, name, data);
    } else {
      WrappedWriteBreaks(v, chs, name, data);
    }
  }
  // ----- Termination -----

  // On a well-formed volume the delete walk of every name stays in the table and every
  // read stops, whatever the buffer.
  lemma WellFormedIsSafe(v: Volume, name: seq<byte>, bufSize: nat)
    requires WellFormed(v)
    ensures DeleteInTable(v, name) && ReadTerminates(v, name, bufSize)
  {
    var chs :| WellFormedWith(v, chs);
    FindMeaning(v.dir, name, 0);
    var k := Find(v.dir, name, 0);
    if k != -1 {
      assert SlotOk(v, k, chs[k]);
      FreeWalkZeroesChain(v.fat, |v.clusters|, SlotFirst(v.dir[k]), chs[k]);
      ChainEnds(v, SlotFirst(v.dir[k]), chs[k]);
    }
  }
  // ----- Round trip -----

  // After a write returned 0, reading the name with any buffer gives the data cut to the
  // buffer -- unless the name begins with the deleted mark, which no scan ever matches.
  lemma WriteReadRoundTrip(v: Volume, chs: seq<seq<nat>>, name: Name, data: seq<byte>, bufSize: nat)
    requires WellFormedWith(v, chs) && |data| < 0x1_0000_0000 && Fits(v, name, |data|)
    requires Rounds(|data|, v.clusterBytes) && bufSize < 0x1_0000_0000
    requires Write(v, name, data).1 == 0
    ensures Shape(Write(v, name, data).0)
    ensures var n := Min(|data|, bufSize);
      name[0] != 0xE5 <==>
        Read(Write(v, name, data).0, name, bufSize) == (if n < 0x8000_0000 then n else n - 0x1_0000_0000, data[..n])
  {
    var chs' := WriteRefinesMap(v, chs, name, data);
    ReadMeansFile(Write(v, name, data).0, chs', name, bufSize);
    assert Files(Write(v, name, data).0) == MapAfterWrite(Files(v), name, data, 0);
  }
  // ----- Calls -----

  datatype Op = WriteOp(name: Name, data: seq<byte>) | DeleteOp(name: Name)

  // What the code relies on at each call: sizes whose rounding does not wrap, and
  // disk space behind the clusters it is about to take.
  ghost predicate Callable(v: Volume, op: Op)
    requires Shape(v)
  {
    match op
    case WriteOp(name, data) => Rounds(|data|, v.clusterBytes) && Fits(v, name, |data|)
    case DeleteOp(_) => true
  }

  ghost function Apply(v: Volume, op: Op): (Volume, int)
    requires Shape(v) && Callable(v, op)
  {
    match op
    case WriteOp(name, data) => Write(v, name, data)
    case DeleteOp(name) => Delete(v, name)
  }

  lemma StepRefinesMap(v: Volume, op: Op)
    requires WellFormed(v) && Callable(v, op)
    ensures var (v', r) := Apply(v, op);
      && WellFormed(v')
      && Files(v') == (match op case WriteOp(name, data) => MapAfterWrite(Files(v), name, data, r)
                                case DeleteOp(name) => Files(v) - {name})
  {
    var chs :| WellFormedWith(v, chs);
    match op
    case WriteOp(name, data) => var chs' := WriteRefinesMap(v, chs, name, data);
    case DeleteOp(name) => DeleteRefinesMap(v, chs, name);
  }

  // A write or delete of one name, successful or not, leaves every read of another name as it was.
  lemma OtherReadsUnchanged(v: Volume, op: Op, other: seq<byte>, bufSize: nat)
    requires WellFormed(v) && Callable(v, op) && other != op.name && bufSize < 0x1_0000_0000
    ensures Shape(Apply(v, op).0)
    ensures Read(Apply(v, op).0, other, bufSize) == Read(v, other, bufSize)
  {
    StepRefinesMap(v, op);
    var v' := Apply(v, op).0;
    var chs, chs' :| WellFormedWith(v, chs) && WellFormedWith(v', chs');
    ReadMeansFile(v, chs, other, bufSize);
    ReadMeansFile(v', chs', other, bufSize);
  }
  // ----- Runs -----

  // `vs[0], ..., vs[n]` are the volumes of a run and `rs` the values its calls returned.
  ghost predicate IsRun(vs: seq<Volume>, ops: seq<Op>, rs: seq<int>) {
    && |vs| == |ops| + 1 && |rs| == |ops|
    && forall i :: 0 <= i < |ops| ==>
         Shape(vs[i]) && Callable(vs[i], ops[i]) && Apply(vs[i], ops[i]) == (vs[i + 1], rs[i])
  }

  // The same run on a plain map.
  function MapRun(m: map<seq<byte>, seq<byte>>, ops: seq<Op>, rs: seq<int>): map<seq<byte>, seq<byte>>
    requires |ops| == |rs|
  {
    if ops == [] then m
    else
      var n := |ops| - 1;
      var m' := MapRun(m, ops[..n], rs[..n]);
      match ops[n]
      case WriteOp(name, data) => MapAfterWrite(m', name, data, rs[n])
      case DeleteOp(name) => m' - {name}
  }

  // Every run of writes and deletes, whatever each call returns, keeps the volume well
  // formed at every point and changes its files exactly as the map run does.
  lemma {:induction false} RunRefinesMap(vs: seq<Volume>, ops: seq<Op>, rs: seq<int>, i: nat)
    requires IsRun(vs, ops, rs) && WellFormed(vs[0]) && i <= |ops|
    ensures WellFormed(vs[i])
    ensures Files(vs[i]) == MapRun(Files(vs[0]), ops[..i], rs[..i])
    decreases i
  {
    if i == 0 {
    } else {
      RunRefinesMap(vs, ops, rs, i - 1);
      assert Apply(vs[i - 1], ops[i - 1]) == (vs[i - 1 + 1], rs[i - 1]);
      StepRefinesMap(vs[i - 1], ops[i - 1]);
      assert ops[..i][..i - 1] == ops[..i - 1] && rs[..i][..i - 1] == rs[..i - 1];
    }
  }

  // A name no call of the run mentions reads the same after it as before.
  lemma {:induction false} RunIsolates(m: map<seq<byte>, seq<byte>>, ops: seq<Op>, rs: seq<int>, other: seq<byte>)
    requires |ops| == |rs| && forall i :: 0 <= i < |ops| ==> ops[i].name != other
    ensures other in MapRun(m, ops, rs) <==> other in m
    ensures other in m ==> MapRun(m, ops, rs)[other] == m[other]
  {
    if ops == [] {
    } else {
      var n := |ops| - 1;
      RunIsolates(m, ops[..n], rs[..n], other);
    }
  }

  // A volume with an empty directory holds no files and is well formed, whatever its table says.
  lemma FormattedIsEmpty(v: Volume)
    requires Shape(v) && forall i :: 0 <= i < |v.dir| ==> v.dir[i][0] == 0
    ensures WellFormed(v) && Files(v) == map[]
  {
    assert WellFormedWith(v, seq(|v.dir|, _ => []));
    assert Names(v.dir) == {};
  }
}
