/** Which writes stay on the disk.  The allocator scans clusters 2 to 2047 whatever the
    disk holds; these lemmas say exactly when that is harmless, and that on the image the
    build script formats it is not. */
module FatCapacity {
  import opened Bytes
  import opened FatVolume
  import opened FatDelete
  import opened FatWrite
  import opened FatRead
  import opened FatLayout
  import opened FatTheorems

  // Every cluster number of the scan range without sectors behind it is marked as taken.
  ghost predicate Backed(v: Volume)
    requires Shape(v)
  {
    forall c :: |v.clusters| <= c < SCAN_LIMIT ==> v.fat[c] != 0
  }
  // ----- Exactly when every write fits -----

  // A delete frees only clusters on the disk.
  lemma DeleteFreesOnDisk(v: Volume, name: Name, c: nat)
    requires WellFormed(v) && |v.clusters| <= c < |v.fat|
    ensures Delete(v, name).0.fat[c] == v.fat[c]
  {
    var chs :| WellFormedWith(v, chs);
    FindMeaning(v.dir, name, 0);
    DeleteRefinesMap(v, chs, name);
    var i := Find(v.dir, name, 0);
    if i != -1 {
      assert SlotOk(v, i, chs[i]);
      ChainInRange(v.fat, |v.clusters|, SlotFirst(v.dir[i]), chs[i]);
    }
  }

  lemma {:induction false} FewFree(fat: seq<u16>, lo: nat)
    requires SCAN_LIMIT <= |fat| && lo <= SCAN_LIMIT
    ensures |FreeFrom(fat, lo)| <= SCAN_LIMIT - lo
    decreases SCAN_LIMIT - lo
  {
    if lo == SCAN_LIMIT {
    } else {
      FewFree(fat, lo + 1);
    }
  }

  lemma LargestSize(clusterBytes: nat)
    requires 0 < clusterBytes <= 255 * 512
    ensures Rounds((SCAN_LIMIT - 2) * clusterBytes, clusterBytes)
    ensures ClustersNeeded((SCAN_LIMIT - 2) * clusterBytes, clusterBytes) >= SCAN_LIMIT - 2
  {
    var size := (SCAN_LIMIT - 2) * clusterBytes;
    var k := ClustersNeeded(size, clusterBytes);
    ClustersNeededCeil(size, clusterBytes);
    if k < SCAN_LIMIT - 2 { MulStep(k, SCAN_LIMIT - 2, clusterBytes); }
  }

  // A file of as many clusters as the scan can ever return takes all that are free.
  lemma LargestWrite(fat: seq<u16>, clusterBytes: nat)
    requires SCAN_LIMIT <= |fat| && 0 < clusterBytes <= 255 * 512
    ensures 0 <= (SCAN_LIMIT - 2) * clusterBytes < 0x1_0000_0000
    ensures Taken(fat, (SCAN_LIMIT - 2) * clusterBytes, clusterBytes) == FreeFrom(fat, 2)
  {
    LargestSize(clusterBytes);
    FewFree(fat, 2);
  }

  // Writes of every size fit, under any one name, exactly when the volume is backed.
  lemma EveryWriteFitsIff(v: Volume, name: Name)
    requires WellFormed(v)
    ensures (forall size: u32 :: Fits(v, name, size)) <==> Backed(v)
  {
    var fat := Delete(v, name).0.fat;
    FreeFromMeaning(fat, 2);
    if Backed(v) {
      forall c: nat | |v.clusters| <= c < SCAN_LIMIT ensures fat[c] != 0 { DeleteFreesOnDisk(v, name, c); }
    } else {
      var c: nat :| |v.clusters| <= c < SCAN_LIMIT && v.fat[c] == 0;
      DeleteFreesOnDisk(v, name, c);
      LargestWrite(fat, v.clusterBytes);
      assert c in FreeFrom(fat, 2);
      assert !Fits(v, name, (SCAN_LIMIT - 2) * v.clusterBytes);
    }
  }

  // Writes and deletes keep a volume backed, whatever they return.
  lemma StepKeepsBacked(v: Volume, op: Op)
    requires WellFormed(v) && Callable(v, op) && Backed(v)
    ensures WellFormed(Apply(v, op).0) && Backed(Apply(v, op).0)
    ensures Apply(v, op).0.clusterBytes == v.clusterBytes
  {
    StepRefinesMap(v, op);
    var v1 := Delete(v, op.name).0;
    forall c: nat | |v.clusters| <= c < SCAN_LIMIT ensures v1.fat[c] != 0 { DeleteFreesOnDisk(v, op.name, c); }
    match op
    case WriteOp(name, data) => LinkZeros(v1.fat, Taken(v1.fat, |data|, v.clusterBytes));
    case DeleteOp(_) =>
  }

  ghost predicate SizesRound(ops: seq<Op>, clusterBytes: nat) {
    forall i :: 0 <= i < |ops| && ops[i].WriteOp? ==> Rounds(|ops[i].data|, clusterBytes)
  }

  lemma ExtendRun(vs: seq<Volume>, ops: seq<Op>, rs: seq<int>, op: Op) returns (vs': seq<Volume>, rs': seq<int>)
    requires IsRun(vs, ops, rs) && Shape(vs[|ops|]) && Callable(vs[|ops|], op)
    ensures vs' == vs + [Apply(vs[|ops|], op).0] && rs' == rs + [Apply(vs[|ops|], op).1]
    ensures IsRun(vs', ops + [op], rs')
  {
    vs', rs' := vs + [Apply(vs[|ops|], op).0], rs + [Apply(vs[|ops|], op).1];
    var ops' := ops + [op];
    forall i | 0 <= i < |ops'|
      ensures Shape(vs'[i]) && Callable(vs'[i], ops'[i]) && Apply(vs'[i], ops'[i]) == (vs'[i + 1], rs'[i])
    {
      if i < |ops| { assert vs'[i] == vs[i] && ops'[i] == ops[i]; }
    }
  }

  // On a backed volume every sequence of writes and deletes is a run, with no condition
  // on the disk left: it can be carried out to its end, and RunRefinesMap says what the
  // files are at every point.
  lemma {:induction false} EverySequenceRuns(v: Volume, ops: seq<Op>) returns (vs: seq<Volume>, rs: seq<int>)
    requires WellFormed(v) && Backed(v) && SizesRound(ops, v.clusterBytes)
    ensures IsRun(vs, ops, rs) && vs[0] == v
    ensures WellFormed(vs[|ops|]) && Backed(vs[|ops|]) && vs[|ops|].clusterBytes == v.clusterBytes
    ensures Files(vs[|ops|]) == MapRun(Files(v), ops, rs)
  {
    if ops == [] {
      vs, rs := [v], [];
    } else {
      var n := |ops| - 1;
      vs, rs := EverySequenceRuns(v, ops[..n]);
      var last, op := vs[n], ops[n];
      EveryWriteFitsIff(last, op.name);
      assert Callable(last, op);
      StepKeepsBacked(last, op);
      vs, rs := ExtendRun(vs, ops[..n], rs, op);
      assert ops[..n] + [op] == ops;
      RunRefinesMap(vs, ops, rs, |ops|);
      assert ops[..|ops|] == ops && rs[..|ops|] == rs;
    }
  }
  // ----- Freshly formatted volumes -----

  ghost predicate AllFree(v: Volume)
    requires Shape(v)
  {
    forall c :: 2 <= c < |v.fat| ==> v.fat[c] == 0
  }

  // The table is all free and the directory empty.
  ghost predicate Fresh(v: Volume) {
    && Shape(v) && AllFree(v) && v.dir != []
    && forall i :: 0 <= i < |v.dir| ==> v.dir[i][0] == 0
  }

  // A disk whose table is all free is backed exactly when it has this many data sectors.
  lemma FreshDiskBackedIff(g: Geometry, ss: seq<Sector>, v: Volume)
    requires Represents(g, ss, v) && Shape(v) && AllFree(v)
    ensures Backed(v) <==> g.DataStart() + (SCAN_LIMIT - 2) * g.sectorsPerCluster <= |ss|
  {
    ScanStaysOnDiskIff(g, |ss|);
    if |v.clusters| < SCAN_LIMIT { assert v.fat[|v.clusters|] == 0; }
  }

  // The scan of an all-free table yields the cluster numbers in order.
  lemma {:induction false} ScanOfFree(fat: seq<u16>, lo: nat)
    requires SCAN_LIMIT <= |fat| && lo <= SCAN_LIMIT && forall c :: lo <= c < SCAN_LIMIT ==> fat[c] == 0
    ensures |FreeFrom(fat, lo)| == SCAN_LIMIT - lo
    ensures forall i :: 0 <= i < SCAN_LIMIT - lo ==> FreeFrom(fat, lo)[i] == lo + i
    decreases SCAN_LIMIT - lo
  {
    if lo == SCAN_LIMIT {
    } else {
      ScanOfFree(fat, lo + 1);
      forall i | 0 <= i < SCAN_LIMIT - lo ensures FreeFrom(fat, lo)[i] == lo + i {
        if i > 0 { assert FreeFrom(fat, lo)[i] == FreeFrom(fat, lo + 1)[i - 1]; }
      }
    }
  }

  lemma FreshDelete(v: Volume, name: Name)
    requires Fresh(v)
    ensures Delete(v, name).0 == v
  {
    assert Find(v.dir, name, 0) == -1;
  }

  // On a freshly formatted volume a write fits exactly when it needs no more clusters
  // than the disk has, and then it succeeds, whatever the name.
  lemma FreshWrite(v: Volume, name: Name, data: seq<byte>)
    requires Fresh(v) && |data| < 0x1_0000_0000
    ensures Fits(v, name, |data|) <==> Min(ClustersNeeded(|data|, v.clusterBytes), SCAN_LIMIT - 2) <= |v.clusters| - 2
    ensures Fits(v, name, |data|) ==>
      (Write(v, name, data).1 == 0 <==> ClustersNeeded(|data|, v.clusterBytes) <= SCAN_LIMIT - 2)
  {
    FreshDelete(v, name);
    ScanOfFree(v.fat, 2);
    var ch := Taken(v.fat, |data|, v.clusterBytes);
    assert forall i :: 0 <= i < |ch| ==> ch[i] == i + 2;
    if Fits(v, name, |data|) { assert ch[|ch| - 1] < |v.clusters|; }
  }

  lemma FreshWriteIsFile(v: Volume, name: Name, data: seq<byte>)
    requires Fresh(v) && |data| < 0x1_0000_0000 && Rounds(|data|, v.clusterBytes)
    requires Fits(v, name, |data|) && Write(v, name, data).1 == 0
    ensures var v' := Write(v, name, data).0;
      WellFormed(v') && v'.clusterBytes == v.clusterBytes && |v'.clusters| == |v.clusters|
      && Files(v').Keys <= {name}
  {
    FormattedIsEmpty(v);
    var chs :| WellFormedWith(v, chs);
    var chs' := WriteRefinesMap(v, chs, name, data);
  }

  // When the scan yields a cluster past the end first, no write of a new name fits.
  lemma FirstFreePastEnd(v: Volume, other: Name, size: u32)
    requires WellFormed(v) && other !in Files(v)
    requires FreeFrom(v.fat, 2) != [] && FreeFrom(v.fat, 2)[0] >= |v.clusters|
    ensures !Fits(v, other, size)
  {
    FindIsLookup(v, other);
    assert Delete(v, other).0 == v;
    assert Taken(v.fat, size, v.clusterBytes)[0] == FreeFrom(v.fat, 2)[0];
  }

  lemma ScanLeft(fat: seq<u16>, k: nat)
    requires SCAN_LIMIT <= |fat| && k < |FreeFrom(fat, 2)| && Scanned(FreeFrom(fat, 2)[..k])
    ensures FreeFrom(Link(fat, FreeFrom(fat, 2)[..k]), 2) != []
    ensures FreeFrom(Link(fat, FreeFrom(fat, 2)[..k]), 2)[0] == FreeFrom(fat, 2)[k]
  {
    FreeFromMeaning(fat, 2);
    LinkLeavesRest(fat, FreeFrom(fat, 2), k);
  }

  lemma WrittenFat(v: Volume, name: Name, data: seq<byte>)
    requires Shape(v) && |data| < 0x1_0000_0000 && Fits(v, name, |data|) && Write(v, name, data).1 == 0
    ensures var fat := Delete(v, name).0.fat; var k := ClustersNeeded(|data|, v.clusterBytes);
      k <= |FreeFrom(fat, 2)| && Taken(fat, |data|, v.clusterBytes) == FreeFrom(fat, 2)[..k]
      && Write(v, name, data).0.fat == Link(fat, Taken(fat, |data|, v.clusterBytes))
  {
  }

  lemma ScanAfterWrite(v: Volume, name: Name, data: seq<byte>)
    requires Fresh(v) && |data| < 0x1_0000_0000 && Fits(v, name, |data|) && Write(v, name, data).1 == 0
    requires ClustersNeeded(|data|, v.clusterBytes) < SCAN_LIMIT - 2
    ensures var free := FreeFrom(Write(v, name, data).0.fat, 2);
      free != [] && free[0] == ClustersNeeded(|data|, v.clusterBytes) + 2
  {
    var k := ClustersNeeded(|data|, v.clusterBytes);
    FreshDelete(v, name);
    WrittenFat(v, name, data);
    ScanOfFree(v.fat, 2);
    ScanLeft(v.fat, k);
  }

  // A freshly formatted volume whose disk ends inside the scan range: once a file fills
  // the disk, the scan yields the first cluster past its end, and no write of another
  // name fits any more.
  lemma FullDiskOverruns(v: Volume, name: Name, data: seq<byte>, other: Name, size: u32)
    requires Fresh(v) && |v.clusters| < SCAN_LIMIT && |data| < 0x1_0000_0000 && other != name
    requires Rounds(|data|, v.clusterBytes) && ClustersNeeded(|data|, v.clusterBytes) == |v.clusters| - 2
    ensures Fits(v, name, |data|)
    ensures var (v', r) := Write(v, name, data);
      && r == 0 && WellFormed(v') && |v'.clusters| == |v.clusters|
      && FreeFrom(v'.fat, 2) != [] && FreeFrom(v'.fat, 2)[0] == |v.clusters|
      && !Fits(v', other, size)
  {
    FreshWrite(v, name, data);
    FreshWriteIsFile(v, name, data);
    ScanAfterWrite(v, name, data);
    FirstFreePastEnd(Write(v, name, data).0, other, size);
  }
  // ----- The image the build script formats -----

  // The boot sector's first bytes: 512-byte sectors, one a cluster, one reserved, two
  // tables of eight, 512 root entries, 2048 sectors in all.
  const BOOT: seq<byte> := [
    0xEB, 0x3C, 0x90, 0x42, 0x48, 0x4F, 0x4C, 0x45, 0x31, 0x36, 0x20,
    0x00, 0x02, 1, 1, 0, 2, 0x00, 0x02, 0x00, 0x08, 0xF8, 8, 0, 32, 0, 2]

  function ImageByte(lba: nat, i: nat): byte {
    if lba == 0 then (if i < |BOOT| then BOOT[i] else if i == 510 then 0x55 else if i == 511 then 0xAA else 0)
    else if lba == 1 || lba == 9 then (if i == 0 then 0xF8 else if i < 4 then 0xFF else 0)
    else 0
  }

  // `ss` is the image, byte for byte.
  ghost predicate IsImage(ss: seq<Sector>) {
    |ss| == SHIPPED_SECTORS &&
    forall lba, i {:trigger ss[lba][i]} :: 0 <= lba < SHIPPED_SECTORS && 0 <= i < 512 ==> ss[lba][i] == ImageByte(lba, i)
  }

  function ImageVolume(): Volume {
    Volume(512, [0xFFF8, 0xFFFF] + seq(2046, _ => 0), seq(512, _ => seq(32, _ => 0)),
           [[], []] + seq(1999, _ => seq(512, _ => 0)))
  }

  lemma ImageIsFresh()
    ensures var v := ImageVolume();
      Fresh(v) && v.clusterBytes == 512 && |v.clusters| == 2001 && |v.dir| == 512 && |v.fat| == 2048
  {
  }

  lemma ImageTable(ss: seq<Sector>, f: nat, k: nat, e: nat)
    requires IsImage(ss) && f < 2 && k < 8 && e < 256
    ensures Entry(SectorAt(ss, 1 + 8 * f + k), e) ==
      if k == 0 && e == 0 then 0xFFF8 else if k == 0 && e == 1 then 0xFFFF else 0
  {
    var s := ss[1 + 8 * f + k];
    assert s[2 * e] == ImageByte(1 + 8 * f + k, 2 * e) && s[2 * e + 1] == ImageByte(1 + 8 * f + k, 2 * e + 1);
  }

  lemma ImageFat(ss: seq<Sector>, f: nat)
    requires IsImage(ss) && f < 2
    ensures CopyRep(SHIPPED, ss, f, ImageVolume().fat)
  {
    var fat := ImageVolume().fat;
    forall c | 0 <= c < 2048 ensures Cell(SHIPPED, ss, f, c) == fat[c] {
      assert FatLba(SHIPPED, f, c / 256) == 1 + 8 * f + c / 256;
      ImageTable(ss, f, c / 256, c % 256);
    }
  }

  lemma ImageDir(ss: seq<Sector>)
    requires IsImage(ss)
    ensures DirRep(SHIPPED, ss, ImageVolume().dir)
  {
    forall i | 0 <= i < 512 ensures DirCell(SHIPPED, ss, i) == ImageVolume().dir[i] {
      var s := ss[17 + i / 16];
      assert forall b :: 0 <= b < 512 ==> s[b] == ImageByte(17 + i / 16, b);
    }
  }

  lemma ImageCluster(ss: seq<Sector>, c: nat)
    requires IsImage(ss) && 2 <= c < 2001
    ensures ClusterRep(SHIPPED, ss, c, seq(512, _ => 0))
  {
    var s := ss[47 + c];
    assert forall b :: 0 <= b < 512 ==> s[b] == ImageByte(47 + c, b);
    assert s == Piece(seq(512, _ => 0), 0);
  }

  lemma ImageData(ss: seq<Sector>)
    requires IsImage(ss)
    ensures DataRep(SHIPPED, ss, ImageVolume().clusters)
  {
    var clusters := ImageVolume().clusters;
    forall c | 2 <= c < |clusters| ensures ClusterRep(SHIPPED, ss, c, clusters[c]) {
      ImageCluster(ss, c);
      assert clusters[c] == seq(512, _ => 0);
    }
  }

  lemma ImageExists()
    ensures exists ss :: IsImage(ss)
  {
    var ss: seq<Sector> := seq(SHIPPED_SECTORS, lba requires 0 <= lba < SHIPPED_SECTORS =>
      seq(512, i requires 0 <= i < 512 => ImageByte(lba, i)));
    assert IsImage(ss);
  }

  // What the build script writes is an empty volume.
  lemma ImageHoldsVolume(ss: seq<Sector>)
    requires IsImage(ss)
    ensures Represents(SHIPPED, ss, ImageVolume())
  {
    ShippedImageIsShort();
    ImageIsFresh();
    forall f | 0 <= f < 2 ensures CopyRep(SHIPPED, ss, f, ImageVolume().fat) { ImageFat(ss, f); }
    ImageDir(ss);
    ImageData(ss);
  }

  lemma ImageBoots(ss: seq<Sector>)
    requires IsImage(ss)
    ensures Le16(ss[0][11], ss[0][12]) == 512 && BootGeometry(ss[0]) == SHIPPED
  {
    assert forall i :: 11 <= i < 24 ==> ss[0][i] == BOOT[i];
  }

  // On that image a file of 1999 clusters can be written under any name; then the scan
  // yields cluster 2001, one past the end.
  lemma ImageOverruns(name: Name, data: seq<byte>, other: Name, size: u32)
    requires |data| == 1999 * 512 && other != name
    ensures var v := ImageVolume();
      && WellFormed(v) && !Backed(v) && Fits(v, name, |data|)
      && var (v', r) := Write(v, name, data);
         && r == 0 && WellFormed(v')
         && FreeFrom(v'.fat, 2) != [] && FreeFrom(v'.fat, 2)[0] == 2001 == |v'.clusters|
         && !Fits(v', other, size)
  {
    var v := ImageVolume();
    ImageIsFresh();
    FormattedIsEmpty(v);
    assert v.fat[2001] == 0;
    assert ClustersNeeded(|data|, 512) == 1999;
    FullDiskOverruns(v, name, data, other, size);
  }
  // ----- Calls that return 0 and yet lose the file -----

  // A name that begins with the deleted mark: the write succeeds, no read finds the file,
  // and a delete does not give the clusters back.
  lemma MarkedNameIsLost(v: Volume, name: Name, data: seq<byte>, bufSize: nat)
    requires Fresh(v) && |data| < 0x1_0000_0000 && bufSize < 0x1_0000_0000 && name[0] == DELETED
    requires Rounds(|data|, v.clusterBytes)
    requires ClustersNeeded(|data|, v.clusterBytes) <= Min(|v.clusters|, SCAN_LIMIT) - 2
    ensures Fits(v, name, |data|)
    ensures var (v', r) := Write(v, name, data);
      && r == 0 && Shape(v') && Read(v', name, bufSize) == (-1, [])
      && Delete(v', name).0.fat != v.fat
  {
    FreshWrite(v, name, data);
    FormattedIsEmpty(v);
    var chs :| WellFormedWith(v, chs);
    var chs' := WriteRefinesMap(v, chs, name, data);
    ReadMeansFile(Write(v, name, data).0, chs', name, bufSize);
    WriteDeleteRestoresFat(v, chs, name, data);
  }

  // A size that wraps: the write succeeds with one cluster and the volume is broken.
  lemma WrappedSizeIsLost(v: Volume, name: Name, data: seq<byte>)
    requires Fresh(v) && |data| < 0x1_0000_0000 && name[0] != DELETED && |v.clusters| > 2
    requires !Rounds(|data|, v.clusterBytes)
    ensures Fits(v, name, |data|)
    ensures Write(v, name, data).1 == 0 && !WellFormed(Write(v, name, data).0)
  {
    ClustersNeededWraps(|data|, v.clusterBytes);
    FreshWrite(v, name, data);
    FormattedIsEmpty(v);
    var chs :| WellFormedWith(v, chs);
    WriteWellFormedIff(v, chs, name, data);
  }

  // Both happen on the image the build script formats.
  lemma ImageLosesFiles(bufSize: nat)
    requires bufSize < 0x1_0000_0000
    ensures var v, marked: Name, one := ImageVolume(), [0xE5] + seq(10, _ => 0x20), [1];
      && Fits(v, marked, 1) && Write(v, marked, one).1 == 0
      && Shape(Write(v, marked, one).0) && Read(Write(v, marked, one).0, marked, bufSize) == (-1, [])
    ensures var v, plain: Name, huge := ImageVolume(), seq(11, _ => 0x41), seq(0xFFFF_FFFF, _ => 0);
      Fits(v, plain, 0xFFFF_FFFF) && Write(v, plain, huge).1 == 0 && !WellFormed(Write(v, plain, huge).0)
  {
    ImageIsFresh();
    MarkedNameIsLost(ImageVolume(), [0xE5] + seq(10, _ => 0x20), [1], bufSize);
    WrappedSizeIsLost(ImageVolume(), seq(11, _ => 0x41), seq(0xFFFF_FFFF, _ => 0));
  }
}
