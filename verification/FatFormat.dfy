/** The bytes behind a volume, in numbers: where on the disk each one lies, and what the
    driver stores in and reads from a directory slot. */
module FatFormat {
  import opened Bytes
  import opened FatVolume
  import opened FatDelete
  import opened FatWrite
  import opened FatRead
  import opened FatLayout
  import opened FatTheorems
  // ----- Where the bytes of a volume lie -----

  // Entry `c` of the table, in each copy `f`: two bytes, the low one first.
  lemma TableOnDisk(g: Geometry, ss: seq<Sector>, v: Volume, f: nat, c: nat)
    requires Represents(g, ss, v) && f < g.numFats && c < |v.fat|
    ensures |v.fat| == 256 * g.fatSize
    ensures var lba := g.fatStart + f * g.fatSize + c / 256;
      lba < |ss| && v.fat[c] == ss[lba][2 * (c % 256)] as int + 256 * (ss[lba][2 * (c % 256) + 1] as int)
  {
    FatLbaRange(g, f, c / 256);
    assert CopyRep(g, ss, f, v.fat);
    assert Cell(g, ss, f, c) == v.fat[c];
  }

  // Byte `b` of directory slot `i`: sixteen 32-byte slots a sector, after the tables.
  lemma SlotOnDisk(g: Geometry, ss: seq<Sector>, v: Volume, i: nat, b: nat)
    requires Represents(g, ss, v) && i < |v.dir| && b < 32
    ensures |v.dir| == 16 * g.rootSectors
    ensures var lba := g.fatStart + g.numFats * g.fatSize + i / 16;
      0 <= lba < |ss| && v.dir[i][b] == ss[lba][32 * (i % 16) + b]
  {
    MulNonNegative(g.numFats, g.fatSize);
    assert DirCell(g, ss, i) == v.dir[i];
    assert DirCell(g, ss, i)[b] == SectorAt(ss, g.RootStart() + i / 16)[32 * (i % 16) + b];
  }

  // Byte `b` of cluster `c`: cluster 2 comes first after the directory.
  lemma DataOnDisk(g: Geometry, ss: seq<Sector>, v: Volume, c: nat, b: nat)
    requires Represents(g, ss, v) && 2 <= c < |v.clusters| && b < |v.clusters[c]|
    ensures |v.clusters[c]| == v.clusterBytes == 512 * g.sectorsPerCluster
    ensures var lba := g.fatStart + g.numFats * g.fatSize + g.rootSectors + (c - 2) * g.sectorsPerCluster + b / 512;
      0 <= lba < |ss| && v.clusters[c][b] == ss[lba][b % 512]
  {
    assert ClusterRep(g, ss, c, v.clusters[c]);
    DataLbaRange(g, |ss|, c, b / 512);
    assert SectorAt(ss, DataLba(g, c, b / 512)) == Piece(v.clusters[c], b / 512);
    ByteOfPiece(v.clusters[c], b / 512, b % 512);
  }

  // The clusters a volume on the disk has: those with a table entry, a 16-bit number below
  // 0xFFF8 and all their sectors on the disk.
  lemma ClustersOnDisk(g: Geometry, ss: seq<Sector>, v: Volume, c: nat)
    requires Represents(g, ss, v) && c >= 2
    ensures c < |v.clusters| <==>
      && c < 256 * g.fatSize && c < 0xFFF8
      && g.fatStart + g.numFats * g.fatSize + g.rootSectors + (c - 1) * g.sectorsPerCluster <= |ss|
  {
    ClustersFitIff(|ss| - g.DataStart(), g.sectorsPerCluster, c - 1);
  }
  // ----- What a slot says -----

  // Which entry of a table chain follows which, and where the chain stops.
  ghost predicate Follows(fat: seq<u16>, ch: seq<nat>, first: int) {
    && (forall i :: 0 <= i < |ch| ==> 2 <= ch[i] < 0xFFF8 && ch[i] < |fat|)
    && first == (if ch == [] then first else ch[0])
    && (forall i :: 0 <= i < |ch| - 1 ==> fat[ch[i]] == ch[i + 1])
    && (if ch == [] then first < 2 || first >= 0xFFF8 else fat[ch[|ch| - 1]] < 2 || fat[ch[|ch| - 1]] >= 0xFFF8)
  }

  lemma {:induction false} ChainFollows(fat: seq<u16>, limit: nat, c: u16, ch: seq<nat>)
    requires limit <= |fat| && IsChain(fat, limit, c, ch)
    ensures Follows(fat, ch, c)
    decreases |ch|
  {
    if ch == [] {
    } else {
      ChainFollows(fat, limit, fat[c], ch[1..]);
      assert ch == [c] + ch[1..];
    }
  }

  // Which of `n + 1` pieces position `k` is in.
  lemma QuotientIn(k: nat, n: nat, size: nat)
    requires size > 0 && k < (n + 1) * size
    ensures 0 <= n * size && (n + 1) * size == n * size + size
    ensures if k < n * size then k / size < n else k / size == n && k % size == k - n * size
  {
    var q, r := k / size, k % size;
    assert k == q * size + r;
    if q < n { MulStep(q, n, size); }
    if q > n { MulStep(n, q, size); }
  }

  lemma {:induction false} FlatByte(clusters: seq<seq<byte>>, ch: seq<nat>, size: nat, k: nat)
    requires Below(ch, |clusters|) && size > 0 && forall i :: 0 <= i < |ch| ==> |clusters[ch[i]]| == size
    requires k < |ch| * size
    ensures |Flat(clusters, ch)| == |ch| * size
    ensures 0 <= k / size < |ch| && Flat(clusters, ch)[k] == clusters[ch[k / size]][k % size]
  {
    FlatLength(clusters, ch, size);
    var n := |ch| - 1;
    FlatLength(clusters, ch[..n], size);
    QuotientIn(k, n, size);
    if k < n * size {
      FlatByte(clusters, ch[..n], size, k);
    }
  }

  // The length and the first cluster that a slot's bytes spell, and its chain.
  lemma FileOfSlot(v: Volume, chs: seq<seq<nat>>, i: nat)
    requires WellFormedWith(v, chs) && i < |v.dir| && v.dir[i][0] != 0 && v.dir[i][0] != 0xE5
    ensures var s := v.dir[i];
      && s[..11] in Files(v)
      && |Files(v)[s[..11]]| ==
           s[28] as int + 0x100 * (s[29] as int) + 0x1_0000 * (s[30] as int) + 0x100_0000 * (s[31] as int)
      && Follows(v.fat, chs[i], s[26] as int + 0x100 * (s[27] as int))
  {
    FileAt(v, chs, i);
    assert SlotOk(v, i, chs[i]);
    ChainFollows(v.fat, |v.clusters|, SlotFirst(v.dir[i]), chs[i]);
  }

  // Byte `k` of that file lies in the chain's cluster number `k / clusterBytes`.
  lemma FileByte(v: Volume, chs: seq<seq<nat>>, i: nat, k: nat)
    requires WellFormedWith(v, chs) && i < |v.dir| && v.dir[i][0] != 0 && v.dir[i][0] != 0xE5
    requires v.dir[i][..11] in Files(v) && k < |Files(v)[v.dir[i][..11]]|
    ensures 0 <= k / v.clusterBytes < |chs[i]| && chs[i][k / v.clusterBytes] < |v.clusters|
    ensures |v.clusters[chs[i][k / v.clusterBytes]]| == v.clusterBytes
    ensures Files(v)[v.dir[i][..11]][k] == v.clusters[chs[i][k / v.clusterBytes]][k % v.clusterBytes]
  {
    FileAt(v, chs, i);
    assert SlotOk(v, i, chs[i]);
    ChainInRange(v.fat, |v.clusters|, SlotFirst(v.dir[i]), chs[i]);
    FlatByte(v.clusters, chs[i], v.clusterBytes, k);
  }
  // ----- Scanning -----

  // The scan for a name on any directory: the first slot of that name which is neither
  // deleted nor after the end.
  lemma {:induction false} FindScans(dir: seq<Slot>, name: seq<byte>, from: nat)
    requires from <= |dir|
    ensures var k := Find(dir, name, from);
      && -1 <= k < |dir|
      && (forall j :: from <= j < (if k == -1 then |dir| else k) && dir[j][0] != 0xE5 && dir[j][..11] == name ==>
            exists e :: from <= e <= j && dir[e][0] == 0)
      && (k != -1 ==> from <= k && dir[k][0] != 0xE5 && dir[k][..11] == name)
      && (k != -1 ==> forall e :: from <= e <= k ==> dir[e][0] != 0)
    decreases |dir| - from
  {
    if from == |dir| || dir[from][0] == 0 || (dir[from][0] != 0xE5 && dir[from][..11] == name) {
    } else {
      FindScans(dir, name, from + 1);
    }
  }

  // A slot can be used when its first byte is 0x00 or 0xE5.
  lemma {:induction false} FindFreeScans(dir: seq<Slot>, from: nat)
    requires from <= |dir|
    ensures var k := FindFree(dir, from);
      && -1 <= k < |dir|
      && (forall j :: from <= j < (if k == -1 then |dir| else k) ==> dir[j][0] != 0 && dir[j][0] != 0xE5)
      && (k != -1 ==> from <= k && (dir[k][0] == 0 || dir[k][0] == 0xE5))
    decreases |dir| - from
  {
    if from == |dir| || dir[from][0] == 0 || dir[from][0] == 0xE5 {
    } else {
      FindFreeScans(dir, from + 1);
    }
  }
  // ----- What the calls store -----

  // A delete overwrites the first byte of the slot it finds with 0xE5 and changes no
  // other byte of the directory, and none of the data.
  lemma DeletedSlot(v: Volume, name: Name)
    ensures var ((v', r), k) := (Delete(v, name), Find(v.dir, name, 0));
      && v'.clusters == v.clusters && v'.clusterBytes == v.clusterBytes
      && (k == -1 ==> r == -1 && v' == v)
      && (k != -1 ==> r == 0 && 0 <= k < |v.dir| && v'.dir == v.dir[k := [0xE5] + v.dir[k][1..]])
  {
    FindScans(v.dir, name, 0);
    var k := Find(v.dir, name, 0);
    if k != -1 { assert v.dir[k][0 := DELETED] == [0xE5] + v.dir[k][1..]; }
  }

  // The 32 bytes of a new slot.
  ghost predicate NewSlot(s: seq<byte>, name: seq<byte>, first: int, size: int) {
    && |s| == 32 && s[..11] == name && s[11] == 0x20
    && (forall b :: 12 <= b < 26 ==> s[b] == 0)
    && s[26] as int + 0x100 * (s[27] as int) == first
    && s[28] as int + 0x100 * (s[29] as int) + 0x1_0000 * (s[30] as int) + 0x100_0000 * (s[31] as int) == size
  }

  lemma MadeSlot(name: Name, first: u16, size: u32)
    ensures NewSlot(MakeSlot(name, first, size), name, first, size)
  {
    var s := MakeSlot(name, first, size);
    assert forall b :: 12 <= b < 26 ==> s[b] == s[12..26][b - 12];
  }

  // A write that returns 0 fills the first usable slot and changes no other; the slot
  // names the lowest cluster that is free once the old file is gone.
  lemma WrittenSlot(v: Volume, name: Name, data: seq<byte>)
    requires Shape(v) && |data| < 0x1_0000_0000 && Fits(v, name, |data|) && Write(v, name, data).1 == 0
    ensures var (v1, v') := (Delete(v, name).0, Write(v, name, data).0);
      var (k, first) := (FindFree(v1.dir, 0), FreeFrom(v1.fat, 2));
      && 0 <= k < |v1.dir| == |v'.dir| && first != []
      && NewSlot(v'.dir[k], name, first[0], |data|)
      && forall j :: 0 <= j < |v1.dir| && j != k ==> v'.dir[j] == v1.dir[j]
  {
    var v1 := Delete(v, name).0;
    MadeSlot(name, Taken(v1.fat, |data|, v.clusterBytes)[0], |data|);
  }

  lemma WrittenChunk(v: Volume, name: Name, data: seq<byte>, i: nat)
    requires Shape(v) && |data| < 0x1_0000_0000 && Fits(v, name, |data|) && Write(v, name, data).1 == 0
    requires i < ClustersNeeded(|data|, v.clusterBytes)
    ensures var (free, v') := (FreeFrom(Delete(v, name).0.fat, 2), Write(v, name, data).0);
      i < |free| && free[i] < |v'.clusters| && v'.clusters[free[i]] == Chunk(data, i, v.clusterBytes)
  {
    var v1 := Delete(v, name).0;
    var ch := Taken(v1.fat, |data|, v.clusterBytes);
    FillMeaning(v1.clusters, ch, data, v.clusterBytes);
    assert ch[i] == FreeFrom(v1.fat, 2)[i];
  }

  lemma ChunkByte(data: seq<byte>, i: nat, size: nat, b: nat)
    requires b < size
    ensures 0 <= i * size && Chunk(data, i, size)[b] == if i * size + b < |data| then data[i * size + b] else 0
  {
    MulNonNegative(i, size);
  }

  // Every byte of the clusters it takes is the data's, or 0 past its end ...
  lemma WrittenData(v: Volume, name: Name, data: seq<byte>, i: nat, b: nat)
    requires Shape(v) && |data| < 0x1_0000_0000 && Fits(v, name, |data|) && Write(v, name, data).1 == 0
    requires i < ClustersNeeded(|data|, v.clusterBytes) && b < v.clusterBytes
    ensures var (free, v') := (FreeFrom(Delete(v, name).0.fat, 2), Write(v, name, data).0);
      && i < |free| && free[i] < |v'.clusters| && |v'.clusters[free[i]]| == v.clusterBytes
      && 0 <= i * v.clusterBytes
      && v'.clusters[free[i]][b] == (if i * v.clusterBytes + b < |data| then data[i * v.clusterBytes + b] else 0)
  {
    WrittenChunk(v, name, data, i);
    ChunkByte(data, i, v.clusterBytes, b);
  }

  // ... and no other cluster changes.
  lemma UntouchedData(v: Volume, name: Name, data: seq<byte>, c: nat)
    requires Shape(v) && |data| < 0x1_0000_0000 && Fits(v, name, |data|) && Write(v, name, data).1 == 0
    requires c < |v.clusters|
    requires forall i :: 0 <= i < Min(ClustersNeeded(|data|, v.clusterBytes), |FreeFrom(Delete(v, name).0.fat, 2)|) ==>
      FreeFrom(Delete(v, name).0.fat, 2)[i] != c
    ensures |Write(v, name, data).0.clusters| == |v.clusters|
    ensures Write(v, name, data).0.clusters[c] == v.clusters[c]
  {
    var v1 := Delete(v, name).0;
    FillMeaning(v1.clusters, Taken(v1.fat, |data|, v.clusterBytes), data, v.clusterBytes);
  }
  // ----- What a read uses -----

  // A walk from `c` takes cluster `c` first and goes on at its entry; it stops at an entry
  // below 2 or from 0xFFF8 on.
  lemma WalkFollows(v: Volume, c: u16, k: nat)
    requires Shape(v) && k > 0
    ensures c < 2 || c >= 0xFFF8 ==> WalkBytes(v, c, k) == []
    ensures 2 <= c < 0xFFF8 && c < |v.clusters| ==>
      if k <= v.clusterBytes then WalkBytes(v, c, k) == v.clusters[c][..k]
      else WalkBytes(v, c, k) == v.clusters[c] + WalkBytes(v, v.fat[c], k - v.clusterBytes)
  {
  }

  // A read of a name uses the first cluster and the length that bytes 26 to 31 of its slot
  // spell; its value is the number of bytes copied as a signed 32-bit number, -1 if there
  // is no such slot.
  lemma ReadUsesSlot(v: Volume, name: seq<byte>, bufSize: nat)
    requires Shape(v) && bufSize < 0x1_0000_0000
    ensures var ((r, w), k) := (Read(v, name, bufSize), Find(v.dir, name, 0));
      && (k == -1 ==> r == -1 && w == [])
      && (k != -1 ==>
            && 0 <= k < |v.dir|
            && w == WalkBytes(v, v.dir[k][26] as int + 0x100 * (v.dir[k][27] as int),
                 Min(v.dir[k][28] as int + 0x100 * (v.dir[k][29] as int) + 0x1_0000 * (v.dir[k][30] as int)
                       + 0x100_0000 * (v.dir[k][31] as int), bufSize))
            && r == (if |w| < 0x8000_0000 then |w| else |w| - 0x1_0000_0000))
  {
    FindScans(v.dir, name, 0);
  }
}
