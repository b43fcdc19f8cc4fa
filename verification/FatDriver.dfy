/** The FAT16 driver as it runs: sector buffers edited in place and written back.  Every
    method is proved to do to the disk what the functions on volumes say. */
module FatDriver {
  import opened Bytes
  import opened FatVolume
  import opened FatDelete
  import opened FatWrite
  import opened FatRead
  import opened FatLayout
  import opened FatNames
  import opened FatListing
  import opened FatFormat

  // What the listing prints for one slot before the end of the directory.
  method DescribeSlot(slot: Slot) returns (lines: seq<(seq<byte>, u32)>)
    ensures lines == SlotLines(slot)
  {
    lines := [];
    if slot[0] != DELETED && slot[11] / 8 % 2 == 0 && slot[11] % 16 == 0 {
      var text := new byte[13](_ => 0);
      var n := BuildText(slot[..11], text);
      lines := [(text[..n], SlotSize(slot))];
    }
  }

  // Stores `first` and `size` byte by byte, least significant byte first.
  method SetWords(buf: array<byte>, at: nat, words: seq<byte>)
    requires at + 6 <= buf.Length && |words| == 6
    modifies buf
    ensures buf[..] == Over(old(buf[..]), at, words)
  {
    buf[at], buf[at + 1] := words[0], words[1];
    buf[at + 2], buf[at + 3], buf[at + 4], buf[at + 5] := words[2], words[3], words[4], words[5];
  }

  method SetFields(buf: array<byte>, at: nat, first: u16, size: u32)
    requires at + 32 <= buf.Length
    modifies buf
    ensures buf[..] == Over(Over(old(buf[..]), at + 11, [ARCHIVE]), at + 26, ToLe16(first) + ToLe32(size))
  {
    buf[at + 11] := ARCHIVE;
    assert buf[..] == Over(old(buf[..]), at + 11, [ARCHIVE]);
    SetWords(buf, at + 26, ToLe16(first) + ToLe32(size));
  }

  // Writing into a window that was just written.
  lemma OverOver(a: seq<byte>, at: nat, t: seq<byte>, off: nat, u: seq<byte>)
    requires at + |t| <= |a| && off + |u| <= |t|
    ensures Over(Over(a, at, t), at + off, u) == Over(a, at, Over(t, off, u))
  {
  }

  lemma SlotFields(a: seq<byte>, at: nat, name: Name, first: u16, size: u32)
    requires at + 32 <= |a|
    ensures Over(Over(Over(Over(a, at, seq(32, _ => 0)), at, name), at + 11, [ARCHIVE]), at + 26,
                 ToLe16(first) + ToLe32(size))
         == Over(a, at, MakeSlot(name, first, size))
  {
    var zeros, words := seq(32, _ => 0), ToLe16(first) + ToLe32(size);
    OverOver(a, at, zeros, 0, name);
    OverOver(a, at, Over(zeros, 0, name), 11, [ARCHIVE]);
    OverOver(a, at, Over(Over(zeros, 0, name), 11, [ARCHIVE]), 26, words);
    var s := Over(Over(Over(zeros, 0, name), 11, [ARCHIVE]), 26, words);
    assert s == name + [ARCHIVE] + seq(14, _ => 0) + ToLe16(first) + ToLe32(size);
  }

  // The window's bytes, one by one.
  lemma SlotBytes(a: seq<byte>, at: nat, s: Slot, name: Name, first: u16, size: u32)
    requires at + 32 <= |a| && s == MakeSlot(name, first, size)
    ensures var b := Over(a, at, s);
      && b[at..at + 11] == name && b[at + 11] == 0x20 && (forall k :: at + 12 <= k < at + 26 ==> b[k] == 0)
      && b[at + 26] as int + 0x100 * (b[at + 27] as int) == first
      && b[at + 28] as int + 0x100 * (b[at + 29] as int) + 0x1_0000 * (b[at + 30] as int)
           + 0x100_0000 * (b[at + 31] as int) == size
      && forall k :: 0 <= k < |a| && !(at <= k < at + 32) ==> b[k] == a[k]
  {
    MadeSlot(name, first, size);
    var b := Over(a, at, s);
    assert forall k :: 0 <= k < 32 ==> b[at + k] == s[k];
    assert b[at..at + 11] == s[..11];
  }

  // The slot is cleared and its name, attribute, first cluster and size are filled in, the
  // numbers lowest byte first.
  method BuildSlot(name: CString, buf: array<byte>, at: nat, first: u16, size: u32)
    requires at + 32 <= buf.Length
    modifies buf
    ensures buf[..] == Over(old(buf[..]), at, MakeSlot(FatName(name), first, size))
    ensures buf[at..at + 11] == FatName(name) && buf[at + 11] == 0x20
    ensures forall k :: at + 12 <= k < at + 26 ==> buf[k] == 0
    ensures buf[at + 26] as int + 0x100 * (buf[at + 27] as int) == first
    ensures buf[at + 28] as int + 0x100 * (buf[at + 29] as int) + 0x1_0000 * (buf[at + 30] as int)
              + 0x100_0000 * (buf[at + 31] as int) == size
    ensures forall k :: 0 <= k < buf.Length && !(at <= k < at + 32) ==> buf[k] == old(buf[k])
  {
    Memset(buf, at, 0, 32);
    ToFatName(name, buf, at);
    SetFields(buf, at, first, size);
    SlotFields(old(buf[..]), at, FatName(name), first, size);
    SlotBytes(old(buf[..]), at, MakeSlot(FatName(name), first, size), FatName(name), first, size);
    assert forall k :: 0 <= k < buf.Length ==> buf[k] == buf[..][k];
  }

  lemma PieceOfChunk(data: seq<byte>, i: nat, size: nat, k: nat)
    requires 512 * k + 512 <= size && i * size + 512 * k >= 0
    ensures Piece(Chunk(data, i, size), k) == Padded(data[Min(i * size + 512 * k, |data|)..], 512)
  {
  }

  // `was` with its first `n` bytes replaced by those of `chunk`.
  function Blend(chunk: seq<byte>, was: seq<byte>, n: nat): seq<byte>
    requires n <= |chunk| == |was|
  {
    chunk[..n] + was[n..]
  }

  lemma ChunkStep(chunk: seq<byte>, was: seq<byte>, k: nat)
    requires 512 * k + 512 <= |chunk| == |was|
    ensures Over(Blend(chunk, was, 512 * k), 512 * k, Piece(chunk, k)) == Blend(chunk, was, 512 * (k + 1))
  {
  }

  lemma BlendEnds(chunk: seq<byte>, was: seq<byte>)
    requires |chunk| == |was|
    ensures Blend(chunk, was, 0) == was && Blend(chunk, was, |chunk|) == chunk
  {
  }

  class Fat16 {
    var g: Geometry             // the layout globals
    var sectors: seq<Sector>    // the disk behind ata_read_sector and ata_write_sector
    ghost var vol: Volume       // what the disk holds

    ghost predicate Valid()
      reads this
    {
      Represents(g, sectors, vol)
    }

    // The sectors before the first table, boot sector included, and after the last cluster.
    function Reserved(): (seq<Sector>, seq<Sector>)
      reads this
    {
      Outside(g, sectors)
    }

    method ReadSector(lba: nat, buf: array<byte>)
      requires lba < |sectors| && buf.Length == 512
      modifies buf
      ensures buf[..] == sectors[lba]
    {
      forall i | 0 <= i < 512 { buf[i] := sectors[lba][i]; }
    }

    method WriteSector(lba: nat, buf: array<byte>)
      requires lba < |sectors| && buf.Length == 512
      modifies this`sectors
      ensures sectors == Put(old(sectors), lba, buf[..])
    {
      sectors := sectors[lba := buf[..]];
    }

    method FatReadEntry(cluster: u16) returns (w: u16)
      requires Valid() && cluster < |vol.fat|
      ensures w == vol.fat[cluster]
    {
      var offset := cluster * 2;
      var sector := g.fatStart + offset / 512;
      var entry := offset % 512;
      FatLbaRange(g, 0, cluster / 256);
      assert sector == FatLba(g, 0, cluster / 256) && entry == 2 * (cluster % 256);
      var buf := new byte[512](_ => 0);
      ReadSector(sector, buf);
      assert Cell(g, sectors, 0, cluster) == vol.fat[cluster];
      w := Le16(buf[entry], buf[entry + 1]);
    }

    // The body of the loop over the table copies.
    method WriteOneCopy(f: nat, cluster: u16, value: u16, ghost fat: seq<u16>)
      requires GeometryOk(g, |sectors|) && f < g.numFats && cluster < |fat| && CopyRep(g, sectors, f, fat)
      requires DirRep(g, sectors, vol.dir) && DataRep(g, sectors, vol.clusters)
      modifies this`sectors
      ensures |sectors| == |old(sectors)| && Reserved() == old(Reserved())
      ensures CopyRep(g, sectors, f, fat[cluster := value])
      ensures forall h, t :: h != f && CopyRep(g, old(sectors), h, t) ==> CopyRep(g, sectors, h, t)
      ensures DirRep(g, sectors, vol.dir) && DataRep(g, sectors, vol.clusters)
    {
      var offset := cluster * 2;
      var entry := offset % 512;
      var sector := g.fatStart + f * g.fatSize + offset / 512;
      FatLbaRange(g, f, cluster / 256);
      assert sector == FatLba(g, f, cluster / 256) && entry == 2 * (cluster % 256);
      var buf := new byte[512](_ => 0);
      ReadSector(sector, buf);
      buf[entry], buf[entry + 1] := value % 0x100, value / 0x100;
      WriteSector(sector, buf);
      BeforeData(g, |old(sectors)|);
      ReservedKept(g, old(sectors), sector, buf[..]);
      WriteCell(g, old(sectors), f, cluster, buf[..], fat, value);
      forall h, t | h != f && CopyRep(g, old(sectors), h, t) ensures CopyRep(g, sectors, h, t) {
        WriteOtherCopy(g, old(sectors), f, cluster / 256, buf[..], h, t);
      }
      OutsideDir(g, old(sectors), sector, buf[..], vol.dir);
      OutsideData(g, old(sectors), sector, buf[..], vol.clusters);
    }

    method FatWriteEntry(cluster: u16, value: u16)
      requires Valid() && cluster < |vol.fat|
      modifies this`sectors, this`vol
      ensures Valid() && vol == old(vol).(fat := old(vol.fat)[cluster := value])
      ensures Reserved() == old(Reserved())
    {
      ghost var fat, fat' := vol.fat, vol.fat[cluster := value];
      for f := 0 to g.numFats
        invariant vol == old(vol) && |sectors| == |old(sectors)|
        invariant forall h :: 0 <= h < f ==> CopyRep(g, sectors, h, fat')
        invariant forall h :: f <= h < g.numFats ==> CopyRep(g, sectors, h, fat)
        invariant DirRep(g, sectors, vol.dir) && DataRep(g, sectors, vol.clusters)
        invariant Reserved() == old(Reserved())
      {
        WriteOneCopy(f, cluster, value, fat);
      }
      vol := vol.(fat := fat');
    }

    method FatAllocCluster() returns (c: u16)
      requires Valid()
      ensures var free := FreeFrom(vol.fat, 2); c == if free == [] then 0 else free[0]
      ensures c != 0 ==> 2 <= c < 2048 && vol.fat[c] == 0
      ensures forall k :: 2 <= k < (if c == 0 then 2048 else c) ==> vol.fat[k] != 0
    {
      for k := 2 to SCAN_LIMIT
        invariant FreeFrom(vol.fat, 2) == FreeFrom(vol.fat, k)
        invariant forall j :: 2 <= j < k ==> vol.fat[j] != 0
      {
        var w := FatReadEntry(k);
        if w == 0 { return k; }
      }
      return 0;
    }

    lemma SlotInBuffer(s: nat, i: nat, buf: seq<byte>)
      requires Valid() && s < g.rootSectors && i < 16 && buf == sectors[g.RootStart() + s]
      ensures 16 * s + i < |vol.dir|
      ensures buf[32 * i..32 * i + 32] == vol.dir[16 * s + i]
      ensures buf[32 * i] == vol.dir[16 * s + i][0]
      ensures buf[32 * i..32 * i + 11] == SlotName(vol.dir[16 * s + i])
    {
      var k := 16 * s + i;
      assert k / 16 == s && k % 16 == i;
      assert DirCell(g, sectors, k) == vol.dir[k];
      assert buf[32 * i..32 * i + 32][..11] == buf[32 * i..32 * i + 11];
    }

    // The inner loop of the scan.
    method FindInSector(name: CString, s: nat, buf: array<byte>) returns (k: int, ended: bool)
      requires Valid() && s < g.rootSectors && buf[..] == sectors[g.RootStart() + s]
      ensures 16 * (s + 1) <= |vol.dir|
      ensures Find(vol.dir, FatName(name), 16 * s) == if ended then k else Find(vol.dir, FatName(name), 16 * (s + 1))
      ensures k != -1 ==> ended && 0 <= k < |vol.dir| && Live(vol.dir[k]) && k / 16 == s
    {
      for i := 0 to 16
        invariant Find(vol.dir, FatName(name), 16 * s) == Find(vol.dir, FatName(name), 16 * s + i)
      {
        SlotInBuffer(s, i, buf[..]);
        if buf[32 * i] == 0 { return -1, true; }
        if buf[32 * i] != DELETED {
          var same := NameMatch(name, buf[32 * i..32 * i + 11]);
          if same { return 16 * s + i, true; }
        }
      }
      return -1, false;
    }

    // The directory scan shared by reading and deleting.  `buf` is left holding the sector
    // of the slot that was found.
    method FindEntry(name: CString, buf: array<byte>) returns (k: int)
      requires Valid() && buf.Length == 512
      modifies buf
      ensures k == Find(vol.dir, FatName(name), 0)
      ensures k != -1 ==> 0 <= k < |vol.dir| && Live(vol.dir[k]) && buf[..] == sectors[g.RootStart() + k / 16]
    {
      for s := 0 to g.rootSectors
        invariant Find(vol.dir, FatName(name), 0) == Find(vol.dir, FatName(name), 16 * s)
      {
        ReadSector(g.RootStart() + s, buf);
        var ended;
        k, ended := FindInSector(name, s, buf);
        if ended { return; }
      }
      return -1;
    }

    // Writing back a directory sector in which only slot `k` was edited.
    method WriteDirSector(k: nat, buf: array<byte>, ghost slot: Slot)
      requires Valid() && k < |vol.dir| && buf.Length == 512
      requires buf[..] == Over(sectors[g.RootStart() + k / 16], 32 * (k % 16), slot)
      modifies this`sectors, this`vol
      ensures Valid() && vol == old(vol).(dir := old(vol.dir)[k := slot])
      ensures Reserved() == old(Reserved())
    {
      PutSlot(g, sectors, vol, k, slot);
      ReservedKept(g, sectors, g.RootStart() + k / 16, buf[..]);
      WriteSector(g.RootStart() + k / 16, buf);
      vol := vol.(dir := vol.dir[k := slot]);
    }

    // The freeing walk terminates on every table whose links stay inside it.
    method FreeChain(first: u16)
      requires Valid() && WalkInTable(vol.fat, first)
      modifies this`sectors, this`vol
      ensures Valid() && vol == old(vol).(fat := FreeWalk(old(vol.fat), first))
      ensures Reserved() == old(Reserved())
    {
      var cluster: u16 := first;
      while cluster >= 2 && cluster < 0xFFF8
        invariant Valid() && vol == old(vol).(fat := vol.fat) && |vol.fat| == |old(vol.fat)|
        invariant WalkInTable(vol.fat, cluster)
        invariant FreeWalk(vol.fat, cluster) == FreeWalk(old(vol.fat), first)
        invariant Reserved() == old(Reserved())
        decreases NonZero(vol.fat), if IsLink(cluster) then 1 else 0
      {
        ghost var before := vol.fat;
        var next := FatReadEntry(cluster);
        FatWriteEntry(cluster, 0);
        ZeroingShrinks(before, cluster);
        cluster := next;
      }
    }

    // The last part of a delete: the slot's first byte is overwritten.
    method MarkDeleted(k: nat, buf: array<byte>)
      requires Valid() && k < |vol.dir| && buf.Length == 512 && buf[..] == sectors[g.RootStart() + k / 16]
      modifies this`sectors, this`vol, buf
      ensures Valid() && vol == old(vol).(dir := old(vol.dir)[k := old(vol.dir)[k][0 := DELETED]])
      ensures Reserved() == old(Reserved())
    {
      ghost var sector, slot := buf[..], vol.dir[k][0 := DELETED];
      var at := 32 * (k % 16);
      SlotInBuffer(k / 16, k % 16, sector);
      buf[at] := DELETED;
      assert buf[..] == Over(sector, at, slot);
      WriteDirSector(k, buf, slot);
    }

    // Frees the chain of slot `k` and marks the slot deleted; `buf` holds its sector.
    method DeleteAt(k: nat, buf: array<byte>)
      requires Valid() && k < |vol.dir| && buf.Length == 512 && buf[..] == sectors[g.RootStart() + k / 16]
      requires WalkInTable(vol.fat, SlotFirst(vol.dir[k]))
      modifies this`sectors, this`vol, buf
      ensures Valid() && Reserved() == old(Reserved())
      ensures vol == old(vol).(fat := FreeWalk(old(vol.fat), SlotFirst(old(vol.dir[k]))), dir := Released(old(vol.dir), k))
    {
      SlotInBuffer(k / 16, k % 16, buf[..]);
      var at := 32 * (k % 16);
      FreeChain(Le16(buf[at + 26], buf[at + 27]));
      DirSectorSame(g, old(sectors), sectors, vol.dir, k / 16);
      MarkDeleted(k, buf);
    }

    method DeleteFile(name: CString) returns (r: int)
      requires Valid() && DeleteInTable(vol, FatName(name))
      modifies this`sectors, this`vol
      ensures Valid() && (vol, r) == Delete(old(vol), FatName(name))
      ensures Reserved() == old(Reserved())
    {
      var buf := new byte[512](_ => 0);
      var k := FindEntry(name, buf);
      if k == -1 { return -1; }
      DeleteAt(k, buf);
      return 0;
    }

    // A 512-byte buffer zeroed and filled with what is left of the data at `off`.
    method FillBuffer(data: seq<byte>, off: nat, buf: array<byte>)
      requires buf.Length == 512
      modifies buf
      ensures buf[..] == Padded(data[Min(off, |data|)..], 512)
    {
      Memset(buf, 0, 0, 512);
      if off < |data| {
        Memcpy(buf, 0, data, off, Min(|data| - off, 512));
      }
    }

    method WriteDataSector(cluster: u16, sec: nat, buf: array<byte>)
      requires Valid() && 2 <= cluster < |vol.clusters| && sec < g.sectorsPerCluster && buf.Length == 512
      modifies this`sectors, this`vol
      ensures Valid() && Reserved() == old(Reserved())
      ensures |old(vol.clusters)[cluster]| == 512 * g.sectorsPerCluster
      ensures vol == old(vol).(clusters :=
                old(vol.clusters)[cluster := Over(old(vol.clusters)[cluster], 512 * sec, buf[..])])
    {
      PutData(g, sectors, vol, cluster, sec, buf[..]);
      ReservedKept(g, sectors, DataLba(g, cluster, sec), buf[..]);
      WriteSector(DataLba(g, cluster, 0) + sec, buf);
      vol := vol.(clusters := vol.clusters[cluster := Over(vol.clusters[cluster], 512 * sec, buf[..])]);
    }

    // The body of the sector loop of a write: sector `sec` of the piece `chunk`, `was`
    // having been in the cluster before.
    method WritePiece(cluster: u16, sec: nat, i: nat, data: seq<byte>, ghost was: seq<byte>)
      requires Valid() && Shape(vol) && 2 <= cluster < |vol.clusters| && sec < g.sectorsPerCluster
      requires |was| == vol.clusterBytes == 512 * g.sectorsPerCluster
      requires vol.clusters[cluster] == Blend(Chunk(data, i, vol.clusterBytes), was, 512 * sec)
      modifies this`sectors, this`vol
      ensures Valid() && Reserved() == old(Reserved())
      ensures vol == old(vol).(clusters := old(vol.clusters)[cluster :=
                Blend(Chunk(data, i, old(vol.clusterBytes)), was, 512 * (sec + 1))])
    {
      var buf := new byte[512](_ => 0);
      PieceOfChunk(data, i, vol.clusterBytes, sec);
      FillBuffer(data, i * (512 * g.sectorsPerCluster) + sec * 512, buf);
      ChunkStep(Chunk(data, i, vol.clusterBytes), was, sec);
      WriteDataSector(cluster, sec, buf);
    }

    // The sector loop of a write: piece number `i` of the file goes to `cluster`.
    method WriteCluster(cluster: u16, i: nat, data: seq<byte>)
      requires Valid() && 2 <= cluster < |vol.clusters|
      modifies this`sectors, this`vol
      ensures Valid() && Reserved() == old(Reserved())
      ensures vol == old(vol).(clusters := old(vol.clusters)[cluster := Chunk(data, i, old(vol.clusterBytes))])
    {
      ghost var v, was := vol, vol.clusters[cluster];
      ghost var chunk := Chunk(data, i, v.clusterBytes);
      RepresentsShape(g, sectors, vol);
      BlendEnds(chunk, was);
      for sec := 0 to g.sectorsPerCluster
        invariant Valid() && Reserved() == old(Reserved())
        invariant vol == v.(clusters := v.clusters[cluster := Blend(chunk, was, 512 * sec)])
      {
        RepresentsShape(g, sectors, vol);
        WritePiece(cluster, sec, i, data, was);
      }
    }

    // The `n` lowest free clusters of `v`, all of them on the disk.
    ghost predicate CanTake(v: Volume, n: nat) {
      && Shape(v) && n <= |FreeFrom(v.fat, 2)|
      && Scanned(FreeFrom(v.fat, 2)[..n]) && Below(FreeFrom(v.fat, 2)[..n], |v.clusters|)
    }

    // The volume after the `n` lowest free clusters are linked and filled.
    ghost function Partial(v: Volume, data: seq<byte>, n: nat): Volume
      requires CanTake(v, n)
    {
      var ch := FreeFrom(v.fat, 2)[..n];
      v.(fat := Link(v.fat, ch), clusters := Fill(v.clusters, ch, data, v.clusterBytes))
    }

    // Links and fills `cluster`, the `n`-th free cluster of `v`; `prev` is the one before.
    method AddCluster(cluster: u16, prev: u16, n: nat, data: seq<byte>, ghost v: Volume)
      requires Valid() && CanTake(v, n) && CanTake(v, n + 1)
      requires vol == Partial(v, data, n)
      requires cluster == FreeFrom(v.fat, 2)[n]
      requires prev == if n == 0 then 0 else FreeFrom(v.fat, 2)[n - 1]
      modifies this`sectors, this`vol
      ensures Valid() && Reserved() == old(Reserved())
      ensures vol == Partial(v, data, n + 1)
    {
      ghost var ch := FreeFrom(v.fat, 2)[..n + 1];
      assert ch[..n] == FreeFrom(v.fat, 2)[..n] && ch[n] == cluster;
      FatWriteEntry(cluster, END_OF_CHAIN);
      if prev != 0 {
        FatWriteEntry(prev, cluster);
      }
      WriteCluster(cluster, n, data);
    }

    lemma TakenPrefix(v: Volume, size: u32, n: nat)
      requires Shape(v) && Below(Taken(v.fat, size, v.clusterBytes), |v.clusters|)
      requires n <= |FreeFrom(v.fat, 2)| && n <= ClustersNeeded(size, v.clusterBytes)
      ensures CanTake(v, n)
      ensures FreeFrom(v.fat, 2)[..n] == Taken(v.fat, size, v.clusterBytes)[..n]
    {
      var free, taken := FreeFrom(v.fat, 2), Taken(v.fat, size, v.clusterBytes);
      assert free[..n] == taken[..n];
    }

    // What the scan finds once the `c` lowest free clusters are linked.
    lemma NextFree(v: Volume, data: seq<byte>, c: nat)
      requires CanTake(v, c)
      ensures var free := FreeFrom(Partial(v, data, c).fat, 2);
        if c < |FreeFrom(v.fat, 2)| then free != [] && free[0] == FreeFrom(v.fat, 2)[c] >= 2 else free == []
    {
      FreeFromMeaning(v.fat, 2);
      LinkLeavesRest(v.fat, FreeFrom(v.fat, 2), c);
    }

    // The body of the allocation loop: the next free cluster, linked and filled, or 0.
    method NextCluster(prev: u16, c: nat, data: seq<byte>, ghost v: Volume) returns (cluster: u16)
      requires Valid() && CanTake(v, c) && vol == Partial(v, data, c)
      requires c < |FreeFrom(v.fat, 2)| ==> CanTake(v, c + 1)
      requires prev == if c == 0 then 0 else FreeFrom(v.fat, 2)[c - 1]
      modifies this`sectors, this`vol
      ensures Valid() && Reserved() == old(Reserved())
      ensures cluster == if c < |FreeFrom(v.fat, 2)| then FreeFrom(v.fat, 2)[c] else 0
      ensures vol == if c < |FreeFrom(v.fat, 2)| then Partial(v, data, c + 1) else old(vol)
    {
      NextFree(v, data, c);
      cluster := FatAllocCluster();
      if cluster != 0 {
        AddCluster(cluster, prev, c, data, v);
      }
    }

    // The allocation loop.  It stops early when the scan finds no free cluster.
    method StoreData(data: seq<byte>) returns (first: u16, enough: bool)
      requires Valid() && Shape(vol) && |data| < 0x1_0000_0000
      requires Below(Taken(vol.fat, |data|, vol.clusterBytes), |vol.clusters|)
      modifies this`sectors, this`vol
      ensures Valid() && Reserved() == old(Reserved())
      ensures vol == Stored(old(vol), data) && enough == EnoughFree(old(vol), |data|)
      ensures enough ==> first == Taken(old(vol.fat), |data|, old(vol.clusterBytes))[0]
    {
      ghost var v, free := vol, FreeFrom(vol.fat, 2);
      var clusterBytes := g.sectorsPerCluster * 512;
      var needed := (|data| + clusterBytes - 1) % 0x1_0000_0000 / clusterBytes;
      if needed == 0 { needed := 1; }
      assert needed == ClustersNeeded(|data|, v.clusterBytes);
      first := 0;
      var prev: u16 := 0;
      TakenPrefix(v, |data|, 0);
      FreeFromMeaning(v.fat, 2);
      for c := 0 to needed
        invariant CanTake(v, c) && Valid() && Reserved() == old(Reserved()) && vol == Partial(v, data, c)
        invariant prev == if c == 0 then 0 else free[c - 1]
        invariant c > 0 ==> first == free[0]
      {
        if c < |free| { TakenPrefix(v, |data|, c + 1); }
        var cluster := NextCluster(prev, c, data, v);
        if cluster == 0 {
          TakenPrefix(v, |data|, c);
          return first, false;
        }
        if c == 0 { first := cluster; }
        prev := cluster;
      }
      TakenPrefix(v, |data|, needed);
      return first, true;
    }

    // The scan for a slot to use.  `buf` is left holding that slot's sector.
    method FindFreeEntry(buf: array<byte>) returns (k: int)
      requires Valid() && buf.Length == 512
      modifies buf
      ensures k == FindFree(vol.dir, 0)
      ensures k != -1 ==> 0 <= k < |vol.dir| && buf[..] == sectors[g.RootStart() + k / 16]
    {
      for s := 0 to g.rootSectors
        invariant FindFree(vol.dir, 0) == FindFree(vol.dir, 16 * s)
      {
        ReadSector(g.RootStart() + s, buf);
        for i := 0 to 16
          invariant buf[..] == sectors[g.RootStart() + s]
          invariant FindFree(vol.dir, 0) == FindFree(vol.dir, 16 * s + i)
        {
          SlotInBuffer(s, i, buf[..]);
          if buf[32 * i] == 0 || buf[32 * i] == DELETED { return 16 * s + i; }
        }
      }
      return -1;
    }

    // The last part of a write: the first reusable slot is filled in, if there is one.
    method AddEntry(name: CString, first: u16, size: u32) returns (k: int)
      requires Valid()
      modifies this`sectors, this`vol
      ensures Valid() && Reserved() == old(Reserved()) && k == FindFree(old(vol.dir), 0)
      ensures k != -1 ==> 0 <= k < |old(vol.dir)|
      ensures vol == if k == -1 then old(vol) else WithSlot(old(vol), k, MakeSlot(FatName(name), first, size))
    {
      var buf := new byte[512](_ => 0);
      k := FindFreeEntry(buf);
      if k != -1 {
        BuildSlot(name, buf, 32 * (k % 16), first, size);
        WriteDirSector(k, buf, MakeSlot(FatName(name), first, size));
      }
    }

    method WriteFile(name: CString, data: seq<byte>) returns (r: int)
      requires Valid() && Shape(vol) && |data| < 0x1_0000_0000
      requires DeleteInTable(vol, FatName(name)) && Fits(vol, FatName(name), |data|)
      modifies this`sectors, this`vol
      ensures Valid() && (vol, r) == Write(old(vol), FatName(name), data)
      ensures Reserved() == old(Reserved())
    {
      var _ := DeleteFile(name);
      ghost var v1 := vol;
      var first, enough := StoreData(data);
      assert vol.dir == v1.dir;
      if !enough { return -1; }
      var k := AddEntry(name, first, |data|);
      return if k == -1 then -1 else 0;
    }

    // The body of the sector loop of a read.
    method ReadPiece(c: u16, sec: nat, size: u32, bytes: nat, buffer: array<byte>, bufSize: u32) returns (toCopy: nat)
      requires Valid() && 2 <= c < |vol.clusters| && sec < g.sectorsPerCluster
      requires bufSize <= buffer.Length && bytes <= Min(size, bufSize)
      modifies buffer
      ensures |vol.clusters[c]| == 512 * g.sectorsPerCluster
      ensures toCopy == Min(512, Min(size, bufSize) - bytes)
      ensures buffer[..] == Over(old(buffer[..]), bytes, Piece(vol.clusters[c], sec)[..toCopy])
    {
      assert ClusterRep(g, sectors, c, vol.clusters[c]);
      DataLbaRange(g, |sectors|, c, sec);
      var tmp := new byte[512](_ => 0);
      ReadSector(DataLba(g, c, 0) + sec, tmp);
      assert tmp[..] == Piece(vol.clusters[c], sec) by { assert DataLba(g, c, sec) == DataLba(g, c, 0) + sec; }
      toCopy := size - bytes;
      if toCopy > 512 { toCopy := 512; }
      if bytes + toCopy > bufSize { toCopy := bufSize - bytes; }
      Memcpy(buffer, bytes, tmp[..], 0, toCopy);
    }

    // The sector loop of a read.
    method ReadSectors(c: u16, size: u32, done: nat, buffer: array<byte>, bufSize: u32) returns (bytes: nat, sec: nat)
      requires Valid() && 2 <= c < |vol.clusters| && |vol.clusters[c]| == 512 * g.sectorsPerCluster
      requires bufSize <= buffer.Length && done <= Min(size, bufSize)
      modifies buffer
      ensures bytes <= Min(size, bufSize) && (sec == g.sectorsPerCluster || bytes >= size)
      ensures Copied(old(buffer[..]), buffer[..], vol.clusters[c], sec, done, Min(size, bufSize) - done, bytes)
    {
      ghost var data, m, before := vol.clusters[c], Min(size, bufSize) - done, buffer[..];
      bytes, sec := done, 0;
      CopiedNone(before, data, done, m);
      while sec < g.sectorsPerCluster && bytes < size
        invariant sec <= g.sectorsPerCluster && bytes <= Min(size, bufSize)
        invariant Copied(before, buffer[..], data, sec, done, m, bytes)
      {
        PieceStep(before, buffer[..], data, sec, done, m, bytes);
        var toCopy := ReadPiece(c, sec, size, bytes, buffer, bufSize);
        bytes := bytes + toCopy;
        sec := sec + 1;
      }
    }

    // What cluster `c` holds of the first bytes of the file, up to the smaller of the file
    // and the buffer.
    method ReadCluster(c: u16, size: u32, done: nat, buffer: array<byte>, bufSize: u32) returns (bytes: nat)
      requires Valid() && Shape(vol) && 2 <= c < |vol.clusters|
      requires bufSize <= buffer.Length && done <= Min(size, bufSize)
      modifies buffer
      ensures var here := Take(vol.clusters[c], Min(size, bufSize) - done);
        bytes == done + |here| && buffer[..] == Over(old(buffer[..]), done, here)
    {
      ghost var before := buffer[..];
      assert |vol.clusters[c]| == 512 * g.sectorsPerCluster;
      ghost var sec;
      bytes, sec := ReadSectors(c, size, done, buffer, bufSize);
      CopiedAll(before, buffer[..], vol.clusters[c], sec, done, Min(size, bufSize) - done, bytes);
    }

    // The body of the read's chain walk, seen from the string `w` being accumulated.
    method ReadLink(c: u16, size: u32, done: nat, buffer: array<byte>, bufSize: u32,
                    ghost w: seq<byte>, ghost before: seq<byte>) returns (bytes: nat, next: u16)
      requires Valid() && Shape(vol) && 2 <= c < |vol.clusters|
      requires bufSize <= buffer.Length && WalkedSoFar(vol, c, Min(size, bufSize), done, w, before, buffer[..])
      modifies buffer
      ensures next == vol.fat[c] && bytes == done + |Take(vol.clusters[c], Min(size, bufSize) - done)|
      ensures WalkedSoFar(vol, next, Min(size, bufSize), bytes, w, before, buffer[..])
    {
      ghost var now := buffer[..];
      bytes := ReadCluster(c, size, done, buffer, bufSize);
      next := FatReadEntry(c);
      WalkedStep(vol, c, Min(size, bufSize), done, w, before, now);
    }

    // The chain walk of a read.  If `ends`, `links` bounds the links it follows.
    method FollowChain(first: u16, size: u32, buffer: array<byte>, bufSize: u32, ghost ends: bool, ghost links: nat)
      returns (bytes: nat)
      requires Valid() && Shape(vol) && bufSize <= buffer.Length
      requires WalkOnDisk(vol, first, links, ends, size <= bufSize)
      modifies buffer
      ensures var w := WalkBytes(vol, first, Min(size, bufSize));
        bytes == |w| && buffer[..] == Over(old(buffer[..]), 0, w)
    {
      ghost var left: nat, m, before := links, Min(size, bufSize), buffer[..];
      ghost var w := WalkBytes(vol, first, m);
      bytes := 0;
      var cluster: u16 := first;
      WalkedNothing(vol, first, m, before);
      while cluster >= 2 && cluster < 0xFFF8 && bytes < size
        invariant WalkedSoFar(vol, cluster, m, bytes, w, before, buffer[..])
        invariant WalkOnDisk(vol, cluster, left, ends, size <= bufSize)
        decreases if ends then left else size - bytes
      {
        bytes, cluster := ReadLink(cluster, size, bytes, buffer, bufSize, w, before);
        if ends { left := left - 1; }
      }
      WalkedAll(vol, cluster, m, bytes, w, before, buffer[..]);
    }

    method ReadChain(first: u16, size: u32, buffer: array<byte>, bufSize: u32) returns (bytes: nat)
      requires Valid() && Shape(vol) && Readable(vol, first, size, bufSize) && bufSize <= buffer.Length
      modifies buffer
      ensures var w := WalkBytes(vol, first, Min(size, bufSize));
        bytes == |w| && buffer[..] == Over(old(buffer[..]), 0, w)
    {
      ghost var ends := exists n: nat :: Ends(vol, first, n);
      ghost var links: nat := 0;
      if ends { links :| Ends(vol, first, links); }
      bytes := FollowChain(first, size, buffer, bufSize, ends, links);
    }

    // The value is the number of bytes copied as a signed 32-bit integer, or -1 if the scan
    // finds no such name.
    method ReadFile(name: CString, buffer: array<byte>, bufSize: u32) returns (r: int)
      requires Valid() && Shape(vol) && bufSize <= buffer.Length && ReadTerminates(vol, FatName(name), bufSize)
      modifies buffer
      ensures var w := Read(vol, FatName(name), bufSize).1;
        && |w| <= bufSize && buffer[..] == Over(old(buffer[..]), 0, w)
        && r == (if Find(vol.dir, FatName(name), 0) == -1 then -1
                 else if |w| < 0x8000_0000 then |w| else |w| - 0x1_0000_0000)
      ensures r == Read(vol, FatName(name), bufSize).0
    {
      var buf := new byte[512](_ => 0);
      var k := FindEntry(name, buf);
      if k == -1 {
        assert buffer[..] == Over(buffer[..], 0, []);
        return -1;
      }
      SlotInBuffer(k / 16, k % 16, buf[..]);
      var at := 32 * (k % 16);
      var first := Le16(buf[at + 26], buf[at + 27]);
      var size := Le32(buf[at + 28], buf[at + 29], buf[at + 30], buf[at + 31]);
      assert first == SlotFirst(vol.dir[k]) && size == SlotSize(vol.dir[k]) by {
        assert buf[at..at + 32] == vol.dir[k];
      }
      var bytes := ReadChain(first, size, buffer, bufSize);
      return AsInt32(bytes);
    }

    method CacheLayout(sector: array<byte>)
      requires sector.Length == 512
      modifies this`g
      ensures g == BootGeometry(sector[..])
    {
      var rootEntries: int := Le16(sector[17], sector[18]);
      g := Geometry(Le16(sector[14], sector[15]), Le16(sector[22], sector[23]), sector[16],
                    (rootEntries * 32 + 511) / 512, sector[13]);
    }

    // fat16_init: the layout is computed from the boot sector.
    method Init() returns (r: int)
      requires |sectors| > 0
      modifies this`g, this`vol
      ensures r == (if sectors[0][11] == 0 && sectors[0][12] == 2 then 0 else -1)
      ensures r == -1 ==> g == old(g) && vol == old(vol)
      ensures r == 0 ==> g == BootGeometry(sectors[0])
      ensures r == 0 ==> var s := sectors[0];
        && g.fatStart == s[14] as int + 0x100 * (s[15] as int)
        && g.fatSize == s[22] as int + 0x100 * (s[23] as int)
        && g.numFats == s[16] && g.sectorsPerCluster == s[13]
        && 16 * g.rootSectors - 16 < s[17] as int + 0x100 * (s[18] as int) <= 16 * g.rootSectors
      ensures r == 0 && GeometryOk(g, |sectors|) && Mirrored(g, sectors) ==> Valid()
    {
      BootBytes(sectors[0]);
      var sector := new byte[512](_ => 0);
      ReadSector(0, sector);
      if Le16(sector[11], sector[12]) != 512 { return -1; }
      CacheLayout(sector);
      if GeometryOk(g, |sectors|) {
        vol := View(g, sectors);
        RepresentsIffView(g, sectors, vol);
      }
      return 0;
    }

    method ListSlot(s: nat, i: nat, buf: array<byte>) returns (lines: seq<(seq<byte>, u32)>, ended: bool)
      requires Valid() && s < g.rootSectors && i < 16 && buf[..] == sectors[g.RootStart() + s]
      ensures 16 * s + i < |vol.dir| && ended == (vol.dir[16 * s + i][0] == 0)
      ensures !ended ==> lines == SlotLines(vol.dir[16 * s + i])
    {
      SlotInBuffer(s, i, buf[..]);
      ended := buf[32 * i] == 0;
      lines := [];
      if !ended { lines := DescribeSlot(buf[32 * i..32 * i + 32]); }
    }

    // The inner loop: the lines of one directory sector after those printed `soFar`.
    method ListSector(s: nat, buf: array<byte>, soFar: seq<(seq<byte>, u32)>)
      returns (lines: seq<(seq<byte>, u32)>, ended: bool)
      requires Valid() && s < g.rootSectors && buf[..] == sectors[g.RootStart() + s]
      ensures 16 * (s + 1) <= |vol.dir|
      ensures lines + (if ended then [] else Listing(vol.dir, 16 * (s + 1))) == soFar + Listing(vol.dir, 16 * s)
    {
      lines := soFar;
      for i := 0 to 16
        invariant lines + Listing(vol.dir, 16 * s + i) == soFar + Listing(vol.dir, 16 * s)
      {
        var more;
        more, ended := ListSlot(s, i, buf);
        if ended {
          assert lines + [] == lines;
          return;
        }
        ListingStep(vol.dir, 16 * s + i, lines);
        lines := lines + more;
      }
      ended := false;
    }

    // fat16_list_root, as the sequence of texts and sizes it prints.
    method ListRoot() returns (lines: seq<(seq<byte>, u32)>)
      requires Valid()
      ensures lines == Listing(vol.dir, 0)
    {
      lines := [];
      var buf := new byte[512](_ => 0);
      for s := 0 to g.rootSectors
        invariant lines + Listing(vol.dir, 16 * s) == Listing(vol.dir, 0)
      {
        ReadSector(g.RootStart() + s, buf);
        var ended;
        lines, ended := ListSector(s, buf, lines);
        if ended {
          assert lines + [] == lines;
          return;
        }
      }
    }
  }
}
