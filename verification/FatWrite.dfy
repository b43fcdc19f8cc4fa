/** fat16_write_file on volumes: first-free allocation, linking, filling, and the new slot. */
module FatWrite {
  import opened Bytes
  import opened FatVolume
  import opened FatDelete
  // ----- Allocation: the free clusters the scan can reach, lowest first -----

  function FreeFrom(fat: seq<u16>, lo: nat): seq<nat>
    requires SCAN_LIMIT <= |fat|
    decreases SCAN_LIMIT - lo
  {
    if lo >= SCAN_LIMIT then []
    else if fat[lo] == 0 then [lo] + FreeFrom(fat, lo + 1)
    else FreeFrom(fat, lo + 1)
  }

  predicate Increasing(ch: seq<nat>) { forall i, j :: 0 <= i < j < |ch| ==> ch[i] < ch[j] }

  // Every element is a cluster number the scan can return.
  predicate Scanned(ch: seq<nat>) { forall i :: 0 <= i < |ch| ==> 2 <= ch[i] < SCAN_LIMIT }

  lemma {:induction false} FreeFromMeaning(fat: seq<u16>, lo: nat)
    requires SCAN_LIMIT <= |fat|
    ensures var free := FreeFrom(fat, lo);
      && Increasing(free)
      && (forall i :: 0 <= i < |free| ==> lo <= free[i] < SCAN_LIMIT && fat[free[i]] == 0)
      && (forall c: nat :: lo <= c < SCAN_LIMIT && fat[c] == 0 ==> c in free)
    decreases SCAN_LIMIT - lo
  {
    if lo >= SCAN_LIMIT {
    } else {
      FreeFromMeaning(fat, lo + 1);
      var free, rest := FreeFrom(fat, lo), FreeFrom(fat, lo + 1);
      if fat[lo] == 0 {
        assert free == [lo] + rest;
        assert forall i :: 0 < i < |free| ==> free[i] == rest[i - 1];
      }
      forall c: nat | lo <= c < SCAN_LIMIT && fat[c] == 0 ensures c in free {
        if c > lo { assert c in rest; }
      }
    }
  }

  lemma {:induction false} FreeFromSame(fat: seq<u16>, fat': seq<u16>, lo: nat)
    requires SCAN_LIMIT <= |fat| == |fat'|
    requires forall c :: lo <= c < SCAN_LIMIT ==> (fat'[c] == 0 <==> fat[c] == 0)
    ensures FreeFrom(fat', lo) == FreeFrom(fat, lo)
    decreases SCAN_LIMIT - lo
  {
    if lo >= SCAN_LIMIT {
    } else {
      FreeFromSame(fat, fat', lo + 1);
    }
  }

  // Taking the head of the free list leaves its tail.
  lemma {:induction false} FreeFromTail(fat: seq<u16>, fat': seq<u16>, lo: nat)
    requires SCAN_LIMIT <= |fat| == |fat'| && FreeFrom(fat, lo) != []
    requires forall c :: lo <= c < SCAN_LIMIT ==>
      (fat'[c] == 0 <==> fat[c] == 0 && c != FreeFrom(fat, lo)[0])
    ensures FreeFrom(fat', lo) == FreeFrom(fat, lo)[1..]
    decreases SCAN_LIMIT - lo
  {
    if fat[lo] == 0 {
      FreeFromSame(fat, fat', lo + 1);
    } else {
      FreeFromTail(fat, fat', lo + 1);
    }
  }
  // ----- Linking -----

  // Each new cluster is marked end-of-chain, then its predecessor is pointed at it.
  function Link(fat: seq<u16>, ch: seq<nat>): (r: seq<u16>)
    requires SCAN_LIMIT <= |fat| && Scanned(ch)
    ensures |r| == |fat|
  {
    if ch == [] then fat
    else
      var n := |ch| - 1;
      var marked := Link(fat, ch[..n])[ch[n] := END_OF_CHAIN];
      if n == 0 then marked else marked[ch[n - 1] := ch[n]]
  }

  // The linked table, entry by entry.
  lemma {:induction false} LinkMeaning(fat: seq<u16>, ch: seq<nat>)
    requires SCAN_LIMIT <= |fat| && Scanned(ch) && Increasing(ch)
    ensures forall i :: 0 <= i < |ch| ==>
      Link(fat, ch)[ch[i]] == (if i + 1 < |ch| then ch[i + 1] else END_OF_CHAIN)
    ensures forall c: nat :: c < |fat| && c !in ch ==> Link(fat, ch)[c] == fat[c]
  {
    if ch == [] {
    } else {
      var n := |ch| - 1;
      var before, after := Link(fat, ch[..n]), Link(fat, ch);
      LinkMeaning(fat, ch[..n]);
      forall i | 0 <= i < |ch| ensures after[ch[i]] == (if i + 1 < |ch| then ch[i + 1] else END_OF_CHAIN) {
        if i + 1 < n { assert ch[..n][i] == ch[i] && ch[..n][i + 1] == ch[i + 1]; }
      }
      forall c: nat | c < |fat| && c !in ch ensures after[c] == fat[c] {
        assert c !in ch[..n] && c != ch[n];
        assert n > 0 ==> ch[n - 1] in ch;
      }
    }
  }

  lemma {:induction false} LinkIsChain(fat: seq<u16>, limit: nat, ch: seq<nat>, k: nat)
    requires SCAN_LIMIT <= |fat| && limit <= |fat| && Scanned(ch) && Increasing(ch) && Below(ch, limit)
    requires k < |ch|
    ensures IsChain(Link(fat, ch), limit, ch[k], ch[k..])
    decreases |ch| - k
  {
    LinkMeaning(fat, ch);
    assert ch[k..][1..] == ch[k + 1..];
    if k + 1 == |ch| {
    } else {
      LinkIsChain(fat, limit, ch, k + 1);
    }
  }

  lemma LinkZeros(fat: seq<u16>, ch: seq<nat>)
    requires SCAN_LIMIT <= |fat| && Scanned(ch) && Increasing(ch)
    requires forall i :: 0 <= i < |ch| ==> fat[ch[i]] == 0
    ensures forall c: nat :: c < |fat| ==> (Link(fat, ch)[c] == 0 <==> fat[c] == 0 && c !in ch)
    ensures forall c: nat :: c < |fat| && c !in ch ==> Link(fat, ch)[c] == fat[c]
  {
    LinkMeaning(fat, ch);
  }

  lemma LinkEnds(fat: seq<u16>, ch: seq<nat>)
    requires SCAN_LIMIT <= |fat| && Scanned(ch) && Increasing(ch) && ch != []
    ensures Link(fat, ch)[ch[|ch| - 1]] == END_OF_CHAIN
  {
  }

  // The last link in takes its cluster out of the free ones, and no other.
  lemma LinkLastZero(fat: seq<u16>, ch: seq<nat>)
    requires SCAN_LIMIT <= |fat| && Scanned(ch) && Increasing(ch) && ch != []
    ensures var n := |ch| - 1;
      forall c: nat :: c < |fat| ==> (Link(fat, ch)[c] == 0 <==> Link(fat, ch[..n])[c] == 0 && c != ch[n])
  {
    var n := |ch| - 1;
    if n > 0 {
      LinkEnds(fat, ch[..n]);
      assert ch[..n][n - 1] == ch[n - 1];
    }
  }

  lemma PrefixOfPrefix(s: seq<nat>, n: nat)
    requires n < |s|
    ensures s[..n + 1][..n] == s[..n] && s[n..][0] == s[n] && s[n..][1..] == s[n + 1..]
  {
  }

  // After the `n` lowest free clusters are linked, the rest of the list is still free.
  lemma {:induction false} LinkLeavesRest(fat: seq<u16>, free: seq<nat>, n: nat)
    requires SCAN_LIMIT <= |fat| && free == FreeFrom(fat, 2) && n <= |free|
    requires Scanned(free) && Increasing(free) && Scanned(free[..n])
    requires forall i :: 0 <= i < |free| ==> fat[free[i]] == 0
    ensures FreeFrom(Link(fat, free[..n]), 2) == free[n..]
  {
    if n == 0 {
      assert free[..0] == [] && free[0..] == free;
    } else {
      LinkLeavesRest(fat, free, n - 1);
      PrefixOfPrefix(free, n - 1);
      LinkLastZero(fat, free[..n]);
      FreeFromTail(Link(fat, free[..n - 1]), Link(fat, free[..n]), 2);
    }
  }
  // ----- Filling -----

  // Byte string `data` cut to cluster-sized pieces, the last one padded with zeros.
  function Chunk(data: seq<byte>, i: nat, size: nat): seq<byte> {
    seq(size, k requires 0 <= k < size =>
      if 0 <= i * size + k < |data| then data[i * size + k] else 0)
  }

  function Fill(clusters: seq<seq<byte>>, ch: seq<nat>, data: seq<byte>, size: nat): (r: seq<seq<byte>>)
    requires Below(ch, |clusters|)
    ensures |r| == |clusters|
  {
    if ch == [] then clusters
    else
      var n := |ch| - 1;
      Fill(clusters, ch[..n], data, size)[ch[n] := Chunk(data, n, size)]
  }

  lemma {:induction false} FillMeaning(clusters: seq<seq<byte>>, ch: seq<nat>, data: seq<byte>, size: nat)
    requires Below(ch, |clusters|) && Increasing(ch)
    ensures forall i :: 0 <= i < |ch| ==> Fill(clusters, ch, data, size)[ch[i]] == Chunk(data, i, size)
    ensures forall c: nat :: c < |clusters| && c !in ch ==> Fill(clusters, ch, data, size)[c] == clusters[c]
  {
    if ch == [] {
    } else {
      var n := |ch| - 1;
      FillMeaning(clusters, ch[..n], data, size);
      assert ch == ch[..n] + [ch[n]];
    }
  }

  function Padded(data: seq<byte>, n: nat): seq<byte> {
    seq(n, k requires 0 <= k < n => if k < |data| then data[k] else 0)
  }

  lemma PaddedStep(data: seq<byte>, n: nat, size: nat)
    requires (n + 1) * size == n * size + size
    ensures Padded(data, n * size) + Chunk(data, n, size) == Padded(data, (n + 1) * size)
  {
    var a := Padded(data, n * size) + Chunk(data, n, size);
    assert |a| == (n + 1) * size;
  }

  // Reading a filled chain back gives the data followed by the padding.
  lemma {:induction false} FlatOfChunks(clusters: seq<seq<byte>>, ch: seq<nat>, data: seq<byte>, size: nat)
    requires Below(ch, |clusters|)
    requires forall i :: 0 <= i < |ch| ==> clusters[ch[i]] == Chunk(data, i, size)
    ensures Flat(clusters, ch) == Padded(data, |ch| * size)
  {
    if ch == [] {
    } else {
      var n := |ch| - 1;
      FlatOfChunks(clusters, ch[..n], data, size);
      assert (n + 1) * size == n * size + size;
      PaddedStep(data, n, size);
    }
  }

  lemma FilledReadsBack(clusters: seq<seq<byte>>, ch: seq<nat>, data: seq<byte>, size: nat)
    requires Below(ch, |clusters|) && Increasing(ch) && |data| <= |ch| * size
    ensures Take(Flat(Fill(clusters, ch, data, size), ch), |data|) == data
  {
    FillMeaning(clusters, ch, data, size);
    FlatOfChunks(Fill(clusters, ch, data, size), ch, data, size);
  }
  // ----- The whole call -----

  // The rounding up is done in 32-bit arithmetic.
  function ClustersNeeded(size: u32, clusterBytes: nat): (k: nat)
    requires clusterBytes > 0
    ensures k >= 1
  {
    var k := (size + clusterBytes - 1) % 0x1_0000_0000 / clusterBytes;
    if k == 0 then 1 else k
  }

  predicate Rounds(size: nat, clusterBytes: nat) { size + clusterBytes - 1 < 0x1_0000_0000 }

  lemma ClustersNeededCeil(size: u32, clusterBytes: nat)
    requires clusterBytes > 0 && Rounds(size, clusterBytes)
    ensures var k := ClustersNeeded(size, clusterBytes);
      size <= k * clusterBytes && (k > 1 ==> (k - 1) * clusterBytes < size)
  {
    var q := (size + clusterBytes - 1) / clusterBytes;
    assert (size + clusterBytes - 1) == q * clusterBytes + (size + clusterBytes - 1) % clusterBytes;
    assert (q - 1) * clusterBytes == q * clusterBytes - clusterBytes;
  }

  lemma ClustersNeededWraps(size: u32, clusterBytes: nat)
    requires 0 < clusterBytes <= 255 * 512 && !Rounds(size, clusterBytes)
    ensures ClustersNeeded(size, clusterBytes) == 1 && size > clusterBytes
  {
  }

  lemma MulAtMost(a: nat, b: nat, n: nat)
    requires a <= b
    ensures 0 <= a * n <= b * n
  {
    assert b * n - a * n == (b - a) * n;
  }

  // No byte offset the data loop computes wraps: piece `i` of the file, sector `k` of it.
  lemma OffsetsDoNotWrap(size: u32, clusterBytes: nat, i: nat, k: nat)
    requires 0 < clusterBytes <= 255 * 512 && i < ClustersNeeded(size, clusterBytes) && 512 * k < clusterBytes
    ensures i * clusterBytes + 512 * k < 0x1_0000_0000
  {
    if Rounds(size, clusterBytes) {
      ClustersNeededCeil(size, clusterBytes);
      var last := ClustersNeeded(size, clusterBytes) - 1;
      MulAtMost(i, last, clusterBytes);
      if i == 0 { assert i * clusterBytes == 0; }
    } else {
      ClustersNeededWraps(size, clusterBytes);
      MulAtMost(i, 0, clusterBytes);
    }
  }

  // The clusters a write of `size` bytes takes: the lowest free ones, as many as are
  // needed or, on a full volume, all there are.
  function Taken(fat: seq<u16>, size: u32, clusterBytes: nat): (ch: seq<nat>)
    requires SCAN_LIMIT <= |fat| && clusterBytes > 0
    ensures Scanned(ch) && Increasing(ch)
    ensures forall i :: 0 <= i < |ch| ==> fat[ch[i]] == 0
  {
    FreeFromMeaning(fat, 2);
    Take(FreeFrom(fat, 2), ClustersNeeded(size, clusterBytes))
  }

  // The clusters a write would take exist on the disk.
  ghost predicate Fits(v: Volume, name: Name, size: u32)
    requires Shape(v)
  {
    Below(Taken(Delete(v, name).0.fat, size, v.clusterBytes), |v.clusters|)
  }

  // Allocation and data, before any directory slot is written.
  function Stored(v: Volume, data: seq<byte>): Volume
    requires Shape(v) && |data| < 0x1_0000_0000
    requires Below(Taken(v.fat, |data|, v.clusterBytes), |v.clusters|)
  {
    var ch := Taken(v.fat, |data|, v.clusterBytes);
    v.(fat := Link(v.fat, ch), clusters := Fill(v.clusters, ch, data, v.clusterBytes))
  }

  predicate EnoughFree(v: Volume, size: u32)
    requires Shape(v)
  {
    ClustersNeeded(size, v.clusterBytes) <= |FreeFrom(v.fat, 2)|
  }

  ghost function WithSlot(v: Volume, j: nat, s: Slot): Volume
    requires j < |v.dir|
  {
    v.(dir := v.dir[j := s])
  }

  // The part of a write that follows the delete.
  ghost function Create(v: Volume, name: Name, data: seq<byte>): (Volume, int)
    requires Shape(v) && |data| < 0x1_0000_0000
    requires Below(Taken(v.fat, |data|, v.clusterBytes), |v.clusters|)
  {
    var stored := Stored(v, data);
    var j := FindFree(v.dir, 0);
    if !EnoughFree(v, |data|) || j < 0 || j >= |v.dir| then (stored, -1)
    else (WithSlot(stored, j, MakeSlot(name, Taken(v.fat, |data|, v.clusterBytes)[0], |data|)), 0)
  }

  ghost function Write(v: Volume, name: Name, data: seq<byte>): (Volume, int)
    requires Shape(v) && |data| < 0x1_0000_0000 && Fits(v, name, |data|)
  {
    Create(Delete(v, name).0, name, data)
  }

  lemma StoredShape(v: Volume, data: seq<byte>)
    requires Shape(v) && |data| < 0x1_0000_0000
    requires Below(Taken(v.fat, |data|, v.clusterBytes), |v.clusters|)
    ensures Shape(Stored(v, data))
  {
    var ch := Taken(v.fat, |data|, v.clusterBytes);
    var filled := Fill(v.clusters, ch, data, v.clusterBytes);
    FillMeaning(v.clusters, ch, data, v.clusterBytes);
    forall c | 2 <= c < |filled| ensures |filled[c]| == v.clusterBytes {
      if c in ch {
        var i :| 0 <= i < |ch| && ch[i] == c;
      }
    }
  }

  // Only free clusters are touched, so every live file keeps its chain ...
  lemma StoredKeepsChains(v: Volume, chs: seq<seq<nat>>, data: seq<byte>)
    requires WellFormedWith(v, chs) && |data| < 0x1_0000_0000
    requires Below(Taken(v.fat, |data|, v.clusterBytes), |v.clusters|)
    ensures WellFormedWith(Stored(v, data), chs)
  {
    var v' := Stored(v, data);
    StoredShape(v, data);
    LinkZeros(v.fat, Taken(v.fat, |data|, v.clusterBytes));
    forall i | 0 <= i < |v.dir| && Live(v.dir[i]) ensures SlotOk(v', i, chs[i]) {
      assert SlotOk(v, i, chs[i]);
      ChainInRange(v.fat, |v.clusters|, SlotFirst(v.dir[i]), chs[i]);
      ChainFrame(v.fat, v'.fat, |v.clusters|, SlotFirst(v.dir[i]), chs[i]);
    }
  }

  // ... and its bytes.
  lemma StoredKeepsFiles(v: Volume, chs: seq<seq<nat>>, data: seq<byte>)
    requires WellFormedWith(v, chs) && |data| < 0x1_0000_0000
    requires Below(Taken(v.fat, |data|, v.clusterBytes), |v.clusters|)
    ensures WellFormedWith(Stored(v, data), chs)
    ensures Files(Stored(v, data)) == Files(v)
  {
    var v' := Stored(v, data);
    StoredKeepsChains(v, chs, data);
    FillMeaning(v.clusters, Taken(v.fat, |data|, v.clusterBytes), data, v.clusterBytes);
    forall i | 0 <= i < |v.dir| && Live(v.dir[i])
      ensures SlotName(v.dir[i]) in Files(v) && Below(chs[i], |v.clusters|)
      ensures Files(v)[SlotName(v.dir[i])] == Take(Flat(v'.clusters, chs[i]), SlotSize(v.dir[i]))
    {
      FileAt(v, chs, i);
      ChainInRange(v.fat, |v.clusters|, SlotFirst(v.dir[i]), chs[i]);
      FlatFrame(v.clusters, v'.clusters, chs[i]);
    }
    FilesAre(v', chs, Files(v));
  }
  // ----- The new directory slot -----

  // `j` is the first slot that can be reused.
  ghost predicate FirstFree(dir: seq<Slot>, j: nat) {
    j < |dir| && !Live(dir[j]) && forall i :: 0 <= i < j ==> Live(dir[i])
  }

  lemma AddSlotWellFormed(v: Volume, chs: seq<seq<nat>>, j: nat, s: Slot, ch: seq<nat>)
    requires WellFormedWith(v, chs) && FirstFree(v.dir, j) && s[0] != 0
    requires Live(s) ==>
      && IsChain(v.fat, |v.clusters|, SlotFirst(s), ch)
      && SlotSize(s) <= |ch| * v.clusterBytes
      && SlotName(s) !in Names(v.dir)
      && forall i :: 0 <= i < |v.dir| && Live(v.dir[i]) ==> Disjoint(ch, chs[i]) && Disjoint(chs[i], ch)
    ensures WellFormedWith(WithSlot(v, j, s), chs[j := ch])
  {
    var v', chs' := WithSlot(v, j, s), chs[j := ch];
    forall i | 0 <= i < |v'.dir| && Live(v'.dir[i]) ensures SlotOk(v', i, chs'[i]) {
      if i != j { assert SlotOk(v, i, chs[i]); }
    }
    forall i | 0 <= i < |v.dir| && Live(v.dir[i]) ensures SlotName(v.dir[i]) in Names(v.dir) { }
  }

  lemma AddName(dir: seq<Slot>, j: nat, s: Slot)
    requires j < |dir| && !Live(dir[j]) && Live(s)
    ensures Names(dir[j := s]) == Names(dir) + {SlotName(s)}
  {
    forall n | n in Names(dir) + {SlotName(s)} ensures n in Names(dir[j := s]) {
      if n == SlotName(s) {
        assert dir[j := s][j] == s;
      } else {
        var i :| 0 <= i < |dir| && Live(dir[i]) && SlotName(dir[i]) == n;
        assert dir[j := s][i] == dir[i];
      }
    }
  }

  lemma AddSlotFiles(v: Volume, chs: seq<seq<nat>>, j: nat, s: Slot, ch: seq<nat>)
    requires WellFormedWith(v, chs) && FirstFree(v.dir, j) && Live(s)
    requires WellFormedWith(WithSlot(v, j, s), chs[j := ch]) && Below(ch, |v.clusters|)
    ensures Files(WithSlot(v, j, s)) == Files(v)[SlotName(s) := Take(Flat(v.clusters, ch), SlotSize(s))]
  {
    var v', chs' := WithSlot(v, j, s), chs[j := ch];
    var m := Files(v)[SlotName(s) := Take(Flat(v.clusters, ch), SlotSize(s))];
    forall i | 0 <= i < |v'.dir| && Live(v'.dir[i])
      ensures SlotName(v'.dir[i]) in m && Below(chs'[i], |v.clusters|)
      ensures m[SlotName(v'.dir[i])] == Take(Flat(v.clusters, chs'[i]), SlotSize(v'.dir[i]))
    {
      if i != j {
        FileAt(v, chs, i);
        assert SlotName(v'.dir[i]) != SlotName(v'.dir[j]);
      }
    }
    AddName(v.dir, j, s);
    FilesAre(v', chs', m);
  }

  // A slot that is not live leaves the names, and so the file map, alone.
  lemma AddDeadSlotFiles(v: Volume, chs: seq<seq<nat>>, j: nat, s: Slot, ch: seq<nat>)
    requires WellFormedWith(v, chs) && FirstFree(v.dir, j) && !Live(s)
    requires WellFormedWith(WithSlot(v, j, s), chs[j := ch])
    ensures Files(WithSlot(v, j, s)) == Files(v)
  {
    var v', chs' := WithSlot(v, j, s), chs[j := ch];
    forall i | 0 <= i < |v'.dir| && Live(v'.dir[i])
      ensures SlotName(v'.dir[i]) in Files(v) && Below(chs'[i], |v.clusters|)
      ensures Files(v)[SlotName(v'.dir[i])] == Take(Flat(v.clusters, chs'[i]), SlotSize(v'.dir[i]))
    {
      FileAt(v, chs, i);
    }
    forall n | n in Names(v.dir) ensures n in Names(v'.dir) {
      var i :| 0 <= i < |v.dir| && Live(v.dir[i]) && SlotName(v.dir[i]) == n;
      assert v'.dir[i] == v.dir[i];
    }
    assert Names(v'.dir) == Names(v.dir);
    FilesAre(v', chs', Files(v));
  }
}
