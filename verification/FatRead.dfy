/** fat16_read_file on volumes: the bytes a chain walk visits, on any table. */
module FatRead {
  import opened Bytes
  import opened FatVolume

  // The walk from `c` for at most `k` bytes.  A cyclic table is no obstacle: `k` shrinks.
  function WalkBytes(v: Volume, c: u16, k: nat): (r: seq<byte>)
    requires Shape(v)
    ensures |r| <= k
    decreases k
  {
    if k == 0 || !IsLink(c) || c >= |v.clusters| then []
    else
      var here := Take(v.clusters[c], k);
      here + WalkBytes(v, v.fat[c], k - |here|)
  }

  // The walk is the first cluster's share and then the walk from its successor.
  lemma WalkCons(v: Volume, c: u16, k: nat)
    requires Shape(v) && IsLink(c) && c < |v.clusters|
    ensures var here := Take(v.clusters[c], k);
      WalkBytes(v, c, k) == here + WalkBytes(v, v.fat[c], k - |here|)
  {
  }

  lemma LessByOne(n: nat, size: nat)
    requires n > 0
    ensures n * size == (n - 1) * size + size
  {
  }

  lemma TakeJoins(a: seq<byte>, b: seq<byte>, cluster: seq<byte>, s: seq<byte>, t: seq<byte>, k: nat)
    requires a == Take(cluster, k) + s && b == cluster + t && s == Take(t, k - |Take(cluster, k)|)
    ensures a == Take(b, k)
  {
  }

  // Along a terminated chain that is long enough, the walk reads the chain's data.
  lemma {:induction false} WalkReadsChain(v: Volume, c: u16, ch: seq<nat>, k: nat)
    requires Shape(v) && IsChain(v.fat, |v.clusters|, c, ch) && k <= |ch| * v.clusterBytes
    requires Below(ch, |v.clusters|)
    ensures WalkBytes(v, c, k) == Take(Flat(v.clusters, ch), k)
    decreases |ch|
  {
    if ch == [] || k == 0 {
      assert WalkBytes(v, c, k) == [];
    } else {
      var cluster, here := v.clusters[c], |Take(v.clusters[c], k)|;
      LessByOne(|ch|, v.clusterBytes);
      WalkReadsChain(v, v.fat[c], ch[1..], k - here);
      WalkCons(v, c, k);
      FlatCons(v.clusters, ch);
      TakeJoins(WalkBytes(v, c, k), Flat(v.clusters, ch), cluster, WalkBytes(v, v.fat[c], k - here), Flat(v.clusters, ch[1..]), k);
    }
  }

  // What reading `name` walks over on a well-formed volume is that name's bytes.
  lemma WalkReadsFile(v: Volume, chs: seq<seq<nat>>, i: nat)
    requires WellFormedWith(v, chs) && i < |v.dir| && Live(v.dir[i])
    ensures SlotName(v.dir[i]) in Files(v)
    ensures WalkBytes(v, SlotFirst(v.dir[i]), SlotSize(v.dir[i])) == Files(v)[SlotName(v.dir[i])]
    ensures |Files(v)[SlotName(v.dir[i])]| == SlotSize(v.dir[i])
  {
    FileAt(v, chs, i);
    assert SlotOk(v, i, chs[i]);
    WalkReadsChain(v, SlotFirst(v.dir[i]), chs[i], SlotSize(v.dir[i]));
  }

  // `a` and `b` begin with the first `n` and the first `k` bytes of `cluster`.
  lemma PrefixJoins(a: seq<byte>, b: seq<byte>, cluster: seq<byte>, s: seq<byte>, t: seq<byte>, k: nat, n: nat)
    requires n <= k && a == Take(cluster, n) + s && b == Take(cluster, k) + t
    requires s == Take(t, n - |Take(cluster, n)|)
    ensures a == Take(b, n)
  {
  }

  // How much of a cluster is left over for its successor.
  lemma Leftover(cluster: seq<byte>, k: nat, n: nat)
    requires n <= k
    ensures var left := n - |Take(cluster, n)|;
      left >= 0 && (left > 0 ==> |Take(cluster, n)| == |Take(cluster, k)| == |cluster|)
  {
  }

  lemma WalkNothing(v: Volume, c: u16, k: nat, n: nat)
    requires Shape(v) && (n == 0 || !IsLink(c) || c >= |v.clusters|)
    ensures WalkBytes(v, c, n) == Take(WalkBytes(v, c, k), n)
  {
  }

  // A walk cut short is a prefix of the full walk.
  lemma {:induction false} WalkPrefix(v: Volume, c: u16, k: nat, n: nat)
    requires Shape(v) && n <= k
    ensures WalkBytes(v, c, n) == Take(WalkBytes(v, c, k), n)
    decreases k
  {
    if n == 0 || !IsLink(c) || c >= |v.clusters| {
      WalkNothing(v, c, k, n);
    } else {
      var here, cut := |Take(v.clusters[c], k)|, |Take(v.clusters[c], n)|;
      var s, t := WalkBytes(v, v.fat[c], n - cut), WalkBytes(v, v.fat[c], k - here);
      Leftover(v.clusters[c], k, n);
      if n > cut {
        WalkPrefix(v, v.fat[c], k - here, n - cut);
      } else {
        WalkNothing(v, v.fat[c], k - here, 0);
      }
      WalkCons(v, c, k);
      WalkCons(v, c, n);
      PrefixJoins(WalkBytes(v, c, n), WalkBytes(v, c, k), v.clusters[c], s, t, k, n);
    }
  }

  // One sector's share of the first `m` bytes of a cluster.
  lemma TakeStep(data: seq<byte>, k: nat, m: nat)
    requires 512 * k + 512 <= |data|
    ensures var t := Take(data[..512 * k], m);
      Take(data[..512 * k + 512], m) == t + data[512 * k..512 * k + 512][..Min(512, m - |t|)]
  {
  }

  // One cluster's step of the walk, seen from the string being accumulated.
  lemma WalkStep(v: Volume, w: seq<byte>, c: u16, done: nat, m: nat)
    requires Shape(v) && done <= |w| && done <= m && 2 <= c < |v.clusters|
    requires w[done..] == WalkBytes(v, c, m - done)
    ensures var next := done + |Take(v.clusters[c], m - done)|;
      && next <= |w| && next <= m
      && w[..next] == w[..done] + Take(v.clusters[c], m - done)
      && w[next..] == WalkBytes(v, v.fat[c], m - next)
  {
    var here := Take(v.clusters[c], m - done);
    var next := done + |here|;
    if m > done {
      assert WalkBytes(v, c, m - done) == here + WalkBytes(v, v.fat[c], m - next);
      assert w == w[..done] + w[done..];
      assert w == w[..done] + here + WalkBytes(v, v.fat[c], m - next);
    } else {
      assert w[next..] == w[done..] == [];
    }
  }

  lemma OverAppend(a: seq<byte>, at: nat, t: seq<byte>, u: seq<byte>)
    requires at + |t| + |u| <= |a|
    ensures Over(Over(a, at, t), at + |t|, u) == Over(a, at, t + u)
  {
  }

  // `now` is `before` with the first `bytes` bytes of the walk `w` at its start; the rest of
  // `w` is what the walk from `c` reads.
  ghost predicate WalkedSoFar(v: Volume, c: u16, m: nat, bytes: nat, w: seq<byte>, before: seq<byte>, now: seq<byte>)
    requires Shape(v)
  {
    && bytes <= m && bytes <= |w| <= |before|
    && now == Over(before, 0, w[..bytes])
    && w[bytes..] == WalkBytes(v, c, m - bytes)
  }

  lemma WalkedNothing(v: Volume, c: u16, m: nat, before: seq<byte>)
    requires Shape(v) && m <= |before|
    ensures WalkedSoFar(v, c, m, 0, WalkBytes(v, c, m), before, before)
  {
    assert before == Over(before, 0, WalkBytes(v, c, m)[..0]);
  }

  lemma WalkedStep(v: Volume, c: u16, m: nat, bytes: nat, w: seq<byte>, before: seq<byte>, now: seq<byte>)
    requires Shape(v) && 2 <= c < |v.clusters| && WalkedSoFar(v, c, m, bytes, w, before, now)
    ensures var here := Take(v.clusters[c], m - bytes);
      && bytes + |here| <= |now|
      && WalkedSoFar(v, v.fat[c], m, bytes + |here|, w, before, Over(now, bytes, here))
  {
    WalkStep(v, w, c, bytes, m);
    OverAppend(before, 0, w[..bytes], Take(v.clusters[c], m - bytes));
  }

  // Nothing is left once the walk meets no link or has read enough.
  lemma WalkedAll(v: Volume, c: u16, m: nat, bytes: nat, w: seq<byte>, before: seq<byte>, now: seq<byte>)
    requires Shape(v) && WalkedSoFar(v, c, m, bytes, w, before, now) && (!IsLink(c) || bytes >= m)
    ensures bytes == |w| && now == Over(before, 0, w)
  {
    assert w[..|w|] == w;
  }

  // `now` is `before` with the first `k` sectors of `data`, cut to `m` bytes, copied to
  // `done`; the copy ends at `end`.
  ghost predicate Copied(before: seq<byte>, now: seq<byte>, data: seq<byte>, k: nat, done: nat, m: nat, end: nat) {
    && done + m <= |before| && 512 * k <= |data|
    && end == done + |Take(data[..512 * k], m)|
    && now == Over(before, done, Take(data[..512 * k], m))
  }

  lemma CopiedNone(before: seq<byte>, data: seq<byte>, done: nat, m: nat)
    requires done + m <= |before|
    ensures Copied(before, before, data, 0, done, m, done)
  {
    assert Take(data[..0], m) == [];
  }

  lemma CopiedAll(before: seq<byte>, now: seq<byte>, data: seq<byte>, k: nat, done: nat, m: nat, end: nat)
    requires Copied(before, now, data, k, done, m, end) && (512 * k == |data| || end == done + m)
    ensures end == done + |Take(data, m)| && now == Over(before, done, Take(data, m))
  {
    assert Take(data[..512 * k], m) == Take(data, m);
  }

  // One sector copied after the ones before it.
  lemma PieceStep(before: seq<byte>, now: seq<byte>, data: seq<byte>, k: nat, done: nat, m: nat, end: nat)
    requires 512 * k + 512 <= |data| && Copied(before, now, data, k, done, m, end)
    ensures var n := Min(512, done + m - end);
      && n >= 0 && end + n <= |now|
      && Copied(before, Over(now, end, data[512 * k..512 * k + 512][..n]), data, k + 1, done, m, end + n)
  {
    TakeStep(data, k, m);
    OverAppend(before, done, Take(data[..512 * k], m), data[512 * k..512 * k + 512][..Min(512, done + m - end)]);
  }
  // ----- When the read loop stops -----

  // After at most `n` links the walk from `c` has met an entry that is no link, and it
  // has stayed on the disk.
  ghost predicate Ends(v: Volume, c: u16, n: nat)
    requires Shape(v)
    decreases n
  {
    IsLink(c) ==> n > 0 && c < |v.clusters| && Ends(v, v.fat[c], n - 1)
  }

  ghost predicate LinksOnDisk(v: Volume)
    requires Shape(v)
  {
    forall c :: 2 <= c < |v.clusters| && IsLink(v.fat[c]) ==> v.fat[c] < |v.clusters|
  }

  ghost predicate StaysOnDisk(v: Volume, c: u16)
    requires Shape(v)
  {
    LinksOnDisk(v) && (IsLink(c) ==> c < |v.clusters|)
  }

  // The conditions under which the read loop stops without leaving the disk: the walk
  // ends, or the buffer holds the whole file and every link stays on the disk.
  ghost predicate Readable(v: Volume, first: u16, size: nat, bufSize: nat)
    requires Shape(v)
  {
    || (exists n: nat :: Ends(v, first, n))
    || (size <= bufSize && StaysOnDisk(v, first))
  }

  ghost predicate ReadTerminates(v: Volume, name: seq<byte>, bufSize: nat)
    requires Shape(v)
  {
    var k := Find(v.dir, name, 0);
    0 <= k < |v.dir| ==> Readable(v, SlotFirst(v.dir[k]), SlotSize(v.dir[k]), bufSize)
  }

  lemma {:induction false} ChainEnds(v: Volume, c: u16, ch: seq<nat>)
    requires Shape(v) && IsChain(v.fat, |v.clusters|, c, ch)
    ensures Ends(v, c, |ch|)
    decreases |ch|
  {
    if ch == [] {
    } else {
      ChainEnds(v, v.fat[c], ch[1..]);
    }
  }

  // What keeps the read loop on the disk, `left` bounding the links still to follow if
  // the walk ends.
  ghost predicate WalkOnDisk(v: Volume, c: u16, left: nat, ends: bool, whole: bool)
    requires Shape(v)
  {
    if ends then Ends(v, c, left) else whole && StaysOnDisk(v, c)
  }

  // The state of the loop: the next cluster and the bytes copied so far.
  datatype ReadLoop = ReadLoop(cluster: u16, bytes: nat)

  predicate GoesOn(s: ReadLoop, size: nat) { IsLink(s.cluster) && s.bytes < size }

  // One cluster copied, as far as the file and the buffer go.
  function Iterated(v: Volume, s: ReadLoop, size: nat, bufSize: nat): (r: ReadLoop)
    requires Shape(v) && s.bytes <= Min(size, bufSize) && IsLink(s.cluster) && s.cluster < |v.clusters|
    ensures s.bytes <= r.bytes <= Min(size, bufSize)
    ensures s.bytes < Min(size, bufSize) ==> s.bytes < r.bytes
  {
    ReadLoop(v.fat[s.cluster], s.bytes + |Take(v.clusters[s.cluster], Min(size, bufSize) - s.bytes)|)
  }

  // The loop after `n` iterations, or where it stopped before.
  function LoopAfter(v: Volume, s: ReadLoop, size: nat, bufSize: nat, n: nat): (r: ReadLoop)
    requires Shape(v) && s.bytes <= Min(size, bufSize)
    ensures r.bytes <= Min(size, bufSize)
    decreases n
  {
    if n == 0 || !GoesOn(s, size) || s.cluster >= |v.clusters| then s
    else LoopAfter(v, Iterated(v, s, size, bufSize), size, bufSize, n - 1)
  }

  // A buffer that holds the file: every iteration copies something.
  lemma {:induction false} WholeFileStops(v: Volume, s: ReadLoop, size: nat, bufSize: nat, n: nat)
    requires Shape(v) && StaysOnDisk(v, s.cluster) && s.bytes <= size <= bufSize && n >= size - s.bytes
    ensures !GoesOn(LoopAfter(v, s, size, bufSize, n), size)
    decreases n
  {
    if n == 0 || !GoesOn(s, size) {
    } else {
      WholeFileStops(v, Iterated(v, s, size, bufSize), size, bufSize, n - 1);
    }
  }

  lemma {:induction false} EndedWalkStops(v: Volume, s: ReadLoop, size: nat, bufSize: nat, n: nat)
    requires Shape(v) && s.bytes <= Min(size, bufSize) && Ends(v, s.cluster, n)
    ensures !GoesOn(LoopAfter(v, s, size, bufSize, n), size)
    decreases n
  {
    if n == 0 || !GoesOn(s, size) {
    } else {
      EndedWalkStops(v, Iterated(v, s, size, bufSize), size, bufSize, n - 1);
    }
  }

  // A buffer smaller than the file: the byte count never reaches the size, so only the
  // end of the walk stops the loop.
  lemma {:induction false} StoppedWalkEnds(v: Volume, s: ReadLoop, size: nat, bufSize: nat, n: nat)
    requires Shape(v) && StaysOnDisk(v, s.cluster) && s.bytes <= bufSize < size
    requires !GoesOn(LoopAfter(v, s, size, bufSize, n), size)
    ensures Ends(v, s.cluster, n)
    decreases n
  {
    if n == 0 || !GoesOn(s, size) {
    } else {
      StoppedWalkEnds(v, Iterated(v, s, size, bufSize), size, bufSize, n - 1);
    }
  }

  lemma WalkLength(v: Volume, c: u16, k: nat)
    requires Shape(v) && IsLink(c) && c < |v.clusters|
    ensures var here := |Take(v.clusters[c], k)|;
      |WalkBytes(v, c, k)| == here + |WalkBytes(v, v.fat[c], k - here)|
  {
    WalkCons(v, c, k);
  }

  // What the walk still has to read from a state of the loop.
  function Due(v: Volume, s: ReadLoop, size: nat, bufSize: nat): nat
    requires Shape(v) && s.bytes <= Min(size, bufSize)
  {
    |WalkBytes(v, s.cluster, Min(size, bufSize) - s.bytes)|
  }

  lemma DueStep(v: Volume, s: ReadLoop, size: nat, bufSize: nat)
    requires Shape(v) && s.bytes <= Min(size, bufSize) && IsLink(s.cluster) && s.cluster < |v.clusters|
    ensures var t := Iterated(v, s, size, bufSize);
      t.bytes + Due(v, t, size, bufSize) == s.bytes + Due(v, s, size, bufSize)
  {
    WalkLength(v, s.cluster, Min(size, bufSize) - s.bytes);
  }

  lemma NothingDue(v: Volume, s: ReadLoop, size: nat, bufSize: nat)
    requires Shape(v) && s.bytes <= Min(size, bufSize) && !GoesOn(s, size)
    ensures Due(v, s, size, bufSize) == 0
  {
  }

  // Where the loop has stopped, it has copied what the walk reads.
  lemma {:induction false} StoppedLoopHasRead(v: Volume, s: ReadLoop, size: nat, bufSize: nat, n: nat)
    requires Shape(v) && StaysOnDisk(v, s.cluster) && s.bytes <= Min(size, bufSize)
    requires !GoesOn(LoopAfter(v, s, size, bufSize, n), size)
    ensures LoopAfter(v, s, size, bufSize, n).bytes == s.bytes + Due(v, s, size, bufSize)
    decreases n
  {
    if !GoesOn(s, size) {
      NothingDue(v, s, size, bufSize);
    } else {
      DueStep(v, s, size, bufSize);
      StoppedLoopHasRead(v, Iterated(v, s, size, bufSize), size, bufSize, n - 1);
    }
  }

  // For links that stay on the disk, the loop ever stops exactly when the buffer holds
  // the whole file or the walk ends: otherwise it goes round for ever.
  lemma ReadStopsIff(v: Volume, first: u16, size: nat, bufSize: nat)
    requires Shape(v) && StaysOnDisk(v, first)
    ensures (exists n: nat :: !GoesOn(LoopAfter(v, ReadLoop(first, 0), size, bufSize, n), size))
      <==> Readable(v, first, size, bufSize)
  {
    var s := ReadLoop(first, 0);
    if size <= bufSize {
      WholeFileStops(v, s, size, bufSize, size);
    } else if n: nat :| Ends(v, first, n) {
      EndedWalkStops(v, s, size, bufSize, n);
    } else {
      forall n: nat | !GoesOn(LoopAfter(v, s, size, bufSize, n), size) ensures Ends(v, first, n) {
        StoppedWalkEnds(v, s, size, bufSize, n);
      }
    }
  }

  // The return value of a read and the bytes it leaves at the start of the buffer.
  function Read(v: Volume, name: seq<byte>, bufSize: nat): (int, seq<byte>)
    requires Shape(v) && bufSize < 0x1_0000_0000
  {
    var k := Find(v.dir, name, 0);
    if k < 0 || k >= |v.dir| then (-1, [])
    else
      var w := WalkBytes(v, SlotFirst(v.dir[k]), Min(SlotSize(v.dir[k]), bufSize));
      (AsInt32(|w|), w)
  }

  lemma ReadBytes(v: Volume, chs: seq<seq<nat>>, name: seq<byte>, bufSize: nat)
    requires WellFormedWith(v, chs) && bufSize < 0x1_0000_0000 && name in Files(v)
    ensures |Files(v)[name]| < 0x1_0000_0000
    ensures Read(v, name, bufSize).1 == Files(v)[name][..Min(|Files(v)[name]|, bufSize)]
    ensures Read(v, name, bufSize).0 == AsInt32(|Read(v, name, bufSize).1|)
  {
    FindIsLookup(v, name);
    FindMeaning(v.dir, name, 0);
    var k := Find(v.dir, name, 0);
    WalkReadsFile(v, chs, k);
    WalkPrefix(v, SlotFirst(v.dir[k]), SlotSize(v.dir[k]), Min(SlotSize(v.dir[k]), bufSize));
  }

  // Reading a well-formed volume returns the file's bytes cut to the buffer and their
  // number as a signed 32-bit integer, which is negative exactly from 2^31 bytes on; -1
  // with nothing copied when there is no such file.
  lemma ReadMeansFile(v: Volume, chs: seq<seq<nat>>, name: seq<byte>, bufSize: nat)
    requires WellFormedWith(v, chs) && bufSize < 0x1_0000_0000
    ensures name in Files(v) ==>
      var n := Min(|Files(v)[name]|, bufSize);
      && Read(v, name, bufSize) == (if n < 0x8000_0000 then n else n - 0x1_0000_0000, Files(v)[name][..n])
      && (Read(v, name, bufSize).0 < 0 <==> 0x8000_0000 <= n)
    ensures name !in Files(v) ==> Read(v, name, bufSize) == (-1, [])
  {
    if name in Files(v) {
      ReadBytes(v, chs, name, bufSize);
    } else {
      FindIsLookup(v, name);
    }
  }
}
