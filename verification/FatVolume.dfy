/** A FAT16 volume above the sector level: one file allocation table, the root
    directory as 32-byte slots, and the data area as clusters of bytes.  The
    functions here say what each driver call does to a volume; the sector-level
    driver (module FatDriver) is proved to do exactly that. */
module FatVolume {
  import opened Bytes

  const END_OF_CHAIN: u16 := 0xFFFF
  const SCAN_LIMIT := 2048   // the allocator scans clusters 2 .. SCAN_LIMIT - 1
  const DELETED := 0xE5
  const ARCHIVE := 0x20

  type Slot = s: seq<byte> | |s| == 32 witness seq(32, _ => 0)
  type Name = s: seq<byte> | |s| == 11 && s[0] != 0 witness seq(11, _ => 32)

  // `clusters[c]` is the data of cluster `c`; entries 0 and 1 are unused.
  datatype Volume = Volume(clusterBytes: nat, fat: seq<u16>, dir: seq<Slot>, clusters: seq<seq<byte>>)

  predicate Shape(v: Volume) {
    && 0 < v.clusterBytes <= 255 * 512
    && SCAN_LIMIT <= |v.fat|
    && 2 <= |v.clusters| <= |v.fat| && |v.clusters| <= 0xFFF8
    && forall c :: 2 <= c < |v.clusters| ==> |v.clusters[c]| == v.clusterBytes
  }
  // ----- Directory slots -----

  function SlotName(s: Slot): seq<byte> { s[..11] }
  function SlotAttr(s: Slot): byte { s[11] }
  function SlotFirst(s: Slot): u16 { Le16(s[26], s[27]) }
  function SlotSize(s: Slot): u32 { Le32(s[28], s[29], s[30], s[31]) }

  predicate Live(s: Slot) { s[0] != 0 && s[0] != DELETED }

  function MakeSlot(name: Name, first: u16, size: u32): (s: Slot)
    ensures SlotName(s) == name && SlotAttr(s) == ARCHIVE
    ensures SlotFirst(s) == first && SlotSize(s) == size
    ensures s[12..26] == seq(14, _ => 0)
  {
    Le32RoundTrip(size);
    name + [ARCHIVE] + seq(14, _ => 0) + ToLe16(first) + ToLe32(size)
  }

  // No slot is used after the first 0x00 slot.
  predicate Tidy(dir: seq<Slot>) {
    forall i, j :: 0 <= i < j < |dir| && dir[i][0] == 0 ==> !Live(dir[j])
  }

  // The scan for a name: stops at 0x00, skips deleted slots.
  function Find(dir: seq<Slot>, name: seq<byte>, from: nat): int
    requires from <= |dir|
    decreases |dir| - from
  {
    if from == |dir| || dir[from][0] == 0 then -1
    else if dir[from][0] != DELETED && SlotName(dir[from]) == name then from
    else Find(dir, name, from + 1)
  }

  // The scan for a slot that can be (re)used.
  function FindFree(dir: seq<Slot>, from: nat): int
    requires from <= |dir|
    decreases |dir| - from
  {
    if from == |dir| then -1
    else if !Live(dir[from]) then from
    else FindFree(dir, from + 1)
  }

  // The first live slot of that name, -1 exactly when a tidy directory has none.
  lemma {:induction false} FindMeaning(dir: seq<Slot>, name: seq<byte>, from: nat)
    requires from <= |dir| && Tidy(dir)
    ensures var i := Find(dir, name, from);
      && (i != -1 ==> from <= i < |dir| && Live(dir[i]) && SlotName(dir[i]) == name)
      && (forall j :: from <= j < (if i == -1 then |dir| else i) && Live(dir[j]) ==> SlotName(dir[j]) != name)
    decreases |dir| - from
  {
    if from == |dir| || dir[from][0] == 0 || (Live(dir[from]) && SlotName(dir[from]) == name) {
    } else {
      FindMeaning(dir, name, from + 1);
    }
  }

  lemma FindFreeMeaning(dir: seq<Slot>, from: nat)
    requires from <= |dir|
    ensures var i := FindFree(dir, from);
      && (i != -1 ==> from <= i < |dir| && !Live(dir[i]))
      && (forall j :: from <= j < (if i == -1 then |dir| else i) ==> Live(dir[j]))
    decreases |dir| - from
  {
  }
  // ----- Cluster chains -----

  // The test both chain walks use to go on.
  predicate IsLink(c: int) { 2 <= c < 0xFFF8 }

  // `ch` is the finite chain that starts at `c`: in range, allocated, terminated.
  ghost predicate IsChain(fat: seq<u16>, limit: nat, c: u16, ch: seq<nat>)
    requires limit <= |fat|
    decreases |ch|
  {
    if ch == [] then !IsLink(c)
    else c == ch[0] && IsLink(c) && c < limit && fat[c] != 0 && IsChain(fat, limit, fat[c], ch[1..])
  }

  lemma {:induction false} ChainUnique(fat: seq<u16>, limit: nat, c: u16, ch: seq<nat>, ch': seq<nat>)
    requires limit <= |fat| && IsChain(fat, limit, c, ch) && IsChain(fat, limit, c, ch')
    ensures ch == ch'
    decreases |ch|
  {
    if ch == [] || ch' == [] {
    } else {
      ChainUnique(fat, limit, fat[c], ch[1..], ch'[1..]);
      assert ch == [c] + ch[1..] && ch' == [c] + ch'[1..];
    }
  }

  lemma {:induction false} ChainInRange(fat: seq<u16>, limit: nat, c: u16, ch: seq<nat>)
    requires limit <= |fat| && IsChain(fat, limit, c, ch)
    ensures forall i :: 0 <= i < |ch| ==> 2 <= ch[i] < limit && ch[i] < 0xFFF8 && fat[ch[i]] != 0
    decreases |ch|
  {
    if ch == [] {
    } else {
      ChainInRange(fat, limit, fat[c], ch[1..]);
      assert ch == [c] + ch[1..];
    }
  }

  lemma {:induction false} ChainSuffix(fat: seq<u16>, limit: nat, c: u16, ch: seq<nat>, k: nat)
    requires limit <= |fat| && IsChain(fat, limit, c, ch) && k < |ch|
    ensures ch[k] < 0x1_0000 && IsChain(fat, limit, ch[k], ch[k..])
    decreases k
  {
    if k == 0 {
      assert ch[0..] == ch;
    } else {
      ChainSuffix(fat, limit, fat[c], ch[1..], k - 1);
      assert ch[1..][k - 1..] == ch[k..];
    }
  }

  // A terminated chain visits no cluster twice.
  lemma ChainAcyclic(fat: seq<u16>, limit: nat, c: u16, ch: seq<nat>)
    requires limit <= |fat| && IsChain(fat, limit, c, ch)
    ensures forall i, j :: 0 <= i < j < |ch| ==> ch[i] != ch[j]
  {
    forall i, j | 0 <= i < j < |ch| ensures ch[i] != ch[j] {
      ChainSuffix(fat, limit, c, ch, i);
      ChainSuffix(fat, limit, c, ch, j);
      if ch[i] == ch[j] {
        ChainUnique(fat, limit, ch[i], ch[i..], ch[j..]);
      }
    }
  }

  // A chain depends only on the table entries it visits.
  lemma {:induction false} ChainFrame(fat: seq<u16>, fat': seq<u16>, limit: nat, c: u16, ch: seq<nat>)
    requires limit <= |fat| == |fat'| && IsChain(fat, limit, c, ch)
    requires forall i :: 0 <= i < |ch| && ch[i] < |fat| ==> fat'[ch[i]] == fat[ch[i]]
    ensures IsChain(fat', limit, c, ch)
    decreases |ch|
  {
    if ch == [] {
    } else {
      ChainFrame(fat, fat', limit, fat[c], ch[1..]);
    }
  }

  ghost function ChainOf(fat: seq<u16>, limit: nat, c: u16): seq<nat>
    requires limit <= |fat|
  {
    if exists ch: seq<nat> :: IsChain(fat, limit, c, ch)
    then var ch: seq<nat> :| IsChain(fat, limit, c, ch); ch
    else []
  }

  lemma ChainOfIs(fat: seq<u16>, limit: nat, c: u16, ch: seq<nat>)
    requires limit <= |fat| && IsChain(fat, limit, c, ch)
    ensures ChainOf(fat, limit, c) == ch
  {
    ChainUnique(fat, limit, c, ch, ChainOf(fat, limit, c));
  }
  // ----- File contents -----

  predicate Below(ch: seq<nat>, n: nat) { forall i :: 0 <= i < |ch| ==> ch[i] < n }

  function Flat(clusters: seq<seq<byte>>, ch: seq<nat>): seq<byte>
    requires Below(ch, |clusters|)
  {
    if ch == [] then [] else Flat(clusters, ch[..|ch| - 1]) + clusters[ch[|ch| - 1]]
  }

  lemma {:induction false} FlatCons(clusters: seq<seq<byte>>, ch: seq<nat>)
    requires ch != [] && Below(ch, |clusters|)
    ensures Flat(clusters, ch) == clusters[ch[0]] + Flat(clusters, ch[1..])
  {
    var n := |ch| - 1;
    if n == 0 {
      assert ch[..0] == [] && ch[1..] == [];
    } else {
      FlatCons(clusters, ch[..n]);
      assert ch[..n][1..] == ch[1..][..n - 1] && ch[..n][0] == ch[0] && ch[1..][n - 1] == ch[n];
      assert Flat(clusters, ch[1..]) == Flat(clusters, ch[1..][..n - 1]) + clusters[ch[n]];
      assert Flat(clusters, ch) == Flat(clusters, ch[..n]) + clusters[ch[n]];
    }
  }

  lemma {:induction false} FlatLength(clusters: seq<seq<byte>>, ch: seq<nat>, size: nat)
    requires Below(ch, |clusters|) && forall i :: 0 <= i < |ch| ==> |clusters[ch[i]]| == size
    ensures |Flat(clusters, ch)| == |ch| * size
  {
    if ch == [] {
    } else {
      var n := |ch| - 1;
      FlatLength(clusters, ch[..n], size);
      assert (n + 1) * size == n * size + size;
    }
  }

  lemma {:induction false} FlatFrame(clusters: seq<seq<byte>>, clusters': seq<seq<byte>>, ch: seq<nat>)
    requires Below(ch, |clusters|) && |clusters'| == |clusters|
    requires forall i :: 0 <= i < |ch| ==> clusters'[ch[i]] == clusters[ch[i]]
    ensures Flat(clusters', ch) == Flat(clusters, ch)
  {
    if ch == [] {
    } else {
      FlatFrame(clusters, clusters', ch[..|ch| - 1]);
    }
  }
  // ----- Well-formed volumes and the files they hold -----

  ghost predicate Disjoint(a: seq<nat>, b: seq<nat>) {
    forall i, j :: 0 <= i < |a| && 0 <= j < |b| ==> a[i] != b[j]
  }

  ghost predicate SlotOk(v: Volume, i: nat, ch: seq<nat>)
    requires Shape(v) && i < |v.dir|
  {
    && IsChain(v.fat, |v.clusters|, SlotFirst(v.dir[i]), ch)
    && SlotSize(v.dir[i]) <= |ch| * v.clusterBytes
  }

  // `chs[i]` is the cluster chain of slot `i`.
  ghost predicate WellFormedWith(v: Volume, chs: seq<seq<nat>>) {
    && Shape(v)
    && |chs| == |v.dir|
    && Tidy(v.dir)
    && (forall i :: 0 <= i < |v.dir| && Live(v.dir[i]) ==> SlotOk(v, i, chs[i]))
    && (forall i, j :: 0 <= i < j < |v.dir| && Live(v.dir[i]) && Live(v.dir[j]) ==>
          SlotName(v.dir[i]) != SlotName(v.dir[j]) && Disjoint(chs[i], chs[j]))
  }

  ghost predicate WellFormed(v: Volume) {
    exists chs :: WellFormedWith(v, chs)
  }

  // The bytes of the file whose slot is `s`.
  ghost function Content(v: Volume, s: Slot): seq<byte>
    requires Shape(v)
  {
    var ch := ChainOf(v.fat, |v.clusters|, SlotFirst(s));
    if Below(ch, |v.clusters|) then Take(Flat(v.clusters, ch), SlotSize(s)) else []
  }

  ghost function Names(dir: seq<Slot>): set<seq<byte>> {
    set i | 0 <= i < |dir| && Live(dir[i]) :: SlotName(dir[i])
  }

  // What the volume means: a map from 11-byte names to byte strings.
  ghost function Files(v: Volume): map<seq<byte>, seq<byte>>
    requires Shape(v)
  {
    map n | n in Names(v.dir) ::
      var i := Find(v.dir, n, 0);
      if 0 <= i < |v.dir| then Content(v, v.dir[i]) else []
  }

  // A live slot's name leads back to that slot, and its content is read off its chain.
  lemma FileAt(v: Volume, chs: seq<seq<nat>>, i: nat)
    requires WellFormedWith(v, chs) && i < |v.dir| && Live(v.dir[i])
    ensures Find(v.dir, SlotName(v.dir[i]), 0) == i
    ensures SlotName(v.dir[i]) in Files(v)
    ensures Below(chs[i], |v.clusters|)
    ensures |Flat(v.clusters, chs[i])| == |chs[i]| * v.clusterBytes
    ensures Files(v)[SlotName(v.dir[i])] == Flat(v.clusters, chs[i])[..SlotSize(v.dir[i])]
  {
    var n := SlotName(v.dir[i]);
    FindMeaning(v.dir, n, 0);
    assert n in Names(v.dir);
    ChainOfIs(v.fat, |v.clusters|, SlotFirst(v.dir[i]), chs[i]);
    ChainInRange(v.fat, |v.clusters|, SlotFirst(v.dir[i]), chs[i]);
    FlatLength(v.clusters, chs[i], v.clusterBytes);
  }

  // The scan finds exactly the names of the file map.
  lemma FindIsLookup(v: Volume, name: seq<byte>)
    requires Shape(v) && Tidy(v.dir)
    ensures Find(v.dir, name, 0) != -1 <==> name in Files(v)
  {
    FindMeaning(v.dir, name, 0);
  }

  // A map that gives every live slot's name that slot's bytes, and nothing more, is the file map.
  lemma FilesAre(v: Volume, chs: seq<seq<nat>>, m: map<seq<byte>, seq<byte>>)
    requires WellFormedWith(v, chs)
    requires m.Keys == Names(v.dir)
    requires forall i :: 0 <= i < |v.dir| && Live(v.dir[i]) ==>
      && SlotName(v.dir[i]) in m && Below(chs[i], |v.clusters|)
      && m[SlotName(v.dir[i])] == Take(Flat(v.clusters, chs[i]), SlotSize(v.dir[i]))
    ensures Files(v) == m
  {
    var files := Files(v);
    assert files.Keys == Names(v.dir);
    forall i | 0 <= i < |v.dir| && Live(v.dir[i]) ensures files[SlotName(v.dir[i])] == m[SlotName(v.dir[i])] {
      FileAt(v, chs, i);
    }
    forall n | n in m ensures files[n] == m[n] {
      var i :| 0 <= i < |v.dir| && Live(v.dir[i]) && SlotName(v.dir[i]) == n;
    }
  }
}
