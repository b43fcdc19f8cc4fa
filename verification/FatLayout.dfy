/** How a volume lies on a disk of 512-byte sectors: mirrored tables, then the root
    directory, then the data area.  Each lemma says what one sector write changes. */
module FatLayout {
  import opened Bytes
  import opened FatVolume

  type Sector = s: seq<byte> | |s| == 512 witness seq(512, _ => 0)

  // The layout values fat16_init caches.
  datatype Geometry = Geometry(fatStart: nat, fatSize: nat, numFats: nat, rootSectors: nat, sectorsPerCluster: nat) {
    function RootStart(): nat { fatStart + numFats * fatSize }
    function DataStart(): nat { RootStart() + rootSectors }
  }

  // The fields of the boot sector that fat16_init uses.
  function BootGeometry(s: Sector): Geometry {
    Geometry(Le16(s[14], s[15]), Le16(s[22], s[23]), s[16], (Le16(s[17], s[18]) * 32 + 511) / 512, s[13])
  }

  // Where each layout value stands in the boot sector.
  lemma BootBytes(s: Sector)
    ensures var g := BootGeometry(s);
      && g.fatStart == s[14] as int + 0x100 * (s[15] as int)
      && g.fatSize == s[22] as int + 0x100 * (s[23] as int)
      && g.numFats == s[16] && g.sectorsPerCluster == s[13]
      && 16 * g.rootSectors - 16 < s[17] as int + 0x100 * (s[18] as int) <= 16 * g.rootSectors
    ensures Le16(s[11], s[12]) == 512 <==> s[11] == 0 && s[12] == 2
  {
  }

  // cluster_to_lba, plus the sector within the cluster.
  function DataLba(g: Geometry, c: nat, k: nat): int { g.DataStart() + (c - 2) * g.sectorsPerCluster + k }

  function FatLba(g: Geometry, f: nat, k: nat): nat { g.fatStart + f * g.fatSize + k }

  // How many cluster numbers have both a table entry and sectors on a disk of `n` sectors.
  function ClusterLimit(g: Geometry, n: nat): nat
    requires g.sectorsPerCluster > 0 && g.DataStart() <= n
  {
    Min(Min(g.fatSize * 256, 0xFFF8), 2 + (n - g.DataStart()) / g.sectorsPerCluster)
  }

  // What the driver takes for granted about the boot sector and the disk.
  predicate GeometryOk(g: Geometry, n: nat) {
    && 1 <= g.sectorsPerCluster <= 255 && 1 <= g.numFats <= 255
    && SCAN_LIMIT <= g.fatSize * 256 && g.fatSize < 0x1_0000
    && g.DataStart() <= n
  }
  // ----- Arithmetic of the layout -----

  lemma MulStep(a: nat, b: nat, n: nat)
    requires a < b
    ensures a * n + n <= b * n
  {
    assert b * n == a * n + (b - a) * n;
    assert (b - a) * n == n + (b - a - 1) * n;
  }

  lemma MulNonNegative(a: nat, b: nat)
    ensures a * b >= 0
  {
  }

  // `m` clusters fit into `room` sectors exactly when the quotient says so.
  lemma ClustersFitIff(room: nat, size: nat, m: nat)
    requires size > 0
    ensures m <= room / size <==> m * size <= room
  {
    var q := room / size;
    assert room == q * size + room % size;
    if q < m { MulStep(q, m, size); }
    if m < q { MulStep(m, q, size); }
  }

  lemma FatLbaRange(g: Geometry, f: nat, k: nat)
    requires f < g.numFats && k < g.fatSize
    ensures g.fatStart <= FatLba(g, f, k) < g.RootStart()
  {
    MulStep(f, g.numFats, g.fatSize);
  }

  lemma FatLbaInjective(g: Geometry, f: nat, k: nat, f': nat, k': nat)
    requires k < g.fatSize && k' < g.fatSize && FatLba(g, f, k) == FatLba(g, f', k')
    ensures f == f' && k == k'
  {
    if f < f' { MulStep(f, f', g.fatSize); }
    if f' < f { MulStep(f', f, g.fatSize); }
  }

  lemma DataLbaRange(g: Geometry, n: nat, c: nat, k: nat)
    requires GeometryOk(g, n) && 2 <= c < ClusterLimit(g, n) && k < g.sectorsPerCluster
    ensures g.DataStart() <= DataLba(g, c, k) < n
  {
    ClustersFitIff(n - g.DataStart(), g.sectorsPerCluster, c - 1);
    MulStep(c - 2, c - 1, g.sectorsPerCluster);
    MulNonNegative(c - 2, g.sectorsPerCluster);
  }

  lemma DataLbaInjective(g: Geometry, c: nat, k: nat, c': nat, k': nat)
    requires 2 <= c && 2 <= c' && k < g.sectorsPerCluster && k' < g.sectorsPerCluster
    requires DataLba(g, c, k) == DataLba(g, c', k')
    ensures c == c' && k == k'
  {
    if c < c' { MulStep(c - 2, c' - 2, g.sectorsPerCluster); }
    if c' < c { MulStep(c' - 2, c - 2, g.sectorsPerCluster); }
  }

  // The allocator's fixed scan range is backed by the disk exactly when the disk is this large.
  lemma ScanStaysOnDiskIff(g: Geometry, n: nat)
    requires GeometryOk(g, n)
    ensures SCAN_LIMIT <= ClusterLimit(g, n) <==> g.DataStart() + (SCAN_LIMIT - 2) * g.sectorsPerCluster <= n
  {
    ClustersFitIff(n - g.DataStart(), g.sectorsPerCluster, SCAN_LIMIT - 2);
  }

  // The image the build script formats: clusters 2001..2047 pass the scan but lie past its end.
  const SHIPPED := Geometry(1, 8, 2, 32, 1)
  const SHIPPED_SECTORS := 2048

  lemma ShippedImageIsShort()
    ensures GeometryOk(SHIPPED, SHIPPED_SECTORS) && ClusterLimit(SHIPPED, SHIPPED_SECTORS) == 2001 < SCAN_LIMIT
    ensures DataLba(SHIPPED, 2001, 0) == SHIPPED_SECTORS
  {
  }
  // ----- Reading the three regions -----

  function SectorAt(ss: seq<Sector>, lba: int): Sector {
    if 0 <= lba < |ss| then ss[lba] else seq(512, _ => 0)
  }

  function Entry(s: Sector, e: nat): u16
    requires e < 256
  {
    Le16(s[2 * e], s[2 * e + 1])
  }

  function SlotAt(s: Sector, e: nat): Slot
    requires e < 16
  {
    s[32 * e..32 * e + 32]
  }

  // Table entry `c` in FAT copy `f`.
  function Cell(g: Geometry, ss: seq<Sector>, f: nat, c: nat): u16 {
    Entry(SectorAt(ss, FatLba(g, f, c / 256)), c % 256)
  }

  ghost predicate CopyRep(g: Geometry, ss: seq<Sector>, f: nat, fat: seq<u16>) {
    |fat| == g.fatSize * 256 && forall c {:trigger Cell(g, ss, f, c)} :: 0 <= c < |fat| ==> Cell(g, ss, f, c) == fat[c]
  }

  // All copies of the table are equal to `fat`.
  ghost predicate FatRep(g: Geometry, ss: seq<Sector>, fat: seq<u16>) {
    forall f :: 0 <= f < g.numFats ==> CopyRep(g, ss, f, fat)
  }

  function DirCell(g: Geometry, ss: seq<Sector>, i: nat): Slot {
    SlotAt(SectorAt(ss, g.RootStart() + i / 16), i % 16)
  }

  ghost predicate DirRep(g: Geometry, ss: seq<Sector>, dir: seq<Slot>) {
    |dir| == g.rootSectors * 16 && forall i {:trigger DirCell(g, ss, i)} :: 0 <= i < |dir| ==> DirCell(g, ss, i) == dir[i]
  }

  function Piece(cluster: seq<byte>, k: nat): seq<byte>
    requires 512 * k + 512 <= |cluster|
  {
    cluster[512 * k..512 * k + 512]
  }

  ghost predicate ClusterRep(g: Geometry, ss: seq<Sector>, c: nat, cluster: seq<byte>) {
    |cluster| == 512 * g.sectorsPerCluster &&
    forall k {:trigger DataLba(g, c, k)} :: 0 <= k < g.sectorsPerCluster ==> SectorAt(ss, DataLba(g, c, k)) == Piece(cluster, k)
  }

  ghost predicate DataRep(g: Geometry, ss: seq<Sector>, clusters: seq<seq<byte>>) {
    && 2 <= |clusters| && clusters[0] == [] && clusters[1] == []
    && forall c {:trigger ClusterRep(g, ss, c, clusters[c])} :: 2 <= c < |clusters| ==> ClusterRep(g, ss, c, clusters[c])
  }

  // The disk `ss` holds volume `v`.
  ghost predicate Represents(g: Geometry, ss: seq<Sector>, v: Volume) {
    && GeometryOk(g, |ss|)
    && v.clusterBytes == 512 * g.sectorsPerCluster
    && |v.clusters| == ClusterLimit(g, |ss|)
    && CopyRep(g, ss, 0, v.fat)
    && FatRep(g, ss, v.fat) && DirRep(g, ss, v.dir) && DataRep(g, ss, v.clusters)
  }

  lemma RepresentsShape(g: Geometry, ss: seq<Sector>, v: Volume)
    requires Represents(g, ss, v)
    ensures Shape(v)
  {
    forall c | 2 <= c < |v.clusters| ensures |v.clusters[c]| == v.clusterBytes {
      assert ClusterRep(g, ss, c, v.clusters[c]);
    }
  }
  // ----- What one sector write changes -----

  function Put(ss: seq<Sector>, lba: nat, s: Sector): seq<Sector>
    requires lba < |ss|
  {
    ss[lba := s]
  }

  // Where the last cluster on a disk of `n` sectors ends.
  function DataEnd(g: Geometry, n: nat): int {
    if GeometryOk(g, n) then g.DataStart() + (ClusterLimit(g, n) - 2) * g.sectorsPerCluster else n
  }

  // The sectors that belong to no table, directory or cluster.
  function Outside(g: Geometry, ss: seq<Sector>): (seq<Sector>, seq<Sector>) {
    var end := DataEnd(g, |ss|);
    (Take(ss, g.fatStart), if 0 <= end <= |ss| then ss[end..] else [])
  }

  lemma ReservedKept(g: Geometry, ss: seq<Sector>, lba: nat, s: Sector)
    requires g.fatStart <= lba < |ss| && lba < DataEnd(g, |ss|)
    ensures Outside(g, Put(ss, lba, s)) == Outside(g, ss)
  {
  }

  lemma BeforeData(g: Geometry, n: nat)
    requires GeometryOk(g, n)
    ensures g.DataStart() <= DataEnd(g, n) <= n
  {
    MulNonNegative(ClusterLimit(g, n) - 2, g.sectorsPerCluster);
    ClustersFitIff(n - g.DataStart(), g.sectorsPerCluster, ClusterLimit(g, n) - 2);
  }

  lemma OutsideFat(g: Geometry, ss: seq<Sector>, lba: nat, s: Sector, f: nat, fat: seq<u16>)
    requires g.RootStart() <= lba < |ss| && f < g.numFats && CopyRep(g, ss, f, fat)
    ensures CopyRep(g, Put(ss, lba, s), f, fat)
  {
    forall c | 0 <= c < |fat| ensures Cell(g, Put(ss, lba, s), f, c) == fat[c] {
      FatLbaRange(g, f, c / 256);
      assert Cell(g, ss, f, c) == fat[c];
    }
  }

  lemma OutsideDir(g: Geometry, ss: seq<Sector>, lba: nat, s: Sector, dir: seq<Slot>)
    requires lba < |ss| && (lba < g.RootStart() || g.DataStart() <= lba) && DirRep(g, ss, dir)
    ensures DirRep(g, Put(ss, lba, s), dir)
  {
    forall i | 0 <= i < |dir| ensures DirCell(g, Put(ss, lba, s), i) == dir[i] {
      assert DirCell(g, ss, i) == dir[i];
    }
  }

  lemma OutsideData(g: Geometry, ss: seq<Sector>, lba: nat, s: Sector, clusters: seq<seq<byte>>)
    requires lba < |ss| && lba < g.DataStart() && DataRep(g, ss, clusters)
    ensures DataRep(g, Put(ss, lba, s), clusters)
  {
    forall c | 2 <= c < |clusters| ensures ClusterRep(g, Put(ss, lba, s), c, clusters[c]) {
      assert ClusterRep(g, ss, c, clusters[c]);
      forall k | 0 <= k < g.sectorsPerCluster
        ensures SectorAt(Put(ss, lba, s), DataLba(g, c, k)) == Piece(clusters[c], k)
      {
        assert (c - 2) * g.sectorsPerCluster >= 0;
      }
    }
  }

  // Writing one entry of copy `f`.
  lemma WriteCell(g: Geometry, ss: seq<Sector>, f: nat, c: nat, s: Sector, fat: seq<u16>, w: u16)
    requires f < g.numFats && g.RootStart() <= |ss| && CopyRep(g, ss, f, fat) && c < |fat|
    requires FatLba(g, f, c / 256) < |ss|
    requires Entry(s, c % 256) == w
    requires forall e :: 0 <= e < 256 && e != c % 256 ==>
      Entry(s, e) == Entry(SectorAt(ss, FatLba(g, f, c / 256)), e)
    ensures CopyRep(g, Put(ss, FatLba(g, f, c / 256), s), f, fat[c := w])
  {
    var lba := FatLba(g, f, c / 256);
    var ss' := Put(ss, lba, s);
    forall d | 0 <= d < |fat| ensures Cell(g, ss', f, d) == fat[c := w][d] {
      assert Cell(g, ss, f, d) == fat[d];
      if d / 256 != c / 256 {
        assert FatLba(g, f, d / 256) != lba;
      } else if d != c {
        assert d % 256 != c % 256;
      }
    }
  }

  lemma WriteOtherCopy(g: Geometry, ss: seq<Sector>, f: nat, k: nat, s: Sector, f': nat, fat: seq<u16>)
    requires f != f' && k < g.fatSize && FatLba(g, f, k) < |ss| && CopyRep(g, ss, f', fat)
    ensures CopyRep(g, Put(ss, FatLba(g, f, k), s), f', fat)
  {
    var ss' := Put(ss, FatLba(g, f, k), s);
    forall d | 0 <= d < |fat| ensures Cell(g, ss', f', d) == fat[d] {
      assert Cell(g, ss, f', d) == fat[d];
      if FatLba(g, f', d / 256) == FatLba(g, f, k) {
        FatLbaInjective(g, f', d / 256, f, k);
      }
    }
  }

  // Writing one slot of the directory.
  lemma WriteSlot(g: Geometry, ss: seq<Sector>, i: nat, s: Sector, dir: seq<Slot>, slot: Slot)
    requires DirRep(g, ss, dir) && i < |dir| && g.DataStart() <= |ss|
    requires SlotAt(s, i % 16) == slot
    requires forall e :: 0 <= e < 16 && e != i % 16 ==>
      SlotAt(s, e) == SlotAt(SectorAt(ss, g.RootStart() + i / 16), e)
    ensures DirRep(g, Put(ss, g.RootStart() + i / 16, s), dir[i := slot])
  {
    var ss' := Put(ss, g.RootStart() + i / 16, s);
    forall j | 0 <= j < |dir| ensures DirCell(g, ss', j) == dir[i := slot][j] {
      assert DirCell(g, ss, j) == dir[j];
      if j / 16 == i / 16 && j != i {
        assert j % 16 != i % 16;
      }
    }
  }

  lemma PieceOver(cluster: seq<byte>, k: nat, s: Sector, j: nat)
    requires 512 * k + 512 <= |cluster| && 512 * j + 512 <= |cluster|
    ensures Piece(Over(cluster, 512 * k, s), j) == if j == k then s else Piece(cluster, j)
  {
  }

  // Writing sector `k` of cluster `c`.
  lemma WriteData(g: Geometry, ss: seq<Sector>, c: nat, k: nat, s: Sector, clusters: seq<seq<byte>>)
    requires DataRep(g, ss, clusters) && 2 <= c < |clusters| && k < g.sectorsPerCluster
    requires g.DataStart() <= DataLba(g, c, k) < |ss|
    ensures |clusters[c]| == 512 * g.sectorsPerCluster
    ensures DataRep(g, Put(ss, DataLba(g, c, k), s), clusters[c := Over(clusters[c], 512 * k, s)])
  {
    var ss' := Put(ss, DataLba(g, c, k), s);
    assert ClusterRep(g, ss, c, clusters[c]);
    var clusters' := clusters[c := Over(clusters[c], 512 * k, s)];
    forall d | 2 <= d < |clusters| ensures ClusterRep(g, ss', d, clusters'[d]) {
      assert ClusterRep(g, ss, d, clusters[d]);
      forall j | 0 <= j < g.sectorsPerCluster
        ensures SectorAt(ss', DataLba(g, d, j)) == Piece(clusters'[d], j)
      {
        if DataLba(g, d, j) == DataLba(g, c, k) {
          DataLbaInjective(g, d, j, c, k);
        }
        if d == c { PieceOver(clusters[c], k, s, j); }
      }
    }
  }

  // The slots determine the bytes of a directory sector.
  lemma DirSectorSame(g: Geometry, ss: seq<Sector>, ss': seq<Sector>, dir: seq<Slot>, s: nat)
    requires s < g.rootSectors && g.DataStart() <= |ss| && g.DataStart() <= |ss'|
    requires DirRep(g, ss, dir) && DirRep(g, ss', dir)
    ensures ss[g.RootStart() + s] == ss'[g.RootStart() + s]
  {
    var a, a' := ss[g.RootStart() + s], ss'[g.RootStart() + s];
    forall b | 0 <= b < 512 ensures a[b] == a'[b] {
      var i := 16 * s + b / 32;
      assert i / 16 == s && i % 16 == b / 32;
      assert DirCell(g, ss, i) == dir[i] == DirCell(g, ss', i);
      assert DirCell(g, ss, i)[b % 32] == a[b] && DirCell(g, ss', i)[b % 32] == a'[b];
    }
  }

  lemma SlotsOfEdited(s: Sector, e: nat, slot: Slot)
    requires e < 16
    ensures SlotAt(Over(s, 32 * e, slot), e) == slot
    ensures forall d :: 0 <= d < 16 && d != e ==> SlotAt(Over(s, 32 * e, slot), d) == SlotAt(s, d)
  {
  }

  // A directory sector written back with only slot `i` edited.
  lemma PutSlot(g: Geometry, ss: seq<Sector>, v: Volume, i: nat, slot: Slot)
    requires Represents(g, ss, v) && i < |v.dir|
    ensures g.fatStart <= g.RootStart() + i / 16 < |ss| && g.RootStart() + i / 16 < DataEnd(g, |ss|)
    ensures var lba := g.RootStart() + i / 16;
      Represents(g, Put(ss, lba, Over(ss[lba], 32 * (i % 16), slot)), v.(dir := v.dir[i := slot]))
  {
    BeforeData(g, |ss|);
    MulNonNegative(g.numFats, g.fatSize);
    var lba := g.RootStart() + i / 16;
    var s := Over(ss[lba], 32 * (i % 16), slot);
    SlotsOfEdited(ss[lba], i % 16, slot);
    WriteSlot(g, ss, i, s, v.dir, slot);
    forall f | 0 <= f < g.numFats ensures CopyRep(g, Put(ss, lba, s), f, v.fat) {
      OutsideFat(g, ss, lba, s, f, v.fat);
    }
    OutsideData(g, ss, lba, s, v.clusters);
  }

  // A data sector written: sector `k` of cluster `c`.
  lemma PutData(g: Geometry, ss: seq<Sector>, v: Volume, c: nat, k: nat, s: Sector)
    requires Represents(g, ss, v) && 2 <= c < |v.clusters| && k < g.sectorsPerCluster
    ensures |v.clusters[c]| == 512 * g.sectorsPerCluster
    ensures g.fatStart <= DataLba(g, c, k) < |ss| && DataLba(g, c, k) < DataEnd(g, |ss|)
    ensures Represents(g, Put(ss, DataLba(g, c, k), s),
                       v.(clusters := v.clusters[c := Over(v.clusters[c], 512 * k, s)]))
  {
    MulNonNegative(g.numFats, g.fatSize);
    var lba := DataLba(g, c, k);
    DataLbaRange(g, |ss|, c, k);
    MulStep(c - 2, ClusterLimit(g, |ss|) - 2, g.sectorsPerCluster);
    WriteData(g, ss, c, k, s, v.clusters);
    forall f | 0 <= f < g.numFats ensures CopyRep(g, Put(ss, lba, s), f, v.fat) {
      OutsideFat(g, ss, lba, s, f, v.fat);
    }
    OutsideDir(g, ss, lba, s, v.dir);
  }
  // ----- Which disks hold a volume, and which one -----

  // All copies of the table have the same entries.
  ghost predicate Mirrored(g: Geometry, ss: seq<Sector>) {
    forall f, c :: 0 <= f < g.numFats && 0 <= c < g.fatSize * 256 ==> Cell(g, ss, f, c) == Cell(g, ss, 0, c)
  }

  function ClusterAt(g: Geometry, ss: seq<Sector>, c: nat): seq<byte> {
    seq(512 * g.sectorsPerCluster, b requires 0 <= b => SectorAt(ss, DataLba(g, c, b / 512))[b % 512])
  }

  function View(g: Geometry, ss: seq<Sector>): Volume
    requires GeometryOk(g, |ss|)
  {
    Volume(512 * g.sectorsPerCluster,
           seq(g.fatSize * 256, c requires 0 <= c => Cell(g, ss, 0, c)),
           seq(g.rootSectors * 16, i requires 0 <= i => DirCell(g, ss, i)),
           seq(ClusterLimit(g, |ss|), c requires 0 <= c => if c < 2 then [] else ClusterAt(g, ss, c)))
  }

  lemma ByteOfPiece(cluster: seq<byte>, k: nat, b: nat)
    requires 512 * k + 512 <= |cluster| && b < 512
    ensures Piece(cluster, k)[b] == cluster[512 * k + b] && (512 * k + b) / 512 == k && (512 * k + b) % 512 == b
  {
  }

  lemma ClusterAtOnly(g: Geometry, ss: seq<Sector>, c: nat, cluster: seq<byte>)
    requires ClusterRep(g, ss, c, cluster)
    ensures cluster == ClusterAt(g, ss, c)
  {
    var there := ClusterAt(g, ss, c);
    forall b | 0 <= b < |cluster| ensures cluster[b] == there[b] {
      assert SectorAt(ss, DataLba(g, c, b / 512)) == Piece(cluster, b / 512);
      ByteOfPiece(cluster, b / 512, b % 512);
    }
  }

  lemma ClusterAtHolds(g: Geometry, ss: seq<Sector>, c: nat)
    ensures ClusterRep(g, ss, c, ClusterAt(g, ss, c))
  {
    var there := ClusterAt(g, ss, c);
    forall k | 0 <= k < g.sectorsPerCluster ensures SectorAt(ss, DataLba(g, c, k)) == Piece(there, k) {
      var s := SectorAt(ss, DataLba(g, c, k));
      forall b | 0 <= b < 512 ensures s[b] == Piece(there, k)[b] { ByteOfPiece(there, k, b); }
    }
  }

  lemma ClusterAtIs(g: Geometry, ss: seq<Sector>, c: nat, cluster: seq<byte>)
    ensures ClusterRep(g, ss, c, cluster) <==> cluster == ClusterAt(g, ss, c)
  {
    ClusterAtHolds(g, ss, c);
    if ClusterRep(g, ss, c, cluster) { ClusterAtOnly(g, ss, c, cluster); }
  }

  lemma RepresentedIsView(g: Geometry, ss: seq<Sector>, v: Volume)
    requires Represents(g, ss, v)
    ensures Mirrored(g, ss) && v == View(g, ss)
  {
    var w := View(g, ss);
    forall f, c | 0 <= f < g.numFats && 0 <= c < g.fatSize * 256 ensures Cell(g, ss, f, c) == Cell(g, ss, 0, c) {
      assert CopyRep(g, ss, f, v.fat);
    }
    forall c | 0 <= c < |v.fat| ensures v.fat[c] == w.fat[c] {
      assert Cell(g, ss, 0, c) == v.fat[c];
    }
    forall i | 0 <= i < |v.dir| ensures v.dir[i] == w.dir[i] {
      assert DirCell(g, ss, i) == v.dir[i];
    }
    forall c | 0 <= c < |v.clusters| ensures v.clusters[c] == w.clusters[c] {
      if c >= 2 {
        assert ClusterRep(g, ss, c, v.clusters[c]);
        ClusterAtIs(g, ss, c, v.clusters[c]);
      }
    }
    assert v.fat == w.fat && v.dir == w.dir && v.clusters == w.clusters;
  }

  // A disk with a usable geometry and equal table copies holds exactly one volume.
  lemma RepresentsIffView(g: Geometry, ss: seq<Sector>, v: Volume)
    requires GeometryOk(g, |ss|)
    ensures Represents(g, ss, v) <==> Mirrored(g, ss) && v == View(g, ss)
  {
    if Represents(g, ss, v) {
      RepresentedIsView(g, ss, v);
    }
    if Mirrored(g, ss) && v == View(g, ss) {
      forall f | 0 <= f < g.numFats ensures CopyRep(g, ss, f, v.fat) {
        forall c | 0 <= c < |v.fat| ensures Cell(g, ss, f, c) == v.fat[c] { }
      }
      forall c | 2 <= c < |v.clusters| ensures ClusterRep(g, ss, c, v.clusters[c]) {
        ClusterAtIs(g, ss, c, v.clusters[c]);
      }
      assert DirRep(g, ss, v.dir);
    }
  }

  // The entries determine the bytes of every table sector, in every copy.
  lemma FatSectorsSame(g: Geometry, ss: seq<Sector>, ss': seq<Sector>, f: nat, fat: seq<u16>, k: nat)
    requires f < g.numFats && k < g.fatSize && g.RootStart() <= |ss| && g.RootStart() <= |ss'|
    requires CopyRep(g, ss, f, fat) && CopyRep(g, ss', f, fat)
    ensures FatLba(g, f, k) < |ss| && FatLba(g, f, k) < |ss'|
    ensures ss[FatLba(g, f, k)] == ss'[FatLba(g, f, k)]
  {
    FatLbaRange(g, f, k);
    var a, a' := ss[FatLba(g, f, k)], ss'[FatLba(g, f, k)];
    forall b | 0 <= b < 512 ensures a[b] == a'[b] {
      var e := b / 2;
      var c := 256 * k + e;
      assert c / 256 == k && c % 256 == e;
      assert Cell(g, ss, f, c) == fat[c] == Cell(g, ss', f, c);
      assert Entry(a, e) == Entry(a', e);
      assert a[2 * e] == a'[2 * e] && a[2 * e + 1] == a'[2 * e + 1];
    }
  }

  lemma TableLba(g: Geometry, lba: nat) returns (f: nat, k: nat)
    requires g.fatSize > 0 && g.fatStart <= lba < g.RootStart()
    ensures f < g.numFats && k < g.fatSize && lba == FatLba(g, f, k)
  {
    var off := lba - g.fatStart;
    f, k := off / g.fatSize, off % g.fatSize;
    assert off == f * g.fatSize + k;
    if g.numFats < f { MulStep(g.numFats, f, g.fatSize); }
  }

  // Two disks whose volumes have the same table agree on every sector of every copy.
  lemma SameTableSameSectors(g: Geometry, ss: seq<Sector>, v: Volume, ss': seq<Sector>, v': Volume)
    requires Represents(g, ss, v) && Represents(g, ss', v') && v.fat == v'.fat
    ensures forall lba :: g.fatStart <= lba < g.RootStart() ==> SectorAt(ss, lba) == SectorAt(ss', lba)
  {
    forall lba | g.fatStart <= lba < g.RootStart() ensures SectorAt(ss, lba) == SectorAt(ss', lba) {
      var f, k := TableLba(g, lba);
      assert CopyRep(g, ss, f, v.fat) && CopyRep(g, ss', f, v.fat);
      FatSectorsSame(g, ss, ss', f, v.fat, k);
    }
  }
}
