/**
 The file-writing part of the disk image builder: cluster chains in the first FAT,
 file data, and root directory entries.
 */
module Fat32Image {
  import opened ByteTypes
  import opened Fat32Geometry

  const END_OF_CHAIN: nat := 0x0FFF_FFFF
  const DIR_ENTRY_SIZE: nat := 32

  // ----- A random-access file -----

  /** Byte `k` of the image; what was never written reads as zero. */
  function At(d: Bytes, k: nat): Byte {
    if k < |d| then d[k] else 0
  }

  function Zeros(n: nat): (z: Bytes)
    ensures |z| == n && forall i :: 0 <= i < n ==> z[i] == 0
  {
    seq(n, i => 0)
  }

  /** The image after seeking to `pos` and writing `b`. */
  function Patch(d: Bytes, pos: nat, b: Bytes): Bytes {
    var e := if |d| < pos then d + Zeros(pos - |d|) else d;
    e[..pos] + b + if pos + |b| < |e| then e[pos + |b|..] else []
  }

  function Slice(d: Bytes, pos: nat, n: nat): (s: Bytes)
    ensures |s| == n && forall i :: 0 <= i < n ==> s[i] == At(d, pos + i)
  {
    seq<Byte>(n, i requires 0 <= i < n => At(d, pos + i))
  }

  lemma PatchAt(d: Bytes, pos: nat, b: Bytes, k: nat)
    ensures At(Patch(d, pos, b), k) == if pos <= k < pos + |b| then b[k - pos] else At(d, k)
  {
  }

  lemma PatchSlice(d: Bytes, pos: nat, b: Bytes)
    ensures Slice(Patch(d, pos, b), pos, |b|) == b
    ensures forall k: nat {:trigger At(Patch(d, pos, b), k)} ::
      !(pos <= k < pos + |b|) ==> At(Patch(d, pos, b), k) == At(d, k)
  {
    hide Patch, At;
    forall k: nat
      ensures At(Patch(d, pos, b), k) == if pos <= k < pos + |b| then b[k - pos] else At(d, k)
    {
      PatchAt(d, pos, b, k);
    }
  }

  // ----- What a reader sees -----

  function Fat1Pos(c: nat): nat {
    (PART_START_LBA + RESERVED_SECS) * SECTOR_SIZE + 4 * c
  }

  function ClusterPos(g: Geometry, c: nat): nat
    requires 0 <= g.fatSectors && 2 <= c
  {
    (g.DataLba() + (c - 2) * SECS_PER_CLUST) * SECTOR_SIZE
  }

  function DirPos(g: Geometry, slot: nat): nat
    requires 0 <= g.fatSectors
  {
    g.DataLba() * SECTOR_SIZE + DIR_ENTRY_SIZE * slot
  }

  /** The first-FAT entry of cluster `c`. */
  function FatEntry(d: Bytes, c: nat): nat {
    FromLittleEndian(Slice(d, Fat1Pos(c), 4))
  }

  function Cluster(d: Bytes, g: Geometry, c: nat): (b: Bytes)
    requires 0 <= g.fatSectors && 2 <= c
    ensures |b| == CLUSTER_SIZE
  {
    Slice(d, ClusterPos(g, c), CLUSTER_SIZE)
  }

  function DirEntry(d: Bytes, g: Geometry, slot: nat): (e: Bytes)
    requires 0 <= g.fatSectors
    ensures |e| == DIR_ENTRY_SIZE
  {
    Slice(d, DirPos(g, slot), DIR_ENTRY_SIZE)
  }

  function EntryFirstCluster(e: Bytes): nat
    requires |e| == DIR_ENTRY_SIZE
  {
    FromLittleEndian(e[20..22]) * 0x1_0000 + FromLittleEndian(e[26..28])
  }

  function EntrySize(e: Bytes): nat
    requires |e| == DIR_ENTRY_SIZE
  {
    FromLittleEndian(e[28..32])
  }

  // ----- What the writer writes -----

  datatype File = File(name: Bytes, data: Bytes)

  predicate FileOk(f: File) {
    |f.name| == 11 && |f.data| < 0x1_0000_0000
  }

  function Clusters(f: File): nat {
    (|f.data| + CLUSTER_SIZE - 1) / CLUSTER_SIZE
  }

  /** The `k`th cluster's worth of the data, padded with zeros. */
  function Chunk(data: Bytes, k: nat): (c: Bytes)
    ensures |c| == CLUSTER_SIZE
  {
    var start := if k * CLUSTER_SIZE < |data| then k * CLUSTER_SIZE else |data|;
    var end := if start + CLUSTER_SIZE < |data| then start + CLUSTER_SIZE else |data|;
    data[start..end] + Zeros(CLUSTER_SIZE - (end - start))
  }

  function NewEntry(f: File, first: nat): (e: Bytes)
    requires FileOk(f)
    ensures |e| == DIR_ENTRY_SIZE
  {
    f.name + [0x20] + Zeros(8) + LittleEndian(first / 0x1_0000 % 0x1_0000, 2) + Zeros(4)
    + LittleEndian(first % 0x1_0000, 2) + LittleEndian(|f.data|, 4)
  }

  /** The entry's fields read back as the first cluster and the size. */
  lemma NewEntryFields(f: File, first: nat)
    requires FileOk(f) && first < 0x1_0000_0000
    ensures EntryFirstCluster(NewEntry(f, first)) == first
    ensures EntrySize(NewEntry(f, first)) == |f.data|
    ensures NewEntry(f, first)[..11] == f.name && NewEntry(f, first)[11] == 0x20
  {
    hide LittleEndian, FromLittleEndian, Power256;
    var e := NewEntry(f, first);
    var high, low := LittleEndian(first / 0x1_0000 % 0x1_0000, 2), LittleEndian(first % 0x1_0000, 2);
    var size := LittleEndian(|f.data|, 4);
    assert e[20..22] == high && e[26..28] == low && e[28..32] == size;
    Power256Of4();
    LittleEndianRoundTrip(first / 0x1_0000 % 0x1_0000, 2);
    LittleEndianRoundTrip(first % 0x1_0000, 2);
    LittleEndianRoundTrip(|f.data|, 4);
  }

  // ----- A file in the image -----

  predicate ClusterOk(d: Bytes, g: Geometry, first: nat, f: File, k: nat)
    requires 0 <= g.fatSectors && 2 <= first
  {
    && FatEntry(d, first + k) == (if k + 1 < Clusters(f) then first + k + 1 else END_OF_CHAIN)
    && Cluster(d, g, first + k) == Chunk(f.data, k)
  }

  /** The first `n` clusters of `f` stand from cluster `first` on, linked in order. */
  predicate ChainAt(d: Bytes, g: Geometry, first: nat, f: File, n: nat)
    requires 0 <= g.fatSectors && 2 <= first
  {
    forall k {:trigger ClusterOk(d, g, first, f, k)} :: 0 <= k < n ==> ClusterOk(d, g, first, f, k)
  }

  /** File `f` occupies directory slot `slot` and the clusters from `first` on. */
  predicate FileAt(d: Bytes, g: Geometry, slot: nat, first: nat, f: File)
    requires 0 <= g.fatSectors && 2 <= first && FileOk(f)
  {
    DirEntry(d, g, slot) == NewEntry(f, first) && ChainAt(d, g, first, f, Clusters(f))
  }

  /** The bytes that belong to `n` clusters from `first` on: their first-FAT entries and their contents. */
  predicate InChain(g: Geometry, first: nat, n: nat, k: nat)
    requires 0 <= g.fatSectors && 2 <= first
  {
    Fat1Pos(first) <= k < Fat1Pos(first + n) || ClusterPos(g, first) <= k < ClusterPos(g, first + n)
  }

  predicate InSlot(g: Geometry, slot: nat, k: nat)
    requires 0 <= g.fatSectors
  {
    DirPos(g, slot) <= k < DirPos(g, slot + 1)
  }

  /** Only the bytes of `n` clusters from `first` on differ. */
  ghost predicate ChainOnly(d: Bytes, d': Bytes, g: Geometry, first: nat, n: nat)
    requires 0 <= g.fatSectors && 2 <= first
  {
    forall k: nat {:trigger At(d', k)} :: !InChain(g, first, n, k) ==> At(d', k) == At(d, k)
  }

  ghost predicate FileOnly(d: Bytes, d': Bytes, g: Geometry, slot: nat, first: nat, n: nat)
    requires 0 <= g.fatSectors && 2 <= first
  {
    forall k: nat {:trigger At(d', k)} :: !InChain(g, first, n, k) && !InSlot(g, slot, k) ==> At(d', k) == At(d, k)
  }

  /**
   The regions of the disk in byte addresses: 2080 sectors, the two FATs, then the clusters, each of
   4096 bytes and the last one inside the disk; the root directory is cluster 2.
   */
  lemma Regions(diskSize: nat, c: nat)
    requires var g := GeometryOf(diskSize); DataAreaSectors(g.partSectors, g.fatSectors) >= 0
    requires 2 <= c < GeometryOf(diskSize).totalClusters + 2
    ensures var g := GeometryOf(diskSize);
      && 0 < g.fatSectors
      && Fat1Pos(0) == 2080 * 512
      && Fat2Pos(g, 0) == Fat1Pos(0) + g.fatSectors * 512
      && DirPos(g, 0) == ClusterPos(g, 2) == Fat2Pos(g, 0) + g.fatSectors * 512
      && ClusterPos(g, c + 1) == ClusterPos(g, c) + 4096 <= diskSize
      && Fat1Pos(c + 1) == Fat1Pos(c) + 4 <= Fat2Pos(g, 0)
  {
    GeometryFits(diskSize);
  }

  /** The root directory is one cluster: an entry lies inside it exactly up to slot 127. */
  lemma SlotInRoot(g: Geometry, slot: nat)
    requires 0 <= g.fatSectors
    ensures ClusterPos(g, 2) <= DirPos(g, slot)
    ensures DirPos(g, slot + 1) <= ClusterPos(g, 3) <==> slot < 128
  {
  }

  /** Clusters `c` up to `e` have entries in the first FAT. */
  predicate Fits(g: Geometry, e: nat) {
    0 < g.fatSectors && e * 4 <= g.fatSectors * SECTOR_SIZE
  }

  lemma ClusterKept(d: Bytes, d': Bytes, g: Geometry, first: nat, f: File, k: nat)
    requires 0 <= g.fatSectors && 2 <= first && ClusterOk(d, g, first, f, k)
    requires forall i :: Fat1Pos(first + k) <= i < Fat1Pos(first + k + 1) ==> At(d', i) == At(d, i)
    requires forall i :: ClusterPos(g, first + k) <= i < ClusterPos(g, first + k + 1) ==> At(d', i) == At(d, i)
    ensures ClusterOk(d', g, first, f, k)
  {
    hide At, Chunk, FromLittleEndian;
    assert Slice(d', Fat1Pos(first + k), 4) == Slice(d, Fat1Pos(first + k), 4);
    assert Slice(d', ClusterPos(g, first + k), CLUSTER_SIZE) == Slice(d, ClusterPos(g, first + k), CLUSTER_SIZE);
  }

  /** Writing elsewhere leaves a file alone. */
  lemma FileKept(d: Bytes, d': Bytes, g: Geometry, slot: nat, first: nat, f: File, slot': nat, first': nat, n: nat)
    requires FileOk(f) && 2 < first && first + Clusters(f) <= first' && slot < slot' < 128 && Fits(g, first' + n)
    requires FileAt(d, g, slot, first, f) && FileOnly(d, d', g, slot', first', n)
    ensures FileAt(d', g, slot, first, f)
  {
    hide At, Chunk, FromLittleEndian, NewEntry, ClusterOk;
    assert Slice(d', DirPos(g, slot), DIR_ENTRY_SIZE) == Slice(d, DirPos(g, slot), DIR_ENTRY_SIZE);
    forall k | 0 <= k < Clusters(f)
      ensures ClusterOk(d', g, first, f, k)
    {
      assert ClusterOk(d, g, first, f, k);
      ClusterKept(d, d', g, first, f, k);
    }
  }

  class Image {
    var data: Bytes

    constructor ()
      ensures data == []
    {
      data := [];
    }

    /** Seek and write: the bytes stand at `pos`, and every other byte of the image reads as before. */
    method WriteAt(pos: nat, b: Bytes)
      modifies this
      ensures Slice(data, pos, |b|) == b
      ensures forall k: nat {:trigger At(data, k)} :: !(pos <= k < pos + |b|) ==> At(data, k) == At(old(data), k)
    {
      PatchSlice(data, pos, b);
      data := Patch(data, pos, b);
    }

    /** The body of the cluster loop: the chain entry of cluster `first + k` and its contents. */
    method WriteCluster(g: Geometry, f: File, first: nat, k: nat)
      requires 2 <= first && k < Clusters(f) && Fits(g, first + k + 1) && first + k + 1 < 0x1_0000_0000
      modifies this
      ensures ClusterOk(data, g, first, f, k)
      ensures ChainOnly(old(data), data, g, first + k, 1)
    {
      hide At, Patch, LittleEndian, FromLittleEndian, Power256, Chunk;
      var entry := if k + 1 < Clusters(f) then first + k + 1 else END_OF_CHAIN;
      var pos, chunk := ClusterPos(g, first + k), Chunk(f.data, k);
      Power256Of4();
      LittleEndianRoundTrip(entry, 4);
      WriteAt(Fat1Pos(first + k), LittleEndian(entry, 4));
      ghost var d := data;
      WriteAt(pos, chunk);
      assert Slice(data, Fat1Pos(first + k), 4) == Slice(d, Fat1Pos(first + k), 4);
    }

    /** Writes all clusters of `f`, from `first` on. */
    method WriteChain(g: Geometry, f: File, first: nat)
      requires 2 <= first && Fits(g, first + Clusters(f)) && first + Clusters(f) < 0x1_0000_0000
      modifies this
      ensures ChainAt(data, g, first, f, Clusters(f))
      ensures ChainOnly(old(data), data, g, first, Clusters(f))
    {
      hide At, Chunk, FromLittleEndian, ClusterOk;
      var k := 0;
      while k < Clusters(f)
        invariant k <= Clusters(f)
        invariant ChainAt(data, g, first, f, k)
        invariant ChainOnly(old(data), data, g, first, k)
      {
        ghost var d := data;
        WriteCluster(g, f, first, k);
        forall j | 0 <= j < k
          ensures ClusterOk(data, g, first, f, j)
        {
          assert ClusterOk(d, g, first, f, j);
          ClusterKept(d, data, g, first, f, j);
        }
        assert forall i: nat {:trigger At(data, i)} :: !InChain(g, first, k + 1, i) ==> At(data, i) == At(d, i);
        k := k + 1;
      }
    }

    /** The body of the file loop. */
    method WriteFile(g: Geometry, f: File, first: nat, slot: nat)
      requires FileOk(f) && 3 <= first && Fits(g, first + Clusters(f)) && first + Clusters(f) < 0x1_0000_0000
      requires slot < 128
      modifies this
      ensures FileAt(data, g, slot, first, f)
      ensures FileOnly(old(data), data, g, slot, first, Clusters(f))
    {
      hide At, Chunk, FromLittleEndian, ClusterOk, NewEntry, Patch;
      WriteChain(g, f, first);
      ghost var d := data;
      WriteAt(DirPos(g, slot), NewEntry(f, first));
      forall j | 0 <= j < Clusters(f)
        ensures ClusterOk(data, g, first, f, j)
      {
        assert ClusterOk(d, g, first, f, j);
        ClusterKept(d, data, g, first, f, j);
      }
    }

    /** The file loop: empty files are skipped, the others get consecutive clusters and slots. */
    method WriteFiles(g: Geometry, files: seq<File>)
      requires forall i :: 0 <= i < |files| ==> FileOk(files[i])
      requires |NonEmpty(files)| <= 127 && Fits(g, NextCluster(NonEmpty(files)))
      modifies this
      ensures Stored(data, g, NonEmpty(files))
      ensures KeepsUntouched(old(data), data, g)
      ensures FreeFrom(old(data), g, 3) ==> FreeFrom(data, g, NextCluster(NonEmpty(files)))
    {
      hide At, FileAt, Clusters, NonEmpty, NextCluster, FileOnly, Stored, Untouched, FileOk, FreeFrom;
      assert NonEmpty(files[..0]) == [] && NextCluster([]) == 3 && Stored(data, g, []) by {
        NoFiles(data, g, files);
      }
      var nextCluster, dirIndex, i := 3, 1, 0;
      while i < |files|
        invariant i <= |files|
        invariant nextCluster == NextCluster(NonEmpty(files[..i])) && dirIndex == 1 + |NonEmpty(files[..i])|
        invariant Stored(data, g, NonEmpty(files[..i]))
        invariant KeepsUntouched(old(data), data, g)
        invariant FreeFrom(old(data), g, 3) ==> FreeFrom(data, g, nextCluster)
      {
        NonEmptyStep(files, i);
        var f := files[i];
        if f.data != [] {
          ghost var d, fs := data, NonEmpty(files[..i]);
          NextClusterAppend(fs, f);
          NonEmptyPrefix(files, i + 1);
          NonEmptyOk(files);
          NextClusterMono(NonEmpty(files), |fs| + 1);
          NextClusterBound(NonEmpty(files));
          assert NonEmpty(files)[..|fs| + 1] == fs + [f];
          WriteFile(g, f, nextCluster, dirIndex);
          StoredStep(d, data, g, fs, f);
          FileOnlyKeeps(d, data, g, dirIndex, nextCluster, Clusters(f));
          if FreeFrom(d, g, nextCluster) {
            FreeStep(d, data, g, dirIndex, nextCluster, Clusters(f));
          }
          nextCluster, dirIndex := nextCluster + Clusters(f), dirIndex + 1;
        }
        i := i + 1;
      }
      assert files[..i] == files;
    }

    /** The first sector of both FATs and the volume label, on an empty image. */
    method WriteTables(g: Geometry, volume: Bytes)
      requires 0 < g.fatSectors && |volume| == 11 && data == []
      modifies this
      ensures forall c {:trigger FatEntry(data, c)} :: 0 <= c < 3 ==> FatEntry(data, c) == HeadEntry(c)
      ensures Slice(data, DirPos(g, 0), DIR_ENTRY_SIZE) == LabelEntry(volume)
      ensures forall c {:trigger Fat2Entry(data, g, c)} :: 0 <= c < 3 ==> Fat2Entry(data, g, c) == HeadEntry(c)
      ensures FreeFrom(data, g, 3) && Fat2Free(data, g)
    {
      hide At, Patch, LittleEndian, FromLittleEndian;
      var d0 := data;
      WriteAt(Fat1Pos(0), FatHead());
      ghost var d1 := data;
      WriteAt(g.Fat2Lba() * SECTOR_SIZE, FatHead());
      ghost var d2 := data;
      WriteAt(DirPos(g, 0), LabelEntry(volume));
      assert Slice(data, Fat1Pos(0), SECTOR_SIZE) == Slice(d1, Fat1Pos(0), SECTOR_SIZE);
      assert Slice(data, g.Fat2Lba() * SECTOR_SIZE, SECTOR_SIZE) == Slice(d2, g.Fat2Lba() * SECTOR_SIZE, SECTOR_SIZE);
      EmptyImage();
      HeadOnly(data, Fat1Pos(0), g.fatSectors);
      HeadOnly(data, g.Fat2Lba() * SECTOR_SIZE, g.fatSectors);
      assert forall c {:trigger FatEntry(data, c)} :: 0 <= c ==> FatEntry(data, c) == EntryAt(data, Fat1Pos(0), c);
    }

    /** The whole file system: tables, label and files, for a disk with room for them. */
    method Build(diskSize: nat, volume: Bytes, files: seq<File>) returns (g: Geometry)
      requires |volume| == 11 && data == []
      requires DataAreaSectors(GeometryOf(diskSize).partSectors, GeometryOf(diskSize).fatSectors) >= 0
      requires forall i :: 0 <= i < |files| ==> FileOk(files[i])
      requires |NonEmpty(files)| <= 127 && NextCluster(NonEmpty(files)) <= GeometryOf(diskSize).totalClusters + 2
      modifies this
      ensures g == GeometryOf(diskSize) && 0 < g.fatSectors
      ensures Stored(data, g, NonEmpty(files))
      ensures forall c {:trigger FatEntry(data, c)} :: 0 <= c < 3 ==> FatEntry(data, c) == HeadEntry(c)
      ensures FatEntry(data, 0) == 0x0FFF_FFF8 && FatEntry(data, 1) == 0x0FFF_FFFF && FatEntry(data, 2) == 0x0FFF_FFFF
      ensures DirEntry(data, g, 0)[..11] == volume && DirEntry(data, g, 0)[11] == 0x08
      ensures forall i :: 12 <= i < 32 ==> DirEntry(data, g, 0)[i] == 0
      ensures forall c :: 0 <= c && InTable(g, c) ==>
        (FatEntry(data, c) == Fat2Entry(data, g, c) <==> c < 3 || NextCluster(NonEmpty(files)) <= c)
      ensures Mirrored(data, g) <==> NonEmpty(files) == []
    {
      hide At, FromLittleEndian, NonEmpty, NextCluster, Stored, FileOk, FreeFrom;
      GeometryFits(diskSize);
      g := GeometryOf(diskSize);
      WriteTables(g, volume);
      ghost var d := data;
      WriteFiles(g, files);
      forall c {:trigger FatEntry(data, c)} | 0 <= c < 3
        ensures FatEntry(data, c) == HeadEntry(c)
      {
        assert Slice(data, Fat1Pos(c), 4) == Slice(d, Fat1Pos(c), 4);
        assert FatEntry(d, c) == HeadEntry(c);
      }
      assert Slice(data, DirPos(g, 0), DIR_ENTRY_SIZE) == Slice(d, DirPos(g, 0), DIR_ENTRY_SIZE);
      forall c {:trigger Fat2Entry(data, g, c)} | 0 <= c < 3
        ensures Fat2Entry(data, g, c) == HeadEntry(c)
      {
        assert Slice(data, Fat2Pos(g, c), 4) == Slice(d, Fat2Pos(g, c), 4);
        assert Fat2Entry(d, g, c) == HeadEntry(c);
      }
      NonEmptyOk(files);
      forall c | 0 <= c && InTable(g, c)
        ensures FatEntry(data, c) == Fat2Entry(data, g, c) <==> c < 3 || NextCluster(NonEmpty(files)) <= c
      {
        FatsAgree(data, g, NonEmpty(files), c);
      }
      LabelIs(volume);
      assert FatEntry(data, 0) == HeadEntry(0) && FatEntry(data, 1) == HeadEntry(1);
      assert FatEntry(data, 2) == HeadEntry(2);
      assert DirEntry(data, g, 0) == LabelEntry(volume);
      FirstFileUsesThree(NonEmpty(files));
      assert NonEmpty(files) != [] ==> InTable(g, 3) && FatEntry(data, 3) != Fat2Entry(data, g, 3);
    }
  }

  // ----- The heads of the FATs -----

  /** Media type, end mark, and the end of the root directory's chain. */
  function HeadEntry(c: nat): nat {
    if c == 0 then 0x0FFF_FFF8 else END_OF_CHAIN
  }

  function FatHead(): (b: Bytes)
    ensures |b| == SECTOR_SIZE
  {
    LittleEndian(HeadEntry(0), 4) + LittleEndian(HeadEntry(1), 4) + LittleEndian(HeadEntry(2), 4) + Zeros(500)
  }

  function LabelEntry(volume: Bytes): (e: Bytes)
    requires |volume| == 11
    ensures |e| == DIR_ENTRY_SIZE
  {
    volume + [0x08] + Zeros(20)
  }

  /** The label's entry is its name, the volume attribute and nothing else. */
  lemma LabelIs(volume: Bytes)
    requires |volume| == 11
    ensures LabelEntry(volume)[..11] == volume && LabelEntry(volume)[11] == 0x08
    ensures forall i :: 12 <= i < 32 ==> LabelEntry(volume)[i] == 0
  {
  }

  /** The second FAT's entry for cluster `c`. */
  function Fat2Entry(d: Bytes, g: Geometry, c: nat): nat
    requires 0 <= g.fatSectors
  {
    FromLittleEndian(Slice(d, Fat2Pos(g, c), 4))
  }

  function Fat2Pos(g: Geometry, c: nat): nat
    requires 0 <= g.fatSectors
  {
    g.Fat2Lba() * SECTOR_SIZE + 4 * c
  }

  /** Cluster `c` has an entry in each FAT. */
  predicate InTable(g: Geometry, c: nat) {
    c * 4 + 4 <= g.fatSectors * SECTOR_SIZE
  }

  /** The second FAT is a copy of the first. */
  ghost predicate Mirrored(d: Bytes, g: Geometry)
    requires 0 <= g.fatSectors
  {
    forall c :: 0 <= c && InTable(g, c) ==> FatEntry(d, c) == Fat2Entry(d, g, c)
  }

  /** The first FAT is empty from cluster `c` on. */
  ghost predicate FreeFrom(d: Bytes, g: Geometry, c: nat)
    requires 0 <= g.fatSectors
  {
    forall k: nat {:trigger At(d, k)} :: Fat1Pos(c) <= k < Fat2Pos(g, 0) ==> At(d, k) == 0
  }

  /** The second FAT is empty behind its head. */
  ghost predicate Fat2Free(d: Bytes, g: Geometry)
    requires 0 <= g.fatSectors
  {
    forall k: nat {:trigger At(d, k)} :: Fat2Pos(g, 3) <= k < DirPos(g, 0) ==> At(d, k) == 0
  }

  lemma FatHeadTail(k: nat)
    requires 12 <= k < SECTOR_SIZE
    ensures FatHead()[k] == 0
  {
  }

  lemma EmptyImage()
    ensures forall k: nat {:trigger At([], k)} :: At([], k) == 0
  {
  }

  lemma ZeroEntry()
    ensures FromLittleEndian(Zeros(4)) == 0
  {
    assert Zeros(4)[1..] == Zeros(3) && Zeros(3)[1..] == Zeros(2) && Zeros(2)[1..] == Zeros(1) && Zeros(1)[1..] == [];
  }

  function EntryAt(d: Bytes, pos: nat, c: nat): nat {
    FromLittleEndian(Slice(d, pos + 4 * c, 4))
  }

  /** A table that starts with the head and is otherwise empty has the head's entries and no others. */
  lemma HeadOnly(d: Bytes, pos: nat, sectors: nat)
    requires 0 < sectors && Slice(d, pos, SECTOR_SIZE) == FatHead()
    requires forall k: nat {:trigger At(d, k)} :: pos + SECTOR_SIZE <= k < pos + sectors * SECTOR_SIZE ==> At(d, k) == 0
    ensures forall c :: 0 <= c < 3 ==> EntryAt(d, pos, c) == HeadEntry(c)
    ensures forall k: nat {:trigger At(d, k)} :: pos + 12 <= k < pos + sectors * SECTOR_SIZE ==> At(d, k) == 0
  {
    hide LittleEndian, FromLittleEndian, At;
    Power256Of4();
    forall c | 0 <= c < 3
      ensures EntryAt(d, pos, c) == HeadEntry(c)
    {
      LittleEndianRoundTrip(HeadEntry(c), 4);
      assert Slice(d, pos + 4 * c, 4) == Slice(d, pos, SECTOR_SIZE)[4 * c..4 * c + 4] == LittleEndian(HeadEntry(c), 4);
    }
    forall k: nat {:trigger At(d, k)} | pos + 12 <= k < pos + sectors * SECTOR_SIZE
      ensures At(d, k) == 0
    {
      if k < pos + SECTOR_SIZE {
        assert Slice(d, pos, SECTOR_SIZE)[k - pos] == At(d, k);
        FatHeadTail(k - pos);
      }
    }
  }

  /** Writing a file leaves the first FAT empty behind the file's clusters. */
  lemma FreeStep(d: Bytes, d': Bytes, g: Geometry, slot: nat, first: nat, n: nat)
    requires Fits(g, first + n) && 3 <= first && FileOnly(d, d', g, slot, first, n) && FreeFrom(d, g, first)
    ensures FreeFrom(d', g, first + n)
  {
    hide At;
  }

  /** Every cluster below the next free one has a link or an end mark. */
  lemma {:induction false} ClusterInUse(d: Bytes, g: Geometry, fs: seq<File>, n: nat, c: nat)
    requires 0 < g.fatSectors && Stored(d, g, fs) && n <= |fs| && 3 <= c < NextCluster(fs[..n])
    ensures FatEntry(d, c) != 0
    decreases n
  {
    hide DirEntry, NewEntry, Cluster, FatEntry, Clusters;
    var m := n - 1;
    assert fs[..n] == fs[..m] + [fs[m]];
    NextClusterAppend(fs[..m], fs[m]);
    if c < NextCluster(fs[..m]) {
      ClusterInUse(d, g, fs, m, c);
    } else {
      assert InPlace(d, g, fs, m);
      assert ClusterOk(d, g, NextCluster(fs[..m]), fs[m], c - NextCluster(fs[..m]));
    }
  }

  /** The two FATs agree on a cluster exactly when it is reserved or belongs to no file. */
  lemma FatsAgree(d: Bytes, g: Geometry, fs: seq<File>, c: nat)
    requires 0 < g.fatSectors && InTable(g, c) && Stored(d, g, fs)
    requires forall e {:trigger FatEntry(d, e)} :: 0 <= e < 3 ==> FatEntry(d, e) == HeadEntry(e)
    requires forall e {:trigger Fat2Entry(d, g, e)} :: 0 <= e < 3 ==> Fat2Entry(d, g, e) == HeadEntry(e)
    requires FreeFrom(d, g, NextCluster(fs)) && Fat2Free(d, g)
    ensures FatEntry(d, c) == Fat2Entry(d, g, c) <==> c < 3 || NextCluster(fs) <= c
  {
    hide At, FromLittleEndian, Stored, NextCluster;
    if c >= 3 {
      ZeroEntry();
      assert Slice(d, Fat2Pos(g, c), 4) == Zeros(4);
      if NextCluster(fs) <= c {
        assert Slice(d, Fat1Pos(c), 4) == Zeros(4);
      } else {
        assert fs[..|fs|] == fs;
        ClusterInUse(d, g, fs, |fs|, c);
      }
    }
  }

  lemma OneCluster(f: File)
    requires f.data != []
    ensures 1 <= Clusters(f)
  {
  }

  lemma FirstFileUsesThree(fs: seq<File>)
    requires forall i :: 0 <= i < |fs| ==> fs[i].data != []
    ensures NextCluster(fs) == 3 <==> fs == []
  {
    assert NextCluster([]) == 3;
    hide NextCluster, Clusters;
    if fs != [] {
      OneCluster(fs[0]);
      NextClusterMono(fs, 1);
      assert fs[..1] == [] + [fs[0]];
      NextClusterAppend([], fs[0]);
    }
  }

  // ----- Where the files go -----

  function NonEmpty(files: seq<File>): seq<File> {
    if files == [] then []
    else if files[|files| - 1].data == [] then NonEmpty(files[..|files| - 1])
    else NonEmpty(files[..|files| - 1]) + [files[|files| - 1]]
  }

  /** The first cluster behind those of `fs`; cluster 2 is the root directory. */
  function NextCluster(fs: seq<File>): (c: nat)
    ensures 3 <= c
  {
    if fs == [] then 3 else NextCluster(fs[..|fs| - 1]) + Clusters(fs[|fs| - 1])
  }

  /** The `i`th file stands in slot `i + 1` and in the clusters behind those of the files before it. */
  ghost predicate Stored(d: Bytes, g: Geometry, fs: seq<File>)
    requires 0 <= g.fatSectors
  {
    && (forall i :: 0 <= i < |fs| ==> FileOk(fs[i]))
    && (forall i {:trigger InPlace(d, g, fs, i)} :: 0 <= i < |fs| ==> InPlace(d, g, fs, i))
  }

  predicate InPlace(d: Bytes, g: Geometry, fs: seq<File>, i: nat)
    requires 0 <= g.fatSectors && i < |fs| && FileOk(fs[i])
  {
    FileAt(d, g, i + 1, NextCluster(fs[..i]), fs[i])
  }

  /** What the file loop never writes: the head of the first FAT, the second FAT, and the volume label. */
  predicate Untouched(g: Geometry, k: nat)
    requires 0 <= g.fatSectors
  {
    k < Fat1Pos(3) || g.Fat2Lba() * SECTOR_SIZE <= k < DirPos(g, 1)
  }

  ghost predicate KeepsUntouched(d: Bytes, d': Bytes, g: Geometry)
    requires 0 <= g.fatSectors
  {
    forall k: nat {:trigger At(d', k)} :: Untouched(g, k) ==> At(d', k) == At(d, k)
  }

  lemma FileOnlyKeeps(d: Bytes, d': Bytes, g: Geometry, slot: nat, first: nat, n: nat)
    requires Fits(g, first + n) && 3 <= first && 1 <= slot < 128 && FileOnly(d, d', g, slot, first, n)
    ensures KeepsUntouched(d, d', g)
  {
    hide At;
  }

  lemma NoFiles(d: Bytes, g: Geometry, files: seq<File>)
    requires 0 <= g.fatSectors
    ensures NonEmpty(files[..0]) == [] && NextCluster([]) == 3 && Stored(d, g, [])
  {
  }

  lemma NonEmptyStep(files: seq<File>, i: nat)
    requires i < |files|
    ensures NonEmpty(files[..i + 1]) ==
      if files[i].data == [] then NonEmpty(files[..i]) else NonEmpty(files[..i]) + [files[i]]
  {
    assert files[..i + 1][..i] == files[..i];
  }

  lemma {:induction false} NonEmptyPrefix(files: seq<File>, i: nat)
    requires i <= |files|
    ensures NonEmpty(files[..i]) <= NonEmpty(files)
    decreases |files| - i
  {
    if i < |files| {
      NonEmptyPrefix(files, i + 1);
      NonEmptyStep(files, i);
    } else {
      assert files[..i] == files;
    }
  }

  lemma {:induction false} NonEmptyOk(files: seq<File>)
    requires forall i :: 0 <= i < |files| ==> FileOk(files[i])
    ensures forall i :: 0 <= i < |NonEmpty(files)| ==> FileOk(NonEmpty(files)[i]) && NonEmpty(files)[i].data != []
  {
    if files != [] {
      NonEmptyOk(files[..|files| - 1]);
    }
  }

  lemma NextClusterAppend(fs: seq<File>, f: File)
    ensures NextCluster(fs + [f]) == NextCluster(fs) + Clusters(f)
  {
    assert (fs + [f])[..|fs|] == fs;
  }

  lemma {:induction false} NextClusterMono(fs: seq<File>, n: nat)
    requires n <= |fs|
    ensures 3 <= NextCluster(fs[..n]) <= NextCluster(fs)
    decreases |fs|
  {
    if n < |fs| {
      NextClusterMono(fs[..|fs| - 1], n);
      assert fs[..|fs| - 1][..n] == fs[..n];
    } else {
      assert fs[..n] == fs;
      if fs != [] {
        NextClusterMono(fs[..|fs| - 1], |fs| - 1);
        assert fs[..|fs| - 1][..|fs| - 1] == fs[..|fs| - 1];
      }
    }
  }

  /** Files of less than 4 GiB keep every cluster number below the reserved ones. */
  lemma {:induction false} NextClusterBound(fs: seq<File>)
    requires forall i :: 0 <= i < |fs| ==> FileOk(fs[i])
    ensures NextCluster(fs) <= 3 + |fs| * 0x10_0000
  {
    if fs != [] {
      NextClusterBound(fs[..|fs| - 1]);
      assert FileOk(fs[|fs| - 1]);
    }
  }

  lemma EarlierKept(d: Bytes, d': Bytes, g: Geometry, fs: seq<File>, f: File, i: nat)
    requires 0 < g.fatSectors && Stored(d, g, fs) && i < |fs| && |fs| + 1 < 128
    requires Fits(g, NextCluster(fs) + Clusters(f))
    requires FileOnly(d, d', g, |fs| + 1, NextCluster(fs), Clusters(f))
    ensures FileAt(d', g, i + 1, NextCluster(fs[..i]), fs[i])
  {
    hide FileAt, FileOnly, Clusters, NextCluster, FileOk;
    assert InPlace(d, g, fs, i);
    assert fs[..i + 1] == fs[..i] + [fs[i]];
    NextClusterAppend(fs[..i], fs[i]);
    NextClusterMono(fs, i + 1);
    FileKept(d, d', g, i + 1, NextCluster(fs[..i]), fs[i], |fs| + 1, NextCluster(fs), Clusters(f));
  }

  lemma StoredStep(d: Bytes, d': Bytes, g: Geometry, fs: seq<File>, f: File)
    requires 0 < g.fatSectors && Stored(d, g, fs) && FileOk(f) && |fs| + 1 < 128
    requires Fits(g, NextCluster(fs) + Clusters(f))
    requires FileAt(d', g, |fs| + 1, NextCluster(fs), f)
    requires FileOnly(d, d', g, |fs| + 1, NextCluster(fs), Clusters(f))
    ensures Stored(d', g, fs + [f])
  {
    hide FileAt, FileOnly, Clusters, NextCluster, FileOk, Fits;
    var gs := fs + [f];
    forall i | 0 <= i < |gs|
      ensures FileOk(gs[i])
    {
      assert i < |fs| ==> gs[i] == fs[i];
    }
    forall i | 0 <= i < |gs|
      ensures InPlace(d', g, gs, i)
    {
      assert gs[..i] == fs[..i];
      if i < |fs| {
        EarlierKept(d, d', g, fs, f, i);
      } else {
        assert fs[..i] == fs;
      }
    }
  }

  // ----- Reading back -----

  /** `chain` is what following the first FAT from `first` visits, up to the end mark. */
  predicate IsChain(d: Bytes, first: nat, chain: seq<nat>) {
    && chain != [] && chain[0] == first
    && (forall i :: 0 <= i < |chain| ==> chain[i] < END_OF_CHAIN)
    && (forall i {:trigger LinkAt(d, chain, i)} :: 0 <= i < |chain| ==> LinkAt(d, chain, i))
  }

  predicate LinkAt(d: Bytes, chain: seq<nat>, i: nat)
    requires i < |chain|
  {
    FatEntry(d, chain[i]) == if i + 1 < |chain| then chain[i + 1] else END_OF_CHAIN
  }

  /** There is only one way to follow the FAT. */
  lemma ChainUnique(d: Bytes, first: nat, c1: seq<nat>, c2: seq<nat>)
    requires IsChain(d, first, c1) && IsChain(d, first, c2)
    ensures c1 == c2
  {
    hide FatEntry;
    var i := 0;
    while i + 1 < |c1| && i + 1 < |c2|
      invariant i < |c1| && i < |c2| && c1[..i + 1] == c2[..i + 1]
    {
      assert LinkAt(d, c1, i) && LinkAt(d, c2, i);
      i := i + 1;
    }
    assert LinkAt(d, c1, i) && LinkAt(d, c2, i);
  }

  /** The contents of the clusters of a chain, one after another. */
  function Gather(d: Bytes, g: Geometry, chain: seq<nat>): Bytes
    requires 0 <= g.fatSectors && forall i :: 0 <= i < |chain| ==> 2 <= chain[i]
  {
    if chain == [] then [] else Gather(d, g, chain[..|chain| - 1]) + Cluster(d, g, chain[|chain| - 1])
  }

  function Run(first: nat, n: nat): (r: seq<nat>)
    ensures |r| == n && forall i :: 0 <= i < n ==> r[i] == first + i
  {
    seq(n, i requires 0 <= i < n => first + i)
  }

  lemma {:induction false} GatherRun(d: Bytes, g: Geometry, first: nat, f: File, n: nat)
    requires 0 <= g.fatSectors && 2 <= first && n <= Clusters(f) && ChainAt(d, g, first, f, n)
    ensures |Gather(d, g, Run(first, n))| == n * CLUSTER_SIZE
    ensures forall i :: 0 <= i < n * CLUSTER_SIZE && i < |f.data| ==> Gather(d, g, Run(first, n))[i] == f.data[i]
    decreases n
  {
    if n > 0 {
      assert Run(first, n)[..n - 1] == Run(first, n - 1);
      assert ChainAt(d, g, first, f, n - 1) by {
        assert forall k :: 0 <= k < n - 1 ==> ClusterOk(d, g, first, f, k);
      }
      GatherRun(d, g, first, f, n - 1);
      assert ClusterOk(d, g, first, f, n - 1);
    }
  }

  /**
   Following the first FAT from a file's directory entry, gathering the clusters and cutting at
   the stored size gives the file back.
   */
  lemma FileRecovered(d: Bytes, g: Geometry, slot: nat, first: nat, f: File)
    requires 0 <= g.fatSectors && 2 <= first && FileOk(f) && f.data != [] && first + Clusters(f) <= END_OF_CHAIN
    requires FileAt(d, g, slot, first, f)
    ensures var e, chain := DirEntry(d, g, slot), Run(first, Clusters(f));
      && e[..11] == f.name
      && IsChain(d, EntryFirstCluster(e), chain)
      && EntrySize(e) <= |Gather(d, g, chain)|
      && Gather(d, g, chain)[..EntrySize(e)] == f.data
  {
    hide DirEntry, NewEntry, EntrySize, EntryFirstCluster, Gather, Cluster, Chunk, FatEntry;
    var e, chain := DirEntry(d, g, slot), Run(first, Clusters(f));
    NewEntryFields(f, first);
    forall i | 0 <= i < |chain|
      ensures LinkAt(d, chain, i)
    {
      assert ClusterOk(d, g, first, f, i);
    }
    GatherRun(d, g, first, f, Clusters(f));
  }

  /**
   Every non-empty file of a list that fits is recovered, and the chains of different files,
   each strictly increasing, do not meet.
   */
  lemma AllRecovered(d: Bytes, g: Geometry, fs: seq<File>, i: nat)
    requires 0 <= g.fatSectors && Stored(d, g, fs) && |fs| <= 127 && i < |fs| && fs[i].data != []
    ensures var e, chain := DirEntry(d, g, i + 1), Run(NextCluster(fs[..i]), Clusters(fs[i]));
      && e[..11] == fs[i].name
      && IsChain(d, EntryFirstCluster(e), chain)
      && EntrySize(e) <= |Gather(d, g, chain)|
      && Gather(d, g, chain)[..EntrySize(e)] == fs[i].data
      && (forall j :: 0 <= j < i ==> NextCluster(fs[..j]) + Clusters(fs[j]) <= NextCluster(fs[..i]))
      && NextCluster(fs[..i]) + Clusters(fs[i]) <= NextCluster(fs)
  {
    hide FileAt, Clusters, NextCluster, FileOk, DirEntry, EntrySize, EntryFirstCluster, Gather, IsChain;
    assert InPlace(d, g, fs, i);
    forall j | 0 <= j < i
      ensures NextCluster(fs[..j]) + Clusters(fs[j]) <= NextCluster(fs[..i])
    {
      EndsBefore(fs, j, i);
    }
    EndsBefore(fs, i, |fs|);
    assert fs[..|fs|] == fs;
    NextClusterBound(fs);
    FileRecovered(d, g, i + 1, NextCluster(fs[..i]), fs[i]);
  }

  lemma EndsBefore(fs: seq<File>, j: nat, i: nat)
    requires j < i <= |fs|
    ensures NextCluster(fs[..j]) + Clusters(fs[j]) <= NextCluster(fs[..i])
  {
    hide Clusters, NextCluster;
    assert fs[..j + 1] == fs[..j] + [fs[j]];
    NextClusterAppend(fs[..j], fs[j]);
    NextClusterMono(fs[..i], j + 1);
    assert fs[..i][..j + 1] == fs[..j + 1];
  }
}
