/**
 Reading a file through its cluster chain (kernel/modules/fat/src/fat.cc) from a sector device
 (kernel/src/devmgr/msd/msd.cc).
 */
module Fat {
  import opened Machine

  const SECTOR := 512
  const END_OF_CHAIN := 0x0fff_fff8
  const FAT_MASK := 0x1000_0000

  /** A mounted volume: the table, where the data area starts, the cluster size, and the whole disk. */
  datatype Volume = Volume(fat: seq<nat>, dataoffset: nat, clusterBytes: nat, disk: seq<Byte>)

  function FatEntry(v: Volume, cluster: nat): nat
    requires cluster < |v.fat|
  {
    v.fat[cluster] % FAT_MASK
  }

  /** `clusterfrom`: the two halves a directory entry keeps. */
  lemma ClusterFrom(lo: bv32, hi: bv32)
    requires lo & 0xffff_0000 == 0
    ensures (lo | (hi << 16)) & 0xffff == lo
    ensures ((lo | (hi << 16)) >> 16) == hi & 0xffff
  {
  }

  /** `diskoffset`, in 32-bit arithmetic and with its fixed factor. */
  function DiskOffset(v: Volume, cluster: nat): nat
    requires cluster >= 2
  {
    v.dataoffset + (cluster - 2) * SECTOR % TWO32
  }

  predicate OnSector(n: nat) {
    n % SECTOR == 0
  }

  /** Where the cluster really is. */
  function ClusterStart(v: Volume, cluster: nat): nat
    requires cluster >= 2
  {
    v.dataoffset + (cluster - 2) * v.clusterBytes
  }

  /**
   The fixed factor and the 32-bit product are right for one-sector clusters within 4 GiB, and for the first
   cluster.
   */
  predicate OffsetRight(v: Volume, cluster: nat)
    requires cluster >= 2
  {
    cluster == 2 || (v.clusterBytes == 512 && (cluster - 2) * 512 < 0x1_0000_0000)
  }

  lemma DiskOffsetIsRightIff(v: Volume, cluster: nat)
    requires 2 <= cluster && v.clusterBytes >= SECTOR
    ensures DiskOffset(v, cluster) == ClusterStart(v, cluster) <==> OffsetRight(v, cluster)
  {
    var c := cluster - 2;
    assert c * SECTOR % TWO32 == c * SECTOR <==> c * SECTOR < TWO32;
    ProductsCompare(c, SECTOR, v.clusterBytes);
  }

  lemma ProductsCompare(c: nat, a: nat, b: nat)
    requires a <= b
    ensures c * a <= c * b
    ensures c * a == c * b <==> c == 0 || a == b
  {
    assert c * b - c * a == c * (b - a);
  }

  // ---- files as cluster chains ----

  /** The chain from `start`, as the low 28 bits of the table's words link it, up to the end mark. */
  predicate IsChain(v: Volume, start: nat, chain: seq<nat>) {
    && chain != [] && chain[0] == start && InTable(v, chain)
    && (forall i :: 0 <= i < |chain| ==> Linked(v, chain, i))
  }

  predicate InTable(v: Volume, chain: seq<nat>) {
    forall i :: 0 <= i < |chain| ==> 2 <= chain[i] < |v.fat|
  }

  predicate Linked(v: Volume, chain: seq<nat>, i: int)
    requires 0 <= i < |chain| && InTable(v, chain)
  {
    var word := v.fat[chain[i]] % 0x1000_0000;
    if i + 1 < |chain| then word == chain[i + 1] < 0x0fff_fff8 else word >= 0x0fff_fff8
  }

  /** Clusters of whole sectors, as many as a 16-bit and an 8-bit field can say. */
  predicate VolumeOk(v: Volume) {
    && 0 < v.clusterBytes < 0x100_0000 && OnSector(v.clusterBytes) && OnSector(v.dataoffset)
    && |v.fat| <= END_OF_CHAIN
  }

  /** The clusters of the chain are in the table and on the disk; spare table entries need no disk behind them. */
  predicate OnVolume(v: Volume, chain: seq<nat>) {
    && VolumeOk(v) && InTable(v, chain)
    && forall i :: 0 <= i < |chain| ==> ClusterStart(v, chain[i]) + v.clusterBytes <= |v.disk|
  }

  /** The bytes in `n` clusters. */
  function Size(v: Volume, n: nat): nat {
    n * v.clusterBytes
  }

  /** The cluster of the chain an offset falls into, and how far into it. */
  function ClusterOf(v: Volume, offset: nat): nat
    requires v.clusterBytes > 0
  {
    offset / v.clusterBytes
  }

  function Rest(v: Volume, offset: nat): (r: nat)
    requires v.clusterBytes > 0
    ensures r < v.clusterBytes
  {
    offset % v.clusterBytes
  }

  lemma Halves(v: Volume, offset: nat)
    requires v.clusterBytes > 0
    ensures offset == Size(v, ClusterOf(v, offset)) + Rest(v, offset)
  {
  }

  lemma SizeIs(v: Volume, n: nat)
    ensures Size(v, n) == n * v.clusterBytes
  {
  }

  lemma SizeNext(v: Volume, n: nat)
    ensures Size(v, n + 1) == Size(v, n) + v.clusterBytes && Size(v, 0) == 0
  {
  }

  lemma SizeGrows(v: Volume, m: nat, n: nat)
    requires m <= n
    ensures Size(v, m) <= Size(v, n)
  {
    MulMono(m, n, v.clusterBytes);
  }

  /** Every place has a whole cluster of disk behind it. */
  predicate OnDisk(v: Volume, places: seq<nat>) {
    forall i :: 0 <= i < |places| ==> places[i] + v.clusterBytes <= |v.disk|
  }

  /** One cluster's worth of bytes from each place, one after the other. */
  function Gathered(v: Volume, places: seq<nat>): (d: seq<Byte>)
    requires OnDisk(v, places)
    ensures |d| == Size(v, |places|)
  {
    if places == [] then []
    else
      SizeNext(v, |places| - 1);
      v.disk[places[0]..places[0] + v.clusterBytes] + Gathered(v, places[1..])
  }

  /** Where the clusters of a chain are, and where `chainread` looks for them. */
  function Starts(v: Volume, chain: seq<nat>): (r: seq<nat>)
    requires OnVolume(v, chain)
    ensures |r| == |chain| && OnDisk(v, r) && forall i :: 0 <= i < |chain| ==> r[i] == ClusterStart(v, chain[i])
  {
    var r := seq(|chain|, i requires 0 <= i < |chain| => ClusterStart(v, chain[i]));
    assert OnDisk(v, r) by {
      forall i | 0 <= i < |r| ensures r[i] + v.clusterBytes <= |v.disk| {
        ClusterPlace(v, chain, i);
      }
    }
    r
  }

  function Offsets(v: Volume, chain: seq<nat>): (r: seq<nat>)
    requires OnVolume(v, chain)
    ensures |r| == |chain| && OnDisk(v, r) && forall i :: 0 <= i < |chain| ==> r[i] == DiskOffset(v, chain[i])
  {
    var r := seq(|chain|, i requires 0 <= i < |chain| => DiskOffset(v, chain[i]));
    assert OnDisk(v, r) by {
      forall i | 0 <= i < |r| ensures r[i] + v.clusterBytes <= |v.disk| {
        ClusterPlace(v, chain, i);
      }
    }
    r
  }

  /** The file: its clusters one after the other. */
  function Content(v: Volume, chain: seq<nat>): (d: seq<Byte>)
    requires OnVolume(v, chain)
    ensures |d| == Size(v, |chain|)
  {
    Gathered(v, Starts(v, chain))
  }

  /** What the reader takes for the file. */
  function Seen(v: Volume, chain: seq<nat>): (d: seq<Byte>)
    requires OnVolume(v, chain)
    ensures |d| == Size(v, |chain|)
  {
    Gathered(v, Offsets(v, chain))
  }

  lemma ClusterPlace(v: Volume, chain: seq<nat>, k: nat)
    requires OnVolume(v, chain) && k < |chain|
    ensures 2 <= chain[k] && OnSector(v.clusterBytes) && ClusterStart(v, chain[k]) + v.clusterBytes <= |v.disk|
    ensures OnSector(DiskOffset(v, chain[k])) && DiskOffset(v, chain[k]) + v.clusterBytes <= |v.disk|
  {
    var c := chain[k] - 2;
    WrappedSectors(c);
    ProductsCompare(c, SECTOR, v.clusterBytes);
    SectorSum(v.dataoffset, c * SECTOR % TWO32);
  }

  lemma WrappedSectors(c: nat)
    ensures OnSector(c * SECTOR % TWO32) && c * SECTOR % TWO32 <= c * SECTOR
  {
    var q := c * SECTOR / TWO32;
    assert c * SECTOR % TWO32 == SECTOR * (c - q * 0x80_0000);
  }

  lemma SectorSum(a: nat, b: nat)
    requires OnSector(a)
    ensures (a + b) % SECTOR == b % SECTOR
  {
  }

  /** Every cluster of the chain is one of the good ones. */
  predicate OffsetsRight(v: Volume, chain: seq<nat>)
    requires InTable(v, chain)
  {
    forall i :: 0 <= i < |chain| ==> OffsetRight(v, chain[i])
  }

  /** The reader looks in the right places exactly when the offsets are right. */
  lemma OffsetsAreStartsIff(v: Volume, chain: seq<nat>)
    requires OnVolume(v, chain)
    ensures Offsets(v, chain) == Starts(v, chain) <==> OffsetsRight(v, chain)
  {
    hide DiskOffset, ClusterStart, OffsetRight;
    assert v.clusterBytes >= SECTOR;
    forall i | 0 <= i < |chain|
      ensures Offsets(v, chain)[i] == Starts(v, chain)[i] <==> OffsetRight(v, chain[i])
    {
      DiskOffsetIsRightIff(v, chain[i]);
    }
  }

  /** The same volume with other bytes on the disk. */
  function Holding(v: Volume, disk: seq<Byte>): Volume {
    v.(disk := disk)
  }

  lemma SameLayout(v: Volume, chain: seq<nat>, disk: seq<Byte>)
    requires OnVolume(v, chain) && |disk| == |v.disk|
    ensures OnVolume(Holding(v, disk), chain)
    ensures Starts(Holding(v, disk), chain) == Starts(v, chain)
    ensures Offsets(Holding(v, disk), chain) == Offsets(v, chain)
  {
  }

  /** Cluster k is looked for in the wrong place: one byte on the disk shows it. */
  lemma Misread(v: Volume, chain: seq<nat>, k: nat) returns (disk: seq<Byte>)
    requires OnVolume(v, chain) && k < |chain| && !OffsetRight(v, chain[k])
    ensures |disk| == |v.disk| && OnVolume(Holding(v, disk), chain)
    ensures Seen(Holding(v, disk), chain) != Content(Holding(v, disk), chain)
  {
    var at := ClusterStart(v, chain[k]);
    disk := seq(|v.disk|, i => if i == at then 1 as Byte else 0);
    var w := Holding(v, disk);
    SameLayout(v, chain, disk);
    DiskOffsetIsRightIff(v, chain[k]);
    hide DiskOffset, ClusterStart, OffsetRight, Gathered, Size;
    FirstByte(w, Starts(w, chain), k);
    FirstByte(w, Offsets(w, chain), k);
  }

  lemma FirstByte(v: Volume, places: seq<nat>, k: nat)
    requires OnDisk(v, places) && k < |places| && v.clusterBytes > 0
    ensures Size(v, k) < |Gathered(v, places)| && Gathered(v, places)[Size(v, k)] == v.disk[places[k]]
  {
    hide Gathered, Size;
    GatheredAt(v, places, k);
    var d, n := Gathered(v, places), v.clusterBytes;
    assert d[Size(v, k)..Size(v, k) + n][0] == v.disk[places[k]..places[k] + n][0];
  }

  /** Whatever is on the disk, the reader sees the file exactly when every offset of the chain is right. */
  lemma SeenIsContentIff(v: Volume, chain: seq<nat>)
    requires OnVolume(v, chain)
    ensures OffsetsRight(v, chain) <==>
            forall disk: seq<Byte> :: |disk| == |v.disk| ==>
              && OnVolume(Holding(v, disk), chain)
              && Seen(Holding(v, disk), chain) == Content(Holding(v, disk), chain)
    ensures OffsetsRight(v, chain) ==> Seen(v, chain) == Content(v, chain)
  {
    assert InTable(v, chain);
    hide OnVolume, InTable, Starts, Offsets, Gathered, OffsetRight, Holding;
    OffsetsAreStartsIff(v, chain);
    if OffsetsRight(v, chain) {
      forall disk: seq<Byte> | |disk| == |v.disk|
        ensures OnVolume(Holding(v, disk), chain)
        ensures Seen(Holding(v, disk), chain) == Content(Holding(v, disk), chain)
      {
        SameLayout(v, chain, disk);
      }
    } else {
      var k :| 0 <= k < |chain| && !OffsetRight(v, chain[k]);
      var disk := Misread(v, chain, k);
    }
  }

  /** A disk of 4 KiB in two-sector clusters, with one byte set: the first of cluster 3. */
  function TwoSectorDisk(): Volume {
    Volume([0, 0, 0, END_OF_CHAIN], 0, 2 * SECTOR, seq(8 * SECTOR, i => if i == 2 * SECTOR then 1 as Byte else 0))
  }

  /** Two sectors to a cluster: the file in cluster 3 is read from the middle of cluster 2. */
  lemma WrongCluster()
    ensures var v := TwoSectorDisk();
            OnVolume(v, [3]) && IsChain(v, 3, [3]) && Content(v, [3])[0] == 1 && Seen(v, [3])[0] == 0
  {
    var v := TwoSectorDisk();
    assert Linked(v, [3], 0);
    assert Starts(v, [3])[0] == 2 * SECTOR && Offsets(v, [3])[0] == SECTOR;
  }

  lemma {:induction false} GatheredAt(v: Volume, places: seq<nat>, k: nat)
    requires OnDisk(v, places) && k < |places|
    ensures Size(v, k) + v.clusterBytes <= |Gathered(v, places)|
    ensures Gathered(v, places)[Size(v, k)..Size(v, k) + v.clusterBytes] ==
            v.disk[places[k]..places[k] + v.clusterBytes]
  {
    hide Gathered, Size;
    GatheredFront(v, places);
    var head, rest := v.disk[places[0]..places[0] + v.clusterBytes], Gathered(v, places[1..]);
    SizeNext(v, k);
    SizeGrows(v, k + 1, |places|);
    if k == 0 {
      SliceOfHead(head, rest);
    } else {
      SizeNext(v, k - 1);
      GatheredAt(v, places[1..], k - 1);
      SliceOfTail(head, rest, Size(v, k - 1), Size(v, k - 1) + v.clusterBytes);
    }
  }

  lemma GatheredFront(v: Volume, places: seq<nat>)
    requires OnDisk(v, places) && places != []
    ensures Gathered(v, places) == v.disk[places[0]..places[0] + v.clusterBytes] + Gathered(v, places[1..])
  {
  }

  lemma SliceOfHead(a: seq<Byte>, b: seq<Byte>)
    ensures (a + b)[..|a|] == a
  {
  }

  lemma SliceOfTail(a: seq<Byte>, b: seq<Byte>, i: nat, j: nat)
    requires i <= j <= |b|
    ensures (a + b)[|a| + i..|a| + j] == b[i..j]
  {
  }

  // ---- the device ----

  /** Whole sectors straight from the disk. */
  method ReadSectors(disk: seq<Byte>, lba: nat, count: nat, buf: array<Byte>, at: nat)
    requires (lba + count) * SECTOR <= |disk| && at + count * SECTOR <= buf.Length
    modifies buf
    ensures buf[..] == Store(old(buf[..]), at, disk[lba * SECTOR..(lba + count) * SECTOR])
  {
    hide Store;
    Transfer(disk, lba * SECTOR, count * SECTOR, buf, at);
  }

  method Transfer(disk: seq<Byte>, from: nat, n: nat, buf: array<Byte>, at: nat)
    requires from + n <= |disk| && at + n <= buf.Length
    modifies buf
    ensures buf[..] == Store(old(buf[..]), at, disk[from..from + n])
  {
    for i := 0 to n
      invariant buf[..] == Store(old(buf[..]), at, disk[from..from + i])
    {
      buf[at + i] := disk[from + i];
    }
  }

  /** The request stays inside the bounce buffer `msd_read` makes for it. */
  predicate BounceFits(offset: nat, bytes: nat) {
    offset % SECTOR + bytes <= AlignUp(bytes, SECTOR)
  }

  /** It does exactly when it touches no more sectors than its length rounded up has. */
  lemma FitsIffSectors(offset: nat, bytes: nat)
    requires bytes > 0
    ensures BounceFits(offset, bytes) <==>
            (offset + bytes - 1) / SECTOR - offset / SECTOR + 1 <= (bytes + SECTOR - 1) / SECTOR
  {
    var first, last, count := offset / SECTOR, (offset + bytes - 1) / SECTOR, (bytes + SECTOR - 1) / SECTOR;
    assert AlignUp(bytes, SECTOR) == count * SECTOR;
    assert offset == first * SECTOR + offset % SECTOR;
    assert last * SECTOR <= offset + bytes - 1 < last * SECTOR + SECTOR;
  }

  /** One byte into a sector, a whole sector's worth does not fit. */
  lemma BounceTooSmall()
    ensures !BounceFits(1, SECTOR)
  {
    AlignedIsItself(SECTOR);
  }

  /** `msd_read`: exact when the request is aligned or fits its bounce buffer, and out of bounds otherwise. */
  method MsdRead(disk: seq<Byte>, offset: nat, bytes: nat, buf: array<Byte>, at: nat, bufAligned: bool)
    returns (r: Outcome<()>)
    requires at + bytes <= buf.Length && offset / SECTOR * SECTOR + AlignUp(bytes, SECTOR) <= |disk|
    modifies buf
    ensures r.Done? <==> BounceFits(offset, bytes)
    ensures r.Done? ==> offset + bytes <= |disk| && buf[..] == Store(old(buf[..]), at, disk[offset..offset + bytes])
  {
    hide Store;
    AlignUpIsLeast(bytes, SECTOR);
    if offset % SECTOR == 0 && bytes % SECTOR == 0 && bufAligned {
      AlignedIsItself(bytes);
      ReadAligned(disk, offset, bytes, buf, at);
      return Done(());
    }
    hide AlignUp;
    var skip, whole := offset % SECTOR, AlignUp(bytes, SECTOR);
    var bounce := new Byte[whole];
    FillBounce(disk, offset / SECTOR, whole / SECTOR, bounce);
    if skip + bytes > whole {
      return Halted;   // the copy would run past the bounce buffer
    }
    MemCopy(bounce, skip, bytes, buf, at);
    SliceOfSlice(disk, offset - skip, whole, skip, bytes);
    return Done(());
  }

  method ReadAligned(disk: seq<Byte>, offset: nat, bytes: nat, buf: array<Byte>, at: nat)
    requires offset % SECTOR == 0 && bytes % SECTOR == 0 && at + bytes <= buf.Length && offset + bytes <= |disk|
    modifies buf
    ensures buf[..] == Store(old(buf[..]), at, disk[offset..offset + bytes])
  {
    hide Store;
    ReadSectors(disk, offset / SECTOR, bytes / SECTOR, buf, at);
  }

  method FillBounce(disk: seq<Byte>, lba: nat, count: nat, bounce: array<Byte>)
    requires (lba + count) * SECTOR <= |disk| && bounce.Length == count * SECTOR
    modifies bounce
    ensures bounce[..] == disk[lba * SECTOR..lba * SECTOR + bounce.Length]
  {
    ReadSectors(disk, lba, count, bounce, 0);
  }

  lemma SliceOfSlice(s: seq<Byte>, a: nat, n: nat, skip: nat, k: nat)
    requires a + n <= |s| && skip + k <= n
    ensures s[a..a + n][skip..skip + k] == s[a + skip..a + skip + k]
  {
    var t, u := s[a..a + n][skip..skip + k], s[a + skip..a + skip + k];
    assert forall i :: 0 <= i < k ==> t[i] == u[i];
  }

  lemma AlignedIsItself(bytes: nat)
    requires bytes % SECTOR == 0
    ensures AlignUp(bytes, SECTOR) == bytes
  {
  }

  method MemCopy(src: array<Byte>, skip: nat, n: nat, dst: array<Byte>, at: nat)
    requires skip + n <= src.Length && at + n <= dst.Length && src != dst
    modifies dst
    ensures dst[..] == Store(old(dst[..]), at, src[..][skip..skip + n])
  {
    for i := 0 to n
      invariant dst[..] == Store(old(dst[..]), at, src[skip..skip + i])
    {
      dst[at + i] := src[skip + i];
    }
  }

  // ---- chainread ----

  lemma StoredTwice(s: seq<Byte>, at: nat, a: seq<Byte>, b: seq<Byte>)
    requires at + |a| + |b| <= |s|
    ensures Store(Store(s, at, a), at + |a|, b) == Store(s, at, a + b)
  {
  }

  lemma StoredNext(file: seq<Byte>, offset: nat, read: nat, len: nat, before: seq<Byte>)
    requires offset + read + len <= |file| && read + len <= |before|
    ensures Store(Store(before, 0, file[offset..offset + read]), read, file[offset + read..offset + read + len]) ==
            Store(before, 0, file[offset..offset + read + len])
  {
    hide Store;
    var a, b := file[offset..offset + read], file[offset + read..offset + read + len];
    assert a + b == file[offset..offset + read + len];
    StoredTwice(before, 0, a, b);
  }

  lemma SameStretch(s: seq<Byte>, a: nat, t: seq<Byte>, b: nat, n: nat, off: nat, len: nat)
    requires a + n <= |s| && b + n <= |t| && off + len <= n && s[a..a + n] == t[b..b + n]
    ensures s[a + off..a + off + len] == t[b + off..b + off + len]
  {
    SliceOfSlice(s, a, n, off, len);
    SliceOfSlice(t, b, n, off, len);
  }

  /** The skipping loop: past the end mark it indexes the table out of range. */
  method SkipClusters(v: Volume, start: nat, count: nat, ghost chain: seq<nat>) returns (r: Outcome<nat>)
    requires |v.fat| <= END_OF_CHAIN && IsChain(v, start, chain)
    ensures r.Done? <==> count <= |chain|
    ensures count < |chain| ==> r == Done(chain[count])
    ensures count == |chain| ==> r.value >= END_OF_CHAIN
  {
    var cluster := start;
    for i := 0 to count
      invariant i <= |chain|
      invariant if i < |chain| then cluster == chain[i] else cluster >= END_OF_CHAIN
    {
      assert i < |chain| ==> Linked(v, chain, i);
      if cluster >= |v.fat| {
        return Halted;
      }
      var fatent := FatEntry(v, cluster);
      if cluster >= END_OF_CHAIN {
        return Halted;
      }
      cluster := fatent;
    }
    return Done(cluster);
  }

  /** How many of the bytes asked for from `offset` on a chain of n clusters has. */
  function Available(v: Volume, n: nat, offset: nat, bytes: nat): nat
    requires offset <= Size(v, n)
  {
    Min(bytes, Size(v, n) - offset)
  }

  predicate Reads(v: Volume, places: seq<nat>, offset: nat, read: nat, before: seq<Byte>, after: seq<Byte>)
    requires OnDisk(v, places)
  {
    && offset + read <= Size(v, |places|) && read <= |before|
    && after == Store(before, 0, Gathered(v, places)[offset..offset + read])
  }

  /** What one iteration reads, from `off` on in the k-th place, is the next stretch of what is gathered. */
  lemma ReadsMore(v: Volume, places: seq<nat>, offset: nat, read: nat, before: seq<Byte>, after: seq<Byte>,
                  k: nat, off: nat, len: nat)
    requires OnDisk(v, places) && k < |places| && Reads(v, places, offset, read, before, after)
    requires off + len <= v.clusterBytes && offset + read == Size(v, k) + off && read + len <= |before|
    ensures Reads(v, places, offset, read + len, before,
                  Store(after, read, v.disk[places[k] + off..places[k] + off + len]))
  {
    hide Gathered, Size, Store;
    GatheredAt(v, places, k);
    var file := Gathered(v, places);
    SameStretch(v.disk, places[k], file, Size(v, k), v.clusterBytes, off, len);
    StoredNext(file, offset, read, len, before);
  }

  lemma NothingRead(v: Volume, places: seq<nat>, offset: nat, s: seq<Byte>)
    requires OnDisk(v, places) && offset <= Size(v, |places|)
    ensures Reads(v, places, offset, 0, s, s)
  {
  }

  /** The place a request starts at only matters up to whole sectors. */
  lemma SameBounce(d: nat, off: nat, len: nat)
    requires OnSector(d)
    ensures BounceFits(d + off, len) <==> BounceFits(off, len)
    ensures (d + off) / SECTOR * SECTOR == d + off / SECTOR * SECTOR
  {
    SectorSum(d, off);
    hide AlignUp;
  }

  /** The sectors a request touches lie in its cluster. */
  lemma SectorsInCluster(n: nat, off: nat, len: nat)
    requires OnSector(n) && off + len <= n
    ensures off / SECTOR * SECTOR + AlignUp(len, SECTOR) <= n
  {
    AlignUpIsLeast(len, SECTOR);
    hide AlignUp;
    var first, count, all := off / SECTOR, AlignUp(len, SECTOR) / SECTOR, n / SECTOR;
    assert AlignUp(len, SECTOR) == count * SECTOR && n == all * SECTOR;
    assert first + count <= all;
  }

  /** What is left of a cluster from `off` on always fits its bounce buffer, and so does anything from its start. */
  lemma RestFits(n: nat, off: nat, len: nat)
    requires OnSector(n) && off <= n
    ensures BounceFits(off, n - off) && BounceFits(0, len)
  {
    AlignUpIsLeast(len, SECTOR);
  }

  /** The first request of a read at `off` in a cluster: the rest of the cluster, or all that is asked for. */
  predicate FirstFits(v: Volume, off: nat, bytes: nat) {
    off + bytes >= v.clusterBytes || BounceFits(off, bytes)
  }

  /** In one-sector clusters every request fits. */
  lemma OneSectorFits(v: Volume, off: nat, bytes: nat)
    requires v.clusterBytes == SECTOR && off < SECTOR && bytes > 0
    ensures FirstFits(v, off, bytes)
  {
    AlignUpIsLeast(bytes, SECTOR);
  }

  /** One turn of the reading loop: the part of cluster `k` the request still wants. */
  method ReadCluster(v: Volume, cluster: nat, off: nat, len: nat, buf: array<Byte>, at: nat, base: nat,
                     ghost chain: seq<nat>, ghost k: nat, ghost offset: nat, ghost before: seq<Byte>)
    returns (r: Outcome<()>)
    requires OnVolume(v, chain)
    requires k < |chain| && cluster == chain[k] && off + len <= v.clusterBytes && at + len <= buf.Length == |before|
    requires offset + at == Size(v, k) + off && Reads(v, Offsets(v, chain), offset, at, before, buf[..])
    modifies buf
    ensures r.Done? <==> BounceFits(off, len)
    ensures r.Done? ==> Reads(v, Offsets(v, chain), offset, at + len, before, buf[..])
  {
    hide DiskOffset, Offsets, OnVolume, OnSector, Reads, Store, AlignUp, Size, BounceFits;
    ghost var places := Offsets(v, chain);
    ClusterPlace(v, chain, k);
    var d := DiskOffset(v, cluster);
    ReadsMore(v, places, offset, at, before, buf[..], k, off, len);
    SameBounce(d, off, len);
    SectorsInCluster(v.clusterBytes, off, len);
    r := MsdRead(v.disk, d + off, len, buf, at, (base + at) % SECTOR == 0);
  }

  /** `chainread` into a buffer at address `base`. */
  method ChainRead(v: Volume, start: nat, offset: nat, bytes: nat, buf: array<Byte>, base: nat, ghost chain: seq<nat>)
    returns (r: Outcome<nat>)
    requires OnVolume(v, chain) && IsChain(v, start, chain) && bytes <= buf.Length
    modifies buf
    ensures r.Done? <==>
            if bytes == 0 then offset / v.clusterBytes <= |chain|
            else offset / v.clusterBytes < |chain| && FirstFits(v, offset % v.clusterBytes, bytes)
    ensures r.Done? && bytes > 0 ==>
              && offset <= |Seen(v, chain)|
              && r.value == (if offset + bytes <= |Seen(v, chain)| then bytes else |Seen(v, chain)| - offset)
              && buf[..] == Store(old(buf[..]), 0, Seen(v, chain)[offset..offset + r.value])
    ensures bytes == 0 ==> buf[..] == old(buf[..]) && (r.Done? ==> r.value == 0)
  {
    PartsOf(v, offset);
    hide ClusterOf, Rest, Size, Linked, FirstFits, Store, Gathered, Offsets, Available;
    var skipped := SkipClusters(v, start, ClusterOf(v, offset), chain);
    if skipped.Halted? {
      return Halted;
    }
    if bytes == 0 {
      return Done(0);
    }
    if skipped.value >= |v.fat| {
      return Halted;   // the end mark is not an index of the table
    }
    Halves(v, offset);
    r := ReadFrom(v, skipped.value, Rest(v, offset), bytes, buf, base, chain, ClusterOf(v, offset), offset);
    if r.Done? {
      AvailableIs(v, |chain|, offset, bytes);
    }
  }

  lemma PartsOf(v: Volume, offset: nat)
    requires v.clusterBytes > 0
    ensures ClusterOf(v, offset) == offset / v.clusterBytes && Rest(v, offset) == offset % v.clusterBytes
  {
  }

  lemma Inside(v: Volume, k: nat, off: nat, n: nat)
    requires k < n && off <= v.clusterBytes
    ensures Size(v, k) + off <= Size(v, n)
  {
    SizeNext(v, k);
    SizeGrows(v, k + 1, n);
  }

  /** The reading loop, from `off0` in cluster `k0` of the chain. */
  method ReadFrom(v: Volume, start: nat, off0: nat, bytes: nat, buf: array<Byte>, base: nat,
                  ghost chain: seq<nat>, ghost k0: nat, ghost offset: nat) returns (r: Outcome<nat>)
    requires OnVolume(v, chain) && (forall i :: 0 <= i < |chain| ==> Linked(v, chain, i))
    requires k0 < |chain| && start == chain[k0] && off0 < v.clusterBytes && offset == Size(v, k0) + off0
    requires 0 < bytes <= buf.Length
    modifies buf
    ensures r.Done? <==> FirstFits(v, off0, bytes)
    ensures r.Done? ==>
              && offset <= Size(v, |chain|) && r.value == Available(v, |chain|, offset, bytes)
              && Reads(v, Offsets(v, chain), offset, r.value, old(buf[..]), buf[..])
  {
    hide OnVolume, Store, Reads, InTable, Linked, Min, Size, Available, Offsets, FirstFits;
    Inside(v, k0, off0, |chain|);
    AvailableIs(v, |chain|, offset, bytes);
    var cluster, off, left, read := start, off0, bytes, 0;
    ghost var k := k0;
    NothingRead(v, Offsets(v, chain), offset, buf[..]);
    while left > 0
      invariant 0 <= k < |chain| && cluster == chain[k] && 0 <= off < v.clusterBytes && 0 <= left
                && left + read == bytes
      invariant left > 0 ==> offset + read == Size(v, k) + off
      invariant if read == 0 then off == off0 && left == bytes else off == 0 && FirstFits(v, off0, bytes)
      invariant offset + read <= Size(v, |chain|) && Reads(v, Offsets(v, chain), offset, read, old(buf[..]), buf[..])
    {
      var len, fatent := ReadNext(v, cluster, off, left, buf, read, base, chain, k, offset, old(buf[..]));
      if len.Halted? {
        return Halted;
      }
      off, read := 0, read + len.value;
      if fatent >= END_OF_CHAIN {
        return Done(read);
      }
      cluster, left, k := fatent, left - len.value, k + 1;
    }
    return Done(read);
  }

  lemma AvailableIs(v: Volume, n: nat, offset: nat, bytes: nat)
    requires offset <= Size(v, n)
    ensures Available(v, n, offset, bytes) == if offset + bytes <= Size(v, n) then bytes else Size(v, n) - offset
  {
  }

  /** One turn of the loop: what it reads, and where the table says to go on. */
  method ReadNext(v: Volume, cluster: nat, off: nat, left: nat, buf: array<Byte>, at: nat, base: nat,
                  ghost chain: seq<nat>, ghost k: nat, ghost offset: nat, ghost before: seq<Byte>)
    returns (r: Outcome<nat>, fatent: nat)
    requires OnVolume(v, chain) && (forall i :: 0 <= i < |chain| ==> Linked(v, chain, i))
    requires k < |chain| && cluster == chain[k] && off < v.clusterBytes && 0 < left
             && at + left <= buf.Length == |before|
    requires offset + at == Size(v, k) + off && Reads(v, Offsets(v, chain), offset, at, before, buf[..])
    modifies buf
    ensures r.Done? <==> FirstFits(v, off, left)
    ensures off == 0 ==> r.Done?
    ensures r.Done? ==>
              && 0 < r.value <= left && (r.value < left ==> offset + at + r.value == Size(v, k + 1))
              && offset + at + r.value <= Size(v, |chain|)
              && Reads(v, Offsets(v, chain), offset, at + r.value, before, buf[..])
    ensures if k + 1 < |chain| then fatent == chain[k + 1] < END_OF_CHAIN else fatent >= END_OF_CHAIN
  {
    assert Linked(v, chain, k);
    fatent := FatEntry(v, cluster);
    SizeNext(v, k);
    var len := Min(left, v.clusterBytes - off);
    Inside(v, k, off + len, |chain|);
    RestFits(v.clusterBytes, off, left);
    hide OnVolume, Store, Reads, FatEntry, Linked, Size, BounceFits, Offsets, InTable;
    var done := ReadCluster(v, cluster, off, len, buf, at, base, chain, k, offset, before);
    r := if done.Halted? then Halted else Done(len);
  }

  /** `chainread` without a buffer: it follows the chain to its end and never uses up its 32-bit request. */
  method ChainSize(v: Volume, start: nat, offset: nat, ghost chain: seq<nat>) returns (r: Outcome<nat>)
    requires VolumeOk(v) && IsChain(v, start, chain)
    ensures r.Done? <==> offset / v.clusterBytes < |chain|
    ensures r.Done? ==> offset < |chain| * v.clusterBytes && r.value == |chain| * v.clusterBytes - offset
  {
    PartsOf(v, offset);
    SizeIs(v, |chain|);
    hide ClusterOf, Rest, Size;
    var skipped := SkipClusters(v, start, ClusterOf(v, offset), chain);
    if skipped.Halted? || skipped.value >= |v.fat| {
      return Halted;
    }
    var cluster, off, bytes, read := skipped.value, Rest(v, offset), TWO32 - 1, 0;
    ghost var k := ClusterOf(v, offset);
    Halves(v, offset);
    while true
      invariant 0 <= k < |chain| && cluster == chain[k] && 0 <= off < v.clusterBytes && 0 <= read
      invariant offset + read == Size(v, k) + off
      decreases |chain| - k
    {
      var len := Min(bytes, v.clusterBytes - off);
      off, read := 0, read + len;
      assert Linked(v, chain, k);
      SizeNext(v, k);
      var fatent := FatEntry(v, cluster);
      if fatent >= END_OF_CHAIN {
        return Done(read);
      }
      cluster, k := fatent, k + 1;
    }
  }

  /** How `fat32_readdir` loads a directory: one pass for the size, one to fill a buffer of that size. */
  method ReadWhole(v: Volume, start: nat, base: nat, ghost chain: seq<nat>) returns (tmp: array<Byte>)
    requires OnVolume(v, chain) && IsChain(v, start, chain)
    ensures tmp[..] == Seen(v, chain)
    ensures OffsetsRight(v, chain) ==> tmp[..] == Content(v, chain)
  {
    SeenIsContentIff(v, chain);
    RestFits(0, 0, Size(v, |chain|));
    var bytes := ChainSize(v, start, 0, chain);
    tmp := new Byte[bytes.value];
    var read := ChainRead(v, start, 0, bytes.value, tmp, base, chain);
    hide Gathered, Size;
    assert Seen(v, chain)[0..|Seen(v, chain)|] == Seen(v, chain);
  }
}
