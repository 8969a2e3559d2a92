/** The read-only FAT driver (`fs/fat32.s2.c`): the cluster chain is cached as an array and read by position. */
module IndexedRead {
  import opened Bytes
  import opened Tree
  import opened Volume
  import opened Bitmap
  import opened FileData

  /** The part of `struct fat32_context` that the reads use; `kind` is 12, 16 or 32. */
  datatype Context = Context(kind: nat, bytesPerSector: nat, fatStart: nat, dataStart: nat, sectorsPerCluster: nat)

  predicate Sound(c: Context)
  {
    (c.kind == 12 || c.kind == 16 || c.kind == 32) && c.bytesPerSector > 0 && c.sectorsPerCluster > 0
  }

  // ---------------------------------------------------------------- following links

  /** The width of a table access. */
  function MapWidth(c: Context): (n: nat) { if c.kind == 32 then 4 else 2 }

  function MapPos(c: Context, cl: nat): (p: nat)
  {
    c.fatStart * c.bytesPerSector + (if c.kind == 12 then cl + cl / 2 else cl * MapWidth(c))
  }

  /** `read_cluster_from_map`: 12, 16 and 32 bit entries. */
  function MapEntry(c: Context, part: bytes, cl: nat): (next: nat)
    requires MapPos(c, cl) + MapWidth(c) <= |part|
  {
    var w := Le(part[MapPos(c, cl)..MapPos(c, cl) + MapWidth(c)]);
    if c.kind == 12 then (if cl % 2 == 0 then w % 0x1000 else w / 16)
    else if c.kind == 16 then w
    else w % TWO28
  }

  function ClusterLimit(c: Context): (n: nat)
  {
    if c.kind == 12 then 0xfef else if c.kind == 16 then 0xffef else 0xfffffef
  }

  predicate InRange(c: Context, cl: nat) { 2 <= cl <= ClusterLimit(c) }

  /** `cs` are the clusters that the links name, from the first to the last in range. */
  ghost predicate Follows(c: Context, part: bytes, cs: seq<nat>)
  {
    && |cs| > 0
    && (forall i | 0 <= i < |cs| :: InRange(c, cs[i]) && MapPos(c, cs[i]) + MapWidth(c) <= |part|)
    && (forall i | 0 <= i < |cs| - 1 :: MapEntry(c, part, cs[i]) == cs[i + 1])
    && !InRange(c, MapEntry(c, part, cs[|cs| - 1]))
  }

  /** `cache_cluster_chain`: the chain is walked twice, once to count and once to store. */
  method CacheClusterChain(c: Context, part: bytes, initial: nat, ghost cs: seq<nat>)
    returns (chain: Option<array<nat>>)
    requires Sound(c) && (InRange(c, initial) ==> Follows(c, part, cs) && cs[0] == initial)
    ensures chain.Some? <==> InRange(c, initial)
    ensures chain.Some? ==> chain.value[..] == cs
  {
    hide MapEntry, MapPos, ClusterLimit, InRange;
    if !InRange(c, initial) {
      return None;
    }
    FollowsAt(c, part, cs, 0);
    var cluster := initial;
    var n := 1;
    var next := MapEntry(c, part, cluster);
    while InRange(c, next)
      invariant 1 <= n <= |cs| && cluster == cs[n - 1] && MapPos(c, cs[n - 1]) + MapWidth(c) <= |part|
      invariant next == MapEntry(c, part, cs[n - 1])
      decreases |cs| - n
    {
      FollowsAt(c, part, cs, n - 1);
      FollowsAt(c, part, cs, n);
      cluster := next;
      n := n + 1;
      next := MapEntry(c, part, cluster);
    }
    FollowsAt(c, part, cs, n - 1);
    var stored := new nat[n];
    cluster := initial;
    var i := 0;
    while i < n
      invariant 0 <= i <= n == |cs| && stored[..i] == cs[..i] && (i < n ==> cluster == cs[i])
    {
      FollowsAt(c, part, cs, i);
      stored[i] := cluster;
      cluster := MapEntry(c, part, cluster);
      i := i + 1;
    }
    return Some(stored);
  }

  lemma FollowsAt(c: Context, part: bytes, cs: seq<nat>, i: nat)
    requires Follows(c, part, cs) && i < |cs|
    ensures InRange(c, cs[i]) && MapPos(c, cs[i]) + MapWidth(c) <= |part|
    ensures i + 1 < |cs| ==> MapEntry(c, part, cs[i]) == cs[i + 1] && InRange(c, cs[i + 1])
    ensures i + 1 == |cs| ==> !InRange(c, MapEntry(c, part, cs[i]))
  {
    hide MapEntry, MapPos, ClusterLimit;
  }

  // ---------------------------------------------------------------- reading by position

  function BlockSize(c: Context): (n: nat) { c.sectorsPerCluster * c.bytesPerSector }

  function BlockPos(c: Context, cl: nat): (p: nat)
    requires cl >= 2
  {
    (c.dataStart + (cl - 2) * c.sectorsPerCluster) * c.bytesPerSector
  }

  predicate BlockIn(c: Context, part: bytes, cl: nat)
  {
    cl >= 2 && BlockPos(c, cl) + BlockSize(c) <= |part|
  }

  /** The clusters of a chain one after the other. */
  function ChainData(c: Context, part: bytes, cs: seq<nat>): (b: bytes)
    requires forall i | 0 <= i < |cs| :: BlockIn(c, part, cs[i])
    ensures |b| == |cs| * BlockSize(c)
  {
    hide BlockPos, BlockSize;
    if cs == [] then [] else
    var n := |cs| - 1;
    MulSucc(n, BlockSize(c));
    assert BlockIn(c, part, cs[n]);
    ChainData(c, part, cs[..n]) + part[BlockPos(c, cs[n])..BlockPos(c, cs[n]) + BlockSize(c)]
  }

  /** A stretch of the chain inside cluster `k`. */
  lemma {:induction false} InBlock(c: Context, part: bytes, cs: seq<nat>, k: nat, o: nat, n: nat)
    requires (forall i | 0 <= i < |cs| :: BlockIn(c, part, cs[i])) && k < |cs| && o + n <= BlockSize(c)
    ensures BlockIn(c, part, cs[k])
    ensures k * BlockSize(c) + o + n <= |ChainData(c, part, cs)|
    ensures var p := BlockPos(c, cs[k]) + o;
      p + n <= |part| && ChainData(c, part, cs)[k * BlockSize(c) + o..k * BlockSize(c) + o + n] == part[p..p + n]
  {
    hide BlockPos, BlockSize, ChainData;
    var m := |cs| - 1;
    assert BlockIn(c, part, cs[m]) && BlockIn(c, part, cs[k]);
    ChainDataLast(c, part, cs);
    var last := part[BlockPos(c, cs[m])..BlockPos(c, cs[m]) + BlockSize(c)];
    if k == m {
      LastBlock(ChainData(c, part, cs[..m]), part, BlockPos(c, cs[m]), BlockSize(c), o, n);
    } else {
      InBlock(c, part, cs[..m], k, o, n);
      var q := k * BlockSize(c) + o;
      SliceOfFirst(ChainData(c, part, cs[..m]), last, q, q + n);
    }
  }

  lemma ChainDataLast(c: Context, part: bytes, cs: seq<nat>)
    requires (forall i | 0 <= i < |cs| :: BlockIn(c, part, cs[i])) && cs != []
    ensures BlockIn(c, part, cs[|cs| - 1])
    ensures var m := |cs| - 1; var p := BlockPos(c, cs[m]);
      ChainData(c, part, cs) == ChainData(c, part, cs[..m]) + part[p..p + BlockSize(c)]
  {
    hide BlockPos, BlockSize;
  }

  lemma LastBlock(x: bytes, part: bytes, p: nat, size: nat, o: nat, n: nat)
    requires p + size <= |part| && o + n <= size
    ensures (x + part[p..p + size])[|x| + o..|x| + o + n] == part[p + o..p + o + n]
  {
    var y := part[p..p + size];
    SliceOfSecond(x, y);
    SliceOfSlice(x + y, |x|, |y|, o, o + n);
    SliceOfSlice(part, p, size, o, o + n);
  }

  /** `read_cluster_chain`: for any position and length inside the chain, exactly that slice of its clusters. */
  method ReadClusterChain(c: Context, part: bytes, chain: array<nat>, loc: nat, count: nat) returns (buf: bytes)
    requires Sound(c) && forall i | 0 <= i < chain.Length :: BlockIn(c, part, chain[i])
    requires loc + count <= chain.Length * BlockSize(c)
    ensures loc + count <= |ChainData(c, part, chain[..])| && buf == ChainData(c, part, chain[..])[loc..loc + count]
  {
    hide BlockPos, ChainData, BlockSize;
    buf := [];
    SizePos(c);
    var blockSize := BlockSize(c);
    ghost var all := ChainData(c, part, chain[..]);
    assert |all| == chain.Length * blockSize;
    var progress := 0;
    while progress < count
      invariant 0 <= progress <= count && loc + progress <= |all| && buf == all[loc..loc + progress]
    {
      var piece := ReadChunk(c, part, chain, loc + progress, count - progress, blockSize);
      Cut(all, loc, loc + progress, loc + progress + |piece|);
      buf := buf + piece;
      progress := progress + |piece|;
    }
  }

  /** One round: as much as is wanted of the cluster that position `pos` falls into. */
  method ReadChunk(c: Context, part: bytes, chain: array<nat>, pos: nat, left: nat, blockSize: nat)
    returns (piece: bytes)
    requires (forall i | 0 <= i < chain.Length :: BlockIn(c, part, chain[i])) && blockSize == BlockSize(c) > 0
    requires pos < chain.Length * blockSize && left > 0
    ensures 0 < |piece| <= left && pos + |piece| <= |ChainData(c, part, chain[..])|
    ensures piece == ChainData(c, part, chain[..])[pos..pos + |piece|]
  {
    hide BlockPos, ChainData, BlockSize;
    var block: nat := pos / blockSize;
    var offset: nat := pos % blockSize;
    var chunk := left;
    if chunk > blockSize - offset {
      chunk := blockSize - offset;
    }
    ChunkIs(c, part, chain[..], pos, chunk);
    var base := BlockPos(c, chain[block]);
    piece := part[base + offset..base + offset + chunk];
  }

  lemma SizePos(c: Context)
    requires Sound(c)
    ensures BlockSize(c) > 0
  {
    MulMono(1, c.sectorsPerCluster, c.bytesPerSector);
  }

  /** A chunk that stays inside one cluster. */
  lemma ChunkIs(c: Context, part: bytes, cs: seq<nat>, pos: nat, n: nat)
    requires (forall i | 0 <= i < |cs| :: BlockIn(c, part, cs[i])) && BlockSize(c) > 0
    requires pos < |cs| * BlockSize(c) && pos % BlockSize(c) + n <= BlockSize(c)
    ensures pos / BlockSize(c) < |cs| && BlockIn(c, part, cs[pos / BlockSize(c)]) && pos + n <= |ChainData(c, part, cs)|
    ensures var p := BlockPos(c, cs[pos / BlockSize(c)]) + pos % BlockSize(c);
      p + n <= |part| && ChainData(c, part, cs)[pos..pos + n] == part[p..p + n]
  {
    hide BlockPos, ChainData, BlockSize;
    DivBelow(pos, |cs|, BlockSize(c));
    QuotRem(pos, BlockSize(c));
    InBlock(c, part, cs, pos / BlockSize(c), pos % BlockSize(c), n);
  }

  lemma QuotRem(x: nat, k: nat)
    requires k > 0
    ensures x == x / k * k + x % k
  {
  }

  // ---------------------------------------------------------------- agreement with the link-following reader

  /** The disk as one run of bytes. */
  function Flat(d: disk): (b: bytes) { Sectors(d, 0, |d|) }

  /** The context of a FAT32 volume. */
  function ContextOf(v: Vol): (c: Context)
  {
    Context(32, v.bytesPerSec, v.fatLba, Heap(v), v.secPerClus)
  }

  /** A sector, at its place in the run of bytes. */
  lemma SectorAt(d: disk, v: Vol, i: nat)
    requires OnDisk(d, v) && i < |d|
    ensures i * v.bytesPerSec + v.bytesPerSec <= |Flat(d)| && |d[i]| == v.bytesPerSec
    ensures Flat(d)[i * v.bytesPerSec..i * v.bytesPerSec + v.bytesPerSec] == d[i]
  {
    SectorPart(d, v, 0, |d|, i);
  }

  /** A run of sectors, at its place. */
  lemma {:induction false} RunAt(d: disk, v: Vol, lba: nat, n: nat)
    requires OnDisk(d, v) && lba + n <= |d|
    ensures (lba + n) * v.bytesPerSec <= |Flat(d)| && lba * v.bytesPerSec <= (lba + n) * v.bytesPerSec
    ensures Flat(d)[lba * v.bytesPerSec..(lba + n) * v.bytesPerSec] == Sectors(d, lba, n)
  {
    hide Geometry, Flat;
    FlatLen(d, v);
    MulMono(lba + n, |d|, v.bytesPerSec);
    MulMono(lba, lba + n, v.bytesPerSec);
    if n > 0 {
      RunAt(d, v, lba, n - 1);
      SectorAt(d, v, lba + n - 1);
      MulSucc(lba + n - 1, v.bytesPerSec);
      Cut(Flat(d), lba * v.bytesPerSec, (lba + n - 1) * v.bytesPerSec, (lba + n) * v.bytesPerSec);
    }
  }

  lemma FlatLen(d: disk, v: Vol)
    requires OnDisk(d, v)
    ensures |Flat(d)| == |d| * v.bytesPerSec
  {
    SectorsLen(d, v, 0, |d|);
  }

  /** Both drivers see the same cluster. */
  lemma SameCluster(d: disk, v: Vol, cl: nat)
    requires OnDisk(d, v) && Usable(v, cl)
    ensures BlockIn(ContextOf(v), Flat(d), cl) && BlockSize(ContextOf(v)) == ClusterBytes(v)
    ensures var p := BlockPos(ContextOf(v), cl); Flat(d)[p..p + ClusterBytes(v)] == Cluster(d, v, cl)
  {
    hide Limit, Geometry, Flat;
    LbaIs(v, |d|, cl);
    RunAt(d, v, Lba(v, cl), v.secPerClus);
    Distribute(Lba(v, cl), v.secPerClus, v.bytesPerSec);
  }

  lemma Distribute(a: nat, b: nat, k: nat)
    ensures (a + b) * k == a * k + b * k
  {
  }

  /** ... and the same chain of them. */
  lemma {:induction false} SameChain(d: disk, v: Vol, cs: seq<nat>)
    requires OnDisk(d, v) && AllUsable(v, cs)
    ensures forall i | 0 <= i < |cs| :: BlockIn(ContextOf(v), Flat(d), cs[i])
    ensures ChainData(ContextOf(v), Flat(d), cs) == ChainBytes(d, v, cs)
  {
    hide Limit, Geometry, Flat, BlockPos, Cluster, Usable, BlockSize, ClusterBytes;
    forall i | 0 <= i < |cs| ensures BlockIn(ContextOf(v), Flat(d), cs[i]) {
      SameCluster(d, v, cs[i]);
    }
    if cs != [] {
      SameChain(d, v, cs[..|cs| - 1]);
      SameCluster(d, v, cs[|cs| - 1]);
    }
  }

  /** ... linked in the same way. */
  lemma SameEntry(d: disk, v: Vol, cl: nat)
    requires OnDisk(d, v) && Usable(v, cl)
    ensures MapPos(ContextOf(v), cl) + 4 <= |Flat(d)| && MapEntry(ContextOf(v), Flat(d), cl) == Entry(d, v, cl)
  {
    hide Limit, Geometry, Flat, Le;
    var bps := v.bytesPerSec;
    FatPlace(v, |d|, cl);
    SectorAt(d, v, FatSec(v, cl));
    QuotRem(4 * cl, bps);
    Distribute(v.fatLba, 4 * cl / bps, bps);
    SliceOfSlice(Flat(d), FatSec(v, cl) * bps, bps, FatOff(v, cl), FatOff(v, cl) + 4);
  }

  lemma NumberInRange(d: disk, v: Vol, cl: nat)
    requires OnDisk(d, v) && Usable(v, cl)
    ensures InRange(ContextOf(v), cl)
  {
  }

  /** A chain of the read-write driver is a chain of the read-only driver. */
  lemma SameLinks(d: disk, v: Vol, start: nat, cs: seq<nat>)
    requires Chain(d, v, start, cs)
    ensures Follows(ContextOf(v), Flat(d), cs) && cs[0] == start
  {
    hide Geometry, Flat, Entry, MapPos, MapEntry;
    forall i | 0 <= i < |cs|
      ensures InRange(ContextOf(v), cs[i]) && MapPos(ContextOf(v), cs[i]) + 4 <= |Flat(d)|
      ensures MapEntry(ContextOf(v), Flat(d), cs[i]) == Entry(d, v, cs[i])
    {
      UsableEntry(d, v, start, cs, i);
      NumberInRange(d, v, cs[i]);
      SameEntry(d, v, cs[i]);
    }
  }

  /** The cached, indexed read of a FAT32 file returns what the link-following read returns. */
  lemma ReadersAgree(d: disk, v: Vol, start: nat, cs: seq<nat>, n: nat)
    requires Chain(d, v, start, cs) && n <= |cs| * ClusterBytes(v)
    ensures OnDisk(d, v) && AllUsable(v, cs) && n <= |ChainBytes(d, v, cs)|
    ensures Follows(ContextOf(v), Flat(d), cs) && forall i | 0 <= i < |cs| :: BlockIn(ContextOf(v), Flat(d), cs[i])
    ensures ChainData(ContextOf(v), Flat(d), cs)[0..n] == ChainBytes(d, v, cs)[..n]
  {
    hide Geometry, Flat, Entry, ChainData, ChainBytes, Follows;
    ChainUsable(d, v, start, cs);
    ChainLen(d, v, cs);
    SameLinks(d, v, start, cs);
    SameChain(d, v, cs);
  }
}
