/** FAT32 directories on disk: finding, creating and changing entries, single-cluster files, new directories. */
module Fat32Dir {
  import opened Bytes
  import opened Volume
  import opened Bitmap
  import opened Allocator
  import opened FileData
  import opened DirSets
  import opened Keeping
  import opened DirEntries
  import opened Dir83

  /** The volumes that this driver's 512-byte buffers are made for. */
  ghost predicate Small(d: disk, v: Vol)
  {
    OnDisk(d, v) && v.bytesPerSec == 512 && v.clusterCount == 0 && v.firstDataLba <= v.totSec
  }

  lemma SmallOn(d: disk, v: Vol)
    requires Small(d, v)
    ensures OnDisk(d, v) && v.bytesPerSec == 512 && v.secPerClus > 0 && ClusterBytes(v) % 32 == 0
    ensures 512 <= ClusterBytes(v) < TWO31
  {
    hide Limit, FatSectors;
    MulMono(1, v.secPerClus, 512);
  }

  /** Clusters consist of whole entries. */
  lemma WholeEntries(d: disk, v: Vol, cs: seq<nat>)
    requires Small(d, v) && AllUsable(v, cs)
    ensures OnDisk(d, v) && AllEntries(Contents(d, v, cs))
    ensures forall i | 0 <= i < |cs| :: |Contents(d, v, cs)[i]| == ClusterBytes(v)
  {
    hide Cluster, Limit, Geometry;
    SmallOn(d, v);
    forall i | 0 <= i < |cs|
      ensures |Contents(d, v, cs)[i]| == ClusterBytes(v)
    {
      ClusterLen(d, v, cs[i]);
    }
  }

  // ---------------------------------------------------------------- finding an entry

  /** The innermost loop of `dir_find_entry`: the sector that is bytes `base` to `base + 512` of the cluster `c`. */
  method ScanSector(sec: bytes, want: bytes, ghost c: bytes, ghost base: nat) returns (hit: bool, stop: bool, off: nat)
    requires Entries(c) && |sec| == 512 && base % 32 == 0 && base + 512 <= |c| && sec == c[base..base + 512]
    ensures hit ==> !stop && off + 32 <= 512 && off % 32 == 0 && ScanFrom(c, base, want) == Hit(base + off)
    ensures !hit && stop ==> ScanFrom(c, base, want) == Stop
    ensures !hit && !stop ==> ScanFrom(c, base, want) == ScanFrom(c, base + 512, want)
  {
    hide Named;
    hit, stop, off := false, false, 0;
    while off < 512
      invariant 0 <= off <= 512 && off % 32 == 0 && ScanFrom(c, base, want) == ScanFrom(c, base + off, want) && !hit
      invariant !stop
    {
      SliceOfSlice(c, base, 512, off, off + 32);
      assert sec[off] == sec[off..off + 32][0] == c[base + off..base + off + 32][0];
      if sec[off] == 0 {
        stop := true;
        return;
      }
      if Named(sec[off..off + 32], want) {
        hit := true;
        return;
      }
      off := off + 32;
    }
  }

  /** The two inner loops of `dir_find_entry`: one cluster. */
  method ScanCluster(dk: array<bytes>, v: Vol, cl: nat, want: bytes) returns (hit: bool, stop: bool, s: nat, off: nat)
    requires Small(dk[..], v) && Usable(v, cl) && Entries(Cluster(dk[..], v, cl))
    ensures match ScanFrom(Cluster(dk[..], v, cl), 0, want)
      case Hit(p) => hit && !stop && s < v.secPerClus && off + 32 <= 512 && off % 32 == 0 && p == s * 512 + off
      case Stop => !hit && stop
      case Past => !hit && !stop
  {
    hide Limit, Geometry, Cluster, Lba, Named, Usable, ScanFrom;
    ghost var c := Cluster(dk[..], v, cl);
    SmallOn(dk[..], v);
    UsableTwo(v, cl);
    ClusterLen(dk[..], v, cl);
    hit, stop, s, off := false, false, 0, 0;
    while s < v.secPerClus
      invariant 0 <= s <= v.secPerClus && ScanFrom(c, 0, want) == ScanFrom(c, s * 512, want) && !hit && !stop
    {
      ClusterPart(dk[..], v, cl, s);
      hit, stop, off := ScanSector(dk[Lba(v, cl) + s], want, c, s * 512);
      if hit || stop {
        return;
      }
      s := s + 1;
    }
    ScanEnd(c, s * 512, want);
  }

  lemma ScanEnd(c: bytes, off: nat, want: bytes)
    requires Entries(c) && off % 32 == 0 && off >= |c|
    ensures ScanFrom(c, off, want) == Past
  {
  }

  lemma UsableTwo(v: Vol, cl: nat)
    requires Usable(v, cl)
    ensures cl >= 2
  {
  }

  /** The directory `dcs` starts at `dirCl`. */
  ghost predicate DirAt(d: disk, v: Vol, dirCl: nat, dcs: seq<nat>)
  {
    Small(d, v) && Chain(d, v, dirCl, dcs)
  }

  lemma DirIs(d: disk, v: Vol, dirCl: nat, dcs: seq<nat>)
    requires DirAt(d, v, dirCl, dcs)
    ensures OnDisk(d, v) && AllUsable(v, dcs) && |dcs| > 0 && dcs[0] == dirCl && AllEntries(Contents(d, v, dcs))
    ensures forall i | 0 <= i < |dcs| ::
      |Contents(d, v, dcs)[i]| == ClusterBytes(v) && Contents(d, v, dcs)[i] == Cluster(d, v, dcs[i])
  {
    hide Cluster, Limit, Geometry, Entry;
    ChainUsable(d, v, dirCl, dcs);
    WholeEntries(d, v, dcs);
  }

  /** The entry at a position that the search has found. */
  function FoundEntry(cl: seq<bytes>, f: Found): (e: bytes)
    requires f.At? && f.i < |cl| && f.off + 32 <= |cl[f.i]|
    ensures |e| == 32
  {
    EntryOf(cl[f.i], f.off)
  }

  /** `dir_find_entry`. */
  method DirFindEntry(dk: array<bytes>, v: Vol, dirCl: nat, want: bytes, ghost dcs: seq<nat>)
    returns (r: int, de: bytes, lba: nat, s: nat, off: nat)
    requires DirAt(dk[..], v, dirCl, dcs)
    ensures OnDisk(dk[..], v) && AllUsable(v, dcs) && AllEntries(Contents(dk[..], v, dcs))
    ensures var cl := Contents(dk[..], v, dcs);
      match Find(cl, 0, want)
      case At(i, p) => r == 0 && s < v.secPerClus && off + 32 <= 512 && off % 32 == 0 && p == s * 512 + off
                       && dcs[i] >= 2 && lba == Lba(v, dcs[i]) && de == FoundEntry(cl, At(i, p))
      case Ended => r == -2
      case Exhausted => r == -3
  {
    hide Limit, Geometry, Cluster, Lba, Named, Usable, Entry, Chain;
    ghost var d := dk[..];
    DirIs(d, v, dirCl, dcs);
    ghost var cl := Contents(d, v, dcs);
    de, lba, s, off := [], 0, 0, 0;
    var cur := dirCl;
    ghost var k := 0;
    UsableEntry(d, v, dirCl, dcs, 0);
    while !IsEnd(cur)
      invariant 0 <= k <= |dcs| && (k < |dcs| ==> cur == dcs[k]) && (k == |dcs| ==> IsEnd(cur))
      invariant Find(cl, 0, want) == Find(cl, k, want)
      decreases |dcs| - k
    {
      UsableEntry(d, v, dirCl, dcs, k);
      var hit, stop;
      hit, stop, s, off := ScanCluster(dk, v, cur, want);
      if stop {
        return -2, de, lba, s, off;
      }
      if hit {
        lba := Lba(v, cur);
        ClusterPart(d, v, cur, s);
        SliceOfSlice(cl[k], s * 512, 512, off, off + 32);
        de := dk[lba + s][off..off + 32];
        return 0, de, lba, s, off;
      }
      UsableBelow(v, cur);
      cur := ReadFatEntry(dk, v, cur);
      k := k + 1;
    }
    if k < |dcs| {
      UsableEntry(d, v, dirCl, dcs, k);
    }
    r := -3;
  }

  // ---------------------------------------------------------------- the first free slot

  lemma SectorByte(c: bytes, sec: bytes, base: nat, off: nat)
    requires |sec| == 512 && base + 512 <= |c| && sec == c[base..base + 512] && off + 32 <= 512
    ensures sec[off] == c[base + off] && sec[off..off + 32] == EntryOf(c, base + off)
  {
    SliceOfSlice(c, base, 512, off, off + 32);
  }

  lemma SlotStep(c: bytes, off: nat)
    requires Entries(c) && off % 32 == 0 && off + 32 <= |c|
    ensures SlotFrom(c, off) == if c[off] == 0 || c[off] == DELETED then off else SlotFrom(c, off + 32)
  {
  }

  /** One sector: bytes `base` to `base + 512` of the cluster `c`. */
  method SlotInSector(sec: bytes, ghost c: bytes, ghost base: nat) returns (hit: bool, off: nat)
    requires Entries(c) && |sec| == 512 && base % 32 == 0 && base + 512 <= |c| && sec == c[base..base + 512]
    ensures hit ==> off + 32 <= 512 && off % 32 == 0 && SlotFrom(c, base) == base + off
    ensures !hit ==> SlotFrom(c, base) == SlotFrom(c, base + 512)
  {
    hide SlotFrom;
    hit, off := false, 0;
    while off < 512
      invariant 0 <= off <= 512 && off % 32 == 0 && SlotFrom(c, base) == SlotFrom(c, base + off)
    {
      SectorByte(c, sec, base, off);
      SlotStep(c, base + off);
      if sec[off] == 0 || sec[off] == DELETED {
        hit := true;
        return;
      }
      off := off + 32;
    }
  }

  method SlotInCluster(dk: array<bytes>, v: Vol, cl: nat) returns (hit: bool, s: nat, off: nat)
    requires Small(dk[..], v) && Usable(v, cl) && Entries(Cluster(dk[..], v, cl))
    ensures var c := Cluster(dk[..], v, cl); hit <==> SlotFrom(c, 0) < |c|
    ensures hit ==>
      s < v.secPerClus && off + 32 <= 512 && off % 32 == 0 && SlotFrom(Cluster(dk[..], v, cl), 0) == s * 512 + off
  {
    hide Limit, Geometry, Cluster, Lba, Usable;
    ghost var c := Cluster(dk[..], v, cl);
    SmallOn(dk[..], v);
    UsableTwo(v, cl);
    ClusterLen(dk[..], v, cl);
    hit, s, off := false, 0, 0;
    while s < v.secPerClus
      invariant 0 <= s <= v.secPerClus && s * 512 <= |c| && SlotFrom(c, 0) == SlotFrom(c, s * 512)
    {
      ClusterPart(dk[..], v, cl, s);
      hit, off := SlotInSector(dk[Lba(v, cl) + s], c, s * 512);
      if hit {
        return;
      }
      s := s + 1;
    }
  }

  /** `dir_find_free_slot`; `cl` is the cluster that the slot is in. */
  method DirFindFreeSlot(dk: array<bytes>, v: Vol, dirCl: nat, ghost dcs: seq<nat>)
    returns (r: int, cl: nat, s: nat, off: nat)
    requires DirAt(dk[..], v, dirCl, dcs)
    ensures OnDisk(dk[..], v) && AllUsable(v, dcs) && AllEntries(Contents(dk[..], v, dcs))
    ensures match Slot(Contents(dk[..], v, dcs), 0)
      case At(i, p) => r == 0 && s < v.secPerClus && off + 32 <= 512 && off % 32 == 0 && p == s * 512 + off
                       && cl == dcs[i]
      case _ => r == -1
  {
    hide Limit, Geometry, Cluster, Lba, Usable, Entry, Chain;
    ghost var d := dk[..];
    DirIs(d, v, dirCl, dcs);
    ghost var all := Contents(d, v, dcs);
    cl, s, off := dirCl, 0, 0;
    ghost var k := 0;
    UsableEntry(d, v, dirCl, dcs, 0);
    while !IsEnd(cl)
      invariant 0 <= k <= |dcs| && (k < |dcs| ==> cl == dcs[k]) && (k == |dcs| ==> IsEnd(cl))
      invariant Slot(all, 0) == Slot(all, k)
      decreases |dcs| - k
    {
      UsableEntry(d, v, dirCl, dcs, k);
      var hit;
      hit, s, off := SlotInCluster(dk, v, cl);
      if hit {
        return 0, cl, s, off;
      }
      UsableBelow(v, cl);
      cl := ReadFatEntry(dk, v, cl);
      k := k + 1;
    }
    if k < |dcs| {
      UsableEntry(d, v, dirCl, dcs, k);
    }
    r := -1;
  }

  // ---------------------------------------------------------------- storing an entry

  /** The sector at `lba + s`, in cluster `cl`, is written with `x` at `off` of it. */
  method StoreEntry(dk: array<bytes>, v: Vol, lba: nat, s: nat, off: nat, x: bytes, ghost cl: nat)
    requires Small(dk[..], v) && Usable(v, cl) && cl >= 2 && lba == Lba(v, cl) && s < v.secPerClus
    requires off + 32 <= 512 && |x| == 32
    modifies dk
    ensures Small(dk[..], v) && OnlyCluster(old(dk[..]), dk[..], v, cl)
    ensures s * 512 + off + 32 <= |Cluster(old(dk[..]), v, cl)| == ClusterBytes(v)
    ensures Cluster(dk[..], v, cl) == Put(Cluster(old(dk[..]), v, cl), s * 512 + off, x)
  {
    hide Limit, Put, Lba, FatSectors;
    ghost var d := dk[..];
    LbaIs(v, dk.Length, cl);
    dk[lba + s] := Put(dk[lba + s], off, x);
    SectorsPut(d, dk[..], v, lba, v.secPerClus, s, off, x);
    ClusterLen(d, v, cl);
  }

  /** The directory `dcs` after an entry of it has been written; nothing else has changed. */
  ghost predicate EntryStored(d: disk, d': disk, v: Vol, dcs: seq<nat>, i: nat, p: nat, x: bytes)
  {
    && i < |dcs| && |x| == 32 && DirAt(d, v, dcs[0], dcs) && DirAt(d', v, dcs[0], dcs) && OnDisk(d, v) && OnDisk(d', v)
    && AllUsable(v, dcs) && AllEntries(Contents(d, v, dcs)) && p + 32 <= |Contents(d, v, dcs)[i]|
    && Contents(d', v, dcs) == WithEntry(Contents(d, v, dcs), i, p, x) && Keeps(d, d', v, {dcs[i]})
    && forall c | 0 <= c < Limit(v) :: Entry(d', v, c) == Entry(d, v, c)
  }

  lemma StoredIs(d: disk, d': disk, v: Vol, dirCl: nat, dcs: seq<nat>, i: nat, p: nat, x: bytes)
    requires DirAt(d, v, dirCl, dcs) && i < |dcs| && |x| == 32 && Small(d', v) && dcs[i] >= 2
    requires OnlyCluster(d, d', v, dcs[i])
    requires OnDisk(d, v) && AllUsable(v, dcs) && p + 32 <= |Cluster(d, v, dcs[i])|
    requires OnDisk(d', v) && Cluster(d', v, dcs[i]) == Put(Cluster(d, v, dcs[i]), p, x)
    ensures EntryStored(d, d', v, dcs, i, p, x)
  {
    hide Limit, Geometry, Cluster, Put, Entry, OnlyCluster;
    DirIs(d, v, dirCl, dcs);
    OneIsChain(d, d', v, dcs[i]);
    WriteOneKeeps(d, d', v, dcs[i]);
    TableKept(d, d', v, [dcs[i]]);
    EntriesKept(d, d', v);
    ChainKept(d, d', v, [dcs[i]], dirCl, dcs);
    ChainDistinct(d, v, dirCl, dcs);
    forall j | 0 <= j < |dcs|
      ensures Contents(d', v, dcs)[j] == WithEntry(Contents(d, v, dcs), i, p, x)[j]
    {
      if j != i {
        OtherCluster(d, d', v, [dcs[i]], dcs[j]);
      }
    }
  }

  lemma EntriesKept(d: disk, d': disk, v: Vol)
    requires OnDisk(d, v) && OnDisk(d', v) && forall c: nat | c < Limit(v) :: FatWord(d', v, c) == FatWord(d, v, c)
    ensures forall c: nat | c < Limit(v) :: Entry(d', v, c) == Entry(d, v, c)
  {
    hide FatWord, Limit;
  }

  /** An entry of cluster `i` of the directory `dcs` is written into the sector that a search reported. */
  method StoreAt(dk: array<bytes>, v: Vol, lba: nat, s: nat, off: nat, x: bytes, ghost dirCl: nat, ghost dcs: seq<nat>,
                 ghost i: nat)
    requires DirAt(dk[..], v, dirCl, dcs) && i < |dcs| && dcs[i] >= 2 && Usable(v, dcs[i]) && Small(dk[..], v)
    requires lba == Lba(v, dcs[i]) && s < v.secPerClus && off + 32 <= 512 && |x| == 32
    modifies dk
    ensures EntryStored(old(dk[..]), dk[..], v, dcs, i, s * 512 + off, x)
  {
    hide Limit, Put, Lba, Geometry, Cluster, EntryStored, OnlyCluster, Chain;
    ghost var d := dk[..];
    StoreEntry(dk, v, lba, s, off, x, dcs[i]);
    OnlyClusterOn(d, dk[..], v, dcs[i]);
    DirIs(d, v, dirCl, dcs);
    StoredIs(d, dk[..], v, dirCl, dcs, i, s * 512 + off, x);
  }

  /** `create_dir_entry`. */
  method CreateDirEntry(dk: array<bytes>, v: Vol, parent: nat, name: bytes, attr: byte, start: nat, size: nat,
                        ghost dcs: seq<nat>)
    returns (r: int)
    requires DirAt(dk[..], v, parent, dcs) && |name| == 11 && start < TWO32 && size < TWO32
    modifies dk
    ensures OnDisk(old(dk[..]), v) && AllUsable(v, dcs) && AllEntries(Contents(old(dk[..]), v, dcs))
    ensures r == 0 || r == -1
    ensures r == -1 ==> dk[..] == old(dk[..]) && Slot(Contents(old(dk[..]), v, dcs), 0).Exhausted?
    ensures r == 0 ==> var f := Slot(Contents(old(dk[..]), v, dcs), 0);
      f.At? && EntryStored(old(dk[..]), dk[..], v, dcs, f.i, f.off, NewEntry(name, attr, start, size))
  {
    hide Limit, Geometry, Cluster, Put, Entry, Lba, Chain, OnlyCluster, EntryStored, NewEntry, Small;
    ghost var d := dk[..];
    DirIs(d, v, parent, dcs);
    var found, cl, s, off := DirFindFreeSlot(dk, v, parent, dcs);
    if found != 0 {
      return -1;
    }
    ghost var f := Slot(Contents(d, v, dcs), 0);
    DirSmall(d, v, parent, dcs, f.i);
    StoreAt(dk, v, Lba(v, cl), s, off, NewEntry(name, attr, start, size), parent, dcs, f.i);
    r := 0;
  }

  lemma DirSmall(d: disk, v: Vol, dirCl: nat, dcs: seq<nat>, i: nat)
    requires DirAt(d, v, dirCl, dcs) && i < |dcs|
    ensures Small(d, v) && Usable(v, dcs[i]) && dcs[i] >= 2
  {
    hide Entry, Limit, Geometry;
    UsableEntry(d, v, dirCl, dcs, i);
  }

  lemma OnlyClusterOn(d: disk, d': disk, v: Vol, cl: nat)
    requires cl >= 2 && OnlyCluster(d, d', v, cl)
    ensures OnDisk(d', v) && |d'| == |d|
  {
  }

  // ---------------------------------------------------------------- clusters

  /** The number at which `fat_alloc_free_cluster` stops scanning. */
  function FatScan(v: Vol): (m: nat)
    requires v.secPerClus > 0
  {
    var m := if v.totSec < v.firstDataLba then 0 else (v.totSec - v.firstDataLba) / v.secPerClus;
    if m > MAX_SCAN then MAX_SCAN else m
  }

  /** How many free clusters the scan can find. */
  ghost function FreeCount(d: disk, v: Vol): (n: nat)
    requires OnDisk(d, v)
  {
    |FreeSet(Fat(d, v), FatScan(v))|
  }

  lemma NoneCounted(d: disk, v: Vol)
    requires OnDisk(d, v)
    ensures v.secPerClus > 0 && (FirstFree(Fat(d, v), FatScan(v), 2) == 0 <==> FreeCount(d, v) == 0)
  {
    hide Fat;
    NoneIsFree(Fat(d, v), FatScan(v));
  }

  lemma SameCount(d: disk, d': disk, v: Vol)
    requires OnDisk(d, v) && OnDisk(d', v) && forall c | 0 <= c < Limit(v) :: Entry(d', v, c) == Entry(d, v, c)
    ensures FreeCount(d', v) == FreeCount(d, v)
  {
    hide Entry;
    assert Fat(d', v) == Fat(d, v);
  }

  /** One cluster has been marked, twice perhaps. */
  lemma OneCounted(d: disk, d1: disk, d2: disk, d3: disk, v: Vol, cl: nat)
    requires OnDisk(d, v) && cl == FirstFree(Fat(d, v), FatScan(v), 2) && cl != 0 && cl < Limit(v)
    requires FatWritten(d, d1, v, cl, EOC) && OnDisk(d1, v) && OnDisk(d2, v) && FatWritten(d2, d3, v, cl, EOC)
    requires forall c: nat | c < Limit(v) :: FatWord(d2, v, c) == FatWord(d1, v, c)
    ensures OnDisk(d3, v) && FreeCount(d3, v) + 1 == FreeCount(d, v)
  {
    hide Limit, FatWord;
    FreeIs(Fat(d, v), FatScan(v), cl);
    forall c: nat | c < Limit(v)
      ensures Entry(d3, v, c) == if c == cl then EOC else Entry(d, v, c)
    {
      ReadsBack(d, d1, v, cl, EOC, c);
      ReadsBack(d2, d3, v, cl, EOC, c);
    }
    OneTaken(Fat(d, v), Fat(d3, v), FatScan(v), cl);
  }

  /** `fat_alloc_free_cluster`: the first free cluster, marked as the end of a chain, or 0 and no change. */
  method FatAllocFreeCluster(dk: array<bytes>, v: Vol) returns (cl: nat)
    requires Small(dk[..], v)
    modifies dk
    ensures var d := old(dk[..]); v.secPerClus > 0 && OnDisk(d, v) && cl == FirstFree(Fat(d, v), FatScan(v), 2)
    ensures cl == 0 ==> dk[..] == old(dk[..])
    ensures cl != 0 ==> Usable(v, cl) && Entry(old(dk[..]), v, cl) == 0 && FatWritten(old(dk[..]), dk[..], v, cl, EOC)
    ensures Small(dk[..], v)
  {
    hide Fat, Limit, Entry, FatWritten, Geometry, Usable, FirstFree;
    ghost var d := dk[..];
    SmallOn(d, v);
    ghost var f := Fat(d, v);
    cl := 2;
    while cl < FatScan(v)
      invariant dk[..] == d && cl >= 2 && FirstFree(f, FatScan(v), 2) == FirstFree(f, FatScan(v), cl)
    {
      ScanUsable(d, v, cl);
      FirstStep(f, FatScan(v), cl);
      var val := ReadFatEntry(dk, v, cl);
      if val == 0 {
        WriteFatEntry(dk, v, cl, EOC);
        WrittenOn(d, dk[..], v, cl, EOC);
        return;
      }
      cl := cl + 1;
    }
    FirstNone(f, FatScan(v), cl);
    cl := 0;
  }

  lemma WrittenOn(d: disk, d': disk, v: Vol, cl: nat, val: nat)
    requires OnDisk(d, v) && cl < Limit(v) && FatWritten(d, d', v, cl, val)
    ensures OnDisk(d', v) && |d'| == |d|
  {
  }

  lemma ScanUsable(d: disk, v: Vol, cl: nat)
    requires Small(d, v) && v.secPerClus > 0 && 2 <= cl < FatScan(v)
    ensures Usable(v, cl) && cl < Limit(v) && cl < |Fat(d, v)| && Fat(d, v)[cl] == Entry(d, v, cl)
  {
    hide Entry;
  }

  lemma FirstStep(f: seq<nat>, max: nat, cl: nat)
    requires 2 <= cl < |f| && cl < max
    ensures FirstFree(f, max, cl) == if f[cl] == 0 then cl else FirstFree(f, max, cl + 1)
  {
  }

  lemma FirstNone(f: seq<nat>, max: nat, cl: nat)
    requires 2 <= cl && max <= cl
    ensures FirstFree(f, max, cl) == 0
  {
  }

  /** `write_single_cluster`: the cluster holds the first bytes of the data, filled up with zeros, and ends its
      chain. */
  method WriteSingleCluster(dk: array<bytes>, v: Vol, clus: nat, data: bytes) returns (r: int)
    requires Small(dk[..], v) && (clus != 0 ==> Usable(v, clus))
    modifies dk
    ensures r == if clus == 0 then -1 else 0
    ensures r != 0 ==> dk[..] == old(dk[..])
    ensures r == 0 ==> Keeps(old(dk[..]), dk[..], v, {clus}) && Small(dk[..], v) && Chain(dk[..], v, clus, [clus])
    ensures r == 0 ==> Cluster(dk[..], v, clus) == Piece(Truncated(v, data), 0, ClusterBytes(v))
  {
    hide Limit, Geometry, Cluster, Piece, OnlyCluster, FatWritten, Entry, Usable;
    if clus == 0 {
      return -1;
    }
    ghost var d := dk[..];
    SmallOn(d, v);
    UsableTwo(v, clus);
    var toWrite := if |data| < v.secPerClus * v.bytesPerSec then |data| else v.secPerClus * v.bytesPerSec;
    assert data[..toWrite] == Truncated(v, data);
    var pos := WriteCluster(dk, v, clus, data[..toWrite], 0);
    ghost var d1 := dk[..];
    OnlyClusterOn(d, d1, v, clus);
    WriteOneKeeps(d, d1, v, clus);
    UsableBelow(v, clus);
    WriteFatEntry(dk, v, clus, EOC);
    WrittenOn(d1, dk[..], v, clus, EOC);
    EntryKeeps(d1, dk[..], v, clus, EOC);
    KeepsThen(d, d1, dk[..], v, {clus}, {clus}, {clus});
    SingleChain(d1, dk[..], v, clus);
    r := 0;
  }

  /** As much of the data as one cluster holds. */
  function Truncated(v: Vol, data: bytes): (r: bytes)
    ensures |r| <= ClusterBytes(v) && r <= data
  {
    if |data| < ClusterBytes(v) then data else data[..ClusterBytes(v)]
  }

  /** A cluster marked as an end is a chain of its own, and the mark leaves its contents alone. */
  lemma SingleChain(d: disk, d': disk, v: Vol, cl: nat)
    requires OnDisk(d, v) && Usable(v, cl) && cl < Limit(v) && FatWritten(d, d', v, cl, EOC)
    ensures Chain(d', v, cl, [cl]) && OnDisk(d', v) && Cluster(d', v, cl) == Cluster(d, v, cl)
  {
    hide Limit, Geometry, FatWord, Cluster;
    ReadsBack(d, d', v, cl, EOC, cl);
    LbaIs(v, |d|, cl);
    ClusterSame(d, d', v, cl);
  }

  // ---------------------------------------------------------------- a new directory

  const DOT_NAME: bytes := [46, 32, 32, 32, 32, 32, 32, 32, 32, 32, 32]
  const DOTDOT_NAME: bytes := [46, 46, 32, 32, 32, 32, 32, 32, 32, 32, 32]

  /** The two entries that a directory holds about itself and its parent. */
  function Dots(self: nat, parent: nat): (b: bytes)
    ensures |b| == 64
  {
    NewEntry(DOT_NAME, DIR, self, 0) + NewEntry(DOTDOT_NAME, DIR, parent, 0)
  }

  /** The cluster of a new directory. */
  function NewDir(v: Vol, self: nat, parent: nat): (b: bytes)
  {
    Dots(self, parent) + Zeros(if ClusterBytes(v) > 64 then ClusterBytes(v) - 64 else 0)
  }

  lemma ZerosMore(x: bytes, n: nat, k: nat)
    ensures x + Zeros(n) + Zeros(k) == x + Zeros(n + k)
  {
  }

  method ClearDir(dk: array<bytes>, v: Vol, cl: nat, parent: nat)
    requires Small(dk[..], v) && Usable(v, cl)
    modifies dk
    ensures Small(dk[..], v) && OnlyCluster(old(dk[..]), dk[..], v, cl)
    ensures Cluster(dk[..], v, cl) == NewDir(v, cl, parent)
  {
    hide Limit, FatSectors, HeapClusters, Lba, NewEntry, Zeros;
    ghost var d := dk[..];
    SmallOn(d, v);
    LbaIs(v, dk.Length, cl);
    var lba0 := Lba(v, cl);
    dk[lba0] := Dots(cl, parent) + Zeros(448);
    assert Sectors(dk[..], lba0, 1) == Dots(cl, parent) + Zeros(448);
    var sct := 1;
    while sct < v.secPerClus
      invariant 1 <= sct <= v.secPerClus && OnlyCluster(d, dk[..], v, cl)
      invariant Sectors(dk[..], lba0, sct) == Dots(cl, parent) + Zeros(sct * 512 - 64)
    {
      ghost var d1 := dk[..];
      dk[lba0 + sct] := Zeros(512);
      SectorsSame(d1, dk[..], lba0, sct);
      ZerosMore(Dots(cl, parent), sct * 512 - 64, 512);
      sct := sct + 1;
    }
  }

  /** In a new directory no component is found, and the third entry is free. */
  lemma NewDirEmpty(v: Vol, self: nat, parent: nat, want: bytes)
    requires ClusterBytes(v) % 32 == 0 && ClusterBytes(v) >= 512 && |want| == 11 && want[0] != DOT
    ensures var c := NewDir(v, self, parent);
      |c| == ClusterBytes(v) && AllEntries([c]) && Find([c], 0, want) == Ended && Slot([c], 0) == At(0, 64)
  {
    hide NewEntry, Named;
    var c := NewDir(v, self, parent);
    var e0, e1 := NewEntry(DOT_NAME, DIR, self, 0), NewEntry(DOTDOT_NAME, DIR, parent, 0);
    StartsWithName(DOT_NAME, self);
    StartsWithName(DOTDOT_NAME, parent);
    assert EntryOf(c, 0) == e0 && EntryOf(c, 32) == e1;
    assert c[0] == e0[0] && c[32] == e1[0] && c[64] == 0;
    NotNamed(e0, want);
    NotNamed(e1, want);
    assert ScanFrom(c, 64, want) == Stop;
    assert ScanFrom(c, 32, want) == Stop;
    assert SlotFrom(c, 64) == 64;
    assert SlotFrom(c, 32) == 64;
  }

  lemma StartsWithName(name: bytes, start: nat)
    requires |name| == 11
    ensures NewEntry(name, DIR, start, 0)[0] == name[0]
  {
  }

  lemma NotNamed(e: bytes, want: bytes)
    requires |e| == 32 && |want| == 11 && want[0] != e[0]
    ensures !Named(e, want)
  {
    assert e[..11][0] == e[0];
  }

  /** `ensure_directory` has made a directory: its entry is in the parent, its cluster is a chain of its own. */
  ghost predicate DirMade(d: disk, d': disk, v: Vol, dcs: seq<nat>, name: bytes, newCl: nat)
  {
    && |dcs| > 0 && |name| == 11 && DirAt(d, v, dcs[0], dcs) && DirAt(d', v, dcs[0], dcs) && OnDisk(d, v)
    && OnDisk(d', v)
    && AllUsable(v, dcs) && AllEntries(Contents(d, v, dcs))
    && Usable(v, newCl) && Entry(d, v, newCl) == 0 && DirAt(d', v, newCl, [newCl]) && AllUsable(v, [newCl])
    && Contents(d', v, [newCl]) == [NewDir(v, newCl, dcs[0])]
    && var f := Slot(Contents(d, v, dcs), 0);
      && f.At? && Contents(d', v, dcs) == WithEntry(Contents(d, v, dcs), f.i, f.off, NewEntry(name, DIR, newCl, 0))
      && Keeps(d, d', v, {dcs[f.i]}) && FreeCount(d', v) + 1 == FreeCount(d, v)
  }

  /** The cluster of a new directory, before its entry is stored. */
  method MakeDirCluster(dk: array<bytes>, v: Vol, parent: nat, ghost dcs: seq<nat>) returns (newCl: nat)
    requires DirAt(dk[..], v, parent, dcs)
    modifies dk
    ensures var d := old(dk[..]); v.secPerClus > 0 && OnDisk(d, v) && newCl == FirstFree(Fat(d, v), FatScan(v), 2)
    ensures newCl == 0 ==> dk[..] == old(dk[..])
    ensures newCl != 0 ==> Usable(v, newCl) && Entry(old(dk[..]), v, newCl) == 0 && Keeps(old(dk[..]), dk[..], v, {})
    ensures newCl != 0 ==> DirAt(dk[..], v, newCl, [newCl]) && OnDisk(dk[..], v) && AllUsable(v, [newCl])
    ensures newCl != 0 ==> Contents(dk[..], v, [newCl]) == [NewDir(v, newCl, parent)]
    ensures newCl != 0 ==> FreeCount(dk[..], v) + 1 == FreeCount(old(dk[..]), v)
  {
    hide Limit, Geometry, Cluster, Entry, Lba, Chain, OnlyCluster, Small, Fat, FatWritten, FirstFree, NewDir, Usable,
         FreeCount, FatWord, FatScan, OnlyChain;
    ghost var d := dk[..];
    DirIs(d, v, parent, dcs);
    DirSmall(d, v, parent, dcs, 0);
    SmallOn(d, v);
    newCl := FatAllocFreeCluster(dk, v);
    if newCl == 0 {
      return;
    }
    ghost var d1 := dk[..];
    UsableBelow(v, newCl);
    WrittenOn(d, d1, v, newCl, EOC);
    EntryKeeps(d, d1, v, newCl, EOC);
    ClearDir(dk, v, newCl, parent);
    ghost var d2 := dk[..];
    UsableTwo(v, newCl);
    OnlyClusterOn(d1, d2, v, newCl);
    WriteOneKeeps(d1, d2, v, newCl);
    OneIsChain(d1, d2, v, newCl);
    TableKept(d1, d2, v, [newCl]);
    WriteFatEntry(dk, v, newCl, EOC);
    WrittenOn(d2, dk[..], v, newCl, EOC);
    EntryKeeps(d2, dk[..], v, newCl, EOC);
    SingleChain(d2, dk[..], v, newCl);
    SmallStays(d2, dk[..], v);
    KeepsThen(d1, d2, dk[..], v, {newCl}, {newCl}, {newCl});
    NotInUse(d, v, newCl);
    KeepsThen(d, d1, dk[..], v, {newCl}, {newCl}, {});
    OneCounted(d, d1, d2, dk[..], v, newCl);
  }

  lemma SmallStays(d: disk, d': disk, v: Vol)
    requires Small(d, v) && OnDisk(d', v)
    ensures Small(d', v)
  {
  }

  lemma NotInUse(d: disk, v: Vol, c: nat)
    requires OnDisk(d, v) && Usable(v, c) && Entry(d, v, c) == 0
    ensures !InUse(d, v, c)
  {
  }

  /** `ensure_directory`: the directory of that name, made if there is none. */
  method EnsureDirectory(dk: array<bytes>, v: Vol, parent: nat, name: bytes, ghost dcs: seq<nat>)
    returns (r: int, cl: nat)
    requires DirAt(dk[..], v, parent, dcs) && |name| == 11 && parent < TWO32
    modifies dk
    ensures OnDisk(old(dk[..]), v) && AllUsable(v, dcs) && AllEntries(Contents(old(dk[..]), v, dcs)) && v.secPerClus > 0
    ensures var d := old(dk[..]); var all := Contents(d, v, dcs);
      match Find(all, 0, name)
      case At(i, p) =>
        dk[..] == d && var e := FoundEntry(all, At(i, p)); if IsDir(e) then r == 0 && cl == Start(e) else r == -2
      case _ =>
        && r == (if FirstFree(Fat(d, v), FatScan(v), 2) == 0 then -3 else if Slot(all, 0).At? then 0 else -5)
        && (r == -3 ==> dk[..] == d) && (r == -5 ==> Keeps(d, dk[..], v, {}))
        && (r == 0 ==> cl != 0 && DirMade(d, dk[..], v, dcs, name, cl))
  {
    hide Limit, Geometry, Cluster, Entry, Lba, Chain, OnlyCluster, Small, Fat, FatWritten, FirstFree, NewDir, Usable,
         Keeps, EntryStored, DirAt, NewEntry, DirMade, FatScan, FreeCount;
    ghost var d := dk[..];
    DirIs(d, v, parent, dcs);
    var found, de, lba, s, off := DirFindEntry(dk, v, parent, name, dcs);
    if found == 0 {
      if de[11] as nat / 0x10 % 2 == 0 {
        return -2, 0;
      }
      return 0, Start(de);
    }
    var newCl := MakeDirCluster(dk, v, parent, dcs);
    if newCl == 0 {
      return -3, 0;
    }
    ghost var d1 := dk[..];
    KeptDir(d, d1, v, {}, parent, dcs);
    SmallNumber(d, v, newCl);
    var created := CreateDirEntry(dk, v, parent, name, DIR, newCl, 0, dcs);
    if created != 0 {
      return -5, 0;
    }
    cl := newCl;
    MadeIs(d, d1, dk[..], v, dcs, name, newCl);
    r := 0;
  }

  lemma SmallNumber(d: disk, v: Vol, cl: nat)
    requires OnDisk(d, v) && Usable(v, cl)
    ensures 2 <= cl < TWO28 < TWO32
  {
  }

  /** A directory whose clusters are not named by a step is the same directory. */
  lemma KeptDir(d: disk, d': disk, v: Vol, named: set<nat>, dirCl: nat, dcs: seq<nat>)
    requires DirAt(d, v, dirCl, dcs) && Keeps(d, d', v, named) && forall c | c in dcs :: c !in named
    ensures DirAt(d', v, dirCl, dcs) && OnDisk(d, v) && OnDisk(d', v) && AllUsable(v, dcs)
    ensures Contents(d', v, dcs) == Contents(d, v, dcs) && AllEntries(Contents(d, v, dcs))
  {
    hide Limit, Geometry, Cluster, Entry, Keeps;
    KeepsOn(d, d', v, named);
    KeepsChain(d, d', v, named, dirCl, dcs);
    DirIs(d, v, dirCl, dcs);
  }

  lemma MadeIs(d: disk, d1: disk, d2: disk, v: Vol, dcs: seq<nat>, name: bytes, newCl: nat)
    requires |dcs| > 0 && |name| == 11 && DirAt(d, v, dcs[0], dcs) && OnDisk(d, v) && AllUsable(v, dcs)
    requires Keeps(d, d1, v, {}) && OnDisk(d1, v) && Contents(d1, v, dcs) == Contents(d, v, dcs)
    requires AllEntries(Contents(d, v, dcs))
    requires Usable(v, newCl) && Entry(d, v, newCl) == 0 && DirAt(d1, v, newCl, [newCl]) && AllUsable(v, [newCl])
    requires Contents(d1, v, [newCl]) == [NewDir(v, newCl, dcs[0])] && FreeCount(d1, v) + 1 == FreeCount(d, v)
    requires var f := Slot(Contents(d, v, dcs), 0);
      f.At? && EntryStored(d1, d2, v, dcs, f.i, f.off, NewEntry(name, DIR, newCl, 0))
    ensures DirMade(d, d2, v, dcs, name, newCl)
  {
    hide Limit, Geometry, Cluster, Entry, Keeps, NewEntry, NewDir, Chain, Small, FreeCount;
    var f := Slot(Contents(d, v, dcs), 0);
    SameCount(d1, d2, v);
    NewNotIn(d, v, dcs, newCl);
    KeptDir(d1, d2, v, {dcs[f.i]}, newCl, [newCl]);
    KeepsThen(d, d1, d2, v, {}, {dcs[f.i]}, {dcs[f.i]});
  }

  lemma NewNotIn(d: disk, v: Vol, dcs: seq<nat>, newCl: nat)
    requires |dcs| > 0 && DirAt(d, v, dcs[0], dcs) && OnDisk(d, v) && Usable(v, newCl) && Entry(d, v, newCl) == 0
    ensures newCl !in dcs
  {
    hide Limit, Geometry, Entry, Chain, Small;
    ChainInUse(d, v, dcs[0], dcs);
    NotInUse(d, v, newCl);
  }
}
