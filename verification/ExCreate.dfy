/** Making a file or a directory in an exFAT directory: room for its set, clusters for its contents, the set itself. */
module ExCreate {
  import opened Bytes
  import opened Volume
  import opened Bitmap
  import opened Allocator
  import opened FileData
  import opened EntrySets
  import opened DirSets
  import opened ExFile
  import opened Keeping
  import opened DirEntries
  import opened ExDir
  import opened ExDirLaws
  import opened ExDisk

  /** A directory that a step does not touch. */
  lemma ListingKept(d: disk, d': disk, v: Vol, named: set<nat>, dcs: seq<nat>)
    requires DirX(d, v, dcs) && Keeps(d, d', v, named) && Clear(dcs, named)
    ensures DirX(d', v, dcs) && Listing(d', v, dcs) == Listing(d, v, dcs)
  {
    hide Limit, Geometry, Cluster, Entry, Keeps;
    KeepsChain(d, d', v, named, dcs[0], dcs);
  }

  lemma DirInUse(d: disk, v: Vol, dcs: seq<nat>, c: nat)
    requires DirX(d, v, dcs) && !InUse(d, v, c)
    ensures c !in dcs
  {
    hide Entry, Limit, OnDisk;
    ChainInUse(d, v, dcs[0], dcs);
  }

  // ---------------------------------------------------------------- room

  /** One cluster of `exfat_find_free_set`. */
  method RoomInCluster(dk: array<bytes>, v: Vol, cl: nat, total: nat) returns (hit: bool, p: nat)
    requires OnDisk(dk[..], v) && Usable(v, cl) && total > 0
    requires |Cluster(dk[..], v, cl)| == ClusterBytes(v) && Entries(Cluster(dk[..], v, cl))
    ensures var c := Cluster(dk[..], v, cl);
      hit == (FreeFrom(c, 0, 0, total) < |c|) && (hit ==> p == FreeFrom(c, 0, 0, total))
  {
    hide Limit, Geometry, Cluster, Lba, OnDisk, FreeFrom;
    ghost var c := Cluster(dk[..], v, cl);
    var clusterBytes := v.secPerClus * v.bytesPerSec;
    hit, p := false, 0;
    var run, runStart := 0, 0;
    var off := 0;
    while off < clusterBytes
      invariant off % 32 == 0 && off <= |c| && 32 * run <= off && (run > 0 ==> runStart == off - 32 * run) && !hit
      invariant FreeFrom(c, 0, 0, total) == FreeFrom(c, off, run, total)
    {
      EntryFits(c, off);
      FreeStep(c, off, run, total);
      var et := EntryType(dk, v, cl, off);
      if et == 0 {
        var remaining := (clusterBytes - off) / 32;
        if remaining >= total {
          return true, off;
        }
      }
      if et == 0 || et == FREED {
        if run == 0 {
          runStart := off;
        }
        run := run + 1;
        if run >= total {
          return true, runStart;
        }
      } else {
        run := 0;
      }
      off := off + 32;
    }
    FreeNone(c, off, run, total);
  }

  /** The directory as the set will find it: with a cleared cluster behind it if it has no room. */
  function Roomy(cl: seq<bytes>, t: nat, n: nat): (r: seq<bytes>)
    requires AllEntries(cl) && t > 0 && n % 32 == 0
    ensures AllEntries(r)
  {
    if Slot(cl, 0, t).Exhausted? then cl + [Zeros(n)] else cl
  }

  /** The directory `dcs` has become `dcs2`: the same, or one cluster longer. */
  ghost predicate SameOrLonger(d: disk, v: Vol, bm: seq<nat>, dcs: seq<nat>, dcs2: seq<nat>)
  {
    dcs2 == dcs || (|dcs2| == |dcs| + 1 && dcs2[..|dcs|] == dcs && !InUse(d, v, dcs2[|dcs|]) && dcs2[|dcs|] !in bm)
  }

  /** Room for `t` entries has been found, at `p` of cluster `i`; for more entries than a cluster holds it is that of a
      further cluster, from its start on, and the next cluster of the heap. */
  ghost predicate RoomMade(d: disk, d': disk, v: Vol, bm: seq<nat>, dcs: seq<nat>, dcs2: seq<nat>, t: nat, i: nat,
                           p: nat)
  {
    && t > 0 && Ready(d', v, bm) && DirX(d, v, dcs) && DirX(d', v, dcs2) && dcs2[0] == dcs[0]
    && ClusterBytes(v) % 32 == 0
    && Listing(d', v, dcs2) == Roomy(Listing(d, v, dcs), t, ClusterBytes(v))
    && (if 32 * t <= ClusterBytes(v) then Slot(Listing(d', v, dcs2), 0, t) == At(i, p)
        else |dcs2| == |dcs| + 1 && i == |dcs| && p == 0 && Usable(v, dcs2[i] + 1))
    && Keeps(d, d', v, SetOf(bm) + SetOf(dcs)) && SameOrLonger(d, v, bm, dcs, dcs2) && OnDisk(d, v)
    && FreeLeft(d', v) + |dcs2| == FreeLeft(d, v) + |dcs|
  }

  lemma RoomThere(d: disk, v: Vol, bm: seq<nat>, dcs: seq<nat>, t: nat)
    requires Ready(d, v, bm) && DirX(d, v, dcs) && t > 0 && Slot(Listing(d, v, dcs), 0, t).At?
    ensures var f := Slot(Listing(d, v, dcs), 0, t); RoomMade(d, d, v, bm, dcs, dcs, t, f.i, f.off)
  {
    hide Limit, Geometry, Cluster, Entry, Chain, Mounted, Fat, Used, Slot;
    DirXIs(d, v, dcs);
    SlotFits(Listing(d, v, dcs), t, ClusterBytes(v));
    KeepsAll(d, v);
    KeepsMore(d, d, v, {}, SetOf(bm) + SetOf(dcs));
  }

  /** Only what fits into a cluster has room in one. */
  lemma SlotFits(cl: seq<bytes>, t: nat, n: nat)
    requires AllEntries(cl) && t > 0 && Slot(cl, 0, t).At? && forall i | 0 <= i < |cl| :: |cl[i]| == n
    ensures 32 * t <= n
  {
    hide Slot;
  }

  /** The clusters of a directory that has become longer. */
  lemma LongerListing(d: disk, d': disk, v: Vol, dcs: seq<nat>, newCl: nat)
    requires DirX(d, v, dcs) && Chain(d', v, dcs[0], dcs + [newCl]) && OnDisk(d, v) && OnDisk(d', v)
    requires AllUsable(v, dcs)
    requires ChainBytes(d', v, dcs) == ChainBytes(d, v, dcs) && Usable(v, newCl)
    requires Cluster(d', v, newCl) == Zeros(ClusterBytes(v))
    ensures DirX(d', v, dcs + [newCl]) && Listing(d', v, dcs + [newCl]) == Listing(d, v, dcs) + [Zeros(ClusterBytes(v))]
  {
    hide Limit, Geometry, Cluster, Entry, ChainBytes, Chain;
    var dcs2 := dcs + [newCl];
    DirXIs(d', v, dcs2);
    DirXIs(d, v, dcs);
    forall i | 0 <= i < |dcs|
      ensures Cluster(d', v, dcs2[i]) == Cluster(d, v, dcs[i])
    {
      ChainPart(d, v, dcs, i);
      ChainPart(d', v, dcs, i);
    }
    assert Listing(d', v, dcs2) == Listing(d, v, dcs) + [Zeros(ClusterBytes(v))];
  }

  lemma RoomGrown(d: disk, d': disk, v: Vol, bm: seq<nat>, dcs: seq<nat>, t: nat, newCl: nat)
    requires Ready(d, v, bm) && DirX(d, v, dcs) && t > 0 && Slot(Listing(d, v, dcs), 0, t).Exhausted?
    requires Ready(d', v, bm) && Chain(d', v, dcs[0], dcs + [newCl]) && AllUsable(v, dcs) && Usable(v, newCl)
    requires newCl !in bm
    requires ChainBytes(d', v, dcs) == ChainBytes(d, v, dcs) && Cluster(d', v, newCl) == Zeros(ClusterBytes(v))
    requires Grown(d, d', v, bm, dcs[|dcs| - 1], newCl)
    requires v.secPerClus > 0 && newCl == FirstFree(Fat(d, v), MaxClusters(v), 2) && newCl != 0
    ensures RoomMade(d, d', v, bm, dcs, dcs + [newCl], t, |dcs|, 0)
  {
    hide Limit, Geometry, Cluster, Entry, ChainBytes, Chain, Grown, Agree, Mounted, Fat, Used, Slot, FreeLeft,
         FirstFree;
    GrownLeft(d, d', v, bm, dcs, newCl);
    DirXIs(d, v, dcs);
    LongerListing(d, d', v, dcs, newCl);
    if 32 * t <= ClusterBytes(v) { SlotLonger(Listing(d, v, dcs), 0, ClusterBytes(v), t); }
    NextUsable(d, v, bm);
    GrownKeeps(d, d', v, bm, dcs[|dcs| - 1], newCl);
    KeepsMore(d, d', v, SetOf(bm) + {dcs[|dcs| - 1]}, SetOf(bm) + SetOf(dcs));
  }

  /** Behind the cluster that the scan finds there is another one: the scan stops two clusters before the last. */
  lemma NextUsable(d: disk, v: Vol, bm: seq<nat>)
    requires Ready(d, v, bm) && v.secPerClus > 0 && FirstFree(Fat(d, v), MaxClusters(v), 2) != 0
    ensures Usable(v, FirstFree(Fat(d, v), MaxClusters(v), 2) + 1)
  {
    hide Entry, Chain, Agree, Used, Fat, FirstFree;
    MountedOn(d, v, bm);
    FatLimit(d, v);
    FreeIs(Fat(d, v), MaxClusters(v), FirstFree(Fat(d, v), MaxClusters(v), 2));
  }

  /** `exfat_find_free_set`. */
  method FindFreeSet(dk: array<bytes>, v: Vol, dirCl: nat, total: nat, ghost bm: seq<nat>, ghost dcs: seq<nat>)
    returns (r: int, cl: nat, byteOff: nat, ghost dcs2: seq<nat>, ghost i: nat)
    requires Ready(dk[..], v, bm) && DirX(dk[..], v, dcs) && dirCl == dcs[0] && Apart(dcs, bm)
    requires total > 0
    modifies dk
    ensures v.secPerClus > 0
    ensures var d := old(dk[..]);
      r == if Slot(Listing(d, v, dcs), 0, total).At? || FirstFree(Fat(d, v), MaxClusters(v), 2) != 0 then 0 else -1
    ensures r != 0 ==> dk[..] == old(dk[..])
    ensures r == 0 ==> RoomMade(old(dk[..]), dk[..], v, bm, dcs, dcs2, total, i, byteOff) && i < |dcs2| && cl == dcs2[i]
  {
    hide Limit, Geometry, Cluster, Lba, Entry, Chain, Mounted, Fat, Used, FirstFree, FreeFrom, Usable, ChainBytes,
         Grown, Agree, RoomMade;
    ghost var d := dk[..];
    ghost var all := Listing(d, v, dcs);
    MountedOn(d, v, bm);
    cl, byteOff, dcs2, i := dirCl, 0, dcs, 0;
    var prev := dirCl;
    UsableEntry(d, v, dirCl, dcs, 0);
    while !IsEnd(cl)
      invariant 0 <= i <= |dcs| && (i < |dcs| ==> cl == dcs[i]) && (i == |dcs| ==> IsEnd(cl))
      invariant (i > 0 ==> prev == dcs[i - 1])
      invariant Slot(all, 0, total) == Slot(all, i, total) && dk[..] == d && dcs2 == dcs
      decreases |dcs| - i
    {
      UsableEntry(d, v, dirCl, dcs, i);
      ListingAt(d, v, dcs, i);
      var hit;
      hit, byteOff := RoomInCluster(dk, v, cl, total);
      if hit {
        RoomThere(d, v, bm, dcs, total);
        return 0, cl, byteOff, dcs2, i;
      }
      prev := cl;
      UsableBelow(v, cl);
      cl := ReadFatEntry(dk, v, cl);
      i := i + 1;
    }
    if i < |dcs| {
      UsableEntry(d, v, dirCl, dcs, i);
    }
    var newCl := ExtendDirectory(dk, v, prev, bm, dcs);
    if newCl == 0 {
      return -1, 0, 0, dcs, 0;
    }
    RoomGrown(d, dk[..], v, bm, dcs, total, newCl);
    dcs2 := dcs + [newCl];
    return 0, newCl, 0, dcs2, |dcs|;
  }

  // ---------------------------------------------------------------- the set

  /** Writing a set into one cluster of a directory. */
  lemma SetListing(d: disk, d': disk, v: Vol, dcs: seq<nat>, i: nat, p: nat, es: bytes)
    requires DirX(d, v, dcs) && i < |dcs| && AllUsable(v, dcs) && OnDisk(d, v) && OnDisk(d', v)
    requires SetPut(d, d', v, dcs[i], p, es)
    requires forall j | 0 <= j < |dcs| :: Entry(d', v, dcs[j]) == Entry(d, v, dcs[j])
    requires forall j | 0 <= j < |dcs| && j != i :: Cluster(d', v, dcs[j]) == Cluster(d, v, dcs[j])
    ensures DirX(d', v, dcs) && p + |es| <= |Listing(d, v, dcs)[i]|
    ensures Listing(d', v, dcs) == WithSet(Listing(d, v, dcs), i, p, Summed(es))
  {
    hide Limit, Geometry, Cluster, Entry, Put, Chain, Checksum;
    ChainSame(d, d', v, dcs[0], dcs);
    DirXIs(d, v, dcs);
    DirXIs(d', v, dcs);
    forall j | 0 <= j < |dcs|
      ensures Listing(d', v, dcs)[j] == WithSet(Listing(d, v, dcs), i, p, Summed(es))[j]
    {
    }
  }

  /** Nothing but the set has been written. */
  ghost predicate SetStored(d: disk, d': disk, v: Vol, bm: seq<nat>, dcs: seq<nat>, i: nat, p: nat, es: bytes)
  {
    && Ready(d', v, bm) && DirX(d, v, dcs) && DirX(d', v, dcs) && i < |dcs| && |es| >= 32
    && p + |es| <= |Listing(d, v, dcs)[i]|
    && Listing(d', v, dcs) == WithSet(Listing(d, v, dcs), i, p, Summed(es)) && Keeps(d, d', v, {dcs[i]})
    && OnDisk(d, v) && FreeLeft(d', v) == FreeLeft(d, v)
  }

  lemma StoredSet(d: disk, d': disk, v: Vol, bm: seq<nat>, dcs: seq<nat>, i: nat, p: nat, es: bytes)
    requires Ready(d, v, bm) && DirX(d, v, dcs) && i < |dcs| && Apart(dcs, bm) && dcs[i] >= 2
    requires OnlyCluster(d, d', v, dcs[i])
    requires SetPut(d, d', v, dcs[i], p, es)
    ensures SetStored(d, d', v, bm, dcs, i, p, es)
  {
    hide Limit, Geometry, Cluster, Entry, Put, Chain, OnlyCluster, OnlyChain, Checksum, Agree, Mounted, Fat, Used;
    ListingAt(d, v, dcs, i);
    OneIsChain(d, d', v, dcs[i]);
    DataKeeps(d, d', v, bm, [dcs[i]]);
    WriteOneKeeps(d, d', v, dcs[i]);
    ChainDistinct(d, v, dcs[0], dcs);
    forall j | 0 <= j < |dcs|
      ensures Entry(d', v, dcs[j]) == Entry(d, v, dcs[j])
      ensures (j != i ==> Cluster(d', v, dcs[j]) == Cluster(d, v, dcs[j]))
    {
      FatIs(d, v, dcs[j]);
      FatIs(d', v, dcs[j]);
      if j != i { OtherCluster(d, d', v, [dcs[i]], dcs[j]); }
    }
    SetListing(d, d', v, dcs, i, p, es);
  }

  /** The end of `exfat_create_entry`: the first cluster goes into a set built without it, and the set goes to disk. */
  method StoreSet(dk: array<bytes>, v: Vol, cl: nat, byteOff: nat, es: bytes, total: nat, ghost bm: seq<nat>,
                  ghost dcs: seq<nat>, ghost i: nat) returns (r: int)
    requires Ready(dk[..], v, bm) && DirX(dk[..], v, dcs) && i < |dcs| && cl == dcs[i] && Apart(dcs, bm)
    requires 0 < total <= 32 && |es| == 32 * total && byteOff % 32 == 0
    requires byteOff + 32 * total <= ClusterBytes(v) || (byteOff == 0 && Usable(v, cl + 1))
    modifies dk
    ensures r == 0 && (byteOff + 32 * total <= ClusterBytes(v) ==>
      SetStored(old(dk[..]), dk[..], v, bm, dcs, i, byteOff, es))
    ensures byteOff + 32 * total > ClusterBytes(v) ==> Spilled(old(dk[..]), dk[..], v, cl, es)
  {
    hide Limit, Geometry, Cluster, Entry, Put, Chain, OnlyCluster, Agree, Mounted, Fat, Used, Summed, SetStored, RunPut,
         Reach, Lba, Spilled;
    ghost var d := dk[..];
    ListingAt(d, v, dcs, i);
    if byteOff + 32 * total <= ClusterBytes(v) {
      ReachInside(d, v, cl, byteOff + 32 * total);
    } else {
      ReachNext(d, v, cl, 32 * total);
    }
    r := WriteEntrySet(dk, v, cl, byteOff, es, total);
    if byteOff + 32 * total <= ClusterBytes(v) {
      RunIsCluster(d, dk[..], v, cl, byteOff, es);
      OnlyOn(d, dk[..], v, cl);
      StoredSet(d, dk[..], v, bm, dcs, i, byteOff, es);
    } else {
      RunSpills(d, dk[..], v, cl, es);
    }
  }

  lemma OnlyOn(d: disk, d': disk, v: Vol, cl: nat)
    requires cl >= 2 && OnlyCluster(d, d', v, cl)
    ensures OnDisk(d', v) && |d'| == |d|
  {
  }

  /** The stores of `exfat_create_entry` into the built set. */
  lemma Patched(name: bytes, first: nat, size: nat, isDir: bool)
    requires |name| <= 255
    ensures var s := EntrySet(name, 0, size, isDir);
      Put(Put(Put(s, 52, LeBytes(4, first)), 56, LeBytes(8, size)), 40, LeBytes(8, size))
      == EntrySet(name, first, size, isDir)
  {
    hide FileEntry, NamePart, LeBytes, StreamEntry;
    var f, t := FileEntry(2 + NameEntries(|name|), isDir), StreamEntry(|name|, 0, size);
    var n := NamePart(name, NameEntries(|name|));
    var t2 := StreamEntry(|name|, first, size);
    StreamPatched(|name|, first, size);
    PutFile(f, t, n, 20, LeBytes(4, first));
    var t1 := Put(t, 20, LeBytes(4, first));
    PutFile(f, t1, n, 24, LeBytes(8, size));
    PutFile(f, Put(t1, 24, LeBytes(8, size)), n, 8, LeBytes(8, size));
  }

  lemma PutFile(f: bytes, t: bytes, n: bytes, o: nat, x: bytes)
    requires |f| == 32 && |t| == 32 && o + |x| <= 32
    ensures Put(f + t + n, 32 + o, x) == f + Put(t, o, x) + n
  {
    PutBefore(f + t, n, 32 + o, x);
    PutBehind(f, t, o, x);
  }

  lemma StreamPatched(len: nat, first: nat, size: nat)
    requires len < 256
    ensures Put(Put(Put(StreamEntry(len, 0, size), 20, LeBytes(4, first)), 24, LeBytes(8, size)), 8, LeBytes(8, size))
      == StreamEntry(len, first, size)
  {
    hide LeBytes;
    var a := [ENTRY_STREAM, 0, 0, len as byte] + Zeros(4);
    var s8, z, c0, c1 := LeBytes(8, size), Zeros(4), LeBytes(4, 0), LeBytes(4, first);
    PutMiddle(a + s8 + z, c0, s8, c1);
    PutMiddle(a + s8 + z + c1, s8, [], s8);
    PutMiddle(a, s8, z + c1 + s8, s8);
    assert a + s8 + z + c1 + s8 + [] == a + s8 + z + c1 + s8;
    assert a + s8 + (z + c1 + s8) == a + s8 + z + c1 + s8;
  }
}
