/** `exfat_create_entry`. */
module ExMake {
  import opened Bytes
  import opened Volume
  import opened Bitmap
  import opened Allocator
  import opened FileData
  import opened EntrySets
  import opened DirSets
  import opened ExFile
  import opened Keeping
  import opened DirEntries
  import opened ExDir
  import opened ExDisk
  import opened ExCreate

  // ---------------------------------------------------------------- the contents of a new file or directory

  /** What the clusters `cs` hold: the data of a file, or a directory without entries. */
  ghost predicate Filled(d: disk, v: Vol, isDir: bool, data: bytes, cs: seq<nat>)
  {
    if isDir then |cs| == 1 && DirX(d, v, cs) && Listing(d, v, cs) == [Zeros(ClusterBytes(v))] && data == []
    else Holding(d, v, cs, data)
  }

  lemma FilledKept(d: disk, d': disk, v: Vol, named: set<nat>, isDir: bool, data: bytes, cs: seq<nat>)
    requires Filled(d, v, isDir, data, cs) && Keeps(d, d', v, named) && Clear(cs, named)
    ensures Filled(d', v, isDir, data, cs)
  {
    hide Limit, Geometry, Cluster, Entry, Keeps, ChainBytes, Chain;
    KeepsOn(d, d', v, named);
    if isDir {
      ListingKept(d, d', v, named, cs);
    } else if cs != [] {
      KeepsChain(d, d', v, named, cs[0], cs);
      SameBytesOf(d, d', v, cs);
    }
  }

  lemma OneCluster(d: disk, v: Vol)
    requires OnDisk(d, v)
    ensures 0 < ClusterBytes(v) < TWO31 && Need(v, ClusterBytes(v)) == 1 && SizeFits(v, ClusterBytes(v))
  {
    hide Limit, FatSectors;
    ClusterBytesPos(v, |d|);
    MulMono(v.secPerClus, 128, v.bytesPerSec);
    DivIs(ClusterBytes(v) + ClusterBytes(v) - 1, ClusterBytes(v), 1, ClusterBytes(v) - 1);
  }

  /** The clusters that an entry asks for: a directory always gets one. */
  function Asked(v: Vol, isDir: bool, size: nat): (n: nat)
  {
    if isDir then ClusterBytes(v) else size
  }

  /** A cleared cluster for a directory. */
  method NewDirContents(dk: array<bytes>, v: Vol, ghost bm: seq<nat>)
    returns (ok: bool, first: nat, ghost cs: seq<nat>, ghost d1: disk)
    requires Ready(dk[..], v, bm)
    modifies dk
    ensures ok <==> HasRoom(old(dk[..]), v, ClusterBytes(v))
    ensures !ok ==> NoRoomLeft(old(dk[..]), dk[..], v, bm, ClusterBytes(v))
    ensures ok ==>
      Allocated(old(dk[..]), d1, v, bm, cs) && OnDisk(d1, v) && OnlyChain(d1, dk[..], v, cs) && AllUsable(v, cs)
    ensures ok ==>
      cs == [first] && Filled(dk[..], v, true, [], cs) && ClusterBytes(v) > 0 && Need(v, ClusterBytes(v)) == 1
  {
    hide Limit, Geometry, Cluster, Entry, Chain, Mounted, Fat, Used, Agree, Allocated, FreeSet, Became, OnlyCluster,
         OnlyChain;
    ghost var d := dk[..];
    OneCluster(d, v);
    MountedOn(d, v, bm);
    first, cs := AllocChainForSize(dk, v, v.secPerClus * v.bytesPerSec, bm);
    d1 := dk[..];
    if first == 0 {
      ok := false;
      return;
    }
    AllocatedLast(d, d1, v, bm, cs);
    assert cs == [first];
    UsableEntry(d1, v, first, cs, 0);
    ZeroCluster(dk, v, first);
    ok := true;
    OnlyOn(d1, dk[..], v, first);
    OneIsChain(d1, dk[..], v, first);
    ChainKept(d1, dk[..], v, cs, first, cs);
    DirXIs(dk[..], v, cs);
  }

  // ---------------------------------------------------------------- the whole of it

  /** The set that `exfat_create_entry` writes. */
  function NewSet(name: bytes, cs: seq<nat>, size: nat, isDir: bool): (es: bytes)
    ensures |es| == 32 * (2 + NameEntries(|Shortened(name)|)) && |es| % 32 == 0 && |es| > 0
  {
    EntrySet(Shortened(name), if cs == [] then 0 else cs[0], size, isDir)
  }

  function SetSize(name: bytes): (t: nat)
    ensures 2 <= t <= 19
  {
    2 + NameEntries(|Shortened(name)|)
  }

  /** `exfat_create_entry` has made a file or directory: its set stands in the first room of the directory `dcs`, which
      has become `dcs2`; its contents are in the clusters `cs`; nothing else in use has changed. */
  ghost predicate Created(d: disk, d': disk, v: Vol, bm: seq<nat>, dcs: seq<nat>, dcs2: seq<nat>, name: bytes,
                          isDir: bool, data: bytes, cs: seq<nat>, i: nat, p: nat)
  {
    && Ready(d', v, bm) && DirX(d, v, dcs) && DirX(d', v, dcs2) && dcs2[0] == dcs[0]
    && SameOrLonger(d, v, bm, dcs, dcs2)
    && ClusterBytes(v) % 32 == 0 && Keeps(d, d', v, SetOf(bm) + SetOf(dcs)) && Filled(d', v, isDir, data, cs)
    && (forall c | c in cs :: !InUse(d, v, c) && c !in bm && c !in dcs2 && Usable(v, c))
    && OnDisk(d, v) && FreeLeft(d', v) + |cs| + |dcs2| == FreeLeft(d, v) + |dcs|
    && var room := Roomy(Listing(d, v, dcs), SetSize(name), ClusterBytes(v)); var es := NewSet(name, cs, |data|, isDir);
      && Slot(room, 0, SetSize(name)) == At(i, p) && i < |room| && p + |es| <= |room[i]|
      && Listing(d', v, dcs2) == WithSet(room, i, p, Summed(es))
  }

  /** `exfat_create_entry` has written a set that is longer than a cluster: up to `mid` the contents have got the
      clusters `cs`, and the directory `dcs` a further cluster; then the set has filled that one, and run on into the
      next cluster of the heap. */
  ghost predicate Overlong(d: disk, mid: disk, d': disk, v: Vol, bm: seq<nat>, dcs: seq<nat>, dcs2: seq<nat>,
                           name: bytes, isDir: bool, data: bytes, cs: seq<nat>)
  {
    && Ready(mid, v, bm) && DirX(d, v, dcs) && DirX(mid, v, dcs2) && dcs2[0] == dcs[0] && |dcs2| == |dcs| + 1
    && SameOrLonger(d, v, bm, dcs, dcs2) && ClusterBytes(v) % 32 == 0
    && Keeps(d, mid, v, SetOf(bm) + SetOf(dcs)) && Filled(mid, v, isDir, data, cs)
    && (forall c | c in cs :: !InUse(d, v, c) && c !in bm && c !in dcs2 && Usable(v, c))
    && Listing(mid, v, dcs2) == Listing(d, v, dcs) + [Zeros(ClusterBytes(v))]
    && Spilled(mid, d', v, dcs2[|dcs|], NewSet(name, cs, |data|, isDir))
  }

  /** The result of `exfat_create_entry`. */
  ghost function CreateCode(d: disk, v: Vol, dcs: seq<nat>, name: bytes, isDir: bool, size: nat): (r: int)
    requires OnDisk(d, v) && DirX(d, v, dcs) && v.secPerClus > 0 && ClusterBytes(v) > 0
  {
    if !HasRoom(d, v, Asked(v, isDir, size)) then -2
    else if Slot(Listing(d, v, dcs), 0, SetSize(name)).At? then 0
    else if Need(v, Asked(v, isDir, size)) < FreeLeft(d, v) then 0 else -3
  }

  /** Clusters for the contents. */
  method FillNew(dk: array<bytes>, v: Vol, isDir: bool, data: bytes, ghost bm: seq<nat>)
    returns (ok: bool, first: nat, ghost cs: seq<nat>, ghost d1: disk)
    requires Ready(dk[..], v, bm) && |data| < TWO32 && (isDir ==> data == [])
    modifies dk
    ensures ok <==> HasRoom(old(dk[..]), v, Asked(v, isDir, |data|))
    ensures !ok ==> NoRoomLeft(old(dk[..]), dk[..], v, bm, Asked(v, isDir, |data|))
    ensures ok ==>
      Allocated(old(dk[..]), d1, v, bm, cs) && OnDisk(d1, v) && OnlyChain(d1, dk[..], v, cs) && AllUsable(v, cs)
    ensures ok ==> Filled(dk[..], v, isDir, data, cs) && first == if cs == [] then 0 else cs[0]
    ensures ok ==> ClusterBytes(v) > 0 && |cs| == Need(v, Asked(v, isDir, |data|))
  {
    hide Limit, Geometry, Cluster, Entry, Chain, Mounted, Fat, Used, Agree, Allocated, FreeSet, OnlyChain, HasRoom,
         ChainBytes, NoRoomLeft;
    if isDir {
      ok, first, cs, d1 := NewDirContents(dk, v, bm);
    } else {
      ok, first, cs, d1 := NewContents(dk, v, data, bm);
      if ok { OnlyDisk(d1, dk[..], v, cs); }
    }
  }

  lemma OnlyDisk(d: disk, d': disk, v: Vol, cs: seq<nat>)
    requires OnlyChain(d, d', v, cs)
    ensures OnDisk(d', v)
  {
  }

  /** After the contents: what is in use is kept, the new clusters are apart from it. */
  lemma FilledNew(d: disk, d1: disk, d2: disk, v: Vol, bm: seq<nat>, dcs: seq<nat>, cs: seq<nat>)
    requires Ready(d, v, bm) && DirX(d, v, dcs) && Apart(dcs, bm)
    requires Allocated(d, d1, v, bm, cs) && OnDisk(d1, v) && OnlyChain(d1, d2, v, cs) && AllUsable(v, cs)
    ensures Ready(d2, v, bm) && Keeps(d, d2, v, SetOf(bm))
    ensures (forall c | c in cs :: !InUse(d, v, c) && c !in bm && c !in dcs && Usable(v, c))
    ensures DirX(d2, v, dcs) && Listing(d2, v, dcs) == Listing(d, v, dcs)
    ensures v.secPerClus > 0 && FreeLeft(d2, v) + |cs| == FreeLeft(d, v)
  {
    hide Limit, Geometry, Cluster, Entry, Mounted, Used, Agree, OnlyChain, Fat, FreeSet, Chain;
    MountedOn(d, v, bm);
    AllocatedLast(d, d1, v, bm, cs);
    AllocatedKeeps(d, d1, v, bm, cs);
    DataKeeps(d1, d2, v, bm, cs);
    KeepsThen(d, d1, d2, v, SetOf(bm), SetOf(cs), SetOf(bm));
    ListingKept(d, d2, v, SetOf(bm), dcs);
    forall c | c in cs
      ensures !InUse(d, v, c) && c !in bm && c !in dcs && Usable(v, c)
    {
      DirInUse(d, v, dcs, c);
    }
  }

  /** What the clusters and the directory are once there is room for the set. */
  lemma RoomFilled(d: disk, d2: disk, d3: disk, v: Vol, bm: seq<nat>, dcs: seq<nat>, dcs2: seq<nat>, t: nat,
                   isDir: bool, data: bytes, cs: seq<nat>, i: nat, p: nat)
    requires Ready(d, v, bm) && DirX(d, v, dcs) && Keeps(d, d2, v, SetOf(bm)) && DirX(d2, v, dcs) && Apart(dcs, bm)
    requires Filled(d2, v, isDir, data, cs)
    requires forall c | c in cs :: !InUse(d, v, c) && c !in bm && c !in dcs && Usable(v, c)
    requires RoomMade(d2, d3, v, bm, dcs, dcs2, t, i, p)
    ensures Keeps(d, d3, v, SetOf(bm) + SetOf(dcs)) && Filled(d3, v, isDir, data, cs)
    ensures SameOrLonger(d, v, bm, dcs, dcs2) && forall c | c in cs :: c !in dcs2
    ensures forall c | c in dcs2 && InUse(d, v, c) :: c in dcs
  {
    hide Limit, Geometry, Cluster, Entry, Chain, Mounted, Used, Agree, Fat, Put, Slot, ChainBytes, Holding, Keeps,
         Filled;
    KeepsThen(d, d2, d3, v, SetOf(bm), SetOf(bm) + SetOf(dcs), SetOf(bm) + SetOf(dcs));
    FilledInUse(d2, v, isDir, data, cs);
    LongerUse(d, d2, v, bm, dcs, dcs2, cs);
    FilledKept(d2, d3, v, SetOf(bm) + SetOf(dcs), isDir, data, cs);
  }

  /** The pieces put together. */
  lemma CreatedIs(d: disk, d2: disk, d3: disk, d4: disk, v: Vol, bm: seq<nat>, dcs: seq<nat>, dcs2: seq<nat>,
                  name: bytes, isDir: bool, data: bytes, cs: seq<nat>, i: nat, p: nat)
    requires Ready(d, v, bm) && DirX(d, v, dcs) && Keeps(d, d2, v, SetOf(bm)) && DirX(d2, v, dcs) && Apart(dcs, bm)
    requires Listing(d2, v, dcs) == Listing(d, v, dcs) && Filled(d2, v, isDir, data, cs)
    requires forall c | c in cs :: !InUse(d, v, c) && c !in bm && c !in dcs && Usable(v, c)
    requires OnDisk(d, v) && OnDisk(d2, v) && FreeLeft(d2, v) + |cs| == FreeLeft(d, v)
    requires RoomMade(d2, d3, v, bm, dcs, dcs2, SetSize(name), i, p) && 32 * SetSize(name) <= ClusterBytes(v)
    requires SetStored(d3, d4, v, bm, dcs2, i, p, NewSet(name, cs, |data|, isDir))
    ensures Created(d, d4, v, bm, dcs, dcs2, name, isDir, data, cs, i, p)
  {
    hide Limit, Geometry, Cluster, Entry, Chain, Mounted, Used, Agree, Fat, Put, Summed, EntrySet, Slot, ChainBytes,
         Holding, Keeps;
    RoomFilled(d, d2, d3, v, bm, dcs, dcs2, SetSize(name), isDir, data, cs, i, p);
    FilledKept(d3, d4, v, {dcs2[i]}, isDir, data, cs);
    KeepsThen(d, d3, d4, v, SetOf(bm) + SetOf(dcs), {dcs2[i]}, SetOf(bm) + SetOf(dcs));
  }

  /** The same for a set that is too long. */
  lemma OverlongIs(d: disk, d2: disk, d3: disk, d4: disk, v: Vol, bm: seq<nat>, dcs: seq<nat>, dcs2: seq<nat>,
                   name: bytes, isDir: bool, data: bytes, cs: seq<nat>, i: nat, p: nat)
    requires Ready(d, v, bm) && DirX(d, v, dcs) && Keeps(d, d2, v, SetOf(bm)) && DirX(d2, v, dcs) && Apart(dcs, bm)
    requires Listing(d2, v, dcs) == Listing(d, v, dcs) && Filled(d2, v, isDir, data, cs)
    requires forall c | c in cs :: !InUse(d, v, c) && c !in bm && c !in dcs && Usable(v, c)
    requires RoomMade(d2, d3, v, bm, dcs, dcs2, SetSize(name), i, p) && 32 * SetSize(name) > ClusterBytes(v)
    requires Spilled(d3, d4, v, dcs2[i], NewSet(name, cs, |data|, isDir))
    ensures Overlong(d, d3, d4, v, bm, dcs, dcs2, name, isDir, data, cs)
  {
    hide Limit, Geometry, Cluster, Entry, Chain, Mounted, Used, Agree, Fat, Put, Summed, EntrySet, ChainBytes, Holding,
         Keeps, Filled, Spilled, Slot;
    RoomFilled(d, d2, d3, v, bm, dcs, dcs2, SetSize(name), isDir, data, cs, i, p);
    assert |Listing(d3, v, dcs2)| == |dcs2| && |Listing(d, v, dcs)| == |dcs|;
  }

  lemma FilledInUse(d: disk, v: Vol, isDir: bool, data: bytes, cs: seq<nat>)
    requires Filled(d, v, isDir, data, cs)
    ensures forall c | c in cs :: InUse(d, v, c)
  {
    hide Limit, Entry, Cluster, ChainBytes;
    if cs != [] { ChainInUse(d, v, cs[0], cs); }
  }

  /** The cluster that makes the directory longer was free before, too, and is none of the new ones. */
  lemma LongerUse(d: disk, d2: disk, v: Vol, bm: seq<nat>, dcs: seq<nat>, dcs2: seq<nat>, cs: seq<nat>)
    requires Keeps(d, d2, v, SetOf(bm)) && SameOrLonger(d2, v, bm, dcs, dcs2)
    requires (forall c | c in cs :: InUse(d2, v, c)) && forall c | c in cs :: c !in dcs
    ensures SameOrLonger(d, v, bm, dcs, dcs2) && (forall c | c in cs :: c !in dcs2)
    ensures forall c | c in dcs2 && InUse(d, v, c) :: c in dcs
  {
    hide Limit, Entry, Cluster;
    if dcs2 != dcs {
      var n := dcs2[|dcs|];
      assert dcs2 == dcs + [n];
      assert n !in SetOf(bm);
    }
  }

  lemma RoomApart(d2: disk, d3: disk, v: Vol, bm: seq<nat>, dcs: seq<nat>, dcs2: seq<nat>, t: nat, i: nat, p: nat)
    requires RoomMade(d2, d3, v, bm, dcs, dcs2, t, i, p) && Apart(dcs, bm)
    ensures Apart(dcs2, bm) && Ready(d3, v, bm) && DirX(d3, v, dcs2) && i < |dcs2| && p % 32 == 0
    ensures p + 32 * t <= ClusterBytes(v) <==> 32 * t <= ClusterBytes(v)
    ensures 32 * t > ClusterBytes(v) ==> p == 0 && Usable(v, dcs2[i] + 1)
  {
    hide Limit, Entry, Cluster, Keeps, Chain;
    if dcs2 != dcs { assert dcs2 == dcs + [dcs2[|dcs|]]; }
  }

  /** The result once the contents have their clusters. */
  lemma CodeIs(d: disk, d2: disk, v: Vol, dcs: seq<nat>, name: bytes, isDir: bool, size: nat, cs: seq<nat>)
    requires OnDisk(d, v) && DirX(d, v, dcs) && v.secPerClus > 0 && ClusterBytes(v) > 0 && OnDisk(d2, v)
    requires DirX(d2, v, dcs)
    requires HasRoom(d, v, Asked(v, isDir, size)) && |cs| == Need(v, Asked(v, isDir, size))
    requires FreeLeft(d2, v) + |cs| == FreeLeft(d, v)
    requires Listing(d2, v, dcs) == Listing(d, v, dcs)
    ensures CreateCode(d, v, dcs, name, isDir, size) ==
      if Slot(Listing(d2, v, dcs), 0, SetSize(name)).At? || FirstFree(Fat(d2, v), MaxClusters(v), 2) != 0 then 0 else -3
  {
    hide Limit, Geometry, Cluster, Entry, Fat, FreeSet, Chain, FirstFree, Slot;
    NoneIsFree(Fat(d2, v), MaxClusters(v));
  }

  lemma CreatedReady(d: disk, d': disk, v: Vol, bm: seq<nat>, dcs: seq<nat>, dcs2: seq<nat>, name: bytes, isDir: bool,
                     data: bytes, cs: seq<nat>, i: nat, p: nat)
    requires Created(d, d', v, bm, dcs, dcs2, name, isDir, data, cs, i, p)
    ensures Ready(d', v, bm)
  {
  }

  /** The set built without a first cluster. */
  method BuiltSet(name: bytes, size: nat, isDir: bool) returns (es: bytes, total: nat)
    requires NoNul(name) && size < TWO32
    ensures total == SetSize(name) && es == EntrySet(Shortened(name), 0, size, isDir)
  {
    hide EntrySet;
    var setbuf := new byte[32 * 40];
    var built;
    built, total := BuildEntrySet(setbuf, name, 0, size, isDir);
    es := setbuf[..32 * total];
  }

  /** The first cluster and the size, stored into it. */
  method PatchSet(es: bytes, name: bytes, first: nat, size: nat, isDir: bool) returns (patched: bytes)
    requires es == EntrySet(Shortened(name), 0, size, isDir)
    ensures patched == EntrySet(Shortened(name), first, size, isDir)
  {
    hide EntrySet, LeBytes, Put;
    Patched(Shortened(name), first, size, isDir);
    patched := Put(Put(Put(es, 52, LeBytes(4, first)), 56, LeBytes(8, size)), 40, LeBytes(8, size));
  }

  /** `exfat_create_entry`.  If the set is no longer than a cluster then, whatever the result, the tables agree and what
      is in use is kept but for the bitmap and the directory; if it is longer, a success has written behind the
      directory. */
  method CreateEntry(dk: array<bytes>, v: Vol, dirCl: nat, name: bytes, isDir: bool, data: bytes, ghost bm: seq<nat>,
                     ghost dcs: seq<nat>)
    returns (r: int, first: nat, ghost cs: seq<nat>, ghost dcs2: seq<nat>, ghost i: nat, ghost p: nat, ghost mid: disk)
    requires Ready(dk[..], v, bm) && DirX(dk[..], v, dcs) && dirCl == dcs[0] && Apart(dcs, bm)
    requires NoNul(name) && |data| < TWO32 && (isDir ==> data == [])
    modifies dk
    ensures v.secPerClus > 0 && ClusterBytes(v) > 0 && OnDisk(old(dk[..]), v)
    ensures r == CreateCode(old(dk[..]), v, dcs, name, isDir, |data|)
    ensures r != 0 ==> Ready(dk[..], v, bm) && Keeps(old(dk[..]), dk[..], v, SetOf(bm))
    ensures r == 0 && 32 * SetSize(name) <= ClusterBytes(v) ==>
      Ready(dk[..], v, bm) && Created(old(dk[..]), dk[..], v, bm, dcs, dcs2, name, isDir, data, cs, i, p)
    ensures r == 0 && 32 * SetSize(name) > ClusterBytes(v) ==>
      Overlong(old(dk[..]), mid, dk[..], v, bm, dcs, dcs2, name, isDir, data, cs)
    ensures r == 0 ==> first == if cs == [] then 0 else cs[0]
  {
    hide Limit, Geometry, Cluster, Entry, Chain, Mounted, Fat, Used, Agree, Allocated, FreeSet, OnlyChain, HasRoom,
         ChainBytes, NoRoomLeft, RoomMade, SetStored, Filled, FirstFree, Slot, Put, EntrySet, LeBytes, Keeps, Created,
         Usable, Apart, Need, AllUsable, Contents, Listing, MaxClusters, FreeFrom, Spilled, Overlong;
    ghost var d := dk[..];
    OneCluster(d, v);
    MountedOn(d, v, bm);
    dcs2, i, p, mid := dcs, 0, 0, d;
    var es, total := BuiltSet(name, |data|, isDir);
    ghost var d1;
    var ok;
    ok, first, cs, d1 := FillNew(dk, v, isDir, data, bm);
    if !ok {
      NoRoomKeeps(d, dk[..], v, bm, Asked(v, isDir, |data|));
      return -2, 0, cs, dcs2, i, p, mid;
    }
    ghost var d2 := dk[..];
    FilledNew(d, d1, d2, v, bm, dcs, cs);
    es := PatchSet(es, name, first, |data|, isDir);
    var found, startCl, startByte;
    found, startCl, startByte, dcs2, i := FindFreeSet(dk, v, dirCl, total, bm, dcs);
    p := startByte;
    CodeIs(d, d2, v, dcs, name, isDir, |data|, cs);
    if found != 0 {
      return -3, 0, cs, dcs2, i, p, mid;
    }
    mid := dk[..];
    RoomApart(d2, mid, v, bm, dcs, dcs2, total, i, p);
    r := StoreSet(dk, v, startCl, startByte, es, total, bm, dcs2, i);
    if 32 * total <= ClusterBytes(v) {
      CreatedIs(d, d2, mid, dk[..], v, bm, dcs, dcs2, name, isDir, data, cs, i, p);
      CreatedReady(d, dk[..], v, bm, dcs, dcs2, name, isDir, data, cs, i, p);
    } else {
      OverlongIs(d, d2, mid, dk[..], v, bm, dcs, dcs2, name, isDir, data, cs, i, p);
    }
  }
}
