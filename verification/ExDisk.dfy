/** exFAT directories on disk: the search through a chain, and what the steps of the engine keep. */
module ExDisk {
  import opened Bytes
  import opened Components
  import opened Volume
  import opened Bitmap
  import opened Allocator
  import opened FileData
  import opened EntrySets
  import opened DirSets
  import opened ExFile
  import opened Keeping
  import opened DirEntries
  import opened ExDir
  import opened SetBuffer

  // ---------------------------------------------------------------- volumes and directories

  /** The volume is mounted, and its two tables agree. */
  ghost predicate Ready(d: disk, v: Vol, bm: seq<nat>)
  {
    OnDisk(d, v) && Mounted(d, v, bm) && Agree(Fat(d, v), Used(d, v, bm))
  }

  /** The directory with the clusters `dcs`. */
  ghost predicate DirX(d: disk, v: Vol, dcs: seq<nat>)
  {
    |dcs| > 0 && Chain(d, v, dcs[0], dcs)
  }

  /** How many free clusters the scan can find. */
  ghost function FreeLeft(d: disk, v: Vol): (n: nat)
    requires OnDisk(d, v)
  {
    |FreeSet(Fat(d, v), MaxClusters(v))|
  }

  lemma WholeEntries(v: Vol, sectors: nat)
    requires Geometry(v, sectors)
    ensures ClusterBytes(v) % 32 == 0 && ClusterBytes(v) >= 512 && v.secPerClus > 0
  {
    hide HeapClusters, FatSectors;
    Times512(v.secPerClus, v.bytesPerSec);
  }

  lemma Times512(spc: nat, bps: nat)
    requires spc > 0 && bps in {512, 1024, 2048, 4096}
    ensures spc * bps % 32 == 0 && spc * bps >= 512
  {
    assert bps == 32 * (bps / 32);
    Multiple(spc, bps / 32);
    MulMono(1, spc, bps);
  }

  lemma Multiple(a: nat, b: nat)
    ensures a * (32 * b) % 32 == 0
  {
    assert a * (32 * b) == 32 * (a * b);
  }

  lemma DirXIs(d: disk, v: Vol, dcs: seq<nat>)
    requires DirX(d, v, dcs)
    ensures OnDisk(d, v) && AllUsable(v, dcs) && AllEntries(Contents(d, v, dcs)) && ClusterBytes(v) % 32 == 0
    ensures ClusterBytes(v) >= 512
    ensures forall i | 0 <= i < |dcs| ::
      |Contents(d, v, dcs)[i]| == ClusterBytes(v) && Contents(d, v, dcs)[i] == Cluster(d, v, dcs[i])
  {
    hide Cluster, Limit, Geometry, Entry;
    ChainUsable(d, v, dcs[0], dcs);
    WholeEntries(v, |d|);
    forall i | 0 <= i < |dcs|
      ensures |Contents(d, v, dcs)[i]| == ClusterBytes(v)
    {
      ClusterLen(d, v, dcs[i]);
    }
  }

  /** The clusters of a directory. */
  ghost function Listing(d: disk, v: Vol, dcs: seq<nat>): (cl: seq<bytes>)
    requires DirX(d, v, dcs)
    ensures AllEntries(cl) && |cl| == |dcs| && forall i | 0 <= i < |cl| :: |cl[i]| == ClusterBytes(v)
  {
    DirXIs(d, v, dcs);
    Contents(d, v, dcs)
  }

  lemma ListingAt(d: disk, v: Vol, dcs: seq<nat>, i: nat)
    requires DirX(d, v, dcs) && i < |dcs|
    ensures OnDisk(d, v) && AllUsable(v, dcs) && Usable(v, dcs[i]) && Listing(d, v, dcs) == Contents(d, v, dcs)
    ensures Listing(d, v, dcs)[i] == Cluster(d, v, dcs[i]) && |Listing(d, v, dcs)[i]| == ClusterBytes(v)
    ensures ClusterBytes(v) % 32 == 0 && ClusterBytes(v) >= 512 && dcs[i] >= 2
  {
    hide Cluster, Limit, Geometry, Entry, Chain;
    DirXIs(d, v, dcs);
  }

  // ---------------------------------------------------------------- comparing names

  /** A name folded for comparison. */
  function Key(name: bytes): (k: bytes)
    ensures |k| == |name| && forall i | 0 <= i < |k| :: k[i] == Upper(name[i])
  {
    seq(|name|, i requires 0 <= i < |name| => Upper(name[i]))
  }

  /** The folding of the name sought. */
  method FoldName(name: bytes) returns (want: bytes)
    ensures want == Key(CutTo(name, 255))
  {
    var wantLen := |name|;
    if wantLen >= 256 {
      wantLen := 255;
    }
    want := [];
    var i := 0;
    while i < wantLen
      invariant 0 <= i <= wantLen && |want| == i && forall j | 0 <= j < i :: want[j] == Upper(name[j])
    {
      var c := name[i];
      if 97 <= c <= 122 {
        c := c - 32;
      }
      want := want + [c];
      i := i + 1;
    }
  }

  /** The comparison; the buffer of the entry's name ends with a NUL. */
  method SameName(name: bytes, want: bytes) returns (eq: bool)
    requires NoNul(want) && Key(want) == want
    ensures eq == Match(name, want)
  {
    var entryName := name + [0];
    eq := true;
    var i := 0;
    while eq && i < |want|
      invariant 0 <= i <= |want| && i <= |name| + 1
      invariant eq ==> i <= |name| && forall j | 0 <= j < i :: Upper(name[j]) == Upper(want[j])
      invariant !eq ==> !Match(name, want)
    {
      var c := Upper(entryName[i]);
      assert want[i] in want && Upper(want[i]) == want[i];
      if c != want[i] {
        eq := false;
      }
      i := i + 1;
    }
    if eq && entryName[|want|] != 0 {
      eq := false;
    }
  }

  lemma KeyFold(name: bytes)
    requires NoNul(name)
    ensures NoNul(Key(name)) && Key(Key(name)) == Key(name)
  {
    forall i | 0 <= i < |name|
      ensures Key(name)[i] != 0
    {
      assert name[i] in name;
    }
  }

  // ---------------------------------------------------------------- the search

  /** The entry at `byteOff` of a cluster: whether it is the set sought.  The buffer takes every set that is copied,
      because none is too long. */
  method CheckSet(dk: array<bytes>, v: Vol, cl: nat, byteOff: nat, want: bytes) returns (hit: bool, info: Info)
    requires OnDisk(dk[..], v) && Usable(v, cl) && byteOff % 32 == 0 && byteOff + 32 <= |Cluster(dk[..], v, cl)|
    requires NoNul(want) && Key(want) == want && |Cluster(dk[..], v, cl)| == ClusterBytes(v)
    requires !Wide(Cluster(dk[..], v, cl), byteOff)
    ensures var c := Cluster(dk[..], v, cl); hit == Hits(c, byteOff, want) && (hit ==> info == ParsedAt(c, byteOff).1)
  {
    hide Limit, Geometry, Cluster, Lba, Parse, Match;
    hit, info := false, Info([], 0, 0, false);
    ghost var c := Cluster(dk[..], v, cl);
    EntryOfCluster(dk[..], v, cl, byteOff);
    var sec := dk[Lba(v, cl) + byteOff / v.bytesPerSec];
    var o := byteOff % v.bytesPerSec;
    assert sec[o] == sec[o..o + 32][0] == c[byteOff..byteOff + 32][0];
    assert sec[o + 1] == sec[o..o + 32][1] == c[byteOff..byteOff + 32][1];
    if sec[o] != ENTRY_FILE {
      return;
    }
    var secondary := sec[o + 1] as nat;
    if secondary == 0 {
      return;
    }
    if secondary > 40 {
      return;
    }
    var setbuf := new byte[32 * 32];
    var collected := CollectEntries(dk, v, cl, byteOff, secondary + 1, setbuf);
    if collected != 0 {
      return;
    }
    var parsed;
    parsed, info := ParseFileSet(setbuf[..32 * (secondary + 1)], secondary, 256);
    if parsed != 0 {
      return;
    }
    hit := SameName(info.name, want);
  }

  method EntryType(dk: array<bytes>, v: Vol, cl: nat, byteOff: nat) returns (et: byte)
    requires OnDisk(dk[..], v) && Usable(v, cl) && byteOff % 32 == 0 && byteOff + 32 <= |Cluster(dk[..], v, cl)|
    requires |Cluster(dk[..], v, cl)| == ClusterBytes(v)
    ensures et == Cluster(dk[..], v, cl)[byteOff]
  {
    hide Limit, Geometry, Cluster, Lba;
    ghost var c := Cluster(dk[..], v, cl);
    EntryOfCluster(dk[..], v, cl, byteOff);
    var sec := dk[Lba(v, cl) + byteOff / v.bytesPerSec];
    var o := byteOff % v.bytesPerSec;
    et := sec[o];
    assert sec[o] == sec[o..o + 32][0] == c[byteOff..byteOff + 32][0];
  }

  lemma ScanStep(c: bytes, off: nat, want: bytes)
    requires Entries(c) && off % 32 == 0 && off + 32 <= |c|
    ensures ScanFrom(c, off, want) ==
      if c[off] == 0 then Stop else if Hits(c, off, want) then Hit(off) else ScanFrom(c, off + 32, want)
  {
    hide Hits;
  }

  lemma ScanEnd(c: bytes, off: nat, want: bytes)
    requires Entries(c) && off % 32 == 0 && off >= |c|
    ensures ScanFrom(c, off, want) == Past
  {
    hide Hits;
  }

  /** One cluster of `exfat_find_in_dir`. */
  method FindInCluster(dk: array<bytes>, v: Vol, cl: nat, want: bytes)
    returns (hit: bool, stop: bool, off: nat, info: Info)
    requires OnDisk(dk[..], v) && Usable(v, cl) && NoNul(want) && Key(want) == want
    requires |Cluster(dk[..], v, cl)| == ClusterBytes(v) && Entries(Cluster(dk[..], v, cl))
    requires SlimFrom(Cluster(dk[..], v, cl), 0, want)
    ensures match ScanFrom(Cluster(dk[..], v, cl), 0, want)
      case Hit(p) => hit && !stop && off == p && off + 32 <= |Cluster(dk[..], v, cl)|
                     && Claims(Cluster(dk[..], v, cl), off) && info == ParsedAt(Cluster(dk[..], v, cl), off).1
      case Stop => !hit && stop
      case Past => !hit && !stop && Passed(Cluster(dk[..], v, cl), 0, |Cluster(dk[..], v, cl)|, want)
  {
    hide Limit, Geometry, Cluster, Lba, ParsedAt, Match, OnDisk, Passed, Wide, Claims, ScanFrom, Usable;
    ghost var c := Cluster(dk[..], v, cl);
    var clusterBytes := v.secPerClus * v.bytesPerSec;
    assert clusterBytes == |c|;
    hide ClusterBytes;
    PassedNone(c, want);
    hit, stop, off, info := false, false, 0, Info([], 0, 0, false);
    while off < clusterBytes
      invariant off % 32 == 0 && off <= |c| && ScanFrom(c, 0, want) == ScanFrom(c, off, want) && !hit && !stop
      invariant Passed(c, 0, off, want)
    {
      EntryFits(c, off);
      ScanStep(c, off, want);
      var et := EntryType(dk, v, cl, off);
      if et == 0 {
        stop := true;
        return;
      }
      assert Comes(c, 0, off, want);
      hit, info := CheckSet(dk, v, cl, off, want);
      if hit {
        return;
      }
      PassedNext(c, off, want);
      off := off + 32;
    }
    ScanEnd(c, off, want);
  }

  /** `exfat_find_in_dir`, for a directory in which the search comes to no set that is longer than the buffer. */
  method FindInDir(dk: array<bytes>, v: Vol, dirCl: nat, name: bytes, ghost dcs: seq<nat>)
    returns (r: int, info: Info, cl: nat, off: nat)
    requires DirX(dk[..], v, dcs) && dirCl == dcs[0] && NoNul(name)
    requires Slim(Listing(dk[..], v, dcs), Key(CutTo(name, 255)))
    ensures var all := Listing(dk[..], v, dcs);
      match Find(all, 0, Key(CutTo(name, 255)))
      case At(i, p) => r == 0 && cl == dcs[i] && off == p && info == ParsedAt(all[i], p).1
      case Ended => r == -2
      case Exhausted => r == -3
  {
    hide Limit, Geometry, Cluster, Lba, Hits, Entry, Chain, Key, ParsedAt, Usable, Slim, SlimFrom, Passed;
    ghost var d := dk[..];
    ghost var all := Listing(d, v, dcs);
    NoNulCut(name);
    KeyFold(CutTo(name, 255));
    var want := FoldName(name);
    info := Info([], 0, 0, false);
    cl, off := dirCl, 0;
    ghost var k := 0;
    UsableEntry(d, v, dirCl, dcs, 0);
    while !IsEnd(cl)
      invariant 0 <= k <= |dcs| && (k < |dcs| ==> cl == dcs[k]) && (k == |dcs| ==> IsEnd(cl))
      invariant Find(all, 0, want) == Find(all, k, want)
      invariant forall j | 0 <= j < k :: Passed(all[j], 0, |all[j]|, want)
      decreases |dcs| - k
    {
      UsableEntry(d, v, dirCl, dcs, k);
      ListingAt(d, v, dcs, k);
      SlimAt(all, k, want);
      var hit, stop;
      hit, stop, off, info := FindInCluster(dk, v, cl, want);
      if stop {
        return -2, info, cl, off;
      }
      if hit {
        return 0, info, cl, off;
      }
      UsableBelow(v, cl);
      cl := ReadFatEntry(dk, v, cl);
      k := k + 1;
    }
    if k < |dcs| {
      UsableEntry(d, v, dirCl, dcs, k);
    }
    r := -3;
  }

  lemma NoNulCut(name: bytes)
    requires NoNul(name)
    ensures NoNul(CutTo(name, 255))
  {
  }

  // ---------------------------------------------------------------- keeping

  /** Whoever writes only `touched` clusters, and only the entries of `named`, keeps the others. */
  lemma TablesKeep(d: disk, d': disk, v: Vol, touched: seq<nat>, named: set<nat>)
    requires OnDisk(d, v) && OnDisk(d', v) && |d'| == |d| && AllUsable(v, touched)
    requires forall i | Heap(v) <= i < |d| && !InChain(v, touched, i) :: d'[i] == d[i]
    requires forall c: nat | InUse(d, v, c) && c !in named :: c < |Fat(d, v)| && Fat(d', v)[c] == Fat(d, v)[c]
    requires forall c | c in touched && InUse(d, v, c) :: c in named
    ensures Keeps(d, d', v, named)
  {
    hide Limit, Geometry, Cluster, Entry, Fat;
    forall c: nat | InUse(d, v, c) && c !in named
      ensures Entry(d', v, c) == Entry(d, v, c) && Cluster(d', v, c) == Cluster(d, v, c)
    {
      FatIs(d, v, c);
      FatIs(d', v, c);
      ClusterOutside(d, d', v, touched, c);
    }
  }

  lemma FatUse(d: disk, v: Vol, c: nat)
    requires InUse(d, v, c)
    ensures OnDisk(d, v) && c < |Fat(d, v)| && Fat(d, v)[c] != 0
  {
    hide Entry;
  }

  /** An allocation keeps all that is in use, but for the bitmap. */
  lemma AllocatedKeeps(d: disk, d': disk, v: Vol, bm: seq<nat>, cs: seq<nat>)
    requires Ready(d, v, bm) && Allocated(d, d', v, bm, cs)
    ensures Ready(d', v, bm) && Keeps(d, d', v, SetOf(bm))
    ensures forall c | c in cs :: !InUse(d, v, c) && c !in bm && Usable(v, c)
  {
    hide Limit, Geometry, Entry, Fat, Used, Mounted, Linked, FreeSet;
    MountedOn(d, v, bm);
    AllocatedLast(d, d', v, bm, cs);
    TakenAgree(Fat(d, v), Used(d, v, bm), Fat(d', v), Used(d', v, bm), MaxClusters(v), cs);
    MountedBitmap(d, v, bm);
    forall c: nat | InUse(d, v, c)
      ensures c !in cs && c < |Fat(d, v)| && Fat(d', v)[c] == Fat(d, v)[c]
    {
      FatUse(d, v, c);
    }
    TablesKeep(d, d', v, bm, SetOf(bm));
  }

  /** So does an attempt that fails. */
  lemma NoRoomKeeps(d: disk, d': disk, v: Vol, bm: seq<nat>, size: nat)
    requires Ready(d, v, bm) && NoRoomLeft(d, d', v, bm, size)
    ensures Ready(d', v, bm) && Keeps(d, d', v, SetOf(bm))
  {
    hide Limit, Geometry, Entry, Fat, Used, Mounted;
    var f := if SizeFits(v, size) then Fat(d, v) else Fat(d, v)[0 := EOC];
    BecameMounted(d, d', v, bm, f, Used(d, v, bm));
    MountedBitmap(d, v, bm);
    forall c: nat | InUse(d, v, c)
      ensures c < |Fat(d, v)| && Fat(d', v)[c] == Fat(d, v)[c]
    {
      FatUse(d, v, c);
    }
    TablesKeep(d, d', v, bm, SetOf(bm));
  }

  /** A write to clusters of data, or of a directory. */
  lemma DataKeeps(d: disk, d': disk, v: Vol, bm: seq<nat>, xs: seq<nat>)
    requires Ready(d, v, bm) && OnlyChain(d, d', v, xs) && AllUsable(v, xs) && forall c | c in xs :: c !in bm
    ensures Ready(d', v, bm) && Keeps(d, d', v, SetOf(xs)) && Fat(d', v) == Fat(d, v)
  {
    hide Limit, Geometry, Entry, Fat, Used, Mounted, OnlyChain, Agree;
    DataOnly(d, d', v, bm, xs);
    WriteKeeps(d, d', v, xs);
  }

  /** A longer directory. */
  lemma GrownKeeps(d: disk, d': disk, v: Vol, bm: seq<nat>, prev: nat, newCl: nat)
    requires Ready(d, v, bm) && Grown(d, d', v, bm, prev, newCl) && Usable(v, newCl)
    ensures Keeps(d, d', v, SetOf(bm) + {prev}) && !InUse(d, v, newCl)
  {
    hide Limit, Geometry, Entry, Fat, Used, Mounted, Agree;
    MountedBitmap(d, v, bm);
    if InUse(d, v, newCl) { FatUse(d, v, newCl); }
    forall c: nat | InUse(d, v, c) && c !in SetOf(bm) + {prev}
      ensures c < |Fat(d, v)| && Fat(d', v)[c] == Fat(d, v)[c]
    {
      FatUse(d, v, c);
    }
    forall i | Heap(v) <= i < |d| && !InChain(v, bm + [newCl], i)
      ensures d'[i] == d[i]
    {
      InChainCat(v, bm, [newCl], i);
    }
    TablesKeep(d, d', v, bm + [newCl], SetOf(bm) + {prev});
  }

  /** An overwritten file. */
  lemma OverwriteKeeps(d: disk, d': disk, v: Vol, bm: seq<nat>, dirCl: nat, oldCs: seq<nat>, cs: seq<nat>)
    requires Ready(d, v, bm) && OnlyFile(d, d', v, bm, dirCl, oldCs, cs) && Usable(v, dirCl) && AllUsable(v, cs)
    ensures Keeps(d, d', v, SetOf(bm) + SetOf(oldCs) + {dirCl}) && forall c | c in cs :: !InUse(d, v, c)
  {
    hide Limit, Geometry, Entry, Fat, Used, Mounted, Agree;
    var named := SetOf(bm) + SetOf(oldCs) + {dirCl};
    MountedBitmap(d, v, bm);
    forall c: nat | InUse(d, v, c)
      ensures c !in cs && (c !in named ==> c < |Fat(d, v)| && Fat(d', v)[c] == Fat(d, v)[c])
    {
      FatUse(d, v, c);
      FatLimit(d, v);
    }
    forall i | Heap(v) <= i < |d| && !InChain(v, bm + cs + [dirCl], i)
      ensures d'[i] == d[i]
    {
      InChainCat(v, bm + cs, [dirCl], i);
      InChainCat(v, bm, cs, i);
    }
    TablesKeep(d, d', v, bm + cs + [dirCl], named);
  }

  /** A longer directory has taken one cluster. */
  lemma GrownLeft(d: disk, d': disk, v: Vol, bm: seq<nat>, dcs: seq<nat>, newCl: nat)
    requires DirX(d, v, dcs) && Grown(d, d', v, bm, dcs[|dcs| - 1], newCl) && OnDisk(d, v) && OnDisk(d', v)
    requires newCl == FirstFree(Fat(d, v), MaxClusters(v), 2) && newCl != 0 && Chain(d', v, dcs[0], dcs + [newCl])
    ensures FreeLeft(d', v) + 1 == FreeLeft(d, v)
  {
    hide Limit, Geometry, Entry, Fat;
    var all := dcs + [newCl];
    var prev := dcs[|dcs| - 1];
    FreeIs(Fat(d, v), MaxClusters(v), newCl);
    FatLimit(d, v);
    FatLimit(d', v);
    NeverFree(d, v, dcs[0], dcs, |dcs| - 1);
    NeverFree(d', v, dcs[0], all, |dcs| - 1);
    NeverFree(d', v, dcs[0], all, |dcs|);
    assert all[|dcs| - 1] == prev && all[|dcs|] == newCl;
    FatIs(d, v, prev);
    FatIs(d', v, prev);
    FatIs(d', v, newCl);
    OneTaken(Fat(d, v), Fat(d', v), MaxClusters(v), newCl);
  }

  lemma FatLimit(d: disk, v: Vol)
    requires OnDisk(d, v)
    ensures |Fat(d, v)| == Limit(v)
  {
  }
}
