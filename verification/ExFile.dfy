/** Overwriting, reading and making room for files on an exFAT volume, once their directory is known. */
module ExFile {
  import opened Bytes
  import opened Volume
  import opened Bitmap
  import opened Allocator
  import opened FileData
  import opened EntrySets
  import opened DirSets

  // ---------------------------------------------------------------- what a file is

  /** The entry at `off` of directory cluster `dirCl` names a file that holds `data`, in the clusters `cs`. */
  ghost predicate FileAt(d: disk, v: Vol, dirCl: nat, off: nat, name: bytes, data: bytes, cs: seq<nat>)
  {
    && OnDisk(d, v) && Usable(v, dirCl)
    && (if cs == [] then data == [] && EntryAt(d, v, dirCl, off, name, 0, 0, false)
        else EntryAt(d, v, dirCl, off, name, cs[0], |data|, false) && cs[0] < TWO32 && |data| < TWO32
             && Chain(d, v, cs[0], cs) && AllUsable(v, cs) && data <= ChainBytes(d, v, cs))
  }

  lemma ChainStart(d: disk, v: Vol, cs: seq<nat>)
    requires cs != [] && Chain(d, v, cs[0], cs)
    ensures cs[0] != 0
  {
    hide Entry, Limit;
    UsableEntry(d, v, cs[0], cs, 0);
  }

  // ---------------------------------------------------------------- overwriting

  /** What a write to the file with the old clusters `oldCs` may touch: the bitmap, the new clusters `cs` and the
      directory cluster; and in the table only the entries of `cs` and `oldCs`. */
  ghost predicate OnlyFile(d: disk, d': disk, v: Vol, bm: seq<nat>, dirCl: nat, oldCs: seq<nat>, cs: seq<nat>)
    requires Mounted(d, v, bm) && OnDisk(d, v)
  {
    && |d'| == |d| && Mounted(d', v, bm) && OnDisk(d', v)
    && (forall c | 0 <= c < Limit(v) && c !in cs && c !in oldCs :: Fat(d', v)[c] == Fat(d, v)[c])
    && (forall c | c in cs :: c < Limit(v) && Fat(d, v)[c] == 0)
    && (forall i | Heap(v) <= i < |d| && !InChain(v, bm, i) && !InChain(v, cs, i) && !InChain(v, [dirCl], i) ::
         d'[i] == d[i])
  }

  /** Every other file is as it was: same clusters, same contents. */
  lemma {:induction false} OtherFileKept(d: disk, d': disk, v: Vol, bm: seq<nat>, dirCl: nat, oldCs: seq<nat>,
                                         cs: seq<nat>, start: nat, other: seq<nat>)
    requires Mounted(d, v, bm) && OnDisk(d, v) && OnlyFile(d, d', v, bm, dirCl, oldCs, cs) && Chain(d, v, start, other)
    requires forall c | c in other :: c !in bm && c !in oldCs && c != dirCl
    requires Usable(v, dirCl) && AllUsable(v, cs)
    ensures Chain(d', v, start, other) && AllUsable(v, other) && OnDisk(d', v)
    ensures ChainBytes(d', v, other) == ChainBytes(d, v, other)
  {
    hide Limit, Geometry, ChainBytes, Entry;
    ChainUsable(d, v, start, other);
    forall i | 0 <= i < |other| ensures other[i] !in cs && Entry(d', v, other[i]) == Entry(d, v, other[i]) {
      NeverFree(d, v, start, other, i);
      assert other[i] in other;
      FatIs(d, v, other[i]);
      FatIs(d', v, other[i]);
    }
    ChainSame(d, d', v, start, other);
    ChainUsable(d, v, v.bitmapClus, bm);
    forall i | Heap(v) <= i < |d| && !InChain(v, bm + cs + [dirCl], i) ensures d'[i] == d[i] {
      InChainCat(v, bm + cs, [dirCl], i);
      InChainCat(v, bm, cs, i);
    }
    SameContents(d, d', v, bm + cs + [dirCl], other);
  }

  lemma FatIs(d: disk, v: Vol, c: nat)
    requires OnDisk(d, v) && Usable(v, c)
    ensures c < |Fat(d, v)| && Fat(d, v)[c] == Entry(d, v, c)
  {
  }

  /** A cluster in a chain is in use. */
  lemma NeverFree(d: disk, v: Vol, start: nat, cs: seq<nat>, i: nat)
    requires Chain(d, v, start, cs) && i < |cs|
    ensures OnDisk(d, v) && Usable(v, cs[i]) && Entry(d, v, cs[i]) != 0
  {
    hide Entry, Limit;
    UsableEntry(d, v, start, cs, i);
    if i + 1 < |cs| { UsableEntry(d, v, start, cs, i + 1); }
  }

  lemma InChainCat(v: Vol, a: seq<nat>, b: seq<nat>, i: int)
    ensures InChain(v, a + b, i) <==> InChain(v, a, i) || InChain(v, b, i)
  {
    hide Lba;
    if InChain(v, a, i) {
      var k :| 0 <= k < |a| && a[k] >= 2 && InCluster(v, a[k], i);
      assert (a + b)[k] == a[k];
    }
    if InChain(v, b, i) {
      var k :| 0 <= k < |b| && b[k] >= 2 && InCluster(v, b[k], i);
      assert (a + b)[|a| + k] == b[k];
    }
  }

  /** A cluster outside the touched ones is as it was. */
  lemma ClusterOutside(d: disk, d': disk, v: Vol, touched: seq<nat>, c: nat)
    requires OnDisk(d, v) && OnDisk(d', v) && |d'| == |d| && AllUsable(v, touched) && Usable(v, c) && c !in touched
    requires forall i | Heap(v) <= i < |d| && !InChain(v, touched, i) :: d'[i] == d[i]
    ensures Cluster(d', v, c) == Cluster(d, v, c)
  {
    hide Limit, Geometry, Cluster;
    LbaIs(v, |d|, c);
    forall i | 0 <= i < |d| && InCluster(v, c, i) ensures d'[i] == d[i] {
      Outside(v, touched, c, i);
    }
    ClusterSame(d, d', v, c);
  }

  /** Files outside the touched clusters read the same. */
  lemma SameContents(d: disk, d': disk, v: Vol, touched: seq<nat>, other: seq<nat>)
    requires OnDisk(d, v) && OnDisk(d', v) && |d'| == |d| && AllUsable(v, touched) && AllUsable(v, other)
    requires forall c | c in other :: c !in touched
    requires forall i | Heap(v) <= i < |d| && !InChain(v, touched, i) :: d'[i] == d[i]
    ensures ChainBytes(d', v, other) == ChainBytes(d, v, other)
    decreases |other|
  {
    hide Limit, Geometry, Cluster;
    if other != [] {
      var n := |other| - 1;
      var c := other[n];
      assert c in other && Usable(v, c);
      SameContents(d, d', v, touched, other[..n]);
      ClusterOutside(d, d', v, touched, c);
    }
  }

  lemma Outside(v: Vol, touched: seq<nat>, c: nat, i: int)
    requires Usable(v, c) && AllUsable(v, touched) && c !in touched && InCluster(v, c, i)
    ensures !InChain(v, touched, i)
  {
    hide Limit, Lba;
    if InChain(v, touched, i) {
      var k :| 0 <= k < |touched| && touched[k] >= 2 && InCluster(v, touched[k], i);
      if c < touched[k] { LbaApart(v, c, touched[k]); } else { LbaApart(v, touched[k], c); }
    }
  }

  /** Writing data clusters leaves table and bitmap alone. */
  lemma DataOnly(d: disk, d': disk, v: Vol, bm: seq<nat>, xs: seq<nat>)
    requires Mounted(d, v, bm) && OnDisk(d, v) && OnlyChain(d, d', v, xs) && AllUsable(v, xs)
    requires forall c | c in xs :: c !in bm
    ensures Mounted(d', v, bm) && OnDisk(d', v) && |d'| == |d| && Fat(d', v) == Fat(d, v)
    ensures Used(d', v, bm) == Used(d, v, bm)
  {
    hide Limit, Geometry, FatWord, Bit, BitSec, BitClus, BitOff;
    TableKept(d, d', v, xs);
    OnlyOnDisk(d, d', v, xs);
    ChainKept(d, d', v, xs, v.bitmapClus, bm);
    assert Fat(d', v) == Fat(d, v);
    forall c: nat | Usable(v, c) ensures BitOf(d', v, bm, c) == BitOf(d, v, bm, c) {
      BitKept(d, d', v, bm, xs, c);
    }
    assert Used(d', v, bm) == Used(d, v, bm);
  }

  lemma BitKept(d: disk, d': disk, v: Vol, bm: seq<nat>, xs: seq<nat>, c: nat)
    requires Mounted(d, v, bm) && Mounted(d', v, bm) && OnlyChain(d, d', v, xs) && OnDisk(d, v) && AllUsable(v, xs)
    requires Usable(v, c)
    requires forall x | x in xs :: x !in bm
    ensures BitOf(d', v, bm, c) == BitOf(d, v, bm, c)
  {
    hide Limit, Geometry, Lba, Mounted, BitAt;
    BitPlace(d, v, bm, c);
    BitPlace(d', v, bm, c);
    var b := bm[BitClus(v, c)];
    assert b in bm && b !in xs;
    Outside(v, xs, b, BitSec(v, bm, c));
  }

  /** Freeing other clusters leaves a chain and its contents alone. */
  lemma FreedOthers(d: disk, d': disk, v: Vol, bm: seq<nat>, freed: seq<nat>, start: nat, cs: seq<nat>)
    requires Mounted(d, v, bm) && OnDisk(d, v) && OnDisk(d', v) && Chain(d, v, start, cs)
    requires Became(d, d', v, bm, Freed(Fat(d, v), freed), Marked(Used(d, v, bm), freed, false))
    requires forall c | c in cs :: c !in freed && c !in bm
    ensures Chain(d', v, start, cs) && AllUsable(v, cs) && ChainBytes(d', v, cs) == ChainBytes(d, v, cs)
  {
    hide Limit, Geometry, ChainBytes, Entry, Used, Mounted;
    ChainUsable(d, v, start, cs);
    forall i | 0 <= i < |cs| ensures Entry(d', v, cs[i]) == Entry(d, v, cs[i]) {
      assert cs[i] in cs && Usable(v, cs[i]);
      FatIs(d, v, cs[i]);
      FatIs(d', v, cs[i]);
    }
    ChainSame(d, d', v, start, cs);
    MountedBitmap(d, v, bm);
    SameContents(d, d', v, bm, cs);
  }

  lemma MountedBitmap(d: disk, v: Vol, bm: seq<nat>)
    requires Mounted(d, v, bm)
    ensures OnDisk(d, v) && AllUsable(v, bm)
  {
    hide Entry, Limit;
  }

  /** The new clusters are none of those in use. */
  lemma NewClusters(d: disk, d1: disk, v: Vol, bm: seq<nat>, cs: seq<nat>, c: nat)
    requires Mounted(d, v, bm) && OnDisk(d, v) && Allocated(d, d1, v, bm, cs) && Usable(v, c) && Entry(d, v, c) != 0
    ensures c !in cs
    ensures OnDisk(d1, v) && Entry(d1, v, c) == Entry(d, v, c)
  {
    hide Limit, Entry, Used, Linked, FreeSet;
    FatIs(d, v, c);
    MountedBitmap(d1, v, bm);
    FatIs(d1, v, c);
  }

  /** A chain in use survives an allocation. */
  lemma ChainSurvives(d: disk, d1: disk, v: Vol, bm: seq<nat>, cs: seq<nat>, start: nat, other: seq<nat>)
    requires Mounted(d, v, bm) && OnDisk(d, v) && Allocated(d, d1, v, bm, cs) && Chain(d, v, start, other)
    ensures Chain(d1, v, start, other) && forall c | c in other :: c !in cs
  {
    hide Limit, Entry, Allocated;
    forall i | 0 <= i < |other|
      ensures other[i] !in cs && OnDisk(d1, v) && Usable(v, other[i])
      ensures Entry(d1, v, other[i]) == Entry(d, v, other[i]) {
      NeverFree(d, v, start, other, i);
      NewClusters(d, d1, v, bm, cs, other[i]);
    }
    ChainUsable(d, v, start, other);
    assert OnDisk(d1, v) by { assert other[0] !in cs; }
    ChainSame(d, d1, v, start, other);
  }

  /** After a failed allocation table and bitmap are as they were, but for the end mark that goes into entry 0 when
      rounding the size up wraps around. */
  ghost predicate NoRoomLeft(d: disk, d': disk, v: Vol, bm: seq<nat>, size: nat)
    requires Mounted(d, v, bm) && OnDisk(d, v)
  {
    && 0 < |Fat(d, v)|
    && Became(d, d', v, bm, if SizeFits(v, size) then Fat(d, v) else Fat(d, v)[0 := EOC], Used(d, v, bm))
  }

  /** Whether `size` bytes find room. */
  ghost predicate HasRoom(d: disk, v: Vol, size: nat)
    requires OnDisk(d, v)
  {
    size == 0
    || (ClusterBytes(v) > 0 && v.secPerClus > 0 && SizeFits(v, size)
        && Need(v, size) <= |FreeSet(Fat(d, v), MaxClusters(v))|)
  }

  /** The first half of an overwrite: new clusters, filled. */
  method NewContents(dk: array<bytes>, v: Vol, data: bytes, ghost bm: seq<nat>)
    returns (ok: bool, first: nat, ghost cs: seq<nat>, ghost d1: disk)
    requires Mounted(dk[..], v, bm) && OnDisk(dk[..], v) && Agree(Fat(dk[..], v), Used(dk[..], v, bm))
    requires |data| < TWO32
    modifies dk
    ensures ClusterBytes(v) > 0
    ensures ok <==> HasRoom(old(dk[..]), v, |data|)
    ensures !ok ==> NoRoomLeft(old(dk[..]), dk[..], v, bm, |data|)
    ensures ok ==>
      Allocated(old(dk[..]), d1, v, bm, cs) && OnDisk(d1, v) && OnlyChain(d1, dk[..], v, cs) && AllUsable(v, cs)
    ensures ok ==> |cs| == Need(v, |data|)
    ensures ok ==>
      if cs == [] then first == 0 && data == []
      else first == cs[0] && Chain(dk[..], v, first, cs) && data <= ChainBytes(dk[..], v, cs)
  {
    hide Fat, Used, Limit, Mounted, Entry, Became, Allocated, FreeSet, Agree, Chain, ChainBytes, OnDisk, OnlyChain;
    first, cs, d1 := 0, [], dk[..];
    ghost var d := dk[..];
    GeometryOf(d, v);
    AllocatedNone(d, v, bm);
    if |data| > 0 {
      first, cs := AllocChainForSize(dk, v, |data|, bm);
      if first == 0 {
        ok := false;
        return;
      }
      d1 := dk[..];
      AllocatedLast(d, d1, v, bm, cs);
      ChainUsable(d1, v, first, cs);
      NeedCovers(v, |data|);
      var w := WriteChain(dk, v, first, data, cs);
      ok := true;
      return;
    }
    OnlyNothing(d, v);
    NeedNone(v);
    ok := true;
  }

  lemma NeedNone(v: Vol)
    requires ClusterBytes(v) > 0
    ensures Need(v, 0) == 0
  {
    DivIs(ClusterBytes(v) - 1, ClusterBytes(v), 0, ClusterBytes(v) - 1);
  }

  lemma GeometryOf(d: disk, v: Vol)
    requires OnDisk(d, v)
    ensures ClusterBytes(v) > 0
  {
    ClusterBytesPos(v, |d|);
  }

  lemma OnlyNothing(d: disk, v: Vol)
    requires OnDisk(d, v)
    ensures OnlyChain(d, d, v, []) && AllUsable(v, [])
  {
  }

  lemma NeedCovers(v: Vol, bytes: nat)
    requires ClusterBytes(v) > 0
    ensures bytes <= Need(v, bytes) * ClusterBytes(v)
  {
    var cb := ClusterBytes(v);
    var x := bytes + cb - 1;
    assert x == x / cb * cb + x % cb;
  }

  /** The new clusters `cs` hold the data. */
  ghost predicate Holding(d: disk, v: Vol, cs: seq<nat>, data: bytes)
  {
    && OnDisk(d, v) && AllUsable(v, cs)
    && (if cs == [] then data == [] else Chain(d, v, cs[0], cs) && data <= ChainBytes(d, v, cs))
  }

  /** Allocated, filled, and the old clusters freed. */
  lemma Replaced(d: disk, d1: disk, d2: disk, d3: disk, v: Vol, bm: seq<nat>, dirCl: nat, oldCs: seq<nat>, cs: seq<nat>,
                 data: bytes)
    requires Mounted(d, v, bm) && OnDisk(d, v) && Agree(Fat(d, v), Used(d, v, bm)) && Usable(v, dirCl)
    requires Allocated(d, d1, v, bm, cs) && OnDisk(d1, v) && OnlyChain(d1, d2, v, cs) && Mounted(d2, v, bm)
    requires Holding(d2, v, cs, data)
    requires Fat(d2, v) == Fat(d1, v) && Mounted(d1, v, bm) && Used(d2, v, bm) == Used(d1, v, bm)
    requires Became(d2, d3, v, bm, Freed(Fat(d2, v), oldCs), Marked(Used(d2, v, bm), oldCs, false))
    requires (forall c | c in cs :: c !in oldCs && c !in bm) && AllUsable(v, cs)
    ensures OnlyFile(d, d3, v, bm, dirCl, oldCs, cs) && Agree(Fat(d3, v), Used(d3, v, bm)) && Holding(d3, v, cs, data)
    ensures OnDisk(d3, v) && (dirCl !in bm && dirCl !in cs ==> Cluster(d3, v, dirCl) == Cluster(d, v, dirCl))
  {
    hide Limit, Entry, Used, Linked, FreeSet, Fat, Chain, ChainBytes, Mounted, Geometry;
    BecameMounted(d2, d3, v, bm, Freed(Fat(d2, v), oldCs), Marked(Used(d2, v, bm), oldCs, false));
    TakenAgree(Fat(d, v), Used(d, v, bm), Fat(d1, v), Used(d1, v, bm), MaxClusters(v), cs);
    FreedAgree(Fat(d1, v), Used(d1, v, bm), oldCs);
    if cs != [] {
      FreedOthers(d2, d3, v, bm, oldCs, cs[0], cs);
    }
    MountedOn(d, v, bm);
    if dirCl !in bm && dirCl !in cs { DirUntouched(d, d1, d2, d3, v, bm, cs, dirCl); }
  }

  lemma DirUntouched(d: disk, d1: disk, d2: disk, d3: disk, v: Vol, bm: seq<nat>, cs: seq<nat>, dirCl: nat)
    requires Mounted(d, v, bm) && OnDisk(d, v) && OnDisk(d3, v) && |d| == |d1| == |d2| == |d3|
    requires forall i | Heap(v) <= i < |d| && !InChain(v, bm, i) :: d1[i] == d[i] && d3[i] == d2[i]
    requires OnlyChain(d1, d2, v, cs) && AllUsable(v, cs) && Usable(v, dirCl) && dirCl !in bm && dirCl !in cs
    ensures Cluster(d3, v, dirCl) == Cluster(d, v, dirCl)
  {
    hide Limit, Cluster, Mounted, Geometry;
    MountedBitmap(d, v, bm);
    forall i | Heap(v) <= i < |d| && !InChain(v, bm + cs, i) ensures d3[i] == d[i] {
      InChainCat(v, bm, cs, i);
    }
    ClusterOutside(d, d3, v, bm + cs, dirCl);
  }

  /** The entry is written last. */
  lemma Recorded(d: disk, d3: disk, d4: disk, v: Vol, bm: seq<nat>, dirCl: nat, oldCs: seq<nat>, cs: seq<nat>,
                 data: bytes)
    requires Mounted(d, v, bm) && OnDisk(d, v) && OnlyFile(d, d3, v, bm, dirCl, oldCs, cs) && Holding(d3, v, cs, data)
    requires Mounted(d3, v, bm) && Agree(Fat(d3, v), Used(d3, v, bm))
    requires Usable(v, dirCl) && OnlyCluster(d3, d4, v, dirCl) && dirCl !in bm && dirCl !in cs
    ensures Mounted(d4, v, bm) && OnlyFile(d, d4, v, bm, dirCl, oldCs, cs) && Holding(d4, v, cs, data)
    ensures OnDisk(d4, v) && Agree(Fat(d4, v), Used(d4, v, bm))
  {
    hide Limit, Entry, Used, Fat, Chain, ChainBytes, Mounted, Geometry, Agree;
    forall i | 0 <= i < |d3| && !InChain(v, [dirCl], i) ensures d4[i] == d3[i] {
      assert [dirCl][0] == dirCl;
      assert !InCluster(v, dirCl, i);
    }
    assert forall c | c in [dirCl] :: c !in bm;
    DataOnly(d3, d4, v, bm, [dirCl]);
    if cs != [] {
      ChainKept(d3, d4, v, [dirCl], cs[0], cs);
      OtherFile(d3, d4, v, [dirCl], cs);
    }
  }

  /** The tail of `exfat_write_file_path` for a file that exists: its entry stands at `dirByte` of cluster `dirCl`.  On
      success the file holds the data, table and bitmap agree, and only what belongs to the file has changed. */
  method OverwriteFile(dk: array<bytes>, v: Vol, dirCl: nat, dirByte: nat, oldCluster: nat, name: bytes, data: bytes,
                       ghost bm: seq<nat>, ghost oldCs: seq<nat>)
    returns (r: int, ghost cs: seq<nat>)
    requires Mounted(dk[..], v, bm) && OnDisk(dk[..], v) && Agree(Fat(dk[..], v), Used(dk[..], v, bm))
    requires if oldCs == [] then oldCluster == 0 else oldCluster == oldCs[0] && Chain(dk[..], v, oldCluster, oldCs)
    requires forall c | c in oldCs :: c !in bm && c != dirCl
    requires Usable(v, dirCl) && Entry(dk[..], v, dirCl) != 0 && dirCl !in bm
    requires dirByte % 32 == 0 && dirByte + 32 * (2 + NameEntries(|name|)) <= ClusterBytes(v)
    requires NoNul(name) && |name| <= 255 && |data| < TWO32
    modifies dk
    ensures ClusterBytes(v) > 0
    ensures r == if HasRoom(old(dk[..]), v, |data|) then 0 else -7
    ensures r != 0 ==> NoRoomLeft(old(dk[..]), dk[..], v, bm, |data|)
    ensures r == 0 ==> OnlyFile(old(dk[..]), dk[..], v, bm, dirCl, oldCs, cs) && AllUsable(v, cs)
    ensures r == 0 ==> FileAt(dk[..], v, dirCl, dirByte, name, data, cs)
    ensures r == 0 ==>
      SetPut(old(dk[..]), dk[..], v, dirCl, dirByte, EntrySet(name, if cs == [] then 0 else cs[0], |data|, false))
    ensures r == 0 ==> Mounted(dk[..], v, bm) && OnDisk(dk[..], v) && Agree(Fat(dk[..], v), Used(dk[..], v, bm))
  {
    hide Fat, Used, Limit, Mounted, Entry, Became, Allocated, FreeSet, Agree, Chain, ChainBytes, OnDisk, OnlyChain,
         OnlyFile, OnlyCluster, Cluster, EntrySet, Summed, EntryAt, Holding, Usable, SetPut;
    ghost var d := dk[..];
    ghost var d1;
    var ok, first;
    ok, first, cs, d1 := NewContents(dk, v, data, bm);
    if !ok {
      return -7, cs;
    }
    ghost var d2 := dk[..];
    Fresh(d, d1, d2, v, bm, dirCl, oldCs, cs, data, first);
    FreeOld(dk, v, oldCluster, bm, oldCs);
    ghost var d3 := dk[..];
    Replaced(d, d1, d2, d3, v, bm, dirCl, oldCs, cs, data);
    OnlyFileDisk(d, d3, v, bm, dirCl, oldCs, cs);
    if cs != [] { SmallFirst(d3, v, cs, data); }
    r := UpdateEntry(dk, v, dirCl, dirByte, name, first, |data|);
    Recorded(d, d3, dk[..], v, bm, dirCl, oldCs, cs, data);
    SetPutFrom(d, d3, dk[..], v, dirCl, dirByte, EntrySet(name, first, |data|, false));
    FileIs(dk[..], v, dirCl, dirByte, name, data, cs, first);
  }

  method FreeOld(dk: array<bytes>, v: Vol, oldCluster: nat, ghost bm: seq<nat>, ghost oldCs: seq<nat>)
    requires Mounted(dk[..], v, bm) && OnDisk(dk[..], v)
    requires if oldCs == [] then oldCluster == 0 else oldCluster == oldCs[0] != 0 && Chain(dk[..], v, oldCluster, oldCs)
    requires forall c | c in oldCs :: c !in bm
    modifies dk
    ensures var d := old(dk[..]);
      Became(d, dk[..], v, bm, Freed(Fat(d, v), oldCs), Marked(Used(d, v, bm), oldCs, false))
  {
    hide Fat, Used, Mounted, Became, Chain, OnDisk;
    if oldCluster != 0 {
      var freed := FreeChain(dk, v, oldCluster, bm, oldCs);
    } else {
      NoneFreed(dk[..], dk[..], v, bm, oldCs);
    }
  }

  /** The directory cluster has the set `es` with its checksum at `off`, and is as it was otherwise. */
  ghost predicate SetPut(d: disk, d': disk, v: Vol, dirCl: nat, off: nat, es: bytes)
  {
    && OnDisk(d, v) && OnDisk(d', v) && Usable(v, dirCl) && |es| >= 32 && off + |es| <= |Cluster(d, v, dirCl)|
    && Cluster(d', v, dirCl) == Put(Cluster(d, v, dirCl), off, Summed(es))
  }

  lemma SetPutFrom(d: disk, d3: disk, d4: disk, v: Vol, dirCl: nat, off: nat, es: bytes)
    requires SetPut(d3, d4, v, dirCl, off, es) && OnDisk(d, v) && Cluster(d3, v, dirCl) == Cluster(d, v, dirCl)
    ensures SetPut(d, d4, v, dirCl, off, es)
  {
  }

  /** `exfat_update_entry` for a plain file. */
  method UpdateEntry(dk: array<bytes>, v: Vol, dirCl: nat, dirByte: nat, name: bytes, first: nat, size: nat)
    returns (r: int)
    requires OnDisk(dk[..], v) && Usable(v, dirCl) && NoNul(name) && |name| <= 255 && first < TWO32 && size < TWO32
    requires dirByte % 32 == 0 && dirByte + 32 * (2 + NameEntries(|name|)) <= ClusterBytes(v)
    modifies dk
    ensures r == 0 && OnlyCluster(old(dk[..]), dk[..], v, dirCl)
    ensures EntryAt(dk[..], v, dirCl, dirByte, name, first, size, false)
    ensures SetPut(old(dk[..]), dk[..], v, dirCl, dirByte, EntrySet(name, first, size, false))
  {
    hide Limit, Cluster, EntrySet, Summed, EntryAt, Geometry, RunPut, Reach, Lba, OnlyCluster, Put;
    ghost var d := dk[..];
    var setbuf := new byte[32 * 40];
    var built, total := BuildEntrySet(setbuf, name, first, size, false);
    if built != 0 {
      return -1;
    }
    SameName(name);
    EntriesFit(|name|);
    ReachInside(d, v, dirCl, dirByte + 32 * total);
    r := WriteEntrySet(dk, v, dirCl, dirByte, setbuf[..32 * total], total);
    RunIsCluster(d, dk[..], v, dirCl, dirByte, setbuf[..32 * total]);
    WrittenSet(d, dk[..], v, dirCl, dirByte, name, first, size, false);
  }

  lemma SmallFirst(d: disk, v: Vol, cs: seq<nat>, data: bytes)
    requires Holding(d, v, cs, data) && cs != []
    ensures cs[0] < TWO32
  {
    hide Entry, ChainBytes;
    UsableEntry(d, v, cs[0], cs, 0);
  }

  lemma SameName(name: bytes)
    requires |name| <= 255
    ensures Shortened(name) == name
  {
  }

  lemma EntriesFit(len: nat)
    requires len <= 255
    ensures 2 + NameEntries(len) <= 19
  {
  }

  lemma OnlyFileDisk(d: disk, d': disk, v: Vol, bm: seq<nat>, dirCl: nat, oldCs: seq<nat>, cs: seq<nat>)
    requires Mounted(d, v, bm) && OnDisk(d, v) && OnlyFile(d, d', v, bm, dirCl, oldCs, cs)
    ensures OnDisk(d', v) && Mounted(d', v, bm)
  {
  }

  /** What holds once the new clusters are filled. */
  lemma Fresh(d: disk, d1: disk, d2: disk, v: Vol, bm: seq<nat>, dirCl: nat, oldCs: seq<nat>, cs: seq<nat>, data: bytes,
              first: nat)
    requires Mounted(d, v, bm) && OnDisk(d, v) && Usable(v, dirCl) && Entry(d, v, dirCl) != 0
    requires Allocated(d, d1, v, bm, cs) && OnDisk(d1, v) && OnlyChain(d1, d2, v, cs) && AllUsable(v, cs)
    requires if cs == [] then first == 0 && data == []
             else first == cs[0] && Chain(d2, v, first, cs) && data <= ChainBytes(d2, v, cs)
    requires oldCs != [] ==> Chain(d, v, oldCs[0], oldCs)
    ensures Mounted(d1, v, bm) && Mounted(d2, v, bm) && OnDisk(d2, v) && Holding(d2, v, cs, data)
    ensures Fat(d2, v) == Fat(d1, v) && Used(d2, v, bm) == Used(d1, v, bm)
    ensures dirCl !in cs && forall c | c in cs :: c !in oldCs && c !in bm
    ensures oldCs != [] ==> Chain(d2, v, oldCs[0], oldCs) && oldCs[0] != 0
  {
    hide Limit, Entry, Used, Fat, Chain, ChainBytes, Geometry, OnlyChain, Taken, Became, Mounted;
    NewClusters(d, d1, v, bm, cs, dirCl);
    AllocatedLast(d, d1, v, bm, cs);
    DataOnly(d1, d2, v, bm, cs);
    if oldCs != [] {
      ChainSurvives(d, d1, v, bm, cs, oldCs[0], oldCs);
      ChainKept(d1, d2, v, cs, oldCs[0], oldCs);
      ChainStart(d2, v, oldCs);
    }
  }

  lemma NoneFreed(d: disk, d2: disk, v: Vol, bm: seq<nat>, oldCs: seq<nat>)
    requires Mounted(d2, v, bm) && OnDisk(d2, v) && oldCs == []
    ensures Became(d2, d2, v, bm, Freed(Fat(d2, v), oldCs), Marked(Used(d2, v, bm), oldCs, false))
  {
    hide Fat, Used, Mounted;
    assert Freed(Fat(d2, v), oldCs) == Fat(d2, v) && Marked(Used(d2, v, bm), oldCs, false) == Used(d2, v, bm);
  }

  lemma FileIs(d: disk, v: Vol, dirCl: nat, off: nat, name: bytes, data: bytes, cs: seq<nat>, first: nat)
    requires OnDisk(d, v) && Usable(v, dirCl) && Holding(d, v, cs, data) && |data| < TWO32
    requires first == (if cs == [] then 0 else cs[0]) && EntryAt(d, v, dirCl, off, name, first, |data|, false)
    ensures FileAt(d, v, dirCl, off, name, data, cs)
  {
    hide EntryAt, Chain, ChainBytes, Geometry;
    if cs != [] {
      SmallFirst(d, v, cs, data);
      assert Usable(v, cs[0]);
    }
  }

  // ---------------------------------------------------------------- extending a directory

  /** `exfat_zero_cluster`. */
  method ZeroCluster(dk: array<bytes>, v: Vol, cl: nat)
    requires OnDisk(dk[..], v) && Usable(v, cl)
    modifies dk
    ensures OnlyCluster(old(dk[..]), dk[..], v, cl) && Cluster(dk[..], v, cl) == Zeros(ClusterBytes(v))
  {
    hide Limit, Geometry, Lba;
    ghost var d := dk[..];
    LbaIs(v, dk.Length, cl);
    var lba := Lba(v, cl);
    var s := 0;
    while s < v.secPerClus
      invariant 0 <= s <= v.secPerClus && OnlyCluster(d, dk[..], v, cl)
      invariant Sectors(dk[..], lba, s) == Zeros(s * v.bytesPerSec)
    {
      ghost var d1 := dk[..];
      dk[lba + s] := Zeros(v.bytesPerSec);
      SectorsSame(d1, dk[..], lba, s);
      MulSucc(s, v.bytesPerSec);
      assert Zeros(s * v.bytesPerSec) + Zeros(v.bytesPerSec) == Zeros((s + 1) * v.bytesPerSec);
      s := s + 1;
    }
  }

  /** Only the entries of the last cluster and the new one have changed in the table; in the heap, only the bitmap and
      the new cluster. */
  ghost predicate Grown(d: disk, d': disk, v: Vol, bm: seq<nat>, prev: nat, newCl: nat)
  {
    && OnDisk(d, v) && OnDisk(d', v) && |d'| == |d| && newCl < |Fat(d, v)| && Fat(d, v)[newCl] == 0
    && (forall c | 0 <= c < |Fat(d, v)| && c != prev && c != newCl :: Fat(d', v)[c] == Fat(d, v)[c])
    && (forall i | Heap(v) <= i < |d| && !InChain(v, bm, i) && !InChain(v, [newCl], i) :: d'[i] == d[i])
  }

  /** Table and bitmap after `newCl` has been linked behind `prev`. */
  ghost predicate TablesGrown(d: disk, d': disk, v: Vol, bm: seq<nat>, prev: nat, newCl: nat)
  {
    && Mounted(d, v, bm) && Mounted(d', v, bm) && prev < |Fat(d, v)| && newCl < |Fat(d, v)| == |Used(d, v, bm)|
    && prev != newCl && 2 <= newCl < MaxClusters(v) && Fat(d, v)[newCl] == 0 && 2 <= prev && Fat(d, v)[prev] != 0
    && Fat(d', v) == Fat(d, v)[prev := newCl][newCl := EOC] && Used(d', v, bm) == Used(d, v, bm)[newCl := true]
  }

  /** The end of `exfat_find_free_set`: a directory without room gets one more cluster, cleared and linked behind the
      others. */
  method ExtendDirectory(dk: array<bytes>, v: Vol, prev: nat, ghost bm: seq<nat>, ghost dirCs: seq<nat>)
    returns (newCl: nat)
    requires Mounted(dk[..], v, bm) && OnDisk(dk[..], v) && Agree(Fat(dk[..], v), Used(dk[..], v, bm))
    requires dirCs != [] && Chain(dk[..], v, dirCs[0], dirCs) && prev == dirCs[|dirCs| - 1]
    requires forall c | c in dirCs :: c !in bm
    modifies dk
    ensures newCl == FirstFree(Fat(old(dk[..]), v), MaxClusters(v), 2)
    ensures newCl == 0 ==> dk[..] == old(dk[..])
    ensures newCl != 0 ==> Mounted(dk[..], v, bm) && OnDisk(dk[..], v) && Agree(Fat(dk[..], v), Used(dk[..], v, bm))
    ensures newCl != 0 ==> Chain(dk[..], v, dirCs[0], dirCs + [newCl]) && Usable(v, newCl)
    ensures newCl != 0 ==> Cluster(dk[..], v, newCl) == Zeros(ClusterBytes(v))
    ensures newCl != 0 ==> AllUsable(v, dirCs) && ChainBytes(dk[..], v, dirCs) == ChainBytes(old(dk[..]), v, dirCs)
    ensures newCl != 0 ==> newCl !in dirCs && newCl !in bm && Grown(old(dk[..]), dk[..], v, bm, prev, newCl)
    ensures newCl != 0 ==> TablesGrown(old(dk[..]), dk[..], v, bm, prev, newCl)
  {
    hide TablesGrown, Fat, Used, Limit, Mounted, Entry, Became, FreeSet, Agree, Chain, ChainBytes, OnDisk, OnlyCluster,
         Cluster, FirstFree, FatWritten, Usable;
    ghost var d := dk[..];
    newCl := AllocCluster(dk, v, bm);
    if newCl == 0 {
      return;
    }
    ghost var d1 := dk[..];
    ghost var f, u := Fat(d, v), Used(d, v, bm);
    DirLast(d, d1, v, bm, dirCs, newCl);
    WriteFatEntry(dk, v, prev, newCl);
    WroteEntry(d1, dk[..], v, bm, prev, newCl);
    ghost var d2 := dk[..];
    BecameMounted(d1, d2, v, bm, Fat(d1, v)[prev := newCl], Used(d1, v, bm));
    UsableBelow(v, newCl);
    WriteFatEntry(dk, v, newCl, EOC);
    WroteEntry(d2, dk[..], v, bm, newCl, EOC);
    ghost var d3 := dk[..];
    BecameMounted(d2, d3, v, bm, Fat(d2, v)[newCl := EOC], Used(d2, v, bm));
    DirLinked(d, d1, d2, d3, v, bm, dirCs, newCl);
    ZeroCluster(dk, v, newCl);
    DirCleared(d3, dk[..], v, bm, dirCs, newCl);
    FreeIs(f, MaxClusters(v), newCl);
    GrownMore(d, d3, dk[..], v, bm, prev, newCl);
    GrownTables(d, d1, d2, d3, dk[..], v, bm, dirCs, newCl);
  }

  lemma GrownTables(d: disk, d1: disk, d2: disk, d3: disk, d4: disk, v: Vol, bm: seq<nat>, dirCs: seq<nat>, newCl: nat)
    requires Mounted(d, v, bm) && OnDisk(d, v) && dirCs != [] && Chain(d, v, dirCs[0], dirCs)
    requires newCl < |Fat(d, v)| == |Used(d, v, bm)| && newCl !in dirCs && newCl != 0
    requires newCl == FirstFree(Fat(d, v), MaxClusters(v), 2)
    requires Mounted(d1, v, bm) && OnDisk(d1, v) && Mounted(d2, v, bm) && OnDisk(d2, v) && Mounted(d3, v, bm)
    requires |Fat(d1, v)| == |Fat(d2, v)| == |Fat(d, v)| && dirCs[|dirCs| - 1] < |Fat(d, v)|
    requires Became(d, d1, v, bm, Fat(d, v)[newCl := EOC], Used(d, v, bm)[newCl := true])
    requires Became(d1, d2, v, bm, Fat(d1, v)[dirCs[|dirCs| - 1] := newCl], Used(d1, v, bm))
    requires Became(d2, d3, v, bm, Fat(d2, v)[newCl := EOC], Used(d2, v, bm))
    requires Mounted(d4, v, bm) && OnDisk(d4, v) && Fat(d4, v) == Fat(d3, v) && Used(d4, v, bm) == Used(d3, v, bm)
    ensures TablesGrown(d, d4, v, bm, dirCs[|dirCs| - 1], newCl)
  {
    hide Limit, Entry, Used, Mounted, Geometry, Fat, FirstFree, MaxClusters;
    var prev := dirCs[|dirCs| - 1];
    UsableEntry(d, v, dirCs[0], dirCs, |dirCs| - 1);
    NeverFree(d, v, dirCs[0], dirCs, |dirCs| - 1);
    FatIs(d, v, prev);
    MountedOn(d, v, bm);
    FreeIs(Fat(d, v), MaxClusters(v), newCl);
    TwoPuts(Fat(d, v), newCl, prev, EOC, newCl);
  }

  lemma TwoPuts(f: seq<nat>, i: nat, j: nat, x: nat, y: nat)
    requires i < |f| && j < |f|
    ensures f[i := x][j := y][i := x] == f[j := y][i := x]
  {
  }

  lemma GrownMore(d: disk, d3: disk, d4: disk, v: Vol, bm: seq<nat>, prev: nat, newCl: nat)
    requires Grown(d, d3, v, bm, prev, newCl) && OnDisk(d4, v) && OnDisk(d3, v) && Fat(d4, v) == Fat(d3, v)
    requires |d4| == |d3|
    requires forall i | 0 <= i < |d3| && !InChain(v, [newCl], i) :: d4[i] == d3[i]
    ensures Grown(d, d4, v, bm, prev, newCl)
  {
    hide Limit, Entry, Geometry, Fat;
  }

  lemma DirLast(d: disk, d1: disk, v: Vol, bm: seq<nat>, dirCs: seq<nat>, newCl: nat)
    requires Mounted(d, v, bm) && OnDisk(d, v) && dirCs != [] && Chain(d, v, dirCs[0], dirCs)
    requires newCl != 0 && newCl == FirstFree(Fat(d, v), MaxClusters(v), 2) && newCl < |Fat(d, v)| == |Used(d, v, bm)|
    requires Became(d, d1, v, bm, Fat(d, v)[newCl := EOC], Used(d, v, bm)[newCl := true])
    ensures Mounted(d1, v, bm) && OnDisk(d1, v) && |Fat(d1, v)| == |Fat(d, v)|
    ensures var prev := dirCs[|dirCs| - 1]; Usable(v, prev) && prev < Limit(v) && prev < |Fat(d, v)|
    ensures newCl !in dirCs && newCl < TWO28
  {
    hide Limit, Entry, Used, Mounted, FirstFree;
    UsableEntry(d, v, dirCs[0], dirCs, |dirCs| - 1);
    FreeIs(Fat(d, v), MaxClusters(v), newCl);
    MountedOn(d, v, bm);
    BecameMounted(d, d1, v, bm, Fat(d, v)[newCl := EOC], Used(d, v, bm)[newCl := true]);
    forall i | 0 <= i < |dirCs| ensures dirCs[i] != newCl {
      NeverFree(d, v, dirCs[0], dirCs, i);
      FatIs(d, v, dirCs[i]);
    }
  }

  lemma DirLinked(d: disk, d1: disk, d2: disk, d3: disk, v: Vol, bm: seq<nat>, dirCs: seq<nat>, newCl: nat)
    requires Mounted(d, v, bm) && OnDisk(d, v) && dirCs != [] && Chain(d, v, dirCs[0], dirCs)
    requires Agree(Fat(d, v), Used(d, v, bm))
    requires newCl < |Fat(d, v)| == |Used(d, v, bm)| && Usable(v, newCl) && newCl !in dirCs && newCl !in bm
    requires Mounted(d1, v, bm) && OnDisk(d1, v) && Mounted(d2, v, bm) && OnDisk(d2, v)
    requires |Fat(d1, v)| == |Fat(d2, v)| == |Fat(d, v)|
    requires Became(d, d1, v, bm, Fat(d, v)[newCl := EOC], Used(d, v, bm)[newCl := true])
    requires dirCs[|dirCs| - 1] < |Fat(d, v)|
    requires Became(d1, d2, v, bm, Fat(d1, v)[dirCs[|dirCs| - 1] := newCl], Used(d1, v, bm))
    requires Became(d2, d3, v, bm, Fat(d2, v)[newCl := EOC], Used(d2, v, bm))
    requires forall c | c in dirCs :: c !in bm
    ensures Mounted(d3, v, bm) && OnDisk(d3, v) && Agree(Fat(d3, v), Used(d3, v, bm))
    ensures Chain(d3, v, dirCs[0], dirCs + [newCl]) && AllUsable(v, dirCs)
    ensures ChainBytes(d3, v, dirCs) == ChainBytes(d, v, dirCs)
    ensures Fat(d, v)[newCl] == 0 ==> Grown(d, d3, v, bm, dirCs[|dirCs| - 1], newCl)
  {
    hide Limit, Entry, Used, Mounted, ChainBytes, Geometry;
    var n := |dirCs| - 1;
    MountedOn(d3, v, bm);
    ChainUsable(d, v, dirCs[0], dirCs);
    var xs := dirCs + [newCl];
    forall i | 0 <= i <= n ensures LinkedTo(d3, v, dirCs[i], xs[i + 1]) {
      UsableEntry(d, v, dirCs[0], dirCs, i);
      FatIs(d, v, dirCs[i]);
      FatIs(d3, v, dirCs[i]);
      ChainDistinct(d, v, dirCs[0], dirCs);
    }
    FatIs(d3, v, newCl);
    ChainDistinct(d, v, dirCs[0], dirCs);
    ChainSnoc(d3, v, dirCs, newCl);
    MountedBitmap(d, v, bm);
    SameContents(d, d3, v, bm, dirCs);
  }

  ghost predicate LinkedTo(d: disk, v: Vol, c: nat, next: nat)
  {
    OnDisk(d, v) && Usable(v, c) && Entry(d, v, c) == next
  }

  lemma ChainSnoc(d: disk, v: Vol, cs: seq<nat>, newCl: nat)
    requires OnDisk(d, v) && cs != [] && Usable(v, newCl) && newCl !in cs
    requires forall i, j | 0 <= i < j < |cs| :: cs[i] != cs[j]
    requires forall i | 0 <= i < |cs| :: LinkedTo(d, v, cs[i], (cs + [newCl])[i + 1])
    requires IsEnd(Entry(d, v, newCl))
    ensures Chain(d, v, cs[0], cs + [newCl])
  {
    hide Limit, Entry, Geometry;
    var xs := cs + [newCl];
    forall i | 0 <= i < |xs| - 1 ensures Usable(v, xs[i]) && Entry(d, v, xs[i]) == xs[i + 1] {
      assert LinkedTo(d, v, cs[i], xs[i + 1]);
    }
  }

  lemma DirCleared(d3: disk, d4: disk, v: Vol, bm: seq<nat>, dirCs: seq<nat>, newCl: nat)
    requires Mounted(d3, v, bm) && OnDisk(d3, v) && Agree(Fat(d3, v), Used(d3, v, bm)) && Usable(v, newCl)
    requires newCl !in bm
    requires dirCs != [] && Chain(d3, v, dirCs[0], dirCs + [newCl]) && AllUsable(v, dirCs) && newCl !in dirCs
    requires OnlyCluster(d3, d4, v, newCl)
    ensures Mounted(d4, v, bm) && OnDisk(d4, v) && Agree(Fat(d4, v), Used(d4, v, bm))
    ensures Chain(d4, v, dirCs[0], dirCs + [newCl]) && ChainBytes(d4, v, dirCs) == ChainBytes(d3, v, dirCs)
    ensures |d4| == |d3| && Fat(d4, v) == Fat(d3, v) && Used(d4, v, bm) == Used(d3, v, bm)
    ensures forall i | 0 <= i < |d3| && !InChain(v, [newCl], i) :: d4[i] == d3[i]
  {
    hide Limit, Entry, Used, Fat, Chain, ChainBytes, Mounted, Geometry, Agree;
    forall i | 0 <= i < |d3| && !InChain(v, [newCl], i) ensures d4[i] == d3[i] {
      assert [newCl][0] == newCl;
      assert !InCluster(v, newCl, i);
    }
    assert forall c | c in [newCl] :: c !in bm;
    DataOnly(d3, d4, v, bm, [newCl]);
    ChainKept(d3, d4, v, [newCl], dirCs[0], dirCs + [newCl]);
    OtherFile(d3, d4, v, [newCl], dirCs);
  }
}
