/** Writing one file into a FAT32 directory. */
module Fat32File {
  import opened Bytes
  import opened Volume
  import opened Bitmap
  import opened Allocator
  import opened FileData
  import opened Keeping
  import opened DirEntries
  import opened Dir83
  import opened Fat32Dir

  /** One entry of the directory `dcs` has been written: a new one, or the one of that name; the others are as they
      were. */
  ghost predicate OneEntry(d: disk, d': disk, v: Vol, dcs: seq<nat>, name: bytes)
  {
    && |dcs| > 0 && |name| == 11 && DirAt(d, v, dcs[0], dcs) && DirAt(d', v, dcs[0], dcs) && OnDisk(d, v)
    && OnDisk(d', v)
    && AllUsable(v, dcs) && AllEntries(Contents(d, v, dcs))
    && exists i: nat, p: nat, e: bytes :: EntryPut(Contents(d, v, dcs), Contents(d', v, dcs), name, i, p, e)
  }

  /** The entry `e` has been written at `p` of cluster `i`; an entry that was found there or not at all. */
  predicate EntryPut(cl: seq<bytes>, w: seq<bytes>, name: bytes, i: nat, p: nat, e: bytes)
  {
    && AllEntries(cl) && i < |cl| && p % 32 == 0 && p + 32 <= |cl[i]| && |e| == 32 && e[0] != 0 && e[11] != LONG_NAME
    && e[..11] == name
    && w == WithEntry(cl, i, p, e)
    && (Find(cl, 0, name) == At(i, p) || (!Find(cl, 0, name).At? && Slot(cl, 0) == At(i, p)))
  }

  /** The directory `dcs` names a file that holds `data`, in the clusters `fcs`. */
  ghost predicate FileIn(d: disk, v: Vol, dcs: seq<nat>, name: bytes, data: bytes, fcs: seq<nat>)
  {
    && |dcs| > 0 && DirAt(d, v, dcs[0], dcs) && OnDisk(d, v) && AllUsable(v, dcs) && AllEntries(Contents(d, v, dcs))
    && |fcs| > 0 && Chain(d, v, fcs[0], fcs) && AllUsable(v, fcs) && data <= ChainBytes(d, v, fcs)
    && var f := Find(Contents(d, v, dcs), 0, name);
      f.At? && var e := FoundEntry(Contents(d, v, dcs), f); !IsDir(e) && Start(e) == fcs[0] && Size(e) == |data|
  }

  /** The file that is there may be written over: its first cluster exists and is not one of the directory's. */
  ghost predicate Writable(d: disk, v: Vol, dcs: seq<nat>, name: bytes)
    requires OnDisk(d, v) && AllUsable(v, dcs) && AllEntries(Contents(d, v, dcs))
  {
    var f := Find(Contents(d, v, dcs), 0, name);
    f.At? ==>
      var e := FoundEntry(Contents(d, v, dcs), f);
      !IsDir(e) && Start(e) != 0 ==> Usable(v, Start(e)) && Start(e) !in dcs
  }

  /** The cluster that the data goes to: the file's first one, or a new one. */
  ghost predicate TargetIs(d: disk, v: Vol, dcs: seq<nat>, name: bytes, target: nat)
    requires OnDisk(d, v) && AllUsable(v, dcs) && AllEntries(Contents(d, v, dcs))
  {
    var f := Find(Contents(d, v, dcs), 0, name);
    && Usable(v, target) && target !in dcs
    && if f.At? && Start(FoundEntry(Contents(d, v, dcs), f)) != 0
       then target == Start(FoundEntry(Contents(d, v, dcs), f))
       else Entry(d, v, target) == 0
  }

  /** The result of writing `data` under `name` into the directory. */
  ghost predicate FileWritten(d: disk, d': disk, v: Vol, dcs: seq<nat>, name: bytes, data: bytes, target: nat)
  {
    && OneEntry(d, d', v, dcs, name) && TargetIs(d, v, dcs, name, target)
    && Keeps(d, d', v, (SetOf(dcs)) + {target})
    && (name[0] != DELETED ==> FileIn(d', v, dcs, name, Truncated(v, data), [target]))
  }

  // ---------------------------------------------------------------- the cluster

  /** A cluster for the data, and the data in it. */
  method FillTarget(dk: array<bytes>, v: Vol, existing: nat, data: bytes, ghost dirCl: nat, ghost dcs: seq<nat>)
    returns (r: int, target: nat)
    requires DirAt(dk[..], v, dirCl, dcs) && (existing != 0 ==> Usable(v, existing) && existing !in dcs)
    modifies dk
    ensures var d := old(dk[..]); v.secPerClus > 0 && OnDisk(d, v) && AllUsable(v, dcs)
    ensures var d := old(dk[..]); r == if existing == 0 && FirstFree(Fat(d, v), FatScan(v), 2) == 0 then -5 else 0
    ensures r != 0 ==> dk[..] == old(dk[..])
    ensures r == 0 ==>
      && Usable(v, target) && target !in dcs
      && (if existing != 0 then target == existing else Entry(old(dk[..]), v, target) == 0)
      && DirAt(dk[..], v, dirCl, dcs) && OnDisk(dk[..], v) && Contents(dk[..], v, dcs) == Contents(old(dk[..]), v, dcs)
      && Keeps(old(dk[..]), dk[..], v, {target}) && Chain(dk[..], v, target, [target])
      && Cluster(dk[..], v, target) == Piece(Truncated(v, data), 0, ClusterBytes(v))
  {
    hide Limit, Geometry, Cluster, Entry, Lba, Chain, Small, Fat, FatWritten, FirstFree, Usable, Keeps, Piece, FatScan,
         DirAt;
    ghost var d := dk[..];
    DirIs(d, v, dirCl, dcs);
    DirSmall(d, v, dirCl, dcs, 0);
    SmallOn(d, v);
    target := existing;
    if target == 0 {
      target := FatAllocFreeCluster(dk, v);
      if target == 0 {
        return -5, 0;
      }
      UsableBelow(v, target);
      WrittenOn(d, dk[..], v, target, EOC);
      EntryKeeps(d, dk[..], v, target, EOC);
      NewNotIn(d, v, dcs, target);
    } else {
      KeepsAll(d, v);
      KeepsMore(d, d, v, {}, {target});
    }
    ghost var d1 := dk[..];
    KeptDir(d, d1, v, {target}, dirCl, dcs);
    UsableTwo(v, target);
    r := WriteSingleCluster(dk, v, target, data);
    KeptDir(d1, dk[..], v, {target}, dirCl, dcs);
    KeepsThen(d, d1, dk[..], v, {target}, {target}, {target});
  }

  // ---------------------------------------------------------------- the entry

  /** The cluster of data survives the entry. */
  lemma DataSurvives(d2: disk, d3: disk, v: Vol, dcs: seq<nat>, i: nat, p: nat, x: bytes, target: nat, data: bytes)
    requires EntryStored(d2, d3, v, dcs, i, p, x) && Usable(v, target) && target !in dcs
    requires Chain(d2, v, target, [target])
    requires OnDisk(d2, v) && Cluster(d2, v, target) == Piece(Truncated(v, data), 0, ClusterBytes(v))
    ensures OnDisk(d3, v) && Chain(d3, v, target, [target]) && AllUsable(v, [target])
    ensures Truncated(v, data) <= ChainBytes(d3, v, [target])
  {
    hide Limit, Geometry, Cluster, Entry, Keeps, Usable, Chain, Put;
    KeepsChain(d2, d3, v, {dcs[i]}, target, [target]);
    assert Contents(d3, v, [target])[0] == Contents(d2, v, [target])[0];
    assert ChainBytes(d3, v, [target][..0]) == [];
    assert ChainBytes(d3, v, [target]) == ChainBytes(d3, v, [target][..0]) + Cluster(d3, v, target);
    PieceStarts(Truncated(v, data), ClusterBytes(v));
  }

  lemma PieceStarts(data: bytes, n: nat)
    requires |data| <= n
    ensures data <= Piece(data, 0, n)
  {
  }

  /** The written entry, found again. */
  lemma EntryFound(cl: seq<bytes>, w: seq<bytes>, name: bytes, i: nat, p: nat, e: bytes)
    requires EntryPut(cl, w, name, i, p, e) && name[0] != DELETED && |name| == 11
    requires Find(cl, 0, name).At? ==> e[..12] == EntryOf(cl[i], p)[..12]
    ensures AllEntries(w) && Find(w, 0, name) == At(i, p) && FoundEntry(w, At(i, p)) == e
  {
    hide Put;
    assert e[0] == e[..11][0];
    if Find(cl, 0, name).At? {
      FoundSame(cl, 0, i, p, e, name);
    } else {
      FoundNew(cl, 0, i, p, e, name);
    }
    PutEntry(cl[i], p, e, p);
  }

  /** All together. */
  lemma WrittenIs83(d: disk, d2: disk, d3: disk, v: Vol, dcs: seq<nat>, name: bytes, data: bytes, target: nat, i: nat,
                    p: nat, e: bytes)
    requires |dcs| > 0 && |name| == 11 && DirAt(d, v, dcs[0], dcs) && OnDisk(d, v) && AllUsable(v, dcs)
    requires AllEntries(Contents(d, v, dcs))
    requires TargetIs(d, v, dcs, name, target) && Keeps(d, d2, v, {target}) && OnDisk(d2, v)
    requires DirAt(d2, v, dcs[0], dcs)
    requires Contents(d2, v, dcs) == Contents(d, v, dcs) && EntryStored(d2, d3, v, dcs, i, p, e)
    requires Chain(d2, v, target, [target]) && Cluster(d2, v, target) == Piece(Truncated(v, data), 0, ClusterBytes(v))
    requires EntryPut(Contents(d, v, dcs), WithEntry(Contents(d, v, dcs), i, p, e), name, i, p, e)
    requires Find(Contents(d, v, dcs), 0, name).At? ==> e[..12] == EntryOf(Contents(d, v, dcs)[i], p)[..12]
    requires !IsDir(e) && Start(e) == target && Size(e) == |Truncated(v, data)|
    ensures FileWritten(d, d3, v, dcs, name, data, target)
  {
    hide Limit, Geometry, Cluster, Entry, Keeps, Usable, Chain, Put, Small, WithEntry, Start, Size, IsDir;
    DataSurvives(d2, d3, v, dcs, i, p, e, target, data);
    KeepsThen(d, d2, d3, v, {target}, {dcs[i]}, (SetOf(dcs)) + {target});
    assert EntryPut(Contents(d, v, dcs), Contents(d3, v, dcs), name, i, p, e);
    DirIs(d3, v, dcs[0], dcs);
    if name[0] != DELETED {
      EntryFound(Contents(d, v, dcs), Contents(d3, v, dcs), name, i, p, e);
    }
  }

  // ---------------------------------------------------------------- the last component of a path

  /** The last round of `fat32_write_file_path`: the file `name` of the directory at `dir`. */
  method WriteLast(dk: array<bytes>, v: Vol, dir: nat, name: bytes, data: bytes, ghost dcs: seq<nat>)
    returns (r: int, target: nat)
    requires DirAt(dk[..], v, dir, dcs) && |name| == 11 && name[0] != 0 && |data| < TWO32
    requires OnDisk(dk[..], v) && AllUsable(v, dcs) && AllEntries(Contents(dk[..], v, dcs))
    requires Writable(dk[..], v, dcs, name)
    modifies dk
    ensures v.secPerClus > 0
    ensures var d := old(dk[..]); var all := Contents(d, v, dcs); var f := Find(all, 0, name);
      && (f.At? && IsDir(FoundEntry(all, f)) ==> r == -4 && dk[..] == d)
      && (!(f.At? && IsDir(FoundEntry(all, f))) ==>
        r == if !(f.At? && Start(FoundEntry(all, f)) != 0) && FirstFree(Fat(d, v), FatScan(v), 2) == 0 then -5
             else if !f.At? && !Slot(all, 0).At? then -9 else 0)
      && (r == -5 ==> dk[..] == d) && (r == -9 ==> Keeps(d, dk[..], v, {}))
      && (r == 0 ==> FileWritten(d, dk[..], v, dcs, name, data, target))
  {
    hide Limit, Geometry, Cluster, Entry, Lba, Chain, Small, Fat, FirstFree, Usable, Keeps, Piece, FatScan, FileWritten,
         DirAt, EntryStored, IsDir, Start, Size, NewEntry, Updated, Named;
    ghost var d := dk[..];
    DirIs(d, v, dir, dcs);
    ghost var all := Contents(d, v, dcs);
    var found, de, lba, s, off := DirFindEntry(dk, v, dir, name, dcs);
    var targetCl := 0;
    if found == 0 {
      if IsDir(de) {
        return -4, 0;
      }
      targetCl := Start(de);
    }
    r, target := FillTarget(dk, v, targetCl, data, dir, dcs);
    if r != 0 {
      return -5, 0;
    }
    ghost var d2 := dk[..];
    TargetSize(d, v, target);
    DirSmall(d2, v, dir, dcs, 0);
    SmallOn(d2, v);
    var maxb := v.secPerClus * v.bytesPerSec;
    var size := if |data| < maxb then |data| else maxb;
    if found == 0 {
      ghost var f := Find(all, 0, name);
      UpdatedFile(all, f.i, f.off, de, name, target, size);
      DirSmall(d2, v, dir, dcs, f.i);
      StoreAt(dk, v, lba, s, off, Updated(de, target, size), dir, dcs, f.i);
      WrittenIs83(d, d2, dk[..], v, dcs, name, data, target, f.i, f.off, Updated(de, target, size));
    } else {
      NewFile(all, name, target, size);
      var created := CreateDirEntry(dk, v, dir, name, ARCHIVE, target, size, dcs);
      if created != 0 {
        TargetFree(d, d2, v, target);
        return -9, 0;
      }
      ghost var f := Slot(all, 0);
      WrittenIs83(d, d2, dk[..], v, dcs, name, data, target, f.i, f.off, NewEntry(name, ARCHIVE, target, size));
    }
    r := 0;
  }

  lemma TargetSize(d: disk, v: Vol, target: nat)
    requires OnDisk(d, v) && Usable(v, target)
    ensures target < TWO32
  {
  }

  lemma TargetFree(d: disk, d2: disk, v: Vol, target: nat)
    requires OnDisk(d, v) && Usable(v, target) && Entry(d, v, target) == 0 && Keeps(d, d2, v, {target})
    ensures Keeps(d, d2, v, {})
  {
    hide Entry, Cluster, OnDisk;
    NotInUse(d, v, target);
    KeepsMore(d, d2, v, {target}, {});
  }

  lemma UpdatedFile(all: seq<bytes>, i: nat, p: nat, de: bytes, name: bytes, target: nat, size: nat)
    requires AllEntries(all) && |name| == 11 && Find(all, 0, name) == At(i, p) && de == EntryOf(all[i], p) && !IsDir(de)
    requires target < TWO32 && size < TWO32
    ensures var e := Updated(de, target, size);
      && e[..12] == de[..12] && !IsDir(e) && Start(e) == target && Size(e) == size
      && EntryPut(all, WithEntry(all, i, p, e), name, i, p, e)
  {
    hide Updated, Start, Size, Put;
    UpdatedIs(de, target, size);
    var e := Updated(de, target, size);
    SameName(de, e, name);
    assert e[11] == e[..12][11] && de[11] == de[..12][11] && e[0] == e[..12][0] && de[0] == de[..12][0];
    assert e[..11] == e[..12][..11] && de[..11] == de[..12][..11];
  }

  lemma NewFile(all: seq<bytes>, name: bytes, target: nat, size: nat)
    requires AllEntries(all) && |name| == 11 && !Find(all, 0, name).At? && target < TWO32 && size < TWO32
    ensures var e := NewEntry(name, ARCHIVE, target, size); !IsDir(e) && Start(e) == target && Size(e) == size
    ensures var e := NewEntry(name, ARCHIVE, target, size);
      Slot(all, 0).At? && name[0] != 0 ==>
        EntryPut(all, WithEntry(all, Slot(all, 0).i, Slot(all, 0).off, e), name, Slot(all, 0).i, Slot(all, 0).off, e)
  {
    hide NewEntry, Start, Size, Put;
    NewEntryIs(name, ARCHIVE, target, size);
    var e := NewEntry(name, ARCHIVE, target, size);
    assert e[..11][0] == e[0];
  }
}
