/** What a FAT32 path means before and after a write: the file written can be read back, the others are as they were. */
module Fat32Laws {
  import opened Bytes
  import opened Components
  import opened Volume
  import opened Bitmap
  import opened FileData
  import opened Keeping
  import opened DirEntries
  import opened Dir83
  import opened Fat32Dir
  import opened Fat32File
  import opened Fat32Path
  import opened Fat32Write

  /** Under the path of these names, through the directories `chs`, there is a file that holds `data` in the clusters
      `fcs`. */
  ghost predicate Reads(d: disk, v: Vol, names: seq<bytes>, chs: seq<seq<nat>>, data: bytes, fcs: seq<nat>)
  {
    && |names| > 0 && |chs| == |names| && Leads(d, v, Front(names), chs)
    && FileIn(d, v, chs[|chs| - 1], names[|chs| - 1], data, fcs)
  }

  /** Reading such a file gives its first bytes. */
  lemma ReadsRight(d: disk, v: Vol, names: seq<bytes>, chs: seq<seq<nat>>, data: bytes, fcs: seq<nat>, maxBytes: nat)
    requires Reads(d, v, names, chs, data, fcs)
    ensures PathGoes(d, v, Front(names), chs) && DirOf(d, v, chs[|chs| - 1])
    ensures var dcs, name := chs[|chs| - 1], names[|chs| - 1];
      && Readable(d, v, dcs, name, fcs, maxBytes) && Search(d, v, dcs, name).At?
      && forall r, out :: EntryRead(d, v, SearchEntry(d, v, dcs, name), fcs, maxBytes, r, out) ==>
        r == 0 && out == data[..MinOf(|data|, maxBytes)]
  {
    hide Step, DirAt, ChainBytes, Entry, Limit, Start, Size, IsDir, Geometry;
    var n := |names| - 1;
    assert Front(names)[..n] == Front(names);
    assert DirOf(d, v, chs[n]);
    ChainLen(d, v, fcs);
    ChainHead(d, v, fcs[0], fcs);
    UsableEntry(d, v, fcs[0], fcs, 0);
  }

  lemma Named83(e: bytes, name: bytes)
    requires |e| == 32 && |name| == 11 && Named(e, name)
    ensures name[0] != DELETED
  {
    assert e[..11][0] == e[0];
  }

  /** A file can be reached only under names that do not count as deleted. */
  lemma ReadsLasting(d: disk, v: Vol, names: seq<bytes>, chs: seq<seq<nat>>, data: bytes, fcs: seq<nat>)
    requires Reads(d, v, names, chs, data, fcs) && AllProper(names)
    ensures Lasting(names)
  {
    hide DirAt, ChainBytes, Entry, Limit, Start, Size, IsDir, Chain, Named, Proper;
    forall i | 0 <= i < |names|
      ensures |names[i]| == 11 && names[i][0] != DELETED
    {
      assert Proper(names[i]);
      ProperLen(names[i]);
      if i < |names| - 1 {
        assert Front(names)[i] == names[i];
        LeadsStep(d, v, Front(names), chs, i);
        Named83(SearchEntry(d, v, chs[i], names[i]), names[i]);
      } else {
        Named83(SearchEntry(d, v, chs[i], names[i]), names[i]);
      }
    }
  }

  lemma ProperLen(name: bytes)
    requires Proper(name)
    ensures |name| == 11
  {
  }

  // ---------------------------------------------------------------- the last component

  /** The cluster that a file has already. */
  ghost function Own(d: disk, v: Vol, dcs: seq<nat>, name: bytes): (s: set<nat>)
    requires DirOf(d, v, dcs)
  {
    if Search(d, v, dcs, name).At? && Start(SearchEntry(d, v, dcs, name)) != 0
    then {Start(SearchEntry(d, v, dcs, name))} else {}
  }

  /** A file has been written into the directory `dcs`. */
  lemma WrittenTouched(d: disk, d': disk, v: Vol, dcs: seq<nat>, name: bytes, data: bytes, target: nat)
    requires DirOf(d, v, dcs) && FileWritten(d, d', v, dcs, name, data, target)
    ensures Altered(d, d', v, dcs, name, Own(d, v, dcs, name)) && Keeps(d, d', v, SetOf(dcs) + {target})
    ensures target !in dcs && (target in Own(d, v, dcs, name) || !InUse(d, v, target))
  {
    hide DirAt, FileIn, Keeps, EntryPut, Contents, Start, Entry, Limit, Cluster;
    var own := Own(d, v, dcs, name);
    TargetOwn(d, v, dcs, name, target);
    KeepsMore(d, d', v, SetOf(dcs) + {target}, SetOf(dcs) + own);
  }

  lemma TargetOwn(d: disk, v: Vol, dcs: seq<nat>, name: bytes, target: nat)
    requires DirOf(d, v, dcs) && OnDisk(d, v) && AllUsable(v, dcs) && AllEntries(Contents(d, v, dcs))
    requires TargetIs(d, v, dcs, name, target)
    ensures target !in dcs && (target in Own(d, v, dcs, name) || !InUse(d, v, target))
  {
    hide DirAt, Start, Entry, Limit, Contents;
  }

  /** The cluster of data belongs to none of the directories. */
  lemma TargetApart(d: disk, v: Vol, dcs: seq<nat>, target: nat)
    requires DirOf(d, v, dcs) && !InUse(d, v, target)
    ensures target !in dcs
  {
    hide Entry, Limit, Small, OnDisk;
    ChainInUse(d, v, dcs[0], dcs);
  }

  /** The end of the way: the file is written into its last directory. */
  lemma WayWritten(d0: disk, d: disk, d': disk, v: Vol, names: seq<bytes>, chs: seq<seq<nat>>, way: seq<seq<nat>>,
                   data: bytes, target: nat)
    requires |names| > 0 && AllProper(names) && Way(d0, d, v, Front(names), chs, way, |names| - 1)
    requires DirOf(d, v, way[|names| - 1]) && FileWritten(d, d', v, way[|names| - 1], names[|names| - 1], data, target)
    requires forall j | 0 <= j < |way| :: Clear(way[j], Own(d, v, way[|names| - 1], names[|names| - 1]))
    ensures Lasting(names) ==> Reads(d', v, names, way, Truncated(v, data), [target])
  {
    hide DirAt, FileIn, Keeps, OneEntry, TargetIs, Contents, Start, Entry, Leads, Made, Altered, Disjoint, InUse, Own,
         Proper;
    var n := |names| - 1;
    var last := way[n];
    WrittenTouched(d, d', v, last, names[n], data, target);
    if Lasting(names) {
      assert forall j | 0 <= j < n :: Front(names)[..n][j] == names[j];
      assert Front(names)[..n] == Front(names);
      forall j | 0 <= j < n
        ensures Clear(way[j], SetOf(last) + {target})
      {
        assert DirOf(d, v, way[j]);
        WayApart(way, j, n);
        if !InUse(d, v, target) { TargetApart(d, v, way[j], target); }
      }
      WrittenDir(d, d', v, last, names[n], data, target);
      LeadsKept(d, d', v, Front(names), way, SetOf(last) + {target});
    }
  }

  lemma WrittenDir(d: disk, d': disk, v: Vol, dcs: seq<nat>, name: bytes, data: bytes, target: nat)
    requires FileWritten(d, d', v, dcs, name, data, target)
    ensures DirOf(d', v, dcs)
  {
    hide DirAt, FileIn, Keeps, EntryPut, TargetIs, Contents;
  }

  /** What the whole write has touched. */
  lemma WayOneEntry(d0: disk, d: disk, d': disk, v: Vol, names: seq<bytes>, chs: seq<seq<nat>>, way: seq<seq<nat>>,
                    data: bytes, target: nat)
    requires |names| > 0 && AllProper(names) && Way(d0, d, v, Front(names), chs, way, |names| - 1) && |chs| < |names|
    requires DirOf(d, v, way[|names| - 1]) && FileWritten(d, d', v, way[|names| - 1], names[|names| - 1], data, target)
    ensures Altered(d0, d', v, chs[|chs| - 1], names[|chs| - 1], {})
  {
    hide DirAt, FileIn, Keeps, OneEntry, TargetIs, Contents, Start, Entry, Leads, Altered, InUse, Own, NewDir;
    var n, k := |names| - 1, |chs| - 1;
    var last := way[n];
    WrittenTouched(d, d', v, last, names[n], data, target);
    MadeEmpty(d0, d, v, way, |chs|, n, names[n]);
    NothingOwn(d, v, last, names[n]);
    assert way[k] == way[..|chs|][k];
    WayApart(way, k, n);
    assert last == [last[0]];
    WayKept(d0, d, v, chs[k], names[k], target);
    assert Front(names)[k] == names[k];
    assert DirOf(d, v, way[k]);
    TargetApart(d, v, way[k], target);
    TouchedThen(d0, d, d', v, chs[k], names[k], {}, SetOf(last) + {target});
  }

  lemma NothingOwn(d: disk, v: Vol, dcs: seq<nat>, name: bytes)
    requires DirOf(d, v, dcs) && !Search(d, v, dcs, name).At?
    ensures Own(d, v, dcs, name) == {}
  {
  }

  /** What is not in use later, and is not one of the directory's clusters, was not in use before. */
  lemma WayKept(d0: disk, d: disk, v: Vol, dcs: seq<nat>, name: bytes, c: nat)
    requires Altered(d0, d, v, dcs, name, {}) && !InUse(d, v, c)
    ensures !InUse(d0, v, c)
  {
    hide Small, OneEntry, Contents, Limit, Entry, OnDisk;
    ChainInUse(d, v, dcs[0], dcs);
    assert c in SetOf(dcs) + {} ==> c in dcs;
  }
}
