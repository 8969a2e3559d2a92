/** `exfat_write_file_path`, and reading back what it has written. */
module ExDriver {
  import opened Bytes
  import opened Components
  import opened Volume
  import opened Bitmap
  import opened Allocator
  import opened FileData
  import opened DirSets
  import opened ExFile
  import opened Keeping
  import opened ExDir
  import opened SetBuffer
  import opened ExDisk
  import opened ExMake
  import opened ExPath
  import opened ExWrite
  import opened ExWay
  import opened ExRewrite

  // ---------------------------------------------------------------- a file under a path

  /** The directory names a file that holds `data`, in the clusters `cs`. */
  ghost predicate FileX(d: disk, v: Vol, dcs: seq<nat>, name: bytes, data: bytes, cs: seq<nat>)
  {
    && DirX(d, v, dcs) && Search(d, v, dcs, name).At? && Holding(d, v, cs, data)
    && var info := Record(d, v, dcs, name);
      !info.isDir && info.size == |data| && info.cluster == if cs == [] then 0 else cs[0]
  }

  /** Under the path of these names, through the directories `chs`, there is that file. */
  ghost predicate Reads(d: disk, v: Vol, names: seq<bytes>, chs: seq<seq<nat>>, data: bytes, cs: seq<nat>)
  {
    && |names| > 0 && |chs| == |names| && Leads(d, v, Front(names), chs)
    && FileX(d, v, chs[|chs| - 1], names[|chs| - 1], data, cs)
  }

  /** Reading such a file gives its first bytes; an empty file has no cluster and is reported as an error. */
  lemma ReadsRight(d: disk, v: Vol, names: seq<bytes>, chs: seq<seq<nat>>, data: bytes, cs: seq<nat>, maxBytes: nat)
    requires Reads(d, v, names, chs, data, cs)
    ensures Walk(d, v, Front(names), chs) && DirX(d, v, chs[|chs| - 1])
    ensures var dcs, name := chs[|chs| - 1], names[|chs| - 1];
      && Search(d, v, dcs, name).At? && Readable(d, v, Record(d, v, dcs, name), cs, maxBytes)
      && forall r, out :: InfoRead(d, v, Record(d, v, dcs, name), cs, maxBytes, r, out) ==>
        if cs == [] then r == -1 && out == [] else r == 0 && out == data[..MinOf(Size32(|data|), maxBytes)]
  {
    hide Step, Chain, ChainBytes, Entry, Limit, Geometry, Find, ParsedAt, Listing;
    var n := |names| - 1;
    assert Front(names)[..n] == Front(names);
    if cs != [] {
      ChainLen(d, v, cs);
      ChainStart(d, v, cs);
    }
  }

  // ---------------------------------------------------------------- the last component

  lemma CreatedLast(d: disk, d': disk, v: Vol, bm: seq<nat>, dcs: seq<nat>, dcs2: seq<nat>, name: bytes, data: bytes,
                    cs: seq<nat>, i: nat, p: nat)
    requires Created(d, d', v, bm, dcs, dcs2, name, false, data, cs, i, p) && DirX(d, v, dcs) && Proper(name)
    requires |data| < TWO32
    requires !Search(d, v, dcs, name).At? && AllTidy(Listing(d, v, dcs)) && 32 * SetSize(name) <= ClusterBytes(v)
    ensures LastWritten(d, d', v, bm, dcs, dcs2, name, data, [], cs)
  {
    hide Chain, Keeps, Holding, Tidy, Listing, NewSet, Summed, Ready, InUse, Slot, Touched, Visible, Search, Record;
    CreatedTouched(d, d', v, bm, dcs, dcs2, name, false, data, cs, i, p);
    CreatedFound(d, d', v, bm, dcs, dcs2, name, false, data, cs, i, p);
    assert SetOf([]) == {};
  }

  /** The last round of `exfat_write_file_path`. */
  method WriteLast(dk: array<bytes>, v: Vol, dir: nat, name: bytes, data: bytes, ghost bm: seq<nat>,
                   ghost dcs: seq<nat>, ghost oldCs: seq<nat>)
    returns (r: int, ghost cs: seq<nat>, ghost dcs2: seq<nat>)
    requires Ready(dk[..], v, bm) && DirX(dk[..], v, dcs) && dir == dcs[0] && Apart(dcs, bm)
    requires AllTidy(Listing(dk[..], v, dcs))
    requires Proper(name) && |data| < TWO32 && OldClusters(dk[..], v, bm, dcs, name, oldCs)
    requires 32 * SetSize(name) <= ClusterBytes(v) && SlimDir(dk[..], v, dcs, name)
    modifies dk
    ensures Ready(dk[..], v, bm) && OnDisk(old(dk[..]), v) && v.secPerClus > 0 && ClusterBytes(v) > 0
    ensures r == LastCode(old(dk[..]), v, dcs, name, |data|)
    ensures r != 0 ==> Keeps(old(dk[..]), dk[..], v, SetOf(bm))
    ensures r == 0 ==> LastWritten(old(dk[..]), dk[..], v, bm, dcs, dcs2, name, data, oldCs, cs)
  {
    hide Limit, Geometry, Cluster, Entry, Chain, Mounted, Fat, Used, Agree, HasRoom, Listing, Tidy, ParsedAt,
         CreateCode, Keeps, LastWritten, Created, Find, Key, Slim;
    ghost var d := dk[..];
    assert CutTo(name, 255) == name;
    OneCluster(d, v);
    MountedOn(d, v, bm);
    dcs2 := dcs;
    var found, info, cl, off := FindInDir(dk, v, dir, name, dcs);
    if found == 0 {
      r, cs := WriteOver(dk, v, cl, off, info, name, data, bm, dcs, oldCs);
    } else {
      var first;
      ghost var i, p, mid;
      r, first, cs, dcs2, i, p, mid := CreateEntry(dk, v, dir, name, false, data, bm, dcs);
      if r == 0 {
        CreatedLast(d, dk[..], v, bm, dcs, dcs2, name, data, cs, i, p);
      }
    }
  }

  // ---------------------------------------------------------------- one directory of the path

  /** The step to the subdirectory `name`, which is made if there is none. */
  ghost predicate DirStep(d: disk, d': disk, v: Vol, bm: seq<nat>, dcs: seq<nat>, dcs2: seq<nat>, name: bytes, r: int,
                          next: nat, cs: seq<nat>, i: nat, p: nat)
  {
    && DirX(d, v, dcs) && Ready(d', v, bm)
    && if Search(d, v, dcs, name).At? then
      d' == d && if Record(d, v, dcs, name).isDir then r == 0 && next == Record(d, v, dcs, name).cluster else r == -6
    else
      && OnDisk(d, v) && r == (if Extra(d, v, dcs, name) < FreeLeft(d, v) then 0 else -5)
      && (r != 0 ==> Keeps(d, d', v, SetOf(bm)))
      && (r == 0 ==> Created(d, d', v, bm, dcs, dcs2, name, true, [], cs, i, p) && cs != [] && next == cs[0])
  }

  /** Making a directory takes one cluster, and one more if there is no room for its set. */
  lemma DirCode(d: disk, v: Vol, dcs: seq<nat>, name: bytes)
    requires OnDisk(d, v) && DirX(d, v, dcs)
    ensures v.secPerClus > 0 && ClusterBytes(v) > 0
    ensures CreateCode(d, v, dcs, name, true, 0) == 0 <==> Extra(d, v, dcs, name) < FreeLeft(d, v)
  {
    hide Limit, Geometry, Entry, Fat, FreeSet, Chain, Slot, Listing;
    OneCluster(d, v);
    SecPos(v, d);
  }

  method WriteStep(dk: array<bytes>, v: Vol, dir: nat, name: bytes, ghost bm: seq<nat>, ghost dcs: seq<nat>)
    returns (r: int, next: nat, ghost dcs2: seq<nat>, ghost cs: seq<nat>, ghost i: nat, ghost p: nat)
    requires Ready(dk[..], v, bm) && DirX(dk[..], v, dcs) && dir == dcs[0] && Apart(dcs, bm)
    requires Proper(name) && (!Search(dk[..], v, dcs, name).At? ==> 32 * SetSize(name) <= ClusterBytes(v))
    requires SlimDir(dk[..], v, dcs, name)
    modifies dk
    ensures DirStep(old(dk[..]), dk[..], v, bm, dcs, dcs2, name, r, next, cs, i, p)
  {
    hide Limit, Geometry, Cluster, Entry, Chain, Mounted, Fat, Used, Agree, HasRoom, Listing, Tidy, ParsedAt,
         CreateCode, Keeps, Created, Find, Key, Slim;
    assert CutTo(name, 255) == name;
    dcs2, cs, i, p := dcs, [], 0, 0;
    DirOn(dk[..], v, bm);
    DirCode(dk[..], v, dcs, name);
    var found, info, cl, off := FindInDir(dk, v, dir, name, dcs);
    if found != 0 {
      ghost var d := dk[..];
      ghost var mid;
      r, next, cs, dcs2, i, p, mid := CreateEntry(dk, v, dir, name, true, [], bm, dcs);
      if r != 0 {
        return -5, 0, dcs2, cs, i, p;
      }
      CreatedDir(d, dk[..], v, bm, dcs, dcs2, name, cs, i, p);
    } else {
      if !info.isDir {
        return -6, 0, dcs2, cs, i, p;
      }
      r, next := 0, info.cluster;
    }
  }

  lemma DirOn(d: disk, v: Vol, bm: seq<nat>)
    requires Ready(d, v, bm)
    ensures OnDisk(d, v)
  {
  }

  /** Names whose sets fit into a cluster, from number `k` on. */
  predicate Fitting(v: Vol, names: seq<bytes>, k: nat)
  {
    forall i | k <= i < |names| :: 32 * SetSize(names[i]) <= ClusterBytes(v)
  }

  /** A successful step takes the way one directory further. */
  lemma WayStep(d0: disk, d: disk, d': disk, v: Vol, bm: seq<nat>, dirs: seq<bytes>, chs: seq<seq<nat>>,
                way: seq<seq<nat>>, i: nat, dcs2: seq<nat>, next: nat, cs: seq<nat>, p: nat, q: nat)
    returns (more: seq<seq<nat>>)
    requires Walk(d0, v, dirs, chs) && Disjoint(chs) && AllDirs(d0, v, bm, chs) && Way(d0, d, v, bm, dirs, chs, way, i)
    requires DirX(d0, v, chs[|chs| - 1]) && AllTidy(Listing(d0, v, chs[|chs| - 1])) && Fitting(v, dirs, |chs| - 1)
    requires i < |dirs| && DirStep(d, d', v, bm, way[i], dcs2, dirs[i], 0, next, cs, p, q)
    ensures Way(d0, d', v, bm, dirs, chs, more, i + 1) && |more| == i + 2 && |more[i + 1]| > 0 && more[i + 1][0] == next
    ensures |way| == i + 1 && DirX(d, v, way[i])
    ensures more[..i + 1] == way[i := if Search(d, v, way[i], dirs[i]).At? then way[i] else dcs2]
  {
    hide Chain, Created, Keeps, Find, Slot, Touched, Made, Begun, Leads, Disjoint, AllDirs, Listing, Tidy, ParsedAt,
         Ready, Key;
    WayDir(d0, d, v, bm, dirs, chs, way, i);
    if i < |chs| {
      WalkStep(d0, v, dirs, chs, i);
    }
    if i + 1 < |chs| {
      StepIs(d0, v, chs[i], dirs[i], chs[i + 1]);
      WayOld(d0, d, v, bm, dirs, chs, way, i);
      more := way + [chs[i + 1]];
    } else {
      if i >= |chs| {
        MadeEmpty(d0, d, v, way, |chs|, i, dirs[i]);
      }
      WayNew(d0, d, d', v, bm, dirs, chs, way, i, dcs2, cs, p, q);
      more := way[i := dcs2] + [cs];
    }
  }

  /** A step that fails. */
  lemma WayFailed(d0: disk, d: disk, d': disk, v: Vol, bm: seq<nat>, dirs: seq<bytes>, chs: seq<seq<nat>>,
                  way: seq<seq<nat>>, i: nat, dcs2: seq<nat>, r: int, next: nat, cs: seq<nat>, p: nat, q: nat)
    requires Walk(d0, v, dirs, chs) && Way(d0, d, v, bm, dirs, chs, way, i) && i < |dirs| && Fitting(v, dirs, |chs| - 1)
    requires DirStep(d, d', v, bm, way[i], dcs2, dirs[i], r, next, cs, p, q) && r != 0
    ensures |chs| <= |dirs| && i + 1 >= |chs| && DirX(d0, v, chs[|chs| - 1])
    ensures Touched(d0, d', v, bm, chs[|chs| - 1], way[|chs| - 1], dirs[|chs| - 1], {})
    ensures var k := |chs| - 1;
      if Search(d0, v, chs[k], dirs[k]).At? then r == -6 && d' == d0 && way[k] == chs[k]
      else OnDisk(d0, v) && r == -5 && FreeLeft(d0, v) < |dirs| + 1 - |chs| + Extra(d0, v, chs[k], dirs[k])
  {
    hide Chain, Created, Keeps, Find, Slot, Touched, Made, Leads, Disjoint, AllDirs, Listing, Tidy, ParsedAt, Ready,
         Key, Visible, FreeLeft, OnDisk;
    WayDir(d0, d, v, bm, dirs, chs, way, i);
    if i < |chs| {
      WalkStep(d0, v, dirs, chs, i);
      TouchedSelf(d, v, bm, chs[i], dirs[i], {});
      if !Search(d, v, chs[i], dirs[i]).At? {
        TouchedThen(d, d, d', v, bm, chs[i], chs[i], dirs[i], {}, SetOf(bm));
      }
    } else {
      var k := |chs| - 1;
      MadeEmpty(d0, d, v, way, |chs|, i, dirs[i]);
      WayApart(way, k, i);
      DirOfAll(d, v, bm, way, k);
      TouchedThen(d0, d, d', v, bm, chs[k], way[k], dirs[k], {}, SetOf(bm));
    }
  }
}
