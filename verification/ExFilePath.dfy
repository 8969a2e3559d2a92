/** `exfat_write_file_path` as a whole: what the path leads to afterwards, and what has changed. */
module ExFilePath {
  import opened Bytes
  import opened Components
  import opened Volume
  import opened Bitmap
  import opened Allocator
  import opened ExFile
  import opened Keeping
  import opened ExDir
  import opened ExDisk
  import opened ExMake
  import opened ExPath
  import opened ExWrite
  import opened ExWay
  import opened ExRewrite
  import opened ExDriver
  import opened ExSlim

  /** The entry at the end of the path may be written over: the clusters it has are none of the directories' on the
      path. */
  ghost predicate Rewritable(d: disk, v: Vol, bm: seq<nat>, chs: seq<seq<nat>>, names: seq<bytes>, oldCs: seq<nat>)
  {
    0 < |chs| <= |names| && DirX(d, v, chs[|chs| - 1]) &&
    if |chs| == |names| then
      && OldClusters(d, v, bm, chs[|chs| - 1], names[|chs| - 1], oldCs)
      && forall j | 0 <= j < |chs| :: Apart(chs[j], oldCs)
    else oldCs == []
  }

  /** What the write makes or finds in the last directory that exists can be found afterwards. */
  ghost predicate Seen(d: disk, v: Vol, dcs: seq<nat>, name: bytes)
    requires DirX(d, v, dcs)
  {
    Search(d, v, dcs, name).At? || Visible(d, v, dcs, name)
  }

  lemma LastFile(d: disk, d': disk, v: Vol, bm: seq<nat>, dcs: seq<nat>, dcs2: seq<nat>, name: bytes, data: bytes,
                 oldCs: seq<nat>, cs: seq<nat>)
    requires LastWritten(d, d', v, bm, dcs, dcs2, name, data, oldCs, cs) && DirX(d, v, dcs)
    ensures FileX(d', v, dcs2, name, data, cs) <==> Seen(d, v, dcs, name)
    ensures DirX(d', v, dcs2) && |dcs2| > 0 && dcs2[0] == dcs[0]
    ensures Keeps(d, d', v, SetOf(bm) + SetOf(dcs) + SetOf(oldCs))
    ensures Touched(d, d', v, bm, dcs, dcs2, name, SetOf(oldCs)) && Ready(d', v, bm)
  {
    hide Chain, Keeps, Holding, Search, Record, Visible, Ready, InUse, OneSet, Listing;
  }

  /** The walk to the directory of the file, after the file has been written. */
  lemma EndLeads(d: disk, d': disk, v: Vol, bm: seq<nat>, names: seq<bytes>, way: seq<seq<nat>>, dcs2: seq<nat>,
                 oldCs: seq<nat>)
    requires Leads(d, v, names, way) && Disjoint(way) && AllDirs(d, v, bm, way)
    requires DirX(d, v, way[|names|]) && Keeps(d, d', v, SetOf(bm) + SetOf(way[|names|]) + SetOf(oldCs))
    requires DirX(d', v, dcs2) && dcs2[0] == way[|names|][0] && forall j | 0 <= j < |way| :: Apart(way[j], oldCs)
    ensures Leads(d', v, names, way[|names| := dcs2])
  {
    hide DirX, Keeps, Step;
    var n := |names|;
    forall j | 0 <= j < n
      ensures Clear(way[j], SetOf(bm) + SetOf(way[n]) + SetOf(oldCs))
    {
      WayApart(way, j, n);
      DirOfAll(d, v, bm, way, j);
    }
    DirFacts(d, v, way[n]);
    LeadsKept(d, d', v, names, way, SetOf(bm) + SetOf(way[n]) + SetOf(oldCs), dcs2);
  }

  lemma ApartNone(way: seq<seq<nat>>, oldCs: seq<nat>)
    requires oldCs == []
    ensures forall j | 0 <= j < |way| :: Apart(way[j], oldCs)
  {
  }

  /** The file stands in a directory that was there. */
  lemma EndOld(d: disk, d': disk, v: Vol, bm: seq<nat>, names: seq<bytes>, chs: seq<seq<nat>>, way: seq<seq<nat>>,
               dcs2: seq<nat>, data: bytes, oldCs: seq<nat>, cs: seq<nat>)
    requires |names| > 0 && |chs| == |names| && Way(d, d, v, bm, Front(names), chs, way, |names| - 1)
    requires Rewritable(d, v, bm, chs, names, oldCs) && DirX(d, v, chs[|chs| - 1])
    requires LastWritten(d, d', v, bm, way[|names| - 1], dcs2, names[|names| - 1], data, oldCs, cs)
    ensures way == chs && Touched(d, d', v, bm, chs[|chs| - 1], dcs2, names[|chs| - 1], SetOf(oldCs))
    ensures Reads(d', v, names, way[|names| - 1 := dcs2], data, cs) <==> Seen(d, v, chs[|chs| - 1], names[|chs| - 1])
  {
    hide DirX, Keeps, Leads, LastWritten, FileX, Touched, Seen, Ready, AllDirs, Disjoint, Apart;
    var n := |names| - 1;
    WayDir(d, d, v, bm, Front(names), chs, way, n);
    assert chs[..n + 1] == chs;
    assert Front(names)[..n] == Front(names);
    LastFile(d, d', v, bm, way[n], dcs2, names[n], data, oldCs, cs);
    EndLeads(d, d', v, bm, Front(names), way, dcs2, oldCs);
  }

  /** The file stands in a directory that was made: it is found exactly if the first directory made is. */
  lemma EndNew(d0: disk, d: disk, d': disk, v: Vol, bm: seq<nat>, names: seq<bytes>, chs: seq<seq<nat>>,
               way: seq<seq<nat>>, dcs2: seq<nat>, data: bytes, cs: seq<nat>)
    requires |names| > 0 && |chs| < |names| && Way(d0, d, v, bm, Front(names), chs, way, |names| - 1) && |chs| > 0
    requires DirX(d0, v, chs[|chs| - 1]) && Fitting(v, names, |chs| - 1)
    requires LastWritten(d, d', v, bm, way[|names| - 1], dcs2, names[|names| - 1], data, [], cs)
    ensures Touched(d0, d', v, bm, chs[|chs| - 1], way[|chs| - 1], names[|chs| - 1], {})
    ensures !Search(d0, v, chs[|chs| - 1], names[|chs| - 1]).At?
    ensures Reads(d', v, names, way[|names| - 1 := dcs2], data, cs) <==>
      Visible(d0, v, chs[|chs| - 1], names[|chs| - 1])
  {
    hide DirX, Keeps, Leads, LastWritten, FileX, Touched, Ready, AllDirs, Disjoint, Made, Search, Visible, Apart, InUse,
         Way;
    var n, k := |names| - 1, |chs| - 1;
    WayDir(d0, d, v, bm, Front(names), chs, way, n);
    assert Front(names)[k] == names[k];
    MadeEmpty(d0, d, v, way, |chs|, n, names[n]);
    LastFile(d, d', v, bm, way[n], dcs2, names[n], data, [], cs);
    EndBegun(d0, d, d', v, bm, names, chs, way);
    BegunThen(d0, d, d', v, bm, chs[k], way[k], names[k], SetOf(bm) + SetOf(way[n]) + SetOf([]));
    var after := way[n := dcs2];
    ApartNone(way, []);
    if Visible(d0, v, chs[k], names[k]) {
      WayLead(d0, d, v, bm, Front(names), chs, way, n);
      EndLeads(d, d', v, bm, Front(names), way, dcs2, []);
    }
    if Reads(d', v, names, after, data, cs) {
      LeadsStep(d', v, Front(names), after, k);
      StepIs(d', v, after[k], names[k], after[k + 1]);
      GoesFound(d', v, way[k], names[k]);
    }
  }

  lemma WayLead(d0: disk, d: disk, v: Vol, bm: seq<nat>, names: seq<bytes>, chs: seq<seq<nat>>, way: seq<seq<nat>>,
                i: nat)
    requires Way(d0, d, v, bm, names, chs, way, i) && i == |names| && i >= |chs| && DirX(d0, v, chs[|chs| - 1])
    requires Visible(d0, v, chs[|chs| - 1], names[|chs| - 1])
    ensures Leads(d, v, names, way)
  {
    hide DirX, Leads, Touched, Ready, AllDirs, Disjoint, Made, Search, Visible, Proper;
    assert names[..i] == names;
  }

  /** What the last round touches was not in use at the start, but for the bitmap. */
  lemma EndBegun(d0: disk, d: disk, d': disk, v: Vol, bm: seq<nat>, names: seq<bytes>, chs: seq<seq<nat>>,
                 way: seq<seq<nat>>)
    requires |names| > 0 && 0 < |chs| < |names| && Way(d0, d, v, bm, Front(names), chs, way, |names| - 1)
    ensures var n := |names| - 1; way[n] == [way[n][0]] && !InUse(d0, v, way[n][0])
    ensures var n, k := |names| - 1, |chs| - 1; Clear(way[k], SetOf(bm) + SetOf(way[n]) + SetOf([]))
  {
    hide DirX, Leads, Begun, Ready, InUse, Listing, Proper;
    var n, k := |names| - 1, |chs| - 1;
    WayDir(d0, d, v, bm, Front(names), chs, way, n);
    WayApart(way, k, n);
    DirOfAll(d, v, bm, way, k);
  }

  /** The last directory of the way can take the file. */
  lemma WayTakes(d0: disk, d: disk, v: Vol, bm: seq<nat>, names: seq<bytes>, chs: seq<seq<nat>>, way: seq<seq<nat>>,
                 oldCs: seq<nat>)
    requires |names| > 0 && 0 < |chs| <= |names| && Way(d0, d, v, bm, Front(names), chs, way, |names| - 1)
    requires Rewritable(d0, v, bm, chs, names, oldCs) && Fitting(v, names, |chs| - 1) && DirX(d0, v, chs[|chs| - 1])
    requires AllTidy(Listing(d0, v, chs[|chs| - 1]))
    ensures var dcs, name := way[|names| - 1], names[|names| - 1];
      && DirX(d, v, dcs) && AllTidy(Listing(d, v, dcs)) && OldClusters(d, v, bm, dcs, name, oldCs)
      && (|chs| < |names| ==> !Search(d, v, dcs, name).At?)
  {
    hide Chain, Leads, Begun, Ready, InUse, Listing, Tidy, Made, Search, Record, AllDirs, Disjoint;
    var n := |names| - 1;
    WayDir(d0, d, v, bm, Front(names), chs, way, n);
    if |chs| < |names| {
      MadeEmpty(d0, d, v, way, |chs|, n, names[n]);
    }
  }

  /** A failure of the last round. */
  lemma EndFailed(d0: disk, d: disk, d': disk, v: Vol, bm: seq<nat>, names: seq<bytes>, chs: seq<seq<nat>>,
                  way: seq<seq<nat>>, oldCs: seq<nat>)
    requires |names| > 0 && 0 < |chs| <= |names| && Way(d0, d, v, bm, Front(names), chs, way, |names| - 1)
    requires Keeps(d, d', v, SetOf(bm)) && Ready(d', v, bm) && DirX(d0, v, chs[|chs| - 1])
    ensures var k := |chs| - 1;
      Touched(d0, d', v, bm, chs[k], way[k], names[k], if |chs| == |names| then SetOf(oldCs) else {})
    ensures |chs| < |names| ==> !Search(d0, v, chs[|chs| - 1], names[|chs| - 1]).At?
  {
    hide Chain, Leads, Ready, InUse, Listing, Tidy, Made, Search, Record, AllDirs, Disjoint, Touched, Keeps, Visible,
         Spent;
    var n, k := |names| - 1, |chs| - 1;
    WayDir(d0, d, v, bm, Front(names), chs, way, n);
    if |chs| == |names| {
      TouchedSelf(d, v, bm, chs[k], names[k], SetOf(oldCs));
      TouchedThen(d, d, d', v, bm, chs[k], chs[k], names[k], SetOf(oldCs), SetOf(bm));
    } else {
      assert Front(names)[k] == names[k];
      DirOfAll(d, v, bm, way, k);
      TouchedThen(d0, d, d', v, bm, chs[k], way[k], names[k], {}, SetOf(bm));
    }
  }

  /** The result of a write below `dirs` directories that have to be made, the first of them `name`: each takes a
      cluster, that one perhaps one more, and the data what it needs. */
  ghost function FarCode(d: disk, v: Vol, dcs: seq<nat>, name: bytes, dirs: nat, size: nat): (r: int)
    requires DirX(d, v, dcs) && OnDisk(d, v) && ClusterBytes(v) > 0
  {
    var taken := dirs + Extra(d, v, dcs, name);
    if FreeLeft(d, v) < taken then -5
    else if size == 0 || (SizeFits(v, size) && Need(v, size) + taken <= FreeLeft(d, v)) then 0 else -2
  }

  /** The last round behind directories that have been made. */
  lemma EndFar(d0: disk, d: disk, v: Vol, bm: seq<nat>, names: seq<bytes>, chs: seq<seq<nat>>, way: seq<seq<nat>>,
               size: nat)
    requires |names| > 0 && 0 < |chs| < |names| && Way(d0, d, v, bm, Front(names), chs, way, |names| - 1)
    requires Fitting(v, names, |chs| - 1)
    ensures OnDisk(d, v) && OnDisk(d0, v) && v.secPerClus > 0 && ClusterBytes(v) > 0 && DirX(d, v, way[|names| - 1])
    ensures DirX(d0, v, chs[|chs| - 1]) && !Search(d0, v, chs[|chs| - 1], names[|chs| - 1]).At?
    ensures LastCode(d, v, way[|names| - 1], names[|names| - 1], size)
      == FarCode(d0, v, chs[|chs| - 1], names[|chs| - 1], |names| - |chs|, size)
  {
    hide Chain, Leads, Ready, InUse, Listing, Tidy, Made, Search, Record, AllDirs, Disjoint, Touched, Keeps, Visible,
         Fat, FreeSet, Slot, Limit, Geometry, Entry;
    var n, k := |names| - 1, |chs| - 1;
    WayDir(d0, d, v, bm, Front(names), chs, way, n);
    VolFacts(d, v, bm);
    assert Front(names)[k] == names[k];
    MadeEmpty(d0, d, v, way, |chs|, n, names[n]);
  }

  // ---------------------------------------------------------------- writing a file

  /** `exfat_write_file_path`, once the bitmap is known.  The directories of the path that exist are `chs`; the entry
      that the path leads to, if there is one, has the clusters `oldCs`.  Whatever the result, nothing in use has
      changed but the bitmap, these clusters, and one set of the last directory.  After success the path leads through
      `way` to a file that holds the data, exactly if what was found or made in that directory can be seen. */
  method WriteFilePath(dk: array<bytes>, v: Vol, path: bytes, data: bytes, ghost bm: seq<nat>, ghost chs: seq<seq<nat>>,
                       ghost oldCs: seq<nat>)
    returns (r: int, ghost way: seq<seq<nat>>, ghost cs: seq<nat>)
    requires NoNul(path) && |data| < TWO32 && Ready(dk[..], v, bm)
    requires Walk(dk[..], v, Front(PathNames(path)), chs) && Disjoint(chs) && AllDirs(dk[..], v, bm, chs)
    requires PathNames(path) != [] ==> Rewritable(dk[..], v, bm, chs, PathNames(path), oldCs)
    requires PathNames(path) != [] ==>
      AllTidy(Listing(dk[..], v, chs[|chs| - 1])) && Fitting(v, PathNames(path), |chs| - 1)
    requires SlimPath(dk[..], v, PathNames(path), chs)
    modifies dk
    ensures PathNames(path) == [] ==> r == -1 && dk[..] == old(dk[..])
    ensures PathNames(path) != [] ==>
      |chs| <= |PathNames(path)| && |chs| <= |way| && DirX(old(dk[..]), v, chs[|chs| - 1])
    ensures PathNames(path) != [] ==> v.secPerClus > 0 && ClusterBytes(v) > 0 && OnDisk(old(dk[..]), v)
    ensures PathNames(path) != [] ==>
      var names, k := PathNames(path), |chs| - 1;
      Touched(old(dk[..]), dk[..], v, bm, chs[k], way[k], names[k], if |chs| == |names| then SetOf(oldCs) else {})
    ensures PathNames(path) != [] ==>
      var d, names, k := old(dk[..]), PathNames(path), |chs| - 1;
      if |chs| == |names| then r == LastCode(d, v, chs[k], names[k], |data|)
      else if Search(d, v, chs[k], names[k]).At? then r == -6 && dk[..] == d && way[k] == chs[k]
      else r == FarCode(d, v, chs[k], names[k], |names| - |chs|, |data|)
    ensures r == 0 ==>
      (Reads(dk[..], v, PathNames(path), way, data, cs) <==>
        Seen(old(dk[..]), v, chs[|chs| - 1], PathNames(path)[|chs| - 1]))
    ensures r == 0 && Reads(dk[..], v, PathNames(path), way, data, cs) ==> SlimPath(dk[..], v, PathNames(path), way)
  {
    hide DirX, Step, Leads, Walk, Split, Key, Proper, NoNul, Listing, Tidy, Way, Disjoint, AllDirs, Rewritable, Ready,
         Touched, LastWritten, DirStep, Search, Record, Fitting, AllProper, Seen, Reads, LastCode, OldClusters, Keeps,
         Visible, FreeLeft, Extra, SlimDir, SlimPath, WaySlim;
    ghost var d0 := dk[..];
    ghost var names := PathNames(path);
    ghost var dirs := Front(names);
    ghost var k := |chs| - 1;
    PathProper(path);
    var p := SkipDrivePrefix(path);
    var dir := v.rootClus;
    ghost var i := 0;
    WalkSize(d0, v, dirs, chs);
    WalkStep(d0, v, dirs, chs, 0);
    WayStart(d0, v, bm, dirs, chs);
    way, cs := [chs[0]], [];
    WalkStep(d0, v, dirs, chs, k);
    VolFacts(d0, v, bm);
    FitFront(v, names, k);
    assert WaySlim(d0, v, dirs, way, 0) by { SlimNone(d0, v, dirs, way); }
    while true
      invariant p <= |path| && i <= |dirs| && Split(path, p, 255) == names[i..] && (i == 0 ==> dk[..] == d0)
      invariant Way(d0, dk[..], v, bm, dirs, chs, way, i) && |way| == i + 1 && |way[i]| > 0 && dir == way[i][0]
      invariant WaySlim(dk[..], v, dirs, way, i)
      decreases |path| - p
    {
      ghost var d := dk[..];
      var more, q, comp := GetComponent(path, p, 255);
      if !more {
        assert names == [];
        return -1, way, cs;
      }
      NamesTail(path, p, q, comp, names, i);
      NameProper(names, i);
      p := q;
      more := PathHasMore(path, p, 255);
      WayDir(d0, d, v, bm, dirs, chs, way, i);
      WaySlimAt(d0, d, v, bm, dirs, names, chs, way, i);
      if !more {
        WayTakes(d0, d, v, bm, names, chs, way, oldCs);
        if |chs| < |names| { EndFar(d0, d, v, bm, names, chs, way, |data|); }
        FitsAt(v, names, k, i);
        ghost var dcs2;
        r, cs, dcs2 := WriteLast(dk, v, dir, comp, data, bm, way[i], oldCs);
        if r != 0 {
          EndFailed(d0, d, dk[..], v, bm, names, chs, way, oldCs);
        } else {
          RewritableIs(d0, v, bm, chs, names, oldCs);
          OldApart(d0, d, v, bm, chs, names, way, oldCs);
          EndSlim(d, dk[..], v, bm, names, way, dcs2, data, oldCs, cs);
          if |chs| == |names| {
            EndOld(d0, dk[..], v, bm, names, chs, way, dcs2, data, oldCs, cs);
          } else {
            EndNew(d0, d, dk[..], v, bm, names, chs, way, dcs2, data, cs);
            SeenIs(d0, v, chs[k], names[k]);
          }
          way := way[i := dcs2];
        }
        return;
      }
      assert dirs[i] == names[i];
      StepFits(d0, d, v, bm, dirs, chs, way, i);
      var next;
      ghost var dcs2, made, a, b;
      r, next, dcs2, made, a, b := WriteStep(dk, v, dir, comp, bm, way[i]);
      if r != 0 {
        WayFailed(d0, d, dk[..], v, bm, dirs, chs, way, i, dcs2, r, next, made, a, b);
        assert dirs[k] == names[k];
        return;
      }
      ghost var longer := WayStep(d0, d, dk[..], v, bm, dirs, chs, way, i, dcs2, next, made, a, b);
      WaySlimStep(d0, d, dk[..], v, bm, dirs, chs, way, i, dcs2, next, made, a, b, longer);
      way := longer;
      dir := next;
      i := i + 1;
    }
  }

  lemma SlimNone(d: disk, v: Vol, dirs: seq<bytes>, way: seq<seq<nat>>)
    ensures WaySlim(d, v, dirs, way, 0)
  {
  }

  /** The directories on the way are apart from the old file. */
  lemma OldApart(d0: disk, d: disk, v: Vol, bm: seq<nat>, chs: seq<seq<nat>>, names: seq<bytes>, way: seq<seq<nat>>,
                 oldCs: seq<nat>)
    requires |names| > 0 && Way(d0, d, v, bm, Front(names), chs, way, |names| - 1)
    requires Rewritable(d0, v, bm, chs, names, oldCs)
    ensures |way| == |names| && forall j | 0 <= j < |way| :: Apart(way[j], oldCs)
  {
    hide DirX, Leads, Begun, Made, Spent, Ready, AllDirs, Disjoint, OldClusters, Search, Apart;
    if |chs| == |names| {
      assert chs[..|names|] == chs;
    } else {
      ApartNone(way, oldCs);
    }
  }

  lemma VolFacts(d: disk, v: Vol, bm: seq<nat>)
    requires Ready(d, v, bm)
    ensures OnDisk(d, v) && v.secPerClus > 0 && ClusterBytes(v) > 0
  {
    hide Chain, Agree, Fat, Used;
    MountedOn(d, v, bm);
    OneCluster(d, v);
  }

  lemma FitFront(v: Vol, names: seq<bytes>, k: nat)
    requires Fitting(v, names, k)
    ensures Fitting(v, Front(names), k)
  {
  }

  lemma FitsAt(v: Vol, names: seq<bytes>, k: nat, i: nat)
    requires Fitting(v, names, k) && k <= i < |names|
    ensures 32 * SetSize(names[i]) <= ClusterBytes(v)
  {
  }

  /** Where a directory is to be made, its set fits. */
  lemma StepFits(d0: disk, d: disk, v: Vol, bm: seq<nat>, dirs: seq<bytes>, chs: seq<seq<nat>>, way: seq<seq<nat>>,
                 i: nat)
    requires Way(d0, d, v, bm, dirs, chs, way, i) && Walk(d0, v, dirs, chs) && i < |dirs| && Fitting(v, dirs, |chs| - 1)
    ensures DirX(d, v, way[i]) && (!Search(d, v, way[i], dirs[i]).At? ==> 32 * SetSize(dirs[i]) <= ClusterBytes(v))
  {
    hide Chain, Leads, Begun, Ready, Listing, Made, Search, Record, AllDirs, Disjoint, Way, Walk;
    WayDir(d0, d, v, bm, dirs, chs, way, i);
    if i + 1 < |chs| {
      WalkStep(d0, v, dirs, chs, i);
    }
  }

  lemma RewritableIs(d: disk, v: Vol, bm: seq<nat>, chs: seq<seq<nat>>, names: seq<bytes>, oldCs: seq<nat>)
    requires Rewritable(d, v, bm, chs, names, oldCs)
    ensures 0 < |chs| <= |names| && (|chs| < |names| ==> oldCs == [])
  {
    hide DirX, OldClusters, Apart;
  }

  lemma SeenIs(d: disk, v: Vol, dcs: seq<nat>, name: bytes)
    requires DirX(d, v, dcs) && !Search(d, v, dcs, name).At?
    ensures Seen(d, v, dcs, name) == Visible(d, v, dcs, name)
  {
    hide DirX, Search, Visible;
  }
}
