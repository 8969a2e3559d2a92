/** `fat32_write_file_path` and `fat32_ensure_dir_path` over whole paths. */
module Fat32Driver {
  import opened Bytes
  import opened Components
  import opened Volume
  import opened Allocator
  import opened FileData
  import opened Keeping
  import opened DirEntries
  import opened Dir83
  import opened Fat32Dir
  import opened Fat32File
  import opened Fat32Path
  import opened Fat32Write
  import opened Fat32Laws

  // ---------------------------------------------------------------- the names of a path

  /** The components of a C string contain no NUL. */
  lemma {:induction false} SplitNoNul(path: bytes, p: nat, size: nat)
    requires p <= |path| && NoNul(path)
    ensures forall i | 0 <= i < |Split(path, p, size)| :: NoNul(Split(path, p, size)[i])
    decreases |path| - p
  {
    var q := SkipSlashes(path, p);
    if q < |path| {
      SplitNoNul(path, NextSlash(path, q), size);
    }
  }

  lemma PathProper(path: bytes)
    requires NoNul(path)
    ensures AllProper(PathNames(path)) && AllProper(Front(PathNames(path)))
  {
    hide Split, Name83, Run;
    SplitNoNul(path, PathStart(path), 12);
    var comps := Split(path, PathStart(path), 12);
    forall i | 0 <= i < |comps|
      ensures Proper(Names(comps)[i])
    {
      NeverDot(comps[i]);
    }
  }

  // ---------------------------------------------------------------- one more directory

  /** A successful step takes the way one directory further. */
  lemma WayStep(d0: disk, d: disk, d': disk, v: Vol, dirs: seq<bytes>, chs: seq<seq<nat>>, way: seq<seq<nat>>, i: nat,
                bad: int, next: nat)
    returns (more: seq<seq<nat>>)
    requires PathGoes(d0, v, dirs, chs) && Disjoint(chs) && Way(d0, d, v, dirs, chs, way, i) && i < |dirs|
    requires DirStep(d, d', v, way[i], dirs[i], bad, 0, next) && bad != 0
    ensures Way(d0, d', v, dirs, chs, more, i + 1) && |more| == i + 2 && |more[i + 1]| > 0 && more[i + 1][0] == next
    ensures i + 1 == |chs| ==> DirOf(d0, v, chs[i]) && !Search(d0, v, chs[i], dirs[i]).At?
  {
    hide DirAt, DirMade, Keeps, Fat, FirstFree, FatScan, Find, Slot, Altered, Made, Leads, Lasting, Disjoint, AllDirs,
         IsDir, Target, NewDir;
    WayDir(d0, d, v, dirs, chs, way, i);
    if i < |chs| {
      WalkStep(d0, v, dirs, chs, i);
      assert way[i] == chs[..i + 1][i];
    }
    if i + 1 < |chs| {
      StepIs(d0, v, chs[i], dirs[i], chs[i + 1]);
      WayOld(d0, d, v, dirs, chs, way, i);
      more := way + [chs[i + 1]];
    } else {
      if i >= |chs| {
        WayProper(d0, d, v, dirs, chs, way, i);
        MadeEmpty(d0, d, v, way, |chs|, i, dirs[i]);
      }
      WayNew(d0, d, d', v, dirs, chs, way, i, next);
      more := way + [[next]];
    }
  }

  lemma WayProper(d0: disk, d: disk, v: Vol, dirs: seq<bytes>, chs: seq<seq<nat>>, way: seq<seq<nat>>, i: nat)
    requires Way(d0, d, v, dirs, chs, way, i)
    ensures AllProper(dirs) && AllDirs(d, v, way) && (i >= |chs| ==> Made(d0, d, v, way, |chs|, i))
    ensures i >= |chs| > 0 ==> Altered(d0, d, v, chs[|chs| - 1], dirs[|chs| - 1], {})
    ensures i >= |chs| > 0 ==> Spent(d0, d, v, chs[|chs| - 1], i + 1 - |chs|)
  {
    hide DirAt, Altered, Made, Leads, Lasting, Disjoint, AllDirs, Proper, Spent;
  }

  /** The result of making `dirs` directories, the first of them in `dcs`: each takes a cluster, and the first an
      entry. */
  ghost function MakeCode(d: disk, v: Vol, dcs: seq<nat>, dirs: nat): (r: int)
    requires DirOf(d, v, dcs) && OnDisk(d, v)
  {
    if FreeCount(d, v) == 0 then -3
    else if !Slot(Listing(d, v, dcs), 0).At? then -5
    else if FreeCount(d, v) < dirs then -3 else 0
  }

  /** A step that fails leaves everything in use as it is; where a plain file stands in the way, everything at all. */
  lemma WayFailed(d0: disk, d: disk, d': disk, v: Vol, dirs: seq<bytes>, chs: seq<seq<nat>>, way: seq<seq<nat>>, i: nat,
                  bad: int, r: int, next: nat)
    requires PathGoes(d0, v, dirs, chs) && Way(d0, d, v, dirs, chs, way, i) && i < |dirs|
    requires DirStep(d, d', v, way[i], dirs[i], bad, r, next) && bad != 0 && r != 0
    ensures |chs| <= |dirs| && DirOf(d0, v, chs[|chs| - 1])
    ensures Altered(d0, d', v, chs[|chs| - 1], dirs[|chs| - 1], {})
    ensures OnDisk(d0, v)
    ensures if i < |chs| && Search(d0, v, chs[|chs| - 1], dirs[|chs| - 1]).At? then r == bad && d' == d0
            else r == MakeCode(d0, v, chs[|chs| - 1], |dirs| + 1 - |chs|) != 0
  {
    hide DirAt, DirMade, Keeps, Fat, FirstFree, FatScan, Find, Slot, Altered, Made, Leads, Lasting, Disjoint, AllDirs,
         IsDir, Target, NewDir, FreeCount, OnDisk;
    NoneCounted(d, v);
    WayDir(d0, d, v, dirs, chs, way, i);
    WayProper(d0, d, v, dirs, chs, way, i);
    if i < |chs| {
      WalkStep(d0, v, dirs, chs, i);
      assert way[i] == chs[..i + 1][i];
      TouchedSelf(d, v, chs[i], dirs[i], {});
      if r == -5 && d' != d {
        ClearNone(chs[i]);
        TouchedThen(d, d, d', v, chs[i], dirs[i], {}, {});
      }
    } else {
      MadeEmpty(d0, d, v, way, |chs|, i, dirs[i]);
      WalkStep(d0, v, dirs, chs, |chs| - 1);
    }
  }

  // ---------------------------------------------------------------- the file at the end

  ghost predicate OwnFile(d: disk, v: Vol, dcs: seq<nat>, name: bytes)
    requires DirOf(d, v, dcs)
  {
    DirIs(d, v, dcs[0], dcs);
    Writable(d, v, dcs, name)
  }

  /** The file at the end of the path may be written over: its cluster is not one of a directory on the path. */
  ghost predicate Replaceable(d: disk, v: Vol, chs: seq<seq<nat>>, name: bytes)
  {
    && |chs| > 0 && DirOf(d, v, chs[|chs| - 1]) && OwnFile(d, v, chs[|chs| - 1], name)
    && forall j | 0 <= j < |chs| :: Clear(chs[j], Own(d, v, chs[|chs| - 1], name))
  }

  /** The result of the last round in the directory `dcs`. */
  ghost function FileCode(d: disk, v: Vol, dcs: seq<nat>, name: bytes): (r: int)
    requires DirOf(d, v, dcs) && v.secPerClus > 0
  {
    var f := Search(d, v, dcs, name);
    if f.At? && IsDir(SearchEntry(d, v, dcs, name)) then -4
    else if Own(d, v, dcs, name) == {} && FirstFree(Fat(d, v), FatScan(v), 2) == 0 then -5
    else if !f.At? && !Slot(Listing(d, v, dcs), 0).At? then -9 else 0
  }

  /** What the last round does. */
  ghost predicate LastDone(d: disk, d': disk, v: Vol, dcs: seq<nat>, name: bytes, data: bytes, r: int, target: nat)
  {
    && DirOf(d, v, dcs) && v.secPerClus > 0 && r == FileCode(d, v, dcs, name)
    && (r == -4 || r == -5 ==> d' == d) && (r == -9 ==> Keeps(d, d', v, {}))
    && (r == 0 ==> FileWritten(d, d', v, dcs, name, data, target))
  }

  method WriteEnd(dk: array<bytes>, v: Vol, dir: nat, name: bytes, data: bytes, ghost dcs: seq<nat>)
    returns (r: int, target: nat)
    requires DirOf(dk[..], v, dcs) && dir == dcs[0] && Proper(name) && |data| < TWO32
    requires OnDisk(dk[..], v) && AllUsable(v, dcs) && AllEntries(Contents(dk[..], v, dcs))
    requires Writable(dk[..], v, dcs, name)
    modifies dk
    ensures LastDone(old(dk[..]), dk[..], v, dcs, name, data, r, target)
  {
    hide DirAt, Start, IsDir, OnDisk, Keeps, FileWritten, FirstFree, Slot, Find, Fat, FatScan, Contents, Writable,
         AllUsable;
    SecOf(dk[..], v, dcs);
    r, target := WriteLast(dk, v, dir, name, data, dcs);
  }

  /** The names all last exactly if the file can be read. */
  lemma WayReads(d0: disk, d: disk, d': disk, v: Vol, names: seq<bytes>, chs: seq<seq<nat>>, way: seq<seq<nat>>,
                 data: bytes, target: nat)
    requires |names| > 0 && AllProper(names) && Way(d0, d, v, Front(names), chs, way, |names| - 1) && |chs| <= |names|
    requires DirOf(d, v, way[|names| - 1]) && FileWritten(d, d', v, way[|names| - 1], names[|names| - 1], data, target)
    requires |chs| == |names| ==> Replaceable(d0, v, chs, names[|names| - 1])
    ensures Lasting(names) <==> Reads(d', v, names, way, Truncated(v, data), [target])
    ensures |chs| == |names| ==> way == chs && d == d0
  {
    hide DirAt, FileWritten, Leads, Made, Altered, Own, Lasting, Reads, Proper, Writable, AllDirs, Disjoint, Clear;
    var n := |names| - 1;
    if |chs| == |names| {
      assert chs[..n + 1] == chs;
    } else {
      WayProper(d0, d, v, Front(names), chs, way, n);
      MadeEmpty(d0, d, v, way, |chs|, n, names[n]);
      NothingOwn(d, v, way[n], names[n]);
      forall j | 0 <= j < |way| ensures Clear(way[j], {}) { ClearNone(way[j]); }
    }
    WayWritten(d0, d, d', v, names, chs, way, data, target);
    if Reads(d', v, names, way, Truncated(v, data), [target]) {
      ReadsLasting(d', v, names, way, Truncated(v, data), [target]);
    }
  }

  /** The last directory of the way can take the file. */
  lemma WayWritable(d0: disk, d: disk, v: Vol, names: seq<bytes>, chs: seq<seq<nat>>, way: seq<seq<nat>>)
    requires |names| > 0 && AllProper(names) && Way(d0, d, v, Front(names), chs, way, |names| - 1) && |chs| <= |names|
    requires |chs| == |names| ==> Replaceable(d0, v, chs, names[|names| - 1])
    ensures var dcs := way[|names| - 1];
      DirOf(d, v, dcs) && OnDisk(d, v) && AllUsable(v, dcs) && AllEntries(Contents(d, v, dcs))
    ensures Writable(d, v, way[|names| - 1], names[|names| - 1])
  {
    hide DirAt, Leads, Made, Altered, Own, Lasting, Proper, AllDirs, Disjoint, Clear, Contents, Usable;
    var n := |names| - 1;
    WayDir(d0, d, v, Front(names), chs, way, n);
    DirIs(d, v, way[n][0], way[n]);
    if |chs| == |names| {
      assert chs[..n + 1] == chs;
    } else {
      WayProper(d0, d, v, Front(names), chs, way, n);
      MadeEmpty(d0, d, v, way, |chs|, n, names[n]);
    }
  }

  /** What the last round leaves alone. */
  lemma WayEnd(d0: disk, d: disk, d': disk, v: Vol, names: seq<bytes>, chs: seq<seq<nat>>, way: seq<seq<nat>>,
               data: bytes, r: int, target: nat)
    requires |names| > 0 && AllProper(names) && Way(d0, d, v, Front(names), chs, way, |names| - 1) && |chs| <= |names|
    requires LastDone(d, d', v, way[|names| - 1], names[|names| - 1], data, r, target)
    ensures DirOf(d0, v, chs[|chs| - 1])
    ensures var k := |chs| - 1;
      Altered(d0, d', v, chs[k], names[k], if |chs| == |names| then Own(d0, v, chs[k], names[k]) else {})
    ensures |chs| == |names| ==> v.secPerClus > 0 && r == FileCode(d0, v, chs[|chs| - 1], names[|chs| - 1])
    ensures |chs| == |names| && (r == -4 || r == -5) ==> d' == d0
    ensures |chs| < |names| ==> OnDisk(d0, v) && MakeCode(d0, v, chs[|chs| - 1], |names| - |chs|) == 0
    ensures |chs| < |names| ==> r == if FreeCount(d0, v) == |names| - |chs| then -5 else 0
  {
    hide DirAt, Leads, Made, Altered, Own, Lasting, Proper, AllDirs, Disjoint, Keeps, FileWritten, Search, SearchEntry,
         Fat, FirstFree, FatScan, Slot, IsDir, FreeCount, OnDisk;
    SecOf(d, v, way[|names| - 1]);
    NoneCounted(d, v);
    var n, k := |names| - 1, |chs| - 1;
    if |chs| == |names| {
      assert chs[..n + 1] == chs;
      TouchedSelf(d, v, chs[k], names[k], Own(d, v, chs[k], names[k]));
      if r == 0 {
        WrittenTouched(d, d', v, chs[k], names[k], data, target);
      } else if r == -9 {
        ClearNone(chs[k]);
        TouchedThen(d, d, d', v, chs[k], names[k], Own(d, v, chs[k], names[k]), {});
      }
    } else {
      WayProper(d0, d, v, Front(names), chs, way, n);
      assert Front(names)[k] == names[k];
      MadeEmpty(d0, d, v, way, |chs|, n, names[n]);
      NothingOwn(d, v, way[n], names[n]);
      TouchedDir(d0, d, v, chs[k], names[k], {});
      if r == 0 {
        WayOneEntry(d0, d, d', v, names, chs, way, data, target);
      }
    }
  }

  lemma TouchedDir(d: disk, d': disk, v: Vol, dcs: seq<nat>, name: bytes, extra: set<nat>)
    requires Altered(d, d', v, dcs, name, extra)
    ensures DirOf(d, v, dcs)
  {
  }

  /** The result of a write below directories that have to be made: the file takes one cluster more. */
  ghost function FarCode(d: disk, v: Vol, dcs: seq<nat>, dirs: nat): (r: int)
    requires DirOf(d, v, dcs) && OnDisk(d, v)
  {
    if MakeCode(d, v, dcs, dirs) != 0 then MakeCode(d, v, dcs, dirs) else if FreeCount(d, v) == dirs then -5 else 0
  }

  // ---------------------------------------------------------------- writing a file

  /** `fat32_write_file_path`.  The directories of the path that exist are `chs`.  Whatever the result, at most one
      entry of the last of them has changed, and of the other clusters in use only the one that the file had.  After
      success the path leads through `way` to a file that holds as much of the data as one cluster does, exactly if no
      name of the path counts as deleted. */
  method WriteFilePath(dk: array<bytes>, v: Vol, path: bytes, data: bytes, ghost chs: seq<seq<nat>>)
    returns (r: int, ghost way: seq<seq<nat>>, ghost target: nat)
    requires NoNul(path) && |data| < TWO32 && PathGoes(dk[..], v, Front(PathNames(path)), chs) && Disjoint(chs)
    requires |chs| == |PathNames(path)| ==> Replaceable(dk[..], v, chs, PathNames(path)[|chs| - 1])
    modifies dk
    ensures PathNames(path) == [] ==> r == -10 && dk[..] == old(dk[..])
    ensures PathNames(path) != [] ==> |chs| <= |PathNames(path)| && DirOf(old(dk[..]), v, chs[|chs| - 1])
    ensures PathNames(path) != [] ==>
      var d, names, k := old(dk[..]), PathNames(path), |chs| - 1;
      Altered(d, dk[..], v, chs[k], names[k], if |chs| == |names| then Own(d, v, chs[k], names[k]) else {})
    ensures PathNames(path) != [] ==>
      var d, names, k := old(dk[..]), PathNames(path), |chs| - 1;
      if |chs| == |names| then v.secPerClus > 0 && r == FileCode(d, v, chs[k], names[k])
      else if Search(d, v, chs[k], names[k]).At? then r == -3 && dk[..] == d
      else OnDisk(d, v) && r == FarCode(d, v, chs[k], |names| - |chs|)
    ensures |chs| == |PathNames(path)| && (r == -4 || r == -5) ==> dk[..] == old(dk[..])
    ensures r == 0 ==>
      (Lasting(PathNames(path)) <==> Reads(dk[..], v, PathNames(path), way, Truncated(v, data), [target]))
    ensures r == 0 && |chs| == |PathNames(path)| ==> way == chs
  {
    hide DirOf, Goes, Search, SearchEntry, Step, Leads, PathGoes, Name83, Altered, Way, DirStep, LastDone, FileCode,
         Own, Reads, Lasting, Replaceable, FileWritten, Disjoint, AllProper, Writable, OnDisk, AllUsable, Contents,
         AllEntries, Split, Names, NoNul, Truncated, Proper, MakeCode, FreeCount;
    ghost var d0 := dk[..];
    ghost var names := PathNames(path);
    ghost var dirs := Front(names);
    PathProper(path);
    var p := SkipDrivePrefix(path);
    var dir := v.rootClus;
    ghost var i := 0;
    WalkSize(d0, v, dirs, chs);
    WalkStep(d0, v, dirs, chs, 0);
    WayStart(d0, v, dirs, chs);
    way, target := [chs[0]], 0;
    WayDir(d0, d0, v, dirs, chs, way, 0);
    while true
      invariant p <= |path| && i <= |dirs| && Names(Split(path, p, 12)) == names[i..]
      invariant Way(d0, dk[..], v, dirs, chs, way, i) && |way| == i + 1 && |way[i]| > 0 && dir == way[i][0]
      invariant i == 0 ==> dk[..] == d0
      invariant i >= |chs| ==>
        |dirs| > |chs| - 1 && DirOf(d0, v, chs[|chs| - 1]) && !Search(d0, v, chs[|chs| - 1], dirs[|chs| - 1]).At?
      decreases |path| - p
    {
      ghost var d := dk[..];
      var more, q, comp := GetComponent(path, p, 12);
      if !more {
        assert names == [];
        return -10, way, target;
      }
      NamesTail(path, p, q, comp, names, i);
      p := q;
      var name := MakeName83(comp);
      more := PathHasMore(path, p, 12);
      WayDir(d0, d, v, dirs, chs, way, i);
      if !more {
        WayWritable(d0, d, v, names, chs, way);
        NameProper(names, i);
        r, target := WriteEnd(dk, v, dir, name, data, way[i]);
        WayEnd(d0, d, dk[..], v, names, chs, way, data, r, target);
        if r == 0 {
          LastFile(d, dk[..], v, way[i], names[i], data, target);
          WayReads(d0, d, dk[..], v, names, chs, way, data, target);
        }
        return;
      }
      NameProper(names, i);
      assert dirs[i] == names[i];
      var next;
      r, next := WriteStep(dk, v, dir, name, way[i]);
      if r != 0 {
        WayFailed(d0, d, dk[..], v, dirs, chs, way, i, -3, r, next);
        assert dirs[|chs| - 1] == names[|chs| - 1];
        return;
      }
      way := WayStep(d0, d, dk[..], v, dirs, chs, way, i, -3, next);
      dir := next;
      i := i + 1;
    }
  }

  lemma NameProper(names: seq<bytes>, i: nat)
    requires AllProper(names) && i < |names|
    ensures Proper(names[i]) && |names[i]| == 11
  {
  }

  lemma LastFile(d: disk, d': disk, v: Vol, dcs: seq<nat>, name: bytes, data: bytes, target: nat)
    requires LastDone(d, d', v, dcs, name, data, 0, target)
    ensures DirOf(d, v, dcs) && FileWritten(d, d', v, dcs, name, data, target)
  {
    hide FileWritten, DirAt, FileCode;
  }

  // ---------------------------------------------------------------- making directories

  /** The names of directories that are found do not count as deleted. */
  lemma LeadsLasting(d: disk, v: Vol, names: seq<bytes>, chs: seq<seq<nat>>)
    requires Leads(d, v, names, chs) && AllProper(names)
    ensures Lasting(names)
  {
    hide DirAt, Start, IsDir, Named, Proper;
    forall i | 0 <= i < |names|
      ensures |names[i]| == 11 && names[i][0] != DELETED
    {
      NameProper(names, i);
      LeadsStep(d, v, names, chs, i);
      Named83(SearchEntry(d, v, chs[i], names[i]), names[i]);
    }
  }

  /** The way at the end of a path of directories. */
  lemma WayLeads(d0: disk, d: disk, v: Vol, names: seq<bytes>, chs: seq<seq<nat>>, way: seq<seq<nat>>)
    requires Way(d0, d, v, names, chs, way, |names|) && |chs| <= |names| + 1
    ensures Disjoint(way) && (Lasting(names) <==> Leads(d, v, names, way))
    ensures |chs| == |names| + 1 ==> d == d0 && way == chs
    ensures |chs| <= |names| && |chs| > 0 ==> Altered(d0, d, v, chs[|chs| - 1], names[|chs| - 1], {})
    ensures |chs| <= |names| && |chs| > 0 ==>
      DirOf(d0, v, chs[|chs| - 1]) && OnDisk(d0, v) && MakeCode(d0, v, chs[|chs| - 1], |names| + 1 - |chs|) == 0
  {
    hide DirOf, Altered, Made, Leads, Lasting, Disjoint, AllDirs, Proper, FreeCount, Slot, Contents;
    assert names[..|names|] == names;
    if |chs| == |names| + 1 { assert chs[..|names| + 1] == chs; }
    if Leads(d, v, names, way) { LeadsLasting(d, v, names, way); }
  }

  /** `fat32_ensure_dir_path`: afterwards the path leads through `way`, and a path that did so before is left alone. */
  method EnsureDirPath(dk: array<bytes>, v: Vol, path: bytes, ghost chs: seq<seq<nat>>)
    returns (r: int, ghost way: seq<seq<nat>>)
    requires NoNul(path) && PathGoes(dk[..], v, PathNames(path), chs) && Disjoint(chs)
    modifies dk
    ensures r == 0 ==> Disjoint(way) && (Lasting(PathNames(path)) <==> Leads(dk[..], v, PathNames(path), way))
    ensures |chs| <= |PathNames(path)| + 1
    ensures |chs| == |PathNames(path)| + 1 ==> r == 0 && dk[..] == old(dk[..]) && way == chs
    ensures |chs| <= |PathNames(path)| ==>
      var d, name := old(dk[..]), PathNames(path)[|chs| - 1];
      && DirOf(d, v, chs[|chs| - 1]) && Altered(d, dk[..], v, chs[|chs| - 1], name, {})
      && if Search(d, v, chs[|chs| - 1], name).At? then r == -2 && dk[..] == d
         else OnDisk(d, v) && r == MakeCode(d, v, chs[|chs| - 1], |PathNames(path)| + 1 - |chs|)
  {
    hide DirOf, Goes, Search, SearchEntry, Step, Leads, PathGoes, Name83, Altered, Way, DirStep, Lasting, Disjoint,
         AllProper, Split, Names, NoNul, Proper, MakeCode;
    ghost var d0 := dk[..];
    ghost var names := PathNames(path);
    PathProper(path);
    var p := SkipDrivePrefix(path);
    var dir := v.rootClus;
    ghost var i := 0;
    WalkSize(d0, v, names, chs);
    WalkStep(d0, v, names, chs, 0);
    WayStart(d0, v, names, chs);
    way := [chs[0]];
    WayDir(d0, d0, v, names, chs, way, 0);
    while true
      invariant p <= |path| && i <= |names| && Names(Split(path, p, 12)) == names[i..]
      invariant Way(d0, dk[..], v, names, chs, way, i) && |way| == i + 1 && |way[i]| > 0 && dir == way[i][0]
      invariant i >= |chs| ==>
        |names| > |chs| - 1 && DirOf(d0, v, chs[|chs| - 1]) && !Search(d0, v, chs[|chs| - 1], names[|chs| - 1]).At?
      decreases |path| - p
    {
      ghost var d := dk[..];
      var more, q, comp := GetComponent(path, p, 12);
      if !more {
        assert i == |names|;
        break;
      }
      NamesTail(path, p, q, comp, names, i);
      p := q;
      var name := MakeName83(comp);
      WayDir(d0, d, v, names, chs, way, i);
      NameProper(names, i);
      var next;
      r, next := EnsureStep(dk, v, dir, name, way[i]);
      if r != 0 {
        WayFailed(d0, d, dk[..], v, names, chs, way, i, -2, r, next);
        return;
      }
      way := WayStep(d0, d, dk[..], v, names, chs, way, i, -2, next);
      dir := next;
      i := i + 1;
      more := PathHasMore(path, p, 12);
      if !more {
        break;
      }
    }
    WayLeads(d0, dk[..], v, names, chs, way);
    r := 0;
  }

  /** A second call finds the directories of the first and changes nothing. */
  method EnsureTwice(dk: array<bytes>, v: Vol, path: bytes, ghost chs: seq<seq<nat>>)
    returns (r: int, again: int, ghost mid: disk)
    requires NoNul(path) && PathGoes(dk[..], v, PathNames(path), chs) && Disjoint(chs) && Lasting(PathNames(path))
    modifies dk
    ensures r == 0 ==> again == 0 && dk[..] == mid
  {
    hide DirOf, Goes, Step, PathGoes, Name83, Altered, Lasting, Disjoint;
    ghost var way;
    r, way := EnsureDirPath(dk, v, path, chs);
    mid, again := dk[..], -1;
    if r == 0 {
      LeadsWalk(dk[..], v, PathNames(path), way);
      again, way := EnsureDirPath(dk, v, path, way);
    }
  }

  lemma LeadsWalk(d: disk, v: Vol, names: seq<bytes>, way: seq<seq<nat>>)
    requires Leads(d, v, names, way)
    ensures PathGoes(d, v, names, way) && |way| == |names| + 1
  {
    hide DirOf, Step;
    LeadsDir(d, v, names, way, |names|);
    assert names[..|names|] == names;
  }

  // ---------------------------------------------------------------- read after write

  /** What has been written is read back: as much of it as one cluster and the reader's buffer hold. */
  method WriteThenRead(dk: array<bytes>, v: Vol, path: bytes, data: bytes, maxBytes: nat, ghost chs: seq<seq<nat>>)
    returns (w: int, r: int, out: bytes)
    requires NoNul(path) && |data| < TWO32 && PathGoes(dk[..], v, Front(PathNames(path)), chs) && Disjoint(chs)
    requires |chs| == |PathNames(path)| ==> Replaceable(dk[..], v, chs, PathNames(path)[|chs| - 1])
    requires Lasting(PathNames(path))
    modifies dk
    ensures w == 0 ==> r == 0 && out == data[..MinOf(|data|, MinOf(ClusterBytes(v), maxBytes))]
  {
    hide DirOf, Goes, Search, SearchEntry, Step, Leads, PathGoes, Name83, Altered, FileCode, Own, Lasting, Replaceable,
         Disjoint, Readable, EntryRead, FileIn;
    ghost var way, target;
    w, way, target := WriteFilePath(dk, v, path, data, chs);
    r, out := -1, [];
    if w == 0 {
      ReadsRight(dk[..], v, PathNames(path), way, Truncated(v, data), [target], maxBytes);
      r, out := ReadFilePath(dk, v, path, maxBytes, way, [target]);
    }
  }
}
