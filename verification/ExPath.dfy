/** exFAT paths: following one, and reading the file at its end. */
module ExPath {
  import opened Bytes
  import opened Components
  import opened Volume
  import opened Bitmap
  import opened FileData
  import opened EntrySets
  import opened DirEntries
  import opened ExDir
  import opened SetBuffer
  import opened ExDisk

  /** The components of a path, as long as the buffer for one takes them. */
  function PathNames(path: bytes): (ns: seq<bytes>)
  {
    Split(path, PathStart(path), 255)
  }

  /** Names as they come out of a path. */
  predicate Proper(name: bytes) { NoNul(name) && |name| <= 255 }

  predicate AllProper(names: seq<bytes>) { forall i | 0 <= i < |names| :: Proper(names[i]) }

  lemma {:induction false} SplitProper(path: bytes, p: nat)
    requires p <= |path| && NoNul(path)
    ensures AllProper(Split(path, p, 255))
    decreases |path| - p
  {
    var q := SkipSlashes(path, p);
    if q < |path| {
      SplitProper(path, NextSlash(path, q));
    }
  }

  lemma PathProper(path: bytes)
    requires NoNul(path)
    ensures AllProper(PathNames(path)) && AllProper(Front(PathNames(path)))
  {
    hide Split, Proper;
    SplitProper(path, PathStart(path));
  }

  // ---------------------------------------------------------------- one step

  /** How the search for `name` in a directory ends. */
  ghost function Search(d: disk, v: Vol, dcs: seq<nat>, name: bytes): (f: Found)
    requires DirX(d, v, dcs)
  {
    Find(Listing(d, v, dcs), 0, Key(name))
  }

  /** What it finds. */
  ghost function Record(d: disk, v: Vol, dcs: seq<nat>, name: bytes): (info: Info)
    requires DirX(d, v, dcs) && Search(d, v, dcs, name).At?
  {
    var f := Search(d, v, dcs, name);
    ParsedAt(Listing(d, v, dcs)[f.i], f.off).1
  }

  /** The search comes to no set that is too long for its buffer. */
  ghost predicate SlimDir(d: disk, v: Vol, dcs: seq<nat>, name: bytes)
    requires DirX(d, v, dcs)
  {
    Slim(Listing(d, v, dcs), Key(name))
  }

  /** Nor do the searches for the names of a path in the directories `chs` on it. */
  ghost predicate SlimPath(d: disk, v: Vol, names: seq<bytes>, chs: seq<seq<nat>>)
  {
    forall i | 0 <= i < |chs| && i < |names| :: DirX(d, v, chs[i]) && SlimDir(d, v, chs[i], names[i])
  }

  lemma SlimOnPath(d: disk, v: Vol, names: seq<bytes>, chs: seq<seq<nat>>, i: nat)
    requires SlimPath(d, v, names, chs) && i < |chs| && i < |names|
    ensures DirX(d, v, chs[i]) && SlimDir(d, v, chs[i], names[i])
  {
    hide DirX, SlimDir;
  }

  /** The directory has a subdirectory `name`. */
  ghost predicate Goes(d: disk, v: Vol, dcs: seq<nat>, name: bytes)
    requires DirX(d, v, dcs)
  {
    Search(d, v, dcs, name).At? && Record(d, v, dcs, name).isDir
  }

  /** And that is `next`. */
  ghost predicate Step(d: disk, v: Vol, dcs: seq<nat>, name: bytes, next: seq<nat>)
  {
    DirX(d, v, dcs) && DirX(d, v, next) && Goes(d, v, dcs, name) && next[0] == Record(d, v, dcs, name).cluster
  }

  /** From the root the names lead through the directories `chs`. */
  ghost predicate Leads(d: disk, v: Vol, names: seq<bytes>, chs: seq<seq<nat>>)
  {
    && |chs| == |names| + 1 && DirX(d, v, chs[0]) && chs[0][0] == v.rootClus
    && (forall i | 0 <= i < |names| :: Step(d, v, chs[i], names[i], chs[i + 1]))
  }

  /** The names lead through the directories `chs`, and no further. */
  ghost predicate Walk(d: disk, v: Vol, names: seq<bytes>, chs: seq<seq<nat>>)
  {
    && 1 <= |chs| <= |names| + 1 && Leads(d, v, names[..|chs| - 1], chs) && DirX(d, v, chs[|chs| - 1])
    && (|chs| <= |names| ==> !Goes(d, v, chs[|chs| - 1], names[|chs| - 1]))
  }

  lemma LeadsDir(d: disk, v: Vol, names: seq<bytes>, chs: seq<seq<nat>>, i: nat)
    requires Leads(d, v, names, chs) && i < |chs|
    ensures DirX(d, v, chs[i])
  {
    hide DirX, Goes, Record;
    if i > 0 {
      assert Step(d, v, chs[i - 1], names[i - 1], chs[i]);
    }
  }

  lemma DirLen(d: disk, v: Vol, dcs: seq<nat>)
    requires DirX(d, v, dcs)
    ensures |dcs| > 0
  {
  }

  lemma LeadsStep(d: disk, v: Vol, names: seq<bytes>, chs: seq<seq<nat>>, i: nat)
    requires Leads(d, v, names, chs) && i < |names|
    ensures Step(d, v, chs[i], names[i], chs[i + 1])
  {
  }

  lemma LeadsRoot(d: disk, v: Vol, names: seq<bytes>, chs: seq<seq<nat>>)
    requires Leads(d, v, names, chs)
    ensures |chs| == |names| + 1 && DirX(d, v, chs[0]) && chs[0][0] == v.rootClus
  {
  }

  lemma StepIs(d: disk, v: Vol, dcs: seq<nat>, name: bytes, next: seq<nat>)
    requires Step(d, v, dcs, name, next)
    ensures DirX(d, v, dcs) && DirX(d, v, next) && Goes(d, v, dcs, name) && |next| > 0
    ensures next[0] == Record(d, v, dcs, name).cluster
  {
  }

  lemma WalkSize(d: disk, v: Vol, names: seq<bytes>, chs: seq<seq<nat>>)
    requires Walk(d, v, names, chs)
    ensures 1 <= |chs| <= |names| + 1
  {
  }

  /** A walk that has come to directory `i` and goes on. */
  lemma WalkStep(d: disk, v: Vol, names: seq<bytes>, chs: seq<seq<nat>>, i: nat)
    requires Walk(d, v, names, chs) && i < |chs|
    ensures DirX(d, v, chs[i]) && |chs[i]| > 0 && (i == 0 ==> chs[0][0] == v.rootClus)
    ensures i + 1 < |chs| ==> i < |names| && Step(d, v, chs[i], names[i], chs[i + 1]) && Goes(d, v, chs[i], names[i])
    ensures i + 1 == |chs| && i < |names| ==> !Goes(d, v, chs[i], names[i])
  {
    hide DirX, Goes, Record, Step;
    var pre := names[..|chs| - 1];
    LeadsRoot(d, v, pre, chs);
    LeadsDir(d, v, pre, chs, i);
    DirLen(d, v, chs[i]);
    if i + 1 < |chs| {
      LeadsStep(d, v, pre, chs, i);
      StepIs(d, v, chs[i], names[i], chs[i + 1]);
    }
  }

  /** A further step. */
  lemma LeadsMore(d: disk, v: Vol, names: seq<bytes>, chs: seq<seq<nat>>, i: nat, next: seq<nat>)
    requires i < |names| && Leads(d, v, names[..i], chs) && |chs| == i + 1 && Step(d, v, chs[i], names[i], next)
    ensures Leads(d, v, names[..i + 1], chs + [next])
  {
    hide DirX, Step;
    var all := chs + [next];
    forall j | 0 <= j < i + 1
      ensures Step(d, v, all[j], names[..i + 1][j], all[j + 1])
    {
      if j < i { LeadsStep(d, v, names[..i], chs, j); }
    }
  }

  lemma NamesTail(path: bytes, p: nat, q: nat, comp: bytes, names: seq<bytes>, i: nat)
    requires p <= |path| && q <= |path| && i < |names| && Split(path, p, 255) == names[i..]
    requires Split(path, p, 255) != [] && comp == Split(path, p, 255)[0]
    requires Split(path, q, 255) == Split(path, p, 255)[1..]
    ensures names[i] == comp && Split(path, q, 255) == names[i + 1..]
    ensures Split(path, q, 255) != [] <==> i + 1 < |names|
  {
    hide Split;
    assert names[i] == names[i..][0];
    assert names[i + 1..] == names[i..][1..];
  }

  lemma NameProper(names: seq<bytes>, i: nat)
    requires AllProper(names) && i < |names|
    ensures Proper(names[i]) && NoNul(names[i]) && CutTo(names[i], 255) == names[i]
  {
  }

  // ---------------------------------------------------------------- following a path

  /** `exfat_follow_path`; for a path without components it returns 0 and no record. */
  method FollowPath(dk: array<bytes>, v: Vol, path: bytes, ghost chs: seq<seq<nat>>) returns (r: int, info: Info)
    requires NoNul(path) && Walk(dk[..], v, Front(PathNames(path)), chs) && SlimPath(dk[..], v, PathNames(path), chs)
    ensures PathNames(path) == [] ==> r == 0
    ensures PathNames(path) != [] ==> DirX(dk[..], v, chs[|chs| - 1]) && |chs| <= |PathNames(path)|
    ensures PathNames(path) != [] ==>
      var names := PathNames(path); var last, name := chs[|chs| - 1], names[|chs| - 1];
      match Search(dk[..], v, last, name)
      case Ended => r == -2
      case Exhausted => r == -3
      case At(_, _) => if |chs| < |names| then r == -3 else r == 0 && info == Record(dk[..], v, last, name)
  {
    hide DirX, Step, Leads, Walk, Split, Key, ParsedAt, Proper, NoNul, Listing, Slim, SlimPath;
    ghost var names := PathNames(path);
    PathProper(path);
    var p := SkipDrivePrefix(path);
    var dir := v.rootClus;
    info := Info([], 0, 0, false);
    ghost var i := 0;
    WalkSize(dk[..], v, Front(names), chs);
    WalkStep(dk[..], v, Front(names), chs, 0);
    while true
      invariant p <= |path| && i < |chs| <= |Front(names)| + 1 && i <= |names| && (names != [] ==> i < |names|)
      invariant Split(path, p, 255) == names[i..]
      invariant DirX(dk[..], v, chs[i]) && |chs[i]| > 0 && dir == chs[i][0]
      decreases |path| - p
    {
      var more, q, comp := GetComponent(path, p, 255);
      assert names[i..] == [] ==> names == [];
      if !more {
        return 0, info;
      }
      NamesTail(path, p, q, comp, names, i);
      NameProper(names, i);
      p := q;
      more := PathHasMore(path, p, 255);
      WalkStep(dk[..], v, Front(names), chs, i);
      if more {
        assert Front(names)[i] == names[i];
        if i + 1 < |chs| {
          StepIs(dk[..], v, chs[i], names[i], chs[i + 1]);
        }
      }
      SlimOnPath(dk[..], v, names, chs, i);
      var cl, off;
      r, info, cl, off := FindInDir(dk, v, dir, comp, chs[i]);
      if r != 0 {
        return;
      }
      if !more {
        return;
      }
      if !info.isDir {
        return -3, info;
      }
      dir := info.cluster;
      i := i + 1;
    }
  }

  // ---------------------------------------------------------------- reading

  /** The file that a record describes can be read: its clusters are `fcs`. */
  ghost predicate Readable(d: disk, v: Vol, info: Info, fcs: seq<nat>, maxBytes: nat)
  {
    !info.isDir && info.cluster != 0 ==>
      Chain(d, v, info.cluster, fcs) && (info.size <= |fcs| * ClusterBytes(v) || maxBytes <= |fcs| * ClusterBytes(v))
  }

  /** The size as the reader takes it. */
  function Size32(size: nat): (n: nat) { if size > 0xFFFF_FFFF then 0xFFFF_FFFF else size }

  /** What reading gives. */
  ghost predicate InfoRead(d: disk, v: Vol, info: Info, fcs: seq<nat>, maxBytes: nat, r: int, out: bytes)
  {
    if info.isDir then r == -4 && out == []
    else if info.cluster == 0 then r == -1 && out == []
    else
      && r == 0 && OnDisk(d, v) && AllUsable(v, fcs)
      && MinOf(Size32(info.size), maxBytes) <= |ChainBytes(d, v, fcs)|
      && out == ChainBytes(d, v, fcs)[..MinOf(Size32(info.size), maxBytes)]
  }

  /** `exfat_read_file_path`, for paths with a component. */
  method ReadFilePath(dk: array<bytes>, v: Vol, path: bytes, maxBytes: nat, ghost chs: seq<seq<nat>>,
                      ghost fcs: seq<nat>)
    returns (r: int, out: bytes)
    requires NoNul(path) && PathNames(path) != [] && Walk(dk[..], v, Front(PathNames(path)), chs)
    requires SlimPath(dk[..], v, PathNames(path), chs)
    requires |chs| == |PathNames(path)| ==> DirX(dk[..], v, chs[|chs| - 1])
    requires |chs| == |PathNames(path)| && Search(dk[..], v, chs[|chs| - 1], PathNames(path)[|chs| - 1]).At? ==>
      Readable(dk[..], v, Record(dk[..], v, chs[|chs| - 1], PathNames(path)[|chs| - 1]), fcs, maxBytes)
    ensures DirX(dk[..], v, chs[|chs| - 1]) && |chs| <= |PathNames(path)|
    ensures var names := PathNames(path); var last, name := chs[|chs| - 1], names[|chs| - 1];
      match Search(dk[..], v, last, name)
      case Ended => r == -2 && out == []
      case Exhausted => r == -3 && out == []
      case At(_, _) =>
        if |chs| < |names| then r == -3 && out == []
        else InfoRead(dk[..], v, Record(dk[..], v, last, name), fcs, maxBytes, r, out)
  {
    hide DirX, Leads, Walk, Split, Key, ParsedAt, NoNul, Listing, Chain, ChainBytes, OnDisk, Search, Record, SlimPath;
    var info;
    r, info := FollowPath(dk, v, path, chs);
    out := [];
    if r != 0 {
      return;
    }
    if info.isDir {
      return -4, [];
    }
    var size32 := if info.size > 0xFFFF_FFFF then 0xFFFF_FFFF else info.size;
    r, out := ReadFileFromCluster(dk, v, info.cluster, size32, maxBytes, fcs);
  }
}
