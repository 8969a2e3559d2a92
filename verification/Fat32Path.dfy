/** FAT32 paths of 8.3 names: walking them, and the way a write goes, making the directories that are missing. */
module Fat32Path {
  import opened Bytes
  import opened Components
  import opened Volume
  import opened Bitmap
  import opened FileData
  import opened Keeping
  import opened DirEntries
  import opened Dir83
  import opened Fat32Dir

  // ---------------------------------------------------------------- names and directories

  /** The 8.3 names of the components of a path. */
  function Names(comps: seq<bytes>): (ns: seq<bytes>)
    ensures |ns| == |comps| && forall i | 0 <= i < |ns| :: |ns[i]| == 11 && ns[i] == Name83(comps[i])
  {
    seq(|comps|, i requires 0 <= i < |comps| => Name83(comps[i]))
  }

  function PathNames(path: bytes): (ns: seq<bytes>)
    ensures forall i | 0 <= i < |ns| :: |ns[i]| == 11
  {
    Names(Split(path, PathStart(path), 12))
  }

  /** No entry of such a name counts as deleted. */
  predicate Lasting(names: seq<bytes>) { forall i | 0 <= i < |names| :: |names[i]| == 11 && names[i][0] != DELETED }

  ghost predicate DirOf(d: disk, v: Vol, dcs: seq<nat>)
  {
    |dcs| > 0 && DirAt(d, v, dcs[0], dcs)
  }

  /** The clusters of a directory. */
  ghost function Listing(d: disk, v: Vol, dcs: seq<nat>): (cl: seq<bytes>)
    requires DirOf(d, v, dcs)
    ensures AllEntries(cl) && |cl| == |dcs| && OnDisk(d, v) && AllUsable(v, dcs) && cl == Contents(d, v, dcs)
  {
    DirIs(d, v, dcs[0], dcs);
    Contents(d, v, dcs)
  }

  /** How the search for `name` in a directory ends, and the entry that it finds. */
  ghost function Search(d: disk, v: Vol, dcs: seq<nat>, name: bytes): (f: Found)
    requires DirOf(d, v, dcs)
    ensures f.At? ==> f.i < |Listing(d, v, dcs)| && f.off + 32 <= |Listing(d, v, dcs)[f.i]|
  {
    Find(Listing(d, v, dcs), 0, name)
  }

  ghost function SearchEntry(d: disk, v: Vol, dcs: seq<nat>, name: bytes): (e: bytes)
    requires DirOf(d, v, dcs) && Search(d, v, dcs, name).At?
    ensures |e| == 32
  {
    FoundEntry(Listing(d, v, dcs), Search(d, v, dcs, name))
  }

  /** The directory has a subdirectory `name`. */
  ghost predicate Goes(d: disk, v: Vol, dcs: seq<nat>, name: bytes)
    requires DirOf(d, v, dcs)
  {
    Search(d, v, dcs, name).At? && IsDir(SearchEntry(d, v, dcs, name))
  }

  /** The cluster that an entry leads to: 0 stands for the root. */
  function Target(v: Vol, e: bytes): (cl: nat)
    requires |e| == 32
  {
    if Start(e) == 0 then v.rootClus else Start(e)
  }

  /** The subdirectory `name` of `dcs` is `next`. */
  ghost predicate Step(d: disk, v: Vol, dcs: seq<nat>, name: bytes, next: seq<nat>)
  {
    && DirOf(d, v, dcs) && DirOf(d, v, next) && Goes(d, v, dcs, name)
    && next[0] == Target(v, SearchEntry(d, v, dcs, name))
  }

  /** From the root the names lead through the directories `chs`. */
  ghost predicate Leads(d: disk, v: Vol, names: seq<bytes>, chs: seq<seq<nat>>)
  {
    && |chs| == |names| + 1 && DirOf(d, v, chs[0]) && chs[0][0] == v.rootClus
    && (forall i | 0 <= i < |names| :: Step(d, v, chs[i], names[i], chs[i + 1]))
  }

  /** The names lead through the directories `chs`, and no further. */
  ghost predicate PathGoes(d: disk, v: Vol, names: seq<bytes>, chs: seq<seq<nat>>)
  {
    && 1 <= |chs| <= |names| + 1 && Leads(d, v, names[..|chs| - 1], chs) && DirOf(d, v, chs[|chs| - 1])
    && (|chs| <= |names| ==> !Goes(d, v, chs[|chs| - 1], names[|chs| - 1]))
  }

  lemma LeadsDir(d: disk, v: Vol, names: seq<bytes>, chs: seq<seq<nat>>, i: nat)
    requires Leads(d, v, names, chs) && i < |chs|
    ensures DirOf(d, v, chs[i])
  {
    hide DirOf, Goes, SearchEntry;
    if i > 0 {
      assert Step(d, v, chs[i - 1], names[i - 1], chs[i]);
    }
  }

  lemma DirLen(d: disk, v: Vol, dcs: seq<nat>)
    requires DirOf(d, v, dcs)
    ensures |dcs| > 0
  {
  }

  lemma LeadsStep(d: disk, v: Vol, names: seq<bytes>, chs: seq<seq<nat>>, i: nat)
    requires Leads(d, v, names, chs) && i < |names|
    ensures Step(d, v, chs[i], names[i], chs[i + 1])
  {
  }

  lemma LeadsRoot(d: disk, v: Vol, names: seq<bytes>, chs: seq<seq<nat>>)
    requires Leads(d, v, names, chs)
    ensures |chs| == |names| + 1 && DirOf(d, v, chs[0]) && chs[0][0] == v.rootClus
  {
  }

  lemma StepIs(d: disk, v: Vol, dcs: seq<nat>, name: bytes, next: seq<nat>)
    requires Step(d, v, dcs, name, next)
    ensures DirOf(d, v, dcs) && DirOf(d, v, next) && Goes(d, v, dcs, name) && |next| > 0
    ensures next[0] == Target(v, SearchEntry(d, v, dcs, name))
  {
  }

  /** A walk that has come to directory `i` and goes on. */
  lemma WalkStep(d: disk, v: Vol, names: seq<bytes>, chs: seq<seq<nat>>, i: nat)
    requires PathGoes(d, v, names, chs) && i < |chs|
    ensures DirOf(d, v, chs[i]) && |chs[i]| > 0 && (i == 0 ==> chs[0][0] == v.rootClus)
    ensures i + 1 < |chs| ==> i < |names| && Step(d, v, chs[i], names[i], chs[i + 1]) && Goes(d, v, chs[i], names[i])
    ensures i + 1 == |chs| && i < |names| ==> !Goes(d, v, chs[i], names[i])
  {
    hide DirOf, Goes, SearchEntry, Step;
    var pre := names[..|chs| - 1];
    LeadsRoot(d, v, pre, chs);
    LeadsDir(d, v, pre, chs, i);
    DirLen(d, v, chs[i]);
    if i + 1 < |chs| {
      LeadsStep(d, v, pre, chs, i);
      StepIs(d, v, chs[i], names[i], chs[i + 1]);
    }
  }

  /** A further step. */
  lemma LeadsMore(d: disk, v: Vol, names: seq<bytes>, chs: seq<seq<nat>>, i: nat, next: seq<nat>)
    requires i < |names| && Leads(d, v, names[..i], chs) && |chs| == i + 1 && Step(d, v, chs[i], names[i], next)
    ensures Leads(d, v, names[..i + 1], chs + [next])
  {
    hide DirOf, Step;
    var all := chs + [next];
    forall j | 0 <= j < i + 1
      ensures Step(d, v, all[j], names[..i + 1][j], all[j + 1])
    {
      if j < i { LeadsStep(d, v, names[..i], chs, j); }
    }
  }

  // ---------------------------------------------------------------- reading

  /** The entry of the last name, when the path leads to its directory. */
  ghost predicate Readable(d: disk, v: Vol, dcs: seq<nat>, name: bytes, fcs: seq<nat>, maxBytes: nat)
    requires DirOf(d, v, dcs)
  {
    Search(d, v, dcs, name).At? ==>
      var e := SearchEntry(d, v, dcs, name);
      !IsDir(e) && Start(e) != 0 ==>
        Chain(d, v, Start(e), fcs) && (Size(e) <= |fcs| * ClusterBytes(v) || maxBytes <= |fcs| * ClusterBytes(v))
  }

  /** What reading the entry `e` gives. */
  ghost predicate EntryRead(d: disk, v: Vol, e: bytes, fcs: seq<nat>, maxBytes: nat, r: int, out: bytes)
    requires |e| == 32
  {
    if IsDir(e) then r == -4 && out == []
    else if Start(e) == 0 then r == -1 && out == []
    else
      && r == 0 && OnDisk(d, v) && AllUsable(v, fcs)
      && MinOf(Size(e), maxBytes) <= |ChainBytes(d, v, fcs)| && out == ChainBytes(d, v, fcs)[..MinOf(Size(e), maxBytes)]
  }

  /** The last component. */
  method ReadLast(dk: array<bytes>, v: Vol, dir: nat, name: bytes, maxBytes: nat, ghost dcs: seq<nat>,
                  ghost fcs: seq<nat>)
    returns (r: int, out: bytes)
    requires DirOf(dk[..], v, dcs) && dir == dcs[0] && Readable(dk[..], v, dcs, name, fcs, maxBytes)
    ensures var f := Search(dk[..], v, dcs, name);
      if f.At? then EntryRead(dk[..], v, SearchEntry(dk[..], v, dcs, name), fcs, maxBytes, r, out)
      else r == -2 && out == []
  {
    hide Limit, Geometry, ChainBytes, Chain, Small, Start, Size, IsDir, OnDisk;
    var found, de, lba, s, off := DirFindEntry(dk, v, dir, name, dcs);
    if found != 0 {
      return -2, [];
    }
    if IsDir(de) {
      return -4, [];
    }
    r, out := ReadFileFromCluster(dk, v, Start(de), Size(de), maxBytes, fcs);
  }

  /** One directory of a path: where its entry leads. */
  method ReadStep(dk: array<bytes>, v: Vol, dir: nat, name: bytes, ghost dcs: seq<nat>) returns (r: int, next: nat)
    requires DirOf(dk[..], v, dcs) && dir == dcs[0]
    ensures r == if Goes(dk[..], v, dcs, name) then 0 else if Search(dk[..], v, dcs, name).At? then -3 else -2
    ensures r == 0 ==> next == Target(v, SearchEntry(dk[..], v, dcs, name))
  {
    hide DirAt, Start, IsDir, OnDisk;
    var found, de, lba, s, off := DirFindEntry(dk, v, dir, name, dcs);
    if found != 0 {
      return -2, 0;
    }
    if !IsDir(de) {
      return -3, 0;
    }
    next := Start(de);
    if next == 0 {
      next := v.rootClus;
    }
    r := 0;
  }

  /** `fat32_read_file_path`.  The directories of the path lead through `chs`; the file, if there is one, has the
      clusters `fcs`. */
  method ReadFilePath(dk: array<bytes>, v: Vol, path: bytes, maxBytes: nat, ghost chs: seq<seq<nat>>,
                      ghost fcs: seq<nat>)
    returns (r: int, out: bytes)
    requires PathGoes(dk[..], v, Front(PathNames(path)), chs)
    requires |chs| == |PathNames(path)| ==>
      DirOf(dk[..], v, chs[|chs| - 1]) && Readable(dk[..], v, chs[|chs| - 1], PathNames(path)[|chs| - 1], fcs, maxBytes)
    ensures PathNames(path) == [] ==> r == -5 && out == []
    ensures PathNames(path) != [] ==> DirOf(dk[..], v, chs[|chs| - 1]) && |chs| <= |PathNames(path)|
    ensures PathNames(path) != [] ==>
      var names := PathNames(path); var last := chs[|chs| - 1]; var f := Search(dk[..], v, last, names[|chs| - 1]);
      if !f.At? then r == -2 && out == [] else if |chs| < |names| then r == -3 && out == []
      else EntryRead(dk[..], v, SearchEntry(dk[..], v, last, names[|chs| - 1]), fcs, maxBytes, r, out)
  {
    hide DirOf, Goes, Search, SearchEntry, Step, Leads, PathGoes, Name83, Readable, EntryRead;
    ghost var names := PathNames(path);
    var p := SkipDrivePrefix(path);
    var dir := v.rootClus;
    ghost var i := 0;
    WalkSize(dk[..], v, Front(names), chs);
    WalkStep(dk[..], v, Front(names), chs, 0);
    while true
      invariant p <= |path| && i < |chs| <= |Front(names)| + 1 && i <= |names| && (names != [] ==> i < |names|)
      invariant Names(Split(path, p, 12)) == names[i..]
      invariant DirOf(dk[..], v, chs[i]) && |chs[i]| > 0 && dir == chs[i][0]
      decreases |path| - p
    {
      var more, q, comp := GetComponent(path, p, 12);
      assert names[i..] == [] ==> names == [];
      if !more {
        return -5, [];
      }
      NamesTail(path, p, q, comp, names, i);
      p := q;
      var name := MakeName83(comp);
      more := PathHasMore(path, p, 12);
      WalkStep(dk[..], v, Front(names), chs, i);
      if !more {
        r, out := ReadLast(dk, v, dir, name, maxBytes, chs[i], fcs);
        return;
      }
      assert Front(names)[i] == names[i];
      if i + 1 < |chs| {
        StepIs(dk[..], v, chs[i], names[i], chs[i + 1]);
      }
      r, dir := ReadStep(dk, v, dir, name, chs[i]);
      if r != 0 {
        return r, [];
      }
      i := i + 1;
    }
  }

  lemma WalkSize(d: disk, v: Vol, names: seq<bytes>, chs: seq<seq<nat>>)
    requires PathGoes(d, v, names, chs)
    ensures 1 <= |chs| <= |names| + 1
  {
  }

  /** A component has been taken off a path. */
  lemma NamesTail(path: bytes, p: nat, q: nat, comp: bytes, names: seq<bytes>, i: nat)
    requires p <= |path| && q <= |path| && i < |names| && Names(Split(path, p, 12)) == names[i..]
    requires Split(path, p, 12) != [] && comp == Split(path, p, 12)[0] && Split(path, q, 12) == Split(path, p, 12)[1..]
    ensures names[i] == Name83(comp) && Names(Split(path, q, 12)) == names[i + 1..]
    ensures Split(path, q, 12) != [] <==> i + 1 < |names|
  {
    hide Split, Name83;
    var comps := Split(path, p, 12);
    assert names[i] == names[i..][0];
    assert names[i + 1..] == names[i..][1..];
    assert Names(comps)[1..] == Names(comps[1..]);
  }
}
