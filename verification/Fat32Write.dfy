/** Writing a file under a FAT32 path and making directories: what can be read afterwards, and what stays. */
module Fat32Write {
  import opened Bytes
  import opened Volume
  import opened Allocator
  import opened Keeping
  import opened DirEntries
  import opened Dir83
  import opened Fat32Dir
  import opened Fat32File
  import opened Fat32Path

  // ---------------------------------------------------------------- directories that a step leaves alone

  /** The search in a directory that a step has not touched. */
  lemma SameListing(d: disk, d': disk, v: Vol, named: set<nat>, dcs: seq<nat>)
    requires DirOf(d, v, dcs) && Keeps(d, d', v, named) && Clear(dcs, named)
    ensures DirOf(d', v, dcs) && Listing(d', v, dcs) == Listing(d, v, dcs)
  {
    hide DirAt, Keeps, Contents;
    KeptDir(d, d', v, named, dcs[0], dcs);
  }

  lemma StepKept(d: disk, d': disk, v: Vol, named: set<nat>, dcs: seq<nat>, name: bytes, next: seq<nat>)
    requires Step(d, v, dcs, name, next) && Keeps(d, d', v, named) && Clear(dcs, named) && DirOf(d', v, next)
    ensures Step(d', v, dcs, name, next)
  {
    hide DirAt, Keeps, Find, IsDir, Target;
    SameListing(d, d', v, named, dcs);
  }

  /** A walk survives a step that touches at most its last directory. */
  lemma LeadsKept(d: disk, d': disk, v: Vol, names: seq<bytes>, chs: seq<seq<nat>>, named: set<nat>)
    requires Leads(d, v, names, chs) && Keeps(d, d', v, named) && DirOf(d', v, chs[|names|])
    requires forall j | 0 <= j < |names| :: Clear(chs[j], named)
    ensures Leads(d', v, names, chs)
  {
    hide DirOf, Keeps, Step, Clear;
    forall j | 0 <= j < |names|
      ensures DirOf(d', v, chs[j]) && Step(d', v, chs[j], names[j], chs[j + 1])
    {
      LeadsDir(d, v, names, chs, j);
      SameListing(d, d', v, named, chs[j]);
      if j + 1 < |names| {
        LeadsDir(d, v, names, chs, j + 1);
        SameListing(d, d', v, named, chs[j + 1]);
      }
      StepKept(d, d', v, named, chs[j], names[j], chs[j + 1]);
    }
    LeadsRoot(d, v, names, chs);
  }

  // ---------------------------------------------------------------- what a write touches

  /** Nothing in use has changed but the clusters `extra` and, in the directory `dcs`, at most one entry, called
      `name`. */
  ghost predicate Altered(d: disk, d': disk, v: Vol, dcs: seq<nat>, name: bytes, extra: set<nat>)
  {
    && DirOf(d, v, dcs) && DirOf(d', v, dcs) && Keeps(d, d', v, (SetOf(dcs)) + extra)
    && (Listing(d', v, dcs) == Listing(d, v, dcs) || OneEntry(d, d', v, dcs, name))
  }

  lemma TouchedSelf(d: disk, v: Vol, dcs: seq<nat>, name: bytes, extra: set<nat>)
    requires DirOf(d, v, dcs)
    ensures Altered(d, d, v, dcs, name, extra)
  {
    hide Keeps, DirAt, OneEntry, Contents, OnDisk;
    DirIs(d, v, dcs[0], dcs);
    KeepsAll(d, v);
    KeepsMore(d, d, v, {}, SetOf(dcs) + extra);
  }

  /** A further step that leaves the directory alone. */
  lemma TouchedThen(d: disk, d1: disk, d2: disk, v: Vol, dcs: seq<nat>, name: bytes, extra: set<nat>, named: set<nat>)
    requires Altered(d, d1, v, dcs, name, extra) && Keeps(d1, d2, v, named) && Clear(dcs, named)
    requires forall c | c in named && InUse(d, v, c) :: c in extra
    ensures Altered(d, d2, v, dcs, name, extra)
  {
    hide Keeps, InUse, DirAt, EntryPut, Contents;
    SameListing(d1, d2, v, named, dcs);
    KeepsThen(d, d1, d2, v, (SetOf(dcs)) + extra, named, (SetOf(dcs)) + extra);
    if OneEntry(d, d1, v, dcs, name) {
      OneEntryKept(d, d1, d2, v, dcs, name);
    }
  }

  lemma OneEntryKept(d: disk, d1: disk, d2: disk, v: Vol, dcs: seq<nat>, name: bytes)
    requires OneEntry(d, d1, v, dcs, name) && DirOf(d1, v, dcs) && DirOf(d2, v, dcs)
    requires Listing(d2, v, dcs) == Listing(d1, v, dcs)
    ensures OneEntry(d, d2, v, dcs, name)
  {
    hide EntryPut, DirAt, Cluster;
    DirIs(d2, v, dcs[0], dcs);
    var i: nat, p: nat, e :| EntryPut(Contents(d, v, dcs), Contents(d1, v, dcs), name, i, p, e);
    assert EntryPut(Contents(d, v, dcs), Contents(d2, v, dcs), name, i, p, e);
  }

  /** A name that is neither an end mark nor that of an entry about the directory itself. */
  predicate Proper(name: bytes) { |name| == 11 && name[0] != 0 && name[0] != DOT }

  predicate AllProper(names: seq<bytes>) { forall i | 0 <= i < |names| :: Proper(names[i]) }

  lemma MadeEntry(name: bytes, newCl: nat)
    requires Proper(name) && 0 < newCl < TWO32
    ensures var e := NewEntry(name, DIR, newCl, 0);
      e[0] == name[0] && e[11] != LONG_NAME && e[..11] == name && IsDir(e) && Start(e) == newCl
  {
    hide NewEntry, Start;
    NewEntryIs(name, DIR, newCl, 0);
    var e := NewEntry(name, DIR, newCl, 0);
    assert e[..11][0] == e[0];
  }

  /** A directory has been made: one entry is new. */
  lemma MadeTouched(d: disk, d': disk, v: Vol, dcs: seq<nat>, name: bytes, newCl: nat)
    requires DirMade(d, d', v, dcs, name, newCl) && DirOf(d, v, dcs) && !Search(d, v, dcs, name).At? && Proper(name)
    ensures Altered(d, d', v, dcs, name, {})
  {
    hide Keeps, DirAt, NewEntry, NewDir, Put, Entry, Limit, WithEntry, Cluster, Find, Slot, Start, IsDir, Geometry;
    SmallNumber(d, v, newCl);
    MadeEntry(name, newCl);
    var all := Contents(d, v, dcs);
    var f := Slot(all, 0);
    assert EntryPut(all, Contents(d', v, dcs), name, f.i, f.off, NewEntry(name, DIR, newCl, 0));
    KeepsMore(d, d', v, {dcs[f.i]}, (SetOf(dcs)) + {});
  }

  /** And it is found. */
  lemma MadeStep(d: disk, d': disk, v: Vol, dcs: seq<nat>, name: bytes, newCl: nat)
    requires DirMade(d, d', v, dcs, name, newCl) && DirOf(d, v, dcs) && !Search(d, v, dcs, name).At? && Proper(name)
    requires name[0] != DELETED
    ensures Step(d', v, dcs, name, [newCl])
  {
    hide Keeps, DirAt, NewEntry, NewDir, Put, Entry, Limit, WithEntry, Cluster, Find, Slot, Start, IsDir, Geometry;
    SmallNumber(d, v, newCl);
    MadeEntry(name, newCl);
    var all := Contents(d, v, dcs);
    var f := Slot(all, 0);
    var e := NewEntry(name, DIR, newCl, 0);
    FoundNew(all, 0, f.i, f.off, e, name);
    WithEntryAt(all, f.i, f.off, e);
  }

  lemma WithEntryAt(cl: seq<bytes>, i: nat, p: nat, e: bytes)
    requires AllEntries(cl) && i < |cl| && p + 32 <= |cl[i]| && |e| == 32
    ensures p + 32 <= |WithEntry(cl, i, p, e)[i]| && EntryOf(WithEntry(cl, i, p, e)[i], p) == e
  {
    hide Put;
    PutInside(cl[i], p, e);
  }

  // ---------------------------------------------------------------- one directory of the path

  /** The step to the subdirectory `name`, which is made if there is none; `bad` is the result for a plain file. */
  ghost predicate DirStep(d: disk, d': disk, v: Vol, dcs: seq<nat>, name: bytes, bad: int, r: int, next: nat)
  {
    && DirOf(d, v, dcs) && v.secPerClus > 0 && OnDisk(d, v)
    && if Search(d, v, dcs, name).At? then
      && d' == d
      && if IsDir(SearchEntry(d, v, dcs, name)) then r == 0 && next == Target(v, SearchEntry(d, v, dcs, name))
         else r == bad
    else
      && r == (if FirstFree(Fat(d, v), FatScan(v), 2) == 0 then -3
               else if Slot(Listing(d, v, dcs), 0).At? then 0 else -5)
      && (r == -3 ==> d' == d) && (r == -5 ==> Keeps(d, d', v, {})) && (r == 0 ==> DirMade(d, d', v, dcs, name, next))
  }

  /** One round of `fat32_ensure_dir_path`. */
  method EnsureStep(dk: array<bytes>, v: Vol, dir: nat, name: bytes, ghost dcs: seq<nat>) returns (r: int, next: nat)
    requires DirOf(dk[..], v, dcs) && dir == dcs[0] && |name| == 11 && dir < TWO32
    modifies dk
    ensures DirStep(old(dk[..]), dk[..], v, dcs, name, -2, r, next)
  {
    hide DirAt, Start, IsDir, OnDisk, Keeps, DirMade, FirstFree, Slot, Find, Fat, FatScan, Contents;
    r, next := EnsureDirectory(dk, v, dir, name, dcs);
    if r == 0 && next == 0 {
      next := v.rootClus;
    }
  }

  /** One round of `fat32_write_file_path` for a directory. */
  method WriteStep(dk: array<bytes>, v: Vol, dir: nat, name: bytes, ghost dcs: seq<nat>) returns (r: int, next: nat)
    requires DirOf(dk[..], v, dcs) && dir == dcs[0] && |name| == 11 && dir < TWO32
    modifies dk
    ensures DirStep(old(dk[..]), dk[..], v, dcs, name, -3, r, next)
  {
    hide DirAt, Start, IsDir, OnDisk, Keeps, DirMade, FirstFree, Slot, Find, Fat, FatScan, Contents;
    var found, de, lba, s, off := DirFindEntry(dk, v, dir, name, dcs);
    if found != 0 {
      r, next := EnsureDirectory(dk, v, dir, name, dcs);
      return;
    }
    SecOf(dk[..], v, dcs);
    if !IsDir(de) {
      return -3, 0;
    }
    next := Start(de);
    if next == 0 {
      next := v.rootClus;
    }
    r := 0;
  }

  lemma SecOf(d: disk, v: Vol, dcs: seq<nat>)
    requires DirOf(d, v, dcs)
    ensures v.secPerClus > 0 && OnDisk(d, v) && 2 <= dcs[0] < TWO32 && Small(d, v)
  {
    hide Small, Limit, Entry;
    DirSmall(d, v, dcs[0], dcs, 0);
    SmallOn(d, v);
    SmallNumber(d, v, dcs[0]);
  }

  // ---------------------------------------------------------------- the way so far

  /** The directories passed: those of `chs` that exist, then new ones.  Unless one of the names counts as deleted, the
      names lead through them. */
  ghost predicate Way(d0: disk, d: disk, v: Vol, names: seq<bytes>, chs: seq<seq<nat>>, way: seq<seq<nat>>, i: nat)
  {
    && i <= |names| && |way| == i + 1 && |chs| > 0 && Disjoint(way) && AllDirs(d, v, way) && AllProper(names)
    && (i < |chs| ==> d == d0 && way == chs[..i + 1])
    && (i >= |chs| ==>
      && way[..|chs|] == chs && Made(d0, d, v, way, |chs|, i)
      && Altered(d0, d, v, chs[|chs| - 1], names[|chs| - 1], {}) && Spent(d0, d, v, chs[|chs| - 1], i + 1 - |chs|))
    && (Lasting(names[..i]) ==> Leads(d, v, names[..i], way))
  }

  /** So many clusters have been taken since `d0`, whose directory `dcs` had a free entry. */
  ghost predicate Spent(d0: disk, d: disk, v: Vol, dcs: seq<nat>, n: nat)
  {
    DirOf(d0, v, dcs) && OnDisk(d, v) && OnDisk(d0, v) && Slot(Listing(d0, v, dcs), 0).At?
    && FreeCount(d, v) + n == FreeCount(d0, v)
  }

  ghost predicate AllDirs(d: disk, v: Vol, way: seq<seq<nat>>) { forall j | 0 <= j < |way| :: DirOf(d, v, way[j]) }

  /** The directories from number `k` to the last one, number `i`, are new, and that one is empty. */
  ghost predicate Made(d0: disk, d: disk, v: Vol, way: seq<seq<nat>>, k: nat, i: nat)
  {
    && 0 < k <= i < |way| && DirOf(d, v, way[i])
    && (forall j | k <= j <= i :: |way[j]| == 1 && Usable(v, way[j][0]) && !InUse(d0, v, way[j][0]))
    && |way[i - 1]| > 0 && Listing(d, v, way[i]) == [NewDir(v, way[i][0], way[i - 1][0])]
  }

  lemma WayStart(d: disk, v: Vol, names: seq<bytes>, chs: seq<seq<nat>>)
    requires PathGoes(d, v, names, chs) && Disjoint(chs) && AllProper(names)
    ensures Way(d, d, v, names, chs, [chs[0]], 0)
  {
    hide DirOf, Step, Apart, Lasting, Goes;
    WalkStep(d, v, names, chs, 0);
    WalkSize(d, v, names, chs);
    assert chs[..1] == [chs[0]];
  }

  lemma WayDir(d0: disk, d: disk, v: Vol, names: seq<bytes>, chs: seq<seq<nat>>, way: seq<seq<nat>>, i: nat)
    requires Way(d0, d, v, names, chs, way, i)
    ensures |way| == i + 1 && DirOf(d, v, way[i]) && |way[i]| > 0 && 2 <= way[i][0] < TWO32 && i <= |names|
  {
    hide DirAt, Altered, Made, Leads, Lasting, Proper, Apart;
    assert DirOf(d, v, way[i]);
    SecOf(d, v, way[i]);
  }

  /** In a directory just made nothing is found. */
  lemma MadeEmpty(d0: disk, d: disk, v: Vol, way: seq<seq<nat>>, k: nat, i: nat, name: bytes)
    requires Made(d0, d, v, way, k, i) && Proper(name)
    ensures DirOf(d, v, way[i]) && !Search(d, v, way[i], name).At? && Slot(Listing(d, v, way[i]), 0).At?
  {
    hide DirAt, NewDir, InUse, Contents;
    SecOf(d, v, way[i]);
    SmallOn(d, v);
    NewDirEmpty(v, way[i][0], way[i - 1][0], name);
  }

  /** One more directory that was there. */
  lemma WayOld(d0: disk, d: disk, v: Vol, names: seq<bytes>, chs: seq<seq<nat>>, way: seq<seq<nat>>, i: nat)
    requires Way(d0, d, v, names, chs, way, i) && i + 1 < |chs| && PathGoes(d0, v, names, chs) && Disjoint(chs)
    ensures Way(d0, d, v, names, chs, way + [chs[i + 1]], i + 1)
  {
    hide Step, Apart, DirOf, Proper, Goes, SearchEntry;
    WalkStep(d0, v, names, chs, i);
    StepIs(d0, v, chs[i], names[i], chs[i + 1]);
    assert chs[..i + 2] == chs[..i + 1] + [chs[i + 1]];
    DisjointPrefix(chs, i + 2);
    WalkStep(d0, v, names, chs, 0);
    forall j | 0 <= j < i + 1
      ensures Step(d0, v, chs[j], names[j], chs[j + 1])
    {
      WalkStep(d0, v, names, chs, j);
    }
  }

  /** A new directory shares no cluster with the others, and was not in use at the start. */
  lemma NewApart(d: disk, v: Vol, dcs: seq<nat>, newCl: nat)
    requires DirOf(d, v, dcs) && OnDisk(d, v) && Usable(v, newCl) && Entry(d, v, newCl) == 0
    ensures newCl !in dcs && Apart(dcs, [newCl]) && Clear(dcs, {newCl})
  {
    hide DirAt, Entry, Limit;
    NewNotIn(d, v, dcs, newCl);
  }

  lemma NotInUseBefore(d0: disk, d: disk, v: Vol, dcs: seq<nat>, name: bytes, newCl: nat)
    requires Altered(d0, d, v, dcs, name, {}) && OnDisk(d, v) && Usable(v, newCl) && Entry(d, v, newCl) == 0
    ensures !InUse(d0, v, newCl)
  {
    hide DirAt, Entry, Limit, OneEntry, Contents;
    NewNotIn(d, v, dcs, newCl);
    assert newCl !in (SetOf(dcs)) + {};
  }

  /** What a new directory is. */
  lemma MadeIsDir(d: disk, d': disk, v: Vol, dcs: seq<nat>, name: bytes, newCl: nat)
    requires DirMade(d, d', v, dcs, name, newCl) && DirOf(d, v, dcs)
    ensures DirOf(d', v, dcs) && DirOf(d', v, [newCl]) && Usable(v, newCl) && OnDisk(d, v) && Entry(d, v, newCl) == 0
    ensures Listing(d', v, [newCl]) == [NewDir(v, newCl, dcs[0])] && Keeps(d, d', v, SetOf(dcs))
  {
    hide Keeps, DirAt, NewEntry, NewDir, Entry, Limit, WithEntry, Cluster, Find, Slot, Geometry;
    var f := Slot(Contents(d, v, dcs), 0);
    KeepsMore(d, d', v, {dcs[f.i]}, SetOf(dcs));
  }

  /** All the directories are there after one has been made in the last of them. */
  lemma DirsMore(d: disk, d': disk, v: Vol, way: seq<seq<nat>>, name: bytes, newCl: nat)
    requires AllDirs(d, v, way) && Disjoint(way) && |way| > 0 && DirMade(d, d', v, way[|way| - 1], name, newCl)
    ensures AllDirs(d', v, way + [[newCl]]) && Disjoint(way + [[newCl]])
    ensures forall j | 0 <= j < |way| - 1 :: Clear(way[j], SetOf(way[|way| - 1]))
  {
    hide DirOf, DirMade, Keeps, Entry;
    var last := way[|way| - 1];
    assert DirOf(d, v, last);
    MadeIsDir(d, d', v, last, name, newCl);
    forall j | 0 <= j < |way|
      ensures DirOf(d', v, way[j]) && Apart(way[j], [newCl])
    {
      NewApart(d, v, way[j], newCl);
      if j < |way| - 1 {
        assert Apart(way[j], last);
        SameListing(d, d', v, SetOf(last), way[j]);
      }
    }
  }

  /** One more directory that has been made. */
  lemma WayNew(d0: disk, d: disk, d': disk, v: Vol, names: seq<bytes>, chs: seq<seq<nat>>, way: seq<seq<nat>>, i: nat,
               newCl: nat)
    requires Way(d0, d, v, names, chs, way, i) && i < |names| && i + 1 >= |chs|
    requires DirOf(d, v, way[i]) && !Search(d, v, way[i], names[i]).At? && DirMade(d, d', v, way[i], names[i], newCl)
    ensures Way(d0, d', v, names, chs, way + [[newCl]], i + 1)
  {
    hide DirOf, DirMade, Keeps, Entry, Search, Apart, Leads, Made, Altered, Clear, AllDirs, Spent;
    WaySpent(d0, d, d', v, names, chs, way, i, newCl);
    DirsMore(d, d', v, way, names[i], newCl);
    WayTouched(d0, d, d', v, names, chs, way, i, newCl);
    WayMade(d0, d, d', v, names, chs, way, i, newCl);
    assert Proper(names[i]);
    if Lasting(names[..i + 1]) {
      assert names[..i + 1][i] == names[i];
      assert forall j | 0 <= j < i :: names[..i][j] == names[..i + 1][j];
      MadeIsDir(d, d', v, way[i], names[i], newCl);
      LeadsKept(d, d', v, names[..i], way, SetOf(way[i]));
      MadeStep(d, d', v, way[i], names[i], newCl);
      LeadsMore(d', v, names, way, i, [newCl]);
    }
    assert (way + [[newCl]])[..|chs|] == chs;
  }

  lemma WayTouched(d0: disk, d: disk, d': disk, v: Vol, names: seq<bytes>, chs: seq<seq<nat>>, way: seq<seq<nat>>,
                   i: nat, newCl: nat)
    requires Way(d0, d, v, names, chs, way, i) && i < |names| && i + 1 >= |chs|
    requires DirOf(d, v, way[i]) && !Search(d, v, way[i], names[i]).At? && DirMade(d, d', v, way[i], names[i], newCl)
    ensures Altered(d0, d', v, chs[|chs| - 1], names[|chs| - 1], {}) && Usable(v, newCl) && !InUse(d0, v, newCl)
  {
    hide DirOf, DirMade, Keeps, Entry, Search, Leads, Altered, Lasting, AllDirs, OnDisk;
    var k := |chs| - 1;
    MadeIsDir(d, d', v, way[i], names[i], newCl);
    assert Proper(names[i]);
    if i == k {
      assert way[i] == chs[..i + 1][i];
      MadeTouched(d, d', v, chs[k], names[k], newCl);
      NotInUse(d, v, newCl);
    } else {
      assert way[k] == way[..|chs|][k];
      assert Apart(way[k], way[i]);
      assert way[i] == [way[i][0]];
      TouchedThen(d0, d, d', v, chs[k], names[k], {}, SetOf(way[i]));
      NotInUseBefore(d0, d, v, chs[k], names[k], newCl);
    }
  }

  lemma WaySpent(d0: disk, d: disk, d': disk, v: Vol, names: seq<bytes>, chs: seq<seq<nat>>, way: seq<seq<nat>>, i: nat,
                 newCl: nat)
    requires Way(d0, d, v, names, chs, way, i) && i < |names| && i + 1 >= |chs|
    requires DirOf(d, v, way[i]) && DirMade(d, d', v, way[i], names[i], newCl)
    ensures Spent(d0, d', v, chs[|chs| - 1], i + 2 - |chs|)
  {
    hide DirAt, Keeps, Entry, Leads, Altered, Lasting, AllDirs, OnDisk, FreeCount, NewEntry, NewDir, WithEntry, Made,
         Slot, Proper, Contents;
    if i + 1 == |chs| {
      assert way[i] == chs[..i + 1][i];
    }
  }

  lemma WayMade(d0: disk, d: disk, d': disk, v: Vol, names: seq<bytes>, chs: seq<seq<nat>>, way: seq<seq<nat>>, i: nat,
                newCl: nat)
    requires Way(d0, d, v, names, chs, way, i) && i < |names| && i + 1 >= |chs| && Usable(v, newCl)
    requires !InUse(d0, v, newCl)
    requires DirOf(d, v, way[i]) && DirMade(d, d', v, way[i], names[i], newCl)
    ensures Made(d0, d', v, way + [[newCl]], |chs|, i + 1)
  {
    hide DirAt, DirMade, Keeps, Entry, Leads, Altered, Lasting, AllDirs, Limit, InUse, Apart, Contents, NewDir, Proper;
    MadeIsDir(d, d', v, way[i], names[i], newCl);
  }
}
