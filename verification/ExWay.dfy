/** The way of a write along an exFAT path: the directories that exist, then those it makes. */
module ExWay {
  import opened Bytes
  import opened Volume
  import opened Bitmap
  import opened Allocator
  import opened EntrySets
  import opened DirSets
  import opened Keeping
  import opened DirEntries
  import opened ExDir
  import opened ExDirLaws
  import opened ExDisk
  import opened ExCreate
  import opened ExMake
  import opened ExPath
  import opened ExWrite

  // ---------------------------------------------------------------- walks that survive

  lemma StepKept(d: disk, d': disk, v: Vol, named: set<nat>, dcs: seq<nat>, name: bytes, next: seq<nat>,
                 next2: seq<nat>)
    requires Step(d, v, dcs, name, next) && Keeps(d, d', v, named) && Clear(dcs, named)
    requires DirX(d', v, next2) && |next| > 0 && next2[0] == next[0]
    ensures Step(d', v, dcs, name, next2)
  {
    hide Chain, Keeps, Find, ParsedAt, Listing;
    ListingKept(d, d', v, named, dcs);
  }

  /** A walk survives a step that touches at most its last directory, which may have become `last`. */
  lemma LeadsKept(d: disk, d': disk, v: Vol, names: seq<bytes>, chs: seq<seq<nat>>, named: set<nat>, last: seq<nat>)
    requires Leads(d, v, names, chs) && Keeps(d, d', v, named) && DirX(d', v, last) && DirX(d, v, chs[|names|])
    requires last[0] == chs[|names|][0] && forall j | 0 <= j < |names| :: Clear(chs[j], named)
    ensures Leads(d', v, names, chs[|names| := last])
  {
    hide DirX, Keeps, Step, Clear;
    var n := |names|;
    var all := chs[n := last];
    forall j | 0 <= j < n
      ensures Step(d', v, all[j], names[j], all[j + 1])
    {
      LeadsStep(d, v, names, chs, j);
      LeadsDir(d, v, names, chs, j + 1);
      StepIs(d, v, chs[j], names[j], chs[j + 1]);
      if j + 1 < n { ListingKept(d, d', v, named, chs[j + 1]); }
      StepKept(d, d', v, named, chs[j], names[j], chs[j + 1], all[j + 1]);
    }
    LeadsRoot(d, v, names, chs);
    if n > 0 { ListingKept(d, d', v, named, chs[0]); }
  }

  // ---------------------------------------------------------------- the way so far

  /** Directories apart from the bitmap. */
  ghost predicate AllDirs(d: disk, v: Vol, bm: seq<nat>, way: seq<seq<nat>>)
  {
    forall j | 0 <= j < |way| :: DirX(d, v, way[j]) && Apart(way[j], bm)
  }

  /** The directories from number `k` to the last one, number `i`, are new, and that one is empty. */
  ghost predicate Made(d0: disk, d: disk, v: Vol, way: seq<seq<nat>>, k: nat, i: nat)
  {
    && 0 < k <= i < |way| && DirX(d, v, way[i]) && Listing(d, v, way[i]) == [Zeros(ClusterBytes(v))]
    && (forall j | k <= j <= i :: |way[j]| == 1 && !InUse(d0, v, way[j][0]))
  }

  /** What has become of the last directory of `chs` once something has been made in it. */
  ghost predicate Begun(d0: disk, d: disk, v: Vol, bm: seq<nat>, dcs: seq<nat>, dcs2: seq<nat>, name: bytes)
  {
    && Touched(d0, d, v, bm, dcs, dcs2, name, {}) && DirX(d0, v, dcs) && DirX(d, v, dcs2)
    && !Search(d0, v, dcs, name).At?
    && (Search(d, v, dcs2, name).At? <==> Visible(d0, v, dcs, name))
  }

  /** The cluster that a directory needs for one more set, if it has no room. */
  ghost function Extra(d: disk, v: Vol, dcs: seq<nat>, name: bytes): (n: nat)
    requires DirX(d, v, dcs)
  {
    if Slot(Listing(d, v, dcs), 0, SetSize(name)).At? then 0 else 1
  }

  /** `n` directories have been made since `d0`, the first of them in `dcs`. */
  ghost predicate Spent(d0: disk, d: disk, v: Vol, dcs: seq<nat>, name: bytes, n: nat)
  {
    DirX(d0, v, dcs) && OnDisk(d0, v) && OnDisk(d, v) && FreeLeft(d, v) + n + Extra(d0, v, dcs, name) == FreeLeft(d0, v)
  }

  /** The directories passed: those of `chs`, of which the last may have become longer, then new ones. */
  ghost predicate Way(d0: disk, d: disk, v: Vol, bm: seq<nat>, names: seq<bytes>, chs: seq<seq<nat>>,
                      way: seq<seq<nat>>, i: nat)
  {
    && i <= |names| && |way| == i + 1 && |chs| > 0 && Disjoint(way) && AllDirs(d, v, bm, way) && AllProper(names)
    && Ready(d, v, bm)
    && (i < |chs| ==> d == d0 && way == chs[..i + 1] && Leads(d, v, names[..i], way))
    && (i >= |chs| ==>
      && Begun(d0, d, v, bm, chs[|chs| - 1], way[|chs| - 1], names[|chs| - 1])
      && Made(d0, d, v, way, |chs|, i) && Spent(d0, d, v, chs[|chs| - 1], names[|chs| - 1], i + 1 - |chs|)
      && (Search(d, v, way[|chs| - 1], names[|chs| - 1]).At? ==> Leads(d, v, names[..i], way)))
  }

  lemma WayStart(d: disk, v: Vol, bm: seq<nat>, names: seq<bytes>, chs: seq<seq<nat>>)
    requires Walk(d, v, names, chs) && Disjoint(chs) && AllProper(names) && Ready(d, v, bm) && AllDirs(d, v, bm, chs)
    ensures Way(d, d, v, bm, names, chs, [chs[0]], 0)
  {
    hide DirX, Step, Apart, Goes, Ready, AllProper;
    WalkStep(d, v, names, chs, 0);
    WalkSize(d, v, names, chs);
    assert chs[..1] == [chs[0]];
  }

  /** A directory's own facts. */
  lemma DirFacts(d: disk, v: Vol, dcs: seq<nat>)
    requires DirX(d, v, dcs)
    ensures |dcs| > 0 && OnDisk(d, v) && 512 <= ClusterBytes(v) && ClusterBytes(v) % 32 == 0
  {
    hide Chain;
    DirXIs(d, v, dcs);
  }

  lemma WayDir(d0: disk, d: disk, v: Vol, bm: seq<nat>, names: seq<bytes>, chs: seq<seq<nat>>, way: seq<seq<nat>>,
               i: nat)
    requires Way(d0, d, v, bm, names, chs, way, i)
    ensures |way| == i + 1 && DirX(d, v, way[i]) && |way[i]| > 0 && Apart(way[i], bm) && Ready(d, v, bm) && i <= |names|
    ensures AllProper(names) && AllDirs(d, v, bm, way) && Disjoint(way) && |chs| > 0
    ensures i >= |chs| ==>
      Begun(d0, d, v, bm, chs[|chs| - 1], way[|chs| - 1], names[|chs| - 1]) && Made(d0, d, v, way, |chs|, i)
    ensures i >= |chs| ==> Spent(d0, d, v, chs[|chs| - 1], names[|chs| - 1], i + 1 - |chs|)
    ensures i < |chs| ==> d == d0 && way[i] == chs[i]
  {
    hide DirX, Begun, Made, Leads, Apart, Ready, Proper, Search, Spent;
    assert DirX(d, v, way[i]);
    DirFacts(d, v, way[i]);
    if i < |chs| { assert way[i] == chs[..i + 1][i]; }
  }

  /** One more directory that was there. */
  lemma WayOld(d0: disk, d: disk, v: Vol, bm: seq<nat>, names: seq<bytes>, chs: seq<seq<nat>>, way: seq<seq<nat>>,
               i: nat)
    requires Way(d0, d, v, bm, names, chs, way, i) && i + 1 < |chs| && Walk(d0, v, names, chs) && Disjoint(chs)
    requires AllDirs(d0, v, bm, chs)
    ensures Way(d0, d, v, bm, names, chs, way + [chs[i + 1]], i + 1)
  {
    hide Step, Apart, DirX, Proper, Goes, Ready;
    WalkStep(d0, v, names, chs, i);
    assert chs[..i + 2] == chs[..i + 1] + [chs[i + 1]];
    DisjointPrefix(chs, i + 2);
    LeadsMore(d0, v, names, way, i, chs[i + 1]);
  }

  // ---------------------------------------------------------------- a new directory

  /** In a cleared directory nothing is found, and a set has room at its start. */
  lemma EmptyDir(n: nat, want: bytes, t: nat)
    requires n % 32 == 0 && 0 < 32 * t <= n
    ensures AllEntries([Zeros(n)]) && AllTidy([Zeros(n)]) && !Find([Zeros(n)], 0, want).At?
    ensures Slot([Zeros(n)], 0, t) == At(0, 0)
  {
    ZerosTidy(n);
    FoundLonger([], 0, n, want);
    SlotLonger([], 0, n, t);
    assert [] + [Zeros(n)] == [Zeros(n)];
  }

  lemma MadeEmpty(d0: disk, d: disk, v: Vol, way: seq<seq<nat>>, k: nat, i: nat, name: bytes)
    requires Made(d0, d, v, way, k, i) && 32 * SetSize(name) <= ClusterBytes(v)
    ensures DirX(d, v, way[i]) && AllTidy(Listing(d, v, way[i])) && !Search(d, v, way[i], name).At?
    ensures Visible(d, v, way[i], name)
    ensures Slot(Listing(d, v, way[i]), 0, SetSize(name)) == At(0, 0)
    ensures Listing(d, v, way[i]) == [Zeros(ClusterBytes(v))]
  {
    hide Chain, InUse, Listing, Tidy, Find, Slot;
    DirFacts(d, v, way[i]);
    EmptyDir(ClusterBytes(v), Key(name), SetSize(name));
  }

  lemma CreatedTouched(d: disk, d': disk, v: Vol, bm: seq<nat>, dcs: seq<nat>, dcs2: seq<nat>, name: bytes, isDir: bool,
                       data: bytes, cs: seq<nat>, i: nat, p: nat)
    requires Created(d, d', v, bm, dcs, dcs2, name, isDir, data, cs, i, p) && DirX(d, v, dcs) && Proper(name)
    requires |data| < TWO32
    requires !Search(d, v, dcs, name).At?
    ensures Touched(d, d', v, bm, dcs, dcs2, name, {})
  {
    hide Keeps, Chain, Mounted, Agree, Limit, Entry, Fat, Used, Filled, NewSet, Summed, OneSet, Slot, Find, Listing;
    CreatedOne(d, d', v, bm, dcs, dcs2, name, isDir, data, cs, i, p);
    assert SetOf(bm) + SetOf(dcs) + {} == SetOf(bm) + SetOf(dcs);
  }

  /** What a created entry leaves of the directories: all of them, the last one perhaps longer, and the new clusters
      apart. */
  lemma CreatedDirs(d: disk, d': disk, v: Vol, bm: seq<nat>, way: seq<seq<nat>>, dcs2: seq<nat>, name: bytes,
                    isDir: bool, data: bytes, cs: seq<nat>, p: nat, q: nat, after: seq<seq<nat>>)
    requires AllDirs(d, v, bm, way) && Disjoint(way) && |way| > 0 && after == way[|way| - 1 := dcs2]
    requires Created(d, d', v, bm, way[|way| - 1], dcs2, name, isDir, data, cs, p, q)
    ensures AllDirs(d', v, bm, after) && Disjoint(after)
    ensures forall j | 0 <= j < |way| - 1 :: Clear(way[j], SetOf(bm) + SetOf(way[|way| - 1]))
    ensures forall j | 0 <= j < |way| :: Apart(after[j], cs)
  {
    hide Keeps, Chain, Mounted, Agree, Limit, Entry, Fat, Used, Filled, NewSet, Summed, Slot, Listing, Roomy, InUse,
         Usable;
    var n := |way| - 1;
    assert DirX(d, v, way[n]) && Apart(way[n], bm);
    if dcs2 != way[n] { assert dcs2 == way[n] + [dcs2[|way[n]|]]; }
    forall j | 0 <= j < n
      ensures Clear(way[j], SetOf(bm) + SetOf(way[n])) && DirX(d', v, way[j]) && Apart(way[j], bm)
      ensures Apart(way[j], dcs2) && Apart(way[j], cs)
    {
      WayApart(way, j, n);
      assert DirX(d, v, way[j]) && Apart(way[j], bm);
      ListingKept(d, d', v, SetOf(bm) + SetOf(way[n]), way[j]);
      ApartUnused(d, v, way[j], cs);
      if dcs2 != way[n] { DirInUse(d, v, way[j], dcs2[|way[n]|]); }
    }
  }

  lemma ApartUnused(d: disk, v: Vol, dcs: seq<nat>, cs: seq<nat>)
    requires DirX(d, v, dcs) && forall c | c in cs :: !InUse(d, v, c)
    ensures Apart(dcs, cs)
  {
    hide Chain, Entry, Limit, InUse;
    forall c | c in cs
      ensures c !in dcs
    {
      DirInUse(d, v, dcs, c);
    }
  }

  lemma DisjointMore(way: seq<seq<nat>>, cs: seq<nat>)
    requires Disjoint(way) && forall j | 0 <= j < |way| :: Apart(way[j], cs)
    ensures Disjoint(way + [cs])
  {
    hide Apart;
  }

  /** What is free later, and apart from what was touched, was free before. */
  lemma FreeBefore(d0: disk, d: disk, v: Vol, bm: seq<nat>, dcs: seq<nat>, dcs2: seq<nat>, name: bytes, c: nat)
    requires Touched(d0, d, v, bm, dcs, dcs2, name, {}) && !InUse(d, v, c) && c !in bm
    ensures !InUse(d0, v, c)
  {
    hide Chain, Entry, Limit, OneSet, Mounted, Agree, Fat, Used, Listing;
    DirInUse(d, v, dcs2, c);
    assert c !in dcs by {
      if dcs2 != dcs { assert dcs2 == dcs + [dcs2[|dcs|]]; }
    }
    assert c !in SetOf(bm) + SetOf(dcs) + {};
  }

  /** A directory made in the last one that existed. */
  lemma BegunNew(d: disk, d': disk, v: Vol, bm: seq<nat>, dcs: seq<nat>, dcs2: seq<nat>, name: bytes, isDir: bool,
                 data: bytes, cs: seq<nat>, i: nat, p: nat)
    requires Created(d, d', v, bm, dcs, dcs2, name, isDir, data, cs, i, p) && DirX(d, v, dcs) && Proper(name)
    requires |data| < TWO32
    requires !Search(d, v, dcs, name).At? && AllTidy(Listing(d, v, dcs)) && 32 * SetSize(name) <= ClusterBytes(v)
    ensures Begun(d, d', v, bm, dcs, dcs2, name)
  {
    hide Created, Touched, DirX, Visible, Search, Record, Tidy;
    CreatedTouched(d, d', v, bm, dcs, dcs2, name, isDir, data, cs, i, p);
    CreatedFound(d, d', v, bm, dcs, dcs2, name, isDir, data, cs, i, p);
  }

  /** The directory where it began is left alone by what happens further down. */
  lemma BegunThen(d0: disk, d: disk, d': disk, v: Vol, bm: seq<nat>, dcs: seq<nat>, dcs2: seq<nat>, name: bytes,
                  named: set<nat>)
    requires Begun(d0, d, v, bm, dcs, dcs2, name) && Keeps(d, d', v, named) && Clear(dcs2, named) && Ready(d', v, bm)
    requires forall c | c in named && InUse(d0, v, c) :: c in bm
    ensures Begun(d0, d', v, bm, dcs, dcs2, name) && DirX(d', v, dcs2) && DirX(d, v, dcs2)
    ensures Search(d', v, dcs2, name).At? == Search(d, v, dcs2, name).At?
  {
    hide Touched, DirX, Visible, Keeps, Find, Ready, InUse, Listing;
    TouchedThen(d0, d, d', v, bm, dcs, dcs2, name, {}, named);
    ListingKept(d, d', v, named, dcs2);
  }

  /** In a directory that was made, there is room without another cluster. */
  lemma MadeStays(d: disk, d': disk, v: Vol, bm: seq<nat>, dcs: seq<nat>, dcs2: seq<nat>, name: bytes, isDir: bool,
                  data: bytes, cs: seq<nat>, i: nat, p: nat)
    requires Created(d, d', v, bm, dcs, dcs2, name, isDir, data, cs, i, p) && DirX(d, v, dcs)
    requires Slot(Listing(d, v, dcs), 0, SetSize(name)).At?
    ensures dcs2 == dcs
  {
    hide Chain, Entry, Limit, Mounted, Agree, Fat, Used, Filled, Keeps, NewSet, InUse, Slot, Summed;
    assert |Listing(d', v, dcs2)| == |dcs2| && |Listing(d, v, dcs)| == |dcs|;
  }

  lemma CreatedDir(d: disk, d': disk, v: Vol, bm: seq<nat>, dcs: seq<nat>, dcs2: seq<nat>, name: bytes, cs: seq<nat>,
                   i: nat, p: nat)
    requires Created(d, d', v, bm, dcs, dcs2, name, true, [], cs, i, p)
    ensures |cs| == 1 && DirX(d', v, cs) && Listing(d', v, cs) == [Zeros(ClusterBytes(v))]
    ensures !InUse(d, v, cs[0]) && cs[0] !in bm && Apart(cs, bm)
    ensures Ready(d', v, bm) && DirX(d', v, dcs2) && |dcs| > 0 && dcs2[0] == dcs[0]
    ensures Keeps(d, d', v, SetOf(bm) + SetOf(dcs))
  {
    hide Chain, Entry, Limit, Mounted, Agree, Fat, Used, Keeps, NewSet, InUse, Slot, Summed, Usable, Listing, Roomy;
    assert cs[0] in cs;
  }

  /** One more directory that has been made. */
  lemma WayNew(d0: disk, d: disk, d': disk, v: Vol, bm: seq<nat>, names: seq<bytes>, chs: seq<seq<nat>>,
               way: seq<seq<nat>>, i: nat, dcs2: seq<nat>, cs: seq<nat>, p: nat, q: nat)
    requires Way(d0, d, v, bm, names, chs, way, i) && i < |names| && i + 1 >= |chs| && DirX(d, v, way[i])
    requires !Search(d, v, way[i], names[i]).At? && 32 * SetSize(names[i]) <= ClusterBytes(v)
    requires AllTidy(Listing(d, v, way[i]))
    requires Created(d, d', v, bm, way[i], dcs2, names[i], true, [], cs, p, q)
    ensures Way(d0, d', v, bm, names, chs, way[i := dcs2] + [cs], i + 1)
  {
    hide DirX, Created, Keeps, Search, Apart, Leads, Made, Begun, AllDirs, Clear, InUse, Tidy, Ready, Spent;
    WaySpent(d0, d, d', v, bm, names, chs, way, i, dcs2, cs, p, q);
    var after := way[i := dcs2];
    WayDir(d0, d, v, bm, names, chs, way, i);
    CreatedDir(d, d', v, bm, way[i], dcs2, names[i], cs, p, q);
    CreatedDirs(d, d', v, bm, way, dcs2, names[i], true, [], cs, p, q, after);
    DisjointMore(after, cs);
    DirsMore(d', v, bm, after, cs);
    WayBegun(d0, d, d', v, bm, names, chs, way, i, dcs2, cs, p, q);
    WayMade(d0, d, d', v, bm, names, chs, way, i, dcs2, cs, p, q);
    if Search(d', v, after[|chs| - 1], names[|chs| - 1]).At? {
      WayLeads(d0, d, d', v, bm, names, chs, way, i, dcs2, cs, p, q);
    }
    assert (after + [cs])[|chs| - 1] == after[|chs| - 1];
  }

  lemma DirsMore(d: disk, v: Vol, bm: seq<nat>, way: seq<seq<nat>>, cs: seq<nat>)
    requires AllDirs(d, v, bm, way) && DirX(d, v, cs) && Apart(cs, bm)
    ensures AllDirs(d, v, bm, way + [cs])
  {
    hide DirX, Apart;
  }

  lemma WayBegun(d0: disk, d: disk, d': disk, v: Vol, bm: seq<nat>, names: seq<bytes>, chs: seq<seq<nat>>,
                 way: seq<seq<nat>>, i: nat, dcs2: seq<nat>, cs: seq<nat>, p: nat, q: nat)
    requires Way(d0, d, v, bm, names, chs, way, i) && i < |names| && i + 1 >= |chs| && DirX(d, v, way[i])
    requires !Search(d, v, way[i], names[i]).At? && 32 * SetSize(names[i]) <= ClusterBytes(v)
    requires AllTidy(Listing(d, v, way[i]))
    requires Created(d, d', v, bm, way[i], dcs2, names[i], true, [], cs, p, q)
    ensures Begun(d0, d', v, bm, chs[|chs| - 1], way[i := dcs2][|chs| - 1], names[|chs| - 1])
    ensures DirX(d', v, way[i := dcs2][|chs| - 1])
    ensures var k := |chs| - 1;
      k < i ==> DirX(d, v, way[k]) && Search(d', v, way[k], names[k]).At? == Search(d, v, way[k], names[k]).At?
  {
    hide DirX, Created, Keeps, Search, Leads, Begun, AllDirs, InUse, Tidy, Ready, Disjoint;
    var k := |chs| - 1;
    WayDir(d0, d, v, bm, names, chs, way, i);
    NameProper(names, i);
    CreatedDir(d, d', v, bm, way[i], dcs2, names[i], cs, p, q);
    if i == k {
      BegunNew(d, d', v, bm, way[i], dcs2, names[i], true, [], cs, p, q);
    } else {
      WayApart(way, k, i);
      DirOfAll(d, v, bm, way, k);
      assert way[i] == [way[i][0]];
      BegunThen(d0, d, d', v, bm, chs[k], way[k], names[k], SetOf(bm) + SetOf(way[i]));
    }
  }

  lemma DirOfAll(d: disk, v: Vol, bm: seq<nat>, way: seq<seq<nat>>, j: nat)
    requires AllDirs(d, v, bm, way) && j < |way|
    ensures DirX(d, v, way[j]) && Apart(way[j], bm)
  {
    hide DirX, Apart;
  }

  /** A created entry has taken its clusters, and one more if the directory has become longer. */
  lemma CreatedSpent(d: disk, d': disk, v: Vol, bm: seq<nat>, dcs: seq<nat>, dcs2: seq<nat>, name: bytes, isDir: bool,
                     data: bytes, cs: seq<nat>, i: nat, p: nat)
    requires Created(d, d', v, bm, dcs, dcs2, name, isDir, data, cs, i, p) && DirX(d, v, dcs)
    ensures OnDisk(d, v) && OnDisk(d', v) && FreeLeft(d', v) + |cs| + Extra(d, v, dcs, name) == FreeLeft(d, v)
  {
    hide Chain, Entry, Limit, Mounted, Agree, Fat, Used, Filled, Keeps, NewSet, InUse, Slot, Summed, FreeLeft;
    assert |Listing(d', v, dcs2)| == |dcs2| && |Listing(d, v, dcs)| == |dcs|;
  }

  lemma WaySpent(d0: disk, d: disk, d': disk, v: Vol, bm: seq<nat>, names: seq<bytes>, chs: seq<seq<nat>>,
                 way: seq<seq<nat>>, i: nat, dcs2: seq<nat>, cs: seq<nat>, p: nat, q: nat)
    requires Way(d0, d, v, bm, names, chs, way, i) && i < |names| && i + 1 >= |chs| && DirX(d, v, way[i])
    requires 32 * SetSize(names[i]) <= ClusterBytes(v)
    requires Created(d, d', v, bm, way[i], dcs2, names[i], true, [], cs, p, q)
    ensures Spent(d0, d', v, chs[|chs| - 1], names[|chs| - 1], i + 2 - |chs|)
  {
    hide DirX, Created, Keeps, Search, Leads, AllDirs, InUse, Ready, Disjoint, Listing, Apart, Begun, Slot, FreeLeft,
         OnDisk;
    WayDir(d0, d, v, bm, names, chs, way, i);
    CreatedDir(d, d', v, bm, way[i], dcs2, names[i], cs, p, q);
    CreatedSpent(d, d', v, bm, way[i], dcs2, names[i], true, [], cs, p, q);
    if i >= |chs| { MadeEmpty(d0, d, v, way, |chs|, i, names[i]); }
  }

  lemma WayMade(d0: disk, d: disk, d': disk, v: Vol, bm: seq<nat>, names: seq<bytes>, chs: seq<seq<nat>>,
                way: seq<seq<nat>>, i: nat, dcs2: seq<nat>, cs: seq<nat>, p: nat, q: nat)
    requires Way(d0, d, v, bm, names, chs, way, i) && i < |names| && i + 1 >= |chs| && DirX(d, v, way[i])
    requires 32 * SetSize(names[i]) <= ClusterBytes(v)
    requires Created(d, d', v, bm, way[i], dcs2, names[i], true, [], cs, p, q)
    ensures Made(d0, d', v, way[i := dcs2] + [cs], |chs|, i + 1)
  {
    hide DirX, Created, Keeps, Search, Leads, AllDirs, InUse, Ready, Disjoint, Listing, Apart, Touched, Visible, Slot;
    var k := |chs| - 1;
    WayDir(d0, d, v, bm, names, chs, way, i);
    CreatedDir(d, d', v, bm, way[i], dcs2, names[i], cs, p, q);
    if i > k {
      MadeEmpty(d0, d, v, way, |chs|, i, names[i]);
      MadeStays(d, d', v, bm, way[i], dcs2, names[i], true, [], cs, p, q);
      FreeBefore(d0, d, v, bm, chs[k], way[k], names[k], cs[0]);
    }
  }

  /** Where the directory is visible, the names lead on to it. */
  lemma WayLeads(d0: disk, d: disk, d': disk, v: Vol, bm: seq<nat>, names: seq<bytes>, chs: seq<seq<nat>>,
                 way: seq<seq<nat>>, i: nat, dcs2: seq<nat>, cs: seq<nat>, p: nat, q: nat)
    requires Way(d0, d, v, bm, names, chs, way, i) && i < |names| && i + 1 >= |chs| && DirX(d, v, way[i])
    requires !Search(d, v, way[i], names[i]).At? && 32 * SetSize(names[i]) <= ClusterBytes(v)
    requires AllTidy(Listing(d, v, way[i]))
    requires Created(d, d', v, bm, way[i], dcs2, names[i], true, [], cs, p, q)
    requires DirX(d', v, way[i := dcs2][|chs| - 1]) && Search(d', v, way[i := dcs2][|chs| - 1], names[|chs| - 1]).At?
    ensures Leads(d', v, names[..i + 1], way[i := dcs2] + [cs])
  {
    hide DirX, Created, Keeps, Search, Record, Leads, Made, Begun, AllDirs, InUse, Tidy, Ready, Disjoint, Clear,
         Listing, Visible;
    var after := way[i := dcs2];
    var k := |chs| - 1;
    WayDir(d0, d, v, bm, names, chs, way, i);
    NameProper(names, i);
    CreatedDir(d, d', v, bm, way[i], dcs2, names[i], cs, p, q);
    CreatedDirs(d, d', v, bm, way, dcs2, names[i], true, [], cs, p, q, after);
    CreatedFound(d, d', v, bm, way[i], dcs2, names[i], true, [], cs, p, q);
    if k < i {
      MadeEmpty(d0, d, v, way, |chs|, i, names[i]);
      WayBegun(d0, d, d', v, bm, names, chs, way, i, dcs2, cs, p, q);
    }
    LeadsKept(d, d', v, names[..i], way, SetOf(bm) + SetOf(way[i]), dcs2);
    StepTo(d', v, dcs2, names[i], cs);
    LeadsMore(d', v, names, after, i, cs);
  }

  lemma StepTo(d: disk, v: Vol, dcs: seq<nat>, name: bytes, cs: seq<nat>)
    requires DirX(d, v, dcs) && DirX(d, v, cs) && Search(d, v, dcs, name).At? && |cs| > 0
    requires Record(d, v, dcs, name) == Info(name, cs[0], 0, true)
    ensures Step(d, v, dcs, name, cs)
  {
    hide DirX, Search, Record;
  }
}
