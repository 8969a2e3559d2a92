/** The searches along an exFAT path still fit into their buffer after a write under that path. */
module ExSlim {
  import opened Bytes
  import opened Components
  import opened Volume
  import opened Bitmap
  import opened ExFile
  import opened Keeping
  import opened ExDir
  import opened SetBuffer
  import opened ExDisk
  import opened ExCreate
  import opened ExMake
  import opened ExPath
  import opened ExWrite
  import opened ExWay
  import opened ExRewrite
  import opened ExDriver

  /** Where the name is found, the search fits. */
  ghost predicate SlimWhere(d: disk, v: Vol, dcs: seq<nat>, name: bytes)
  {
    DirX(d, v, dcs) && (Search(d, v, dcs, name).At? ==> SlimDir(d, v, dcs, name))
  }

  /** The same for the first `i` directories of a way. */
  ghost predicate WaySlim(d: disk, v: Vol, names: seq<bytes>, way: seq<seq<nat>>, i: nat)
  {
    i <= |way| && i <= |names| && forall j | 0 <= j < i :: SlimWhere(d, v, way[j], names[j])
  }

  lemma SlimKept(d: disk, d': disk, v: Vol, named: set<nat>, dcs: seq<nat>, name: bytes)
    requires DirX(d, v, dcs) && Keeps(d, d', v, named) && Clear(dcs, named)
    ensures SlimWhere(d, v, dcs, name) ==> SlimWhere(d', v, dcs, name)
  {
    hide Chain, Keeps, Slim, Find, Key, Listing;
    ListingKept(d, d', v, named, dcs);
  }

  /** The search in the directory that the way has come to fits. */
  lemma WaySlimAt(d0: disk, d: disk, v: Vol, bm: seq<nat>, dirs: seq<bytes>, names: seq<bytes>, chs: seq<seq<nat>>,
                  way: seq<seq<nat>>, i: nat)
    requires Way(d0, d, v, bm, dirs, chs, way, i) && SlimPath(d0, v, names, chs) && i < |names|
    ensures DirX(d, v, way[i]) && SlimDir(d, v, way[i], names[i])
  {
    hide DirX, Slim, Key, Listing, Begun, Touched, Spent, InUse, Leads, Ready, Disjoint, AllDirs;
    WayDir(d0, d, v, bm, dirs, chs, way, i);
    if i < |chs| {
      SlimOnPath(d0, v, names, chs, i);
    } else {
      SlimEmpty(Key(names[i]), ClusterBytes(v));
    }
  }

  lemma SlimEmpty(want: bytes, n: nat)
    ensures Slim([Zeros(n)], want)
  {
    hide Hits, Wide;
    SlimLonger([], want, n);
    assert [] + [Zeros(n)] == [Zeros(n)];
  }

  /** A directory has been made in the last one of the way. */
  lemma MadeSlim(d: disk, d': disk, v: Vol, bm: seq<nat>, names: seq<bytes>, way: seq<seq<nat>>, i: nat, dcs2: seq<nat>,
                 cs: seq<nat>, p: nat, q: nat)
    requires |way| == i + 1 && i < |names| && AllDirs(d, v, bm, way) && Disjoint(way) && Proper(names[i])
    requires Created(d, d', v, bm, way[i], dcs2, names[i], true, [], cs, p, q)
    requires WaySlim(d, v, names, way, i) && DirX(d, v, way[i]) && SlimDir(d, v, way[i], names[i])
    requires AllTidy(Listing(d, v, way[i])) && !Search(d, v, way[i], names[i]).At?
    ensures WaySlim(d', v, names, way[i := dcs2], i + 1)
  {
    hide DirX, Created, Keeps, Search, Apart, SlimDir, Listing, Tidy, Touched, Clear, AllDirs, Disjoint;
    CreatedTouched(d, d', v, bm, way[i], dcs2, names[i], true, [], cs, p, q);
    CreatedDir(d, d', v, bm, way[i], dcs2, names[i], cs, p, q);
    CreatedDirs(d, d', v, bm, way, dcs2, names[i], true, [], cs, p, q, way[i := dcs2]);
    if Search(d', v, dcs2, names[i]).At? {
      TouchedSlim(d, d', v, bm, way[i], dcs2, names[i], {});
    }
    forall j | 0 <= j < i
      ensures SlimWhere(d', v, way[j], names[j])
    {
      assert SlimWhere(d, v, way[j], names[j]);
      SlimKept(d, d', v, SetOf(bm) + SetOf(way[i]), way[j], names[j]);
    }
  }

  /** One round of the write goes one directory further. */
  lemma WaySlimStep(d0: disk, d: disk, d': disk, v: Vol, bm: seq<nat>, dirs: seq<bytes>, chs: seq<seq<nat>>,
                    way: seq<seq<nat>>, i: nat, dcs2: seq<nat>, next: nat, cs: seq<nat>, p: nat, q: nat,
                    more: seq<seq<nat>>)
    requires Walk(d0, v, dirs, chs) && Way(d0, d, v, bm, dirs, chs, way, i) && DirX(d0, v, chs[|chs| - 1])
    requires AllTidy(Listing(d0, v, chs[|chs| - 1])) && Fitting(v, dirs, |chs| - 1)
    requires i < |dirs| && DirStep(d, d', v, bm, way[i], dcs2, dirs[i], 0, next, cs, p, q)
    requires WaySlim(d, v, dirs, way, i) && DirX(d, v, way[i]) && SlimDir(d, v, way[i], dirs[i]) && |more| == i + 2
    requires more[..i + 1] == way[i := if Search(d, v, way[i], dirs[i]).At? then way[i] else dcs2]
    ensures WaySlim(d', v, dirs, more, i + 1)
  {
    hide DirX, Created, Keeps, Search, Record, SlimDir, Listing, Tidy, Leads, Made, Begun, Ready, Spent, Proper, Walk;
    WayDir(d0, d, v, bm, dirs, chs, way, i);
    var way2 := more[..i + 1];
    if Search(d, v, way[i], dirs[i]).At? {
      assert way2 == way;
      assert WaySlim(d', v, dirs, way, i + 1);
    } else {
      if i < |chs| {
        WalkStep(d0, v, dirs, chs, i);
        if i + 1 < |chs| { GoesFound(d, v, way[i], dirs[i]); }
      } else {
        MadeEmpty(d0, d, v, way, |chs|, i, dirs[i]);
      }
      MadeSlim(d, d', v, bm, dirs, way, i, dcs2, cs, p, q);
    }
    assert forall j | 0 <= j < i + 1 :: more[j] == way2[j];
  }

  lemma GoesFound(d: disk, v: Vol, dcs: seq<nat>, name: bytes)
    requires DirX(d, v, dcs) && Goes(d, v, dcs, name)
    ensures Search(d, v, dcs, name).At?
  {
    hide DirX, Search, Record;
  }

  /** The file has been written. */
  lemma EndSlim(d: disk, d': disk, v: Vol, bm: seq<nat>, names: seq<bytes>, way: seq<seq<nat>>, dcs2: seq<nat>,
                data: bytes, oldCs: seq<nat>, cs: seq<nat>)
    requires |names| > 0 && |way| == |names| && Disjoint(way) && AllDirs(d, v, bm, way)
    requires forall j | 0 <= j < |way| :: Apart(way[j], oldCs)
    requires WaySlim(d, v, Front(names), way, |names| - 1)
    requires DirX(d, v, way[|names| - 1]) && SlimDir(d, v, way[|names| - 1], names[|names| - 1])
    requires AllTidy(Listing(d, v, way[|names| - 1]))
    requires LastWritten(d, d', v, bm, way[|names| - 1], dcs2, names[|names| - 1], data, oldCs, cs)
    ensures Reads(d', v, names, way[|names| - 1 := dcs2], data, cs) ==>
      SlimPath(d', v, names, way[|names| - 1 := dcs2])
  {
    hide DirX, Keeps, Search, Record, SlimDir, Listing, Tidy, Touched, Visible, Holding, Proper, AllDirs, Disjoint,
         Ready, InUse;
    var n := |names| - 1;
    var after := way[n := dcs2];
    if Reads(d', v, names, after, data, cs) {
      assert TouchedKeeps(d, d', v, bm, way[n], oldCs) by { TouchedIs(d, d', v, bm, way[n], dcs2, names[n], oldCs); }
      TouchedSlim(d, d', v, bm, way[n], dcs2, names[n], SetOf(oldCs));
      forall j | 0 <= j < n
        ensures DirX(d', v, after[j]) && SlimDir(d', v, after[j], names[j])
      {
        WayApart(way, j, n);
        DirOfAll(d, v, bm, way, j);
        assert SlimWhere(d, v, way[j], Front(names)[j]);
        SlimKept(d, d', v, SetOf(bm) + SetOf(way[n]) + SetOf(oldCs), way[j], names[j]);
        LeadsStep(d', v, Front(names), after, j);
        StepIs(d', v, after[j], names[j], after[j + 1]);
        GoesFound(d', v, after[j], names[j]);
      }
    }
  }

  ghost predicate TouchedKeeps(d: disk, d': disk, v: Vol, bm: seq<nat>, dcs: seq<nat>, oldCs: seq<nat>)
  {
    Keeps(d, d', v, SetOf(bm) + SetOf(dcs) + SetOf(oldCs))
  }

  lemma TouchedIs(d: disk, d': disk, v: Vol, bm: seq<nat>, dcs: seq<nat>, dcs2: seq<nat>, name: bytes, oldCs: seq<nat>)
    requires Touched(d, d', v, bm, dcs, dcs2, name, SetOf(oldCs))
    ensures TouchedKeeps(d, d', v, bm, dcs, oldCs)
  {
    hide Keeps, OneSet, Ready, InUse, Listing;
  }
}
