/** What a write under an exFAT path touches, and the way it goes: directories passed, directories made. */
module ExWrite {
  import opened Bytes
  import opened Volume
  import opened Bitmap
  import opened Allocator
  import opened EntrySets
  import opened DirSets
  import opened Keeping
  import opened DirEntries
  import opened ExDir
  import opened ExDirLaws
  import opened SetBuffer
  import opened ExDisk
  import opened ExCreate
  import opened ExMake
  import opened ExPath

  // ---------------------------------------------------------------- one set

  /** `cl` has become `w`: a set of the name has been written, over one that was found or into a free place. */
  ghost predicate SetWritten(cl: seq<bytes>, w: seq<bytes>, name: bytes, i: nat, p: nat, s: bytes, info: Info)
  {
    && AllEntries(cl) && i < |cl| && SetOfName(s, info.name, info) && |s| % 32 == 0 && |s| > 0 && Room(cl[i], p, |s|)
    && w == WithSet(cl, i, p, s) && Match(info.name, Key(name)) && NoNul(info.name)
    && (Find(cl, 0, Key(name)) == At(i, p) || (!Find(cl, 0, Key(name)).At? && Free(cl[i][p])))
  }

  /** Of the directory `dcs`, now `dcs2`, one set has been written, called `name`. */
  ghost predicate OneSet(d: disk, d': disk, v: Vol, dcs: seq<nat>, dcs2: seq<nat>, name: bytes)
  {
    && DirX(d, v, dcs) && DirX(d', v, dcs2) && ClusterBytes(v) % 32 == 0 && ClusterBytes(v) > 0
    && exists i: nat, p: nat, s: bytes, info: Info ::
      SetWritten(Listing(d, v, dcs), Listing(d', v, dcs2), name, i, p, s, info)
      || SetWritten(Listing(d, v, dcs) + [Zeros(ClusterBytes(v))], Listing(d', v, dcs2), name, i, p, s, info)
  }

  /** Nothing in use has changed but the bitmap, the clusters `extra`, and in the directory at most one set, called
      `name`. */
  ghost predicate Touched(d: disk, d': disk, v: Vol, bm: seq<nat>, dcs: seq<nat>, dcs2: seq<nat>, name: bytes,
                          extra: set<nat>)
  {
    && Ready(d', v, bm) && DirX(d, v, dcs) && DirX(d', v, dcs2) && dcs2[0] == dcs[0]
    && SameOrLonger(d, v, bm, dcs, dcs2)
    && Keeps(d, d', v, SetOf(bm) + SetOf(dcs) + extra)
    && ((dcs2 == dcs && Listing(d', v, dcs2) == Listing(d, v, dcs)) || OneSet(d, d', v, dcs, dcs2, name))
  }

  lemma TouchedSelf(d: disk, v: Vol, bm: seq<nat>, dcs: seq<nat>, name: bytes, extra: set<nat>)
    requires Ready(d, v, bm) && DirX(d, v, dcs)
    ensures Touched(d, d, v, bm, dcs, dcs, name, extra)
  {
    hide Keeps, Chain, Mounted, Listing, Agree, Limit, Entry, OneSet, Fat, Used;
    KeepsAll(d, v);
    KeepsMore(d, d, v, {}, SetOf(bm) + SetOf(dcs) + extra);
  }

  /** A further step that leaves the directory alone. */
  lemma TouchedThen(d: disk, d1: disk, d2: disk, v: Vol, bm: seq<nat>, dcs: seq<nat>, dcs2: seq<nat>, name: bytes,
                    extra: set<nat>, named: set<nat>)
    requires Touched(d, d1, v, bm, dcs, dcs2, name, extra) && Keeps(d1, d2, v, named) && Clear(dcs2, named)
    requires Ready(d2, v, bm)
    requires forall c | c in named && InUse(d, v, c) :: c in extra || c in bm
    ensures Touched(d, d2, v, bm, dcs, dcs2, name, extra)
  {
    hide Keeps, InUse, Chain, SetWritten, Listing, Mounted, Agree, Limit, Entry, Fat, Used;
    ListingKept(d1, d2, v, named, dcs2);
    var all := SetOf(bm) + SetOf(dcs) + extra;
    KeepsThen(d, d1, d2, v, all, named, all);
  }

  /** The set that creating an entry writes. */
  lemma NewSetIs(name: bytes, cs: seq<nat>, size: nat, isDir: bool)
    requires Proper(name) && size < TWO32 && (cs != [] ==> cs[0] < TWO32)
    ensures var info := Info(name, if cs == [] then 0 else cs[0], size, isDir);
      SetOfName(Summed(NewSet(name, cs, size, isDir)), name, info) && Match(name, Key(name))
  {
    hide EntrySet, Summed, IsSet;
    assert Shortened(name) == name;
    SummedIsSet(name, if cs == [] then 0 else cs[0], size, isDir);
  }

  lemma UsableSmall(d: disk, v: Vol, c: nat)
    requires OnDisk(d, v) && Usable(v, c)
    ensures c < TWO32
  {
  }

  /** An entry has been created: one set is new. */
  lemma CreatedOne(d: disk, d': disk, v: Vol, bm: seq<nat>, dcs: seq<nat>, dcs2: seq<nat>, name: bytes, isDir: bool,
                   data: bytes, cs: seq<nat>, i: nat, p: nat)
    requires Created(d, d', v, bm, dcs, dcs2, name, isDir, data, cs, i, p) && DirX(d, v, dcs) && Proper(name)
    requires |data| < TWO32
    requires !Search(d, v, dcs, name).At?
    ensures OneSet(d, d', v, dcs, dcs2, name)
    ensures var s := Summed(NewSet(name, cs, |data|, isDir));
      var info := Info(name, if cs == [] then 0 else cs[0], |data|, isDir);
      SetWritten(Roomy(Listing(d, v, dcs), SetSize(name), ClusterBytes(v)), Listing(d', v, dcs2), name, i, p, s, info)
  {
    hide Keeps, Chain, Mounted, Agree, Limit, Entry, Fat, Used, Filled, NewSet, Summed, SetOfName, Match, FreeFrom, Key,
         ParsedAt, Free, Inner, Slot;
    DirXIs(d, v, dcs);
    if cs != [] { UsableSmall(d, v, cs[0]); }
    NewSetIs(name, cs, |data|, isDir);
    var room := Roomy(Listing(d, v, dcs), SetSize(name), ClusterBytes(v));
    SlotIsRoom(room, SetSize(name), i, p);
    FoundLonger(Listing(d, v, dcs), 0, ClusterBytes(v), Key(name));
    var info := Info(name, if cs == [] then 0 else cs[0], |data|, isDir);
    assert SetWritten(room, Listing(d', v, dcs2), name, i, p, Summed(NewSet(name, cs, |data|, isDir)), info);
  }

  lemma SlotIsRoom(cl: seq<bytes>, t: nat, i: nat, p: nat)
    requires AllEntries(cl) && t > 0 && Slot(cl, 0, t) == At(i, p)
    ensures i < |cl| && Room(cl[i], p, 32 * t) && Free(cl[i][p])
  {
    RoomStart(cl[i], p, t);
    assert cl[i][p] == 0 || Free(cl[i][p]);
  }

  /** The set can be found: no cluster before its place ends the directory. */
  ghost predicate Visible(d: disk, v: Vol, dcs: seq<nat>, name: bytes)
    requires DirX(d, v, dcs)
  {
    var f := Slot(Listing(d, v, dcs), 0, SetSize(name));
    NoEnd(Listing(d, v, dcs), 0, if f.At? then f.i else |dcs|)
  }

  lemma NoEndRoomy(cl: seq<bytes>, k: nat, i: nat, z: bytes)
    requires i <= |cl|
    ensures NoEnd(cl + [z], k, i) == NoEnd(cl, k, i)
  {
    assert forall j | 0 <= j < i :: (cl + [z])[j] == cl[j];
  }

  /** A created entry is found exactly if it is visible, and then it is as it was written. */
  lemma CreatedFound(d: disk, d': disk, v: Vol, bm: seq<nat>, dcs: seq<nat>, dcs2: seq<nat>, name: bytes, isDir: bool,
                     data: bytes, cs: seq<nat>, i: nat, p: nat)
    requires Created(d, d', v, bm, dcs, dcs2, name, isDir, data, cs, i, p) && DirX(d, v, dcs) && Proper(name)
    requires |data| < TWO32
    requires !Search(d, v, dcs, name).At? && AllTidy(Listing(d, v, dcs)) && 32 * SetSize(name) <= ClusterBytes(v)
    ensures DirX(d', v, dcs2) && (Search(d', v, dcs2, name).At? <==> Visible(d, v, dcs, name))
    ensures Search(d', v, dcs2, name).At? ==>
      Record(d', v, dcs2, name) == Info(name, if cs == [] then 0 else cs[0], |data|, isDir)
  {
    hide Keeps, Chain, Mounted, Agree, Limit, Entry, Fat, Used, Filled, NewSet, Summed, SetOfName, Match, FreeFrom, Key,
         ParsedAt, Free, Inner, Tidy, Slot, Find, Put, NoEnd, Claims, Listing;
    CreatedOne(d, d', v, bm, dcs, dcs2, name, isDir, data, cs, i, p);
    var cl, n := Listing(d, v, dcs), ClusterBytes(v);
    var room := Roomy(cl, SetSize(name), n);
    var s := Summed(NewSet(name, cs, |data|, isDir));
    var info := Info(name, if cs == [] then 0 else cs[0], |data|, isDir);
    SetLength(name, cs, |data|, isDir);
    ZerosTidy(n);
    FoundLonger(cl, 0, n, Key(name));
    FoundNew(room, 0, i, p, s, name, info, Key(name));
    SlotLonger(cl, 0, n, SetSize(name));
    if Slot(cl, 0, SetSize(name)).Exhausted? {
      NoEndRoomy(cl, 0, |cl|, Zeros(n));
    }
    StandsAt(room, i, p, s, name, info);
  }

  lemma SetLength(name: bytes, cs: seq<nat>, size: nat, isDir: bool)
    ensures |Summed(NewSet(name, cs, size, isDir))| == 32 * SetSize(name)
  {
    hide EntrySet, Checksum;
  }

  lemma StandsAt(cl: seq<bytes>, i: nat, p: nat, s: bytes, name: bytes, info: Info)
    requires AllEntries(cl) && i < |cl| && SetOfName(s, name, info) && p % 32 == 0 && p + |s| <= |cl[i]|
    ensures var w := WithSet(cl, i, p, s);
      p + 32 <= |w[i]| && Claims(w[i], p) && ParsedAt(w[i], p) == (0, info)
  {
    hide SetOfName, ParsedAt, Put;
    SetStands(cl[i], p, s, name, info);
  }

  /** A set that has been written leaves the directory tidy. */
  lemma TidyKept(d: disk, d': disk, v: Vol, bm: seq<nat>, dcs: seq<nat>, dcs2: seq<nat>, name: bytes, extra: set<nat>)
    requires Touched(d, d', v, bm, dcs, dcs2, name, extra) && DirX(d, v, dcs) && AllTidy(Listing(d, v, dcs))
    ensures DirX(d', v, dcs2) && AllTidy(Listing(d', v, dcs2))
  {
    hide Keeps, Chain, Mounted, Agree, Limit, Entry, Fat, Used, SetWritten, Tidy, Listing;
    if OneSet(d, d', v, dcs, dcs2, name) {
      var cl, w := Listing(d, v, dcs), Listing(d', v, dcs2);
      var z := Zeros(ClusterBytes(v));
      var i: nat, p: nat, s, info :|
        SetWritten(cl, w, name, i, p, s, info) || SetWritten(cl + [z], w, name, i, p, s, info);
      ZerosTidy(ClusterBytes(v));
      if SetWritten(cl, w, name, i, p, s, info) {
        TidyWritten(cl, w, name, i, p, s, info);
      } else {
        TidyWritten(cl + [z], w, name, i, p, s, info);
      }
    }
  }

  /** Where the name is found after a set has been written, the search comes to no set that is too long. */
  lemma SlimOwn(cl: seq<bytes>, w: seq<bytes>, name: bytes, i: nat, p: nat, s: bytes, info: Info)
    requires SetWritten(cl, w, name, i, p, s, info) && AllTidy(cl) && Slim(cl, Key(name))
    requires AllEntries(w) && Find(w, 0, Key(name)).At?
    ensures Slim(w, Key(name))
  {
    hide Tidy, SetOfName, Match, Put, Inner, Find, Key, NoNul, Slim;
    RoomIs(cl[i], p, |s|);
    if Find(cl, 0, Key(name)) == At(i, p) {
      FoundSame(cl, 0, i, p, s, info.name, info, Key(name));
    } else {
      FoundThere(cl, i, p, s, info.name, info, Key(name));
    }
    SlimPut(cl, i, p, s, info.name, info, Key(name));
  }

  lemma TouchedSlim(d: disk, d': disk, v: Vol, bm: seq<nat>, dcs: seq<nat>, dcs2: seq<nat>, name: bytes,
                    extra: set<nat>)
    requires Touched(d, d', v, bm, dcs, dcs2, name, extra) && DirX(d, v, dcs) && AllTidy(Listing(d, v, dcs))
    requires SlimDir(d, v, dcs, name) && DirX(d', v, dcs2) && Search(d', v, dcs2, name).At?
    ensures SlimDir(d', v, dcs2, name)
  {
    hide Keeps, Chain, Mounted, Agree, Limit, Entry, Fat, Used, SetWritten, Tidy, Listing, Slim, Find, Key;
    if OneSet(d, d', v, dcs, dcs2, name) {
      var cl, w := Listing(d, v, dcs), Listing(d', v, dcs2);
      var z := Zeros(ClusterBytes(v));
      var i: nat, p: nat, s, info :|
        SetWritten(cl, w, name, i, p, s, info) || SetWritten(cl + [z], w, name, i, p, s, info);
      ZerosTidy(ClusterBytes(v));
      if SetWritten(cl, w, name, i, p, s, info) {
        SlimOwn(cl, w, name, i, p, s, info);
      } else {
        SlimLonger(cl, Key(name), ClusterBytes(v));
        SetEntries(cl + [z], w, name, i, p, s, info);
        SlimOwn(cl + [z], w, name, i, p, s, info);
      }
    }
  }

  lemma SetEntries(cl: seq<bytes>, w: seq<bytes>, name: bytes, i: nat, p: nat, s: bytes, info: Info)
    requires SetWritten(cl, w, name, i, p, s, info)
    ensures AllEntries(cl) && AllEntries(w)
  {
    hide SetOfName, Match, Put, Inner, Find, Key, NoNul;
  }

  /** And it leaves the directory without sets that are too long for the search. */
  lemma NarrowKept(d: disk, d': disk, v: Vol, bm: seq<nat>, dcs: seq<nat>, dcs2: seq<nat>, name: bytes, extra: set<nat>)
    requires Touched(d, d', v, bm, dcs, dcs2, name, extra) && DirX(d, v, dcs) && AllTidy(Listing(d, v, dcs))
    requires AllNarrow(Listing(d, v, dcs))
    ensures DirX(d', v, dcs2) && AllNarrow(Listing(d', v, dcs2)) && forall want :: SlimDir(d', v, dcs2, want)
  {
    hide Keeps, Chain, Mounted, Agree, Limit, Entry, Fat, Used, SetWritten, Tidy, Listing, Narrow, Slim;
    var cl, w := Listing(d, v, dcs), Listing(d', v, dcs2);
    if OneSet(d, d', v, dcs, dcs2, name) {
      var z := Zeros(ClusterBytes(v));
      var i: nat, p: nat, s, info :|
        SetWritten(cl, w, name, i, p, s, info) || SetWritten(cl + [z], w, name, i, p, s, info);
      ZerosTidy(ClusterBytes(v));
      ZerosNarrow(ClusterBytes(v));
      if SetWritten(cl, w, name, i, p, s, info) {
        NarrowWritten(cl, w, name, i, p, s, info);
      } else {
        NarrowWritten(cl + [z], w, name, i, p, s, info);
      }
    }
    forall want
      ensures SlimDir(d', v, dcs2, want)
    {
      NarrowSlim(w, Key(want));
    }
  }

  lemma NarrowWritten(cl: seq<bytes>, w: seq<bytes>, name: bytes, i: nat, p: nat, s: bytes, info: Info)
    requires SetWritten(cl, w, name, i, p, s, info) && AllTidy(cl) && AllNarrow(cl)
    ensures AllNarrow(w)
  {
    hide Tidy, SetOfName, Match, Put, Inner, Narrow;
    RoomIs(cl[i], p, |s|);
    NarrowPut(cl[i], p, s, info.name, info);
  }

  lemma TidyWritten(cl: seq<bytes>, w: seq<bytes>, name: bytes, i: nat, p: nat, s: bytes, info: Info)
    requires SetWritten(cl, w, name, i, p, s, info) && AllTidy(cl)
    ensures AllTidy(w)
  {
    hide Tidy, SetOfName, Match, Put, Inner;
    RoomIs(cl[i], p, |s|);
    TidyPut(cl[i], p, s, info.name, info);
  }
}
