/** Files under other exFAT paths are as they were after a write; and the write itself, read back. */
module ExOthers {
  import opened Bytes
  import opened Components
  import opened Volume
  import opened Bitmap
  import opened FileData
  import opened EntrySets
  import opened ExFile
  import opened Keeping
  import opened DirEntries
  import opened ExDir
  import opened ExDirLaws
  import opened SetBuffer
  import opened ExSlim
  import opened ExDisk
  import opened ExCreate
  import opened ExMake
  import opened ExPath
  import opened ExWrite
  import opened ExWay
  import opened ExRewrite
  import opened ExDriver
  import opened ExFilePath

  // ---------------------------------------------------------------- other names

  /** A stored name answers to one name only, up to case. */
  lemma MatchBoth(x: bytes, a: bytes, b: bytes)
    requires NoNul(a) && NoNul(b) && Match(x, Key(a)) && Match(x, Key(b))
    ensures Key(a) == Key(b)
  {
    KeyFold(a);
    KeyFold(b);
    MatchLength(x, Key(a), Key(b));
    MatchLength(x, Key(b), Key(a));
    assert forall i | 0 <= i < |a| :: Key(a)[i] == Upper(Key(a)[i]) == Upper(x[i]) && Key(b)[i] == Upper(Key(b)[i]);
  }

  lemma MatchLength(x: bytes, a: bytes, b: bytes)
    requires NoNul(a) && NoNul(b) && Match(x, a) && Match(x, b) && Key(b) == b
    ensures |b| <= |a|
  {
    forall i | 0 <= i < |b|
      ensures Upper(b[i]) != 0
    {
      assert b[i] in b;
    }
  }

  lemma MatchKey(x: bytes, name: bytes, want: bytes)
    requires NoNul(name) && NoNul(want) && Key(want) != Key(name) && Match(x, Key(name))
    ensures !Match(x, Key(want))
  {
    hide Match;
    if Match(x, Key(want)) { MatchBoth(x, name, want); }
  }

  /** Writing a set changes no search for another name that was successful. */
  lemma SetSearch(cl: seq<bytes>, w: seq<bytes>, name: bytes, i: nat, p: nat, s: bytes, info: Info, want: bytes)
    requires SetWritten(cl, w, name, i, p, s, info) && AllTidy(cl) && NoNul(name) && NoNul(want)
    requires Key(want) != Key(name)
    requires Find(cl, 0, Key(want)).At?
    ensures AllEntries(w) && |w| == |cl| && Find(w, 0, Key(want)) == Find(cl, 0, Key(want))
    ensures var f := Find(cl, 0, Key(want)); f.off + 32 <= |w[f.i]| && Claims(w[f.i], f.off)
    ensures var f := Find(cl, 0, Key(want)); ParsedAt(w[f.i], f.off) == ParsedAt(cl[f.i], f.off)
    ensures Slim(cl, Key(want)) ==> Slim(w, Key(want))
  {
    hide Put, Tidy, SetOfName, Match, ParsedAt, Room, Secondary, Slim;
    var f := Find(cl, 0, Key(want));
    RoomIs(cl[i], p, |s|);
    MatchKey(info.name, name, want);
    if Find(cl, 0, Key(name)) == At(i, p) {
      MatchKey(ParsedAt(cl[i], p).1.name, name, want);
    }
    FoundOther(cl, 0, i, p, s, info.name, info, Key(want));
    if Slim(cl, Key(want)) { SlimPut(cl, i, p, s, info.name, info, Key(want)); }
  }

  lemma TouchedSearch(d: disk, d': disk, v: Vol, bm: seq<nat>, dcs: seq<nat>, dcs2: seq<nat>, name: bytes,
                      extra: set<nat>, want: bytes)
    requires Touched(d, d', v, bm, dcs, dcs2, name, extra) && DirX(d, v, dcs) && AllTidy(Listing(d, v, dcs))
    requires NoNul(name) && NoNul(want) && Key(want) != Key(name) && Search(d, v, dcs, want).At?
    ensures DirX(d', v, dcs2) && Search(d', v, dcs2, want).At? && Record(d', v, dcs2, want) == Record(d, v, dcs, want)
    ensures SlimDir(d, v, dcs, want) ==> SlimDir(d', v, dcs2, want)
  {
    hide Chain, Keeps, Ready, SetWritten, Tidy, Find, ParsedAt, Listing, InUse, Key, NoNul, Slim;
    if OneSet(d, d', v, dcs, dcs2, name) {
      var cl, w, z := Listing(d, v, dcs), Listing(d', v, dcs2), Zeros(ClusterBytes(v));
      var i: nat, p: nat, s, info :|
        SetWritten(cl, w, name, i, p, s, info) || SetWritten(cl + [z], w, name, i, p, s, info);
      if SetWritten(cl, w, name, i, p, s, info) {
        SetSearch(cl, w, name, i, p, s, info, want);
      } else {
        ZerosTidy(ClusterBytes(v));
        FoundLonger(cl, 0, ClusterBytes(v), Key(want));
        if Slim(cl, Key(want)) { SlimLonger(cl, Key(want), ClusterBytes(v)); }
        SetSearch(cl + [z], w, name, i, p, s, info, want);
      }
    }
  }

  // ---------------------------------------------------------------- other directories

  /** A directory on another path: it is another one, or the one touched, under another name. */
  predicate Beside(bm: seq<nat>, dcs: seq<nat>, name: bytes, extra: set<nat>, other: seq<nat>, want: bytes)
  {
    && NoNul(want) && Apart(other, bm) && Clear(other, extra)
    && (Apart(other, dcs) || (other == dcs && Key(want) != Key(name)))
  }

  /** Where it is afterwards. */
  function Moved(dcs: seq<nat>, dcs2: seq<nat>, other: seq<nat>): (o: seq<nat>) { if other == dcs then dcs2 else other }

  function AllMoved(dcs: seq<nat>, dcs2: seq<nat>, chs: seq<seq<nat>>): (r: seq<seq<nat>>)
    ensures |r| == |chs| && forall j | 0 <= j < |r| :: r[j] == Moved(dcs, dcs2, chs[j])
  {
    seq(|chs|, j requires 0 <= j < |chs| => Moved(dcs, dcs2, chs[j]))
  }

  lemma BesideSearch(d: disk, d': disk, v: Vol, bm: seq<nat>, dcs: seq<nat>, dcs2: seq<nat>, name: bytes,
                     extra: set<nat>, other: seq<nat>, want: bytes)
    requires Touched(d, d', v, bm, dcs, dcs2, name, extra) && Beside(bm, dcs, name, extra, other, want) && NoNul(name)
    requires DirX(d, v, dcs) && AllTidy(Listing(d, v, dcs)) && DirX(d, v, other) && Search(d, v, other, want).At?
    ensures var o := Moved(dcs, dcs2, other); DirX(d', v, o) && |o| > 0 && |other| > 0 && o[0] == other[0]
    ensures var o := Moved(dcs, dcs2, other);
      Search(d', v, o, want).At? && Record(d', v, o, want) == Record(d, v, other, want)
    ensures SlimDir(d, v, other, want) ==> SlimDir(d', v, Moved(dcs, dcs2, other), want)
  {
    hide Chain, Keeps, Ready, OneSet, Tidy, Find, ParsedAt, Listing, InUse, Key, NoNul, Slim;
    if other == dcs {
      ApartSelf(dcs);
      TouchedSearch(d, d', v, bm, dcs, dcs2, name, extra, want);
    } else {
      ListingKept(d, d', v, SetOf(bm) + SetOf(dcs) + extra, other);
    }
  }

  lemma ApartSelf(cs: seq<nat>)
    requires |cs| > 0
    ensures !Apart(cs, cs)
  {
    assert cs[0] in cs;
  }

  lemma BesideStep(d: disk, d': disk, v: Vol, bm: seq<nat>, dcs: seq<nat>, dcs2: seq<nat>, name: bytes, extra: set<nat>,
                   other: seq<nat>, want: bytes, next: seq<nat>, after: bytes)
    requires Touched(d, d', v, bm, dcs, dcs2, name, extra) && NoNul(name) && DirX(d, v, dcs)
    requires AllTidy(Listing(d, v, dcs))
    requires Step(d, v, other, want, next) && Beside(bm, dcs, name, extra, other, want)
    requires Beside(bm, dcs, name, extra, next, after) && Search(d, v, next, after).At?
    ensures Step(d', v, Moved(dcs, dcs2, other), want, Moved(dcs, dcs2, next))
  {
    hide SlimDir, DirX, Touched, Tidy, Search, Record, Listing, Beside, Moved, NoNul;
    BesideSearch(d, d', v, bm, dcs, dcs2, name, extra, other, want);
    BesideSearch(d, d', v, bm, dcs, dcs2, name, extra, next, after);
  }

  lemma BesideFile(d: disk, d': disk, v: Vol, bm: seq<nat>, dcs: seq<nat>, dcs2: seq<nat>, name: bytes, extra: set<nat>,
                   other: seq<nat>, want: bytes, data: bytes, fcs: seq<nat>)
    requires Touched(d, d', v, bm, dcs, dcs2, name, extra) && NoNul(name) && DirX(d, v, dcs)
    requires AllTidy(Listing(d, v, dcs))
    requires FileX(d, v, other, want, data, fcs) && Beside(bm, dcs, name, extra, other, want)
    requires Apart(fcs, bm) && Apart(fcs, dcs) && Clear(fcs, extra)
    ensures FileX(d', v, Moved(dcs, dcs2, other), want, data, fcs)
  {
    hide DirX, Tidy, Search, Record, Listing, Beside, Moved, NoNul, Keeps, Holding, Ready, OneSet, InUse;
    BesideSearch(d, d', v, bm, dcs, dcs2, name, extra, other, want);
    HoldingKept(d, d', v, SetOf(bm) + SetOf(dcs) + extra, fcs, data);
  }

  lemma HoldingKept(d: disk, d': disk, v: Vol, named: set<nat>, cs: seq<nat>, data: bytes)
    requires Holding(d, v, cs, data) && Keeps(d, d', v, named) && Clear(cs, named)
    ensures Holding(d', v, cs, data)
  {
    hide Keeps, Holding, DirX, Listing;
    FilledKept(d, d', v, named, false, data, cs);
  }

  /** Every directory of the other path is beside what has been touched. */
  predicate AllBeside(bm: seq<nat>, dcs: seq<nat>, name: bytes, extra: set<nat>, names: seq<bytes>, chs: seq<seq<nat>>)
  {
    |chs| <= |names| && forall j | 0 <= j < |chs| :: Beside(bm, dcs, name, extra, chs[j], names[j])
  }

  lemma ReadsAt(d: disk, v: Vol, names: seq<bytes>, chs: seq<seq<nat>>, data: bytes, fcs: seq<nat>, j: nat)
    requires Reads(d, v, names, chs, data, fcs) && j < |names|
    ensures |chs| == |names| && DirX(d, v, chs[j]) && Search(d, v, chs[j], names[j]).At?
    ensures j + 1 < |names| ==> Step(d, v, chs[j], names[j], chs[j + 1])
    ensures j == 0 ==> |chs[0]| > 0 && chs[0][0] == v.rootClus
    ensures j + 1 == |names| ==> FileX(d, v, chs[j], names[j], data, fcs)
  {
    hide DirX, Search, Record, Holding, Step;
    LeadsRoot(d, v, Front(names), chs);
    LeadsDir(d, v, Front(names), chs, j);
    DirFacts(d, v, chs[j]);
    if j + 1 < |names| {
      LeadsStep(d, v, Front(names), chs, j);
      StepIs(d, v, chs[j], names[j], chs[j + 1]);
      GoesFound(d, v, chs[j], names[j]);
    }
  }

  lemma BesideKept(d: disk, d': disk, v: Vol, bm: seq<nat>, dcs: seq<nat>, dcs2: seq<nat>, name: bytes, extra: set<nat>,
                   names: seq<bytes>, chs: seq<seq<nat>>, data: bytes, fcs: seq<nat>)
    requires Touched(d, d', v, bm, dcs, dcs2, name, extra) && NoNul(name) && DirX(d, v, dcs)
    requires AllTidy(Listing(d, v, dcs))
    requires Reads(d, v, names, chs, data, fcs) && AllBeside(bm, dcs, name, extra, names, chs)
    requires Apart(fcs, bm) && Apart(fcs, dcs) && Clear(fcs, extra)
    ensures Reads(d', v, names, AllMoved(dcs, dcs2, chs), data, fcs)
    ensures SlimPath(d, v, names, chs) ==> SlimPath(d', v, names, AllMoved(dcs, dcs2, chs))
  {
    hide DirX, Touched, Tidy, Search, Record, Listing, Beside, Moved, NoNul, FileX, Step, Apart, Clear, SlimDir;
    var n := |names| - 1;
    var all := AllMoved(dcs, dcs2, chs);
    forall j | 0 <= j < n
      ensures Step(d', v, all[j], names[j], all[j + 1])
    {
      ReadsAt(d, v, names, chs, data, fcs, j);
      ReadsAt(d, v, names, chs, data, fcs, j + 1);
      BesideStep(d, d', v, bm, dcs, dcs2, name, extra, chs[j], names[j], chs[j + 1], names[j + 1]);
    }
    ReadsAt(d, v, names, chs, data, fcs, 0);
    BesideSearch(d, d', v, bm, dcs, dcs2, name, extra, chs[0], names[0]);
    ReadsAt(d, v, names, chs, data, fcs, n);
    BesideFile(d, d', v, bm, dcs, dcs2, name, extra, chs[n], names[n], data, fcs);
    if SlimPath(d, v, names, chs) {
      forall j | 0 <= j < |all|
        ensures DirX(d', v, all[j]) && SlimDir(d', v, all[j], names[j])
      {
        ReadsAt(d, v, names, chs, data, fcs, j);
        SlimOnPath(d, v, names, chs, j);
        BesideSearch(d, d', v, bm, dcs, dcs2, name, extra, chs[j], names[j]);
      }
    }
  }

  // ---------------------------------------------------------------- other paths

  /** The same names, up to case. */
  predicate SameNames(a: seq<bytes>, b: seq<bytes>)
  {
    |a| == |b| && forall i | 0 <= i < |a| :: Key(a[i]) == Key(b[i])
  }

  /** Directories of two paths are the same under the same names, and share nothing otherwise. */
  predicate OneTree(names: seq<bytes>, chs: seq<seq<nat>>, names2: seq<bytes>, chs2: seq<seq<nat>>)
  {
    && |chs| <= |names| && |chs2| <= |names2|
    && forall i, j | 0 <= i < |chs| && 0 <= j < |chs2| ::
      Apart(chs2[j], chs[i]) || (chs2[j] == chs[i] && SameNames(names2[..j], names[..i]))
  }

  /** The clusters of another file, its directories included, are neither the bitmap's nor the old file's. */
  predicate Elsewhere(bm: seq<nat>, oldCs: seq<nat>, chs: seq<seq<nat>>, fcs: seq<nat>)
  {
    Apart(fcs, bm) && Apart(fcs, oldCs) && forall j | 0 <= j < |chs| :: Apart(chs[j], bm) && Apart(chs[j], oldCs)
  }

  lemma SameMore(a: seq<bytes>, b: seq<bytes>, j: nat, k: nat)
    requires j + 1 == |a| && k + 1 == |b| && SameNames(a[..j], b[..k]) && Key(a[j]) == Key(b[k])
    ensures SameNames(a, b)
  {
    hide Key;
    forall i | 0 <= i < |a|
      ensures Key(a[i]) == Key(b[i])
    {
      if i < j { assert a[..j][i] == a[i] && b[..k][i] == b[i]; }
    }
  }

  lemma SameSearch(d: disk, v: Vol, dcs: seq<nat>, a: bytes, b: bytes)
    requires DirX(d, v, dcs) && Key(a) == Key(b) && Search(d, v, dcs, a).At?
    ensures Search(d, v, dcs, b).At? && Record(d, v, dcs, a) == Record(d, v, dcs, b)
  {
    hide DirX, Listing, Key, ParsedAt;
  }

  /** On another path no directory answers to the name that was written. */
  lemma OtherName(d: disk, v: Vol, bm: seq<nat>, names: seq<bytes>, chs: seq<seq<nat>>, oldCs: seq<nat>,
                  names2: seq<bytes>, chs2: seq<seq<nat>>, data: bytes, fcs: seq<nat>, j: nat)
    requires Rewritable(d, v, bm, chs, names, oldCs) && DirX(d, v, chs[|chs| - 1])
    requires |chs| < |names| ==> !Search(d, v, chs[|chs| - 1], names[|chs| - 1]).At?
    requires Reads(d, v, names2, chs2, data, fcs) && !SameNames(names2, names) && Elsewhere(bm, oldCs, chs2, fcs)
    requires j < |chs2| && chs2[j] == chs[|chs| - 1] && SameNames(names2[..j], names[..|chs| - 1])
    ensures Key(names2[j]) != Key(names[|chs| - 1])
  {
    hide DirX, Search, Record, FileX, Step, Key, Leads;
    var k := |chs| - 1;
    ReadsAt(d, v, names2, chs2, data, fcs, j);
    if Key(names2[j]) == Key(names[k]) {
      SameSearch(d, v, chs2[j], names2[j], names[k]);
      if j + 1 < |names2| {
        StepIs(d, v, chs2[j], names2[j], chs2[j + 1]);
        OldHead(d, v, bm, chs[k], names[k], oldCs, chs2[j + 1]);
      } else {
        SameMore(names2, names, j, k);
      }
    }
  }

  /** A directory that starts where the old file does is not apart from it. */
  lemma OldHead(d: disk, v: Vol, bm: seq<nat>, dcs: seq<nat>, name: bytes, oldCs: seq<nat>, other: seq<nat>)
    requires DirX(d, v, dcs) && OldClusters(d, v, bm, dcs, name, oldCs) && Search(d, v, dcs, name).At?
    requires DirX(d, v, other) && other[0] == Record(d, v, dcs, name).cluster
    ensures !Apart(other, oldCs)
  {
    hide Entry, Limit, Search, Record;
    assert other[0] in other;
    UsableEntry(d, v, other[0], other, 0);
  }

  /** A file under another path is as it was, though its directories may have become longer, and the searches for it
      fit into their buffer if they did. */
  lemma OtherPathKept(d: disk, d': disk, v: Vol, bm: seq<nat>, names: seq<bytes>, chs: seq<seq<nat>>, dcs2: seq<nat>,
                      oldCs: seq<nat>, names2: seq<bytes>, chs2: seq<seq<nat>>, data: bytes, fcs: seq<nat>)
    requires Rewritable(d, v, bm, chs, names, oldCs) && DirX(d, v, chs[|chs| - 1])
    requires AllTidy(Listing(d, v, chs[|chs| - 1]))
    requires var k := |chs| - 1;
      Touched(d, d', v, bm, chs[k], dcs2, names[k], if |chs| == |names| then SetOf(oldCs) else {})
    requires |chs| < |names| && Search(d, v, chs[|chs| - 1], names[|chs| - 1]).At? ==> d' == d && dcs2 == chs[|chs| - 1]
    requires Reads(d, v, names2, chs2, data, fcs) && !SameNames(names2, names) && AllProper(names) && AllProper(names2)
    requires OneTree(names, chs, names2, chs2) && Elsewhere(bm, oldCs, chs2, fcs) && Apart(fcs, chs[|chs| - 1])
    ensures Reads(d', v, names2, AllMoved(chs[|chs| - 1], dcs2, chs2), data, fcs)
    ensures SlimPath(d, v, names2, chs2) ==> SlimPath(d', v, names2, AllMoved(chs[|chs| - 1], dcs2, chs2))
  {
    hide DirX, Search, Listing, Touched, FileX, Leads, Key, Tidy, OldClusters, SameNames, SlimPath;
    var k := |chs| - 1;
    var extra := if |chs| == |names| then SetOf(oldCs) else {};
    NameProper(names, k);
    if |chs| < |names| && Search(d, v, chs[k], names[k]).At? {
      assert AllMoved(chs[k], dcs2, chs2) == chs2;
    } else {
      forall j | 0 <= j < |chs2|
        ensures Beside(bm, chs[k], names[k], extra, chs2[j], names2[j])
      {
        NameProper(names2, j);
        if !Apart(chs2[j], chs[k]) {
          OtherName(d, v, bm, names, chs, oldCs, names2, chs2, data, fcs, j);
        }
      }
      BesideKept(d, d', v, bm, chs[k], dcs2, names[k], extra, names2, chs2, data, fcs);
    }
  }

  // ---------------------------------------------------------------- reading afterwards

  /** What has been written is read back, where it can be seen; an empty file is reported as an error. */
  method WriteThenRead(dk: array<bytes>, v: Vol, path: bytes, data: bytes, maxBytes: nat, ghost bm: seq<nat>,
                       ghost chs: seq<seq<nat>>, ghost oldCs: seq<nat>)
    returns (w: int, r: int, out: bytes)
    requires NoNul(path) && |data| < TWO32 && Ready(dk[..], v, bm) && PathNames(path) != []
    requires Walk(dk[..], v, Front(PathNames(path)), chs) && Disjoint(chs) && AllDirs(dk[..], v, bm, chs)
    requires Rewritable(dk[..], v, bm, chs, PathNames(path), oldCs) && Fitting(v, PathNames(path), |chs| - 1)
    requires AllTidy(Listing(dk[..], v, chs[|chs| - 1])) && Seen(dk[..], v, chs[|chs| - 1], PathNames(path)[|chs| - 1])
    requires SlimPath(dk[..], v, PathNames(path), chs)
    modifies dk
    ensures w == 0 && data != [] ==> r == 0 && out == data[..MinOf(|data|, maxBytes)]
    ensures w == 0 && data == [] ==> out == []
  {
    hide DirX, Search, Record, Step, Leads, Walk, Split, Key, Listing, Tidy, Disjoint, AllDirs, Rewritable, Fitting,
         Seen, Ready, Touched, LastCode, Readable, InfoRead, NoNul, SlimPath;
    ghost var way, cs;
    w, way, cs := WriteFilePath(dk, v, path, data, bm, chs, oldCs);
    r, out := -1, [];
    if w == 0 {
      ReadsRight(dk[..], v, PathNames(path), way, data, cs, maxBytes);
      ReadsEmpty(dk[..], v, PathNames(path), way, data, cs);
      r, out := ReadFilePath(dk, v, path, maxBytes, way, cs);
    }
  }

  lemma ReadsEmpty(d: disk, v: Vol, names: seq<bytes>, chs: seq<seq<nat>>, data: bytes, cs: seq<nat>)
    requires Reads(d, v, names, chs, data, cs)
    ensures |chs| == |names| && (cs == [] ==> data == [])
  {
    hide DirX, Search, Record, Leads, Chain;
  }

  /** A write, seen from a file under another path: whatever the result, it reads the same afterwards. */
  method WriteBeside(dk: array<bytes>, v: Vol, path: bytes, data: bytes, maxBytes: nat, other: bytes,
                     ghost bm: seq<nat>, ghost chs: seq<seq<nat>>, ghost oldCs: seq<nat>, ghost chs2: seq<seq<nat>>,
                     ghost data2: bytes, ghost fcs: seq<nat>)
    returns (w: int, r: int, out: bytes)
    requires NoNul(path) && NoNul(other) && |data| < TWO32 && Ready(dk[..], v, bm) && PathNames(path) != []
    requires Walk(dk[..], v, Front(PathNames(path)), chs) && Disjoint(chs) && AllDirs(dk[..], v, bm, chs)
    requires Rewritable(dk[..], v, bm, chs, PathNames(path), oldCs) && Fitting(v, PathNames(path), |chs| - 1)
    requires DirX(dk[..], v, chs[|chs| - 1]) && AllTidy(Listing(dk[..], v, chs[|chs| - 1]))
    requires Reads(dk[..], v, PathNames(other), chs2, data2, fcs) && !SameNames(PathNames(other), PathNames(path))
    requires OneTree(PathNames(path), chs, PathNames(other), chs2)
    requires Elsewhere(bm, oldCs, chs2, fcs) && Apart(fcs, chs[|chs| - 1]) && fcs != []
    requires SlimPath(dk[..], v, PathNames(path), chs) && SlimPath(dk[..], v, PathNames(other), chs2)
    modifies dk
    ensures r == 0 && out == data2[..MinOf(Size32(|data2|), maxBytes)]
  {
    hide DirX, Search, Record, Step, Leads, Walk, Split, Key, Listing, Tidy, Disjoint, AllDirs, Fitting, Seen, Ready,
         Touched, LastCode, Readable, InfoRead, NoNul, OneTree, Elsewhere, SameNames, Apart, OldClusters, FileX, Proper,
         SlimPath;
    ghost var d := dk[..];
    ghost var way, cs;
    w, way, cs := WriteFilePath(dk, v, path, data, bm, chs, oldCs);
    ghost var k := |chs| - 1;
    PathProper(path);
    PathProper(other);
    OtherPathKept(d, dk[..], v, bm, PathNames(path), chs, way[k], oldCs, PathNames(other), chs2, data2, fcs);
    ghost var now := AllMoved(chs[k], way[k], chs2);
    ReadsRight(dk[..], v, PathNames(other), now, data2, fcs, maxBytes);
    r, out := ReadFilePath(dk, v, other, maxBytes, now, fcs);
  }
}
