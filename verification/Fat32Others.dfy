/** Files under other FAT32 paths are as they were after a write. */
module Fat32Others {
  import opened Bytes
  import opened Components
  import opened Volume
  import opened Bitmap
  import opened FileData
  import opened Keeping
  import opened DirEntries
  import opened Dir83
  import opened Fat32Dir
  import opened Fat32File
  import opened Fat32Path
  import opened Fat32Write
  import opened Fat32Laws
  import opened Fat32Driver

  /** Writing an entry changes no search for another name that was successful. */
  lemma PutSearch(cl: seq<bytes>, w: seq<bytes>, name: bytes, i: nat, p: nat, e: bytes, want: bytes)
    requires EntryPut(cl, w, name, i, p, e) && want != name && Find(cl, 0, want).At?
    ensures AllEntries(w) && Find(w, 0, want) == Find(cl, 0, want) && |w| == |cl|
    ensures var f := Find(cl, 0, want); f.off + 32 <= |w[f.i]| && FoundEntry(w, f) == FoundEntry(cl, f)
  {
    hide Put;
    if Find(cl, 0, name).At? {
      assert EntryOf(cl[i], p)[..11] == name;
    } else {
      assert cl[i][p] == EntryOf(cl[i], p)[0];
    }
    FoundOther(cl, 0, i, p, e, want);
  }

  lemma TouchedSearch(d: disk, d': disk, v: Vol, dcs: seq<nat>, name: bytes, extra: set<nat>, want: bytes)
    requires Altered(d, d', v, dcs, name, extra) && want != name && DirOf(d, v, dcs) && Search(d, v, dcs, want).At?
    ensures DirOf(d', v, dcs) && Search(d', v, dcs, want) == Search(d, v, dcs, want)
    ensures SearchEntry(d', v, dcs, want) == SearchEntry(d, v, dcs, want)
  {
    hide DirAt, EntryPut, Keeps, Find, Contents;
    if Listing(d', v, dcs) != Listing(d, v, dcs) {
      var i: nat, p: nat, e :| EntryPut(Contents(d, v, dcs), Contents(d', v, dcs), name, i, p, e);
      PutSearch(Contents(d, v, dcs), Contents(d', v, dcs), name, i, p, e, want);
    }
  }

  /** A directory on another path: it is another one, or the one touched, under another name. */
  predicate Beside(dcs: seq<nat>, name: bytes, extra: set<nat>, other: seq<nat>, want: bytes)
  {
    Clear(other, extra) && (Apart(other, dcs) || (other == dcs && want != name))
  }

  lemma BesideSearch(d: disk, d': disk, v: Vol, dcs: seq<nat>, name: bytes, extra: set<nat>, other: seq<nat>,
                     want: bytes)
    requires Altered(d, d', v, dcs, name, extra) && Beside(dcs, name, extra, other, want)
    requires DirOf(d, v, other) && Search(d, v, other, want).At?
    ensures DirOf(d', v, other) && Search(d', v, other, want) == Search(d, v, other, want)
    ensures SearchEntry(d', v, other, want) == SearchEntry(d, v, other, want)
  {
    hide DirAt, OneEntry, Keeps, Find, Contents;
    if Apart(other, dcs) {
      SameListing(d, d', v, SetOf(dcs) + extra, other);
    } else {
      TouchedSearch(d, d', v, dcs, name, extra, want);
    }
  }

  /** A file beside what has been touched can be reached as before and holds what it held. */
  lemma BesideKept(d: disk, d': disk, v: Vol, dcs: seq<nat>, name: bytes, extra: set<nat>, names: seq<bytes>,
                   chs: seq<seq<nat>>, data: bytes, fcs: seq<nat>)
    requires Altered(d, d', v, dcs, name, extra) && Reads(d, v, names, chs, data, fcs)
    requires forall j | 0 <= j < |chs| :: Beside(dcs, name, extra, chs[j], names[j])
    requires Apart(fcs, dcs) && Clear(fcs, extra)
    ensures Reads(d', v, names, chs, data, fcs)
  {
    hide DirOf, Beside, Altered, Step, FileIn, Apart, Clear;
    var n := |names| - 1;
    forall j | 0 <= j < n
      ensures Step(d', v, chs[j], names[j], chs[j + 1])
    {
      BesideAt(d, d', v, dcs, name, extra, names, chs, data, fcs, j);
    }
    FileDir(d, v, chs[n], names[n], data, fcs);
    BesideFile(d, d', v, dcs, name, extra, chs[n], names[n], data, fcs);
    BesideRoot(d, d', v, dcs, name, extra, names, chs, data, fcs);
  }

  lemma BesideAt(d: disk, d': disk, v: Vol, dcs: seq<nat>, name: bytes, extra: set<nat>, names: seq<bytes>,
                 chs: seq<seq<nat>>, data: bytes, fcs: seq<nat>, j: nat)
    requires Altered(d, d', v, dcs, name, extra) && Reads(d, v, names, chs, data, fcs) && j < |names| - 1
    requires Beside(dcs, name, extra, chs[j], names[j]) && Beside(dcs, name, extra, chs[j + 1], names[j + 1])
    ensures Step(d', v, chs[j], names[j], chs[j + 1])
  {
    hide DirOf, Beside, Altered, Step, FileIn, Leads;
    var n := |names| - 1;
    LeadsStep(d, v, Front(names), chs, j);
    if j + 1 < n {
      LeadsStep(d, v, Front(names), chs, j + 1);
      StepIs(d, v, chs[j + 1], names[j + 1], chs[j + 2]);
    } else {
      FileDir(d, v, chs[n], names[n], data, fcs);
    }
    BesideStep(d, d', v, dcs, name, extra, chs[j], names[j], chs[j + 1], names[j + 1]);
  }

  lemma FileDir(d: disk, v: Vol, dcs: seq<nat>, name: bytes, data: bytes, fcs: seq<nat>)
    requires FileIn(d, v, dcs, name, data, fcs)
    ensures DirOf(d, v, dcs) && Search(d, v, dcs, name).At?
  {
    hide DirAt, Find, Chain;
  }

  lemma BesideRoot(d: disk, d': disk, v: Vol, dcs: seq<nat>, name: bytes, extra: set<nat>, names: seq<bytes>,
                   chs: seq<seq<nat>>, data: bytes, fcs: seq<nat>)
    requires Altered(d, d', v, dcs, name, extra) && Reads(d, v, names, chs, data, fcs)
    requires Beside(dcs, name, extra, chs[0], names[0])
    ensures DirOf(d', v, chs[0])
  {
    hide DirOf, Beside, Altered, Step, FileIn;
    if |names| > 1 {
      assert Front(names)[0] == names[0];
      LeadsStep(d, v, Front(names), chs, 0);
      StepIs(d, v, chs[0], names[0], chs[1]);
    } else {
      FileDir(d, v, chs[0], names[0], data, fcs);
    }
    BesideSearch(d, d', v, dcs, name, extra, chs[0], names[0]);
  }

  lemma BesideStep(d: disk, d': disk, v: Vol, dcs: seq<nat>, name: bytes, extra: set<nat>, other: seq<nat>, want: bytes,
                   next: seq<nat>, after: bytes)
    requires Altered(d, d', v, dcs, name, extra) && Step(d, v, other, want, next)
    requires Beside(dcs, name, extra, other, want) && Beside(dcs, name, extra, next, after)
    requires Search(d, v, next, after).At?
    ensures Step(d', v, other, want, next)
  {
    hide DirAt, Beside, Altered, IsDir, Target, Find, Contents;
    BesideSearch(d, d', v, dcs, name, extra, other, want);
    BesideSearch(d, d', v, dcs, name, extra, next, after);
  }

  lemma BesideFile(d: disk, d': disk, v: Vol, dcs: seq<nat>, name: bytes, extra: set<nat>, other: seq<nat>, want: bytes,
                   data: bytes, fcs: seq<nat>)
    requires Altered(d, d', v, dcs, name, extra) && FileIn(d, v, other, want, data, fcs)
    requires Beside(dcs, name, extra, other, want) && Apart(fcs, dcs) && Clear(fcs, extra)
    ensures FileIn(d', v, other, want, data, fcs)
  {
    hide DirAt, Beside, IsDir, Start, Size, Find, OneEntry, Cluster, Contents, Chain;
    FileDir(d, v, other, want, data, fcs);
    TouchedKeeps(d, d', v, dcs, name, extra);
    KeepsChain(d, d', v, SetOf(dcs) + extra, fcs[0], fcs);
    SameBytesOf(d, d', v, fcs);
    BesideSearch(d, d', v, dcs, name, extra, other, want);
  }

  lemma TouchedKeeps(d: disk, d': disk, v: Vol, dcs: seq<nat>, name: bytes, extra: set<nat>)
    requires Altered(d, d', v, dcs, name, extra)
    ensures Keeps(d, d', v, SetOf(dcs) + extra)
  {
  }

  // ---------------------------------------------------------------- other paths

  /** Directories of two paths are the same under the same names, and share nothing otherwise. */
  predicate OneTree(names: seq<bytes>, chs: seq<seq<nat>>, names2: seq<bytes>, chs2: seq<seq<nat>>)
  {
    |chs| <= |names| && |chs2| <= |names2| &&
    forall i, j | 0 <= i < |chs| && 0 <= j < |chs2| ::
      Apart(chs2[j], chs[i]) || (chs2[j] == chs[i] && names2[..j] == names[..i])
  }

  /** What `fat32_write_file_path` has touched, when it has changed anything: the last directory of `chs`, where the
      name that follows is that of a new entry or of the file. */
  ghost predicate WroteUnder(d: disk, d': disk, v: Vol, names: seq<bytes>, chs: seq<seq<nat>>)
  {
    0 < |chs| <= |names| &&
    var dcs, name := chs[|chs| - 1], names[|chs| - 1];
    && DirOf(d, v, dcs) && Altered(d, d', v, dcs, name, if |chs| == |names| then Own(d, v, dcs, name) else {})
    && (d' == d || if |chs| == |names| then !Goes(d, v, dcs, name) else !Search(d, v, dcs, name).At?)
  }

  /** On another path no directory answers to the name that was written. */
  lemma OtherName(d: disk, v: Vol, names: seq<bytes>, chs: seq<seq<nat>>, names2: seq<bytes>, chs2: seq<seq<nat>>,
                  data: bytes, fcs: seq<nat>, j: nat)
    requires 0 < |chs| <= |names| && DirOf(d, v, chs[|chs| - 1]) && Reads(d, v, names2, chs2, data, fcs)
    requires names2 != names
    requires if |chs| == |names| then !Goes(d, v, chs[|chs| - 1], names[|chs| - 1])
             else !Search(d, v, chs[|chs| - 1], names[|chs| - 1]).At?
    requires j < |chs2| && chs2[j] == chs[|chs| - 1] && names2[..j] == names[..|chs| - 1]
    ensures names2[j] != names[|chs| - 1]
  {
    hide DirOf, Search, SearchEntry, FileIn, Step, IsDir;
    var n := |names2| - 1;
    if j < n {
      assert Front(names2)[j] == names2[j];
      LeadsStep(d, v, Front(names2), chs2, j);
      StepIs(d, v, chs2[j], names2[j], chs2[j + 1]);
    } else {
      FileDir(d, v, chs2[j], names2[j], data, fcs);
      assert names2 == names2[..j] + [names2[j]];
      if |chs| == |names| { assert names == names[..|chs| - 1] + [names[|chs| - 1]]; }
    }
  }

  /** A file under another path, whose clusters are no directory's, is as it was. */
  lemma OtherPathKept(d: disk, d': disk, v: Vol, names: seq<bytes>, chs: seq<seq<nat>>, names2: seq<bytes>,
                      chs2: seq<seq<nat>>, data: bytes, fcs: seq<nat>)
    requires WroteUnder(d, d', v, names, chs) && Reads(d, v, names2, chs2, data, fcs) && names2 != names
    requires OneTree(names, chs, names2, chs2) && (forall i | 0 <= i < |chs| :: Apart(fcs, chs[i]))
    requires |chs| == |names| ==>
      DirOf(d, v, chs[|chs| - 1]) && OwnApart(chs2 + [fcs], Own(d, v, chs[|chs| - 1], names[|chs| - 1]))
    ensures Reads(d', v, names2, chs2, data, fcs)
  {
    hide DirOf, Altered, FileIn, Leads, Own, Search, Goes, Apart, Clear;
    var k := |chs| - 1;
    var extra := if |chs| == |names| then Own(d, v, chs[k], names[k]) else {};
    if d' != d {
      forall j | 0 <= j < |chs2|
        ensures Beside(chs[k], names[k], extra, chs2[j], names2[j])
      {
        assert (chs2 + [fcs])[j] == chs2[j];
        ClearNone(chs2[j]);
        if !Apart(chs2[j], chs[k]) {
          OtherName(d, v, names, chs, names2, chs2, data, fcs, j);
        }
      }
      assert (chs2 + [fcs])[|chs2|] == fcs;
      ClearNone(fcs);
      BesideKept(d, d', v, chs[k], names[k], extra, names2, chs2, data, fcs);
    }
  }

  /** The file's own cluster belongs to nothing else. */
  predicate OwnApart(others: seq<seq<nat>>, own: set<nat>) { forall j | 0 <= j < |others| :: Clear(others[j], own) }

  /** A write, seen from a file under another path: whatever the result, it reads the same afterwards. */
  method WriteBeside(dk: array<bytes>, v: Vol, path: bytes, data: bytes, ghost chs: seq<seq<nat>>, other: bytes,
                     maxBytes: nat, ghost chs2: seq<seq<nat>>, ghost data2: bytes, ghost fcs: seq<nat>)
    returns (w: int, r: int, out: bytes)
    requires NoNul(path) && |data| < TWO32 && PathGoes(dk[..], v, Front(PathNames(path)), chs) && Disjoint(chs)
    requires |chs| == |PathNames(path)| ==> Replaceable(dk[..], v, chs, PathNames(path)[|chs| - 1])
    requires Reads(dk[..], v, PathNames(other), chs2, data2, fcs) && PathNames(other) != PathNames(path)
    requires PathNames(path) != [] ==> OneTree(PathNames(path), chs, PathNames(other), chs2)
    requires forall i | 0 <= i < |chs| :: Apart(fcs, chs[i])
    requires |chs| == |PathNames(path)| ==>
      && DirOf(dk[..], v, chs[|chs| - 1])
      && OwnApart(chs2 + [fcs], Own(dk[..], v, chs[|chs| - 1], PathNames(path)[|chs| - 1]))
    modifies dk
    ensures r == 0 && out == data2[..MinOf(|data2|, maxBytes)]
  {
    hide DirOf, Goes, Search, SearchEntry, Step, Leads, PathGoes, Name83, Altered, Own, Lasting, Replaceable, Disjoint,
         Readable, EntryRead, FileIn, OwnApart, OneTree, Reads;
    ghost var d := dk[..];
    ghost var way, target;
    w, way, target := WriteFilePath(dk, v, path, data, chs);
    WalkSize(d, v, Front(PathNames(path)), chs);
    if PathNames(path) != [] {
      WroteIs(d, dk[..], v, PathNames(path), chs, w);
      OtherPathKept(d, dk[..], v, PathNames(path), chs, PathNames(other), chs2, data2, fcs);
    }
    ReadsNames(dk[..], v, PathNames(other), chs2, data2, fcs);
    ReadsRight(dk[..], v, PathNames(other), chs2, data2, fcs, maxBytes);
    r, out := ReadFilePath(dk, v, other, maxBytes, chs2, fcs);
  }

  lemma ReadsNames(d: disk, v: Vol, names: seq<bytes>, chs: seq<seq<nat>>, data: bytes, fcs: seq<nat>)
    requires Reads(d, v, names, chs, data, fcs)
    ensures |chs| == |names| > 0
  {
  }

  /** The result of `fat32_write_file_path` in the terms of `WroteUnder`. */
  lemma WroteIs(d: disk, d': disk, v: Vol, names: seq<bytes>, chs: seq<seq<nat>>, r: int)
    requires 0 < |chs| <= |names| && DirOf(d, v, chs[|chs| - 1])
    requires var k := |chs| - 1;
      Altered(d, d', v, chs[k], names[k], if |chs| == |names| then Own(d, v, chs[k], names[k]) else {})
    requires |chs| == |names| ==> v.secPerClus > 0 && r == FileCode(d, v, chs[|chs| - 1], names[|chs| - 1])
    requires |chs| == |names| && (r == -4 || r == -5) ==> d' == d
    requires |chs| < |names| && Search(d, v, chs[|chs| - 1], names[|chs| - 1]).At? ==> d' == d
    ensures WroteUnder(d, d', v, names, chs)
  {
    hide DirOf, Altered, Own, Search, SearchEntry, IsDir;
  }
}
