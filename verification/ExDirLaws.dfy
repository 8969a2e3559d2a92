/** Searching an exFAT directory after a set has been written into it. */
module ExDirLaws {
  import opened Bytes
  import opened EntrySets
  import opened DirEntries
  import opened ExDir

  // ---------------------------------------------------------------- one cluster

  /** Outside the written bytes the scan sees what it saw. */
  lemma OutsideHits(c: bytes, p: nat, s: bytes, q: nat, want: bytes)
    requires Tidy(c) && p % 32 == 0 && |s| % 32 == 0 && |s| > 0 && p + |s| <= |c| && !Inner(c[p])
    requires q % 32 == 0 && q + 32 <= |c| && !(p <= q < p + |s|)
    ensures Put(c, p, s)[q] == c[q] && Hits(Put(c, p, s), q, want) == Hits(c, q, want)
  {
    hide Put, Tidy, Claims, ParsedAt, Match, Secondary;
    SetOutside(c, p, s, q);
  }

  /** The written set is hit under its own name; its other entries are neither hit nor an end. */
  lemma InsideHits(c: bytes, p: nat, s: bytes, name: bytes, info: Info, q: nat, want: bytes)
    requires SetOfName(s, name, info) && p % 32 == 0 && p + |s| <= |c| && p <= q < p + |s| && q % 32 == 0
    requires q + 32 <= |c|
    ensures Put(c, p, s)[q] != 0 && (Hits(Put(c, p, s), q, want) <==> q == p && Match(name, want))
  {
    hide Put, Match, IsSet, Inner, ParsedAt;
    PutByte(c, p, s, q);
    if q == p {
      SetStands(c, p, s, name, info);
    } else {
      SetTypes(s, name, info, q - p);
      InnerNotFile(s[q - p]);
    }
  }

  /** A scan that meets no hit and no end before the set stops at it. */
  lemma {:induction false} ScanWritten(c: bytes, off: nat, p: nat, s: bytes, name: bytes, info: Info, want: bytes)
    requires Entries(c) && Tidy(c) && SetOfName(s, name, info) && |s| % 32 == 0 && |s| > 0 && p + |s| <= |c|
    requires !Inner(c[p])
    requires off % 32 == 0 && p % 32 == 0 && off <= p && LiveTo(c, off, p) && Match(name, want)
    requires forall q | off <= q < p && q % 32 == 0 && q + 32 <= |c| :: !Hits(c, q, want)
    ensures ScanFrom(Put(c, p, s), off, want) == Hit(p)
    decreases p - off
  {
    hide Put, Hits, Tidy, Inner, SetOfName, Match;
    EntryFits(c, off);
    if off < p {
      OutsideHits(c, p, s, off, want);
      ScanWritten(c, off + 32, p, s, name, info, want);
    } else {
      InsideHits(c, p, s, name, info, p, want);
    }
  }

  lemma {:induction false} NotHit(c: bytes, off: nat, want: bytes, p: nat, q: nat)
    requires Entries(c) && off % 32 == 0 && (ScanFrom(c, off, want).Hit? ==> p <= ScanFrom(c, off, want).off)
    requires off <= q < p <= |c| && q % 32 == 0 && q + 32 <= |c| && LiveTo(c, off, p)
    ensures !Hits(c, q, want)
    decreases |c| - off
  {
    hide Hits;
    if off < q { NotHit(c, off + 32, want, p, q); }
  }

  /** A cluster with an end mark and without a hit stops the search, one without is passed. */
  lemma {:induction false} ScanEnds(c: bytes, off: nat, want: bytes)
    requires Entries(c) && off % 32 == 0 && off <= |c| && !ScanFrom(c, off, want).Hit?
    ensures ScanFrom(c, off, want) == if LiveTo(c, off, |c|) then Past else Stop
    decreases |c| - off
  {
    hide Hits;
    if off < |c| {
      EntryFits(c, off);
      if c[off] != 0 {
        ScanEnds(c, off + 32, want);
        assert LiveTo(c, off, |c|) <==> LiveTo(c, off + 32, |c|);
      }
    }
  }

  /** Where a set may be written: on an end mark, or on entries none of which starts another set. */
  predicate Room(c: bytes, p: nat, n: nat)
  {
    && p % 32 == 0 && p + n <= |c| && p < |c| && !Inner(c[p])
    && (c[p] == 0 || forall q | p < q < p + n && q % 32 == 0 :: c[q] != ENTRY_FILE)
  }

  /** A scan for another name that hits elsewhere, or passes the cluster, does so after the write. */
  lemma {:induction false} ScanOther(c: bytes, off: nat, p: nat, s: bytes, name: bytes, info: Info, want: bytes)
    requires Entries(c) && Tidy(c) && SetOfName(s, name, info) && |s| % 32 == 0 && |s| > 0 && Room(c, p, |s|)
    requires off % 32 == 0 && off <= |c| && !Match(name, want) && (off > p ==> c[p] != 0)
    requires var r := ScanFrom(c, off, want); !r.Stop? && r != Hit(p)
    ensures ScanFrom(Put(c, p, s), off, want) == ScanFrom(c, off, want)
    ensures var r := ScanFrom(c, off, want); r.Hit? ==> !(p <= r.off < p + |s|)
    decreases |c| - off
  {
    hide Put, Tidy, SetOfName, Match, ParsedAt;
    if off < |c| {
      EntryFits(c, off);
      if p <= off < p + |s| {
        InsideHits(c, p, s, name, info, off, want);
      } else {
        OutsideHits(c, p, s, off, want);
      }
      if !Hits(c, off, want) {
        ScanOther(c, off + 32, p, s, name, info, want);
      }
    }
  }

  // ---------------------------------------------------------------- the whole directory

  /** No cluster from `k` to before `i` ends the directory. */
  predicate NoEnd(cl: seq<bytes>, k: nat, i: nat)
  {
    forall j | k <= j < i && j < |cl| :: LiveTo(cl[j], 0, |cl[j]|)
  }

  /** A set written into the slot of a directory that does not have its name is found there exactly if no earlier
      cluster ends the directory; otherwise the search stops at that end. */
  lemma {:induction false} FoundNew(cl: seq<bytes>, k: nat, i: nat, p: nat, s: bytes, name: bytes, info: Info,
                                    want: bytes)
    requires AllEntries(cl) && AllTidy(cl) && SetOfName(s, name, info) && |s| % 32 == 0 && |s| > 0 && k <= i
    requires Slot(cl, k, |s| / 32) == At(i, p) && !Find(cl, k, want).At? && Match(name, want)
    ensures i < |cl| && p + |s| <= |cl[i]|
    ensures Find(WithSet(cl, i, p, s), k, want) == if NoEnd(cl, k, i) then At(i, p) else Ended
    decreases |cl| - k
  {
    hide Put, Tidy, SetOfName, Match, Hits, Inner;
    var w := WithSet(cl, i, p, s);
    if k == i {
      RoomStart(cl[i], p, |s| / 32);
      forall q | 0 <= q < p && q % 32 == 0 && q + 32 <= |cl[i]|
        ensures !Hits(cl[i], q, want)
      {
        NotHit(cl[i], 0, want, p, q);
      }
      ScanWritten(cl[i], 0, p, s, name, info, want);
    } else {
      assert w[k] == cl[k];
      ScanEnds(cl[k], 0, want);
      if LiveTo(cl[k], 0, |cl[k]|) {
        FoundNew(cl, k + 1, i, p, s, name, info, want);
        assert NoEnd(cl, k, i) <==> NoEnd(cl, k + 1, i);
      }
    }
  }

  lemma RoomStart(c: bytes, p: nat, t: nat)
    requires IsRoom(c, p, t) && t > 0
    ensures p % 32 == 0 && p + 32 * t <= |c| && LiveTo(c, 0, p) && !Inner(c[p]) && Room(c, p, 32 * t)
  {
    assert Free(c[p]);
  }

  /** A set written over a set of the same name is found where that was. */
  lemma {:induction false} FoundSame(cl: seq<bytes>, k: nat, i: nat, p: nat, s: bytes, name: bytes, info: Info,
                                     want: bytes)
    requires AllEntries(cl) && AllTidy(cl) && SetOfName(s, name, info) && |s| % 32 == 0 && |s| > 0
    requires Find(cl, k, want) == At(i, p) && Match(name, want) && p + |s| <= |cl[i]|
    ensures Find(WithSet(cl, i, p, s), k, want) == At(i, p)
    decreases |cl| - k
  {
    hide Put, Tidy, SetOfName, Match, ParsedAt;
    var w := WithSet(cl, i, p, s);
    if k == i {
      HitLive(cl[i], 0, want);
      forall q | 0 <= q < p && q % 32 == 0 && q + 32 <= |cl[i]|
        ensures !Hits(cl[i], q, want)
      {
        NotHit(cl[i], 0, want, p, q);
      }
      ScanWritten(cl[i], 0, p, s, name, info, want);
    } else {
      assert w[k] == cl[k];
      FoundSame(cl, k + 1, i, p, s, name, info, want);
    }
  }

  lemma {:induction false} HitLive(c: bytes, off: nat, want: bytes)
    requires Entries(c) && off % 32 == 0 && ScanFrom(c, off, want).Hit?
    ensures LiveTo(c, off, ScanFrom(c, off, want).off)
    decreases |c| - off
  {
    hide Hits;
    EntryFits(c, off);
    if !Hits(c, off, want) { HitLive(c, off + 32, want); }
  }

  /** A set found elsewhere is still found there, and is as it was, after a set of another name has been written. */
  lemma {:induction false} FoundOther(cl: seq<bytes>, k: nat, i: nat, p: nat, s: bytes, name: bytes, info: Info,
                                      want: bytes)
    requires AllEntries(cl) && AllTidy(cl) && SetOfName(s, name, info) && |s| % 32 == 0 && |s| > 0 && i < |cl|
    requires Room(cl[i], p, |s|) && !Match(name, want) && Find(cl, k, want).At? && Find(cl, k, want) != At(i, p)
    ensures p + |s| <= |cl[i]|
    ensures var r := Find(cl, k, want); var w := WithSet(cl, i, p, s);
      && Find(w, k, want) == r && r.off + 32 <= |w[r.i]| && Claims(w[r.i], r.off)
      && ParsedAt(w[r.i], r.off) == ParsedAt(cl[r.i], r.off)
    decreases |cl| - k
  {
    hide Put, Tidy, SetOfName, Match, ParsedAt, Inner, Secondary;
    var w := WithSet(cl, i, p, s);
    var r := Find(cl, k, want);
    RoomIs(cl[i], p, |s|);
    if k == i {
      ScanOther(cl[i], 0, p, s, name, info, want);
      if r.i == i {
        SetOutside(cl[i], p, s, r.off);
      } else if i + 1 < |cl| {
        FindBehind(cl, w, i + 1, want);
      }
    } else {
      assert w[k] == cl[k];
      if ScanFrom(cl[k], 0, want).Past? { FoundOther(cl, k + 1, i, p, s, name, info, want); }
    }
  }

  /** So does the place of a set that is at least as long. */
  lemma RoomOver(c: bytes, p: nat, n: nat)
    requires Tidy(c) && p % 32 == 0 && p + 32 <= |c| && Claims(c, p) && n <= 32 * (Secondary(c, p) + 1)
    ensures Room(c, p, n)
  {
    hide Tidy;
    forall q | p < q < p + n && q % 32 == 0
      ensures c[q] != ENTRY_FILE
    {
      InnerAt(c, p, q);
    }
  }

  lemma RoomIs(c: bytes, p: nat, n: nat)
    requires Room(c, p, n)
    ensures p % 32 == 0 && p + n <= |c| && !Inner(c[p])
  {
  }

  lemma {:induction false} FindBehind(cl: seq<bytes>, w: seq<bytes>, k: nat, want: bytes)
    requires AllEntries(cl) && AllEntries(w) && |w| == |cl| && forall j | k <= j < |cl| :: w[j] == cl[j]
    ensures Find(w, k, want) == Find(cl, k, want)
    decreases |cl| - k
  {
    if k < |cl| { FindBehind(cl, w, k + 1, want); }
  }

  // ---------------------------------------------------------------- a further cluster

  /** A cleared cluster behind the others adds nothing to what can be found. */
  lemma {:induction false} FoundLonger(cl: seq<bytes>, k: nat, n: nat, want: bytes)
    requires AllEntries(cl) && k <= |cl| && n % 32 == 0 && n > 0
    ensures AllEntries(cl + [Zeros(n)])
    ensures Find(cl + [Zeros(n)], k, want) == if Find(cl, k, want).Exhausted? then Ended else Find(cl, k, want)
    decreases |cl| - k
  {
    hide Hits;
    var all := cl + [Zeros(n)];
    if k < |cl| {
      FoundLonger(cl, k + 1, n, want);
    } else {
      assert all[k][0] == 0;
    }
  }

  /** And it is where a set has room when the others have none. */
  lemma {:induction false} SlotLonger(cl: seq<bytes>, k: nat, n: nat, t: nat)
    requires AllEntries(cl) && k <= |cl| && n % 32 == 0 && 0 < 32 * t <= n
    ensures AllEntries(cl + [Zeros(n)])
    ensures Slot(cl + [Zeros(n)], k, t) == if Slot(cl, k, t).Exhausted? then At(|cl|, 0) else Slot(cl, k, t)
    decreases |cl| - k
  {
    var all := cl + [Zeros(n)];
    if k < |cl| {
      SlotLonger(cl, k + 1, n, t);
    } else {
      assert all[k][0] == 0;
      assert FreeFrom(all[k], 0, 0, t) == 0;
    }
  }

  /** A set found keeps room for the same name written anew. */
  lemma NameFits(c: bytes, p: nat, want: bytes)
    requires p + 32 <= |c| && Hits(c, p, want)
    ensures 1 + NameEntries(|want|) <= Secondary(c, p)
  {
    hide Match;
    var es, n := SetBytes(c, p), Secondary(c, p);
    CollectLen(es, n, 2, if es[35] as int >= 256 then 255 else es[35] as int, []);
    MatchLen(ParsedAt(c, p).1.name, want);
  }

  lemma MatchLen(name: bytes, want: bytes)
    requires Match(name, want)
    ensures |want| <= |name|
  {
  }

  /** Each name entry gives at most fifteen characters. */
  lemma {:induction false} CollectLen(es: bytes, secondary: nat, i: nat, want: nat, got: bytes)
    requires |es| >= 32 * (secondary + 1)
    ensures |Collect(es, secondary, i, want, got)| <= |got| + 15 * (if i <= secondary then secondary + 1 - i else 0)
    decreases secondary + 1 - i
  {
    hide Chars;
    if i <= secondary && |got| < want {
      if es[32 * i] != ENTRY_NAME {
        CollectLen(es, secondary, i + 1, want, got);
      } else {
        CollectLen(es, secondary, i + 1, want, got + Chars(es[32 * i..32 * i + 32],
          if want - |got| < 15 then want - |got| else 15));
      }
    }
  }

  // ---------------------------------------------------------------- a directory whose new entry cannot be found

  /** A directory of one cluster, full but for its last entry, which is an end mark. */
  function FullButOne(): (c: bytes)
    ensures |c| == 512 && forall k | 0 <= k < 512 :: c[k] == if k < 480 then ENTRY_NAME else 0
  {
    seq(512, k => if k < 480 then ENTRY_NAME else 0)
  }

  lemma {:induction false} NoRoomFrom(off: nat)
    requires off % 32 == 0 && off <= 480
    ensures FreeFrom(FullButOne(), off, 0, 3) == 512
    decreases 480 - off
  {
    var c := FullButOne();
    if off < 480 {
      NoRoomFrom(off + 32);
    } else {
      assert FreeFrom(c, 512, 1, 3) == 512;
    }
  }

  /** A set of three entries goes into a further cluster, behind the end mark, and no search comes to it. */
  lemma HiddenEntry(s: bytes, name: bytes, info: Info)
    requires SetOfName(s, name, info) && |s| == 96
    ensures var cl := [FullButOne(), Zeros(512)];
      && Slot([FullButOne()], 0, 3).Exhausted? && Slot(cl, 0, 3) == At(1, 0)
      && AllEntries(cl) && Find(WithSet(cl, 1, 0, s), 0, name) == Ended
  {
    hide Put, SetOfName, Match, Hits;
    var c := FullButOne();
    var cl := [c, Zeros(512)];
    NoRoomFrom(0);
    assert Slot([c], 1, 3).Exhausted?;
    assert [c] + [Zeros(512)] == cl;
    SlotLonger([c], 0, 512, 3);
    var w := WithSet(cl, 1, 0, s);
    FullScan(0, name);
    assert w[0] == c;
  }

  lemma {:induction false} FullScan(off: nat, want: bytes)
    requires off % 32 == 0 && off <= 480
    ensures ScanFrom(FullButOne(), off, want) == Stop
    decreases 480 - off
  {
    if off < 480 { FullScan(off + 32, want); }
  }
}
