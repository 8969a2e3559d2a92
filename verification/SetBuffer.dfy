/** The buffer into which the search of an exFAT directory copies a set: when the sets that a search comes to fit. */
module SetBuffer {
  import opened Bytes
  import opened EntrySets
  import opened DirEntries
  import opened ExDir
  import opened ExDirLaws

  /** The length of the buffer. */
  const SETBUF: nat := 32 * 32

  /** The set at `off` is copied although it is longer than the buffer: it has 32 to 40 secondary entries, and lies
      inside the cluster. */
  predicate Wide(c: bytes, off: nat)
    requires off + 32 <= |c|
  {
    Claims(c, off) && Secondary(c, off) >= 32
  }

  // ---------------------------------------------------------------- what a search comes to

  /** Neither an end mark nor a hit from `lo` to before `hi`. */
  predicate Passed(c: bytes, lo: nat, hi: nat, want: bytes)
  {
    forall q | lo <= q < hi && q % 32 == 0 && q + 32 <= |c| :: c[q] != 0 && !Hits(c, q, want)
  }

  /** A scan of the cluster that starts at `lo` comes to the entry at `off`. */
  predicate Comes(c: bytes, lo: nat, off: nat, want: bytes)
  {
    lo <= off && off % 32 == 0 && off + 32 <= |c| && c[off] != 0 && Passed(c, lo, off, want)
  }

  /** The search comes to the entry at `off` of cluster `i`. */
  predicate Reached(cl: seq<bytes>, i: nat, off: nat, want: bytes)
  {
    i < |cl| && Comes(cl[i], 0, off, want) && forall j | 0 <= j < i :: Passed(cl[j], 0, |cl[j]|, want)
  }

  /** No set that the search comes to is too long for the buffer. */
  ghost predicate Slim(cl: seq<bytes>, want: bytes)
  {
    forall i: nat, off: nat | Reached(cl, i, off, want) :: !Wide(cl[i], off)
  }

  /** The same for one cluster, from `lo` on. */
  ghost predicate SlimFrom(c: bytes, lo: nat, want: bytes)
  {
    forall off: nat | Comes(c, lo, off, want) :: !Wide(c, off)
  }

  lemma SlimAt(cl: seq<bytes>, i: nat, want: bytes)
    requires Slim(cl, want) && i < |cl| && forall j | 0 <= j < i :: Passed(cl[j], 0, |cl[j]|, want)
    ensures SlimFrom(cl[i], 0, want)
  {
    hide Passed, Wide;
    forall off: nat | Comes(cl[i], 0, off, want)
      ensures !Wide(cl[i], off)
    {
      assert Reached(cl, i, off, want);
    }
  }

  // ---------------------------------------------------------------- the sets copied

  /** The lengths of the sets that one cluster has copied into the buffer. */
  function ScanSizes(c: bytes, off: nat, want: bytes): (ns: seq<nat>)
    requires Entries(c) && off % 32 == 0
    decreases |c| - off
  {
    if off >= |c| then []
    else
      EntryFits(c, off);
      if c[off] == 0 then []
      else
        (if Claims(c, off) then [|SetBytes(c, off)|] else [])
        + (if Hits(c, off, want) then [] else ScanSizes(c, off + 32, want))
  }

  /** The lengths of the sets that a search copies into the buffer. */
  function FindSizes(cl: seq<bytes>, i: nat, want: bytes): (ns: seq<nat>)
    requires AllEntries(cl)
    decreases |cl| - i
  {
    if i >= |cl| then []
    else ScanSizes(cl[i], 0, want) + if ScanFrom(cl[i], 0, want).Past? then FindSizes(cl, i + 1, want) else []
  }

  predicate AllFit(ns: seq<nat>) { forall n | n in ns :: n <= SETBUF }

  lemma FitCat(a: seq<nat>, b: seq<nat>)
    ensures AllFit(a + b) <==> AllFit(a) && AllFit(b)
  {
    assert forall n :: n in a + b <==> n in a || n in b;
  }

  lemma PassedMore(c: bytes, off: nat, hi: nat, want: bytes)
    requires off % 32 == 0 && off < hi && off + 32 <= |c|
    ensures Passed(c, off, hi, want) <==> c[off] != 0 && !Hits(c, off, want) && Passed(c, off + 32, hi, want)
  {
    hide Hits;
    if c[off] != 0 && !Hits(c, off, want) && Passed(c, off + 32, hi, want) {
      assert forall q | off <= q < hi && q % 32 == 0 && q + 32 <= |c| :: q == off || off + 32 <= q;
    }
  }

  lemma PassedNone(c: bytes, want: bytes)
    ensures Passed(c, 0, 0, want)
  {
  }

  lemma PassedNext(c: bytes, off: nat, want: bytes)
    requires off % 32 == 0 && off + 32 <= |c| && Passed(c, 0, off, want) && c[off] != 0 && !Hits(c, off, want)
    ensures Passed(c, 0, off + 32, want)
  {
    hide Hits;
    assert forall q | 0 <= q < off + 32 && q % 32 == 0 :: q < off || q == off;
  }

  lemma ComesMore(c: bytes, lo: nat, off: nat, want: bytes)
    requires lo % 32 == 0 && lo + 32 <= |c| && lo != off
    ensures Comes(c, lo, off, want) <==> c[lo] != 0 && !Hits(c, lo, want) && Comes(c, lo + 32, off, want)
  {
    hide Passed, Hits;
    if lo < off { PassedMore(c, lo, off, want); }
  }

  /** One cluster: the sets copied fit exactly if none that the scan comes to is too long. */
  lemma {:induction false} ScanFits(c: bytes, lo: nat, want: bytes)
    requires Entries(c) && lo % 32 == 0
    ensures AllFit(ScanSizes(c, lo, want)) <==> SlimFrom(c, lo, want)
    decreases |c| - lo
  {
    hide Hits, Passed, Wide, Comes, AllFit;
    if lo >= |c| {
      assert forall off: nat :: !Comes(c, lo, off, want) by { NoneComes(c, lo, want); }
      assert AllFit([]) by { FitNone(); }
    } else {
      EntryFits(c, lo);
      ScanFits(c, lo + 32, want);
      var here := if Claims(c, lo) then [|SetBytes(c, lo)|] else [];
      var rest := if Hits(c, lo, want) then [] else ScanSizes(c, lo + 32, want);
      FitCat(here, rest);
      FitOne(c, lo);
      FitNone();
      ComesFirst(c, lo, want);
      forall off: nat | off != lo
        ensures Comes(c, lo, off, want) <==> c[lo] != 0 && !Hits(c, lo, want) && Comes(c, lo + 32, off, want)
      {
        ComesMore(c, lo, off, want);
      }
      ComesBehind(c, lo, want);
    }
  }

  lemma NoneComes(c: bytes, lo: nat, want: bytes)
    requires lo >= |c|
    ensures forall off: nat :: !Comes(c, lo, off, want)
  {
  }

  lemma FitNone()
    ensures AllFit([])
  {
  }

  lemma FitOne(c: bytes, off: nat)
    requires off + 32 <= |c|
    ensures AllFit(if Claims(c, off) then [|SetBytes(c, off)|] else []) <==> !Wide(c, off)
  {
    if Claims(c, off) { assert |SetBytes(c, off)| in [|SetBytes(c, off)|]; }
  }

  lemma ComesFirst(c: bytes, lo: nat, want: bytes)
    requires lo % 32 == 0 && lo + 32 <= |c|
    ensures Comes(c, lo, lo, want) <==> c[lo] != 0
    ensures Wide(c, lo) ==> c[lo] != 0
  {
  }

  lemma ComesBehind(c: bytes, lo: nat, want: bytes)
    requires lo % 32 == 0 && lo + 32 <= |c|
    ensures !Comes(c, lo + 32, lo, want)
  {
  }

  /** A scan runs past a cluster exactly if it meets neither an end mark nor a hit. */
  lemma {:induction false} PastIs(c: bytes, lo: nat, want: bytes)
    requires Entries(c) && lo % 32 == 0
    ensures ScanFrom(c, lo, want).Past? <==> Passed(c, lo, |c|, want)
    decreases |c| - lo
  {
    hide Hits;
    if lo < |c| {
      EntryFits(c, lo);
      PassedMore(c, lo, |c|, want);
      PastIs(c, lo + 32, want);
    }
  }

  /** From cluster `k` on, behind clusters that are passed. */
  ghost predicate SlimBehind(cl: seq<bytes>, k: nat, want: bytes)
  {
    forall i: nat, off: nat | k <= i && Reached(cl, i, off, want) :: !Wide(cl[i], off)
  }

  lemma {:induction false} FitsBehind(cl: seq<bytes>, k: nat, want: bytes)
    requires AllEntries(cl) && forall j | 0 <= j < k && j < |cl| :: Passed(cl[j], 0, |cl[j]|, want)
    ensures AllFit(FindSizes(cl, k, want)) <==> SlimBehind(cl, k, want)
    decreases |cl| - k
  {
    hide Passed, Wide, AllFit, ScanFrom, ScanSizes;
    if k >= |cl| {
      FitNone();
    } else {
      ScanFits(cl[k], 0, want);
      PastIs(cl[k], 0, want);
      var rest := if ScanFrom(cl[k], 0, want).Past? then FindSizes(cl, k + 1, want) else [];
      FitCat(ScanSizes(cl[k], 0, want), rest);
      FitNone();
      forall off: nat | SlimBehind(cl, k, want) && Comes(cl[k], 0, off, want)
        ensures !Wide(cl[k], off)
      {
        assert Reached(cl, k, off, want);
      }
      if Passed(cl[k], 0, |cl[k]|, want) { FitsBehind(cl, k + 1, want); }
    }
  }

  /** Every set that a search copies fits into the buffer if and only if none that it comes to has 32 secondary entries
      or more. */
  lemma CopiesFit(cl: seq<bytes>, want: bytes)
    requires AllEntries(cl)
    ensures AllFit(FindSizes(cl, 0, want)) <==> Slim(cl, want)
  {
    hide Reached, Wide, FindSizes, AllFit;
    FitsBehind(cl, 0, want);
  }

  /** A directory of one cluster whose first set is 1056 bytes long. */
  function OverlongSet(): (c: bytes)
    ensures |c| == 2048
  {
    [ENTRY_FILE, 32] + Zeros(2046)
  }

  /** Every search of it copies more than the buffer holds. */
  lemma CopyFails(want: bytes)
    ensures AllEntries([OverlongSet()]) && 1056 in FindSizes([OverlongSet()], 0, want)
    ensures !AllFit(FindSizes([OverlongSet()], 0, want))
  {
    hide Parse;
    var c := OverlongSet();
    assert c[0] == ENTRY_FILE && c[1] == 32;
    assert |SetBytes(c, 0)| == 1056;
    assert ScanSizes(c, 0, want)[0] == 1056;
    assert FindSizes([c], 0, want)[0] == 1056;
  }

  // ---------------------------------------------------------------- every name

  /** No set before the end of the directory is too long. */
  ghost predicate Thin(cl: seq<bytes>)
  {
    forall i: nat, off: nat | Before(cl, i, off) :: !Wide(cl[i], off)
  }

  /** The entry at `off` of cluster `i` stands before the end mark. */
  predicate Before(cl: seq<bytes>, i: nat, off: nat)
  {
    && i < |cl| && off % 32 == 0 && off + 32 <= |cl[i]| && LiveTo(cl[i], 0, off + 32)
    && forall j | 0 <= j < i :: LiveTo(cl[j], 0, |cl[j]|)
  }

  lemma LiveIs(c: bytes, hi: nat, want: bytes)
    requires Entries(c) && (hi <= |c|) && hi % 32 == 0
    ensures Passed(c, 0, hi, want) ==> LiveTo(c, 0, hi)
    ensures LiveTo(c, 0, hi) && |want| > 255 ==> Passed(c, 0, hi, want)
  {
    hide ParsedAt;
    if Passed(c, 0, hi, want) {
      forall q | 0 <= q < hi && q % 32 == 0 && q < |c|
        ensures c[q] != 0
      {
        EntryFits(c, q);
      }
    }
    if |want| > 255 {
      forall q: nat | q + 32 <= |c|
        ensures !Hits(c, q, want)
      {
        if Hits(c, q, want) { ShortNames(c, q, want); }
      }
    }
  }

  /** No stored name is longer than 255 characters. */
  lemma ShortNames(c: bytes, q: nat, want: bytes)
    requires q + 32 <= |c| && Hits(c, q, want)
    ensures |want| <= 255
  {
    hide Match;
    var es, n := SetBytes(c, q), Secondary(c, q);
    CollectShort(es, n, 2, if es[35] as int >= 256 then 255 else es[35] as int, []);
    MatchLen(ParsedAt(c, q).1.name, want);
  }

  lemma {:induction false} CollectShort(es: bytes, secondary: nat, i: nat, want: nat, got: bytes)
    requires |es| >= 32 * (secondary + 1) && |got| <= want
    ensures |Collect(es, secondary, i, want, got)| <= want
    decreases secondary + 1 - i
  {
    hide Chars;
    if i <= secondary && |got| < want {
      if es[32 * i] != ENTRY_NAME {
        CollectShort(es, secondary, i + 1, want, got);
      } else {
        CollectShort(es, secondary, i + 1, want, got + Chars(es[32 * i..32 * i + 32],
          if want - |got| < 15 then want - |got| else 15));
      }
    }
  }

  /** The searches for all names fit if and only if no set before the end of the directory is too long. */
  lemma ThinIs(cl: seq<bytes>)
    requires AllEntries(cl)
    ensures Thin(cl) <==> forall want :: Slim(cl, want)
  {
    hide Wide, Passed, LiveTo, Slim, Thin;
    var none := Zeros(256);
    forall want, i: nat, off: nat
      ensures Reached(cl, i, off, want) ==> Before(cl, i, off)
      ensures Before(cl, i, off) && |want| > 255 ==> Reached(cl, i, off, want)
    {
      ReachedIs(cl, i, off, want);
    }
    if Thin(cl) {
      forall want
        ensures Slim(cl, want)
      {
        ThinSlim(cl, want);
      }
    }
    if forall want :: Slim(cl, want) {
      assert Slim(cl, none);
      SlimThin(cl, none);
    }
  }

  lemma ThinSlim(cl: seq<bytes>, want: bytes)
    requires Thin(cl) && forall i: nat, off: nat | Reached(cl, i, off, want) :: Before(cl, i, off)
    ensures Slim(cl, want)
  {
    hide Wide, Before;
    forall i: nat, off: nat | Reached(cl, i, off, want)
      ensures !Wide(cl[i], off)
    {
      assert Before(cl, i, off);
    }
  }

  lemma SlimThin(cl: seq<bytes>, want: bytes)
    requires Slim(cl, want) && forall i: nat, off: nat | Before(cl, i, off) :: Reached(cl, i, off, want)
    ensures Thin(cl)
  {
    hide Wide, Reached, LiveTo;
    forall i: nat, off: nat | Before(cl, i, off)
      ensures !Wide(cl[i], off)
    {
      assert Reached(cl, i, off, want);
    }
  }

  lemma ReachedIs(cl: seq<bytes>, i: nat, off: nat, want: bytes)
    requires AllEntries(cl)
    ensures Reached(cl, i, off, want) ==> Before(cl, i, off)
    ensures Before(cl, i, off) && |want| > 255 ==> Reached(cl, i, off, want)
  {
    hide Passed;
    if i < |cl| && off % 32 == 0 && off + 32 <= |cl[i]| {
      LiveIs(cl[i], off, want);
      forall j | 0 <= j < i
        ensures Passed(cl[j], 0, |cl[j]|, want) ==> LiveTo(cl[j], 0, |cl[j]|)
        ensures LiveTo(cl[j], 0, |cl[j]|) && |want| > 255 ==> Passed(cl[j], 0, |cl[j]|, want)
      {
        LiveIs(cl[j], |cl[j]|, want);
      }
      assert LiveTo(cl[i], 0, off) && cl[i][off] != 0 <==> LiveTo(cl[i], 0, off + 32);
    }
  }

  // ---------------------------------------------------------------- after a write

  /** A successful search comes to nothing behind its hit, and passes all before it. */
  lemma {:induction false} FoundPassed(cl: seq<bytes>, k: nat, want: bytes)
    requires AllEntries(cl) && Find(cl, k, want).At?
    ensures var f := Find(cl, k, want);
      Passed(cl[f.i], 0, f.off, want) && forall j | k <= j < f.i :: Passed(cl[j], 0, |cl[j]|, want)
    decreases |cl| - k
  {
    hide Hits, Passed;
    PastIs(cl[k], 0, want);
    if ScanFrom(cl[k], 0, want).Past? {
      FoundPassed(cl, k + 1, want);
    } else {
      HitPassed(cl[k], 0, want);
    }
  }

  lemma {:induction false} HitPassed(c: bytes, lo: nat, want: bytes)
    requires Entries(c) && lo % 32 == 0 && ScanFrom(c, lo, want).Hit?
    ensures Passed(c, lo, ScanFrom(c, lo, want).off, want)
    decreases |c| - lo
  {
    hide Hits;
    EntryFits(c, lo);
    if !Hits(c, lo, want) {
      HitPassed(c, lo + 32, want);
      PassedMore(c, lo, ScanFrom(c, lo, want).off, want);
    }
  }

  lemma ReachedTo(cl: seq<bytes>, want: bytes, i: nat, off: nat)
    requires AllEntries(cl) && Find(cl, 0, want).At? && Reached(cl, i, off, want)
    ensures var f := Find(cl, 0, want); i < f.i || (i == f.i && off <= f.off)
  {
    hide Hits;
    FoundPassed(cl, 0, want);
  }

  /** What is reached up to a place is reached whenever what stands before that place is passed. */
  lemma ReachedBefore(cl: seq<bytes>, want: bytes, fi: nat, fo: nat, i: nat, off: nat)
    requires AllEntries(cl) && fi < |cl| && Passed(cl[fi], 0, fo, want)
    requires forall j | 0 <= j < fi :: Passed(cl[j], 0, |cl[j]|, want)
    requires i < |cl| && off % 32 == 0 && off + 32 <= |cl[i]| && cl[i][off] != 0 && (i < fi || (i == fi && off <= fo))
    ensures Reached(cl, i, off, want)
  {
    hide Hits;
  }

  /** A built set is short. */
  lemma BuiltShort(s: bytes, name: bytes, info: Info)
    requires SetOfName(s, name, info)
    ensures |s| % 32 == 0 && 0 < |s| <= 32 * 19
  {
    hide IsSet;
    SetLen(s, name, info.cluster, info.size, info.isDir);
  }

  /** No entry of a cluster starts a set that is too long. */
  predicate Narrow(c: bytes)
  {
    forall q: nat | q % 32 == 0 && q + 32 <= |c| :: !Wide(c, q)
  }

  predicate AllNarrow(cl: seq<bytes>) { forall i | 0 <= i < |cl| :: Narrow(cl[i]) }

  lemma NarrowSlim(cl: seq<bytes>, want: bytes)
    requires AllNarrow(cl)
    ensures Slim(cl, want)
  {
    hide Hits, Wide, Passed;
  }

  lemma ZerosNarrow(n: nat)
    ensures Narrow(Zeros(n))
  {
  }

  /** Entries of a cluster into which a set has been written: those of the set start none that is too long, the others
      are what they were. */
  lemma WideAfter(c: bytes, p: nat, s: bytes, name: bytes, info: Info, q: nat)
    requires Entries(c) && Tidy(c) && SetOfName(s, name, info) && p % 32 == 0 && p + |s| <= |c| && !Inner(c[p])
    requires q % 32 == 0 && q + 32 <= |c|
    ensures Wide(Put(c, p, s), q) ==> Wide(c, q) && !(p <= q < p + |s|)
  {
    hide Tidy, Inner, SetOfName, Parse, ParsedAt, Put;
    BuiltShort(s, name, info);
    if p <= q < p + |s| {
      if q == p {
        SetStands(c, p, s, name, info);
      } else {
        PutByte(c, p, s, q);
        SetTypes(s, name, info, q - p);
        InnerNotFile(s[q - p]);
      }
    } else {
      SetOutside(c, p, s, q);
    }
  }

  /** Built sets keep a cluster free of sets that are too long. */
  lemma NarrowPut(c: bytes, p: nat, s: bytes, name: bytes, info: Info)
    requires Entries(c) && Tidy(c) && SetOfName(s, name, info) && p % 32 == 0 && p + |s| <= |c| && !Inner(c[p])
    requires Narrow(c)
    ensures Narrow(Put(c, p, s))
  {
    hide Tidy, Inner, SetOfName, Wide, Put;
    forall q: nat | q % 32 == 0 && q + 32 <= |c|
      ensures !Wide(Put(c, p, s), q)
    {
      WideAfter(c, p, s, name, info, q);
    }
  }

  /** A search that succeeds after a set has been written, either at that set or where it did before, comes to no set
      that it did not come to before, but for the new one. */
  lemma SlimPut(cl: seq<bytes>, i: nat, p: nat, s: bytes, name: bytes, info: Info, want: bytes)
    requires AllEntries(cl) && AllTidy(cl) && SetOfName(s, name, info) && i < |cl| && Room(cl[i], p, |s|)
    requires Slim(cl, want)
    requires p + |s| <= |cl[i]| && Find(WithSet(cl, i, p, s), 0, want).At?
    requires Find(WithSet(cl, i, p, s), 0, want) in {At(i, p), Find(cl, 0, want)}
    ensures Slim(WithSet(cl, i, p, s), want)
  {
    hide Tidy, Inner, SetOfName, Wide, Put, Hits, Find, Passed, Reached;
    var w := WithSet(cl, i, p, s);
    BuiltShort(s, name, info);
    RoomIs(cl[i], p, |s|);
    forall j: nat, q: nat | Reached(w, j, q, want)
      ensures j < |w| && q + 32 <= |w[j]| && !Wide(w[j], q)
    {
      ReachedTo(w, want, j, q);
      ReachedIn(w, j, q, want);
      if j == i { WideAfter(cl[i], p, s, name, info, q); }
      if !(j == i && p <= q < p + |s|) {
        SamePlace(cl, i, p, s, name, info, want, j, q);
      }
    }
    assert Slim(w, want);
  }

  lemma ReachedIn(cl: seq<bytes>, i: nat, off: nat, want: bytes)
    requires Reached(cl, i, off, want)
    ensures i < |cl| && off % 32 == 0 && off + 32 <= |cl[i]| && cl[i][off] != 0 && Passed(cl[i], 0, off, want)
    ensures forall j | 0 <= j < i :: Passed(cl[j], 0, |cl[j]|, want)
  {
    hide Passed;
  }

  /** An entry outside the set that is reached afterwards was reached before. */
  lemma SamePlace(cl: seq<bytes>, i: nat, p: nat, s: bytes, name: bytes, info: Info, want: bytes, j: nat, q: nat)
    requires AllEntries(cl) && AllTidy(cl) && SetOfName(s, name, info) && i < |cl| && Room(cl[i], p, |s|)
    requires p + |s| <= |cl[i]| && Slim(cl, want) && |s| > 0 && |s| % 32 == 0
    requires Find(WithSet(cl, i, p, s), 0, want).At? && Reached(WithSet(cl, i, p, s), j, q, want)
    requires Find(WithSet(cl, i, p, s), 0, want) in {At(i, p), Find(cl, 0, want)}
    requires j < |cl| && q % 32 == 0 && q + 32 <= |cl[j]| && !(j == i && p <= q < p + |s|)
    ensures !Wide(cl[j], q)
  {
    hide Tidy, Inner, SetOfName, Wide, Put, Hits, Find, Passed, Reached, Slim;
    var w := WithSet(cl, i, p, s);
    var f := Find(w, 0, want);
    ReachedTo(w, want, j, q);
    ReachedIn(w, j, q, want);
    RoomIs(cl[i], p, |s|);
    if j == i { OutsideHits(cl[i], p, s, q, want); }
    if f == At(i, p) {
      forall k | 0 <= k < j
        ensures Passed(cl[k], 0, |cl[k]|, want)
      {
        assert w[k] == cl[k];
      }
      if j == i { PassedOutside(cl[i], p, s, q, want); }
      ReachedBefore(cl, want, j, q, j, q);
    } else {
      FoundPassed(cl, 0, want);
      ReachedBefore(cl, want, f.i, f.off, j, q);
    }
    SlimIs(cl, want, j, q);
  }

  lemma SlimIs(cl: seq<bytes>, want: bytes, i: nat, off: nat)
    requires Slim(cl, want) && Reached(cl, i, off, want)
    ensures i < |cl| && off + 32 <= |cl[i]| && !Wide(cl[i], off)
  {
  }

  lemma PassedOutside(c: bytes, p: nat, s: bytes, hi: nat, want: bytes)
    requires Tidy(c) && p % 32 == 0 && |s| % 32 == 0 && |s| > 0 && p + |s| <= |c| && !Inner(c[p]) && hi <= p
    requires Passed(Put(c, p, s), 0, hi, want)
    ensures Passed(c, 0, hi, want)
  {
    hide Tidy, Inner, Put, Hits;
    forall q | 0 <= q < hi && q % 32 == 0 && q + 32 <= |c|
      ensures c[q] != 0 && !Hits(c, q, want)
    {
      OutsideHits(c, p, s, q, want);
    }
  }

  lemma {:induction false} FindIs(cl: seq<bytes>, k: nat, want: bytes, i: nat, off: nat)
    requires AllEntries(cl) && k <= i < |cl| && Comes(cl[i], 0, off, want) && Hits(cl[i], off, want)
    requires forall j | k <= j < i :: Passed(cl[j], 0, |cl[j]|, want)
    ensures Find(cl, k, want) == At(i, off)
    decreases |cl| - k
  {
    hide Hits, Passed;
    PastIs(cl[k], 0, want);
    if k < i {
      FindIs(cl, k + 1, want, i, off);
    } else {
      ScanIs(cl[k], 0, want, off);
    }
  }

  lemma {:induction false} ScanIs(c: bytes, lo: nat, want: bytes, off: nat)
    requires Entries(c) && lo % 32 == 0 && Comes(c, lo, off, want) && Hits(c, off, want)
    ensures ScanFrom(c, lo, want) == Hit(off)
    decreases off - lo
  {
    hide Hits, Passed;
    if lo < off {
      EntryFits(c, lo);
      ComesMore(c, lo, off, want);
      ScanIs(c, lo + 32, want, off);
    }
  }

  /** A name that was not found before can only be found at the set that has been written. */
  lemma FoundThere(cl: seq<bytes>, i: nat, p: nat, s: bytes, name: bytes, info: Info, want: bytes)
    requires AllEntries(cl) && AllTidy(cl) && SetOfName(s, name, info) && i < |cl| && Room(cl[i], p, |s|)
    requires p + |s| <= |cl[i]| && Match(name, want) && !Find(cl, 0, want).At?
    requires Find(WithSet(cl, i, p, s), 0, want).At?
    ensures Find(WithSet(cl, i, p, s), 0, want) == At(i, p)
  {
    hide Tidy, Inner, SetOfName, Put, Hits, Find, Match, Passed;
    var w := WithSet(cl, i, p, s);
    var f := Find(w, 0, want);
    BuiltShort(s, name, info);
    RoomIs(cl[i], p, |s|);
    FoundPassed(w, 0, want);
    InsideHits(cl[i], p, s, name, info, p, want);
    if f.i < i || (f.i == i && f.off < p) {
      EarlierSame(cl, i, p, s, want, f.i, f.off);
      FindIs(cl, 0, want, f.i, f.off);
    } else if f != At(i, p) {
      PassedAt(w[i], if f.i == i then f.off else |w[i]|, want, p);
    }
  }

  lemma PassedAt(c: bytes, hi: nat, want: bytes, q: nat)
    requires Passed(c, 0, hi, want) && q < hi && q % 32 == 0 && q + 32 <= |c|
    ensures !Hits(c, q, want)
  {
    hide Hits;
  }

  /** Before the place of the set the search is what it was. */
  lemma EarlierSame(cl: seq<bytes>, i: nat, p: nat, s: bytes, want: bytes, j: nat, off: nat)
    requires AllEntries(cl) && AllTidy(cl) && i < |cl| && p % 32 == 0 && |s| % 32 == 0 && |s| > 0
    requires p + |s| <= |cl[i]| && !Inner(cl[i][p]) && (j < i || (j == i && off < p))
    requires Comes(WithSet(cl, i, p, s)[j], 0, off, want) && Hits(WithSet(cl, i, p, s)[j], off, want)
    requires forall k | 0 <= k < j :: Passed(WithSet(cl, i, p, s)[k], 0, |WithSet(cl, i, p, s)[k]|, want)
    ensures Comes(cl[j], 0, off, want) && Hits(cl[j], off, want)
    ensures forall k | 0 <= k < j :: Passed(cl[k], 0, |cl[k]|, want)
  {
    hide Tidy, Inner, Put, Hits, Passed;
    var w := WithSet(cl, i, p, s);
    forall k | 0 <= k < j
      ensures Passed(cl[k], 0, |cl[k]|, want)
    {
      assert w[k] == cl[k];
    }
    if j == i {
      PassedOutside(cl[i], p, s, off, want);
      OutsideHits(cl[i], p, s, off, want);
    }
  }

  /** A cleared cluster behind the others adds nothing. */
  lemma SlimLonger(cl: seq<bytes>, want: bytes, n: nat)
    requires Slim(cl, want)
    ensures Slim(cl + [Zeros(n)], want)
  {
    hide Hits, Wide;
    var all := cl + [Zeros(n)];
    forall i: nat, off: nat | Reached(all, i, off, want)
      ensures !Wide(all[i], off)
    {
      ClearedNot(cl, want, n, i, off);
      assert all[i] == cl[i] && forall j | 0 <= j < i :: all[j] == cl[j];
      assert Reached(cl, i, off, want);
    }
  }

  lemma ClearedNot(cl: seq<bytes>, want: bytes, n: nat, i: nat, off: nat)
    requires Reached(cl + [Zeros(n)], i, off, want)
    ensures i < |cl|
  {
    hide Hits;
    var z := Zeros(n);
    assert (cl + [z])[|cl|] == z;
  }
}
