/** exFAT directories: entry sets in clusters, the search for a name, room for a new set, and the search after a
    write. */
module ExDir {
  import opened Bytes
  import opened Volume
  import opened EntrySets
  import opened DirEntries

  const FREED: byte := 0xFF

  // ---------------------------------------------------------------- sets in a cluster

  function Secondary(c: bytes, off: nat): (n: nat)
    requires off + 32 <= |c|
  {
    c[off + 1] as nat
  }

  /** The entry at `off` starts a set that lies inside the cluster. */
  predicate Claims(c: bytes, off: nat)
    requires off + 32 <= |c|
  {
    c[off] == ENTRY_FILE && 0 < Secondary(c, off) <= 40 && off + 32 * (Secondary(c, off) + 1) <= |c|
  }

  function SetBytes(c: bytes, off: nat): (es: bytes)
    requires off + 32 <= |c| && Claims(c, off)
    ensures |es| == 32 * (Secondary(c, off) + 1)
  {
    c[off..off + 32 * (Secondary(c, off) + 1)]
  }

  /** What `exfat_parse_file_set` makes of the set. */
  function ParsedAt(c: bytes, off: nat): (r: (int, Info))
    requires off + 32 <= |c| && Claims(c, off)
  {
    Parse(SetBytes(c, off), Secondary(c, off), 256)
  }

  /** The comparison of `exfat_find_in_dir`: a stored name ends at its first NUL, and case does not matter. */
  predicate Match(name: bytes, want: bytes)
  {
    && |want| <= |name| && (|want| == |name| || name[|want|] == 0)
    && forall i | 0 <= i < |want| :: Upper(name[i]) == Upper(want[i])
  }

  /** The entry at `off` starts a set with that name. */
  predicate Hits(c: bytes, off: nat, want: bytes)
    requires off + 32 <= |c|
  {
    Claims(c, off) && ParsedAt(c, off).0 == 0 && Match(ParsedAt(c, off).1.name, want)
  }

  // ---------------------------------------------------------------- searching

  function ScanFrom(c: bytes, off: nat, want: bytes): (r: Scan)
    requires Entries(c) && off % 32 == 0
    ensures r.Hit? ==> off <= r.off && r.off % 32 == 0 && r.off + 32 <= |c| && c[r.off] != 0 && Hits(c, r.off, want)
    decreases |c| - off
  {
    if off >= |c| then Past
    else
      EntryFits(c, off);
      if c[off] == 0 then Stop
      else if Hits(c, off, want) then Hit(off)
      else ScanFrom(c, off + 32, want)
  }

  /** `exfat_find_in_dir` over the clusters of a directory, from cluster `i` on. */
  function Find(cl: seq<bytes>, i: nat, want: bytes): (r: Found)
    requires AllEntries(cl)
    ensures r.At? ==> i <= r.i < |cl| && r.off % 32 == 0 && r.off + 32 <= |cl[r.i]|
    ensures r.At? ==> cl[r.i][r.off] != 0 && Hits(cl[r.i], r.off, want)
    decreases |cl| - i
  {
    if i >= |cl| then Exhausted else
    match ScanFrom(cl[i], 0, want)
    case Hit(off) => At(i, off)
    case Stop => Ended
    case Past => Find(cl, i + 1, want)
  }

  // ---------------------------------------------------------------- room

  predicate Free(b: byte) { b == 0 || b == FREED }

  /** One cluster of `exfat_find_free_set`, from `off` on, behind a run of free entries: where `t` entries have room, or
      the length of the cluster. */
  function FreeFrom(c: bytes, off: nat, run: nat, t: nat): (p: nat)
    requires Entries(c) && off % 32 == 0 && 32 * run <= off
    decreases |c| - off
  {
    if off >= |c| then |c|
    else if c[off] == 0 && (|c| - off) / 32 >= t then off
    else if Free(c[off]) then if run + 1 >= t then off - 32 * run else FreeFrom(c, off + 32, run + 1, t)
    else FreeFrom(c, off + 32, 0, t)
  }

  /** No entry from `off` up to `p` ends the directory. */
  predicate LiveTo(c: bytes, off: nat, p: nat)
  {
    forall q | off <= q < p && q % 32 == 0 && q < |c| :: c[q] != 0
  }

  /** The place found: nothing before it ends the directory, and it starts with an end mark or consists of free
      entries. */
  predicate IsRoom(c: bytes, p: nat, t: nat)
  {
    && p % 32 == 0 && p + 32 * t <= |c| && p < |c| && LiveTo(c, 0, p)
    && (c[p] == 0 || forall q | p <= q < p + 32 * t && q % 32 == 0 :: Free(c[q]))
  }

  lemma FreeStep(c: bytes, off: nat, run: nat, t: nat)
    requires Entries(c) && off % 32 == 0 && 32 * run <= off && off + 32 <= |c|
    ensures FreeFrom(c, off, run, t) ==
      if c[off] == 0 && (|c| - off) / 32 >= t then off
      else if Free(c[off]) then if run + 1 >= t then off - 32 * run else FreeFrom(c, off + 32, run + 1, t)
      else FreeFrom(c, off + 32, 0, t)
  {
  }

  lemma FreeNone(c: bytes, off: nat, run: nat, t: nat)
    requires Entries(c) && off % 32 == 0 && 32 * run <= off && off >= |c|
    ensures FreeFrom(c, off, run, t) == |c|
  {
  }

  /** All entries from `lo` to before `hi` are free. */
  predicate FreeRun(c: bytes, lo: int, hi: int)
  {
    forall q | lo <= q < hi && 0 <= q < |c| && q % 32 == 0 :: Free(c[q])
  }

  /** No end mark from `off` to before `p` has room for `t` entries behind it. */
  predicate NoFit(c: bytes, off: int, p: int, t: nat)
  {
    forall q | off <= q < p && 0 <= q < |c| && q % 32 == 0 :: c[q] != 0 || |c| - q < 32 * t
  }

  lemma FreeMore(c: bytes, lo: int, off: nat)
    requires FreeRun(c, lo, off) && off % 32 == 0 && off < |c| && Free(c[off])
    ensures FreeRun(c, lo, off + 32)
  {
  }

  lemma NoFitMore(c: bytes, off: nat, p: int, t: nat)
    requires NoFit(c, off + 32, p, t) && off % 32 == 0 && off < |c| && (c[off] != 0 || |c| - off < 32 * t)
    ensures NoFit(c, off, p, t)
  {
  }

  /** The place found. */
  predicate Shaped(c: bytes, off: int, p: nat, t: nat)
  {
    && p % 32 == 0 && p + 32 * t <= |c| && p < |c| && (c[p] == 0 || FreeRun(c, p, p + 32 * t)) && NoFit(c, off, p, t)
  }

  lemma {:induction false} FreeShape(c: bytes, off: nat, run: nat, t: nat)
    requires Entries(c) && off % 32 == 0 && 32 * run <= off <= |c| && run < t && FreeRun(c, off - 32 * run, off)
    ensures var p := FreeFrom(c, off, run, t); p == |c| || Shaped(c, off, p, t)
    decreases |c| - off
  {
    hide FreeRun, NoFit, Free, FreeFrom;
    if off == |c| {
      FreeNone(c, off, run, t);
    } else {
      EntryFits(c, off);
      FreeStep(c, off, run, t);
      Whole(|c| - off, t);
      if c[off] == 0 && (|c| - off) / 32 >= t {
        NoFitEmpty(c, off, off, t);
      } else if Free(c[off]) {
        FreeMore(c, off - 32 * run, off);
        if run + 1 >= t {
          NoFitEmpty(c, off, off - 32 * run, t);
        } else {
          FreeShape(c, off + 32, run + 1, t);
          if FreeFrom(c, off, run, t) < |c| { NoFitMore(c, off, FreeFrom(c, off, run, t), t); }
        }
      } else {
        FreeEmpty(c, off + 32);
        FreeShape(c, off + 32, 0, t);
        IsFree(c[off]);
        if FreeFrom(c, off, run, t) < |c| { NoFitMore(c, off, FreeFrom(c, off, run, t), t); }
      }
    }
  }

  lemma IsFree(b: byte)
    requires !Free(b)
    ensures b != 0
  {
  }

  lemma FreeEmpty(c: bytes, off: int)
    ensures FreeRun(c, off, off)
  {
  }

  lemma NoFitEmpty(c: bytes, off: int, p: int, t: nat)
    requires p <= off
    ensures NoFit(c, off, p, t)
  {
  }

  lemma Whole(n: nat, t: nat)
    ensures n / 32 >= t <==> n >= 32 * t
  {
  }

  lemma FreeIsRoom(c: bytes, t: nat)
    requires Entries(c) && t > 0
    ensures var p := FreeFrom(c, 0, 0, t); p == |c| || IsRoom(c, p, t)
  {
    hide FreeFrom, Free;
    FreeEmpty(c, 0);
    FreeShape(c, 0, 0, t);
  }

  /** `exfat_find_free_set` over the clusters of a directory. */
  function Slot(cl: seq<bytes>, i: nat, t: nat): (r: Found)
    requires AllEntries(cl) && t > 0
    ensures !r.Ended? && (r.At? ==> i <= r.i < |cl| && IsRoom(cl[r.i], r.off, t))
    decreases |cl| - i
  {
    if i >= |cl| then Exhausted else
    FreeIsRoom(cl[i], t);
    var p := FreeFrom(cl[i], 0, 0, t);
    if p < |cl[i]| then At(i, p) else Slot(cl, i + 1, t)
  }

  // ---------------------------------------------------------------- tidy directories

  /** The type of a secondary entry. */
  predicate Inner(b: byte) { b != 0 && b != FREED && b != ENTRY_FILE }

  /** No set runs into a free entry or into another set. */
  predicate Tidy(c: bytes)
  {
    forall q: nat, k: nat |
      && q % 32 == 0 && q + 32 <= |c| && Claims(c, q) && q < k < q + 32 * (Secondary(c, q) + 1)
      && k % 32 == 0 :: Inner(c[k])
  }

  predicate AllTidy(cl: seq<bytes>) { forall i | 0 <= i < |cl| :: Tidy(cl[i]) }

  lemma InnerAt(c: bytes, q: nat, k: nat)
    requires Tidy(c) && q % 32 == 0 && q + 32 <= |c| && Claims(c, q)
    requires q < k < q + 32 * (Secondary(c, q) + 1) && k % 32 == 0
    ensures Inner(c[k])
  {
  }

  lemma ZerosTidy(n: nat)
    ensures Tidy(Zeros(n))
  {
  }

  // ---------------------------------------------------------------- a set that is written

  /** `s` is the set of a file or directory `name`. */
  ghost predicate SetOfName(s: bytes, name: bytes, info: Info)
  {
    && IsSet(s, name, info.cluster, info.size, info.isDir) && info.name == name && info.cluster < TWO32
    && info.size < TWO32 * TWO32
  }

  /** The types of its entries. */
  lemma SetTypes(s: bytes, name: bytes, info: Info, k: nat)
    requires SetOfName(s, name, info) && k % 32 == 0 && 0 < k < |s|
    ensures Inner(s[k])
  {
    hide FileEntry, StreamEntry, NamePart, NameEntry, LeBytes;
    SetLen(s, name, info.cluster, info.size, info.isDir);
    if k == 32 {
      SetFields(s, name, info.cluster, info.size, info.isDir);
    } else {
      var j := k / 32 - 2;
      NameAt(s, name, info.cluster, info.size, info.isDir, j);
      EntryTag(name, j);
      assert s[k] == s[32 * (2 + j)..32 * (2 + j) + 32][0];
    }
  }

  /** The set stands where it was written. */
  lemma SetStands(c: bytes, p: nat, s: bytes, name: bytes, info: Info)
    requires SetOfName(s, name, info) && p % 32 == 0 && p + |s| <= |c|
    ensures p + 32 <= |c| && var w := Put(c, p, s);
      Claims(w, p) && 32 * (Secondary(w, p) + 1) == |s| && ParsedAt(w, p) == (0, info) && w[p] == ENTRY_FILE
  {
    hide IsSet, Parse;
    SetLen(s, name, info.cluster, info.size, info.isDir);
    SetFields(s, name, info.cluster, info.size, info.isDir);
    PutInside(c, p, s);
    var w := Put(c, p, s);
    assert w[p] == w[p..p + |s|][0] == s[0] && w[p + 1] == w[p..p + |s|][1] == s[1];
    ParseBuilt(s, name, info.cluster, info.size, info.isDir);
  }

  lemma PutByte(c: bytes, p: nat, s: bytes, k: nat)
    requires p + |s| <= |c| && k < |c|
    ensures Put(c, p, s)[k] == if p <= k < p + |s| then s[k - p] else c[k]
  {
  }

  /** A set outside the written bytes is as it was, if the first of them could not belong to it. */
  lemma SetOutside(c: bytes, p: nat, s: bytes, q: nat)
    requires Tidy(c) && p % 32 == 0 && |s| % 32 == 0 && |s| > 0 && p + |s| <= |c| && !Inner(c[p])
    requires q % 32 == 0 && q + 32 <= |c| && !(p <= q < p + |s|)
    ensures var w := Put(c, p, s); w[q] == c[q] && Secondary(w, q) == Secondary(c, q) && Claims(w, q) == Claims(c, q)
    ensures Claims(c, q) ==> q + 32 * (Secondary(c, q) + 1) <= p || p + |s| <= q
    ensures Claims(c, q) ==> ParsedAt(Put(c, p, s), q) == ParsedAt(c, q)
  {
    hide Tidy, Inner, Parse, Put;
    PutByte(c, p, s, q);
    PutByte(c, p, s, q + 1);
    if Claims(c, q) {
      var n := 32 * (Secondary(c, q) + 1);
      if q < p && p < q + n { InnerAt(c, q, p); }
      PutOutside(c, p, s, q, q + n);
    }
  }

  /** The directory with the set `s` at `p` of cluster `i`. */
  function WithSet(cl: seq<bytes>, i: nat, p: nat, s: bytes): (r: seq<bytes>)
    requires AllEntries(cl) && i < |cl| && p + |s| <= |cl[i]|
    ensures AllEntries(r) && |r| == |cl|
  {
    cl[i := Put(cl[i], p, s)]
  }

  /** A cluster stays tidy. */
  lemma TidyPut(c: bytes, p: nat, s: bytes, name: bytes, info: Info)
    requires Entries(c) && Tidy(c) && SetOfName(s, name, info) && p % 32 == 0 && p + |s| <= |c| && |s| > 0
    requires !Inner(c[p])
    ensures Tidy(Put(c, p, s))
  {
    hide Put, SetOfName, Inner, Tidy;
    var w := Put(c, p, s);
    forall q: nat, k: nat |
      q % 32 == 0 && q + 32 <= |w| && Claims(w, q) && q < k < q + 32 * (Secondary(w, q) + 1) && k % 32 == 0
      ensures Inner(w[k])
    {
      TidyAt(c, p, s, name, info, q, k);
    }
    TidyIs(w);
  }

  lemma TidyIs(w: bytes)
    requires forall q: nat, k: nat |
      && q % 32 == 0 && q + 32 <= |w| && Claims(w, q) && q < k < q + 32 * (Secondary(w, q) + 1)
      && k % 32 == 0 :: Inner(w[k])
    ensures Tidy(w)
  {
  }

  lemma TidyAt(c: bytes, p: nat, s: bytes, name: bytes, info: Info, q: nat, k: nat)
    requires Tidy(c) && SetOfName(s, name, info) && p % 32 == 0 && p + |s| <= |c| && |s| > 0 && !Inner(c[p])
    requires var w := Put(c, p, s);
      q % 32 == 0 && q + 32 <= |w| && Claims(w, q) && q < k < q + 32 * (Secondary(w, q) + 1) && k % 32 == 0
    ensures Inner(Put(c, p, s)[k])
  {
    hide Put, IsSet, Inner, Tidy, Parse;
    SetLen(s, name, info.cluster, info.size, info.isDir);
    PutByte(c, p, s, q);
    PutByte(c, p, s, k);
    if q == p {
      SetStands(c, p, s, name, info);
      SetTypes(s, name, info, k - p);
    } else if p < q < p + |s| {
      SetTypes(s, name, info, q - p);
      InnerNotFile(s[q - p]);
    } else {
      SetOutside(c, p, s, q);
      InnerAt(c, q, k);
    }
  }

  lemma InnerNotFile(b: byte)
    requires Inner(b)
    ensures b != ENTRY_FILE && b != 0
  {
  }
}
