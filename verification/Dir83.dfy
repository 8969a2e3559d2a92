/** FAT32 directories with 8.3 names: 32-byte entries, the search for one, and the first free slot. */
module Dir83 {
  import opened Bytes
  import opened Volume
  import opened DirEntries

  const SPACE: byte := 32
  const DOT: byte := 46
  const DELETED: byte := 0xE5
  const LONG_NAME: byte := 0x0F
  const DIR: byte := 0x10
  const ARCHIVE: byte := 0x20

  // ---------------------------------------------------------------- names

  /** The first `n` characters of `name` from `p` in upper case, up to its end or, if asked for, up to a dot. */
  function Run(name: bytes, p: nat, n: nat, dots: bool): (r: bytes)
    requires p <= |name|
    ensures |r| <= n && p + |r| <= |name|
    ensures forall i | 0 <= i < |r| :: r[i] == Upper(name[p + i]) && (dots ==> name[p + i] != DOT)
    decreases n
  {
    if n == 0 || p == |name| || (dots && name[p] == DOT) then [] else [Upper(name[p])] + Run(name, p + 1, n - 1, dots)
  }

  function Padded(r: bytes, n: nat): (x: bytes)
    requires |r| <= n
    ensures |x| == n
  {
    r + seq(n - |r|, _ => SPACE)
  }

  /** `make_name83`: eight characters before the first dot, three behind it. */
  function Name83(name: bytes): (n: bytes)
    ensures |n| == 11
  {
    var base := Run(name, 0, 8, true);
    var j := if |base| < |name| && name[|base|] == DOT then |base| + 1 else |base|;
    Padded(base, 8) + Padded(Run(name, j, 3, false), 3)
  }

  /** The name of a component starts neither like the two entries that a directory holds about itself nor like its
      end. */
  lemma NeverDot(name: bytes)
    requires NoNul(name)
    ensures Name83(name)[0] != DOT && Name83(name)[0] != 0
  {
    var base := Run(name, 0, 8, true);
    if |base| > 0 {
      assert Name83(name)[0] == base[0] == Upper(name[0]);
    } else {
      assert Name83(name)[0] == SPACE;
    }
  }

  lemma RunMore(name: bytes, p: nat, n: nat, dots: bool, k: nat)
    requires p <= |name| && k < n && |Run(name, p, k, dots)| == k && p + k < |name| && !(dots && name[p + k] == DOT)
    ensures Run(name, p, k + 1, dots) == Run(name, p, k, dots) + [Upper(name[p + k])]
    decreases k
  {
    if k > 0 {
      RunTail(name, p, k, dots);
      RunMore(name, p + 1, n - 1, dots, k - 1);
    }
  }

  lemma RunTail(name: bytes, p: nat, k: nat, dots: bool)
    requires p < |name| && k > 0 && |Run(name, p, k, dots)| == k
    ensures |Run(name, p + 1, k - 1, dots)| == k - 1 && !(dots && name[p] == DOT)
  {
  }

  /** Where the run stops early, a longer one stops too. */
  lemma RunStops(name: bytes, p: nat, k: nat, n: nat, dots: bool)
    requires p <= |name| && k <= n && |Run(name, p, k, dots)| == k
    requires k == n || p + k == |name| || (dots && name[p + k] == DOT)
    ensures Run(name, p, n, dots) == Run(name, p, k, dots)
    decreases k
  {
    if k > 0 {
      RunTail(name, p, k, dots);
      RunStops(name, p + 1, k - 1, n - 1, dots);
    }
  }

  /** One of the two loops of `make_name83`: a run copied to `at`. */
  method CopyRun(buf: array<byte>, at: nat, name: bytes, start: nat, n: nat, dots: bool) returns (k: nat)
    requires at + n <= buf.Length && start <= |name|
    modifies buf
    ensures k == |Run(name, start, n, dots)| && buf[at..at + k] == Run(name, start, n, dots)
    ensures forall m | 0 <= m < buf.Length && !(at <= m < at + k) :: buf[m] == old(buf[m])
  {
    k := 0;
    while start + k < |name| && !(dots && name[start + k] == DOT) && k < n
      invariant 0 <= k <= n && start + k <= |name|
      invariant |Run(name, start, k, dots)| == k && buf[at..at + k] == Run(name, start, k, dots)
      invariant forall m | 0 <= m < buf.Length && !(at <= m < at + k) :: buf[m] == old(buf[m])
    {
      RunMore(name, start, n, dots, k);
      ghost var was := buf[at..at + k];
      buf[at + k] := Upper(name[start + k]);
      assert buf[at..at + k + 1] == was + [Upper(name[start + k])];
      k := k + 1;
    }
    RunStops(name, start, k, n, dots);
  }

  /** `make_name83`. */
  method MakeName83(name: bytes) returns (out: bytes)
    ensures out == Name83(name)
  {
    hide Run, Upper;
    var buf := new byte[11](_ => SPACE);
    var i := CopyRun(buf, 0, name, 0, 8, true);
    ghost var base := buf[0..i];
    var j := i;
    if j < |name| && name[j] == DOT {
      j := j + 1;
    }
    var k := CopyRun(buf, 8, name, j, 3, false);
    out := buf[..];
    assert out[..8] == Padded(base, 8);
    assert out[8..] == Padded(buf[8..8 + k], 3);
    assert out == out[..8] + out[8..];
  }

  // ---------------------------------------------------------------- entries

  /** The entry that `create_dir_entry` builds. */
  function NewEntry(name: bytes, attr: byte, start: nat, size: nat): (e: bytes)
    requires |name| == 11
    ensures |e| == 32
  {
    name + [attr] + Zeros(8) + LeBytes(2, start / 0x10000) + Zeros(4) + LeBytes(2, start % 0x10000) + LeBytes(4, size)
  }

  /** The entry with another first cluster and size. */
  function Updated(e: bytes, start: nat, size: nat): (r: bytes)
    requires |e| == 32
    ensures |r| == 32
  {
    e[..20] + LeBytes(2, start / 0x10000) + e[22..26] + LeBytes(2, start % 0x10000) + LeBytes(4, size)
  }

  /** `dirent_start_cluster`. */
  function Start(e: bytes): (cl: nat)
    requires |e| == 32
  {
    Le(e[20..22]) * 0x10000 + Le(e[26..28])
  }

  function Size(e: bytes): (n: nat)
    requires |e| == 32
  {
    Le(e[28..32])
  }

  predicate IsDir(e: bytes)
    requires |e| == 32
  {
    e[11] as nat / 0x10 % 2 == 1
  }

  predicate Named(e: bytes, want: bytes)
    requires |e| == 32
  {
    e[0] != DELETED && e[11] != LONG_NAME && e[..11] == want
  }

  lemma HighLow(start: nat)
    requires start < TWO32
    ensures start / 0x10000 < 0x10000 && start / 0x10000 * 0x10000 + start % 0x10000 == start
  {
  }

  /** What a reader takes from a built entry. */
  lemma NewEntryIs(name: bytes, attr: byte, start: nat, size: nat)
    requires |name| == 11 && start < TWO32 && size < TWO32
    ensures var e := NewEntry(name, attr, start, size);
      e[..11] == name && e[11] == attr && Start(e) == start && Size(e) == size
  {
    hide Le, LeBytes;
    var e := NewEntry(name, attr, start, size);
    HighLow(start);
    Radix4();
    assert Radix(2) == 0x10000;
    LeOfBytes(2, start / 0x10000);
    LeOfBytes(2, start % 0x10000);
    LeOfBytes(4, size);
    assert e[20..22] == LeBytes(2, start / 0x10000);
    assert e[26..28] == LeBytes(2, start % 0x10000);
    SliceOfSecond(name + [attr] + Zeros(8) + LeBytes(2, start / 0x10000) + Zeros(4) + LeBytes(2, start % 0x10000),
      LeBytes(4, size));
  }

  lemma UpdatedIs(e: bytes, start: nat, size: nat)
    requires |e| == 32 && start < TWO32 && size < TWO32
    ensures var r := Updated(e, start, size); r[..12] == e[..12] && Start(r) == start && Size(r) == size
  {
    hide Le, LeBytes;
    var r := Updated(e, start, size);
    HighLow(start);
    Radix4();
    assert Radix(2) == 0x10000;
    LeOfBytes(2, start / 0x10000);
    LeOfBytes(2, start % 0x10000);
    LeOfBytes(4, size);
    assert r[20..22] == LeBytes(2, start / 0x10000);
    assert r[26..28] == LeBytes(2, start % 0x10000);
    SliceOfSecond(e[..20] + LeBytes(2, start / 0x10000) + e[22..26] + LeBytes(2, start % 0x10000), LeBytes(4, size));
  }

  // ---------------------------------------------------------------- searching

  /** The entries of one cluster from `off` on. */
  function ScanFrom(c: bytes, off: nat, want: bytes): (r: Scan)
    requires Entries(c) && off % 32 == 0
    ensures r.Hit? ==>
      off <= r.off && r.off % 32 == 0 && r.off + 32 <= |c| && c[r.off] != 0 && Named(EntryOf(c, r.off), want)
    decreases |c| - off
  {
    if off >= |c| then Past
    else
      EntryFits(c, off);
      if c[off] == 0 then Stop
      else if Named(EntryOf(c, off), want) then Hit(off)
      else ScanFrom(c, off + 32, want)
  }

  /** `dir_find_entry` over the clusters of a directory, from cluster `i` on. */
  function Find(cl: seq<bytes>, i: nat, want: bytes): (r: Found)
    requires AllEntries(cl)
    ensures r.At? ==> i <= r.i < |cl| && r.off % 32 == 0 && r.off + 32 <= |cl[r.i]|
    ensures r.At? ==> cl[r.i][r.off] != 0 && Named(EntryOf(cl[r.i], r.off), want)
    decreases |cl| - i
  {
    if i >= |cl| then Exhausted else
    match ScanFrom(cl[i], 0, want)
    case Hit(off) => At(i, off)
    case Stop => Ended
    case Past => Find(cl, i + 1, want)
  }

  /** The first entry of a cluster that is free: never used, or deleted. */
  function SlotFrom(c: bytes, off: nat): (p: nat)
    requires Entries(c) && off % 32 == 0 && off <= |c|
    ensures off <= p <= |c| && p % 32 == 0
    ensures p < |c| ==> c[p] == 0 || c[p] == DELETED
    ensures forall q | off <= q < p && q % 32 == 0 :: c[q] != 0 && c[q] != DELETED
    decreases |c| - off
  {
    if off == |c| then off
    else
      EntryFits(c, off);
      if c[off] == 0 || c[off] == DELETED then off else SlotFrom(c, off + 32)
  }

  /** `dir_find_free_slot`. */
  function Slot(cl: seq<bytes>, i: nat): (r: Found)
    requires AllEntries(cl)
    ensures !r.Ended?
    ensures r.At? ==> i <= r.i < |cl| && r.off == SlotFrom(cl[r.i], 0) && r.off + 32 <= |cl[r.i]| && r.off % 32 == 0
    ensures r.At? ==> forall j | i <= j < r.i :: SlotFrom(cl[j], 0) == |cl[j]|
    decreases |cl| - i
  {
    if i >= |cl| then Exhausted else
    var p := SlotFrom(cl[i], 0);
    if p < |cl[i]| then
      EntryFits(cl[i], p);
      At(i, p)
    else Slot(cl, i + 1)
  }

  // ---------------------------------------------------------------- searching after a write

  /** The directory with the entry `e` at position `off` of cluster `i`. */
  function WithEntry(cl: seq<bytes>, i: nat, off: nat, e: bytes): (r: seq<bytes>)
    requires AllEntries(cl) && i < |cl| && off + 32 <= |cl[i]| && |e| == 32
    ensures AllEntries(r) && |r| == |cl|
  {
    cl[i := Put(cl[i], off, e)]
  }

  /** Entries elsewhere are not touched. */
  lemma PutEntry(c: bytes, p: nat, e: bytes, q: nat)
    requires p + 32 <= |c| && |e| == 32 && q + 32 <= |c| && p % 32 == 0 && q % 32 == 0
    ensures EntryOf(Put(c, p, e), q) == if q == p then e else EntryOf(c, q)
    ensures Put(c, p, e)[q] == EntryOf(Put(c, p, e), q)[0]
  {
    PutInside(c, p, e);
    if q < p {
      PutOutside(c, p, e, q, q + 32);
    } else if q > p {
      PutOutside(c, p, e, q, q + 32);
    }
  }

  /** A scan that comes to the written entry: it passes what it passed before, and stops there if the name is right. */
  lemma {:induction false} ScanWritten(c: bytes, off: nat, p: nat, e: bytes, want: bytes)
    requires Entries(c) && off % 32 == 0 && p % 32 == 0 && off <= p && p + 32 <= |c| && |e| == 32 && e[0] != 0
    requires Named(e, want)
    requires forall q | off <= q < p && q % 32 == 0 && q + 32 <= |c| :: c[q] != 0 && !Named(EntryOf(c, q), want)
    ensures ScanFrom(Put(c, p, e), off, want) == Hit(p)
    decreases p - off
  {
    hide Put, Named;
    PutEntry(c, p, e, off);
    if off < p {
      assert c[off] == EntryOf(c, off)[0];
      ScanWritten(c, off + 32, p, e, want);
    }
  }

  /** A cluster without a free entry is passed if the name is not in it. */
  lemma {:induction false} ScanPast(c: bytes, off: nat, want: bytes)
    requires Entries(c) && off % 32 == 0 && off <= |c| && SlotFrom(c, off) == |c|
    ensures !ScanFrom(c, off, want).Stop?
    decreases |c| - off
  {
    hide Named;
    if off < |c| {
      EntryFits(c, off);
      ScanPast(c, off + 32, want);
    }
  }

  /** A scan that does not hit meets no entry of that name before it stops. */
  lemma {:induction false} NotHit(c: bytes, off: nat, want: bytes, q: nat)
    requires Entries(c) && off % 32 == 0 && !ScanFrom(c, off, want).Hit? && off <= q && q % 32 == 0 && q + 32 <= |c|
    requires forall k | off <= k <= q && k % 32 == 0 && k < |c| :: c[k] != 0
    ensures !Named(EntryOf(c, q), want)
    decreases |c| - off
  {
    hide Named;
    if off < q { NotHit(c, off + 32, want, q); }
  }

  /** An entry written into the first free slot of a directory that has no entry of its name is found there. */
  lemma {:induction false} FoundNew(cl: seq<bytes>, k: nat, i: nat, p: nat, e: bytes, want: bytes)
    requires AllEntries(cl) && k <= i && Slot(cl, k) == At(i, p) && !Find(cl, k, want).At? && |e| == 32 && e[0] != 0
    requires Named(e, want)
    ensures i < |cl| && p + 32 <= |cl[i]| && Find(WithEntry(cl, i, p, e), k, want) == At(i, p)
    decreases |cl| - k
  {
    hide Named, Put;
    var w := WithEntry(cl, i, p, e);
    if k == i {
      forall q | 0 <= q < p && q % 32 == 0 && q + 32 <= |cl[i]|
        ensures cl[i][q] != 0 && !Named(EntryOf(cl[i], q), want)
      {
        NotHit(cl[i], 0, want, q);
      }
      ScanWritten(cl[i], 0, p, e, want);
    } else {
      ScanPast(cl[k], 0, want);
      assert w[k] == cl[k];
      FoundNew(cl, k + 1, i, p, e, want);
    }
  }

  /** An entry that keeps its name is found where it was. */
  lemma {:induction false} FoundSame(cl: seq<bytes>, k: nat, i: nat, p: nat, e: bytes, want: bytes)
    requires AllEntries(cl) && Find(cl, k, want) == At(i, p) && |e| == 32 && e[..12] == EntryOf(cl[i], p)[..12]
    ensures Find(WithEntry(cl, i, p, e), k, want) == At(i, p)
    decreases |cl| - k
  {
    hide Put;
    var w := WithEntry(cl, i, p, e);
    if k < i {
      assert w[k] == cl[k];
      FoundSame(cl, k + 1, i, p, e, want);
    } else {
      SameName(EntryOf(cl[i], p), e, want);
      ScanKept(cl[i], 0, p, e, want);
    }
  }

  lemma SameName(x: bytes, e: bytes, want: bytes)
    requires |x| == 32 && |e| == 32 && e[..12] == x[..12]
    ensures Named(e, want) == Named(x, want) && e[0] == x[0] && IsDir(e) == IsDir(x)
  {
    assert e[0] == e[..12][0] && e[11] == e[..12][11] && x[0] == x[..12][0] && x[11] == x[..12][11];
    assert e[..11] == e[..12][..11] && x[..11] == x[..12][..11];
  }

  /** A scan that hits, after an entry has been written that is not in its way: it does not end the directory, and it
      has the name sought exactly if it is the entry that was hit. */
  lemma {:induction false} ScanKept(c: bytes, off: nat, p: nat, e: bytes, want: bytes)
    requires Entries(c) && off % 32 == 0 && p % 32 == 0 && p + 32 <= |c| && |e| == 32 && e[0] != 0
    requires ScanFrom(c, off, want).Hit? && (Named(e, want) <==> ScanFrom(c, off, want).off == p)
    ensures ScanFrom(Put(c, p, e), off, want) == ScanFrom(c, off, want)
    decreases |c| - off
  {
    hide Put;
    EntryFits(c, off);
    PutEntry(c, p, e, off);
    assert c[off] == EntryOf(c, off)[0];
    if !Named(EntryOf(c, off), want) { ScanKept(c, off + 32, p, e, want); }
  }

  /** An entry found elsewhere is still found there, after an entry of another name has been written. */
  lemma {:induction false} FoundOther(cl: seq<bytes>, k: nat, i: nat, p: nat, e: bytes, want: bytes)
    requires AllEntries(cl) && i < |cl| && p + 32 <= |cl[i]| && p % 32 == 0 && |e| == 32 && e[0] != 0 && !Named(e, want)
    requires Find(cl, k, want).At? && Find(cl, k, want) != At(i, p)
    ensures var r := Find(cl, k, want); var w := WithEntry(cl, i, p, e);
      Find(w, k, want) == r && r.off + 32 <= |w[r.i]| && EntryOf(w[r.i], r.off) == EntryOf(cl[r.i], r.off)
    decreases |cl| - k
  {
    hide Put, Named;
    var w := WithEntry(cl, i, p, e);
    var r := Find(cl, k, want);
    if k == i {
      if ScanFrom(cl[i], 0, want).Hit? {
        ScanKept(cl[i], 0, p, e, want);
        PutEntry(cl[i], p, e, r.off);
      } else {
        ScanMissed(cl[i], 0, p, e, want);
        if i + 1 < |cl| { FindBehind(cl, w, i + 1, want); }
      }
    } else {
      assert w[k] == cl[k];
      if ScanFrom(cl[k], 0, want).Past? { FoundOther(cl, k + 1, i, p, e, want); }
      if r.i == i { PutEntry(cl[i], p, e, r.off); }
    }
  }

  lemma {:induction false} ScanMissed(c: bytes, off: nat, p: nat, e: bytes, want: bytes)
    requires Entries(c) && off % 32 == 0 && p % 32 == 0 && p + 32 <= |c| && |e| == 32 && e[0] != 0 && !Named(e, want)
    requires ScanFrom(c, off, want).Past?
    ensures ScanFrom(Put(c, p, e), off, want).Past?
    decreases |c| - off
  {
    hide Put;
    if off < |c| {
      EntryFits(c, off);
      PutEntry(c, p, e, off);
      assert c[off] == EntryOf(c, off)[0];
      ScanMissed(c, off + 32, p, e, want);
    }
  }

  lemma {:induction false} FindBehind(cl: seq<bytes>, w: seq<bytes>, k: nat, want: bytes)
    requires AllEntries(cl) && AllEntries(w) && |w| == |cl| && forall j | k <= j < |cl| :: w[j] == cl[j]
    ensures Find(w, k, want) == Find(cl, k, want)
    decreases |cl| - k
  {
    if k < |cl| { FindBehind(cl, w, k + 1, want); }
  }
}
