/** Allocating and freeing exFAT clusters: table and bitmap change together, and a failure takes back what it did. */
module Allocator {
  import opened Bytes
  import opened Volume
  import opened Bitmap

  // ---------------------------------------------------------------- the two tables

  /** The entries of the file allocation table. */
  ghost function Fat(d: disk, v: Vol): (f: seq<nat>)
    requires OnDisk(d, v)
    ensures |f| == Limit(v)
  {
    seq(Limit(v), c requires 0 <= c < Limit(v) => Entry(d, v, c))
  }

  /** The bits of the allocation bitmap; clusters 0 and 1 have none. */
  ghost function Used(d: disk, v: Vol, bm: seq<nat>): (u: seq<bool>)
    requires Mounted(d, v, bm)
    ensures |u| == Limit(v)
  {
    seq(Limit(v), c requires 0 <= c < Limit(v) => c >= 2 && BitOf(d, v, bm, c))
  }

  /** Table and bitmap tell the same story. */
  predicate Agree(f: seq<nat>, u: seq<bool>)
  {
    |f| == |u| && forall c | 2 <= c < |f| :: u[c] <==> f[c] != 0
  }

  /** From `d` to `d'` the table becomes `f` and the bitmap `u`; the bitmap stays where it is, and so does every other
      sector of the heap. */
  ghost predicate Became(d: disk, d': disk, v: Vol, bm: seq<nat>, f: seq<nat>, u: seq<bool>)
    requires Mounted(d, v, bm)
  {
    && |d'| == |d| && Mounted(d', v, bm) && Fat(d', v) == f && Used(d', v, bm) == u
    && (forall i | Heap(v) <= i < |d| && !InChain(v, bm, i) :: d'[i] == d[i])
  }

  lemma BecameSelf(d: disk, v: Vol, bm: seq<nat>)
    requires Mounted(d, v, bm)
    ensures Became(d, d, v, bm, Fat(d, v), Used(d, v, bm))
  {
  }

  lemma BecameTrans(d: disk, d1: disk, d2: disk, v: Vol, bm: seq<nat>, f1: seq<nat>, u1: seq<bool>, f2: seq<nat>,
                    u2: seq<bool>)
    requires Mounted(d, v, bm) && Became(d, d1, v, bm, f1, u1) && Became(d1, d2, v, bm, f2, u2)
    ensures Became(d, d2, v, bm, f2, u2)
  {
    hide Fat, Used, Mounted;
  }

  /** One table write, seen on the tables. */
  lemma WroteEntry(d: disk, d': disk, v: Vol, bm: seq<nat>, cl: nat, val: nat)
    requires Mounted(d, v, bm) && OnDisk(d, v) && cl < Limit(v) && cl !in bm && val < TWO28
    requires FatWritten(d, d', v, cl, val)
    ensures Became(d, d', v, bm, Fat(d, v)[cl := val], Used(d, v, bm))
  {
    hide Limit, FatWord, BitAt;
    assert forall c: nat | c < Limit(v) :: Entry(d', v, c) == if c == cl then val else Entry(d, v, c);
    SmallMod(val);
    assert forall i | 0 <= i < |bm| :: Usable(v, bm[i]) ==> Entry(d', v, bm[i]) == Entry(d, v, bm[i]);
    ChainSame(d, d', v, v.bitmapClus, bm);
    forall c: nat | Usable(v, c) ensures BitOf(d', v, bm, c) == BitOf(d, v, bm, c) {
      BitPlace(d, v, bm, c);
    }
    assert Fat(d', v) == Fat(d, v)[cl := val];
    assert Used(d', v, bm) == Used(d, v, bm);
  }

  lemma SmallMod(val: nat)
    requires val < TWO28
    ensures val % TWO28 == val
  {
  }

  /** One bit, seen on the tables. */
  lemma WroteBit(d: disk, d': disk, v: Vol, bm: seq<nat>, cl: nat, used: bool)
    requires Mounted(d, v, bm) && Usable(v, cl) && BitMarked(d, d', v, bm, cl, used)
    ensures Became(d, d', v, bm, Fat(d, v), Used(d, v, bm)[cl := used])
  {
    hide Limit, FatWord, BitAt, BitOf;
    assert Fat(d', v) == Fat(d, v);
    assert Used(d', v, bm) == Used(d, v, bm)[cl := used];
  }

  lemma InFat(d: disk, v: Vol, bm: seq<nat>, cl: nat)
    requires Mounted(d, v, bm) && Usable(v, cl)
    ensures cl < |Fat(d, v)| == |Used(d, v, bm)| && Fat(d, v)[cl] == Entry(d, v, cl)
  {
  }

  /** A cluster of the bitmap is never free. */
  lemma BitmapInUse(d: disk, v: Vol, bm: seq<nat>, cl: nat)
    requires Mounted(d, v, bm) && cl in bm
    ensures Usable(v, cl) && Entry(d, v, cl) != 0
  {
    hide Entry, Limit;
    var i :| 0 <= i < |bm| && bm[i] == cl;
    UsableEntry(d, v, v.bitmapClus, bm, i);
    if i + 1 < |bm| { UsableEntry(d, v, v.bitmapClus, bm, i + 1); }
  }

  // ---------------------------------------------------------------- one cluster

  /** The number at which the scan for free clusters stops; the last two clusters of the heap are behind it. */
  function MaxClusters(v: Vol): (m: nat)
    requires v.secPerClus > 0
  {
    var m := if v.clusterCount != 0 then v.clusterCount else v.totSec / v.secPerClus;
    if m > MAX_SCAN then MAX_SCAN else m
  }

  /** The first free cluster at or after `from` and below `max`, or 0. */
  function FirstFree(f: seq<nat>, max: nat, from: nat): (cl: nat)
    requires from >= 2
    ensures cl == 0 || (from <= cl < |f| && cl < max && f[cl] == 0)
    ensures forall c | from <= c < |f| && c < max && (cl == 0 || c < cl) :: f[c] != 0
    decreases max - from
  {
    if from >= max || from >= |f| then 0 else if f[from] == 0 then from else FirstFree(f, max, from + 1)
  }

  /** `exfat_alloc_cluster`: the first free cluster, marked as the end of a chain and as used; 0 when there is none. */
  method AllocCluster(dk: array<bytes>, v: Vol, ghost bm: seq<nat>) returns (cl: nat)
    requires Mounted(dk[..], v, bm)
    modifies dk
    ensures var d := old(dk[..]); var f, u := Fat(d, v), Used(d, v, bm);
      && cl == FirstFree(f, MaxClusters(v), 2)
      && (cl == 0 ==> dk[..] == d)
      && (cl != 0 ==> Usable(v, cl) && cl !in bm && Became(d, dk[..], v, bm, f[cl := EOC], u[cl := true]))
  {
    hide Fat, Used, Limit, Mounted, Entry, Became, FatWritten, BitMarked;
    ghost var d := dk[..];
    MountedOn(d, v, bm);
    ghost var f := Fat(d, v);
    cl := 2;
    while cl < MaxClusters(v)
      invariant dk[..] == d && cl >= 2
      invariant FirstFree(f, MaxClusters(v), 2) == FirstFree(f, MaxClusters(v), cl)
    {
      InFat(d, v, bm, cl);
      var val := ReadFatEntry(dk, v, cl);
      if val == 0 {
        if cl in bm { BitmapInUse(d, v, bm, cl); }
        WriteFatEntry(dk, v, cl, EOC);
        WroteEntry(d, dk[..], v, bm, cl, EOC);
        ghost var d1 := dk[..];
        BecameMounted(d, d1, v, bm, f[cl := EOC], Used(d, v, bm));
        MountedBit(d1, v, bm, cl);
        var marked := MarkBitmap(dk, v, cl, true, bm);
        WroteBit(d1, dk[..], v, bm, cl, true);
        BecameTrans(d, d1, dk[..], v, bm, f[cl := EOC], Used(d, v, bm), f[cl := EOC], Used(d, v, bm)[cl := true]);
        return;
      }
      cl := cl + 1;
    }
    return 0;
  }

  lemma MountedOn(d: disk, v: Vol, bm: seq<nat>)
    requires Mounted(d, v, bm)
    ensures OnDisk(d, v) && v.secPerClus > 0 && MaxClusters(v) <= Limit(v) == |Fat(d, v)| < 0x0FFF_FFF8
  {
  }

  lemma BecameMounted(d: disk, d': disk, v: Vol, bm: seq<nat>, f: seq<nat>, u: seq<bool>)
    requires Mounted(d, v, bm) && Became(d, d', v, bm, f, u)
    ensures Mounted(d', v, bm) && OnDisk(d', v) && |d'| == |d| && Fat(d', v) == f && Used(d', v, bm) == u
  {
  }

  // ---------------------------------------------------------------- freeing a chain

  /** The table with the clusters `cs` free. */
  function Freed(f: seq<nat>, cs: seq<nat>): (g: seq<nat>)
    ensures |g| == |f| && forall c | 0 <= c < |f| :: g[c] == if c in cs then 0 else f[c]
  {
    seq(|f|, c requires 0 <= c < |f| => if c in cs then 0 else f[c])
  }

  function Marked(u: seq<bool>, cs: seq<nat>, on: bool): (w: seq<bool>)
    ensures |w| == |u| && forall c | 0 <= c < |u| :: w[c] == if c in cs then on else u[c]
  {
    seq(|u|, c requires 0 <= c < |u| => if c in cs then on else u[c])
  }

  /** `exfat_free_chain`. */
  method FreeChain(dk: array<bytes>, v: Vol, start: nat, ghost bm: seq<nat>, ghost cs: seq<nat>) returns (r: int)
    requires Mounted(dk[..], v, bm)
    requires if cs == [] then start == 0 || IsEnd(start) else Chain(dk[..], v, start, cs)
    requires forall c | c in cs :: c !in bm
    modifies dk
    ensures var d := old(dk[..]);
      r == 0 && Became(d, dk[..], v, bm, Freed(Fat(d, v), cs), Marked(Used(d, v, bm), cs, false))
  {
    hide Fat, Used, Limit, Mounted, Entry, Became, FatWritten, BitMarked;
    ghost var d := dk[..];
    MountedOn(d, v, bm);
    ghost var f, u := Fat(d, v), Used(d, v, bm);
    ghost var i := 0;
    BecameSelf(d, v, bm);
    assert Freed(f, cs[..0]) == f && Marked(u, cs[..0], false) == u;
    var cl := start;
    if cs != [] {
      UsableEntry(d, v, start, cs, 0);
    }
    while !IsEnd(cl) && cl != 0
      invariant 0 <= i <= |cs| && if i < |cs| then cl == cs[i] else cl == 0 || IsEnd(cl)
      invariant Became(d, dk[..], v, bm, Freed(f, cs[..i]), Marked(u, cs[..i], false))
      decreases |cs| - i
    {
      ghost var d1 := dk[..];
      BecameMounted(d, d1, v, bm, Freed(f, cs[..i]), Marked(u, cs[..i], false));
      UsableEntry(d, v, start, cs, i);
      NotYetFreed(d, d1, v, bm, cs, i);
      var next := ReadFatEntry(dk, v, cl);
      WriteFatEntry(dk, v, cl, 0);
      WroteEntry(d1, dk[..], v, bm, cl, 0);
      ghost var d2 := dk[..];
      BecameMounted(d1, d2, v, bm, Fat(d1, v)[cl := 0], Used(d1, v, bm));
      MountedBit(d2, v, bm, cl);
      var marked := MarkBitmap(dk, v, cl, false, bm);
      WroteBit(d2, dk[..], v, bm, cl, false);
      FreedMore(d, d1, d2, dk[..], v, bm, cs, i);
      if i + 1 < |cs| {
        UsableEntry(d, v, start, cs, i + 1);
      }
      i := i + 1;
      cl := next;
    }
    if i < |cs| {
      UsableEntry(d, v, start, cs, i);
    }
    assert cs[..i] == cs;
    r := 0;
  }

  /** The walk meets each cluster before it has been freed. */
  lemma NotYetFreed(d: disk, d1: disk, v: Vol, bm: seq<nat>, cs: seq<nat>, i: nat)
    requires Mounted(d, v, bm) && i < |cs| && Chain(d, v, cs[0], cs)
    requires Became(d, d1, v, bm, Freed(Fat(d, v), cs[..i]), Marked(Used(d, v, bm), cs[..i], false))
    ensures Mounted(d1, v, bm) && OnDisk(d1, v) && Usable(v, cs[i]) && Entry(d1, v, cs[i]) == Entry(d, v, cs[i])
  {
    hide Limit, Entry, Mounted;
    BecameMounted(d, d1, v, bm, Freed(Fat(d, v), cs[..i]), Marked(Used(d, v, bm), cs[..i], false));
    assert cs[i] !in cs[..i];
    InFat(d, v, bm, cs[i]);
    InFat(d1, v, bm, cs[i]);
  }

  lemma FreedMore(d: disk, d1: disk, d2: disk, d3: disk, v: Vol, bm: seq<nat>, cs: seq<nat>, i: nat)
    requires Mounted(d, v, bm) && i < |cs| && Usable(v, cs[i]) && OnDisk(d1, v) && Mounted(d1, v, bm)
    requires Mounted(d2, v, bm)
    requires Became(d, d1, v, bm, Freed(Fat(d, v), cs[..i]), Marked(Used(d, v, bm), cs[..i], false))
    requires cs[i] < |Fat(d1, v)| && Became(d1, d2, v, bm, Fat(d1, v)[cs[i] := 0], Used(d1, v, bm))
    requires cs[i] < |Used(d2, v, bm)| && Became(d2, d3, v, bm, Fat(d2, v), Used(d2, v, bm)[cs[i] := false])
    ensures Became(d, d3, v, bm, Freed(Fat(d, v), cs[..i + 1]), Marked(Used(d, v, bm), cs[..i + 1], false))
  {
    hide Limit, Mounted, Fat, Used;
    MountedOn(d, v, bm);
    var f, u := Fat(d, v), Used(d, v, bm);
    assert cs[..i + 1] == cs[..i] + [cs[i]];
    assert Freed(f, cs[..i])[cs[i] := 0] == Freed(f, cs[..i + 1]);
    assert Marked(u, cs[..i], false)[cs[i] := false] == Marked(u, cs[..i + 1], false);
  }

  // ---------------------------------------------------------------- a chain

  /** `cs` as a chain in the table `f`. */
  ghost predicate Linked(f: seq<nat>, cs: seq<nat>)
  {
    && (forall i | 0 <= i < |cs| :: 2 <= cs[i] < |f|)
    && (forall i, j | 0 <= i < j < |cs| :: cs[i] != cs[j])
    && (forall i | 0 <= i < |cs| - 1 :: f[cs[i]] == cs[i + 1])
    && (|cs| > 0 ==> IsEnd(f[cs[|cs| - 1]]))
  }

  lemma LinkedChain(d: disk, v: Vol, bm: seq<nat>, cs: seq<nat>)
    requires Mounted(d, v, bm) && |cs| > 0 && Linked(Fat(d, v), cs)
    ensures Chain(d, v, cs[0], cs)
  {
    hide Limit, Entry;
    MountedOn(d, v, bm);
  }

  /** The clusters that an allocation may take. */
  function FreeSet(f: seq<nat>, max: nat): (s: set<nat>)
  {
    set c | 2 <= c < |f| && c < max && f[c] == 0
  }

  /** The allocation so far: `cs` has been taken from the free clusters of `f`, and nothing else has changed. */
  ghost predicate Taken(f: seq<nat>, u: seq<bool>, g: seq<nat>, w: seq<bool>, max: nat, cs: seq<nat>)
  {
    && |g| == |f| && |w| == |u| && Linked(g, cs)
    && (forall c | c in cs :: c < |f| && f[c] == 0)
    && (forall c | 0 <= c < |f| && c !in cs :: g[c] == f[c])
    && w == Marked(u, cs, true)
    && |FreeSet(f, max)| == |FreeSet(g, max)| + |cs|
  }

  lemma TakenNone(f: seq<nat>, u: seq<bool>, max: nat)
    ensures Taken(f, u, f, u, max, [])
  {
    assert Marked(u, [], true) == u;
  }

  /** The table with `cl` as the end of a chain, linked behind `cs`. */
  function WithLast(g: seq<nat>, cs: seq<nat>, cl: nat): (g2: seq<nat>)
    requires cl < |g| && forall i | 0 <= i < |cs| :: cs[i] < |g|
  {
    if cs == [] then g[cl := EOC] else g[cl := EOC][cs[|cs| - 1] := cl]
  }

  lemma LinkedMore(g: seq<nat>, cs: seq<nat>, cl: nat)
    requires Linked(g, cs) && 2 <= cl < |g| && cl !in cs
    ensures Linked(WithLast(g, cs, cl), cs + [cl])
  {
    assert forall i | 0 <= i < |cs| :: (cs + [cl])[i] == cs[i];
  }

  lemma LinkedSmall(g: seq<nat>, cs: seq<nat>)
    requires Linked(g, cs)
    ensures forall i | 0 <= i < |cs| :: cs[i] < |g|
  {
  }

  /** One more cluster, linked behind the others. */
  lemma TakenMore(f: seq<nat>, u: seq<bool>, g: seq<nat>, w: seq<bool>, max: nat, cs: seq<nat>, cl: nat)
    requires Taken(f, u, g, w, max, cs) && 2 <= cl < |f| && cl < max && g[cl] == 0 && cl < |w|
    ensures var g' := g[cl := EOC];
      Taken(f, u, if cs == [] then g' else g'[cs[|cs| - 1] := cl], w[cl := true], max, cs + [cl])
  {
    hide Linked;
    LinkedSmall(g, cs);
    var g2 := WithLast(g, cs, cl);
    assert cl !in cs by {
      if cl in cs { LinkedNonzero(g, cs, cl); }
    }
    LinkedMore(g, cs, cl);
    if cs != [] { LinkedNonzero(g, cs, cs[|cs| - 1]); }
    OneTaken(g, g2, max, cl);
    assert w[cl := true] == Marked(u, cs + [cl], true);
  }

  lemma LinkedNonzero(g: seq<nat>, cs: seq<nat>, cl: nat)
    requires Linked(g, cs) && cl in cs
    ensures cl < |g| && g[cl] != 0
  {
    var i :| 0 <= i < |cs| && cs[i] == cl;
    if i + 1 < |cs| { assert cs[i + 1] >= 2; }
  }

  /** Taking the allocation back restores both tables. */
  lemma TakenBack(f: seq<nat>, u: seq<bool>, g: seq<nat>, w: seq<bool>, max: nat, cs: seq<nat>)
    requires Taken(f, u, g, w, max, cs) && Agree(f, u)
    ensures Freed(g, cs) == f && Marked(w, cs, false) == u
  {
    forall c | 0 <= c < |u| ensures Marked(w, cs, false)[c] == u[c] {
      if c in cs {
        var i :| 0 <= i < |cs| && cs[i] == c;
      }
    }
  }

  /** An allocation keeps the two tables in agreement. */
  lemma TakenAgree(f: seq<nat>, u: seq<bool>, g: seq<nat>, w: seq<bool>, max: nat, cs: seq<nat>)
    requires Taken(f, u, g, w, max, cs) && Agree(f, u)
    ensures Agree(g, w)
  {
    forall c | 2 <= c < |g| ensures w[c] <==> g[c] != 0 {
      if c in cs { LinkedNonzero(g, cs, c); }
    }
  }

  lemma FreedAgree(f: seq<nat>, u: seq<bool>, cs: seq<nat>)
    requires Agree(f, u)
    ensures Agree(Freed(f, cs), Marked(u, cs, false))
  {
  }

  /** Marking a free cluster leaves one fewer. */
  lemma OneTaken(f: seq<nat>, g: seq<nat>, max: nat, cl: nat)
    requires |g| == |f| && 2 <= cl < |f| && cl < max && f[cl] == 0 && g[cl] != 0
    requires forall c | 0 <= c < |f| && c != cl :: (g[c] == 0) == (f[c] == 0)
    ensures |FreeSet(g, max)| + 1 == |FreeSet(f, max)|
  {
    assert FreeSet(g, max) == FreeSet(f, max) - {cl};
    assert cl in FreeSet(f, max);
  }

  /** The scan finds a free cluster if there is one. */
  lemma NoneIsFree(f: seq<nat>, max: nat)
    ensures FirstFree(f, max, 2) == 0 <==> |FreeSet(f, max)| == 0
  {
    if FirstFree(f, max, 2) != 0 {
      FreeIs(f, max, FirstFree(f, max, 2));
      assert FirstFree(f, max, 2) in FreeSet(f, max);
    } else {
      NoneFree(f, max);
    }
  }

  lemma NoneFree(f: seq<nat>, max: nat)
    requires FirstFree(f, max, 2) == 0
    ensures FreeSet(f, max) == {}
  {
  }

  /** The clusters that `bytes` bytes need. */
  function Need(v: Vol, bytes: nat): (n: nat)
    requires ClusterBytes(v) > 0
  {
    (bytes + ClusterBytes(v) - 1) / ClusterBytes(v)
  }

  /** From `d` to `d'` the clusters `cs` have been allocated as one chain. */
  ghost predicate Allocated(d: disk, d': disk, v: Vol, bm: seq<nat>, cs: seq<nat>)
    requires Mounted(d, v, bm)
  {
    && Mounted(d', v, bm) && Became(d, d', v, bm, Fat(d', v), Used(d', v, bm))
    && Taken(Fat(d, v), Used(d, v, bm), Fat(d', v), Used(d', v, bm), MaxClusters(v), cs)
    && (forall c | c in cs :: Usable(v, c) && c !in bm)
  }

  lemma AllocatedNone(d: disk, v: Vol, bm: seq<nat>)
    requires Mounted(d, v, bm)
    ensures Allocated(d, d, v, bm, [])
  {
    hide Mounted, Fat, Used, Taken;
    MountedOn(d, v, bm);
    TakenNone(Fat(d, v), Used(d, v, bm), MaxClusters(v));
    BecameSelf(d, v, bm);
  }

  /** One cluster more, allocated and linked. */
  lemma AllocatedMore(d: disk, d1: disk, d2: disk, d3: disk, v: Vol, bm: seq<nat>, cs: seq<nat>, cl: nat)
    requires Mounted(d, v, bm) && Allocated(d, d1, v, bm, cs) && Mounted(d1, v, bm) && OnDisk(d1, v)
    requires Usable(v, cl) && cl !in bm && cl < |Fat(d1, v)| == |Used(d1, v, bm)| && Fat(d1, v)[cl] == 0
    requires cl < MaxClusters(v)
    requires Became(d1, d2, v, bm, Fat(d1, v)[cl := EOC], Used(d1, v, bm)[cl := true])
    requires cs == [] ==> d3 == d2
    requires cs != [] ==> cs[|cs| - 1] < |Fat(d1, v)| && Mounted(d2, v, bm)
    requires cs != [] ==> Became(d2, d3, v, bm, Fat(d1, v)[cl := EOC][cs[|cs| - 1] := cl], Used(d1, v, bm)[cl := true])
    ensures Allocated(d, d3, v, bm, cs + [cl]) && cl !in cs
    ensures cl < |Fat(d3, v)| && Fat(d3, v)[cl] == EOC
  {
    hide Mounted, Fat, Used, Taken;
    MountedOn(d, v, bm);
    NotTaken(d, d1, v, bm, cs, cl);
    TakenMore(Fat(d, v), Used(d, v, bm), Fat(d1, v), Used(d1, v, bm), MaxClusters(v), cs, cl);
  }

  lemma AllocatedLast(d: disk, d1: disk, v: Vol, bm: seq<nat>, cs: seq<nat>)
    requires Mounted(d, v, bm) && Allocated(d, d1, v, bm, cs)
    ensures Mounted(d1, v, bm) && OnDisk(d1, v) && OnDisk(d, v)
    ensures cs != [] ==>
      Chain(d1, v, cs[0], cs) && IsEnd(Fat(d1, v)[cs[|cs| - 1]]) && Usable(v, cs[|cs| - 1]) && cs[|cs| - 1] !in bm
    ensures cs != [] ==> Usable(v, cs[0])
    ensures forall c | c in cs :: c !in bm
    ensures |FreeSet(Fat(d, v), MaxClusters(v))| == |FreeSet(Fat(d1, v), MaxClusters(v))| + |cs|
  {
    hide Fat, Used, Entry, Limit;
    if cs != [] { LinkedChain(d1, v, bm, cs); }
  }

  /** The last link is written once more; it was an end mark already. */
  lemma LastAgain(d: disk, d1: disk, d2: disk, v: Vol, bm: seq<nat>, cs: seq<nat>)
    requires Mounted(d, v, bm) && Allocated(d, d1, v, bm, cs) && cs != [] && Mounted(d1, v, bm) && OnDisk(d1, v)
    requires var l := cs[|cs| - 1];
      l < |Fat(d1, v)| && Fat(d1, v)[l] == EOC && Became(d1, d2, v, bm, Fat(d1, v)[l := EOC], Used(d1, v, bm))
    ensures Allocated(d, d2, v, bm, cs)
  {
    hide Mounted, Fat, Used, Taken;
    MountedOn(d1, v, bm);
    assert Fat(d1, v)[cs[|cs| - 1] := EOC] == Fat(d1, v);
  }

  /** Giving the clusters back restores table and bitmap. */
  lemma GivenBack(d: disk, d1: disk, d2: disk, v: Vol, bm: seq<nat>, cs: seq<nat>)
    requires Mounted(d, v, bm) && Allocated(d, d1, v, bm, cs) && OnDisk(d, v) && OnDisk(d1, v) && Mounted(d1, v, bm)
    requires Became(d1, d2, v, bm, Freed(Fat(d1, v), cs), Marked(Used(d1, v, bm), cs, false))
    requires Agree(Fat(d, v), Used(d, v, bm))
    ensures Became(d, d2, v, bm, Fat(d, v), Used(d, v, bm))
  {
    hide Mounted, Fat, Used, Taken, Agree;
    TakenBack(Fat(d, v), Used(d, v, bm), Fat(d1, v), Used(d1, v, bm), MaxClusters(v), cs);
  }

  /** One round of `exfat_alloc_chain_for_size`: a cluster is allocated and linked behind `prev`. */
  method AllocLink(dk: array<bytes>, v: Vol, prev: nat, ghost d: disk, ghost bm: seq<nat>, ghost cs: seq<nat>)
    returns (cl: nat)
    requires Mounted(d, v, bm) && Allocated(d, dk[..], v, bm, cs) && Mounted(dk[..], v, bm) && OnDisk(dk[..], v)
    requires prev == if cs == [] then 0 else cs[|cs| - 1]
    requires cs != [] ==> prev < |Fat(dk[..], v)| && Fat(dk[..], v)[prev] == EOC
    modifies dk
    ensures cl == 0 ==> dk[..] == old(dk[..]) && FreeSet(Fat(old(dk[..]), v), MaxClusters(v)) == {}
    ensures cl != 0 ==>
      Usable(v, cl) && Mounted(dk[..], v, bm) && OnDisk(dk[..], v) && Allocated(d, dk[..], v, bm, cs + [cl])
    ensures cl != 0 ==> cl < |Fat(dk[..], v)| && Fat(dk[..], v)[cl] == EOC
  {
    hide Fat, Used, Limit, Mounted, Entry, Became, FatWritten, Allocated, FirstFree, FreeSet, Chain, Linked;
    ghost var d1 := dk[..];
    AllocatedLast(d, d1, v, bm, cs);
    cl := AllocCluster(dk, v, bm);
    if cl == 0 {
      NoneFree(Fat(d1, v), MaxClusters(v));
      return;
    }
    ghost var d2 := dk[..];
    BecameMounted(d1, d2, v, bm, Fat(d1, v)[cl := EOC], Used(d1, v, bm)[cl := true]);
    FreeIs(Fat(d1, v), MaxClusters(v), cl);
    if prev != 0 {
      MountedOn(d2, v, bm);
      WriteFatEntry(dk, v, prev, cl);
      WroteEntry(d2, dk[..], v, bm, prev, cl);
      BecameMounted(d2, dk[..], v, bm, Fat(d2, v)[prev := cl], Used(d2, v, bm));
    }
    AllocatedMore(d, d1, d2, dk[..], v, bm, cs, cl);
  }

  lemma FreeIs(f: seq<nat>, max: nat, cl: nat)
    requires cl != 0 && cl == FirstFree(f, max, 2)
    ensures cl < |f| && cl < max && f[cl] == 0
  {
  }

  /** The rollback of `exfat_alloc_chain_for_size`. */
  method TakeBack(dk: array<bytes>, v: Vol, first: nat, ghost d: disk, ghost bm: seq<nat>, ghost cs: seq<nat>)
    requires Mounted(d, v, bm) && OnDisk(d, v) && Allocated(d, dk[..], v, bm, cs)
    requires first == if cs == [] then 0 else cs[0]
    requires Agree(Fat(d, v), Used(d, v, bm))
    modifies dk
    ensures Became(d, dk[..], v, bm, Fat(d, v), Used(d, v, bm))
  {
    hide Fat, Used, Limit, Mounted, Entry, Became, Allocated, Agree, Chain, Linked;
    ghost var d1 := dk[..];
    AllocatedLast(d, d1, v, bm, cs);
    if first != 0 {
      var freed := FreeChain(dk, v, first, bm, cs);
    } else {
      BecameSelf(d1, v, bm);
      assert Freed(Fat(d1, v), cs) == Fat(d1, v) && Marked(Used(d1, v, bm), cs, false) == Used(d1, v, bm);
    }
    GivenBack(d, d1, dk[..], v, bm, cs);
  }

  /** The sum that rounds the size up does not wrap around. */
  predicate SizeFits(v: Vol, bytes: nat) { bytes + ClusterBytes(v) - 1 < TWO32 }

  /** `exfat_alloc_chain_for_size`: a chain of as many clusters as `bytes` need, taken from the free ones.  When they do
      not suffice the result is 0 and table and bitmap are as they were.  A size so large that rounding up wraps around
      takes no cluster, but the end mark goes into entry 0. */
  method AllocChainForSize(dk: array<bytes>, v: Vol, bytes: nat, ghost bm: seq<nat>)
    returns (first: nat, ghost cs: seq<nat>)
    requires Mounted(dk[..], v, bm) && bytes < TWO32
    requires Agree(Fat(dk[..], v), Used(dk[..], v, bm))
    modifies dk
    ensures ClusterBytes(v) > 0
    ensures var d, d' := old(dk[..]), dk[..]; var f, u := Fat(d, v), Used(d, v, bm);
      && (first != 0 <==> bytes > 0 && SizeFits(v, bytes) && Need(v, bytes) <= |FreeSet(f, MaxClusters(v))|)
      && (first == 0 ==> cs == [] && 0 < |f| && Became(d, d', v, bm, if SizeFits(v, bytes) then f else f[0 := EOC], u))
      && (first != 0 ==>
           |cs| == Need(v, bytes) && cs[0] == first && Allocated(d, d', v, bm, cs) && Chain(d', v, first, cs))
  {
    hide Fat, Used, Limit, Mounted, Entry, Became, FatWritten, Allocated, FirstFree, FreeSet, Agree, Chain, Linked;
    ghost var d := dk[..];
    cs := [];
    AllocatedNone(d, v, bm);
    MountedOn(d, v, bm);
    ClusterBytesPos(v, dk.Length);
    if bytes == 0 {
      BecameSelf(d, v, bm);
      return 0, cs;
    }
    var clusterBytes := v.secPerClus * v.bytesPerSec;
    var need := (bytes + clusterBytes - 1) % TWO32 / clusterBytes;
    NeedIs(v, bytes);
    first := 0;
    var prev := 0;
    var i := 0;
    while i < need
      invariant 0 <= i <= need && |cs| == i && Allocated(d, dk[..], v, bm, cs) && Mounted(dk[..], v, bm)
      invariant OnDisk(dk[..], v)
      invariant if i == 0 then first == prev == 0 else first == cs[0] && prev == cs[i - 1] && first != 0 && prev != 0
      invariant i > 0 ==> prev < |Fat(dk[..], v)| && Fat(dk[..], v)[prev] == EOC
    {
      AllocatedLast(d, dk[..], v, bm, cs);
      var cl := AllocLink(dk, v, prev, d, bm, cs);
      if cl == 0 {
        TakeBack(dk, v, first, d, bm, cs);
        cs := [];
        return 0, cs;
      }
      if first == 0 {
        first := cl;
      }
      cs := cs + [cl];
      prev := cl;
      i := i + 1;
    }
    AllocatedLast(d, dk[..], v, bm, cs);
    ghost var d3 := dk[..];
    FirstEntries(d3, v, bm);
    WriteFatEntry(dk, v, prev, EOC);
    WroteEntry(d3, dk[..], v, bm, prev, EOC);
    if need == 0 {
      NoneTaken(d, d3, dk[..], v, bm);
      return 0, cs;
    }
    LastAgain(d, d3, dk[..], v, bm, cs);
    AllocatedLast(d, dk[..], v, bm, cs);
  }

  lemma NeedIs(v: Vol, bytes: nat)
    requires 0 < bytes < TWO32 && 0 < ClusterBytes(v) < TWO31
    ensures var need := (bytes + ClusterBytes(v) - 1) % TWO32 / ClusterBytes(v);
      if SizeFits(v, bytes) then need == Need(v, bytes) >= 1 else need == 0
  {
    if SizeFits(v, bytes) {
      DivAtLeast(bytes + ClusterBytes(v) - 1, ClusterBytes(v), 1);
    } else {
      DivIs(bytes + ClusterBytes(v) - 1 - TWO32, ClusterBytes(v), 0, bytes + ClusterBytes(v) - 1 - TWO32);
    }
  }

  /** Entry 0 exists and belongs to no chain. */
  lemma FirstEntries(d: disk, v: Vol, bm: seq<nat>)
    requires Mounted(d, v, bm)
    ensures OnDisk(d, v) && 0 < Limit(v) && 0 !in bm && |Fat(d, v)| == Limit(v)
  {
    hide Entry;
  }

  lemma NoneTaken(d: disk, d1: disk, d2: disk, v: Vol, bm: seq<nat>)
    requires Mounted(d, v, bm) && Allocated(d, d1, v, bm, []) && Mounted(d1, v, bm) && OnDisk(d1, v) && OnDisk(d, v)
    requires 0 < |Fat(d1, v)| && Became(d1, d2, v, bm, Fat(d1, v)[0 := EOC], Used(d1, v, bm))
    ensures 0 < |Fat(d, v)| && Became(d, d2, v, bm, Fat(d, v)[0 := EOC], Used(d, v, bm))
  {
    hide Mounted, Entry;
    assert Fat(d1, v) == Fat(d, v);
    assert Marked(Used(d, v, bm), [], true) == Used(d, v, bm);
  }

  lemma NotTaken(d: disk, d1: disk, v: Vol, bm: seq<nat>, cs: seq<nat>, cl: nat)
    requires Mounted(d, v, bm) && Allocated(d, d1, v, bm, cs) && OnDisk(d1, v) && cl < |Fat(d1, v)|
    requires Fat(d1, v)[cl] == 0
    ensures cl !in cs
  {
    hide Fat, Used, Mounted, Linked;
    if cl in cs { LinkedNonzero(Fat(d1, v), cs, cl); }
  }

  /** Allocating and then freeing restores table and bitmap. */
  lemma AllocThenFree(d: disk, d1: disk, d2: disk, v: Vol, bm: seq<nat>, cs: seq<nat>)
    requires Mounted(d, v, bm) && OnDisk(d, v) && Agree(Fat(d, v), Used(d, v, bm)) && Allocated(d, d1, v, bm, cs)
    requires Mounted(d1, v, bm) && OnDisk(d1, v)
    requires Became(d1, d2, v, bm, Freed(Fat(d1, v), cs), Marked(Used(d1, v, bm), cs, false))
    ensures Became(d, d2, v, bm, Fat(d, v), Used(d, v, bm))
  {
    hide Mounted, Fat, Used, Taken, Agree, Became, Allocated;
    GivenBack(d, d1, d2, v, bm, cs);
  }
}
