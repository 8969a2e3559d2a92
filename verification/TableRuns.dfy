/** Arbitrary runs of the operations that change table and bitmap: the two agree after every step, and no cluster is
    lost or found. */
module TableRuns {
  import opened Volume
  import opened Bitmap
  import opened Allocator
  import opened FileData
  import opened ExFile

  /** One operation: a chain has been allocated, or there was no room for it; a chain has been freed; a directory has
      been made longer; data has been written. */
  datatype Op =
    | Take(cs: seq<nat>)
    | NoRoom(size: nat)
    | Free(cs: seq<nat>)
    | Extend(prev: nat, newCl: nat)
    | Store(cs: seq<nat>)

  /** What the operation does to the disk, as the contracts of the methods say. */
  ghost predicate Does(op: Op, d: disk, d': disk, v: Vol, bm: seq<nat>)
    requires Mounted(d, v, bm)
  {
    match op
    case Take(cs) => Allocated(d, d', v, bm, cs)
    case NoRoom(size) => NoRoomLeft(d, d', v, bm, size)
    case Free(cs) =>
      && (cs != [] ==> Chain(d, v, cs[0], cs))
      && Became(d, d', v, bm, Freed(Fat(d, v), cs), Marked(Used(d, v, bm), cs, false))
    case Extend(prev, newCl) => TablesGrown(d, d', v, bm, prev, newCl)
    case Store(cs) => OnlyChain(d, d', v, cs) && AllUsable(v, cs) && forall c | c in cs :: c !in bm
  }

  /** The clusters that the scan can find free. */
  ghost function Left(d: disk, v: Vol, bm: seq<nat>): (n: nat)
    requires Mounted(d, v, bm)
  {
    MountedOn(d, v, bm);
    |FreeSet(Fat(d, v), MaxClusters(v))|
  }

  /** How many of the clusters the scan comes to. */
  function Below(cs: seq<nat>, max: nat): (n: nat)
  {
    if cs == [] then 0 else Below(cs[1..], max) + if cs[0] < max then 1 else 0
  }

  /** By how much an operation changes that number. */
  function Gain(op: Op, v: Vol): (n: int)
    requires v.secPerClus > 0
  {
    match op
    case Take(cs) => -|cs|
    case Free(cs) => Below(cs, MaxClusters(v))
    case Extend(_, _) => -1
    case _ => 0
  }

  /** Freeing a chain frees its clusters, each once. */
  lemma {:induction false} FreedCount(f: seq<nat>, cs: seq<nat>, max: nat)
    requires forall i | 0 <= i < |cs| :: 2 <= cs[i] < |f| && f[cs[i]] != 0
    requires forall i, j | 0 <= i < j < |cs| :: cs[i] != cs[j]
    ensures |FreeSet(Freed(f, cs), max)| == |FreeSet(f, max)| + Below(cs, max)
    decreases |cs|
  {
    if cs == [] {
      assert Freed(f, cs) == f;
    } else {
      var c, rest := cs[0], cs[1..];
      FreedCount(f, rest, max);
      var g, h := Freed(f, rest), Freed(f, cs);
      assert c !in rest;
      if c < max {
        OneTaken(h, g, max, c);
      } else {
        assert FreeSet(h, max) == FreeSet(g, max);
      }
    }
  }

  lemma ChainUsed(d: disk, v: Vol, bm: seq<nat>, cs: seq<nat>)
    requires Mounted(d, v, bm) && OnDisk(d, v) && cs != [] && Chain(d, v, cs[0], cs)
    ensures forall i | 0 <= i < |cs| :: 2 <= cs[i] < |Fat(d, v)| && Fat(d, v)[cs[i]] != 0
    ensures forall i, j | 0 <= i < j < |cs| :: cs[i] != cs[j]
  {
    hide Entry, Limit, Geometry, Mounted, Fat;
    ChainDistinct(d, v, cs[0], cs);
    forall i | 0 <= i < |cs|
      ensures 2 <= cs[i] < |Fat(d, v)| && Fat(d, v)[cs[i]] != 0
    {
      UsableEntry(d, v, cs[0], cs, i);
      NeverFree(d, v, cs[0], cs, i);
      FatIs(d, v, cs[i]);
    }
  }

  /** Every operation keeps the agreement, and the number of free clusters changes by what it takes or gives back. */
  lemma DoesAgree(op: Op, d: disk, d': disk, v: Vol, bm: seq<nat>)
    requires Mounted(d, v, bm) && Does(op, d, d', v, bm) && OnDisk(d, v) && Agree(Fat(d, v), Used(d, v, bm))
    ensures Mounted(d', v, bm) && OnDisk(d', v) && Agree(Fat(d', v), Used(d', v, bm)) && v.secPerClus > 0
    ensures Left(d', v, bm) == Left(d, v, bm) + Gain(op, v)
  {
    hide Mounted, Fat, Used, OnDisk, Chain, FreeSet, MaxClusters;
    MountedOn(d, v, bm);
    var f, u := Fat(d, v), Used(d, v, bm);
    match op
    case Take(cs) =>
      AllocatedLast(d, d', v, bm, cs);
      TakenAgree(f, u, Fat(d', v), Used(d', v, bm), MaxClusters(v), cs);
    case NoRoom(size) =>
      var g := if SizeFits(v, size) then f else f[0 := EOC];
      BecameMounted(d, d', v, bm, g, u);
      FirstAlone(f, MaxClusters(v));
    case Free(cs) =>
      BecameMounted(d, d', v, bm, Freed(f, cs), Marked(u, cs, false));
      FreedAgree(f, u, cs);
      if cs != [] { ChainUsed(d, v, bm, cs); }
      FreedCount(f, cs, MaxClusters(v));
    case Extend(prev, newCl) =>
      MountedOn(d', v, bm);
      GrownAgree(f, u, Fat(d', v), Used(d', v, bm), MaxClusters(v), prev, newCl);
    case Store(cs) =>
      DataOnly(d, d', v, bm, cs);
  }

  lemma FirstAlone(f: seq<nat>, max: nat)
    requires |f| > 0
    ensures FreeSet(f[0 := EOC], max) == FreeSet(f, max)
  {
  }

  lemma GrownAgree(f: seq<nat>, u: seq<bool>, g: seq<nat>, w: seq<bool>, max: nat, prev: nat, newCl: nat)
    requires Agree(f, u) && prev < |f| && newCl < |f| && prev != newCl && 2 <= newCl < max && 2 <= prev
    requires f[newCl] == 0 && f[prev] != 0 && g == f[prev := newCl][newCl := EOC] && w == u[newCl := true]
    ensures Agree(g, w) && |FreeSet(g, max)| == |FreeSet(f, max)| - 1
  {
    OneTaken(f, g, max, newCl);
  }

  /** A run of operations: the disk before the first one, and after each. */
  ghost predicate RunOf(ops: seq<Op>, ds: seq<disk>, v: Vol, bm: seq<nat>)
  {
    && |ds| == |ops| + 1
    && forall i | 0 <= i < |ops| :: Mounted(ds[i], v, bm) ==> Does(ops[i], ds[i], ds[i + 1], v, bm)
  }

  function Gains(ops: seq<Op>, v: Vol): (n: int)
    requires v.secPerClus > 0
  {
    if ops == [] then 0 else Gains(ops[..|ops| - 1], v) + Gain(ops[|ops| - 1], v)
  }

  /** Over a whole run of any length table and bitmap tell the same story, and the free clusters at the end are those at
      the start, less what has been taken, and what has been given back. */
  lemma {:induction false} RunAgrees(ops: seq<Op>, ds: seq<disk>, v: Vol, bm: seq<nat>)
    requires RunOf(ops, ds, v, bm) && Mounted(ds[0], v, bm) && OnDisk(ds[0], v)
    requires Agree(Fat(ds[0], v), Used(ds[0], v, bm))
    ensures var d := ds[|ops|];
      && Mounted(d, v, bm) && OnDisk(d, v) && Agree(Fat(d, v), Used(d, v, bm)) && v.secPerClus > 0
      && Left(d, v, bm) == Left(ds[0], v, bm) + Gains(ops, v)
    decreases |ops|
  {
    hide Mounted, Does, Fat, Used, OnDisk, Left, Gain;
    var n := |ops|;
    if n == 0 {
      MountedOn(ds[0], v, bm);
    } else {
      RunAgrees(ops[..n - 1], ds[..n], v, bm);
      assert ds[..n][n - 1] == ds[n - 1] && ds[..n][0] == ds[0];
      DoesAgree(ops[n - 1], ds[n - 1], ds[n], v, bm);
    }
  }
}
