/** What a step of the cluster engine keeps: the links and contents of clusters in use that it does not name. */
module Keeping {
  import opened Bytes
  import opened Volume
  import opened Bitmap
  import opened FileData

  /** The clusters of a chain as a set. */
  function SetOf(cs: seq<nat>): (s: set<nat>)
    ensures forall c :: c in s <==> c in cs
  {
    set c | c in cs
  }

  // ---------------------------------------------------------------- clusters apart from each other

  predicate Clear(cs: seq<nat>, named: set<nat>) { forall c | c in cs :: c !in named }

  lemma ClearNone(cs: seq<nat>)
    ensures Clear(cs, {})
  {
  }

  predicate Apart(a: seq<nat>, b: seq<nat>) { forall c | c in a :: c !in b }

  /** No two of the directories share a cluster. */
  predicate Disjoint(chs: seq<seq<nat>>) { forall i, j | 0 <= i < j < |chs| :: Apart(chs[i], chs[j]) }

  lemma DisjointPrefix(chs: seq<seq<nat>>, n: nat)
    requires Disjoint(chs) && n <= |chs|
    ensures Disjoint(chs[..n])
  {
  }

  lemma WayApart(way: seq<seq<nat>>, i: nat, j: nat)
    requires Disjoint(way) && i < j < |way|
    ensures Apart(way[i], way[j])
  {
  }

  // ---------------------------------------------------------------- what is in use

  /** The table says that cluster `c` is taken. */
  ghost predicate InUse(d: disk, v: Vol, c: nat)
  {
    OnDisk(d, v) && Usable(v, c) && Entry(d, v, c) != 0
  }

  /** From `d` to `d'` every cluster in use keeps its link and its contents, but for those of `named`. */
  ghost predicate Keeps(d: disk, d': disk, v: Vol, named: set<nat>)
  {
    && OnDisk(d, v) && OnDisk(d', v) && |d'| == |d|
    && forall c | InUse(d, v, c) && c !in named ::
         Entry(d', v, c) == Entry(d, v, c) && Cluster(d', v, c) == Cluster(d, v, c)
  }

  lemma KeepsAll(d: disk, v: Vol)
    requires OnDisk(d, v)
    ensures Keeps(d, d, v, {})
  {
  }

  lemma KeepsOn(d: disk, d': disk, v: Vol, named: set<nat>)
    requires Keeps(d, d', v, named)
    ensures OnDisk(d, v) && OnDisk(d', v) && |d'| == |d|
  {
  }

  lemma KeepsMore(d: disk, d': disk, v: Vol, named: set<nat>, all: set<nat>)
    requires Keeps(d, d', v, named) && forall c | c in named && InUse(d, v, c) :: c in all
    ensures Keeps(d, d', v, all)
  {
    hide OnDisk, Entry, Cluster, Usable;
  }

  /** Two steps; what the second one names counts only if it was in use before the first. */
  lemma KeepsThen(d: disk, d1: disk, d2: disk, v: Vol, first: set<nat>, second: set<nat>, all: set<nat>)
    requires Keeps(d, d1, v, first) && Keeps(d1, d2, v, second)
    requires forall c | (c in first || c in second) && InUse(d, v, c) :: c in all
    ensures Keeps(d, d2, v, all)
  {
    hide OnDisk, Entry, Cluster, Limit;
    KeepsOn(d, d1, v, first);
    KeepsOn(d1, d2, v, second);
    forall c | InUse(d, v, c) && c !in all
      ensures Entry(d2, v, c) == Entry(d, v, c) && Cluster(d2, v, c) == Cluster(d, v, c)
    {
      assert InUse(d1, v, c);
    }
  }

  /** Every cluster of a chain is in use. */
  lemma ChainInUse(d: disk, v: Vol, start: nat, cs: seq<nat>)
    requires Chain(d, v, start, cs)
    ensures OnDisk(d, v) && AllUsable(v, cs) && forall c | c in cs :: InUse(d, v, c)
  {
    hide Entry, Limit, Geometry;
    ChainUsable(d, v, start, cs);
    forall i | 0 <= i < |cs|
      ensures InUse(d, v, cs[i])
    {
      UsableEntry(d, v, start, cs, i);
      if i + 1 < |cs| { UsableEntry(d, v, start, cs, i + 1); }
    }
  }

  /** A chain of other clusters is still that chain, with the same contents. */
  lemma KeepsChain(d: disk, d': disk, v: Vol, named: set<nat>, start: nat, cs: seq<nat>)
    requires Keeps(d, d', v, named) && Chain(d, v, start, cs) && forall c | c in cs :: c !in named
    ensures Chain(d', v, start, cs) && AllUsable(v, cs) && OnDisk(d', v) && OnDisk(d, v)
    ensures Contents(d', v, cs) == Contents(d, v, cs)
  {
    hide Entry, Limit, Geometry, Cluster, OnDisk;
    ChainInUse(d, v, start, cs);
    KeepsOn(d, d', v, named);
    forall i | 0 <= i < |cs|
      ensures Entry(d', v, cs[i]) == Entry(d, v, cs[i]) && Cluster(d', v, cs[i]) == Cluster(d, v, cs[i])
    {
      assert cs[i] in cs && InUse(d, v, cs[i]);
    }
    ChainSame(d, d', v, start, cs);
  }

  /** The clusters of a chain, one by one. */
  function Contents(d: disk, v: Vol, cs: seq<nat>): (cl: seq<bytes>)
    requires OnDisk(d, v) && AllUsable(v, cs)
    ensures |cl| == |cs|
  {
    seq(|cs|, i requires 0 <= i < |cs| => Cluster(d, v, cs[i]))
  }

  /** The same clusters hold the same bytes. */
  lemma {:induction false} SameBytesOf(d: disk, d': disk, v: Vol, cs: seq<nat>)
    requires OnDisk(d, v) && OnDisk(d', v) && AllUsable(v, cs) && Contents(d', v, cs) == Contents(d, v, cs)
    ensures ChainBytes(d', v, cs) == ChainBytes(d, v, cs)
  {
    hide Cluster, OnDisk, Usable;
    if cs != [] {
      var n := |cs| - 1;
      assert Contents(d, v, cs[..n]) == Contents(d, v, cs)[..n];
      assert Contents(d', v, cs[..n]) == Contents(d', v, cs)[..n];
      SameBytesOf(d, d', v, cs[..n]);
      assert Contents(d', v, cs)[n] == Contents(d, v, cs)[n];
    }
  }

  // ---------------------------------------------------------------- steps

  /** A write to the sectors of some clusters. */
  lemma WriteKeeps(d: disk, d': disk, v: Vol, cs: seq<nat>)
    requires OnDisk(d, v) && OnlyChain(d, d', v, cs) && AllUsable(v, cs)
    ensures Keeps(d, d', v, SetOf(cs))
  {
    hide Limit, Geometry, FatWord, Cluster, OnlyChain;
    OnlyOnDisk(d, d', v, cs);
    TableKept(d, d', v, cs);
    forall c | InUse(d, v, c) && c !in cs
      ensures Entry(d', v, c) == Entry(d, v, c) && Cluster(d', v, c) == Cluster(d, v, c)
    {
      OtherCluster(d, d', v, cs, c);
    }
  }

  lemma OneIsChain(d: disk, d': disk, v: Vol, cl: nat)
    requires OnDisk(d, v) && Usable(v, cl) && OnlyCluster(d, d', v, cl)
    ensures OnlyChain(d, d', v, [cl]) && AllUsable(v, [cl])
  {
    hide Limit, Geometry, Lba;
    forall i | 0 <= i < |d| && !InChain(v, [cl], i)
      ensures d'[i] == d[i]
    {
      assert [cl][0] == cl;
      assert !InCluster(v, cl, i);
    }
  }

  lemma WriteOneKeeps(d: disk, d': disk, v: Vol, cl: nat)
    requires OnDisk(d, v) && Usable(v, cl) && OnlyCluster(d, d', v, cl)
    ensures Keeps(d, d', v, {cl})
  {
    hide OnlyCluster, OnlyChain, OnDisk;
    OneIsChain(d, d', v, cl);
    WriteKeeps(d, d', v, [cl]);
    assert SetOf([cl]) == {cl};
  }

  /** A table write. */
  lemma EntryKeeps(d: disk, d': disk, v: Vol, cl: nat, val: nat)
    requires OnDisk(d, v) && cl < Limit(v) && FatWritten(d, d', v, cl, val)
    ensures Keeps(d, d', v, {cl})
  {
    hide Limit, Geometry, FatWord, Cluster, Lba;
    forall c | InUse(d, v, c) && c !in {cl}
      ensures Entry(d', v, c) == Entry(d, v, c) && Cluster(d', v, c) == Cluster(d, v, c)
    {
      LbaIs(v, |d|, c);
      ClusterSame(d, d', v, c);
    }
  }
}
