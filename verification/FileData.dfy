/** File contents in cluster chains: writing, reading back, and what stays untouched. */
module FileData {
  import opened Bytes
  import opened Volume
  import opened Bitmap

  // ---------------------------------------------------------------- the bytes of a chain

  predicate AllUsable(v: Vol, cs: seq<nat>)
  {
    forall i | 0 <= i < |cs| :: Usable(v, cs[i])
  }

  /** The clusters `cs` one after the other. */
  function ChainBytes(d: disk, v: Vol, cs: seq<nat>): (b: bytes)
    requires OnDisk(d, v) && AllUsable(v, cs)
  {
    if cs == [] then [] else ChainBytes(d, v, cs[..|cs| - 1]) + Cluster(d, v, cs[|cs| - 1])
  }

  lemma {:induction false} ChainLen(d: disk, v: Vol, cs: seq<nat>)
    requires OnDisk(d, v) && AllUsable(v, cs)
    ensures |ChainBytes(d, v, cs)| == |cs| * ClusterBytes(v)
  {
    hide Cluster, OnDisk, Usable;
    if cs != [] {
      ChainLen(d, v, cs[..|cs| - 1]);
      ClusterLen(d, v, cs[|cs| - 1]);
      MulSucc(|cs| - 1, ClusterBytes(v));
    }
  }

  /** Cluster `p` of a chain, at its place in the bytes. */
  lemma {:induction false} ChainPart(d: disk, v: Vol, cs: seq<nat>, p: nat)
    requires OnDisk(d, v) && AllUsable(v, cs) && p < |cs|
    ensures p * ClusterBytes(v) + ClusterBytes(v) <= |ChainBytes(d, v, cs)|
    ensures ChainBytes(d, v, cs)[p * ClusterBytes(v)..p * ClusterBytes(v) + ClusterBytes(v)] == Cluster(d, v, cs[p])
  {
    hide Cluster, OnDisk, Usable, ClusterBytes;
    var cb, n := ClusterBytes(v), |cs| - 1;
    ChainLen(d, v, cs[..n]);
    ClusterLen(d, v, cs[n]);
    var x, y := ChainBytes(d, v, cs[..n]), Cluster(d, v, cs[n]);
    SliceOfSecond(x, y);
    if p < n {
      ChainPart(d, v, cs[..n], p);
      SliceOfFirst(x, y, p * cb, p * cb + cb);
    }
  }

  lemma {:induction false} SectorPart(d: disk, v: Vol, lba: nat, n: nat, s: nat)
    requires OnDisk(d, v) && lba + n <= |d| && s < n
    ensures s * v.bytesPerSec + v.bytesPerSec <= |Sectors(d, lba, n)|
    ensures Sectors(d, lba, n)[s * v.bytesPerSec..s * v.bytesPerSec + v.bytesPerSec] == d[lba + s]
  {
    hide Geometry;
    var bps := v.bytesPerSec;
    SectorsLen(d, v, lba, n - 1);
    var x, y := Sectors(d, lba, n - 1), d[lba + n - 1];
    SliceOfSecond(x, y);
    if s < n - 1 {
      SectorPart(d, v, lba, n - 1, s);
      SliceOfFirst(x, y, s * bps, s * bps + bps);
    }
  }

  /** Sector `s` of cluster `p`, at its place in the bytes of the chain. */
  lemma SectorOfChain(d: disk, v: Vol, cs: seq<nat>, p: nat, s: nat)
    requires OnDisk(d, v) && AllUsable(v, cs) && p < |cs| && s < v.secPerClus
    ensures Usable(v, cs[p]) && Lba(v, cs[p]) + s < |d| && |d[Lba(v, cs[p]) + s]| == v.bytesPerSec
    ensures var pos := p * ClusterBytes(v) + s * v.bytesPerSec;
      && pos + v.bytesPerSec <= |ChainBytes(d, v, cs)|
      && ChainBytes(d, v, cs)[pos..pos + v.bytesPerSec] == d[Lba(v, cs[p]) + s]
  {
    hide Limit, ChainBytes, Geometry, Cluster, Lba, ClusterBytes;
    ChainPart(d, v, cs, p);
    ClusterPart(d, v, cs[p], s);
    SliceOfSlice(ChainBytes(d, v, cs), p * ClusterBytes(v), ClusterBytes(v), s * v.bytesPerSec,
      s * v.bytesPerSec + v.bytesPerSec);
  }

  lemma ClusterPart(d: disk, v: Vol, cl: nat, s: nat)
    requires OnDisk(d, v) && Usable(v, cl) && s < v.secPerClus
    ensures Lba(v, cl) + s < |d| && |d[Lba(v, cl) + s]| == v.bytesPerSec
    ensures var o := s * v.bytesPerSec; o + v.bytesPerSec <= |Cluster(d, v, cl)| == ClusterBytes(v)
    ensures var o := s * v.bytesPerSec; Cluster(d, v, cl)[o..o + v.bytesPerSec] == d[Lba(v, cl) + s]
  {
    hide Limit, Geometry, Sectors, Lba, ClusterBytes;
    LbaIs(v, |d|, cl);
    SectorPart(d, v, Lba(v, cl), v.secPerClus, s);
    ClusterLen(d, v, cl);
  }

  // ---------------------------------------------------------------- reading

  /** One cluster of `read_file_from_cluster`: whole sectors until `left` bytes have been taken. */
  method ReadCluster(dk: array<bytes>, v: Vol, cl: nat, before: bytes, total: nat, ghost cs: seq<nat>, ghost p: nat)
    returns (out: bytes)
    requires OnDisk(dk[..], v) && AllUsable(v, cs) && p < |cs| && cl == cs[p]
    requires total <= |ChainBytes(dk[..], v, cs)| && |before| < total
    requires before == ChainBytes(dk[..], v, cs)[..|before|] && |before| == p * ClusterBytes(v)
    ensures |out| <= total && out == ChainBytes(dk[..], v, cs)[..|out|]
    ensures |out| < total ==> |out| == (p + 1) * ClusterBytes(v)
    ensures |out| > |before|
  {
    hide ChainBytes, Limit, Geometry;
    ghost var all := ChainBytes(dk[..], v, cs);
    assert Usable(v, cs[p]);
    var lba := Lba(v, cl);
    out := before;
    var s := 0;
    MulSucc(p, ClusterBytes(v));
    while s < v.secPerClus && |out| < total
      invariant 0 <= s <= v.secPerClus && |out| <= total && out == all[..|out|]
      invariant |out| < total ==> |out| == p * ClusterBytes(v) + s * v.bytesPerSec
      invariant |before| <= |out| && (s > 0 ==> |out| > |before|)
    {
      SectorOfChain(dk[..], v, cs, p, s);
      var sec := dk[lba + s];
      var left := total - |out|;
      var take := if left < v.bytesPerSec then left else v.bytesPerSec;
      MulSucc(s, v.bytesPerSec);
      TakeMore(all, |out|, sec, take);
      SecPos(v, dk[..]);
      out := out + sec[..take];
      s := s + 1;
    }
  }

  lemma SecPos(v: Vol, d: disk)
    requires OnDisk(d, v)
    ensures v.bytesPerSec > 0 && v.secPerClus > 0
  {
  }

  lemma TakeMore(all: bytes, pos: nat, sec: bytes, take: nat)
    requires pos + |sec| <= |all| && all[pos..pos + |sec|] == sec && take <= |sec|
    ensures all[..pos] + sec[..take] == all[..pos + take]
  {
    SliceOfSlice(all, pos, |sec|, 0, take);
    Cut(all, 0, pos, pos + take);
  }

  /** `read_file_from_cluster`: the first bytes of the chain, as many as the file and the buffer hold. */
  method ReadFileFromCluster(dk: array<bytes>, v: Vol, start: nat, fileSize: nat, maxBytes: nat, ghost cs: seq<nat>)
    returns (r: int, out: bytes)
    requires start != 0 ==>
      Chain(dk[..], v, start, cs) && (fileSize <= |cs| * ClusterBytes(v) || maxBytes <= |cs| * ClusterBytes(v))
    ensures start == 0 ==> r == -1 && out == []
    ensures start != 0 ==> r == 0 && OnDisk(dk[..], v) && AllUsable(v, cs)
    ensures start != 0 ==> var n := if fileSize < maxBytes then fileSize else maxBytes;
      n <= |ChainBytes(dk[..], v, cs)| && out == ChainBytes(dk[..], v, cs)[..n]
  {
    hide ChainBytes, Limit, Entry, Geometry, Chain, OnDisk;
    if start == 0 {
      return -1, [];
    }
    ghost var d := dk[..];
    ChainUsable(d, v, start, cs);
    ChainLen(d, v, cs);
    ghost var all := ChainBytes(d, v, cs);
    var total := if fileSize < maxBytes then fileSize else maxBytes;
    out := [];
    var cl := start;
    ghost var p := 0;
    UsableEntry(d, v, start, cs, 0);
    ChainHead(d, v, start, cs);
    while !IsEnd(cl) && |out| < total
      invariant 0 <= p <= |cs| && (p < |cs| ==> cl == cs[p]) && (p == |cs| ==> IsEnd(cl))
      invariant |out| <= total && out == all[..|out|]
      invariant |out| < total ==> |out| == p * ClusterBytes(v)
      decreases |cs| - p
    {
      out := ReadCluster(dk, v, cl, out, total, cs, p);
      UsableEntry(d, v, start, cs, p);
      cl := ReadFatEntry(dk, v, cl);
      p := p + 1;
    }
    if p < |cs| {
      UsableEntry(d, v, start, cs, p);
    }
    r := 0;
  }

  lemma ChainHead(d: disk, v: Vol, start: nat, cs: seq<nat>)
    requires Chain(d, v, start, cs)
    ensures |cs| > 0 && cs[0] == start
  {
    hide Entry, Limit;
  }

  lemma ChainUsable(d: disk, v: Vol, start: nat, cs: seq<nat>)
    requires Chain(d, v, start, cs)
    ensures OnDisk(d, v) && AllUsable(v, cs) && |cs| > 0
  {
    hide Entry, Limit;
  }

  // ---------------------------------------------------------------- writing

  function MinOf(a: nat, b: nat): (m: nat) { if a < b then a else b }

  /** The `n` bytes of `data` from `pos`, filled up with zeros where the data ends. */
  function Piece(data: bytes, pos: nat, n: nat): (x: bytes)
    requires pos <= |data|
    ensures |x| == n
  {
    var m := MinOf(|data| - pos, n);
    data[pos..pos + m] + Zeros(n - m)
  }

  lemma PieceMore(data: bytes, pos: nat, n: nat, k: nat)
    requires pos <= |data|
    ensures Piece(data, pos, n) + Piece(data, MinOf(|data|, pos + n), k) == Piece(data, pos, n + k)
  {
    SameBytes(Piece(data, pos, n) + Piece(data, MinOf(|data|, pos + n), k), Piece(data, pos, n + k));
  }

  lemma PieceNone(data: bytes, pos: nat)
    requires pos <= |data|
    ensures Piece(data, pos, 0) == []
  {
  }

  /** Only the sectors of cluster `cl` differ. */
  ghost predicate OnlyCluster(d: disk, d': disk, v: Vol, cl: nat)
    requires cl >= 2
  {
    OnDisk(d', v) && |d'| == |d| && forall i | 0 <= i < |d| && !InCluster(v, cl, i) :: d'[i] == d[i]
  }

  /** One cluster of `exfat_write_chain`: the data from `start`, padded with zeros. */
  method WriteCluster(dk: array<bytes>, v: Vol, cl: nat, data: bytes, start: nat) returns (pos: nat)
    requires OnDisk(dk[..], v) && Usable(v, cl) && start <= |data|
    modifies dk
    ensures OnlyCluster(old(dk[..]), dk[..], v, cl)
    ensures Cluster(dk[..], v, cl) == Piece(data, start, ClusterBytes(v))
    ensures pos == MinOf(|data|, start + ClusterBytes(v))
  {
    hide Limit, Geometry, Piece, Lba;
    ghost var d := dk[..];
    LbaIs(v, dk.Length, cl);
    var lba := Lba(v, cl);
    pos := start;
    PieceNone(data, start);
    var s := 0;
    while s < v.secPerClus
      invariant 0 <= s <= v.secPerClus && OnlyCluster(d, dk[..], v, cl)
      invariant pos == MinOf(|data|, start + s * v.bytesPerSec)
      invariant Sectors(dk[..], lba, s) == Piece(data, start, s * v.bytesPerSec)
    {
      ghost var d1 := dk[..];
      var remaining := |data| - pos;
      var take := if remaining > v.bytesPerSec then v.bytesPerSec else remaining;
      var sec := data[pos..pos + take] + Zeros(v.bytesPerSec - take);
      SectorPiece(data, pos, v.bytesPerSec, take);
      dk[lba + s] := sec;
      SectorsSame(d1, dk[..], lba, s);
      PieceMore(data, start, s * v.bytesPerSec, v.bytesPerSec);
      MulSucc(s, v.bytesPerSec);
      pos := pos + take;
      s := s + 1;
    }
  }

  lemma SectorPiece(data: bytes, pos: nat, n: nat, take: nat)
    requires pos <= |data| && take == if |data| - pos > n then n else |data| - pos
    ensures data[pos..pos + take] + Zeros(n - take) == Piece(data, pos, n)
  {
  }

  /** Only the sectors of the clusters `cs` differ. */
  ghost predicate OnlyChain(d: disk, d': disk, v: Vol, cs: seq<nat>)
  {
    OnDisk(d', v) && |d'| == |d| && forall i | 0 <= i < |d| && !InChain(v, cs, i) :: d'[i] == d[i]
  }

  /** Clusters outside a chain are left alone by a change inside it. */
  lemma OtherCluster(d: disk, d': disk, v: Vol, cs: seq<nat>, c: nat)
    requires OnDisk(d, v) && OnlyChain(d, d', v, cs) && Usable(v, c) && c !in cs && AllUsable(v, cs)
    ensures Cluster(d', v, c) == Cluster(d, v, c)
  {
    hide Limit, Geometry, Lba;
    forall i | 0 <= i < |d| && InCluster(v, c, i) ensures d'[i] == d[i] {
      if InChain(v, cs, i) {
        var k :| 0 <= k < |cs| && cs[k] >= 2 && InCluster(v, cs[k], i);
        if c < cs[k] { LbaApart(v, c, cs[k]); } else { LbaApart(v, cs[k], c); }
      }
    }
    ClusterSame(d, d', v, c);
  }

  /** The contents of a file whose clusters a change does not touch. */
  lemma {:induction false} OtherFile(d: disk, d': disk, v: Vol, cs: seq<nat>, other: seq<nat>)
    requires OnDisk(d, v) && OnlyChain(d, d', v, cs) && AllUsable(v, cs) && AllUsable(v, other)
    requires forall c | c in other :: c !in cs
    ensures ChainBytes(d', v, other) == ChainBytes(d, v, other)
  {
    hide Cluster, Usable, Geometry;
    if other != [] {
      var n := |other| - 1;
      OtherFile(d, d', v, cs, other[..n]);
      assert other[n] in other;
      OtherCluster(d, d', v, cs, other[n]);
    }
  }

  /** The table is not touched. */
  lemma TableKept(d: disk, d': disk, v: Vol, cs: seq<nat>)
    requires OnDisk(d, v) && OnlyChain(d, d', v, cs)
    ensures forall c: nat | c < Limit(v) :: FatWord(d', v, c) == FatWord(d, v, c)
  {
    hide Limit, FatWord, Geometry;
    forall i | 0 <= i < Heap(v) && i < |d| ensures d'[i] == d[i] {
      assert !InChain(v, cs, i);
    }
    HeapOnly(d, d', v);
  }

  lemma ChainKept(d: disk, d': disk, v: Vol, cs: seq<nat>, start: nat, other: seq<nat>)
    requires OnDisk(d, v) && OnlyChain(d, d', v, cs) && Chain(d, v, start, other)
    ensures Chain(d', v, start, other)
  {
    hide Limit, FatWord, Geometry, OnlyChain;
    TableKept(d, d', v, cs);
    OnlyOnDisk(d, d', v, cs);
    ChainSame(d, d', v, start, other);
  }

  lemma OnlyOnDisk(d: disk, d': disk, v: Vol, cs: seq<nat>)
    requires OnlyChain(d, d', v, cs)
    ensures OnDisk(d', v) && |d'| == |d|
  {
  }

  /** One more cluster of the chain has been written. */
  lemma WroteMore(d: disk, d1: disk, d2: disk, v: Vol, cs: seq<nat>, p: nat, data: bytes)
    requires OnDisk(d, v) && AllUsable(v, cs) && p < |cs| && (forall i, j | 0 <= i < j < |cs| :: cs[i] != cs[j])
    requires OnlyChain(d, d1, v, cs) && OnlyCluster(d1, d2, v, cs[p])
    requires ChainBytes(d1, v, cs[..p]) == Piece(data, 0, p * ClusterBytes(v))
    requires Cluster(d2, v, cs[p]) == Piece(data, MinOf(|data|, p * ClusterBytes(v)), ClusterBytes(v))
    ensures OnlyChain(d, d2, v, cs) && AllUsable(v, cs[..p + 1])
    ensures ChainBytes(d2, v, cs[..p + 1]) == Piece(data, 0, (p + 1) * ClusterBytes(v))
  {
    hide Limit, Cluster, Geometry, Piece, Lba, ClusterBytes;
    forall i | 0 <= i < |d| && !InChain(v, cs, i) ensures d2[i] == d[i] {
      assert !InCluster(v, cs[p], i);
    }
    forall i | 0 <= i < |d1| && !InChain(v, [cs[p]], i) ensures d2[i] == d1[i] {
      assert [cs[p]][0] == cs[p];
      assert !InCluster(v, cs[p], i);
    }
    assert forall c | c in cs[..p] :: c !in [cs[p]];
    OtherFile(d1, d2, v, [cs[p]], cs[..p]);
    assert cs[..p + 1][..p] == cs[..p] && cs[..p + 1][p] == cs[p];
    PieceMore(data, 0, p * ClusterBytes(v), ClusterBytes(v));
    MulSucc(p, ClusterBytes(v));
  }

  lemma {:induction false} ChainPrefix(d: disk, v: Vol, cs: seq<nat>, p: nat)
    requires OnDisk(d, v) && AllUsable(v, cs) && p <= |cs|
    ensures ChainBytes(d, v, cs[..p]) <= ChainBytes(d, v, cs)
  {
    hide Cluster, Usable, OnDisk;
    if p == |cs| {
      assert cs[..p] == cs;
    } else {
      var n := |cs| - 1;
      ChainPrefix(d, v, cs[..n], p);
      assert cs[..n][..p] == cs[..p];
    }
  }

  /** `exfat_write_chain`: afterwards the chain starts with the data, and no sector outside it has changed. */
  method WriteChain(dk: array<bytes>, v: Vol, start: nat, data: bytes, ghost cs: seq<nat>) returns (r: int)
    requires Chain(dk[..], v, start, cs) && |data| <= |cs| * ClusterBytes(v)
    modifies dk
    ensures r == 0 && Chain(dk[..], v, start, cs) && OnlyChain(old(dk[..]), dk[..], v, cs)
    ensures OnDisk(dk[..], v) && AllUsable(v, cs) && data <= ChainBytes(dk[..], v, cs)
  {
    hide Limit, Geometry, Piece, ClusterBytes, Entry, OnlyChain, OnlyCluster, Chain, ChainBytes, Cluster, Usable,
         OnDisk;
    ghost var d := dk[..];
    ChainUsable(d, v, start, cs);
    ChainHead(d, v, start, cs);
    ChainDistinct(d, v, start, cs);
    PieceNone(data, 0);
    WroteNone(d, v, cs);
    var pos := 0;
    var cl := start;
    ghost var p := 0;
    UsableEntry(d, v, start, cs, 0);
    while !IsEnd(cl) && pos < |data|
      invariant 0 <= p <= |cs| && (p < |cs| ==> cl == cs[p]) && (p == |cs| ==> IsEnd(cl))
      invariant OnlyChain(d, dk[..], v, cs) && OnDisk(dk[..], v) && AllUsable(v, cs[..p])
      invariant pos == MinOf(|data|, p * ClusterBytes(v))
      invariant ChainBytes(dk[..], v, cs[..p]) == Piece(data, 0, p * ClusterBytes(v))
      decreases |cs| - p
    {
      ghost var d1 := dk[..];
      UsableEntry(d, v, start, cs, p);
      pos := WriteCluster(dk, v, cl, data, pos);
      WroteMore(d, d1, dk[..], v, cs, p, data);
      MulSucc(p, ClusterBytes(v));
      OnlyOnDisk(d, dk[..], v, cs);
      ChainKept(d, dk[..], v, cs, start, cs);
      UsableEntry(dk[..], v, start, cs, p);
      UsableBelow(v, cl);
      cl := ReadFatEntry(dk, v, cl);
      p := p + 1;
    }
    if p < |cs| {
      UsableEntry(d, v, start, cs, p);
    }
    ChainKept(d, dk[..], v, cs, start, cs);
    DataFirst(dk[..], v, cs, p, data);
    r := 0;
  }

  lemma UsableBelow(v: Vol, cl: nat)
    requires Usable(v, cl)
    ensures cl < Limit(v)
  {
  }

  lemma ChainDistinct(d: disk, v: Vol, start: nat, cs: seq<nat>)
    requires Chain(d, v, start, cs)
    ensures forall i, j | 0 <= i < j < |cs| :: cs[i] != cs[j]
  {
    hide Entry, Limit;
  }

  lemma WroteNone(d: disk, v: Vol, cs: seq<nat>)
    requires OnDisk(d, v)
    ensures OnlyChain(d, d, v, cs) && AllUsable(v, cs[..0]) && ChainBytes(d, v, cs[..0]) == []
  {
  }

  /** The data is a prefix of the clusters written. */
  lemma DataFirst(d: disk, v: Vol, cs: seq<nat>, p: nat, data: bytes)
    requires OnDisk(d, v) && AllUsable(v, cs) && p <= |cs| && AllUsable(v, cs[..p])
    requires ChainBytes(d, v, cs[..p]) == Piece(data, 0, p * ClusterBytes(v)) && |data| <= p * ClusterBytes(v)
    ensures data <= ChainBytes(d, v, cs)
  {
    hide Cluster, Usable, OnDisk, ChainBytes, ClusterBytes;
    ChainPrefix(d, v, cs, p);
    var x := Piece(data, 0, p * ClusterBytes(v));
    assert x[..|data|] == data;
  }
}
