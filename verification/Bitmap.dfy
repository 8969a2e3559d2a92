/** The exFAT allocation bitmap: one bit a cluster, in a file of its own that is a chain of clusters. */
module Bitmap {
  import opened Bytes
  import opened Volume

  // ---------------------------------------------------------------- bits of a byte

  function BitAt(x: nat, k: nat): (on: bool)
  {
    if k == 0 then x % 2 == 1 else BitAt(x / 2, k - 1)
  }

  /** `x |= 1 << k` and `x &= ~(1 << k)`. */
  function SetBit(x: nat, k: nat, on: bool): (y: nat)
  {
    if k == 0 then x - x % 2 + (if on then 1 else 0) else 2 * SetBit(x / 2, k - 1, on) + x % 2
  }

  lemma {:induction false} SetBitAt(x: nat, k: nat, on: bool, j: nat)
    ensures BitAt(SetBit(x, k, on), j) == if j == k then on else BitAt(x, j)
  {
    if k > 0 && j > 0 {
      SetBitAt(x / 2, k - 1, on, j - 1);
      assert SetBit(x, k, on) / 2 == SetBit(x / 2, k - 1, on);
    } else if k == 0 && j > 0 {
      assert SetBit(x, 0, on) / 2 == x / 2;
    }
  }

  /** A byte stays a byte. */
  lemma {:induction false} SetBitRange(x: nat, k: nat, on: bool, n: nat)
    requires x < Power(n) && k < n
    ensures SetBit(x, k, on) < Power(n)
  {
    if k > 0 { SetBitRange(x / 2, k - 1, on, n - 1); }
  }

  function Power(n: nat): (p: nat)
    ensures p >= 1 && (n > 0 ==> p % 2 == 0)
  {
    if n == 0 then 1 else 2 * Power(n - 1)
  }

  lemma Power8()
    ensures Power(8) == 256
  {
    assert Power(4) == 16;
  }

  // ---------------------------------------------------------------- chains

  /** The clusters `cs`, one linked to the next in the table, from `start` to an end mark. */
  ghost predicate Chain(d: disk, v: Vol, start: nat, cs: seq<nat>)
  {
    && OnDisk(d, v) && |cs| > 0 && cs[0] == start
    && (forall i | 0 <= i < |cs| :: Usable(v, cs[i]))
    && (forall i, j | 0 <= i < j < |cs| :: cs[i] != cs[j])
    && (forall i | 0 <= i < |cs| - 1 :: Entry(d, v, cs[i]) == cs[i + 1])
    && IsEnd(Entry(d, v, cs[|cs| - 1]))
  }

  /** The bitmap is the chain `bm`, large enough for every cluster the scans look at. */
  ghost predicate Mounted(d: disk, v: Vol, bm: seq<nat>)
  {
    && Chain(d, v, v.bitmapClus, bm)
    && v.clusterCount > 0 && Limit(v) <= 2 + 8 * v.bitmapSize && v.bitmapSize <= |bm| * ClusterBytes(v)
  }

  /** `exfat_walk_chain` along a chain. */
  method WalkChain(dk: array<bytes>, v: Vol, start: nat, step: nat, ghost cs: seq<nat>) returns (cl: nat)
    requires Chain(dk[..], v, start, cs) && step < |cs|
    ensures cl == cs[step]
  {
    hide Entry, Limit, OnDisk;
    cl := start;
    UsableEntry(dk[..], v, start, cs, 0);
    var i := 0;
    while i < step && !IsEnd(cl)
      invariant 0 <= i <= step && cl == cs[i] && Usable(v, cl)
    {
      UsableEntry(dk[..], v, start, cs, i);
      cl := ReadFatEntry(dk, v, cl);
      i := i + 1;
    }
    UsableEntry(dk[..], v, start, cs, i);
  }

  lemma UsableEntry(d: disk, v: Vol, start: nat, cs: seq<nat>, i: nat)
    requires Chain(d, v, start, cs) && i < |cs|
    ensures OnDisk(d, v) && Usable(v, cs[i]) && !IsEnd(cs[i]) && cs[i] >= 2
    ensures i + 1 < |cs| ==> Entry(d, v, cs[i]) == cs[i + 1]
    ensures i + 1 == |cs| ==> IsEnd(Entry(d, v, cs[i]))
  {
    hide Entry;
  }

  // ---------------------------------------------------------------- where a bit is

  function BitByte(cl: nat): (n: nat)
    requires cl >= 2
  {
    (cl - 2) / 8
  }

  /** A position in the bitmap file: the index of the cluster, of the sector in it, of the byte in that. */
  function BitClus(v: Vol, cl: nat): (n: nat)
    requires cl >= 2 && ClusterBytes(v) > 0
  {
    BitByte(cl) / ClusterBytes(v)
  }

  function BitSec(v: Vol, bm: seq<nat>, cl: nat): (lba: nat)
    requires cl >= 2 && ClusterBytes(v) > 0 && v.bytesPerSec > 0 && BitClus(v, cl) < |bm| && bm[BitClus(v, cl)] >= 2
  {
    Lba(v, bm[BitClus(v, cl)]) + BitByte(cl) % ClusterBytes(v) / v.bytesPerSec
  }

  function BitOff(v: Vol, cl: nat): (off: nat)
    requires cl >= 2 && ClusterBytes(v) > 0 && v.bytesPerSec > 0
  {
    BitByte(cl) % ClusterBytes(v) % v.bytesPerSec
  }

  lemma ClusterBytesPos(v: Vol, sectors: nat)
    requires Geometry(v, sectors)
    ensures ClusterBytes(v) > 0 && v.bytesPerSec > 0
  {
    MulMono(1, v.secPerClus, v.bytesPerSec);
  }

  /** A byte of a cluster lies in one of its sectors. */
  lemma InSector(n: nat, spc: nat, bps: nat)
    requires bps > 0 && n < spc * bps
    ensures n / bps < spc && n % bps < bps
  {
    if n / bps >= spc {
      MulMono(spc, n / bps, bps);
    }
  }

  lemma DivBelow(n: nat, k: nat, c: nat)
    requires c > 0 && n < k * c
    ensures n / c < k
  {
    if n / c >= k {
      MulMono(k, n / c, c);
    }
  }

  lemma BitPlace(d: disk, v: Vol, bm: seq<nat>, cl: nat)
    requires Mounted(d, v, bm) && Usable(v, cl)
    ensures ClusterBytes(v) > 0 && v.bytesPerSec > 0 && BitClus(v, cl) < |bm| && Usable(v, bm[BitClus(v, cl)])
    ensures BitSec(v, bm, cl) < |d| && BitOff(v, cl) < |d[BitSec(v, bm, cl)]| && Heap(v) <= BitSec(v, bm, cl)
    ensures InCluster(v, bm[BitClus(v, cl)], BitSec(v, bm, cl)) && BitByte(cl) < v.bitmapSize
  {
    hide Limit, Entry;
    ClusterBytesPos(v, |d|);
    DivBelow(BitByte(cl), |bm|, ClusterBytes(v));
    var c := bm[BitClus(v, cl)];
    LbaIs(v, |d|, c);
    InSector(BitByte(cl) % ClusterBytes(v), v.secPerClus, v.bytesPerSec);
  }

  /** Two clusters share a byte of the bitmap only if their numbers fall into the same byte. */
  lemma BitApart(d: disk, v: Vol, bm: seq<nat>, a: nat, b: nat)
    requires Mounted(d, v, bm) && Usable(v, a) && Usable(v, b)
    requires BitByte(a) != BitByte(b)
    ensures ClusterBytes(v) > 0 && v.bytesPerSec > 0 && BitClus(v, a) < |bm| && BitClus(v, b) < |bm|
    ensures bm[BitClus(v, a)] >= 2 && bm[BitClus(v, b)] >= 2
    ensures BitSec(v, bm, a) != BitSec(v, bm, b) || BitOff(v, a) != BitOff(v, b)
  {
    hide Limit, Entry;
    BitPlace(d, v, bm, a);
    BitPlace(d, v, bm, b);
    var ca, cb := bm[BitClus(v, a)], bm[BitClus(v, b)];
    if BitClus(v, a) == BitClus(v, b) {
      var x, y := BitByte(a) % ClusterBytes(v), BitByte(b) % ClusterBytes(v);
      SameQuotient(BitByte(a), BitByte(b), ClusterBytes(v));
      if x / v.bytesPerSec == y / v.bytesPerSec {
        SameQuotient(x, y, v.bytesPerSec);
      }
    } else if ca < cb {
      LbaApart(v, ca, cb);
    } else {
      LbaApart(v, cb, ca);
    }
  }

  lemma SameQuotient(x: nat, y: nat, k: nat)
    requires k > 0 && x != y && x / k == y / k
    ensures x % k != y % k
  {
    assert x == x / k * k + x % k && y == y / k * k + y % k;
  }

  // ---------------------------------------------------------------- the bits

  /** Whether the bitmap says that cluster `cl` is in use. */
  function Bit(d: disk, v: Vol, bm: seq<nat>, cl: nat): (on: bool)
    requires cl >= 2 && ClusterBytes(v) > 0 && v.bytesPerSec > 0 && BitClus(v, cl) < |bm| && bm[BitClus(v, cl)] >= 2
    requires BitSec(v, bm, cl) < |d| && BitOff(v, cl) < |d[BitSec(v, bm, cl)]|
  {
    BitAt(d[BitSec(v, bm, cl)][BitOff(v, cl)] as nat, (cl - 2) % 8)
  }

  /** Sector `i` belongs to one of the clusters `bm`. */
  ghost predicate InChain(v: Vol, bm: seq<nat>, i: int)
  {
    exists k :: 0 <= k < |bm| && bm[k] >= 2 && InCluster(v, bm[k], i)
  }

  ghost function BitOf(d: disk, v: Vol, bm: seq<nat>, cl: nat): (on: bool)
    requires Mounted(d, v, bm) && Usable(v, cl)
  {
    BitPlace(d, v, bm, cl);
    Bit(d, v, bm, cl)
  }

  /** The disk after bit `cl` has been set or cleared. */
  ghost predicate BitMarked(d: disk, d': disk, v: Vol, bm: seq<nat>, cl: nat, used: bool)
    requires Mounted(d, v, bm) && Usable(v, cl)
  {
    && |d'| == |d| && Mounted(d', v, bm)
    && (forall c: nat | c < Limit(v) :: FatWord(d', v, c) == FatWord(d, v, c))
    && (forall c: nat | Usable(v, c) :: BitOf(d', v, bm, c) == if c == cl then used else BitOf(d, v, bm, c))
    && (forall i | 0 <= i < |d| && !InChain(v, bm, i) :: d'[i] == d[i])
  }

  /** A change of the heap leaves the table alone. */
  lemma HeapOnly(d: disk, d': disk, v: Vol)
    requires OnDisk(d, v) && OnDisk(d', v) && |d'| == |d| && forall i | 0 <= i < Heap(v) && i < |d| :: d'[i] == d[i]
    ensures forall c: nat | c < Limit(v) :: FatWord(d', v, c) == FatWord(d, v, c)
  {
    hide Limit, FatSec, FatOff, Le;
    forall c: nat | c < Limit(v) ensures FatWord(d', v, c) == FatWord(d, v, c) {
      FatPlace(v, |d|, c);
    }
  }

  lemma ChainSame(d: disk, d': disk, v: Vol, start: nat, cs: seq<nat>)
    requires Chain(d, v, start, cs) && OnDisk(d', v)
    requires forall i | 0 <= i < |cs| :: Usable(v, cs[i]) ==> Entry(d', v, cs[i]) == Entry(d, v, cs[i])
    ensures Chain(d', v, start, cs)
  {
    hide Entry, Limit;
  }

  /** The volume has a bitmap with a bit for cluster `cl`. */
  predicate HasBit(v: Vol, cl: nat)
    requires cl >= 2
  {
    v.bitmapClus != 0 && v.bitmapSize != 0 && BitByte(cl) < v.bitmapSize
  }

  lemma MountedBit(d: disk, v: Vol, bm: seq<nat>, cl: nat)
    requires Mounted(d, v, bm) && Usable(v, cl)
    ensures HasBit(v, cl)
  {
    hide Limit, Entry;
    BitPlace(d, v, bm, cl);
    UsableEntry(d, v, v.bitmapClus, bm, 0);
  }

  /** `exfat_mark_bitmap`: that bit changes and nothing else; a volume without a bitmap is left alone, and one whose
      bitmap is too small for the cluster is an error. */
  method MarkBitmap(dk: array<bytes>, v: Vol, cl: nat, used: bool, ghost bm: seq<nat>) returns (r: int)
    requires OnDisk(dk[..], v) && Usable(v, cl) && (HasBit(v, cl) ==> Mounted(dk[..], v, bm))
    modifies dk
    ensures r == if HasBit(v, cl) || v.bitmapClus == 0 || v.bitmapSize == 0 then 0 else -1
    ensures !HasBit(v, cl) ==> dk[..] == old(dk[..])
    ensures HasBit(v, cl) ==> BitMarked(old(dk[..]), dk[..], v, bm, cl, used)
  {
    hide Limit, Entry, OnDisk, BitMarked, SetBit, Geometry;
    ghost var d := dk[..];
    var bit := cl - 2;
    var byteOff := bit / 8;
    if v.bitmapClus == 0 || v.bitmapSize == 0 {
      return 0; // no bitmap to keep
    }
    if byteOff >= v.bitmapSize {
      return -1;
    }
    BitPlace(d, v, bm, cl);
    var bytesPerClus := v.secPerClus * v.bytesPerSec;
    var targetClus := WalkChain(dk, v, v.bitmapClus, byteOff / bytesPerClus, bm);
    var offsetInClus := byteOff % bytesPerClus;
    var lba := Lba(v, targetClus) + offsetInClus / v.bytesPerSec;
    var offInSec := offsetInClus % v.bytesPerSec;
    var sec := dk[lba];
    ByteRange(sec[offInSec], bit % 8, used);
    dk[lba] := sec[offInSec := SetBit(sec[offInSec] as nat, bit % 8, used) as byte];
    MarkedIs(d, dk[..], v, bm, cl, used);
    return 0;
  }

  lemma ByteRange(x: byte, k: nat, on: bool)
    requires k < 8
    ensures SetBit(x as nat, k, on) < 256
  {
    Power8();
    SetBitRange(x as nat, k, on, 8);
  }

  lemma MarkedIs(d: disk, d': disk, v: Vol, bm: seq<nat>, cl: nat, used: bool)
    requires Mounted(d, v, bm) && Usable(v, cl)
    requires ClusterBytes(v) > 0 && v.bytesPerSec > 0 && BitClus(v, cl) < |bm| && bm[BitClus(v, cl)] >= 2
    requires BitSec(v, bm, cl) < |d| && BitOff(v, cl) < |d[BitSec(v, bm, cl)]|
    requires var lba, off := BitSec(v, bm, cl), BitOff(v, cl); var x := d[lba][off] as nat;
      SetBit(x, (cl - 2) % 8, used) < 256 && d' == d[lba := d[lba][off := SetBit(x, (cl - 2) % 8, used) as byte]]
    ensures BitMarked(d, d', v, bm, cl, used)
  {
    hide Limit, Entry, SetBit, BitSec, BitOff, BitClus, Geometry, BitAt, FatWord;
    BitPlace(d, v, bm, cl);
    var lba := BitSec(v, bm, cl);
    HeapOnly(d, d', v);
    SameEntries(d, d', v, bm);
    ChainSame(d, d', v, v.bitmapClus, bm);
    forall c: nat | Usable(v, c) ensures BitOf(d', v, bm, c) == if c == cl then used else BitOf(d, v, bm, c) {
      BitPlace(d, v, bm, c);
      if BitByte(c) == BitByte(cl) {
        SameByte(v, bm, c, cl);
        SetBitAt(d[lba][BitOff(v, cl)] as nat, (cl - 2) % 8, used, (c - 2) % 8);
      } else {
        BitApart(d, v, bm, c, cl);
      }
    }
    assert InChain(v, bm, lba);
  }

  lemma SameEntries(d: disk, d': disk, v: Vol, bm: seq<nat>)
    requires OnDisk(d, v) && OnDisk(d', v)
    requires forall c: nat | c < Limit(v) :: FatWord(d', v, c) == FatWord(d, v, c)
    ensures forall i | 0 <= i < |bm| :: Usable(v, bm[i]) ==> Entry(d', v, bm[i]) == Entry(d, v, bm[i])
  {
  }

  lemma SameByte(v: Vol, bm: seq<nat>, a: nat, b: nat)
    requires a >= 2 && b >= 2 && BitByte(a) == BitByte(b) && ClusterBytes(v) > 0 && v.bytesPerSec > 0
    requires BitClus(v, b) < |bm| && bm[BitClus(v, b)] >= 2
    ensures BitClus(v, a) == BitClus(v, b) && BitSec(v, bm, a) == BitSec(v, bm, b) && BitOff(v, a) == BitOff(v, b)
    ensures a == b <==> (a - 2) % 8 == (b - 2) % 8
  {
  }
}
