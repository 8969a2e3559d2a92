/** A FAT volume as an array of sectors: geometry, little-endian words, table entries, clusters (`fs_fat32.c`).
    The disk is reliable: `rd` and `wr` are reads and assignments of array elements. */
module Volume {
  import opened Bytes

  type disk = seq<bytes>

  /** The part of `fat32_vol_t` that the cluster engine works with. */
  datatype Vol = Vol(bytesPerSec: nat, secPerClus: nat, fatLba: nat, partLba: nat, firstDataLba: nat,
                     totSec: nat, clusterCount: nat, rootClus: nat, bitmapClus: nat, bitmapSize: nat)

  const EOC: int := 0x0FFF_FFFF
  const TWO28: int := 0x1000_0000
  const MAX_SCAN: int := 0x10_0000 // 1024 * 1024

  /** `is_end_cluster`. */
  predicate IsEnd(cl: nat) { cl >= 0x0FFF_FFF8 }

  // ---------------------------------------------------------------- little-endian words

  function Le(b: bytes): (v: nat)
  {
    if b == [] then 0 else b[0] as nat + 256 * Le(b[1..])
  }

  function LeBytes(n: nat, v: nat): (b: bytes)
    ensures |b| == n
  {
    if n == 0 then [] else [(v % 256) as byte] + LeBytes(n - 1, v / 256)
  }

  lemma {:induction false} LeOfBytes(n: nat, v: nat)
    requires v < Radix(n)
    ensures Le(LeBytes(n, v)) == v
  {
    if n > 0 {
      LeOfBytes(n - 1, v / 256);
      assert LeBytes(n, v)[1..] == LeBytes(n - 1, v / 256);
    }
  }

  lemma {:induction false} LeBound(b: bytes)
    ensures Le(b) < Radix(|b|)
  {
    if b != [] { LeBound(b[1..]); }
  }

  // ---------------------------------------------------------------- geometry

  /** The number of clusters in the heap. */
  function HeapClusters(v: Vol): (n: nat)
    requires v.secPerClus > 0
  {
    if v.clusterCount != 0 then v.clusterCount
    else if v.totSec < v.firstDataLba then 0 else (v.totSec - v.firstDataLba) / v.secPerClus
  }

  /** One more than the largest cluster number; the first cluster is number 2. */
  function Limit(v: Vol): (m: nat)
    requires v.secPerClus > 0
    ensures m >= 2
  {
    HeapClusters(v) + 2
  }

  /** The sector where the cluster heap starts. */
  function Heap(v: Vol): (lba: nat) { v.partLba + v.firstDataLba }

  function ClusterBytes(v: Vol): (n: nat) { v.secPerClus * v.bytesPerSec }

  /** The sectors that the table takes. */
  function FatSectors(v: Vol): (n: nat)
    requires v.bytesPerSec > 0 && v.secPerClus > 0
  {
    (4 * Limit(v) + v.bytesPerSec - 1) / v.bytesPerSec
  }

  /** The file allocation table, the heap and the disk do not overlap or overflow. */
  predicate Geometry(v: Vol, sectors: nat)
  {
    && v.bytesPerSec in {512, 1024, 2048, 4096} && 1 <= v.secPerClus <= 128
    && v.fatLba + FatSectors(v) <= Heap(v)
    && Heap(v) + HeapClusters(v) * v.secPerClus <= sectors < TWO32 && Limit(v) <= 0x0FFF_FFF0
  }

  ghost predicate OnDisk(d: disk, v: Vol)
  {
    Geometry(v, |d|) && forall i | 0 <= i < |d| :: |d[i]| == v.bytesPerSec
  }

  /** The number of a cluster of the heap. */
  predicate Usable(v: Vol, cl: nat)
  {
    v.secPerClus > 0 && 2 <= cl < Limit(v)
  }

  /** `clus_to_lba`. */
  function Lba(v: Vol, cl: nat): (lba: nat)
    requires cl >= 2
  {
    Heap(v) + (cl - 2) * v.secPerClus
  }

  lemma LbaIs(v: Vol, sectors: nat, cl: nat)
    requires Geometry(v, sectors) && Usable(v, cl)
    ensures Heap(v) <= Lba(v, cl) && Lba(v, cl) + v.secPerClus <= sectors
  {
    hide HeapClusters, FatSectors;
    InRoom(cl - 2, HeapClusters(v), v.secPerClus);
  }

  lemma InRoom(a: nat, m: nat, k: nat)
    requires a < m
    ensures a * k + k <= m * k
  {
    MulMono(a + 1, m, k);
    MulSucc(a, k);
  }

  lemma MulMono(a: nat, b: nat, k: nat)
    requires a <= b
    ensures a * k <= b * k
  {
  }

  lemma MulSucc(a: nat, k: nat)
    ensures (a + 1) * k == a * k + k
  {
  }

  /** Two clusters share no sector. */
  lemma LbaApart(v: Vol, a: nat, b: nat)
    requires 2 <= a < b
    ensures Lba(v, a) + v.secPerClus <= Lba(v, b)
  {
    MulSucc(a - 2, v.secPerClus);
    MulMono(a - 1, b - 2, v.secPerClus);
  }

  // ---------------------------------------------------------------- table entries

  function FatSec(v: Vol, cl: nat): (lba: nat)
    requires v.bytesPerSec > 0
  {
    v.fatLba + 4 * cl / v.bytesPerSec
  }

  function FatOff(v: Vol, cl: nat): (off: nat)
    requires v.bytesPerSec > 0
  {
    4 * cl % v.bytesPerSec
  }

  lemma FatPlace(v: Vol, sectors: nat, cl: nat)
    requires Geometry(v, sectors) && cl < Limit(v)
    ensures FatSec(v, cl) < Heap(v) <= sectors && FatOff(v, cl) + 4 <= v.bytesPerSec && FatOff(v, cl) % 4 == 0
  {
    hide Limit;
    var q := v.bytesPerSec / 4;
    assert v.bytesPerSec == 4 * q;
    WordPlace(cl, Limit(v), q);
  }

  lemma DivIs(x: nat, k: nat, a: nat, r: nat)
    requires k > 0 && x == a * k + r && r < k
    ensures x / k == a && x % k == r
  {
    var q, s := x / k, x % k;
    assert (q - a) * k == r - s;
    if q > a {
      MulMono(1, q - a, k);
    } else if q < a {
      MulMono(1, a - q, k);
    }
  }

  lemma DivAtLeast(x: nat, k: nat, a: nat)
    requires k > 0 && a * k <= x
    ensures x / k >= a
  {
    if x / k < a {
      MulMono(x / k + 1, a, k);
      MulSucc(x / k, k);
    }
  }

  lemma FourTimes(cl: nat, q: nat)
    requires q > 0
    ensures 4 * cl / (4 * q) == cl / q && 4 * cl % (4 * q) == 4 * (cl % q)
  {
    var a, r := cl / q, cl % q;
    assert cl == a * q + r;
    assert 4 * cl == a * (4 * q) + 4 * r;
    DivIs(4 * cl, 4 * q, a, 4 * r);
  }

  lemma WordPlace(cl: nat, m: nat, q: nat)
    requires q > 0 && cl < m
    ensures 4 * cl / (4 * q) < (4 * m + 4 * q - 1) / (4 * q) && 4 * cl % (4 * q) + 4 <= 4 * q
    ensures 4 * cl % (4 * q) % 4 == 0
  {
    FourTimes(cl, q);
    FourRest(cl % q, q);
    WordRoom(4 * cl, 4 * m, 4 * q, 4 * cl / (4 * q));
  }

  lemma FourRest(r: nat, q: nat)
    requires r < q
    ensures 4 * r + 4 <= 4 * q && 4 * r % 4 == 0
  {
  }

  lemma WordRoom(x: nat, y: nat, bps: nat, a: nat)
    requires bps > 0 && x + 4 <= y && a == x / bps
    ensures a < (y + bps - 1) / bps
  {
    assert a * bps <= x;
    MulSucc(a, bps);
    DivAtLeast(y + bps - 1, bps, a + 1);
  }

  lemma FatApart(v: Vol, sectors: nat, a: nat, b: nat)
    requires Geometry(v, sectors) && a != b && a < Limit(v) && b < Limit(v) && FatSec(v, a) == FatSec(v, b)
    ensures FatOff(v, a) + 4 <= FatOff(v, b) || FatOff(v, b) + 4 <= FatOff(v, a)
  {
    hide Limit, FatSectors;
    var x, y := FatOff(v, a), FatOff(v, b);
    FatPlace(v, sectors, a);
    FatPlace(v, sectors, b);
    WordsApart(a, b, v.bytesPerSec);
    QuadsApart(x, y);
  }

  lemma QuadsApart(x: nat, y: nat)
    requires x % 4 == 0 && y % 4 == 0 && x != y
    ensures x + 4 <= y || y + 4 <= x
  {
  }

  lemma WordsApart(a: nat, b: nat, bps: nat)
    requires bps > 0 && a != b && 4 * a / bps == 4 * b / bps
    ensures 4 * a % bps != 4 * b % bps
  {
    assert 4 * a == 4 * a / bps * bps + 4 * a % bps;
    assert 4 * b == 4 * b / bps * bps + 4 * b % bps;
  }

  /** The whole 32-bit word of cluster `cl`. */
  function FatWord(d: disk, v: Vol, cl: nat): (w: nat)
    requires OnDisk(d, v) && cl < Limit(v)
    ensures w < TWO32
  {
    FatPlace(v, |d|, cl);
    var b := d[FatSec(v, cl)][FatOff(v, cl)..FatOff(v, cl) + 4];
    LeBound(b);
    Radix4();
    Le(b)
  }

  /** `fat_read_fat_entry`: the low 28 bits. */
  function Entry(d: disk, v: Vol, cl: nat): (e: nat)
    requires OnDisk(d, v) && cl < Limit(v)
    ensures e < TWO28
  {
    FatWord(d, v, cl) % TWO28
  }

  method ReadFatEntry(dk: array<bytes>, v: Vol, cl: nat) returns (e: nat)
    requires OnDisk(dk[..], v) && cl < Limit(v)
    ensures e == Entry(dk[..], v, cl)
  {
    FatPlace(v, dk.Length, cl);
    var sec := dk[v.fatLba + 4 * cl / v.bytesPerSec];
    var off := 4 * cl % v.bytesPerSec;
    e := Le(sec[off..off + 4]) % TWO28;
  }

  /** The word that `fat_write_fat_entry` stores: the top four bits survive. */
  function NewWord(word: nat, val: nat): (w: nat)
    requires word < TWO32
    ensures w < TWO32 && w % TWO28 == val % TWO28 && w / TWO28 == word / TWO28
  {
    val % TWO28 + word / TWO28 * TWO28
  }

  /** The disk after `fat_write_fat_entry`. */
  ghost predicate FatWritten(d: disk, d': disk, v: Vol, cl: nat, val: nat)
    requires OnDisk(d, v) && cl < Limit(v)
  {
    && OnDisk(d', v) && |d'| == |d|
    && (forall c: nat | c < Limit(v) ::
         FatWord(d', v, c) == if c == cl then NewWord(FatWord(d, v, cl), val) else FatWord(d, v, c))
    && (forall i | Heap(v) <= i < |d| :: d'[i] == d[i])
  }

  /** `fat_write_fat_entry`. */
  method WriteFatEntry(dk: array<bytes>, v: Vol, cl: nat, val: nat)
    requires OnDisk(dk[..], v) && cl < Limit(v) && val < TWO32
    modifies dk
    ensures FatWritten(old(dk[..]), dk[..], v, cl, val)
  {
    hide Le, LeBytes;
    ghost var d := dk[..];
    FatPlace(v, dk.Length, cl);
    var lba := v.fatLba + 4 * cl / v.bytesPerSec;
    var off := 4 * cl % v.bytesPerSec;
    var sec := dk[lba];
    var word := Le(sec[off..off + 4]);
    LeBound(sec[off..off + 4]);
    Radix4();
    dk[lba] := Put(sec, off, LeBytes(4, NewWord(word, val)));
    WrittenIs(d, dk[..], v, cl, val);
  }

  /** An entry that has been written reads back as its low 28 bits, and every other entry as before. */
  lemma ReadsBack(d: disk, d': disk, v: Vol, cl: nat, val: nat, c: nat)
    requires OnDisk(d, v) && cl < Limit(v) && c < Limit(v) && FatWritten(d, d', v, cl, val)
    ensures Entry(d', v, c) == if c == cl then val % TWO28 else Entry(d, v, c)
    ensures FatWord(d', v, c) / TWO28 == FatWord(d, v, c) / TWO28
  {
    hide Limit, FatWord;
  }

  lemma WrittenIs(d: disk, d': disk, v: Vol, cl: nat, val: nat)
    requires OnDisk(d, v) && cl < Limit(v) && |d'| == |d| && FatSec(v, cl) < |d|
    requires FatOff(v, cl) + 4 <= |d[FatSec(v, cl)]|
    requires d' == d[FatSec(v, cl) := Put(d[FatSec(v, cl)], FatOff(v, cl), LeBytes(4, NewWord(FatWord(d, v, cl), val)))]
    ensures FatWritten(d, d', v, cl, val)
  {
    hide Le, LeBytes, Put, NewWord, FatSec, FatOff;
    FatPlace(v, |d|, cl);
    var x := LeBytes(4, NewWord(FatWord(d, v, cl), val));
    forall c: nat | c < Limit(v)
      ensures FatWord(d', v, c) == if c == cl then NewWord(FatWord(d, v, cl), val) else FatWord(d, v, c)
    {
      FatPlace(v, |d|, c);
      if c == cl {
        PutInside(d[FatSec(v, cl)], FatOff(v, cl), x);
        Radix4();
        LeOfBytes(4, NewWord(FatWord(d, v, cl), val));
      } else if FatSec(v, c) == FatSec(v, cl) {
        FatApart(v, |d|, c, cl);
        PutOutside(d[FatSec(v, cl)], FatOff(v, cl), x, FatOff(v, c), FatOff(v, c) + 4);
      }
    }
  }

  // ---------------------------------------------------------------- clusters

  /** The bytes of cluster `cl`. */
  function Sectors(d: disk, lba: nat, n: nat): (b: bytes)
    requires lba + n <= |d|
  {
    if n == 0 then [] else Sectors(d, lba, n - 1) + d[lba + n - 1]
  }

  function Cluster(d: disk, v: Vol, cl: nat): (b: bytes)
    requires OnDisk(d, v) && Usable(v, cl)
  {
    LbaIs(v, |d|, cl);
    Sectors(d, Lba(v, cl), v.secPerClus)
  }

  lemma {:induction false} SectorsLen(d: disk, v: Vol, lba: nat, n: nat)
    requires OnDisk(d, v) && lba + n <= |d|
    ensures |Sectors(d, lba, n)| == n * v.bytesPerSec
  {
    if n > 0 {
      SectorsLen(d, v, lba, n - 1);
      MulSucc(n - 1, v.bytesPerSec);
    }
  }

  lemma {:induction false} SectorsSame(d: disk, d': disk, lba: nat, n: nat)
    requires lba + n <= |d| && lba + n <= |d'| && forall i | lba <= i < lba + n :: d'[i] == d[i]
    ensures Sectors(d', lba, n) == Sectors(d, lba, n)
  {
    if n > 0 { SectorsSame(d, d', lba, n - 1); }
  }

  lemma ClusterLen(d: disk, v: Vol, cl: nat)
    requires OnDisk(d, v) && Usable(v, cl)
    ensures |Cluster(d, v, cl)| == ClusterBytes(v)
  {
    LbaIs(v, |d|, cl);
    SectorsLen(d, v, Lba(v, cl), v.secPerClus);
  }

  /** Whether sector `i` belongs to cluster `cl`. */
  predicate InCluster(v: Vol, cl: nat, i: int)
    requires cl >= 2
  {
    Lba(v, cl) <= i < Lba(v, cl) + v.secPerClus
  }

  /** A change outside the sectors of a cluster leaves it alone. */
  lemma ClusterSame(d: disk, d': disk, v: Vol, cl: nat)
    requires OnDisk(d, v) && OnDisk(d', v) && |d'| == |d| && Usable(v, cl)
    requires forall i | 0 <= i < |d| && InCluster(v, cl, i) :: d'[i] == d[i]
    ensures Cluster(d', v, cl) == Cluster(d, v, cl)
  {
    LbaIs(v, |d|, cl);
    SectorsSame(d, d', Lba(v, cl), v.secPerClus);
  }
}
