/** Entry sets on disk: writing one into a directory cluster, across sector boundaries, and collecting it again. */
module DirSets {
  import opened Bytes
  import opened Volume
  import opened Bitmap
  import opened FileData
  import opened EntrySets

  // ---------------------------------------------------------------- one entry

  /** An aligned entry lies inside one sector. */
  lemma EntryPlace(off: nat, spc: nat, bps: nat)
    requires bps in {512, 1024, 2048, 4096} && off % 32 == 0 && off + 32 <= spc * bps
    ensures off / bps < spc && off % bps + 32 <= bps && off / bps * bps + off % bps == off
  {
    var q, m := bps / 32, off / 32;
    assert bps == 32 * q && off == 32 * m;
    Aligned32(m, q);
    InSector(off, spc, bps);
  }

  lemma SectorEntry(d: disk, v: Vol, off: nat)
    requires OnDisk(d, v) && off % 32 == 0 && off + 32 <= ClusterBytes(v)
    ensures v.bytesPerSec > 0
    ensures off / v.bytesPerSec < v.secPerClus && off % v.bytesPerSec + 32 <= v.bytesPerSec
    ensures off / v.bytesPerSec * v.bytesPerSec + off % v.bytesPerSec == off
  {
    hide Limit, FatSectors;
    EntryPlace(off, v.secPerClus, v.bytesPerSec);
  }

  lemma Aligned32(m: nat, q: nat)
    requires q > 0
    ensures 32 * m % (32 * q) + 32 <= 32 * q
  {
    var a, r := m / q, m % q;
    assert m == a * q + r;
    assert 32 * m == a * (32 * q) + 32 * r;
    DivIs(32 * m, 32 * q, a, 32 * r);
  }

  /** Overwriting part of one sector overwrites that part of the run of sectors. */
  lemma {:induction false} SectorsPut(d: disk, d': disk, v: Vol, lba: nat, n: nat, s: nat, o: nat, x: bytes)
    requires OnDisk(d, v) && lba + n <= |d| && s < n && o + |x| <= v.bytesPerSec
    requires lba + s < |d| && o + |x| <= |d[lba + s]| && d' == d[lba + s := Put(d[lba + s], o, x)]
    ensures s * v.bytesPerSec + o + |x| <= |Sectors(d, lba, n)|
    ensures Sectors(d', lba, n) == Put(Sectors(d, lba, n), s * v.bytesPerSec + o, x)
  {
    hide Geometry, Put;
    SectorsLen(d, v, lba, n - 1);
    SectorsLen(d, v, lba, n);
    var y, z := Sectors(d, lba, n - 1), d[lba + n - 1];
    if s == n - 1 {
      SectorsSame(d, d', lba, n - 1);
      PutBehind(y, z, o, x);
    } else {
      SectorsPut(d, d', v, lba, n - 1, s, o, x);
      PutBefore(y, z, s * v.bytesPerSec + o, x);
    }
  }

  /** Only the `n` sectors from `lba` on differ. */
  ghost predicate OnlyRun(d: disk, d': disk, v: Vol, lba: nat, n: nat)
  {
    OnDisk(d', v) && |d'| == |d| && forall i | 0 <= i < |d| && !(lba <= i < lba + n) :: d'[i] == d[i]
  }

  /** `exfat_write_entry`, for an entry in the `n` sectors from the start of the cluster. */
  method WriteEntry(dk: array<bytes>, v: Vol, dirCl: nat, byteOff: nat, x: bytes, ghost n: nat) returns (r: int)
    requires OnDisk(dk[..], v) && Usable(v, dirCl) && |x| == 32 && byteOff % 32 == 0
    requires byteOff + 32 <= n * v.bytesPerSec && Lba(v, dirCl) + n <= dk.Length
    modifies dk
    ensures r == 0 && OnlyRun(old(dk[..]), dk[..], v, Lba(v, dirCl), n)
    ensures byteOff + 32 <= |Sectors(old(dk[..]), Lba(v, dirCl), n)|
    ensures Sectors(dk[..], Lba(v, dirCl), n) == Put(Sectors(old(dk[..]), Lba(v, dirCl), n), byteOff, x)
  {
    hide Limit, Put, Lba, FatSectors;
    ghost var d := dk[..];
    EntryPlace(byteOff, n, v.bytesPerSec);
    var lba := Lba(v, dirCl) + byteOff / v.bytesPerSec;
    var off := byteOff % v.bytesPerSec;
    var sec := dk[lba];
    dk[lba] := Put(sec, off, x);
    SectorsPut(d, dk[..], v, Lba(v, dirCl), n, byteOff / v.bytesPerSec, off, x);
    SectorsLen(d, v, Lba(v, dirCl), n);
    r := 0;
  }

  // ---------------------------------------------------------------- a set

  /** `exfat_checksum_entries`, as the code computes it. */
  function Checksum(es: bytes, n: nat): (sum: nat)
    requires n <= |es|
    ensures sum < 0x10000
  {
    if n == 0 then 0 else
    var s := Checksum(es, n - 1);
    var b := if n == 1 then 0 else es[n - 1] as nat;
    (s / 2 + s % 2 * 0x8000 + b) % 0x10000
  }

  method ChecksumEntries(es: bytes, total: nat) returns (sum: nat)
    requires |es| >= 32 * total
    ensures sum == Checksum(es, 32 * total)
  {
    sum := 0;
    var i := 0;
    while i < 32 * total
      invariant 0 <= i <= 32 * total && sum == Checksum(es, i)
    {
      var b := es[i] as nat;
      if i == 0 {
        b := 0;
      }
      sum := (sum / 2 + sum % 2 * 0x8000 + b) % 0x10000;
      i := i + 1;
    }
  }

  /** A set with its checksum. */
  function Summed(es: bytes): (s: bytes)
    requires |es| >= 32
    ensures |s| == |es|
  {
    Put(es, 2, LeBytes(2, Checksum(es, |es|)))
  }

  /** In the `n` sectors from `lba` the set with its checksum has been written at `off`, and nothing else. */
  ghost predicate RunPut(d: disk, d': disk, v: Vol, lba: nat, n: nat, off: nat, es: bytes)
  {
    && lba + n <= |d| && OnlyRun(d, d', v, lba, n) && |es| >= 32 && off + |es| <= |Sectors(d, lba, n)|
    && Sectors(d', lba, n) == Put(Sectors(d, lba, n), off, Summed(es))
  }

  /** The sectors, from the start of a cluster, that a write up to `end` needs: those of the cluster, or more. */
  function Reach(v: Vol, end: nat): (n: nat)
    requires v.bytesPerSec > 0
    ensures end <= n * v.bytesPerSec
  {
    if end <= ClusterBytes(v) then v.secPerClus
    else
      RoundedUp(end, v.bytesPerSec);
      (end + v.bytesPerSec - 1) / v.bytesPerSec
  }

  lemma RoundedUp(end: nat, k: nat)
    requires k > 0
    ensures end <= (end + k - 1) / k * k
  {
  }

  lemma RunNone(d: disk, v: Vol, lba: nat, n: nat)
    requires OnDisk(d, v)
    ensures OnlyRun(d, d, v, lba, n)
  {
  }

  lemma RunThen(d: disk, d1: disk, d2: disk, v: Vol, lba: nat, n: nat)
    requires OnlyRun(d, d1, v, lba, n) && OnlyRun(d1, d2, v, lba, n)
    ensures OnlyRun(d, d2, v, lba, n) && OnDisk(d2, v) && |d2| == |d|
  {
    hide Geometry;
  }

  /** A write of `n` bytes from `off` of a cluster stays in it exactly if its last byte does. */
  lemma StaysInside(d: disk, v: Vol, cl: nat, off: nat, n: nat)
    requires OnDisk(d, v) && Usable(v, cl) && n > 0
    ensures v.bytesPerSec > 0
    ensures (forall k | off <= k < off + n :: InCluster(v, cl, Lba(v, cl) + k / v.bytesPerSec))
      <==> off + n <= ClusterBytes(v)
  {
    hide Limit, FatSectors, Lba;
    if off + n <= ClusterBytes(v) {
      forall k | off <= k < off + n
        ensures k / v.bytesPerSec < v.secPerClus
      {
        InSector(k, v.secPerClus, v.bytesPerSec);
      }
    } else {
      DivAtLeast(off + n - 1, v.bytesPerSec, v.secPerClus);
      assert !InCluster(v, cl, Lba(v, cl) + (off + n - 1) / v.bytesPerSec);
    }
  }

  /** `exfat_write_entry_set`.  A set that does not fit behind `startByte` runs on into the sectors behind the
      cluster. */
  method WriteEntrySet(dk: array<bytes>, v: Vol, dirCl: nat, startByte: nat, es: bytes, total: nat) returns (r: int)
    requires OnDisk(dk[..], v) && Usable(v, dirCl) && total > 0 && |es| == 32 * total && startByte % 32 == 0
    requires v.bytesPerSec > 0 && Lba(v, dirCl) + Reach(v, startByte + 32 * total) <= dk.Length
    modifies dk
    ensures total > 40 ==> r == -1 && dk[..] == old(dk[..])
    ensures var lba, n := Lba(v, dirCl), Reach(v, startByte + 32 * total);
      total <= 40 ==> r == 0 && RunPut(old(dk[..]), dk[..], v, lba, n, startByte, es)
  {
    hide Limit, Put, Lba, FatSectors, Geometry, LeBytes, Checksum, Reach, OnlyRun, Sectors;
    RunNone(dk[..], v, Lba(v, dirCl), Reach(v, startByte + 32 * total));
    ghost var d, lba, n := dk[..], Lba(v, dirCl), Reach(v, startByte + 32 * total);
    var csum := ChecksumEntries(es, total);
    if total > 40 {
      return -1;
    }
    var setbuf := Put(es, 2, LeBytes(2, csum));
    SectorsLen(d, v, lba, n);
    ghost var c := Sectors(d, lba, n);
    PutEmpty(c, startByte, setbuf[..0]);
    var i := 0;
    while i < total
      invariant 0 <= i <= total && OnlyRun(d, dk[..], v, lba, n) && OnDisk(dk[..], v)
      invariant Sectors(dk[..], lba, n) == Put(c, startByte, setbuf[..32 * i])
    {
      ghost var d1 := dk[..];
      r := WriteEntry(dk, v, dirCl, startByte + 32 * i, setbuf[32 * i..32 * i + 32], n);
      RunThen(d, d1, dk[..], v, lba, n);
      PutNext(c, startByte, setbuf, 32 * i, 32 * i + 32);
      if r != 0 {
        return -1;
      }
      i := i + 1;
    }
    assert setbuf[..32 * i] == setbuf;
    r := 0;
  }

  /** The sectors of a cluster are there. */
  lemma ReachInside(d: disk, v: Vol, cl: nat, end: nat)
    requires OnDisk(d, v) && Usable(v, cl) && end <= ClusterBytes(v)
    ensures v.bytesPerSec > 0 && Lba(v, cl) + Reach(v, end) <= |d|
  {
    hide Limit, Lba, FatSectors;
    LbaIs(v, |d|, cl);
  }

  /** And those of the next cluster, which is enough for a set. */
  lemma ReachNext(d: disk, v: Vol, cl: nat, end: nat)
    requires OnDisk(d, v) && Usable(v, cl) && Usable(v, cl + 1) && ClusterBytes(v) < end <= 1024
    ensures v.bytesPerSec > 0 && Lba(v, cl) + Reach(v, end) <= |d|
  {
    hide Limit, FatSectors;
    LbaIs(v, |d|, cl + 1);
    SmallCluster(v.secPerClus, v.bytesPerSec);
  }

  /** A set that fits has been written into the cluster. */
  lemma RunIsCluster(d: disk, d': disk, v: Vol, cl: nat, off: nat, es: bytes)
    requires OnDisk(d, v) && Usable(v, cl) && |es| >= 32 && off + |es| <= ClusterBytes(v) && v.bytesPerSec > 0
    requires RunPut(d, d', v, Lba(v, cl), Reach(v, off + |es|), off, es)
    ensures OnlyCluster(d, d', v, cl) && OnDisk(d', v) && off + |es| <= |Cluster(d, v, cl)|
    ensures Cluster(d', v, cl) == Put(Cluster(d, v, cl), off, Summed(es))
  {
    hide Limit, Put, Lba, FatSectors, Geometry, Summed;
  }

  /** A set longer than a cluster, written at its start, has filled the cluster, and the rest of it stands at the start
      of the next cluster, whoever that belongs to. */
  ghost predicate Spilled(d: disk, d': disk, v: Vol, cl: nat, es: bytes)
  {
    && OnDisk(d, v) && Usable(v, cl) && Usable(v, cl + 1) && OnlyChain(d, d', v, [cl, cl + 1])
    && 32 <= ClusterBytes(v) < |es| <= 2 * ClusterBytes(v) && |Cluster(d, v, cl + 1)| == ClusterBytes(v)
    && Cluster(d', v, cl) == Summed(es)[..ClusterBytes(v)]
    && Cluster(d', v, cl + 1) == Put(Cluster(d, v, cl + 1), 0, Summed(es)[ClusterBytes(v)..])
  }

  lemma RunSpills(d: disk, d': disk, v: Vol, cl: nat, es: bytes)
    requires OnDisk(d, v) && Usable(v, cl) && Usable(v, cl + 1) && ClusterBytes(v) < |es| <= 1024 && v.bytesPerSec > 0
    requires RunPut(d, d', v, Lba(v, cl), Reach(v, |es|), 0, es)
    ensures Spilled(d, d', v, cl, es)
  {
    hide Limit, FatSectors, Summed, Put;
    SmallCluster(v.secPerClus, v.bytesPerSec);
    var lba, s := Lba(v, cl), Summed(es);
    assert Lba(v, cl + 1) == lba + 1;
    OneSector(d, v, lba);
    OneSector(d', v, lba);
    ClusterLen(d, v, cl);
    ClusterLen(d, v, cl + 1);
    PutAcross(d[lba], d[lba + 1], s);
    SpillOnly(d, d', v, cl);
  }

  lemma SmallCluster(spc: nat, bps: nat)
    requires spc > 0 && bps in {512, 1024, 2048, 4096} && spc * bps < 1024
    ensures spc == 1 && bps == 512
  {
    if spc > 1 { MulMono(2, spc, bps); }
  }

  lemma OneSector(d: disk, v: Vol, lba: nat)
    requires OnDisk(d, v) && lba + 2 <= |d|
    ensures Sectors(d, lba, 1) == d[lba] && Sectors(d, lba + 1, 1) == d[lba + 1]
    ensures Sectors(d, lba, 2) == d[lba] + d[lba + 1] && |d[lba]| == |d[lba + 1]| == v.bytesPerSec
  {
    assert Sectors(d, lba, 0) == [] == Sectors(d, lba + 1, 0);
  }

  lemma PutAcross(a: bytes, b: bytes, s: bytes)
    requires |a| < |s| <= |a| + |b|
    ensures Put(a + b, 0, s)[..|a|] == s[..|a|]
    ensures Put(a + b, 0, s)[|a|..] == Put(b, 0, s[|a|..])
  {
    SameBytes(Put(a + b, 0, s)[..|a|], s[..|a|]);
    SameBytes(Put(a + b, 0, s)[|a|..], Put(b, 0, s[|a|..]));
  }

  lemma SpillOnly(d: disk, d': disk, v: Vol, cl: nat)
    requires OnDisk(d, v) && cl >= 2 && v.secPerClus == 1 && OnlyRun(d, d', v, Lba(v, cl), 2)
    ensures OnlyChain(d, d', v, [cl, cl + 1])
  {
    hide Limit, Geometry;
    forall i | 0 <= i < |d| && !InChain(v, [cl, cl + 1], i)
      ensures d'[i] == d[i]
    {
      assert [cl, cl + 1][0] == cl && [cl, cl + 1][1] == cl + 1;
      assert !InCluster(v, cl, i) && !InCluster(v, cl + 1, i);
    }
  }

  lemma PutEmpty(c: bytes, p: nat, x: bytes)
    requires p <= |c| && x == []
    ensures Put(c, p, x) == c
  {
  }

  lemma PutNext(c: bytes, p: nat, x: bytes, i: nat, j: nat)
    requires i <= j <= |x| && p + |x| <= |c|
    ensures Put(Put(c, p, x[..i]), p + i, x[i..j]) == Put(c, p, x[..j])
  {
    SameBytes(Put(Put(c, p, x[..i]), p + i, x[i..j]), Put(c, p, x[..j]));
  }

  /** An aligned entry of a cluster, found in its sector. */
  lemma EntryOfCluster(d: disk, v: Vol, cl: nat, off: nat)
    requires OnDisk(d, v) && Usable(v, cl) && off % 32 == 0 && off + 32 <= ClusterBytes(v)
    ensures v.bytesPerSec > 0 && off / v.bytesPerSec < v.secPerClus <= 128 && Lba(v, cl) + off / v.bytesPerSec < |d|
    ensures var sec, o := d[Lba(v, cl) + off / v.bytesPerSec], off % v.bytesPerSec;
      o + 32 <= |sec| && off + 32 <= |Cluster(d, v, cl)| && sec[o..o + 32] == Cluster(d, v, cl)[off..off + 32]
  {
    hide Limit, Lba, FatSectors, Cluster;
    SectorEntry(d, v, off);
    ClusterLen(d, v, cl);
    ClusterPart(d, v, cl, off / v.bytesPerSec);
    SliceOfSlice(Cluster(d, v, cl), off / v.bytesPerSec * v.bytesPerSec, v.bytesPerSec, off % v.bytesPerSec,
      off % v.bytesPerSec + 32);
  }

  const NO_SECTOR: nat := 0xFFFF_FFFF

  /** The sector buffer holds sector `last` of the cluster, or nothing yet. */
  predicate Buffered(d: disk, v: Vol, cl: nat, last: nat, sec: bytes)
    requires cl >= 2
  {
    last != NO_SECTOR ==> Lba(v, cl) + last < |d| && sec == d[Lba(v, cl) + last]
  }

  /** One round of `exfat_collect_entries`: a sector is read only when the entry is not in the one at hand. */
  method CollectEntry(dk: array<bytes>, v: Vol, cl: nat, byteOff: nat, last: nat, buf: bytes)
    returns (secIdx: nat, sec: bytes, x: bytes)
    requires OnDisk(dk[..], v) && Usable(v, cl) && byteOff % 32 == 0 && byteOff + 32 <= ClusterBytes(v)
    requires Buffered(dk[..], v, cl, last, buf)
    ensures Buffered(dk[..], v, cl, secIdx, sec)
    ensures byteOff + 32 <= |Cluster(dk[..], v, cl)| && x == Cluster(dk[..], v, cl)[byteOff..byteOff + 32]
  {
    hide Limit, Lba, FatSectors, Cluster, Geometry;
    EntryOfCluster(dk[..], v, cl, byteOff);
    secIdx := byteOff / v.bytesPerSec;
    var offInSec: nat := byteOff % v.bytesPerSec;
    sec := buf;
    if secIdx != last {
      sec := dk[Lba(v, cl) + secIdx];
    }
    x := sec[offInSec..offInSec + 32];
  }

  /** `exfat_collect_entries`; what is copied has to fit into the buffer. */
  method CollectEntries(dk: array<bytes>, v: Vol, dirCl: nat, startByte: nat, total: nat, out: array<byte>)
    returns (r: int)
    requires OnDisk(dk[..], v) && Usable(v, dirCl) && startByte % 32 == 0
    requires startByte + 32 * total <= ClusterBytes(v) ==> 32 * total <= out.Length
    modifies out
    ensures startByte + 32 * total > ClusterBytes(v) ==> r == -1 && out[..] == old(out[..])
    ensures startByte + 32 * total <= ClusterBytes(v) ==>
      r == 0 && startByte + 32 * total <= |Cluster(dk[..], v, dirCl)|
    ensures startByte + 32 * total <= ClusterBytes(v) ==>
      out[..32 * total] == Cluster(dk[..], v, dirCl)[startByte..startByte + 32 * total]
  {
    hide Limit, Lba, FatSectors, Cluster, Geometry, OnDisk, Usable;
    var clusterBytes := v.secPerClus * v.bytesPerSec;
    if startByte + 32 * total > clusterBytes {
      return -1;
    }
    CopyEntries(dk, v, dirCl, startByte, total, out);
    r := 0;
  }

  /** Its loop. */
  method CopyEntries(dk: array<bytes>, v: Vol, dirCl: nat, startByte: nat, total: nat, out: array<byte>)
    requires OnDisk(dk[..], v) && Usable(v, dirCl) && startByte % 32 == 0
    requires startByte + 32 * total <= ClusterBytes(v) && 32 * total <= out.Length
    modifies out
    ensures startByte + 32 * total <= |Cluster(dk[..], v, dirCl)|
    ensures out[..32 * total] == Cluster(dk[..], v, dirCl)[startByte..startByte + 32 * total]
  {
    hide Limit, Lba, FatSectors, Cluster, Geometry, OnDisk, Buffered, Usable, ClusterBytes;
    ghost var d, c := dk[..], Cluster(dk[..], v, dirCl);
    ClusterLen(d, v, dirCl);
    var lastSec: nat := NO_SECTOR;
    var sec: bytes := [];
    NothingBuffered(dk[..], v, dirCl);
    var i := 0;
    while i < total
      invariant 0 <= i <= total && out[..32 * i] == c[startByte..startByte + 32 * i]
      invariant Buffered(d, v, dirCl, lastSec, sec) && dk[..] == d
    {
      var x;
      lastSec, sec, x := CollectEntry(dk, v, dirCl, startByte + 32 * i, lastSec, sec);
      Cut(c, startByte, startByte + 32 * i, startByte + 32 * i + 32);
      CopyInto(out, 32 * i, x);
      i := i + 1;
    }
  }

  /** `memcpy` of one entry. */
  method CopyInto(out: array<byte>, at: nat, x: bytes)
    requires at + |x| <= out.Length
    modifies out
    ensures out[..at + |x|] == old(out[..at]) + x
  {
    var k := 0;
    while k < |x|
      invariant 0 <= k <= |x| && out[..at + k] == old(out[..at]) + x[..k]
    {
      out[at + k] := x[k];
      k := k + 1;
    }
    assert x[..k] == x;
  }

  lemma NothingBuffered(d: disk, v: Vol, cl: nat)
    requires Usable(v, cl)
    ensures cl >= 2 && Buffered(d, v, cl, NO_SECTOR, [])
  {
  }

  // ---------------------------------------------------------------- the round trip through the disk

  /** At `off` of directory cluster `dirCl` stands the set of a file. */
  ghost predicate EntryAt(d: disk, v: Vol, dirCl: nat, off: nat, name: bytes, cluster: nat, size: nat, isDir: bool)
    requires OnDisk(d, v) && Usable(v, dirCl)
  {
    var n := 32 * (2 + NameEntries(|name|));
    && off % 32 == 0 && off + n <= |Cluster(d, v, dirCl)|
    && IsSet(Cluster(d, v, dirCl)[off..off + n], name, cluster, size, isDir)
  }

  /** The checksum does not get in the way. */
  lemma SummedIsSet(name: bytes, cluster: nat, size: nat, isDir: bool)
    requires |name| <= 255
    ensures IsSet(Summed(EntrySet(name, cluster, size, isDir)), name, cluster, size, isDir)
  {
    hide EntrySet, Checksum, LeBytes;
    var s := EntrySet(name, cluster, size, isDir);
    PutOutside(s, 2, LeBytes(2, Checksum(s, |s|)), 0, 2);
    PutOutside(s, 2, LeBytes(2, Checksum(s, |s|)), 4, |s|);
    var x := Summed(s);
    assert x[..2] == x[0..2] && s[..2] == s[0..2] && x[4..] == x[4..|s|] && s[4..] == s[4..|s|];
  }

  /** A set that has been written stands where it was written. */
  lemma WrittenSet(d: disk, d': disk, v: Vol, dirCl: nat, off: nat, name: bytes, cluster: nat, size: nat, isDir: bool)
    requires OnDisk(d, v) && OnDisk(d', v) && Usable(v, dirCl) && |name| <= 255 && off % 32 == 0
    requires var s := EntrySet(name, cluster, size, isDir);
      off + |s| <= |Cluster(d, v, dirCl)| && Cluster(d', v, dirCl) == Put(Cluster(d, v, dirCl), off, Summed(s))
    ensures EntryAt(d', v, dirCl, off, name, cluster, size, isDir)
  {
    hide EntrySet, Summed, Cluster, IsSet, OnDisk, Usable, Put;
    var s := Summed(EntrySet(name, cluster, size, isDir));
    SummedIsSet(name, cluster, size, isDir);
    PutInside(Cluster(d, v, dirCl), off, s);
  }
}
