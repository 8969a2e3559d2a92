/** Sets longer than a cluster: what `exfat_create_entry` overwrites, and a volume on which it does. */
module ExSpill {
  import opened Bytes
  import opened Volume
  import opened Bitmap
  import opened Allocator
  import opened EntrySets
  import opened DirSets
  import opened ExFile
  import opened Keeping
  import opened ExDir
  import opened ExDisk
  import opened ExCreate
  import opened ExMake

  /** The cluster behind the directory's new one loses its first bytes, if it belongs to somebody else. */
  lemma SpillHits(d: disk, mid: disk, d': disk, v: Vol, bm: seq<nat>, dcs: seq<nat>, dcs2: seq<nat>, name: bytes,
                  isDir: bool, data: bytes, cs: seq<nat>)
    requires Overlong(d, mid, d', v, bm, dcs, dcs2, name, isDir, data, cs)
    ensures OnDisk(d, v) && OnDisk(d', v) && Usable(v, dcs2[|dcs|] + 1) && 32 * SetSize(name) > ClusterBytes(v)
    ensures var next, s := dcs2[|dcs|] + 1, Summed(NewSet(name, cs, |data|, isDir));
      InUse(d, v, next) && next !in bm && next !in dcs ==>
        |s| - ClusterBytes(v) <= |Cluster(d, v, next)|
        && Cluster(d', v, next) == Put(Cluster(d, v, next), 0, s[ClusterBytes(v)..])
  {
    hide Limit, Geometry, Cluster, Entry, Chain, Mounted, Used, Agree, Fat, Put, Summed, EntrySet, Listing, Filled;
  }

  /** Such a set is one whose name has more than 210 characters, on a volume with clusters of 512 bytes. */
  lemma LongNames(d: disk, v: Vol, name: bytes)
    requires OnDisk(d, v)
    ensures 32 * SetSize(name) > ClusterBytes(v) <==> ClusterBytes(v) == 512 && |name| > 210
  {
    hide Limit, FatSectors;
    if ClusterBytes(v) < 1024 { SmallCluster(v.secPerClus, v.bytesPerSec); }
  }

  // ---------------------------------------------------------------- a volume

  /** Six clusters of one sector: the bitmap, the root directory, a free one, and three that belong to files. */
  const TINY: Vol := Vol(512, 1, 0, 0, 1, 7, 6, 3, 2, 1)

  function EndWord(): (b: bytes)
    ensures |b| == 4
  {
    LeBytes(4, EOC)
  }

  function TinyFat(): (b: bytes)
    ensures |b| == 512
  {
    Zeros(8) + EndWord() + EndWord() + Zeros(4) + EndWord() + EndWord() + EndWord() + Zeros(480)
  }

  function TinyDisk(): (d: disk)
    ensures |d| == 7 && (forall i | 0 <= i < 7 :: |d[i]| == 512) && d[0] == TinyFat() && d[1][0] == 59
  {
    [TinyFat(), [59] + Zeros(511), Zeros(512), Zeros(512), Zeros(512), Zeros(512), Zeros(512)]
  }

  lemma TinyOn()
    ensures OnDisk(TinyDisk(), TINY) && Limit(TINY) == 8 && ClusterBytes(TINY) == 512 && MaxClusters(TINY) == 6
  {
    hide TinyDisk;
    TinySizes();
  }

  lemma TinySizes()
    ensures Limit(TINY) == 8 && ClusterBytes(TINY) == 512 && MaxClusters(TINY) == 6 && FatSectors(TINY) == 1
    ensures Geometry(TINY, 7)
  {
    assert HeapClusters(TINY) == 6;
    assert (4 * 8 + 512 - 1) / 512 == 1;
  }

  lemma TinyWord(c: nat)
    requires c < 8
    ensures TinyFat()[4 * c..4 * c + 4] == if c in {2, 3, 5, 6, 7} then EndWord() else Zeros(4)
  {
    hide EndWord;
  }

  /** A word of the table, wherever its sector is known. */
  lemma WordIs(d: disk, v: Vol, cl: nat, sec: nat, off: nat)
    requires OnDisk(d, v) && cl < Limit(v) && sec == FatSec(v, cl) && off == FatOff(v, cl)
    ensures sec < |d| && off + 4 <= |d[sec]| && Entry(d, v, cl) == Le(d[sec][off..off + 4]) % TWO28
  {
    hide Limit, FatSectors, FatSec, FatOff, Le;
    FatPlace(v, |d|, cl);
  }

  /** The table: cluster 4 is free, the others end their chains. */
  lemma TinyEntry(c: nat)
    requires 2 <= c < 8
    ensures OnDisk(TinyDisk(), TINY) && c < Limit(TINY) && Entry(TinyDisk(), TINY, c) == if c == 4 then 0 else EOC
  {
    hide *;
    TinyOn();
    TinyWord(c);
    TinyPlace(c);
    WordIs(TinyDisk(), TINY, c, 0, 4 * c);
    TinyLe();
  }

  lemma TinyLe()
    ensures Le(EndWord()) == EOC && Le(Zeros(4)) == 0 && EOC % TWO28 == EOC && 0 % TWO28 == 0
  {
    hide Le, LeBytes;
    Radix4();
    LeOfBytes(4, EOC);
    LeZeros();
  }

  lemma TinyPlace(c: nat)
    requires c < 8
    ensures FatSec(TINY, c) == 0 && FatOff(TINY, c) == 4 * c
  {
    DivIs(4 * c, 512, 0, 4 * c);
  }

  lemma LeZeros()
    ensures Le(Zeros(4)) == 0
  {
    assert Zeros(4)[1..] == Zeros(3) && Zeros(3)[1..] == Zeros(2) && Zeros(2)[1..] == Zeros(1) && Zeros(1)[1..] == [];
  }

  lemma TinyChain(c: nat)
    requires 2 <= c < 8 && c != 4
    ensures Chain(TinyDisk(), TINY, c, [c]) && InUse(TinyDisk(), TINY, c)
  {
    hide Entry, TinyDisk, Limit, OnDisk;
    TinyOn();
    TinyEntry(c);
  }

  /** The bitmap says the same. */
  lemma TinyBits(c: nat)
    requires 2 <= c < 8
    ensures Mounted(TinyDisk(), TINY, [2]) && Usable(TINY, c) && BitOf(TinyDisk(), TINY, [2], c) == (c != 4)
  {
    hide Entry, OnDisk, Chain, TinyFat;
    TinyOn();
    TinyChain(2);
    assert [2][0] == 2;
    assert BitSec(TINY, [2], c) == 1 && BitOff(TINY, c) == 0 && TinyDisk()[1][0] == 59;
    Bits59(c - 2);
  }

  lemma Bits59(k: nat)
    requires k < 6
    ensures BitAt(59, k) == (k != 2)
  {
    assert BitAt(59, 0) && BitAt(29, 0) && !BitAt(14, 0) && BitAt(7, 0) && BitAt(3, 0) && BitAt(1, 0);
    assert BitAt(59, k) == (if k == 0 then true else BitAt(29, k - 1));
    assert k >= 1 ==> BitAt(29, k - 1) == (if k == 1 then true else BitAt(14, k - 2));
    assert k >= 2 ==> BitAt(14, k - 2) == (if k == 2 then false else BitAt(7, k - 3));
    assert k >= 3 ==> BitAt(7, k - 3) == (if k == 3 then true else BitAt(3, k - 4));
    assert k >= 4 ==> BitAt(3, k - 4) == (if k == 4 then true else BitAt(1, k - 5));
  }

  lemma TinyReady()
    ensures Ready(TinyDisk(), TINY, [2]) && DirX(TinyDisk(), TINY, [3]) && Apart([3], [2])
  {
    hide Entry, TinyDisk, Limit, OnDisk, Mounted, BitOf;
    TinyOn();
    TinyChain(3);
    TinyBits(2);
    var f, u := Fat(TinyDisk(), TINY), Used(TinyDisk(), TINY, [2]);
    forall c | 2 <= c < |f|
      ensures u[c] <==> f[c] != 0
    {
      TinyEntry(c);
      TinyBits(c);
    }
  }

  /** There is a free cluster. */
  lemma TinyFree()
    ensures OnDisk(TinyDisk(), TINY) && FreeLeft(TinyDisk(), TINY) >= 1
  {
    hide Entry, TinyDisk, Limit, OnDisk;
    TinyOn();
    TinyEntry(4);
    var s := FreeSet(Fat(TinyDisk(), TINY), MaxClusters(TINY));
    assert 4 in s;
  }

  /** Whatever the name, if it is longer than 210 characters: creating an empty file succeeds, and overwrites cluster 5,
      which belongs to another file. */
  lemma SpillFails(name: bytes)
    requires |name| > 210
    ensures Ready(TinyDisk(), TINY, [2]) && DirX(TinyDisk(), TINY, [3]) && Apart([3], [2])
    ensures OnDisk(TinyDisk(), TINY) && ClusterBytes(TINY) == 512
    ensures CreateCode(TinyDisk(), TINY, [3], name, false, 0) == 0 && 32 * SetSize(name) > ClusterBytes(TINY)
    ensures InUse(TinyDisk(), TINY, 5) && Usable(TINY, 5)
    ensures forall mid, d', dcs2, cs ::
      Overlong(TinyDisk(), mid, d', TINY, [2], [3], dcs2, name, false, [], cs) ==>
      OnDisk(d', TINY) && Cluster(d', TINY, 5) != Cluster(TinyDisk(), TINY, 5)
  {
    hide TinyDisk, Ready, DirX, InUse, Overlong, Cluster, Limit, OnDisk, FreeLeft, Slot, Listing;
    TinyReady();
    TinyFree();
    TinyOn();
    TinyChain(5);
    TinyUsable();
    NoSlot(TinyDisk(), TINY, [3], SetSize(name));
    forall mid, d', dcs2, cs | Overlong(TinyDisk(), mid, d', TINY, [2], [3], dcs2, name, false, [], cs)
      ensures OnDisk(d', TINY) && Cluster(d', TINY, 5) != Cluster(TinyDisk(), TINY, 5)
    {
      TinySpill(name, mid, d', dcs2, cs);
    }
  }

  lemma TinyUsable()
    ensures Usable(TINY, 5) && HasRoom(TinyDisk(), TINY, 0)
  {
    hide TinyDisk, OnDisk;
    TinyOn();
  }

  lemma NoSlot(d: disk, v: Vol, dcs: seq<nat>, t: nat)
    requires DirX(d, v, dcs) && 32 * t > ClusterBytes(v)
    ensures !Slot(Listing(d, v, dcs), 0, t).At?
  {
    hide Chain, Slot;
    if Slot(Listing(d, v, dcs), 0, t).At? { SlotFits(Listing(d, v, dcs), t, ClusterBytes(v)); }
  }

  lemma TinySpill(name: bytes, mid: disk, d': disk, dcs2: seq<nat>, cs: seq<nat>)
    requires |name| > 210 && OnDisk(TinyDisk(), TINY) && Usable(TINY, 5) && ClusterBytes(TINY) == 512
    requires Overlong(TinyDisk(), mid, d', TINY, [2], [3], dcs2, name, false, [], cs)
    ensures OnDisk(d', TINY) && Cluster(d', TINY, 5) != Cluster(TinyDisk(), TINY, 5)
  {
    hide TinyDisk, Ready, Entry, Cluster, OnDisk, Summed, NewSet, Listing, Keeps, Filled, Put, Chain;
    SpillHits(TinyDisk(), mid, d', TINY, [2], [3], dcs2, name, false, [], cs);
    var next := dcs2[1] + 1;
    assert next == 5 by {
      TinyOn();
      if dcs2[1] != 4 { TinyChain(dcs2[1]); }
    }
    TinyChain(5);
    var s := Summed(NewSet(name, cs, 0, false));
    Sixteenth(name, cs);
    TinyZeros();
    PutByte(Cluster(TinyDisk(), TINY, 5), 0, s[512..], 0);
  }

  lemma TinyZeros()
    ensures OnDisk(TinyDisk(), TINY) && Usable(TINY, 5) && Cluster(TinyDisk(), TINY, 5) == Zeros(512)
  {
    hide OnDisk, TinyFat;
    TinyOn();
    var d := TinyDisk();
    assert Lba(TINY, 5) == 4;
    assert Sectors(d, 4, 0) == [];
    assert Sectors(d, 4, 1) == d[4];
  }

  /** The seventeenth entry of such a set is a name entry. */
  lemma Sixteenth(name: bytes, cs: seq<nat>)
    requires |name| > 210
    ensures var s := Summed(NewSet(name, cs, 0, false)); |s| > 512 && s[512..][0] == ENTRY_NAME
  {
    hide FileEntry, StreamEntry, NamePart, NameEntry, LeBytes, Checksum;
    var first := if cs == [] then 0 else cs[0];
    var s := Summed(NewSet(name, cs, 0, false));
    SummedIsSet(Shortened(name), first, 0, false);
    NameAt(s, Shortened(name), first, 0, false, 14);
    EntryTag(Shortened(name), 14);
    assert s[512] == s[512..544][0];
  }
}
