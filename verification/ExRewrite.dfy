/** The last component of an exFAT path: the file is written over where it is found, and made where it is not. */
module ExRewrite {
  import opened Bytes
  import opened Volume
  import opened Bitmap
  import opened Allocator
  import opened FileData
  import opened EntrySets
  import opened DirSets
  import opened ExFile
  import opened Keeping
  import opened DirEntries
  import opened ExDir
  import opened ExDirLaws
  import opened ExDisk
  import opened ExCreate
  import opened ExMake
  import opened ExPath
  import opened ExWrite

  /** The clusters that the entry found has now; they belong neither to the bitmap nor to the directory. */
  ghost predicate OldClusters(d: disk, v: Vol, bm: seq<nat>, dcs: seq<nat>, name: bytes, oldCs: seq<nat>)
    requires DirX(d, v, dcs)
  {
    && Apart(oldCs, bm) && Apart(oldCs, dcs)
    && if Search(d, v, dcs, name).At? then
      var cl := Record(d, v, dcs, name).cluster;
      if oldCs == [] then cl == 0 else cl == oldCs[0] && Chain(d, v, cl, oldCs)
    else oldCs == []
  }

  /** The result of the last round. */
  ghost function LastCode(d: disk, v: Vol, dcs: seq<nat>, name: bytes, size: nat): (r: int)
    requires OnDisk(d, v) && DirX(d, v, dcs) && v.secPerClus > 0 && ClusterBytes(v) > 0
  {
    if Search(d, v, dcs, name).At? then if HasRoom(d, v, size) then 0 else -7
    else CreateCode(d, v, dcs, name, false, size)
  }

  /** What the last round has done. */
  ghost predicate LastWritten(d: disk, d': disk, v: Vol, bm: seq<nat>, dcs: seq<nat>, dcs2: seq<nat>, name: bytes,
                              data: bytes, oldCs: seq<nat>, cs: seq<nat>)
  {
    && DirX(d, v, dcs) && DirX(d', v, dcs2) && Touched(d, d', v, bm, dcs, dcs2, name, SetOf(oldCs))
    && Holding(d', v, cs, data)
    && (Search(d', v, dcs2, name).At? <==> Search(d, v, dcs, name).At? || Visible(d, v, dcs, name))
    && (Search(d', v, dcs2, name).At? ==>
      Record(d', v, dcs2, name) == Info(name, if cs == [] then 0 else cs[0], |data|, false))
    && forall c | c in cs :: !InUse(d, v, c) && c !in bm && c !in dcs2
  }

  // ---------------------------------------------------------------- over an existing set

  /** The new set fits where the old one stands. */
  lemma OverFits(d: disk, v: Vol, dcs: seq<nat>, name: bytes)
    requires DirX(d, v, dcs) && Search(d, v, dcs, name).At? && AllTidy(Listing(d, v, dcs))
    ensures var f := Search(d, v, dcs, name);
      && f.i < |dcs| && f.off % 32 == 0 && f.off + 32 * (2 + NameEntries(|name|)) <= ClusterBytes(v)
      && f.i < |Listing(d, v, dcs)| && Room(Listing(d, v, dcs)[f.i], f.off, 32 * (2 + NameEntries(|name|)))
  {
    hide Chain, Tidy, ParsedAt, Listing, Match;
    var f := Search(d, v, dcs, name);
    var c := Listing(d, v, dcs)[f.i];
    NameFits(c, f.off, Key(name));
    RoomOver(c, f.off, 32 * (2 + NameEntries(|name|)));
  }

  /** The directory after the set has been written over. */
  lemma OverListing(d: disk, d': disk, v: Vol, bm: seq<nat>, dcs: seq<nat>, i: nat, p: nat, es: bytes, oldCs: seq<nat>,
                    cs: seq<nat>)
    requires Ready(d, v, bm) && DirX(d, v, dcs) && i < |dcs| && Usable(v, dcs[i]) && AllUsable(v, cs)
    requires OnlyFile(d, d', v, bm, dcs[i], oldCs, cs) && SetPut(d, d', v, dcs[i], p, es)
    requires Apart(dcs, bm) && Apart(oldCs, dcs)
    ensures DirX(d', v, dcs) && p + |es| <= |Listing(d, v, dcs)[i]| && |es| >= 32
    ensures Listing(d', v, dcs) == WithSet(Listing(d, v, dcs), i, p, Summed(es))
    ensures Keeps(d, d', v, SetOf(bm) + SetOf(dcs) + SetOf(oldCs)) && forall c | c in cs :: !InUse(d, v, c) && c !in dcs
  {
    hide Limit, Geometry, Cluster, Entry, Put, Chain, Checksum, Agree, Mounted, Fat, Used;
    OverwriteKeeps(d, d', v, bm, dcs[i], oldCs, cs);
    KeepsMore(d, d', v, SetOf(bm) + SetOf(oldCs) + {dcs[i]}, SetOf(bm) + SetOf(dcs) + SetOf(oldCs));
    ChainInUse(d, v, dcs[0], dcs);
    ChainDistinct(d, v, dcs[0], dcs);
    forall j | 0 <= j < |dcs|
      ensures Entry(d', v, dcs[j]) == Entry(d, v, dcs[j])
      ensures (j != i ==> Cluster(d', v, dcs[j]) == Cluster(d, v, dcs[j]))
    {
      assert dcs[j] in dcs && InUse(d, v, dcs[j]);
      FatLimit(d, v);
      FatIs(d, v, dcs[j]);
      FatIs(d', v, dcs[j]);
    }
    SetListing(d, d', v, dcs, i, p, es);
  }

  /** All together. */
  lemma OverDone(d: disk, d': disk, v: Vol, bm: seq<nat>, dcs: seq<nat>, name: bytes, data: bytes, oldCs: seq<nat>,
                 cs: seq<nat>, i: nat, p: nat)
    requires Ready(d, v, bm) && Ready(d', v, bm) && DirX(d, v, dcs) && DirX(d', v, dcs) && AllTidy(Listing(d, v, dcs))
    requires Proper(name) && |data| < TWO32 && Search(d, v, dcs, name) == At(i, p) && i < |dcs|
    requires (cs != [] ==> cs[0] < TWO32)
    requires p + |NewSet(name, cs, |data|, false)| <= |Listing(d, v, dcs)[i]|
    requires Listing(d', v, dcs) == WithSet(Listing(d, v, dcs), i, p, Summed(NewSet(name, cs, |data|, false)))
    requires Keeps(d, d', v, SetOf(bm) + SetOf(dcs) + SetOf(oldCs)) && Holding(d', v, cs, data)
    requires forall c | c in cs :: !InUse(d, v, c) && c !in bm && c !in dcs
    ensures LastWritten(d, d', v, bm, dcs, dcs, name, data, oldCs, cs)
  {
    hide Chain, Keeps, Holding, Tidy, Listing, NewSet, Summed, SetOfName, Match, Key, ParsedAt, Ready, InUse, Put, Find;
    OverFits(d, v, dcs, name);
    var cl := Listing(d, v, dcs);
    var s := Summed(NewSet(name, cs, |data|, false));
    var info := Info(name, if cs == [] then 0 else cs[0], |data|, false);
    DirXIs(d, v, dcs);
    SetLength(name, cs, |data|, false);
    assert Shortened(name) == name;
    NewSetIs(name, cs, |data|, false);
    FoundSame(cl, 0, i, p, s, name, info, Key(name));
    StandsAt(cl, i, p, s, name, info);
    assert SetWritten(cl, Listing(d', v, dcs), name, i, p, s, info);
  }

  /** The file's new clusters hold the data, and the bitmap is none of them. */
  lemma FileHolds(d: disk, d': disk, v: Vol, bm: seq<nat>, dirCl: nat, off: nat, name: bytes, data: bytes, cs: seq<nat>)
    requires Ready(d, v, bm) && FileAt(d', v, dirCl, off, name, data, cs) && forall c | c in cs :: !InUse(d, v, c)
    ensures Holding(d', v, cs, data) && (cs != [] ==> cs[0] < TWO32) && forall c | c in cs :: c !in bm
  {
    hide EntryAt, Chain, ChainBytes, Limit, Entry, Agree, Fat, Used;
    forall c | c in bm
      ensures InUse(d, v, c)
    {
      BitmapInUse(d, v, bm, c);
    }
  }

  /** The branch for a file that is found. */
  method WriteOver(dk: array<bytes>, v: Vol, cl: nat, off: nat, info: Info, name: bytes, data: bytes,
                   ghost bm: seq<nat>, ghost dcs: seq<nat>, ghost oldCs: seq<nat>)
    returns (r: int, ghost cs: seq<nat>)
    requires Ready(dk[..], v, bm) && DirX(dk[..], v, dcs) && Apart(dcs, bm) && AllTidy(Listing(dk[..], v, dcs))
    requires Proper(name) && |data| < TWO32 && OldClusters(dk[..], v, bm, dcs, name, oldCs)
    requires var f := Search(dk[..], v, dcs, name);
      f.At? && f.i < |dcs| && cl == dcs[f.i] && off == f.off && info == Record(dk[..], v, dcs, name)
    modifies dk
    ensures Ready(dk[..], v, bm) && OnDisk(old(dk[..]), v) && r == if HasRoom(old(dk[..]), v, |data|) then 0 else -7
    ensures r != 0 ==> Keeps(old(dk[..]), dk[..], v, SetOf(bm))
    ensures r == 0 ==> LastWritten(old(dk[..]), dk[..], v, bm, dcs, dcs, name, data, oldCs, cs)
  {
    hide Limit, Geometry, Cluster, Entry, Chain, Mounted, Fat, Used, Agree, HasRoom, NoRoomLeft, Listing, Search,
         Record, Tidy, SetPut, EntrySet, Keeps, LastWritten, EntryAt, ChainBytes, Summed, Find, OnlyFile;
    ghost var d := dk[..];
    ghost var i := Search(d, v, dcs, name).i;
    OverFits(d, v, dcs, name);
    ListingAt(d, v, dcs, i);
    NeverFree(d, v, dcs[0], dcs, i);
    assert cl in dcs;
    r, cs := OverwriteFile(dk, v, cl, off, info.cluster, name, data, bm, oldCs);
    if r != 0 {
      NoRoomKeeps(d, dk[..], v, bm, |data|);
      return;
    }
    OverListing(d, dk[..], v, bm, dcs, i, off, EntrySet(name, if cs == [] then 0 else cs[0], |data|, false), oldCs, cs);
    FileHolds(d, dk[..], v, bm, cl, off, name, data, cs);
    assert Shortened(name) == name;
    OverDone(d, dk[..], v, bm, dcs, name, data, oldCs, cs, i, off);
  }
}
