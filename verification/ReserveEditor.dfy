/** Adding to and deleting from the reserve map of a finished blob. */
module ReserveEditor {
  import opened Bytes
  import opened Format
  import opened Tree
  import opened Blob
  import opened Reserves
  import opened Splicing
  import opened Editor

  /** A blob that can be edited and whose reserve map is terminated; the probe looks at the room of one entry only. */
  predicate Mapped(b: bytes)
  {
    Editable(b) && CountFrom(b, 0).Some?
  }

  /** ... and the terminator lies before the end of the data, so that it moves along. */
  predicate MapInData(b: bytes)
  {
    Mapped(b) && EntryAt(b, CountFrom(b, 0).value) + 16 <= DataSize(b)
  }

  /** The position of entry `n`. */
  function EntryAt(b: bytes, n: nat): (p: nat)
    requires |b| >= HEADER_SIZE
  {
    Field(b, OFF_RSVMAP) + 16 * n
  }

  /** `c` is `b` with the reserve entries `rs`: the tree and everything else is as it was. */
  ghost predicate MapIs(b: bytes, c: bytes, rs: seq<Reserve>)
    requires Sane(b)
  {
    && |c| == |b| && Editable(c) && ReserveList(c) == Some(rs) && Struct(c) == Struct(b) && Strings(c) == Strings(b)
    && TreeOf(c) == TreeOf(b)
    && (forall k: nat | k < 10 && k != OFF_STRUCT && k != OFF_STRINGS :: Field(c, k) == Field(b, k))
  }

  lemma MapTree(b: bytes, c: bytes)
    requires Sane(b) && Sane(c) && Struct(c) == Struct(b) && Strings(c) == Strings(b)
    ensures TreeOf(c) == TreeOf(b)
  {
    hide Field, Struct, Strings;
  }

  /** `c` is `b` with the blocks behind the reserve map moved by `delta` bytes. */
  ghost predicate BlocksMoved(b: bytes, c: bytes, p: nat, gone: nat, room: nat)
    requires |b| >= HEADER_SIZE
  {
    && Moved(b, c, p, gone, room, HEADER_SIZE) && |c| == |b|
    && Field(c, OFF_STRUCT) == Field(b, OFF_STRUCT) - gone + room
    && Field(c, OFF_STRINGS) == Field(b, OFF_STRINGS) - gone + room
    && (forall k: nat | k < 10 && k != OFF_STRUCT && k != OFF_STRINGS :: Field(c, k) == Field(b, k))
  }

  /** `fdt_splice_mem_rsv_`: `oldn` entries at `p` make room for `newn`. */
  method SpliceMemRsv(fdt: array<byte>, p: nat, oldn: nat, newn: nat) returns (err: int)
    requires Editable(fdt[..]) && oldn <= 1 && newn <= 1 && HEADER_SIZE <= p < TWO31
    modifies fdt
    ensures var b := old(fdt[..]);
      && err == (if p + 16 * oldn > DataSize(b) then -ERR_BADOFFSET
                 else if DataSize(b) - 16 * oldn + 16 * newn <= Field(b, TOTALSIZE) then 0 else -ERR_NOSPACE)
      && (err != 0 ==> fdt[..] == b)
      && (err == 0 ==> BlocksMoved(b, fdt[..], p, 16 * oldn, 16 * newn))
  {
    hide Field;
    ghost var b := fdt[..];
    err := SpliceBlob(fdt, p, 16 * oldn, 16 * newn);
    if err != 0 {
      return;
    }
    ghost var b1 := fdt[..];
    FieldFrame(b, b1);
    SetField(fdt, OFF_STRUCT, (Field(fdt[..], OFF_STRUCT) + 16 * newn - 16 * oldn) % TWO32);
    SetField(fdt, OFF_STRINGS, (Field(fdt[..], OFF_STRINGS) + 16 * newn - 16 * oldn) % TWO32);
    MovedFrame(b, b1, fdt[..], p, 16 * oldn, 16 * newn);
  }

  /** The blocks behind a splice of the reserve map. */
  lemma BlocksKept(b: bytes, c: bytes, p: nat, gone: nat, room: nat)
    requires Editable(b) && BlocksMoved(b, c, p, gone, room) && HEADER_SIZE <= p
    requires p + gone <= Field(b, OFF_STRUCT) && Field(b, OFF_RSVMAP) + 16 <= Field(b, OFF_STRUCT) - gone + room
    requires DataSize(b) - gone + room <= Field(b, TOTALSIZE)
    ensures Editable(c) && Struct(c) == Struct(b) && Strings(c) == Strings(b)
  {
    hide Field;
    ShiftedBlock(b, c, p, gone, room, Field(b, OFF_STRUCT), Field(b, SIZE_STRUCT));
    ShiftedBlock(b, c, p, gone, room, Field(b, OFF_STRINGS), Field(b, SIZE_STRINGS));
  }

  lemma ShiftedBlock(b: bytes, c: bytes, p: nat, gone: nat, room: nat, o: nat, n: nat)
    requires |b| >= HEADER_SIZE && Moved(b, c, p, gone, room, HEADER_SIZE) && p + gone <= o && o + n <= DataSize(b)
    ensures var q := o - gone + room; q + n <= |c| && c[q..q + n] == b[o..o + n]
  {
    hide Field;
    var q := o - gone + room;
    SameBytes(c[q..q + n], b[o..o + n]);
  }

  // ---------------------------------------------------------------- adding

  /** `c` is `b` with the 16 bytes `x` inserted at `p` and the two blocks said to stand 16 bytes further on. */
  ghost predicate Inserted(b: bytes, c: bytes, p: nat, x: bytes)
    requires |b| >= HEADER_SIZE && |x| == 16
  {
    && |c| == |b| && HEADER_SIZE <= p <= DataSize(b) && DataSize(b) + 16 <= Field(b, TOTALSIZE) <= |b|
    && (forall k: nat | k < 10 ::
      Field(c, k) == if k == OFF_STRUCT || k == OFF_STRINGS then Field(b, k) + 16 else Field(b, k))
    && (forall i | HEADER_SIZE <= i < p :: c[i] == b[i])
    && At(c, p, x) && (forall i | p <= i < DataSize(b) :: c[i + 16] == b[i])
  }

  /** Where `fdt_add_mem_rsv` puts the entry: behind the others, or, in a map that is not terminated, at the index that
      is the error code. */
  function AddPlace(b: bytes): (p: int)
    requires Sane(b)
  {
    match CountFrom(b, 0)
    case Some(n) => EntryAt(b, n)
    case None => Field(b, OFF_RSVMAP) - 16 * ERR_TRUNCATED
  }

  /** `fdt_add_mem_rsv`.  If the entries of the map end before the structure block, the new map reads as the old one and
      the entry (readers stop at an empty one), and the rest is as before.  A map that is not terminated has to start
      far enough behind the header.  */
  method AddMemRsv(fdt: array<byte>, address: nat, size: nat) returns (err: int)
    requires Sane(fdt[..]) && Field(fdt[..], MAGIC) != SW_MAGIC
    requires Editable(fdt[..]) ==> HEADER_SIZE <= AddPlace(fdt[..])
    requires address < TWO64 && size < TWO64
    modifies fdt
    ensures var b, c := old(fdt[..]), fdt[..];
      && (RwProbe(b) != 0 ==> err == RwProbe(b))
      && (RwProbe(b) == 0 ==> Editable(b) && HEADER_SIZE <= AddPlace(b))
      && (RwProbe(b) == 0 ==> err == if AddPlace(b) > DataSize(b) then -ERR_BADOFFSET
                              else if DataSize(b) + 16 <= Field(b, TOTALSIZE) then 0 else -ERR_NOSPACE)
      && (err != 0 ==> c == b)
      && (err == 0 ==> Inserted(b, c, AddPlace(b), EncReserve(Reserve(address, size))))
      && (err == 0 && MapInData(b) && EntryAt(b, CountFrom(b, 0).value) <= Field(b, OFF_STRUCT) ==>
        MapIs(b, c, ReserveList(b).value + if size == 0 then [] else [Reserve(address, size)]))
  {
    hide Field, CountFrom, RwProbe, TreeOf, MapIs, BlocksMoved, Put, ReserveList, Inserted, Moved;
    ghost var b := fdt[..];
    ProbeIsEditable(b);
    err := RwProbe(fdt[..]);
    if err != 0 {
      return;
    }
    assert fdt[0..] == fdt[..];
    var n := NumMemRsv(fdt, 0);
    PlaceRoom(b);
    var re := Field(fdt[..], OFF_RSVMAP) + 16 * n;
    err := SpliceMemRsv(fdt, re, 0, 1);
    if err != 0 {
      return;
    }
    ghost var c := fdt[..];
    MovedRoom(b, c, re);
    MemCpy(fdt, re, BeBytes(8, address));
    MemCpy(fdt, re + 8, BeBytes(8, size));
    TwoDoubles(c, re, BeBytes(8, address), BeBytes(8, size));
    InsertedIs(b, c, fdt[..], re, EncReserve(Reserve(address, size)));
    if n >= 0 && re + 16 <= DataSize(b) && re <= Field(b, OFF_STRUCT) {
      AddedIs(b, c, fdt[..], n, Reserve(address, size));
    }
  }

  lemma PlaceRoom(b: bytes)
    requires Editable(b) && HEADER_SIZE <= AddPlace(b)
    ensures AddPlace(b) < |b| < TWO31
  {
    hide Field, CountFrom;
  }

  /** An entry added to a map that is not terminated is not in it: it stands in front of the map, which now begins with
      the 16 bytes that stood there before; the tree is as it was. */
  lemma AddLost(b: bytes, c: bytes, r: Reserve)
    requires Editable(b) && CountFrom(b, 0).None? && HEADER_SIZE <= AddPlace(b)
    requires Inserted(b, c, AddPlace(b), EncReserve(r))
    ensures var o := Field(b, OFF_RSVMAP);
      && 16 <= o && o + 16 <= |c| && Field(c, OFF_RSVMAP) == o && c[o..o + 16] == b[o - 16..o] && AddPlace(b) + 16 <= o
    ensures Editable(c) && Struct(c) == Struct(b) && Strings(c) == Strings(b) && TreeOf(c) == TreeOf(b)
  {
    hide Field, CountFrom, EncReserve, TreeOf, Inserted;
    var o, x := Field(b, OFF_RSVMAP), EncReserve(r);
    InsertedFields(b, c, AddPlace(b), x);
    InsertedPart(b, c, AddPlace(b), x, o - 16, 16);
    InsertedPart(b, c, AddPlace(b), x, Field(b, OFF_STRUCT), Field(b, SIZE_STRUCT));
    InsertedPart(b, c, AddPlace(b), x, Field(b, OFF_STRINGS), Field(b, SIZE_STRINGS));
    MapTree(b, c);
  }

  lemma InsertedFields(b: bytes, c: bytes, p: nat, x: bytes)
    requires Editable(b) && |x| == 16 && Inserted(b, c, p, x)
    ensures |c| == |b| && Editable(c)
    ensures forall k: nat | k < 10 ::
      Field(c, k) == if k == OFF_STRUCT || k == OFF_STRINGS then Field(b, k) + 16 else Field(b, k)
  {
    hide Field;
  }

  /** What stands behind the place of an insertion stands 16 bytes further on afterwards. */
  lemma InsertedPart(b: bytes, c: bytes, p: nat, x: bytes, o: nat, n: nat)
    requires |b| >= HEADER_SIZE && |x| == 16 && Inserted(b, c, p, x) && p <= o && o + n <= DataSize(b)
    ensures o + 16 + n <= |c| && o + n <= |b| && c[o + 16..o + 16 + n] == b[o..o + n]
  {
    hide Field;
    var u, w := c[o + 16..o + 16 + n], b[o..o + n];
    forall i | 0 <= i < n
      ensures u[i] == w[i]
    {
      assert u[i] == c[o + i + 16];
    }
    SameBytes(u, w);
  }

  lemma MovedRoom(b: bytes, c: bytes, p: nat)
    requires Editable(b) && BlocksMoved(b, c, p, 0, 16)
    ensures p + 16 <= |c|
  {
    hide Field;
  }

  lemma InsertedIs(b: bytes, c: bytes, d: bytes, p: nat, x: bytes)
    requires Editable(b) && BlocksMoved(b, c, p, 0, 16) && HEADER_SIZE <= p && |x| == 16 && p + 16 <= |c|
    requires d == Put(c, p, x)
    requires DataSize(b) + 16 <= Field(b, TOTALSIZE)
    ensures Inserted(b, d, p, x)
  {
    hide Field;
    FieldFrame(c, d);
    PutInside(c, p, x);
  }

  lemma MapRoom(b: bytes, n: nat)
    requires Mapped(b) && CountFrom(b, 0) == Some(n)
    ensures HEADER_SIZE <= EntryAt(b, n) && EntryAt(b, n) + 16 <= |b| < TWO31
    ensures ReserveList(b) == Some(ReservesAt(b, Field(b, OFF_RSVMAP), n))
  {
    hide Field;
  }

  lemma TwoDoubles(c: bytes, p: nat, x: bytes, y: bytes)
    requires p + |x| + |y| <= |c|
    ensures Put(Put(c, p, x), p + |x|, y) == Put(c, p, x + y)
  {
    SameBytes(Put(Put(c, p, x), p + |x|, y), Put(c, p, x + y));
  }

  lemma AddedIs(b: bytes, c: bytes, d: bytes, n: nat, r: Reserve)
    requires MapInData(b) && CountFrom(b, 0) == Some(n) && Fits64(r)
    requires var p := EntryAt(b, n);
      && p <= Field(b, OFF_STRUCT) && BlocksMoved(b, c, p, 0, 16) && p + 16 <= |c| && d == Put(c, p, EncReserve(r))
    requires DataSize(b) + 16 <= Field(b, TOTALSIZE)
    ensures MapIs(b, d, ReserveList(b).value + if r.size == 0 then [] else [r])
  {
    hide Field, CountFrom, ReserveAt, Be, EncReserve, TreeOf;
    MapRoom(b, n);
    var o := Field(b, OFF_RSVMAP);
    var p := o + 16 * n;
    BlocksKept(b, c, p, 0, 16);
    RoomKept(c, d, p, EncReserve(r));
    AddedEntries(b, c, d, n, r);
    CountEntries(b, n, 0);
    var rs := ReservesAt(b, o, n);
    ReserveListIs(d, n + 1);
    UpToEmptySnoc(rs, r);
    MapTree(b, d);
  }

  /** Bytes written between the header and the structure block leave the blocks alone. */
  lemma RoomKept(c: bytes, d: bytes, p: nat, x: bytes)
    requires Editable(c) && HEADER_SIZE <= p && p + |x| <= Field(c, OFF_STRUCT) && d == Put(c, p, x)
    ensures Editable(d) && Struct(d) == Struct(c) && Strings(d) == Strings(c)
    ensures forall k: nat | k < 10 :: Field(d, k) == Field(c, k)
  {
    hide Field;
    FieldFrame(c, d);
    SameBytes(Struct(d), Struct(c));
    SameBytes(Strings(d), Strings(c));
  }

  lemma AddedEntries(b: bytes, c: bytes, d: bytes, n: nat, r: Reserve)
    requires Mapped(b) && CountFrom(b, 0) == Some(n) && Fits64(r) && |d| == |c|
    requires var p := EntryAt(b, n);
      && p + 16 <= DataSize(b) && BlocksMoved(b, c, p, 0, 16) && p + 32 <= |c| && d == Put(c, p, EncReserve(r))
    ensures var o := Field(b, OFF_RSVMAP);
      && ReservesAt(d, o, n + 1) == ReservesAt(b, o, n) + [r]
      && ReserveAt(d, o + 16 * (n + 1)) == ReserveAt(b, o + 16 * n)
  {
    hide Field, CountFrom, ReserveAt, Be, EncReserve;
    MapRoom(b, n);
    var o := Field(b, OFF_RSVMAP);
    var p := o + 16 * n;
    SameBytes(d[o..p], b[o..p]);
    SameReserves(b, d, o, o, n);
    PutInside(c, p, EncReserve(r));
    EncReserveAt(d, p, r);
    ShiftedBlock(b, c, p, 0, 16, p, 16);
    PutOutside(c, p, EncReserve(r), p + 16, p + 32);
    SameReserve(b, d, p, p + 16);
    assert ReservesAt(d, o, n + 1) == ReservesAt(d, o, n) + [ReserveAt(d, p)];
  }

  lemma {:induction false} UpToEmptySnoc(rs: seq<Reserve>, r: Reserve)
    requires forall i | 0 <= i < |rs| :: rs[i].size != 0
    ensures UpToEmpty(rs + [r]) == rs + if r.size == 0 then [] else [r]
  {
    if rs != [] {
      assert (rs + [r])[1..] == rs[1..] + [r];
      UpToEmptySnoc(rs[1..], r);
      assert rs == [rs[0]] + rs[1..];
    }
  }

  // ---------------------------------------------------------------- deleting

  /** `c` is `b` without the 16 bytes at `p`, and the two blocks are said to stand 16 bytes earlier. */
  ghost predicate Removed(b: bytes, c: bytes, p: nat)
    requires |b| >= HEADER_SIZE
  {
    && |c| == |b| && HEADER_SIZE <= p && p + 16 <= DataSize(b) <= |b|
    && (forall k: nat | k < 10 ::
      Field(c, k) == if k == OFF_STRUCT || k == OFF_STRINGS then Field(b, k) - 16 else Field(b, k))
    && (forall i | HEADER_SIZE <= i < p :: c[i] == b[i])
    && (forall i | p + 16 <= i < DataSize(b) :: c[i - 16] == b[i])
  }

  /** `fdt_del_mem_rsv`: the entry is cut out, wherever it is.  If it ends before the structure block, and that has room
      to move up, the other entries close up and the rest is as before.  In a map that is not terminated there is no
      entry to delete. */
  method DelMemRsv(fdt: array<byte>, n: nat) returns (err: int)
    requires Sane(fdt[..]) && Field(fdt[..], MAGIC) != SW_MAGIC
    modifies fdt
    ensures var b, c := old(fdt[..]), fdt[..];
      && (RwProbe(b) != 0 ==> err == RwProbe(b))
      && (RwProbe(b) == 0 ==> Editable(b))
      && (RwProbe(b) == 0 ==> err == if ReserveList(b).None? || n >= |ReserveList(b).value| then -ERR_NOTFOUND
                              else if EntryAt(b, n) + 16 > DataSize(b) then -ERR_BADOFFSET else 0)
      && (err != 0 ==> c == b)
      && (err == 0 ==> Removed(b, c, EntryAt(b, n)) && Mapped(b) && n < |ReserveList(b).value|)
      && (err == 0 && MapInData(b) && EntryAt(b, n) + 16 <= Field(b, OFF_STRUCT)
          && EntryAt(b, 2) <= Field(b, OFF_STRUCT) ==>
        MapIs(b, c, ReserveList(b).value[..n] + ReserveList(b).value[n + 1..]))
  {
    hide Field, CountFrom, RwProbe, TreeOf, MapIs, BlocksMoved, Put, ReserveList, Removed;
    ghost var b := fdt[..];
    var re := Field(fdt[..], OFF_RSVMAP) + 16 * n;
    ProbeIsEditable(b);
    err := RwProbe(fdt[..]);
    if err != 0 {
      return;
    }
    assert fdt[0..] == fdt[..];
    var num := NumMemRsv(fdt, 0);
    ListCount(b);
    if n >= num {
      return -ERR_NOTFOUND;
    }
    MapRoom(b, num);
    EditableRoom(b);
    err := SpliceMemRsv(fdt, re, 1, 0);
    if err != 0 {
      return;
    }
    RemovedIs(b, fdt[..], re);
    if MapInData(b) && re + 16 <= Field(b, OFF_STRUCT) && Field(b, OFF_RSVMAP) + 32 <= Field(b, OFF_STRUCT) {
      DeletedIs(b, fdt[..], num, n);
    }
  }

  lemma ListCount(b: bytes)
    requires Sane(b)
    ensures match CountFrom(b, 0)
      case None => ReserveList(b).None?
      case Some(n) => ReserveList(b).Some? && |ReserveList(b).value| == n
  {
    hide CountFrom, Field, ReserveAt;
  }

  lemma RemovedIs(b: bytes, d: bytes, p: nat)
    requires Editable(b) && BlocksMoved(b, d, p, 16, 0) && HEADER_SIZE <= p
    ensures Removed(b, d, p)
  {
    hide Field;
    forall i | p + 16 <= i < DataSize(b)
      ensures d[i - 16] == b[i]
    {
      assert d[i - 16] == b[i - 16 - 0 + 16];
    }
  }

  lemma EditableRoom(b: bytes)
    requires Editable(b)
    ensures DataSize(b) <= Field(b, TOTALSIZE)
  {
  }

  lemma DeletedIs(b: bytes, d: bytes, num: nat, k: nat)
    requires MapInData(b) && CountFrom(b, 0) == Some(num) && k < num
    requires EntryAt(b, k) + 16 <= Field(b, OFF_STRUCT) && EntryAt(b, 2) <= Field(b, OFF_STRUCT)
    requires BlocksMoved(b, d, Field(b, OFF_RSVMAP) + 16 * k, 16, 0)
    ensures var rs := ReserveList(b).value; |rs| == num && MapIs(b, d, rs[..k] + rs[k + 1..])
  {
    hide Field, CountFrom, ReserveAt, Be, TreeOf;
    MapRoom(b, num);
    var o := Field(b, OFF_RSVMAP);
    BlocksKept(b, d, o + 16 * k, 16, 0);
    DeletedEntries(b, d, num, k);
    CountEntries(b, num, 0);
    ReserveListIs(d, num - 1);
    UpToEmptyIsAll(ReservesAt(d, o, num - 1));
    MapTree(b, d);
  }

  lemma DeletedEntries(b: bytes, d: bytes, num: nat, k: nat)
    requires MapInData(b) && CountFrom(b, 0) == Some(num) && k < num
    requires BlocksMoved(b, d, Field(b, OFF_RSVMAP) + 16 * k, 16, 0)
    ensures var o := Field(b, OFF_RSVMAP); var rs := ReservesAt(b, o, num);
      && o + 16 * num <= |d|
      && ReservesAt(d, o, num - 1) == rs[..k] + rs[k + 1..]
      && ReserveAt(d, o + 16 * (num - 1)) == ReserveAt(b, o + 16 * num)
  {
    hide Field, CountFrom, ReserveAt, Be;
    MapRoom(b, num);
    var o := Field(b, OFF_RSVMAP);
    var p := o + 16 * k;
    var m := num - 1 - k;
    SameBytes(d[o..p], b[o..p]);
    SameReserves(b, d, o, o, k);
    ShiftedBlock(b, d, p, 16, 0, p + 16, 16 * m);
    SameReserves(b, d, p + 16, p, m);
    ShiftedBlock(b, d, p, 16, 0, o + 16 * num, 16);
    SameReserve(b, d, o + 16 * num, o + 16 * (num - 1));
    var rs := ReservesAt(b, o, num);
    SplitMap(d, o, k, m);
    SplitMap(b, o, k, 1 + m);
    SplitMap(b, p, 1, m);
    assert rs[k + 1..] == ReservesAt(b, p + 16, m);
  }

  lemma SplitMap(b: bytes, o: nat, k: nat, m: nat)
    requires o + 16 * (k + m) <= |b|
    ensures ReservesAt(b, o, k + m) == ReservesAt(b, o, k) + ReservesAt(b, o + 16 * k, m)
  {
    hide ReserveAt;
    var x, y := ReservesAt(b, o, k + m), ReservesAt(b, o, k) + ReservesAt(b, o + 16 * k, m);
    forall i | 0 <= i < k + m ensures x[i] == y[i] {
      if i >= k {
        assert o + 16 * i == o + 16 * k + 16 * (i - k);
      }
    }
  }
}
