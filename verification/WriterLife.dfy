/** The life of a blob under construction: creating it, filling the reserve map, moving it to another buffer, and
    finishing it into a blob that readers accept. */
module WriterLife {
  import opened Bytes
  import opened Format
  import opened Reserves
  import opened TokenLog
  import opened Writer

  // ---------------------------------------------------------------- creation

  method MemSet(mem: array<byte>, n: nat)
    requires n <= mem.Length
    modifies mem
    ensures forall i | 0 <= i < mem.Length :: mem[i] == if i < n then 0 else old(mem[i])
  {
    var k := 0;
    while k < n
      invariant 0 <= k <= n
      invariant forall i | 0 <= i < mem.Length :: mem[i] == if i < k then 0 else old(mem[i])
    {
      mem[k] := 0;
      k := k + 1;
    }
  }

  lemma ZeroField(b: bytes, k: nat)
    requires |b| >= HEADER_SIZE && k < 10 && forall i | 0 <= i < HEADER_SIZE :: b[i] == 0
    ensures Field(b, k) == 0
  {
    var w := b[4 * k..4 * k + 4];
    assert w == [0, 0, 0, 0];
    Radix4();
    BeOfBytes(4, 0);
    assert BeBytes(2, 0) == [0, 0];
    assert BeBytes(4, 0) == w;
  }

  /** `fdt_create_with_flags`. */
  method CreateWithFlags(buf: array<byte>, bufsize: int, flags: int) returns (err: int)
    requires bufsize <= buf.Length < TWO31 && 0 <= flags < TWO32
    modifies buf
    ensures err == if bufsize < RSV_START then -ERR_NOSPACE else if flags > 1 then -ERR_BADFLAGS else 0
    ensures err != 0 ==> buf[..] == old(buf[..])
    ensures err == 0 ==> Writing(buf[..]) && DraftOf(buf[..]) == Draft([], false, [])
    ensures err == 0 ==> Field(buf[..], TOTALSIZE) == bufsize && (NoDedup(buf[..]) <==> flags == 1)
  {
    hide Field;
    if bufsize < RSV_START {
      return -ERR_NOSPACE;
    }
    if flags / 2 != 0 { // flags & ~FDT_CREATE_FLAGS_ALL
      return -ERR_BADFLAGS;
    }
    MemSet(buf, bufsize);
    forall k: nat | k < 10 ensures Field(buf[..], k) == 0 {
      ZeroField(buf[..], k);
    }
    SetField(buf, MAGIC, SW_MAGIC);
    SetField(buf, VERSION, 17);
    SetField(buf, LAST_COMP, flags);
    SetField(buf, TOTALSIZE, bufsize);
    SetField(buf, OFF_RSVMAP, RSV_START);
    SetField(buf, OFF_STRUCT, Field(buf[..], OFF_RSVMAP));
    SetField(buf, OFF_STRINGS, 0);
    NothingWritten(buf[..], 0);
    return 0;
  }

  /** A blob whose structure block is still empty. */
  lemma NothingWritten(b: bytes, n: nat)
    requires Shape(b) && !Building(b) && Field(b, OFF_STRUCT) == RSV_START + 16 * n
    ensures Writing(b) && DraftOf(b) == Draft(ReservesAt(b, RSV_START, n), false, [])
  {
    hide Field, ReserveAt;
    assert Written(b) == [];
  }

  // ---------------------------------------------------------------- the reserve map

  /** `fdt_add_reservemap_entry`. */
  method AddReservemapEntry(fdt: array<byte>, address: nat, size: nat) returns (err: int)
    requires Callable(fdt[..]) && address < TWO64 && size < TWO64
    modifies fdt
    ensures var b := old(fdt[..]); var c := fdt[..];
      && (ProbeMemrsv(b) != 0 ==> err == ProbeMemrsv(b))
      && (ProbeMemrsv(b) == 0 ==> err == if 16 <= Room(b) then 0 else -ERR_NOSPACE)
      && (err != 0 ==> c == b)
      && (err == 0 ==>
           Writing(c) && DraftOf(c) == DraftOf(b).(reserves := DraftOf(b).reserves + [Reserve(address, size)]))
      && (err == 0 ==> Field(c, TOTALSIZE) == Field(b, TOTALSIZE) && Field(c, LAST_COMP) == Field(b, LAST_COMP))
  {
    hide Field, Scan, Resolved, Be;
    if ProbeMemrsv(fdt[..]) != 0 {
      return ProbeMemrsv(fdt[..]);
    }
    ghost var b := fdt[..];
    var offset := Field(fdt[..], OFF_STRUCT);
    if offset + 16 > Field(fdt[..], TOTALSIZE) {
      return -ERR_NOSPACE;
    }
    MemCpy(fdt, offset, BeBytes(8, address));
    MemCpy(fdt, offset + 8, BeBytes(8, size));
    ghost var b1 := fdt[..];
    FieldFrame(b, b1);
    SetField(fdt, OFF_STRUCT, offset + 16);
    EntryIs(b, fdt[..], Reserve(address, size));
    return 0;
  }

  lemma EntryIs(b: bytes, c: bytes, r: Reserve)
    requires Writing(b) && !Building(b) && 16 <= Room(b) && |c| == |b| && Fits64(r)
    requires forall k: nat | k < 10 && k != OFF_STRUCT :: Field(c, k) == Field(b, k)
    requires Field(c, OFF_STRUCT) == Field(b, OFF_STRUCT) + 16
    requires forall i | RSV_START <= i < Field(b, OFF_STRUCT) :: c[i] == b[i]
    requires forall i | 0 <= i < 8 :: c[Field(b, OFF_STRUCT) + i] == BeBytes(8, r.address)[i]
    requires forall i | 0 <= i < 8 :: c[Field(b, OFF_STRUCT) + 8 + i] == BeBytes(8, r.size)[i]
    ensures Writing(c) && DraftOf(c) == DraftOf(b).(reserves := DraftOf(b).reserves + [r])
  {
    hide Field, ReserveAt, Be;
    var p, n := Field(b, OFF_STRUCT), Reserved(b);
    SameBytes(c[p..p + 16], EncReserve(r));
    EncReserveAt(c, p, r);
    SameBytes(c[RSV_START..p], b[RSV_START..p]);
    SameReserves(b, c, RSV_START, RSV_START, n);
    NothingWritten(b, n);
    NothingWritten(c, n + 1);
    assert ReservesAt(c, RSV_START, n + 1) == ReservesAt(c, RSV_START, n) + [ReserveAt(c, p)];
  }

  /** `fdt_finish_reservemap`. */
  method FinishReservemap(fdt: array<byte>) returns (err: int)
    requires Callable(fdt[..])
    modifies fdt
    ensures var b := old(fdt[..]); var c := fdt[..];
      && (ProbeMemrsv(b) != 0 ==> err == ProbeMemrsv(b))
      && (ProbeMemrsv(b) == 0 ==> err == if 16 <= Room(b) then 0 else -ERR_NOSPACE)
      && (err != 0 ==> c == b)
      && (err == 0 ==> Writing(c) && DraftOf(c) == DraftOf(b).(building := true))
      && (err == 0 ==> Field(c, TOTALSIZE) == Field(b, TOTALSIZE) && Field(c, LAST_COMP) == Field(b, LAST_COMP))
      && (err == 0 ==> Pool(c) == [] && Room(c) == Room(b) - 16)
  {
    hide Field, Scan, Resolved, Be, DraftOf;
    ghost var b := fdt[..];
    err := AddReservemapEntry(fdt, 0, 0);
    if err != 0 {
      return;
    }
    ghost var b1 := fdt[..];
    SetField(fdt, OFF_STRINGS, Field(fdt[..], TOTALSIZE));
    TerminatedIs(b, b1, fdt[..]);
    TerminatedRoom(b, b1, fdt[..]);
  }

  lemma TerminatedRoom(b: bytes, b1: bytes, c: bytes)
    requires Writing(b) && !Building(b) && Writing(b1) && Writing(c) && |c| == |b1|
    requires DraftOf(b1) == DraftOf(b).(reserves := DraftOf(b).reserves + [Reserve(0, 0)])
    requires Field(b1, TOTALSIZE) == Field(b, TOTALSIZE)
    requires forall k: nat | k < 10 && k != OFF_STRINGS :: Field(c, k) == Field(b1, k)
    ensures Pool(c) == [] && Room(c) == Room(b) - 16
  {
    hide Field, ReserveAt, Be;
    assert |DraftOf(b1).reserves| == Reserved(b) + 1 && Reserved(b1) == Reserved(b) + 1;
  }

  lemma TerminatedIs(b: bytes, b1: bytes, c: bytes)
    requires Writing(b) && !Building(b) && Writing(b1) && |c| == |b1|
    requires DraftOf(b1) == DraftOf(b).(reserves := DraftOf(b).reserves + [Reserve(0, 0)])
    requires forall k: nat | k < 10 && k != OFF_STRINGS :: Field(c, k) == Field(b1, k)
    requires Field(c, OFF_STRINGS) == Field(b1, TOTALSIZE)
    requires forall i | HEADER_SIZE <= i < |b1| :: c[i] == b1[i]
    ensures Writing(c) && DraftOf(c) == DraftOf(b).(building := true)
  {
    hide Field, ReserveAt, Be;
    var n := Reserved(b);
    var e := RSV_START + 16 * n;
    assert |DraftOf(b1).reserves| == n + 1;
    assert Reserved(b1) == n + 1 && Reserved(c) == n;
    SameBytes(c[RSV_START..e], b1[RSV_START..e]);
    SameReserves(b1, c, RSV_START, RSV_START, n);
    assert ReservesAt(b1, RSV_START, n) == DraftOf(b1).reserves[..n] == DraftOf(b).reserves;
    SameBytes(c[e..e + 16], b1[e..e + 16]);
    SameReserve(b1, c, e, e);
    assert ReserveAt(b1, e) == DraftOf(b1).reserves[n];
    assert Written(c) == [] == Written(b);
  }

  // ---------------------------------------------------------------- moving to another buffer

  /** `fdt_resize`: the blob at `fdt` moves to `buf`, in the same memory, so that the two may overlap either way. */
  method Resize(mem: array<byte>, fdt: nat, buf: nat, bufsize: int) returns (err: int)
    requires fdt <= mem.Length && Callable(mem[fdt..]) && buf <= mem.Length < TWO31
    requires buf + bufsize <= mem.Length
    modifies mem
    ensures var b := old(mem[fdt..]); var c := mem[buf..];
      && (Probe(b) != 0 ==> err == Probe(b))
      && (Probe(b) == 0 ==> err == if Top(b) + Field(b, SIZE_STRINGS) <= bufsize then 0 else -ERR_NOSPACE)
      && (err != 0 ==> mem[..] == old(mem[..]))
      && (err == 0 ==> Writing(c) && DraftOf(c) == DraftOf(b) && Field(c, TOTALSIZE) == bufsize)
  {
    hide Field, Scan, Resolved, Be, DraftOf, Carried, Reheaded, Pool, Written, Writing;
    var probe := Probe(mem[fdt..]);
    if probe != 0 {
      return probe;
    }
    ghost var b, was := mem[fdt..], mem[..];
    ShapeOf(b);
    if bufsize < 0 {
      return -ERR_NOSPACE;
    }
    var total := Field(mem[fdt..], TOTALSIZE);
    var headsize := Field(mem[fdt..], OFF_STRUCT) + Field(mem[fdt..], SIZE_STRUCT);
    var tailsize := Field(mem[fdt..], SIZE_STRINGS);
    if headsize + tailsize > total {
      return -ERR_INTERNAL;
    }
    if headsize + tailsize > bufsize {
      return -ERR_NOSPACE;
    }
    var oldtail := fdt + total - tailsize;
    var newtail := buf + bufsize - tailsize;
    MoveBoth(mem, fdt, buf, headsize, oldtail, newtail, tailsize);
    ghost var c := mem[buf..];
    MovedSlices(b, c, was, mem[..], fdt, buf, bufsize);
    Rehead(mem, buf, bufsize);
    CarriedDraft(b, c, mem[buf..], bufsize);
    return 0;
  }

  /** The header of the moved blob. */
  method Rehead(mem: array<byte>, buf: nat, bufsize: nat)
    requires buf + HEADER_SIZE <= mem.Length && bufsize < TWO32
    modifies mem
    ensures Reheaded(old(mem[buf..]), mem[buf..], bufsize)
  {
    hide Field;
    SetFieldAt(mem, buf, TOTALSIZE, bufsize);
    if Field(mem[buf..], OFF_STRINGS) != 0 {
      SetFieldAt(mem, buf, OFF_STRINGS, bufsize);
    }
  }

  ghost predicate Reheaded(c: bytes, d: bytes, size: int)
    requires |c| >= HEADER_SIZE
  {
    && |d| == |c|
    && (forall k: nat | k < 10 && k != TOTALSIZE && k != OFF_STRINGS :: Field(d, k) == Field(c, k))
    && Field(d, TOTALSIZE) == size && Field(d, OFF_STRINGS) == (if Field(c, OFF_STRINGS) != 0 then size else 0)
    && (forall i | HEADER_SIZE <= i < |c| :: d[i] == c[i])
  }

  /** The two copies of `fdt_resize`, in the order that clobbers neither. */
  method MoveBoth(mem: array<byte>, fdt: nat, buf: nat, headsize: nat, oldtail: nat, newtail: nat, tailsize: nat)
    requires fdt + headsize <= oldtail && oldtail + tailsize <= mem.Length
    requires buf + headsize <= newtail && newtail + tailsize <= mem.Length
    modifies mem
    ensures mem[buf..buf + headsize] == old(mem[fdt..fdt + headsize])
    ensures mem[newtail..newtail + tailsize] == old(mem[oldtail..oldtail + tailsize])
  {
    hide Put;
    ghost var m := mem[..];
    if buf <= fdt {
      MemMove(mem, buf, fdt, headsize);
      MemMove(mem, newtail, oldtail, tailsize);
      TwoMoves(m, buf, fdt, headsize, newtail, oldtail, tailsize);
    } else {
      MemMove(mem, newtail, oldtail, tailsize);
      MemMove(mem, buf, fdt, headsize);
      TwoMoves(m, newtail, oldtail, tailsize, buf, fdt, headsize);
    }
  }

  /** Two copies, the first of which does not touch what the second reads, nor the second what the first wrote. */
  lemma TwoMoves(m: bytes, d: nat, s: nat, n: nat, d': nat, s': nat, n': nat)
    requires d + n <= |m| && s + n <= |m| && d' + n' <= |m| && s' + n' <= |m|
    requires s' + n' <= d || d + n <= s'
    requires d + n <= d' || d' + n' <= d
    ensures var m1 := Put(m, d, m[s..s + n]); var m2 := Put(m1, d', m1[s'..s' + n']);
      m2[d..d + n] == m[s..s + n] && m2[d'..d' + n'] == m[s'..s' + n']
  {
    hide Put;
    var m1 := Put(m, d, m[s..s + n]);
    PutInside(m, d, m[s..s + n]);
    PutOutside(m, d, m[s..s + n], s', s' + n');
    PutInside(m1, d', m1[s'..s' + n']);
    PutOutside(m1, d', m1[s'..s' + n'], d, d + n);
  }

  /** The head of `b` stands at the front of `c`, the strings at the end of its first `size` bytes. */
  ghost predicate Carried(b: bytes, c: bytes, size: int)
    requires Shape(b)
  {
    var tail := Field(b, SIZE_STRINGS);
    && |c| < TWO31 && Top(b) + tail <= size <= |c|
    && c[..Top(b)] == b[..Top(b)] && c[size - tail..size] == Pool(b)
  }

  lemma MovedSlices(b: bytes, c: bytes, was: bytes, m: bytes, fdt: nat, buf: nat, size: nat)
    requires fdt <= |was| && b == was[fdt..] && Shape(b) && buf <= |m| < TWO31 && c == m[buf..]
    requires Top(b) + Field(b, SIZE_STRINGS) <= size && buf + size <= |m|
    requires m[buf..buf + Top(b)] == was[fdt..fdt + Top(b)]
    requires m[buf + size - Field(b, SIZE_STRINGS)..buf + size] == was[fdt + Low(b)..fdt + Field(b, TOTALSIZE)]
    ensures Carried(b, c, size)
  {
    hide Field;
    var tail := Field(b, SIZE_STRINGS);
    var n := |m| - buf;
    assert c == m[buf..buf + n];
    SliceOfSlice(m, buf, n, 0, Top(b));
    SliceOfSlice(m, buf, n, size - tail, size);
    assert b == was[fdt..fdt + |b|];
    SliceOfSlice(was, fdt, |b|, 0, Top(b));
    SliceOfSlice(was, fdt, |b|, Low(b), Field(b, TOTALSIZE));
  }

  lemma CarriedFields(b: bytes, c: bytes, size: int)
    requires Shape(b) && Carried(b, c, size)
    ensures forall k: nat | k < 10 :: Field(c, k) == Field(b, k)
  {
    forall i | 0 <= i < HEADER_SIZE ensures c[i] == b[i] {
      assert c[i] == c[..Top(b)][i] == b[..Top(b)][i];
    }
    FieldFrame(b, c);
  }

  lemma CarriedDraft(b: bytes, c: bytes, d: bytes, size: int)
    requires Writing(b) && Carried(b, c, size) && |c| >= HEADER_SIZE && Reheaded(c, d, size)
    ensures Writing(d) && DraftOf(d) == DraftOf(b) && Field(d, TOTALSIZE) == size
  {
    hide Field, Scan, Resolved, Be, DraftOf, Writing;
    ShapeOf(b);
    CarriedFields(b, c, size);
    forall i | HEADER_SIZE <= i < Top(b) ensures d[i] == b[i] {
      assert c[i] == c[..Top(b)][i] == b[..Top(b)][i];
    }
    SameBytes(Written(d), Written(b));
    SameBytes(Pool(d), c[size - Field(b, SIZE_STRINGS)..size]);
    SameDraft(b, d);
  }
}
