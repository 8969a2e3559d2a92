/** The memory reserve map: a table of address and size pairs that ends at the first entry of size 0. */
module Reserves {
  import opened Bytes
  import opened Format
  import opened Tree
  import opened Blob

  const TWO64: int := TWO32 * TWO32

  /** One entry; both words are 64 bits wide. */
  datatype Reserve = Reserve(address: nat, size: nat)

  /** `fdt64_to_cpu` of the 8 bytes at `p`. */
  function Double(b: bytes, p: nat): (v: nat)
    requires p + 8 <= |b|
  {
    Be(b[p..p + 8])
  }

  function ReserveAt(b: bytes, p: nat): (r: Reserve)
    requires p + 16 <= |b|
  {
    Reserve(Double(b, p), Double(b, p + 8))
  }

  /** The `n` entries that start at `p`. */
  function ReservesAt(b: bytes, p: nat, n: nat): (r: seq<Reserve>)
    requires p + 16 * n <= |b|
    ensures |r| == n
  {
    seq(n, i requires 0 <= i < n => ReserveAt(b, p + 16 * i))
  }

  lemma SameReserve(b: bytes, c: bytes, p: nat, q: nat)
    requires p + 16 <= |b| && q + 16 <= |c| && c[q..q + 16] == b[p..p + 16]
    ensures ReserveAt(c, q) == ReserveAt(b, p)
  {
    hide Be;
    SliceOfSlice(b, p, 16, 0, 8);
    SliceOfSlice(b, p, 16, 8, 16);
    SliceOfSlice(c, q, 16, 0, 8);
    SliceOfSlice(c, q, 16, 8, 16);
  }

  lemma SameReserves(b: bytes, c: bytes, p: nat, q: nat, n: nat)
    requires p + 16 * n <= |b| && q + 16 * n <= |c| && c[q..q + 16 * n] == b[p..p + 16 * n]
    ensures ReservesAt(c, q, n) == ReservesAt(b, p, n)
  {
    hide ReserveAt;
    forall i | 0 <= i < n ensures ReserveAt(c, q + 16 * i) == ReserveAt(b, p + 16 * i) {
      SliceOfSlice(b, p, 16 * n, 16 * i, 16 * i + 16);
      SliceOfSlice(c, q, 16 * n, 16 * i, 16 * i + 16);
      SameReserve(b, c, p + 16 * i, q + 16 * i);
    }
  }

  /** `cpu_to_fdt64` of both words. */
  function EncReserve(r: Reserve): (x: bytes)
    ensures |x| == 16
  {
    BeBytes(8, r.address) + BeBytes(8, r.size)
  }

  predicate Fits64(r: Reserve) { r.address < TWO64 && r.size < TWO64 }

  lemma EncReserveAt(b: bytes, p: nat, r: Reserve)
    requires Fits64(r) && At(b, p, EncReserve(r))
    ensures ReserveAt(b, p) == r
  {
    Radix4();
    assert Radix(8) == TWO64;
    BeOfBytes(8, r.address);
    BeOfBytes(8, r.size);
    AtSplit(b, p, BeBytes(8, r.address), BeBytes(8, r.size));
  }

  // ---------------------------------------------------------------- reading the map

  /** `fdt_mem_rsv`: the position of entry `n`, with the source's 32-bit sums. */
  function Slot(b: bytes, n: nat): (p: Option<nat>)
    requires |b| >= HEADER_SIZE && 16 * n < TWO32
  {
    var absoffset := (Field(b, OFF_RSVMAP) + 16 * n) % TWO32;
    if absoffset < Field(b, OFF_RSVMAP) || absoffset > Field(b, TOTALSIZE) - 16 then None
    else Some(Field(b, OFF_RSVMAP) + 16 * n)
  }

  /** The 32-bit checks accept exactly the entries inside the blob. */
  lemma SlotIs(b: bytes, n: nat)
    requires Sane(b) && 16 * n < TWO32
    ensures Slot(b, n).Some? <==> Field(b, OFF_RSVMAP) + 16 * n + 16 <= Field(b, TOTALSIZE)
  {
    hide Field;
  }

  /** The index of the first entry of size 0 at or after entry `i`. */
  function CountFrom(b: bytes, i: nat): (n: Option<nat>)
    requires Sane(b)
    ensures n.Some? ==> i <= n.value && Field(b, OFF_RSVMAP) + 16 * n.value + 16 <= Field(b, TOTALSIZE)
    decreases Field(b, TOTALSIZE) - 16 * i
  {
    hide Field;
    var p := Field(b, OFF_RSVMAP) + 16 * i;
    if p + 16 > Field(b, TOTALSIZE) then None
    else if Double(b, p + 8) == 0 then Some(i)
    else CountFrom(b, i + 1)
  }

  /** The reserve map as a client reads it. */
  function ReserveList(b: bytes): (r: Option<seq<Reserve>>)
    requires Sane(b)
  {
    match CountFrom(b, 0)
    case None => None
    case Some(n) => Some(ReservesAt(b, Field(b, OFF_RSVMAP), n))
  }

  /** `fdt_num_mem_rsv` of the blob at `base`. */
  method NumMemRsv(mem: array<byte>, base: nat) returns (r: int)
    requires base <= mem.Length && Sane(mem[base..])
    ensures match CountFrom(mem[base..], 0)
      case None => r == -ERR_TRUNCATED
      case Some(n) => r == n
  {
    hide Field, Be;
    ghost var b := mem[base..];
    var i := 0;
    SlotIs(mem[base..], i);
    var re := Slot(mem[base..], i);
    while re.Some?
      invariant 0 <= i && 16 * i < TWO31 && re == Slot(b, i)
      invariant re.Some? <==> Field(b, OFF_RSVMAP) + 16 * i + 16 <= Field(b, TOTALSIZE)
      invariant CountFrom(b, 0) == CountFrom(b, i)
      decreases TWO32 - i
    {
      if Double(mem[base..], re.value + 8) == 0 {
        return i;
      }
      i := i + 1;
      SlotIs(mem[base..], i);
      re := Slot(mem[base..], i);
    }
    return -ERR_TRUNCATED;
  }

  /** The entries before the first one of size 0: what a reader makes of the table `rs`. */
  function UpToEmpty(rs: seq<Reserve>): (r: seq<Reserve>)
    ensures |r| <= |rs|
  {
    if rs == [] || rs[0].size == 0 then [] else [rs[0]] + UpToEmpty(rs[1..])
  }

  /** Nothing is lost exactly when no entry is empty. */
  lemma {:induction false} UpToEmptyIsAll(rs: seq<Reserve>)
    ensures UpToEmpty(rs) == rs <==> forall i | 0 <= i < |rs| :: rs[i].size != 0
  {
    if rs != [] && rs[0].size != 0 {
      UpToEmptyIsAll(rs[1..]);
      assert rs == [rs[0]] + rs[1..];
      assert forall i | 0 <= i < |rs[1..]| :: rs[1..][i] == rs[i + 1];
    }
  }

  /** A table of `rs` entries and a terminator is read as `rs` up to its first empty entry. */
  lemma ReserveListIs(b: bytes, n: nat)
    requires Sane(b) && Field(b, OFF_RSVMAP) + 16 * n + 16 <= Field(b, TOTALSIZE)
    requires ReserveAt(b, Field(b, OFF_RSVMAP) + 16 * n).size == 0
    ensures ReserveList(b) == Some(UpToEmpty(ReservesAt(b, Field(b, OFF_RSVMAP), n)))
  {
    hide Field, Be;
    ListFrom(b, n, 0);
    var off := Field(b, OFF_RSVMAP);
    var rs := ReservesAt(b, off, n);
    assert rs[0..] == rs;
    var k := CountFrom(b, 0).value;
    assert ReservesAt(b, off, n)[0..k] == ReservesAt(b, off, k);
  }

  lemma {:induction false} ListFrom(b: bytes, n: nat, i: nat)
    requires Sane(b) && Field(b, OFF_RSVMAP) + 16 * n + 16 <= Field(b, TOTALSIZE) && i <= n
    requires ReserveAt(b, Field(b, OFF_RSVMAP) + 16 * n).size == 0
    ensures CountFrom(b, i).Some? && CountFrom(b, i).value <= n
    ensures var rs := ReservesAt(b, Field(b, OFF_RSVMAP), n); UpToEmpty(rs[i..]) == rs[i..CountFrom(b, i).value]
    decreases n - i
  {
    hide Field, Be;
    var rs := ReservesAt(b, Field(b, OFF_RSVMAP), n);
    if i < n && rs[i].size != 0 {
      ListFrom(b, n, i + 1);
      assert rs[i..][1..] == rs[i + 1..];
      assert rs[i..CountFrom(b, i).value] == [rs[i]] + rs[i + 1..CountFrom(b, i).value];
    }
  }

  /** A reserve map carried to another blob reads the same. */
  lemma CarriedMap(b: bytes, c: bytes, n: nat)
    requires Sane(b) && Sane(c) && CountFrom(b, 0) == Some(n)
    requires var p, q := Field(b, OFF_RSVMAP), Field(c, OFF_RSVMAP);
      q + 16 * n + 16 <= Field(c, TOTALSIZE) && c[q..q + 16 * n + 16] == b[p..p + 16 * n + 16]
    ensures CountFrom(c, 0) == Some(n) && ReserveList(c) == ReserveList(b)
  {
    hide Field, ReserveAt;
    var p, q := Field(b, OFF_RSVMAP), Field(c, OFF_RSVMAP);
    assert 16 * n + 16 == 16 * (n + 1);
    SameReserves(b, c, p, q, n + 1);
    SameCount(b, c, n, 0);
    assert ReservesAt(b, p, n) == ReservesAt(b, p, n + 1)[..n];
    assert ReservesAt(c, q, n) == ReservesAt(c, q, n + 1)[..n];
  }

  lemma {:induction false} SameCount(b: bytes, c: bytes, n: nat, i: nat)
    requires Sane(b) && Sane(c) && CountFrom(b, i) == Some(n)
    requires Field(c, OFF_RSVMAP) + 16 * n + 16 <= Field(c, TOTALSIZE)
    requires ReservesAt(c, Field(c, OFF_RSVMAP), n + 1) == ReservesAt(b, Field(b, OFF_RSVMAP), n + 1)
    ensures CountFrom(c, i) == Some(n)
    decreases n - i
  {
    hide Field, Be;
    var p, q := Field(b, OFF_RSVMAP), Field(c, OFF_RSVMAP);
    assert ReservesAt(c, q, n + 1)[i].size == ReservesAt(b, p, n + 1)[i].size;
    if Double(b, p + 16 * i + 8) != 0 {
      SameCount(b, c, n, i + 1);
    }
  }

  /** The entries that a reader counts are not empty, and the one that stops it is. */
  lemma {:induction false} CountEntries(b: bytes, n: nat, i: nat)
    requires Sane(b) && CountFrom(b, i) == Some(n)
    ensures Field(b, OFF_RSVMAP) + 16 * n + 16 <= Field(b, TOTALSIZE) <= |b|
    ensures ReserveAt(b, Field(b, OFF_RSVMAP) + 16 * n).size == 0
    ensures forall j | i <= j < n :: ReservesAt(b, Field(b, OFF_RSVMAP), n)[j].size != 0
    decreases n - i
  {
    hide Field, Be;
    if Double(b, Field(b, OFF_RSVMAP) + 16 * i + 8) != 0 {
      CountEntries(b, n, i + 1);
    }
  }
}
