/** Packing a blob, and opening one into another buffer (`fdt_pack`, `fdt_open_into`). */
module Packing {
  import opened Bytes
  import opened Format
  import opened Blob
  import opened Reserves
  import opened Splicing
  import opened Editor

  // ---------------------------------------------------------------- the layout

  /** The bytes that the reserve map of `b` takes, terminator included. */
  function MapSize(b: bytes): (n: nat)
    requires Sane(b) && CountFrom(b, 0).Some?
    ensures n >= 16
  {
    16 * (CountFrom(b, 0).value + 1)
  }

  /** The blob has a terminated reserve map, and it ends, once moved up against the header, before the structure
      block. */
  predicate Packable(b: bytes)
  {
    Editable(b) && CountFrom(b, 0).Some? && HEADER_SIZE + MapSize(b) <= Field(b, OFF_STRUCT)
  }

  /** Blocks side by side, nothing behind them. */
  predicate Tight(b: bytes)
  {
    && Packable(b) && Field(b, OFF_RSVMAP) == HEADER_SIZE
    && Field(b, OFF_STRUCT) == HEADER_SIZE + MapSize(b)
    && Field(b, OFF_STRINGS) == Field(b, OFF_STRUCT) + Field(b, SIZE_STRUCT)
    && Field(b, TOTALSIZE) == DataSize(b)
  }

  /** `c` carries the same reserve map, structure block and strings as `b`. */
  ghost predicate SameContents(b: bytes, c: bytes)
    requires Sane(b)
  {
    Sane(c) && Struct(c) == Struct(b) && Strings(c) == Strings(b) && ReserveList(c) == ReserveList(b)
  }

  /** Then a client reads the same tree. */
  lemma SameTree(b: bytes, c: bytes)
    requires Sane(b) && SameContents(b, c)
    ensures TreeOf(c) == TreeOf(b)
  {
    hide Struct, Strings, Field;
  }

  // ---------------------------------------------------------------- moving blocks

  /** In `m'` the block stands at `dst`; besides, only the header at `p` may differ from `m`. */
  ghost predicate BlockMoved(m: bytes, m': bytes, p: nat, dst: nat, src: nat, n: nat)
  {
    && |m'| == |m| && p + HEADER_SIZE <= dst && dst + n <= |m| && src + n <= |m|
    && m'[dst..dst + n] == m[src..src + n]
    && (forall i | 0 <= i < |m| && !(dst <= i < dst + n) && !(p <= i < p + HEADER_SIZE) :: m'[i] == m[i])
  }

  /** One block moves to `dst`, and word `k` of the header at `p` is set to `v`. */
  method PlaceBlock(mem: array<byte>, p: nat, dst: nat, src: nat, n: nat, k: nat, v: int)
    requires p + HEADER_SIZE <= dst && dst + n <= mem.Length && src + n <= mem.Length && k < 10 && 0 <= v < TWO32
    modifies mem
    ensures BlockMoved(old(mem[..]), mem[..], p, dst, src, n)
    ensures forall j: nat | j < 10 :: Field(mem[p..], j) == if j == k then v else old(Field(mem[p..], j))
  {
    hide Field, Put;
    ghost var h := mem[p..];
    MemMove(mem, dst, src, n);
    PutInside(old(mem[..]), dst, old(mem[src..src + n]));
    ghost var m := mem[..];
    assert forall i | 0 <= i < HEADER_SIZE :: mem[p..][i] == h[i];
    FieldFrame(h, mem[p..]);
    SetFieldAt(mem, p, k, v);
    SameBytes(mem[dst..dst + n], m[dst..dst + n]);
  }

  /** Another header word changes nothing about the block. */
  lemma BlockStays(m: bytes, m1: bytes, m2: bytes, p: nat, dst: nat, src: nat, n: nat)
    requires BlockMoved(m, m1, p, dst, src, n) && |m2| == |m1|
    requires forall i | 0 <= i < |m1| && !(p <= i < p + HEADER_SIZE) :: m2[i] == m1[i]
    ensures BlockMoved(m, m2, p, dst, src, n)
  {
    SameBytes(m2[dst..dst + n], m1[dst..dst + n]);
  }

  /** Three moves in a row, none of which overwrites a block still to be moved. */
  lemma ThreeMoved(m0: bytes, m1: bytes, m2: bytes, m3: bytes, p: nat, r: nat, s: nat, t: nat, at1: nat, at2: nat,
                   at3: nat)
    requires var q := p + HEADER_SIZE;
      && BlockMoved(m0, m1, p, q, at1, r) && BlockMoved(m1, m2, p, q + r, at2, s)
      && BlockMoved(m2, m3, p, q + r + s, at3, t)
      && (at2 + s <= p || q + r <= at2) && (at3 + t <= p || q + r + s <= at3)
    ensures |m3| == |m0| && p + HEADER_SIZE + r + s + t <= |m0| && at1 + r <= |m0| && at2 + s <= |m0| && at3 + t <= |m0|
    ensures var q := p + HEADER_SIZE;
      m3[q..q + r] == m0[at1..at1 + r] && m3[q + r..q + r + s] == m0[at2..at2 + s]
      && m3[q + r + s..q + r + s + t] == m0[at3..at3 + t]
    ensures forall i | 0 <= i < |m0| && !(p <= i < p + HEADER_SIZE + r + s + t) :: m3[i] == m0[i]
  {
    var q := p + HEADER_SIZE;
    SameBytes(m1[at2..at2 + s], m0[at2..at2 + s]);
    SameBytes(m2[at3..at3 + t], m0[at3..at3 + t]);
    SameBytes(m3[q..q + r], m1[q..q + r]);
    SameBytes(m3[q + r..q + r + s], m2[q + r..q + r + s]);
  }

  /** In `m'`, at `into`, stand the blocks that the blob at `from` has in `m`, one after the other; `r` bytes are its
      reserve map. */
  ghost predicate Placed(m: bytes, m': bytes, from: nat, into: nat, r: nat)
    requires from <= |m| && Sane(m[from..])
  {
    var b := m[from..];
    var s, t, q := Field(b, SIZE_STRUCT), Field(b, SIZE_STRINGS), into + HEADER_SIZE;
    && Field(b, OFF_RSVMAP) + r <= |b| && q + r + s + t <= |m'|
    && Field(m'[into..], OFF_RSVMAP) == HEADER_SIZE && Field(m'[into..], OFF_STRUCT) == HEADER_SIZE + r
    && Field(m'[into..], SIZE_STRUCT) == s
    && Field(m'[into..], OFF_STRINGS) == HEADER_SIZE + r + s && Field(m'[into..], SIZE_STRINGS) == t
    && m'[q..q + r] == b[Field(b, OFF_RSVMAP)..Field(b, OFF_RSVMAP) + r]
    && m'[q + r..q + r + s] == Struct(b) && m'[q + r + s..q + r + s + t] == Strings(b)
  }

  /** The blocks of the blob at `from` can be laid out at `into` one after the other without overwriting one that is
      still to be moved: in place when they are in order, elsewhere when the two blobs do not touch. */
  predicate Harmless(b: bytes, from: nat, into: nat, r: nat)
    requires Sane(b)
  {
    if into == from then
      && HEADER_SIZE <= Field(b, OFF_RSVMAP) && HEADER_SIZE + r <= Field(b, OFF_STRUCT)
      && Field(b, OFF_STRUCT) + Field(b, SIZE_STRUCT) <= Field(b, OFF_STRINGS)
    else
      || from + Field(b, TOTALSIZE) <= into
      || into + HEADER_SIZE + r + Field(b, SIZE_STRUCT) + Field(b, SIZE_STRINGS) <= from
  }

  /** The first two moves of `fdt_packblocks_`; `m1` is the memory between them. */
  method PackFirst(mem: array<byte>, from: nat, into: nat, r: nat, s: nat) returns (ghost m1: bytes)
    requires from <= mem.Length < TWO31 && Sane(mem[from..])
    requires Field(mem[from..], OFF_RSVMAP) + r <= Field(mem[from..], TOTALSIZE)
    requires s == Field(mem[from..], SIZE_STRUCT)
    requires into + HEADER_SIZE + r + s <= mem.Length
    requires from == into || from + HEADER_SIZE <= into || into + HEADER_SIZE + r + s <= from
    modifies mem
    ensures var b, q := old(mem[from..]), into + HEADER_SIZE;
      && BlockMoved(old(mem[..]), m1, into, q, from + Field(b, OFF_RSVMAP), r)
      && BlockMoved(m1, mem[..], into, q + r, from + Field(b, OFF_STRUCT), s)
    ensures Field(mem[into..], OFF_RSVMAP) == HEADER_SIZE && Field(mem[into..], OFF_STRUCT) == HEADER_SIZE + r
    ensures Field(mem[into..], SIZE_STRUCT) == s
    ensures forall j: nat | j < 10 && j !in {OFF_RSVMAP, OFF_STRUCT, SIZE_STRUCT} ::
      Field(mem[into..], j) == old(Field(mem[into..], j))
    ensures Field(mem[from..], OFF_STRINGS) == old(Field(mem[from..], OFF_STRINGS))
    ensures Field(mem[from..], SIZE_STRINGS) == old(Field(mem[from..], SIZE_STRINGS))
  {
    hide Field, BlockMoved;
    ghost var b, m0, q := mem[from..], mem[..], into + HEADER_SIZE;
    PackSources(b, m0, from, r);
    var structOff := HEADER_SIZE + r;
    PlaceBlock(mem, into, into + HEADER_SIZE, from + Field(mem[from..], OFF_RSVMAP), r, OFF_RSVMAP, HEADER_SIZE);
    m1 := mem[..];
    KeepHeader(m0, m1, from, into, q, from + Field(b, OFF_RSVMAP), r);
    PlaceBlock(mem, into, into + structOff, from + Field(mem[from..], OFF_STRUCT), s, OFF_STRUCT, structOff);
    ghost var m2 := mem[..];
    SetFieldAt(mem, into, SIZE_STRUCT, s);
    BlockStays(m1, m2, mem[..], into, q + r, from + Field(b, OFF_STRUCT), s);
    KeepHeader(m1, mem[..], from, into, q + r, from + Field(b, OFF_STRUCT), s);
  }

  /** `fdt_packblocks_`: the header words are read while the blocks move, as in the source.  `m1` and `m2` are the
      memory between the moves. */
  method PackBlocks(mem: array<byte>, from: nat, into: nat, r: nat, s: nat, t: nat)
    returns (ghost m1: bytes, ghost m2: bytes)
    requires from <= mem.Length < TWO31 && Sane(mem[from..])
    requires Field(mem[from..], OFF_RSVMAP) + r <= Field(mem[from..], TOTALSIZE)
    requires s == Field(mem[from..], SIZE_STRUCT) && t == Field(mem[from..], SIZE_STRINGS)
    requires into + HEADER_SIZE + r + s + t <= mem.Length && (from == into || Harmless(mem[from..], from, into, r))
    modifies mem
    ensures MovedThrice(old(mem[..]), m1, m2, mem[..], from, into, r)
    ensures Harmless(old(mem[from..]), from, into, r) ==> Placed(old(mem[..]), mem[..], from, into, r)
    ensures forall i | 0 <= i < mem.Length && !(into <= i < into + HEADER_SIZE + r + s + t) :: mem[i] == old(mem[i])
    ensures forall j: nat | j < 10 && j !in {OFF_RSVMAP, OFF_STRUCT, SIZE_STRUCT, OFF_STRINGS, SIZE_STRINGS} ::
      Field(mem[into..], j) == old(Field(mem[into..], j))
  {
    hide Field, BlockMoved, Placed, Harmless, Sane;
    ghost var b, m0, q := mem[from..], mem[..], into + HEADER_SIZE;
    PackSources(b, m0, from, r);
    if from != into {
      HarmlessIs(b, from, into, r);
    }
    var stringsOff := HEADER_SIZE + r + s;
    m1 := PackFirst(mem, from, into, r, s);
    m2 := mem[..];
    PlaceBlock(mem, into, into + stringsOff, from + Field(mem[from..], OFF_STRINGS), t, OFF_STRINGS, stringsOff);
    ghost var m3 := mem[..];
    KeepHeader(m2, m3, from, into, q + r + s, from + Field(b, OFF_STRINGS), t);
    SetFieldAt(mem, into, SIZE_STRINGS, Field(mem[from..], SIZE_STRINGS));
    BlockStays(m2, m3, mem[..], into, q + r + s, from + Field(b, OFF_STRINGS), t);
    ThriceFrame(m0, m1, m2, mem[..], from, into, r);
    if Harmless(b, from, into, r) {
      PlacedByMoves(m0, m1, m2, mem[..], from, into, r);
    }
  }

  /** Three moves of the blocks of `m0`, and the header words that go with them. */
  ghost predicate MovedThrice(m0: bytes, m1: bytes, m2: bytes, m3: bytes, from: nat, into: nat, r: nat)
    requires from <= |m0| && Sane(m0[from..])
  {
    var b, q := m0[from..], into + HEADER_SIZE;
    var s, t := Field(b, SIZE_STRUCT), Field(b, SIZE_STRINGS);
    && Field(b, OFF_RSVMAP) + r <= |b|
    && BlockMoved(m0, m1, into, q, from + Field(b, OFF_RSVMAP), r)
    && BlockMoved(m1, m2, into, q + r, from + Field(b, OFF_STRUCT), s)
    && BlockMoved(m2, m3, into, q + r + s, from + Field(b, OFF_STRINGS), t)
    && into + HEADER_SIZE <= |m3|
    && Field(m3[into..], OFF_RSVMAP) == HEADER_SIZE && Field(m3[into..], OFF_STRUCT) == HEADER_SIZE + r
    && Field(m3[into..], SIZE_STRUCT) == s && Field(m3[into..], SIZE_STRINGS) == t
    && Field(m3[into..], OFF_STRINGS) == HEADER_SIZE + r + s
  }

  lemma ThriceFrame(m0: bytes, m1: bytes, m2: bytes, m3: bytes, from: nat, into: nat, r: nat)
    requires from <= |m0| && Sane(m0[from..]) && MovedThrice(m0, m1, m2, m3, from, into, r)
    ensures |m3| == |m0|
    ensures var n := r + Field(m0[from..], SIZE_STRUCT) + Field(m0[from..], SIZE_STRINGS);
      forall i | 0 <= i < |m0| && !(into <= i < into + HEADER_SIZE + n) :: m3[i] == m0[i]
  {
    hide Field;
  }

  /** Three moves of the blocks of `m0` put them where `fdt_packblocks_` says. */
  lemma PlacedByMoves(m0: bytes, m1: bytes, m2: bytes, m3: bytes, from: nat, into: nat, r: nat)
    requires from <= |m0| && Sane(m0[from..]) && Field(m0[from..], OFF_RSVMAP) + r <= |m0[from..]|
    requires Harmless(m0[from..], from, into, r) && MovedThrice(m0, m1, m2, m3, from, into, r)
    ensures Placed(m0, m3, from, into, r)
  {
    hide Field, Harmless, BlockMoved;
    var b := m0[from..];
    HarmlessIs(b, from, into, r);
    var s, t := Field(b, SIZE_STRUCT), Field(b, SIZE_STRINGS);
    var at1, at2, at3 := from + Field(b, OFF_RSVMAP), from + Field(b, OFF_STRUCT), from + Field(b, OFF_STRINGS);
    ThreeMoved(m0, m1, m2, m3, into, r, s, t, at1, at2, at3);
    PlacedIs(m0, m3, from, into, r);
  }

  lemma HarmlessIs(b: bytes, from: nat, into: nat, r: nat)
    requires Sane(b) && Harmless(b, from, into, r)
    ensures var q, s, t := into + HEADER_SIZE, Field(b, SIZE_STRUCT), Field(b, SIZE_STRINGS);
      var at2, at3 := from + Field(b, OFF_STRUCT), from + Field(b, OFF_STRINGS);
      && (at2 + s <= into || q + r <= at2) && (at3 + t <= into || q + r + s <= at3)
      && (from == into || from + HEADER_SIZE <= into || q + r + s + t <= from)
  {
    hide Field;
  }

  lemma PackSources(b: bytes, m: bytes, from: nat, r: nat)
    requires Sane(b) && from <= |m| && b == m[from..] && Field(b, OFF_RSVMAP) + r <= Field(b, TOTALSIZE)
    ensures |b| >= HEADER_SIZE && Field(b, OFF_RSVMAP) + r <= |b| && from + Field(b, OFF_RSVMAP) + r <= |m|
    ensures from + Field(b, OFF_STRUCT) + Field(b, SIZE_STRUCT) <= |m|
    ensures from + Field(b, OFF_STRINGS) + Field(b, SIZE_STRINGS) <= |m|
  {
    hide Field;
  }

  /** The words of the old header that the new one has not been written over. */
  lemma KeepHeader(m: bytes, m': bytes, from: nat, into: nat, dst: nat, src: nat, n: nat)
    requires BlockMoved(m, m', into, dst, src, n) && from + HEADER_SIZE <= |m|
    requires from == into || from + HEADER_SIZE <= into || dst + n <= from
    ensures from != into ==> forall j: nat | j < 10 :: Field(m'[from..], j) == Field(m[from..], j)
  {
    hide Field;
    if from != into {
      FieldFrame(m[from..], m'[from..]);
    }
  }

  lemma PlacedIs(m: bytes, m': bytes, from: nat, into: nat, r: nat)
    requires from <= |m| && Sane(m[from..]) && Field(m[from..], OFF_RSVMAP) + r <= |m[from..]|
    requires var b, q := m[from..], into + HEADER_SIZE; var s, t := Field(b, SIZE_STRUCT), Field(b, SIZE_STRINGS);
      var at1, at2, at3 := from + Field(b, OFF_RSVMAP), from + Field(b, OFF_STRUCT), from + Field(b, OFF_STRINGS);
      && q + r + s + t <= |m'| && m'[q..q + r] == m[at1..at1 + r] && m'[q + r..q + r + s] == m[at2..at2 + s]
      && m'[q + r + s..q + r + s + t] == m[at3..at3 + t]
      && Field(m'[into..], OFF_RSVMAP) == HEADER_SIZE && Field(m'[into..], OFF_STRUCT) == HEADER_SIZE + r
      && Field(m'[into..], SIZE_STRUCT) == s && Field(m'[into..], SIZE_STRINGS) == t
      && Field(m'[into..], OFF_STRINGS) == HEADER_SIZE + r + s
    ensures Placed(m, m', from, into, r)
  {
    hide Field;
    var b := m[from..];
    assert b == m[from..from + |b|];
    SliceOfSlice(m, from, |b|, Field(b, OFF_RSVMAP), Field(b, OFF_RSVMAP) + r);
    SliceOfSlice(m, from, |b|, Field(b, OFF_STRUCT), Field(b, OFF_STRUCT) + Field(b, SIZE_STRUCT));
    SliceOfSlice(m, from, |b|, Field(b, OFF_STRINGS), Field(b, OFF_STRINGS) + Field(b, SIZE_STRINGS));
  }

  // ---------------------------------------------------------------- packing in place

  /** The reserve map is terminated, and the blocks fit one behind the other. */
  predicate Packs(b: bytes)
  {
    && Editable(b) && CountFrom(b, 0).Some?
    && HEADER_SIZE + MapSize(b) + Field(b, SIZE_STRUCT) + Field(b, SIZE_STRINGS) <= |b|
  }

  /** Byte `i` after the first move of a pack in place, and after the second. */
  function FirstByte(b: bytes, i: nat): (x: byte)
    requires Packs(b) && HEADER_SIZE <= i < |b|
  {
    hide Field, CountFrom;
    if i < HEADER_SIZE + MapSize(b) then b[i - HEADER_SIZE + Field(b, OFF_RSVMAP)] else b[i]
  }

  function SecondByte(b: bytes, i: nat): (x: byte)
    requires Packs(b) && HEADER_SIZE <= i < |b|
  {
    hide Field, CountFrom;
    var q := HEADER_SIZE + MapSize(b);
    if q <= i < q + Field(b, SIZE_STRUCT) then FirstByte(b, i - q + Field(b, OFF_STRUCT)) else FirstByte(b, i)
  }

  /** The moves before a block's own leave it as it was: where they overlap it, they write the bytes that stand
      there. */
  predicate StructSpared(b: bytes)
    requires Packs(b)
  {
    hide CountFrom;
    forall i | Field(b, OFF_STRUCT) <= i < Field(b, OFF_STRUCT) + Field(b, SIZE_STRUCT) :: FirstByte(b, i) == b[i]
  }

  /** The structure block after a pack, byte by byte. */
  predicate StructPacked(b: bytes, c: bytes)
    requires Packs(b) && Sane(c)
  {
    hide CountFrom;
    && |Struct(c)| == |Struct(b)|
    && forall i | 0 <= i < |Struct(b)| :: Struct(c)[i] == FirstByte(b, Field(b, OFF_STRUCT) + i)
  }

  predicate StringsSpared(b: bytes)
    requires Packs(b)
  {
    hide CountFrom;
    forall i | Field(b, OFF_STRINGS) <= i < Field(b, OFF_STRINGS) + Field(b, SIZE_STRINGS) :: SecondByte(b, i) == b[i]
  }

  /** So when the map ends before the structure block; for the structure block also when the map does not move. */
  lemma SparedApart(b: bytes)
    requires Packs(b)
    ensures HEADER_SIZE + MapSize(b) <= Field(b, OFF_STRUCT) ==> StructSpared(b) && StringsSpared(b)
    ensures Field(b, OFF_RSVMAP) == HEADER_SIZE ==> StructSpared(b)
  {
    hide Field, CountFrom, MapSize;
  }

  /** `fdt_pack`: the blocks stand side by side with nothing behind them.  Structure and names are as before exactly if
      no move overwrites them too early; for a blob whose reserve map ends before the structure block nothing is lost,
      and packing it again does nothing. */
  method Pack(fdt: array<byte>) returns (err: int)
    requires Sane(fdt[..]) && Field(fdt[..], MAGIC) != SW_MAGIC && (Editable(fdt[..]) ==> Packs(fdt[..]))
    modifies fdt
    ensures var b, c := old(fdt[..]), fdt[..];
      && err == RwProbe(b)
      && (err != 0 ==> c == b)
      && (err == 0 ==> Packs(b) && Sane(c) && Field(c, TOTALSIZE) == DataSize(c) && StructPacked(b, c))
      && (err == 0 ==>
           (Struct(c) == Struct(b) <==> StructSpared(b)) && (Strings(c) == Strings(b) <==> StringsSpared(b)))
      && (err == 0 && Packable(b) ==> Tight(c) && SameContents(b, c) && TreeOf(c) == TreeOf(b))
      && (err == 0 && Tight(b) ==> c == b)
  {
    hide Field, Struct, Strings, Tight, SameContents, TreeOf, Placed, CountFrom, RwProbe, Sane, MovedThrice, Packable,
         StructSpared, StringsSpared, StructPacked;
    ghost var b := fdt[..];
    ProbeIsEditable(b);
    err := RwProbe(fdt[..]);
    if err != 0 {
      return;
    }
    assert fdt[0..] == fdt[..];
    PacksIs(b);
    var n := NumMemRsv(fdt, 0);
    var r := 16 * (n + 1);
    ghost var m1, m2 := PackBlocks(fdt, 0, 0, r, Field(fdt[..], SIZE_STRUCT), Field(fdt[..], SIZE_STRINGS));
    assert fdt[0..] == fdt[..];
    ghost var c1 := fdt[..];
    SetField(fdt, TOTALSIZE, (Field(fdt[..], OFF_STRINGS) + Field(fdt[..], SIZE_STRINGS)) % TWO32);
    PackedBytes(b, m1, m2, c1, fdt[..]);
    TightPacks(b);
    if Packable(b) {
      PackableIs(b);
      PackedIs(b, c1, fdt[..]);
    }
    if Tight(b) {
      PackedAgain(b, c1, fdt[..]);
    }
  }

  lemma PacksIs(b: bytes)
    requires Packs(b)
    ensures Sane(b) && |b| < TWO31 && Field(b, OFF_RSVMAP) + MapSize(b) <= Field(b, TOTALSIZE) <= |b|
  {
    hide Field;
  }

  lemma TightPacks(b: bytes)
    ensures Tight(b) ==> Packable(b)
  {
    hide Packable;
  }

  /** What the moves of a pack in place leave of the two blocks. */
  lemma PackedBytes(b: bytes, m1: bytes, m2: bytes, c1: bytes, c: bytes)
    requires Packs(b) && b[0..] == b && c1[0..] == c1 && MovedThrice(b, m1, m2, c1, 0, 0, MapSize(b)) && |c| == |b|
    requires forall j: nat | j < 10 && j != TOTALSIZE :: Field(c, j) == Field(c1, j)
    requires forall j: nat | j < 10 && j !in {OFF_RSVMAP, OFF_STRUCT, SIZE_STRUCT, OFF_STRINGS, SIZE_STRINGS} ::
      Field(c1, j) == Field(b, j)
    requires Field(c, TOTALSIZE) == (Field(c1, OFF_STRINGS) + Field(c1, SIZE_STRINGS)) % TWO32
    requires forall i | HEADER_SIZE <= i < |b| :: c[i] == c1[i]
    ensures Sane(c) && Field(c, TOTALSIZE) == DataSize(c) && StructPacked(b, c)
    ensures (Struct(c) == Struct(b) <==> StructSpared(b)) && (Strings(c) == Strings(b) <==> StringsSpared(b))
  {
    hide Field, CountFrom, MapSize, StructSpared, StringsSpared, StructPacked;
    PackedStruct(b, m1, m2, c1, c);
    PackedStrings(b, m1, m2, c1, c);
  }

  lemma PackedStruct(b: bytes, m1: bytes, m2: bytes, c1: bytes, c: bytes)
    requires Packs(b) && b[0..] == b && c1[0..] == c1 && MovedThrice(b, m1, m2, c1, 0, 0, MapSize(b)) && Sane(c)
    requires |c| == |b|
    requires Field(c, OFF_STRUCT) == HEADER_SIZE + MapSize(b) && Field(c, SIZE_STRUCT) == Field(b, SIZE_STRUCT)
    requires forall i | HEADER_SIZE <= i < |b| :: c[i] == c1[i]
    ensures StructPacked(b, c) && (Struct(c) == Struct(b) <==> StructSpared(b))
  {
    hide Field, CountFrom, MapSize, MovedThrice, FirstByte;
    var q, o, s := HEADER_SIZE + MapSize(b), Field(b, OFF_STRUCT), Field(b, SIZE_STRUCT);
    SecondMove(b, m1, m2, c1);
    forall i | 0 <= i < s
      ensures Struct(c)[i] == FirstByte(b, o + i)
    {
      assert c[q + i] == m2[q + i] == SecondByte(b, q + i);
    }
    if Struct(c) == Struct(b) {
      forall i | o <= i < o + s
        ensures FirstByte(b, i) == b[i]
      {
        assert Struct(c)[i - o] == Struct(b)[i - o];
      }
    } else {
      SameUnless(Struct(c), Struct(b));
    }
  }

  /** Sequences of one length that differ do so somewhere. */
  lemma SameUnless(x: bytes, y: bytes)
    requires |x| == |y| && x != y
    ensures exists i :: 0 <= i < |x| && x[i] != y[i]
  {
  }

  lemma FirstMove(b: bytes, m1: bytes, m2: bytes, m3: bytes)
    requires Packs(b) && b[0..] == b && MovedThrice(b, m1, m2, m3, 0, 0, MapSize(b))
    ensures |m1| == |b| && |m2| == |b| && |m3| == |b|
    ensures forall i | HEADER_SIZE <= i < |b| :: m1[i] == FirstByte(b, i)
  {
    hide Field, CountFrom, MapSize;
    var o, r := Field(b, OFF_RSVMAP), MapSize(b);
    forall i | HEADER_SIZE <= i < |b|
      ensures m1[i] == FirstByte(b, i)
    {
      if i < HEADER_SIZE + r {
        assert m1[i] == m1[HEADER_SIZE..HEADER_SIZE + r][i - HEADER_SIZE] == b[o..o + r][i - HEADER_SIZE];
      }
    }
  }

  lemma SecondMove(b: bytes, m1: bytes, m2: bytes, m3: bytes)
    requires Packs(b) && b[0..] == b && MovedThrice(b, m1, m2, m3, 0, 0, MapSize(b))
    ensures |m2| == |b| && |m3| == |b|
    ensures forall i | HEADER_SIZE <= i < |b| :: m2[i] == SecondByte(b, i)
    ensures forall i | HEADER_SIZE <= i < HEADER_SIZE + MapSize(b) + Field(b, SIZE_STRUCT) :: m3[i] == m2[i]
  {
    hide Field, CountFrom, MapSize;
    FirstMove(b, m1, m2, m3);
    var q, o, s := HEADER_SIZE + MapSize(b), Field(b, OFF_STRUCT), Field(b, SIZE_STRUCT);
    forall i | HEADER_SIZE <= i < |b|
      ensures m2[i] == SecondByte(b, i)
    {
      if q <= i < q + s {
        assert m2[i] == m2[q..q + s][i - q] == m1[o..o + s][i - q];
      }
    }
  }

  lemma ThirdMove(b: bytes, m1: bytes, m2: bytes, m3: bytes)
    requires Packs(b) && b[0..] == b && MovedThrice(b, m1, m2, m3, 0, 0, MapSize(b))
    ensures |m3| == |b|
    ensures var q, o := HEADER_SIZE + MapSize(b) + Field(b, SIZE_STRUCT), Field(b, OFF_STRINGS);
      forall i | o <= i < o + Field(b, SIZE_STRINGS) :: m3[i - o + q] == SecondByte(b, i)
  {
    hide Field, CountFrom, MapSize, SecondByte;
    SecondMove(b, m1, m2, m3);
    var q, o, t := HEADER_SIZE + MapSize(b) + Field(b, SIZE_STRUCT), Field(b, OFF_STRINGS), Field(b, SIZE_STRINGS);
    forall i | o <= i < o + t
      ensures m3[i - o + q] == SecondByte(b, i)
    {
      assert m3[i - o + q] == m3[q..q + t][i - o] == m2[o..o + t][i - o] == m2[i];
    }
  }

  lemma PackedStrings(b: bytes, m1: bytes, m2: bytes, c1: bytes, c: bytes)
    requires Packs(b) && b[0..] == b && c1[0..] == c1 && MovedThrice(b, m1, m2, c1, 0, 0, MapSize(b)) && Sane(c)
    requires |c| == |b|
    requires Field(c, OFF_STRINGS) == HEADER_SIZE + MapSize(b) + Field(b, SIZE_STRUCT)
    requires Field(c, SIZE_STRINGS) == Field(b, SIZE_STRINGS)
    requires forall i | HEADER_SIZE <= i < |b| :: c[i] == c1[i]
    ensures Strings(c) == Strings(b) <==> StringsSpared(b)
  {
    hide Field, CountFrom, MapSize, MovedThrice, SecondByte;
    var q, o, t := HEADER_SIZE + MapSize(b) + Field(b, SIZE_STRUCT), Field(b, OFF_STRINGS), Field(b, SIZE_STRINGS);
    ThirdMove(b, m1, m2, c1);
    forall i | 0 <= i < t
      ensures Strings(c)[i] == SecondByte(b, o + i)
    {
      assert c[q + i] == c1[o + i - o + q];
    }
    if Strings(c) == Strings(b) {
      forall i | o <= i < o + t
        ensures SecondByte(b, i) == b[i]
      {
        assert Strings(c)[i - o] == Strings(b)[i - o];
      }
    } else {
      SameUnless(Strings(c), Strings(b));
    }
  }

  lemma PackableIs(b: bytes)
    requires Packable(b)
    ensures Sane(b) && Harmless(b, 0, 0, MapSize(b))
    ensures Field(b, OFF_RSVMAP) + MapSize(b) <= Field(b, TOTALSIZE) <= |b| < TWO31
    ensures HEADER_SIZE + MapSize(b) + Field(b, SIZE_STRUCT) + Field(b, SIZE_STRINGS) <= |b|
  {
    hide Field;
  }

  /** `c` is `b` after the moves of `fdt_packblocks_`, `c1`, and the new total size. */
  ghost predicate PackedFrom(b: bytes, c1: bytes, c: bytes)
    requires Packable(b)
  {
    && |c1| == |b| && |c| == |b| && b[0..] == b && c1[0..] == c1 && Placed(b, c1, 0, 0, MapSize(b))
    && (forall i | HEADER_SIZE + MapSize(b) + Field(b, SIZE_STRUCT) + Field(b, SIZE_STRINGS) <= i < |b| ::
         c1[i] == b[i])
    && (forall j: nat | j < 10 && j !in {OFF_RSVMAP, OFF_STRUCT, SIZE_STRUCT, OFF_STRINGS, SIZE_STRINGS} ::
      Field(c1, j) == Field(b, j))
    && (forall j: nat | j < 10 && j != TOTALSIZE :: Field(c, j) == Field(c1, j))
    && Field(c, TOTALSIZE) == (Field(c1, OFF_STRINGS) + Field(c1, SIZE_STRINGS)) % TWO32
    && (forall i | HEADER_SIZE <= i < |b| :: c[i] == c1[i])
  }

  lemma PackedIs(b: bytes, c1: bytes, c: bytes)
    requires Packable(b) && PackedFrom(b, c1, c)
    ensures Tight(c) && SameContents(b, c) && TreeOf(c) == TreeOf(b)
  {
    hide Field, TreeOf, CountFrom;
    PackedBlocks(b, c1, c);
    CarriedMap(b, c, CountFrom(b, 0).value);
    SameTree(b, c);
  }

  lemma PackedBlocks(b: bytes, c1: bytes, c: bytes)
    requires Packable(b) && PackedFrom(b, c1, c)
    ensures Editable(c) && Struct(c) == Struct(b) && Strings(c) == Strings(b) && Field(c, OFF_RSVMAP) == HEADER_SIZE
    ensures Field(c, OFF_STRUCT) == HEADER_SIZE + MapSize(b) && Field(c, SIZE_STRUCT) == Field(b, SIZE_STRUCT)
    ensures Field(c, OFF_STRINGS) == Field(c, OFF_STRUCT) + Field(c, SIZE_STRUCT) && Field(c, TOTALSIZE) == DataSize(c)
    ensures var p, r := Field(b, OFF_RSVMAP), MapSize(b);
      p + r <= |b| && HEADER_SIZE + r <= |c| && c[HEADER_SIZE..HEADER_SIZE + r] == b[p..p + r]
  {
    hide Field, CountFrom, MapSize;
    PackableIs(b);
    var q, s, t := HEADER_SIZE + MapSize(b), Field(b, SIZE_STRUCT), Field(b, SIZE_STRINGS);
    SameBytes(c[HEADER_SIZE..q], c1[HEADER_SIZE..q]);
    SameBytes(c[q..q + s], c1[q..q + s]);
    SameBytes(c[q + s..q + s + t], c1[q + s..q + s + t]);
  }

  lemma PackedAgain(b: bytes, c1: bytes, c: bytes)
    requires Tight(b) && PackedFrom(b, c1, c)
    ensures c == b
  {
    hide Field, CountFrom, MapSize;
    PackableIs(b);
    var q, s, t := HEADER_SIZE + MapSize(b), Field(b, SIZE_STRUCT), Field(b, SIZE_STRINGS);
    SameBytes(c[HEADER_SIZE..q], c1[HEADER_SIZE..q]);
    SameBytes(c[q..q + s], c1[q..q + s]);
    SameBytes(c[q + s..q + s + t], c1[q + s..q + s + t]);
    HeaderBytes(c, b);
    TightBytes(b, c, q, q + s, q + s + t);
  }

  lemma TightBytes(b: bytes, c: bytes, q: nat, u: nat, v: nat)
    requires |c| == |b| && HEADER_SIZE <= q <= u <= v <= |b|
    requires c[..HEADER_SIZE] == b[..HEADER_SIZE] && c[HEADER_SIZE..q] == b[HEADER_SIZE..q]
    requires c[q..u] == b[q..u] && c[u..v] == b[u..v] && forall i | v <= i < |b| :: c[i] == b[i]
    ensures c == b
  {
    SameBytes(c[v..], b[v..]);
    Cut(c, HEADER_SIZE, q, u);
    Cut(b, HEADER_SIZE, q, u);
    Cut(c, HEADER_SIZE, u, v);
    Cut(b, HEADER_SIZE, u, v);
    assert c == c[..HEADER_SIZE] + c[HEADER_SIZE..v] + c[v..];
    assert b == b[..HEADER_SIZE] + b[HEADER_SIZE..v] + b[v..];
  }

  // ---------------------------------------------------------------- opening into a buffer

  /** The size of the blob once its blocks stand side by side. */
  function NewSize(b: bytes): (n: nat)
    requires Sane(b) && CountFrom(b, 0).Some?
  {
    HEADER_SIZE + MapSize(b) + Field(b, SIZE_STRUCT) + Field(b, SIZE_STRINGS)
  }

  /** Whether the buffer at `buf` has the room that `fdt_open_into` needs for the blob at `fdt`.  A blob out of order
      is rebuilt at the front of the buffer or, when that would overlap it, right behind it. */
  predicate OpenFits(b: bytes, fdt: nat, buf: nat, bufsize: int)
    requires Sane(b) && CountFrom(b, 0).Some?
  {
    if !Misordered(b, MapSize(b), Field(b, SIZE_STRUCT)) then Field(b, TOTALSIZE) <= bufsize
    else
      && NewSize(b) <= bufsize
      && (buf + NewSize(b) <= fdt || fdt + Field(b, TOTALSIZE) <= buf
          || fdt + Field(b, TOTALSIZE) + NewSize(b) <= buf + bufsize)
  }

  /** `c` is the blob `b` opened with `size` bytes: in order, ready for editing and packing, and with the same
      contents. */
  ghost predicate Opened(b: bytes, c: bytes, size: int)
    requires Sane(b)
  {
    SameContents(b, c) && TreeOf(c) == TreeOf(b) && Field(c, TOTALSIZE) == size && (size < INT_MAX ==> Packable(c))
  }

  /** `fdt_open_into`: the blob at `fdt` and the buffer at `buf` lie in the same memory and may overlap. */
  method OpenInto(mem: array<byte>, fdt: nat, buf: nat, bufsize: int) returns (err: int)
    requires fdt <= mem.Length < TWO31 && Sane(mem[fdt..]) && Field(mem[fdt..], MAGIC) != SW_MAGIC
    requires CountFrom(mem[fdt..], 0).Some? && buf <= mem.Length && buf + bufsize <= mem.Length
    modifies mem
    ensures var b := old(mem[fdt..]);
      && err == (if RoProbe(b) < 0 then RoProbe(b) else if OpenFits(b, fdt, buf, bufsize) then 0 else -ERR_NOSPACE)
      && (err != 0 ==> mem[..] == old(mem[..]))
      && (err == 0 ==> Opened(b, mem[buf..], bufsize))
  {
    hide Field, Struct, Strings, CountFrom, Placed, Opened, Misordered;
    ghost var b := mem[fdt..];
    var total := RoProbe(mem[fdt..]);
    if total < 0 {
      return total;
    }
    var n := NumMemRsv(mem, fdt);
    var memRsvSize := 16 * (n + 1);
    var structSize := Field(mem[fdt..], SIZE_STRUCT);
    if !Misordered(mem[fdt..], memRsvSize, structSize) {
      // fdt_move
      if bufsize < 0 || total > bufsize {
        return -ERR_NOSPACE;
      }
      MoveWhole(mem, fdt, buf, total, bufsize, structSize);
      MovedIs(b, mem[buf..], bufsize);
      return 0;
    }
    var stringsSize := Field(mem[fdt..], SIZE_STRINGS);
    var newsize := HEADER_SIZE + memRsvSize + structSize + stringsSize;
    if bufsize < newsize {
      return -ERR_NOSPACE;
    }
    var tmp := buf;
    if tmp + newsize > fdt && tmp < fdt + total {
      tmp := fdt + total;
      if tmp + newsize > buf + bufsize {
        return -ERR_NOSPACE;
      }
    }
    TmpIs(b, fdt, tmp);
    Rebuild(mem, fdt, tmp, buf, bufsize, memRsvSize, structSize, stringsSize);
    RebuiltIs(b, mem[buf..], bufsize);
    return 0;
  }

  lemma TmpIs(b: bytes, fdt: nat, tmp: nat)
    requires Sane(b) && CountFrom(b, 0).Some? && (fdt + Field(b, TOTALSIZE) <= tmp || tmp + NewSize(b) <= fdt)
    ensures Harmless(b, fdt, tmp, MapSize(b)) && Field(b, OFF_RSVMAP) + MapSize(b) <= Field(b, TOTALSIZE)
  {
    hide Field;
  }

  /** The reordering half of `fdt_open_into`. */
  method Rebuild(mem: array<byte>, fdt: nat, tmp: nat, buf: nat, bufsize: nat, r: nat, s: nat, t: nat)
    requires fdt <= mem.Length < TWO31 && Sane(mem[fdt..])
    requires Field(mem[fdt..], OFF_RSVMAP) + r <= Field(mem[fdt..], TOTALSIZE)
    requires s == Field(mem[fdt..], SIZE_STRUCT) && t == Field(mem[fdt..], SIZE_STRINGS)
    requires HEADER_SIZE + r + s + t <= bufsize && buf + bufsize <= mem.Length
    requires tmp + HEADER_SIZE + r + s + t <= mem.Length
    requires Harmless(mem[fdt..], fdt, tmp, r)
    modifies mem
    ensures Rebuilt(old(mem[fdt..]), mem[buf..], r, bufsize)
  {
    hide Field, Placed, Harmless, Struct, Strings, Rebuilt, Sane, MovedThrice;
    ghost var m0 := mem[..];
    BlobEnds(m0, fdt);
    ghost var u, w := PackBlocks(mem, fdt, tmp, r, s, t);
    ghost var m1 := mem[..];
    MemMove(mem, buf, tmp, HEADER_SIZE + r + s + t);
    ghost var m2 := mem[..];
    PutInside(m1, buf, m1[tmp..tmp + HEADER_SIZE + r + s + t]);
    SetFieldAt(mem, buf, MAGIC, FDT_MAGIC);
    SetFieldAt(mem, buf, TOTALSIZE, bufsize);
    SetFieldAt(mem, buf, VERSION, 17);
    SetFieldAt(mem, buf, LAST_COMP, 16);
    SetFieldAt(mem, buf, BOOT_CPUID, Field(mem[fdt..], BOOT_CPUID));
    CarryPlaced(m0, m1, m2, mem[..], fdt, tmp, buf, r, bufsize);
  }

  lemma BlobEnds(m: bytes, fdt: nat)
    requires fdt <= |m| && Sane(m[fdt..])
    ensures fdt + HEADER_SIZE <= |m|
  {
  }

  /** `c` starts with a blob of `size` bytes in order, with the blocks of `b`; `r` bytes are its reserve map. */
  ghost predicate Rebuilt(b: bytes, c: bytes, r: nat, size: int)
    requires Sane(b)
  {
    var s, t, q := Field(b, SIZE_STRUCT), Field(b, SIZE_STRINGS), HEADER_SIZE + r;
    && Field(b, OFF_RSVMAP) + r <= |b| && q + s + t <= size <= |c|
    && Field(c, MAGIC) == FDT_MAGIC && Field(c, TOTALSIZE) == size && Field(c, VERSION) == 17
    && Field(c, LAST_COMP) == 16
    && Field(c, OFF_RSVMAP) == HEADER_SIZE && Field(c, OFF_STRUCT) == q && Field(c, SIZE_STRUCT) == s
    && Field(c, OFF_STRINGS) == q + s && Field(c, SIZE_STRINGS) == t
    && c[HEADER_SIZE..q] == b[Field(b, OFF_RSVMAP)..Field(b, OFF_RSVMAP) + r]
    && c[q..q + s] == Struct(b) && c[q + s..q + s + t] == Strings(b)
  }

  lemma CarryPlaced(m0: bytes, m1: bytes, m2: bytes, m3: bytes, fdt: nat, tmp: nat, buf: nat, r: nat, size: nat)
    requires fdt <= |m0| && Sane(m0[fdt..]) && Placed(m0, m1, fdt, tmp, r)
    requires var b := m0[fdt..]; var n := HEADER_SIZE + r + Field(b, SIZE_STRUCT) + Field(b, SIZE_STRINGS);
      && n <= size && buf + size <= |m2| && m2[buf..buf + n] == m1[tmp..tmp + n]
    requires |m3| == |m2| && forall i | 0 <= i < |m2| && !(buf <= i < buf + HEADER_SIZE) :: m3[i] == m2[i]
    requires forall j: nat | j < 10 && j !in {MAGIC, TOTALSIZE, VERSION, LAST_COMP, BOOT_CPUID} ::
      Field(m3[buf..], j) == Field(m2[buf..], j)
    requires var c := m3[buf..];
      && Field(c, MAGIC) == FDT_MAGIC && Field(c, TOTALSIZE) == size && Field(c, VERSION) == 17
      && Field(c, LAST_COMP) == 16
    ensures Rebuilt(m0[fdt..], m3[buf..], r, size)
  {
    hide Field;
    var b := m0[fdt..];
    var s, t, q := Field(b, SIZE_STRUCT), Field(b, SIZE_STRINGS), HEADER_SIZE + r;
    var n := q + s + t;
    forall i | 0 <= i < HEADER_SIZE ensures m2[buf..][i] == m1[tmp..][i] {
      assert m2[buf..buf + n][i] == m1[tmp..tmp + n][i];
    }
    FieldFrame(m1[tmp..], m2[buf..]);
    CarrySlice(m1, m2, m3, tmp, buf, n, HEADER_SIZE, q);
    CarrySlice(m1, m2, m3, tmp, buf, n, q, q + s);
    CarrySlice(m1, m2, m3, tmp, buf, n, q + s, n);
  }

  lemma CarrySlice(m1: bytes, m2: bytes, m3: bytes, tmp: nat, buf: nat, n: nat, i: nat, j: nat)
    requires buf + n <= |m2| && tmp + n <= |m1| && m2[buf..buf + n] == m1[tmp..tmp + n] && HEADER_SIZE <= i <= j <= n
    requires |m3| == |m2| && forall k | 0 <= k < |m2| && !(buf <= k < buf + HEADER_SIZE) :: m3[k] == m2[k]
    ensures m3[buf..][i..j] == m1[tmp + i..tmp + j]
  {
    SliceOfSlice(m1, tmp, n, i, j);
    SliceOfSlice(m2, buf, n, i, j);
    SameBytes(m3[buf..][i..j], m2[buf + i..buf + j]);
  }

  lemma RebuiltIs(b: bytes, c: bytes, size: int)
    requires Sane(b) && CountFrom(b, 0).Some? && Rebuilt(b, c, MapSize(b), size) && |c| < TWO31
    ensures Opened(b, c, size)
  {
    hide Field, CountFrom, TreeOf;
    CarriedMap(b, c, CountFrom(b, 0).value);
    SameTree(b, c);
  }

  /** `fdt_move` and the header words that `fdt_open_into` sets behind it. */
  method MoveWhole(mem: array<byte>, fdt: nat, buf: nat, total: nat, bufsize: nat, structSize: nat)
    requires fdt + total <= mem.Length && HEADER_SIZE <= total <= bufsize < TWO31 && buf + bufsize <= mem.Length
    requires structSize == Field(mem[fdt..], SIZE_STRUCT)
    modifies mem
    ensures WholeMoved(old(mem[fdt..]), mem[buf..], total, bufsize)
  {
    hide Field;
    ghost var b := mem[fdt..];
    MemMove(mem, buf, fdt, total);
    ghost var c := mem[buf..];
    assert forall i | 0 <= i < total :: c[i] == b[i];
    FieldFrame(b, c);
    SetFieldAt(mem, buf, VERSION, 17);
    SetFieldAt(mem, buf, SIZE_STRUCT, structSize);
    SetFieldAt(mem, buf, TOTALSIZE, bufsize);
  }

  ghost predicate WholeMoved(b: bytes, c: bytes, total: nat, size: int)
  {
    && HEADER_SIZE <= total <= |b| && total <= size <= |c|
    && (forall j: nat | j < 10 && j != TOTALSIZE && j != VERSION :: Field(c, j) == Field(b, j))
    && Field(c, TOTALSIZE) == size && Field(c, VERSION) == 17
    && (forall i | HEADER_SIZE <= i < total :: c[i] == b[i])
  }

  lemma MovedIs(b: bytes, c: bytes, size: int)
    requires Live(b) && CountFrom(b, 0).Some? && !Misordered(b, MapSize(b), Field(b, SIZE_STRUCT))
    requires WholeMoved(b, c, Field(b, TOTALSIZE), size) && |c| < TWO31
    ensures Opened(b, c, size)
  {
    hide Field, CountFrom, TreeOf;
    var p, r := Field(b, OFF_RSVMAP), MapSize(b);
    SameBytes(Struct(c), Struct(b));
    SameBytes(Strings(c), Strings(b));
    SameBytes(c[p..p + r], b[p..p + r]);
    CarriedMap(b, c, CountFrom(b, 0).value);
    SameTree(b, c);
  }
}
