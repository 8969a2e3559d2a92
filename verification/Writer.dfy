/** The sequential writer (`fdt_sw.c`): a state machine whose state lives in the header of a half-built blob.
    The structure block grows up from the reserve map, the strings grow down from the end of the buffer, and a
    property names its string by a negative offset from that end. */
module Writer {
  import opened Bytes
  import opened Format
  import opened Tree
  import opened Reserves
  import opened TokenLog
  import R = Reader

  // ---------------------------------------------------------------- what has been written

  /** What a client has asked for so far. */
  datatype Draft = Draft(reserves: seq<Reserve>, building: bool, log: seq<Entry>)

  const RSV_START: int := 48 // FDT_ALIGN(sizeof(struct fdt_header), sizeof(struct fdt_reserve_entry))

  /** Where the structure block ends so far. */
  function Top(b: bytes): (p: int)
    requires |b| >= HEADER_SIZE
    ensures p >= 0
  {
    Field(b, OFF_STRUCT) + Field(b, SIZE_STRUCT)
  }

  /** Where the strings start so far. */
  function Low(b: bytes): (p: int)
    requires |b| >= HEADER_SIZE
  {
    Field(b, TOTALSIZE) - Field(b, SIZE_STRINGS)
  }

  /** The header of a blob under construction: nothing overlaps, and the state is one of the two of `fdt_sw.c`. */
  predicate Shape(b: bytes)
  {
    && RSV_START <= |b| < TWO31
    && Field(b, MAGIC) == SW_MAGIC && Field(b, VERSION) == 17 && Field(b, OFF_RSVMAP) == RSV_START
    && Field(b, TOTALSIZE) <= |b|
    && RSV_START <= Field(b, OFF_STRUCT) <= Top(b) <= Low(b) && Field(b, OFF_STRUCT) % 16 == 0
    && (if Field(b, OFF_STRINGS) == 0 then Field(b, SIZE_STRUCT) == 0 && Field(b, SIZE_STRINGS) == 0
        else Field(b, OFF_STRINGS) == Field(b, TOTALSIZE) && RSV_START + 16 <= Field(b, OFF_STRUCT))
  }

  /** The 'struct' state, after `fdt_finish_reservemap`. */
  predicate Building(b: bytes)
    requires Shape(b)
  {
    Field(b, OFF_STRINGS) != 0
  }

  function Written(b: bytes): (s: bytes)
    requires Shape(b)
    ensures |s| == Field(b, SIZE_STRUCT) < TWO31
  {
    b[Field(b, OFF_STRUCT)..Top(b)]
  }

  function Pool(b: bytes): (t: bytes)
    requires Shape(b)
    ensures |t| == Field(b, SIZE_STRINGS) < TWO31
  {
    b[Low(b)..Field(b, TOTALSIZE)]
  }

  /** What turns a name offset, a negative 32-bit number, into an index into the strings. */
  function Shift(b: bytes): (n: int)
    requires Shape(b)
  {
    |Pool(b)| - TWO32
  }

  /** Reserve entries added by the client; the terminator of the 'struct' state is not one. */
  function Reserved(b: bytes): (n: nat)
    requires Shape(b)
    ensures RSV_START + 16 * n <= Field(b, OFF_STRUCT) <= |b|
    ensures RSV_START + 16 * n + (if Building(b) then 16 else 0) == Field(b, OFF_STRUCT)
  {
    (Field(b, OFF_STRUCT) - RSV_START) / 16 - (if Building(b) then 1 else 0)
  }

  /** The invariant of the writer: the header is consistent, the structure block is a run of whole tags, and every
      property name emitted so far resolves. */
  predicate Writing(b: bytes)
  {
    && Shape(b)
    && Scan(Written(b), 0).Some? && Resolved(Scan(Written(b), 0).value, Pool(b), Shift(b))
    && (Building(b) ==> ReserveAt(b, Field(b, OFF_STRUCT) - 16) == Reserve(0, 0))
  }

  function Log(b: bytes): (log: seq<Entry>)
    requires Writing(b)
  {
    LogOf(Scan(Written(b), 0).value, Pool(b), Shift(b))
  }

  /** What the blob under construction stands for. */
  function DraftOf(b: bytes): (d: Draft)
    requires Writing(b)
  {
    Draft(ReservesAt(b, RSV_START, Reserved(b)), Building(b), Log(b))
  }

  // ---------------------------------------------------------------- keeping a draft

  /** `c` has the reserve map and the state of `b`. */
  ghost predicate SameFront(b: bytes, c: bytes)
    requires Shape(b)
  {
    && Shape(c) && Field(c, OFF_STRUCT) == Field(b, OFF_STRUCT) && Building(c) == Building(b)
    && forall i | RSV_START <= i < Field(b, OFF_STRUCT) :: c[i] == b[i]
  }

  lemma FrontKeeps(b: bytes, c: bytes)
    requires Shape(b) && SameFront(b, c)
    ensures ReservesAt(c, RSV_START, Reserved(c)) == ReservesAt(b, RSV_START, Reserved(b))
    ensures Building(b) ==> ReserveAt(c, Field(c, OFF_STRUCT) - 16) == ReserveAt(b, Field(b, OFF_STRUCT) - 16)
  {
    hide Field, ReserveAt, ReservesAt;
    var e := RSV_START + 16 * Reserved(b);
    SameBytes(c[RSV_START..e], b[RSV_START..e]);
    SameReserves(b, c, RSV_START, RSV_START, Reserved(b));
    if Building(b) {
      SameBytes(c[e..e + 16], b[e..e + 16]);
      SameReserve(b, c, e, e);
    }
  }

  /** The same blocks say the same, wherever the strings have moved to. */
  lemma SameDraft(b: bytes, c: bytes)
    requires Writing(b) && SameFront(b, c) && Written(c) == Written(b) && Pool(c) == Pool(b)
    ensures Writing(c) && DraftOf(c) == DraftOf(b)
  {
    hide Field, ReserveAt, ReservesAt, Scan, Written, Pool, LogOf, Resolved;
    FrontKeeps(b, c);
  }

  /** A string put in front of the strings leaves every emitted name alone. */
  lemma PrependKeeps(ts: seq<Token>, t: bytes, x: bytes, shift: int)
    requires Resolved(ts, t, shift)
    ensures Resolved(ts, x + t, shift + |x|) && LogOf(ts, x + t, shift + |x|) == LogOf(ts, t, shift)
  {
    hide NameAt;
    forall i | 0 <= i < |ts|
      ensures ResolvedTok(ts[i], x + t, shift + |x|) && EntryOf(ts[i], x + t, shift + |x|) == EntryOf(ts[i], t, shift)
    {
      assert ResolvedTok(ts[i], t, shift);
      if ts[i].Prop? {
        NameBehind(t, x, ts[i].nameoff + shift);
      }
    }
  }

  lemma NameBehind(t: bytes, x: bytes, no: int)
    requires NameAt(t, no).Some?
    ensures NameAt(x + t, no + |x|) == NameAt(t, no)
  {
    var name := NameAt(t, no).value;
    var k := no + |x|;
    assert (x + t)[k..k + |name| + 1] == t[no..no + |name| + 1];
    NameAtIs(x + t, k, name);
  }

  /** The strings of `c` are those of `b` with `x` in front. */
  lemma PrependDraft(b: bytes, c: bytes, x: bytes)
    requires Writing(b) && SameFront(b, c) && Written(c) == Written(b) && Pool(c) == x + Pool(b)
    ensures Writing(c) && DraftOf(c) == DraftOf(b)
  {
    hide Field, ReserveAt, ReservesAt, Scan, Written, Pool, LogOf, Resolved;
    FrontKeeps(b, c);
    PrependKeeps(Scan(Written(b), 0).value, Pool(b), x, Shift(b));
  }

  /** One more tag behind the others. */
  lemma EmitDraft(b: bytes, c: bytes, tok: Token)
    requires Writing(b) && SameFront(b, c) && WfTok(tok) && Written(c) == Written(b) + EncTok(tok) && Pool(c) == Pool(b)
    requires ResolvedTok(tok, Pool(b), Shift(b))
    ensures Writing(c)
    ensures DraftOf(c) == DraftOf(b).(log := DraftOf(b).log + [EntryOf(tok, Pool(b), Shift(b))])
  {
    hide Field, ReserveAt, ReservesAt, Scan, Written, Pool, LogOf, Resolved, EncTok, At, EntryOf, ResolvedTok;
    FrontKeeps(b, c);
    var s := Written(b);
    var ts := Scan(s, 0).value;
    AlignedSmall();
    EncScan(s, 0);
    WholeRun(s, ts);
    EncToksOne(tok);
    EncToksCat(ts, [tok]);
    WholeRun(Written(c), ts + [tok]);
    ScanEnc(Written(c), 0, ts + [tok]);
    LogAppend(ts, tok, Pool(b), Shift(b));
  }

  lemma WholeRun(s: bytes, ts: seq<Token>)
    requires WfToks(ts)
    ensures At(s, 0, EncToks(ts)) && |EncToks(ts)| == |s| <==> s == EncToks(ts)
  {
    hide EncToks, WfTok;
    if |EncToks(ts)| == |s| {
      assert s[0..0 + |EncToks(ts)|] == s;
    }
  }

  lemma LogAppend(ts: seq<Token>, tok: Token, t: bytes, shift: int)
    requires Resolved(ts, t, shift) && ResolvedTok(tok, t, shift)
    ensures Resolved(ts + [tok], t, shift)
    ensures LogOf(ts + [tok], t, shift) == LogOf(ts, t, shift) + [EntryOf(tok, t, shift)]
  {
    hide EntryOf, ResolvedTok;
  }

  // ---------------------------------------------------------------- probes and space

  /** `fdt_sw_probe_`. */
  function Probe(b: bytes): (r: int)
    requires |b| >= HEADER_SIZE
  {
    if Field(b, MAGIC) == FDT_MAGIC then -ERR_BADSTATE
    else if Field(b, MAGIC) != SW_MAGIC then -ERR_BADMAGIC
    else 0
  }

  /** `fdt_sw_probe_memrsv_`. */
  function ProbeMemrsv(b: bytes): (r: int)
    requires |b| >= HEADER_SIZE
  {
    if Probe(b) != 0 then Probe(b) else if Field(b, OFF_STRINGS) != 0 then -ERR_BADSTATE else 0
  }

  /** `fdt_sw_probe_struct_`. */
  function ProbeStruct(b: bytes): (r: int)
    requires |b| >= HEADER_SIZE
  {
    if Probe(b) != 0 then Probe(b) else if Field(b, OFF_STRINGS) != Field(b, TOTALSIZE) then -ERR_BADSTATE else 0
  }

  /** A buffer that a client may hand to the writer: one under construction, or one the probes turn away. */
  predicate Callable(b: bytes)
  {
    HEADER_SIZE <= |b| && (Probe(b) == 0 ==> Writing(b))
  }

  /** The room between the structure block and the strings. */
  function Room(b: bytes): (n: int)
    requires Shape(b)
    ensures n >= 0
  {
    Low(b) - Top(b)
  }

  /** `c` is `b` with `x` behind the structure block. */
  ghost predicate Emitted(b: bytes, c: bytes, x: bytes)
    requires Shape(b)
  {
    && SameFront(b, c) && |c| == |b| && Written(c) == Written(b) + x && Pool(c) == Pool(b)
    && Field(c, TOTALSIZE) == Field(b, TOTALSIZE) && Field(c, OFF_STRINGS) == Field(b, OFF_STRINGS)
    && Field(c, LAST_COMP) == Field(b, LAST_COMP) && Field(c, BOOT_CPUID) == Field(b, BOOT_CPUID)
  }

  /** `fdt_grab_space_`: the position in the buffer of `len` fresh bytes behind the structure block.  What those
      bytes hold is what the buffer held there. */
  method GrabSpace(fdt: array<byte>, len: nat) returns (p: Option<nat>)
    requires Shape(fdt[..]) && Building(fdt[..])
    modifies fdt
    ensures var b := old(fdt[..]);
      && (p.Some? <==> len <= Room(b))
      && (p.None? ==> fdt[..] == b)
      && (p.Some? ==>
           p.value == Top(b) && p.value + len <= fdt.Length && Emitted(b, fdt[..], b[p.value..p.value + len]))
      && (p.Some? ==> Top(fdt[..]) == p.value + len)
  {
    hide Field;
    ghost var b := fdt[..];
    var offset := Field(fdt[..], SIZE_STRUCT);
    var spaceleft := (Field(fdt[..], TOTALSIZE) - Field(fdt[..], OFF_STRUCT) - Field(fdt[..], SIZE_STRINGS)) % TWO32;
    if offset + len > spaceleft {
      return None;
    }
    SetField(fdt, SIZE_STRUCT, offset + len);
    p := Some(Field(fdt[..], OFF_STRUCT) + offset);
    GrabbedIs(b, fdt[..], len);
  }

  lemma GrabbedIs(b: bytes, c: bytes, len: nat)
    requires Shape(b) && Building(b) && len <= Room(b) && |c| == |b|
    requires forall k: nat | k < 10 && k != SIZE_STRUCT :: Field(c, k) == Field(b, k)
    requires Field(c, SIZE_STRUCT) == Field(b, SIZE_STRUCT) + len
    requires forall i | HEADER_SIZE <= i < |b| :: c[i] == b[i]
    ensures Emitted(b, c, b[Top(b)..Top(b) + len])
  {
    hide Field;
    var o := Field(b, OFF_STRUCT);
    SameBytes(c[o..Top(b) + len], b[o..Top(b) + len]);
    Cut(b, o, Top(b), Top(b) + len);
    SameBytes(Pool(c), Pool(b));
  }

  /** Filling bytes that have just been grabbed. */
  method Fill(fdt: array<byte>, p: nat, x: bytes, ghost b: bytes, ghost was: bytes)
    requires Shape(b) && |b| == fdt.Length && Emitted(b, fdt[..], was)
    requires Top(b) <= p && p + |x| <= Top(b) + |was|
    modifies fdt
    ensures p - Top(b) + |x| <= |was| && Emitted(b, fdt[..], Put(was, p - Top(b), x))
  {
    hide Field, Put;
    ghost var c := fdt[..];
    EmittedTop(b, c, was);
    MemCpy(fdt, p, x);
    FieldFrame(c, fdt[..]);
    FillIs(b, c, fdt[..], was, p, x);
  }

  lemma EmittedTop(b: bytes, c: bytes, x: bytes)
    requires Shape(b) && Emitted(b, c, x)
    ensures Shape(c) && Top(c) == Top(b) + |x| <= Low(b) == Low(c) && Top(c) <= |c| == |b| && HEADER_SIZE <= Top(b)
  {
    hide Field;
    assert |Written(c)| == |Written(b)| + |x| && |Pool(c)| == |Pool(b)|;
  }

  lemma FillIs(b: bytes, c: bytes, d: bytes, was: bytes, p: nat, x: bytes)
    requires Shape(b) && Emitted(b, c, was) && |d| == |c| && Top(b) <= p && p + |x| <= Top(b) + |was|
    requires forall k: nat | k < 10 :: Field(d, k) == Field(c, k)
    requires p + |x| <= |c| && d == Put(c, p, x)
    ensures Emitted(b, d, Put(was, p - Top(b), x))
  {
    hide Field;
    EmittedTop(b, c, was);
    assert Top(d) == Top(c) && Low(d) == Low(c);
    var o := Field(b, OFF_STRUCT);
    PutInSlice(c, p, x, o, Top(c));
    PutBehind(Written(b), was, p - Top(b), x);
    PutOutside(c, p, x, Low(c), Field(c, TOTALSIZE));
    forall i | RSV_START <= i < o ensures d[i] == b[i] {
      assert d[i] == c[i];
    }
  }

  /** Emitting a whole tag. */
  lemma EmittedTok(b: bytes, c: bytes, tok: Token)
    requires Writing(b) && WfTok(tok) && Emitted(b, c, EncTok(tok)) && ResolvedTok(tok, Pool(b), Shift(b))
    ensures Writing(c)
    ensures DraftOf(c) == DraftOf(b).(log := DraftOf(b).log + [EntryOf(tok, Pool(b), Shift(b))])
  {
    hide Field, DraftOf, Writing, EntryOf, ResolvedTok, EncTok;
    EmitDraft(b, c, tok);
  }

  lemma BeginBytes(was: bytes, name: bytes)
    requires NoNul(name) && |was| == 4 + Align4(|name| + 1)
    ensures var pad := was[5 + |name|..]; var tok := Begin(name, pad);
      WfTok(tok) && Put(Put(was, 0, Word(BEGIN_NODE)), 4, CStr(name)) == EncTok(tok)
  {
    hide Word, Align4, Put;
    var n := 5 + |name|;
    var w, x, pad := Word(BEGIN_NODE), was[4..n], was[n..];
    Cut(was, 0, 4, n);
    Cut(was, 0, n, |was|);
    assert was == was[..4] + x + pad;
    Assoc(was[..4], x, pad);
    assert [] + was[..4] + (x + pad) == was;
    PutMiddle([], was[..4], x + pad, w);
    assert [] + w + (x + pad) == w + x + pad;
    PutMiddle(w, x, pad, CStr(name));
    Assoc(w, name, [0]);
  }

  lemma PropBytes(was: bytes, nameoff: int, len: nat)
    requires 0 <= nameoff < TWO32 && len < TWO31 && |was| == 12 + Align4(len)
    ensures var tok := Prop(nameoff, was[12..12 + len], was[12 + len..]);
      WfTok(tok) && Put(Put(Put(was, 0, Word(PROP)), 8, Word(nameoff)), 4, Word(len)) == EncTok(tok)
  {
    hide Word, Align4, Put;
    var a, b, c := Word(PROP), Word(len), Word(nameoff);
    var val, pad := was[12..12 + len], was[12 + len..];
    PropJoined(was, a, b, c);
    SameBytes(was[12..], val + pad);
    Assoc(a + b + c, val, pad);
  }

  lemma PropJoined(was: bytes, a: bytes, b: bytes, c: bytes)
    requires |was| >= 12 && |a| == |b| == |c| == 4
    ensures Put(Put(Put(was, 0, a), 8, c), 4, b) == a + b + c + was[12..]
  {
    SameBytes(Put(Put(Put(was, 0, a), 8, c), 4, b), a + b + c + was[12..]);
  }

  lemma ValueBytes(nameoff: int, stored: bytes, pad: bytes, val: bytes)
    requires WfTok(Prop(nameoff, stored, pad)) && |stored| == |val|
    ensures WfTok(Prop(nameoff, val, pad)) && |EncTok(Prop(nameoff, stored, pad))| == 12 + |val| + |pad|
    ensures Put(EncTok(Prop(nameoff, stored, pad)), 12, val) == EncTok(Prop(nameoff, val, pad))
  {
    hide Word, Align4, Put;
    PutMiddle(Word(PROP) + Word(|val|) + Word(nameoff), stored, pad, val);
  }

  /** Every byte that means something is as it was: all but the room between the structure block and the strings. */
  ghost predicate Unchanged(b: bytes, c: bytes)
    requires Shape(b)
  {
    |c| == |b| && forall i | 0 <= i < |b| && (i < Top(b) || Low(b) <= i) :: c[i] == b[i]
  }

  lemma UnchangedDraft(b: bytes, c: bytes)
    requires Writing(b) && Unchanged(b, c)
    ensures Writing(c) && DraftOf(c) == DraftOf(b)
  {
    FieldFrame(b, c);
    hide Field, DraftOf, Writing;
    assert Shape(b) by { assert Writing(b); ShapeOf(b); }
    SameBytes(Written(c), Written(b));
    SameBytes(Pool(c), Pool(b));
    SameDraft(b, c);
  }

  lemma ShapeOf(b: bytes)
    requires Writing(b)
    ensures Shape(b)
  {
  }

  /** From `b` to `c` the structure block has grown by `n` bytes and the strings by `x`, in front. */
  ghost predicate Stepped(b: bytes, c: bytes, n: int, x: bytes)
    requires Shape(b)
  {
    && Shape(c) && |c| == |b| && Building(c) == Building(b) && Pool(c) == x + Pool(b) && Room(c) == Room(b) - n - |x|
    && Field(c, TOTALSIZE) == Field(b, TOTALSIZE) && Field(c, LAST_COMP) == Field(b, LAST_COMP)
  }

  lemma EmittedStep(b: bytes, mid: bytes, c: bytes, tag: bytes, x: bytes)
    requires Shape(b) && Stepped(b, mid, 0, x) && Emitted(mid, c, tag)
    ensures Stepped(b, c, |tag|, x)
  {
    hide Field;
    EmittedTop(mid, c, tag);
  }

  lemma SteppedSelf(b: bytes)
    requires Shape(b)
    ensures Stepped(b, b, 0, [])
  {
    hide Field;
  }

  // ---------------------------------------------------------------- nodes

  /** `fdt_begin_node`. */
  method BeginNode(fdt: array<byte>, name: bytes) returns (err: int)
    requires Callable(fdt[..]) && NoNul(name) && |name| < INT_MAX
    modifies fdt
    ensures var b := old(fdt[..]);
      && (ProbeStruct(b) != 0 ==> err == ProbeStruct(b))
      && (ProbeStruct(b) == 0 ==> err == if 4 + Align4(|name| + 1) <= Room(b) then 0 else -ERR_NOSPACE)
      && (err != 0 ==> fdt[..] == b)
      && (err == 0 ==> Writing(fdt[..]) && DraftOf(fdt[..]) == DraftOf(b).(log := DraftOf(b).log + [Open(name)]))
      && (err == 0 ==> Stepped(b, fdt[..], 4 + Align4(|name| + 1), []))
  {
    hide Field, Scan, Resolved, Be, DraftOf, Word, Align4, Emitted, EncTok;
    if ProbeStruct(fdt[..]) != 0 {
      return ProbeStruct(fdt[..]);
    }
    ghost var b := fdt[..];
    var size := 4 + Align4(|name| + 1);
    var nh := GrabSpace(fdt, size);
    if nh.None? {
      return -ERR_NOSPACE;
    }
    ghost var was := b[nh.value..nh.value + size];
    Fill(fdt, nh.value, Word(BEGIN_NODE), b, was);
    Fill(fdt, nh.value + 4, CStr(name), b, Put(was, 0, Word(BEGIN_NODE)));
    BeginBytes(was, name);
    EmittedTok(b, fdt[..], Begin(name, was[5 + |name|..]));
    SteppedSelf(b);
    EmittedStep(b, b, fdt[..], EncTok(Begin(name, was[5 + |name|..])), []);
    err := 0;
  }

  /** `fdt_end_node`. */
  method CloseNode(fdt: array<byte>) returns (err: int)
    requires Callable(fdt[..])
    modifies fdt
    ensures var b := old(fdt[..]);
      && (ProbeStruct(b) != 0 ==> err == ProbeStruct(b))
      && (ProbeStruct(b) == 0 ==> err == if 4 <= Room(b) then 0 else -ERR_NOSPACE)
      && (err != 0 ==> fdt[..] == b)
      && (err == 0 ==> Writing(fdt[..]) && DraftOf(fdt[..]) == DraftOf(b).(log := DraftOf(b).log + [Close]))
      && (err == 0 ==> Stepped(b, fdt[..], 4, []))
  {
    hide Field, Scan, Resolved, Be, DraftOf, Word, Emitted;
    if ProbeStruct(fdt[..]) != 0 {
      return ProbeStruct(fdt[..]);
    }
    ghost var b := fdt[..];
    var en := GrabSpace(fdt, 4);
    if en.None? {
      return -ERR_NOSPACE;
    }
    ghost var was := b[en.value..en.value + 4];
    Fill(fdt, en.value, Word(END_NODE), b, was);
    assert Put(was, 0, Word(END_NODE)) == Word(END_NODE);
    EmittedTok(b, fdt[..], EndNode);
    SteppedSelf(b);
    EmittedStep(b, b, fdt[..], Word(END_NODE), []);
    err := 0;
  }

  // ---------------------------------------------------------------- strings

  /** The guard of `fdt_add_string_`, with the source's unsigned subtraction. */
  predicate StringFits(total: int, strtabsize: int, len: int, structTop: int)
  {
    (total - (strtabsize + len) % TWO32) % TWO32 >= structTop
  }

  /** The guard says what it means, that the string fits between the structure block and the strings, exactly
      when the strings and the new one together are no longer than the whole buffer. */
  lemma GuardIs(total: int, strtabsize: int, len: int, structTop: int)
    requires 0 <= structTop && 0 <= strtabsize && structTop + strtabsize <= total < TWO31 && 0 < len
    requires RSV_START <= structTop && strtabsize + len < TWO32
    ensures (StringFits(total, strtabsize, len, structTop) <==> structTop + strtabsize + len <= total)
      <==> strtabsize + len <= total
  {
  }

  /** A buffer of 64 bytes whose structure block ends at 64 has no room, yet the guard lets a string of 100 bytes
      pass. */
  lemma GuardFails()
    ensures StringFits(64, 0, 101, 64) && !(64 + 0 + 101 <= 64)
  {
  }

  /** `c` is `b` with the string `s` put in front of the strings. */
  ghost predicate Prepended(b: bytes, c: bytes, s: bytes)
    requires Shape(b)
  {
    && SameFront(b, c) && |c| == |b| && Written(c) == Written(b) && Pool(c) == CStr(s) + Pool(b)
    && (forall k: nat | k < 10 && k != SIZE_STRINGS :: Field(c, k) == Field(b, k))
    && (forall i | HEADER_SIZE <= i < |b| && (i < Top(b) || Low(b) <= i) :: c[i] == b[i])
  }

  /** `fdt_add_string_`: 0, or the new string's offset as the 32-bit pattern of a negative number. */
  method AddString(fdt: array<byte>, s: bytes) returns (r: int)
    requires Shape(fdt[..]) && Building(fdt[..]) && NoNul(s)
    requires Field(fdt[..], SIZE_STRINGS) + |s| + 1 <= Field(fdt[..], TOTALSIZE)
    modifies fdt
    ensures var b := old(fdt[..]);
      && (r == if |s| + 1 <= Room(b) then TWO32 - (Field(b, SIZE_STRINGS) + |s| + 1) else 0)
      && (r == 0 ==> fdt[..] == b)
      && (r != 0 ==> Prepended(b, fdt[..], s) && Field(fdt[..], SIZE_STRINGS) == Field(b, SIZE_STRINGS) + |s| + 1)
  {
    hide Field, StringFits, Prepended, Written, Pool;
    ghost var b := fdt[..];
    var strtab := Field(fdt[..], TOTALSIZE);
    var strtabsize := Field(fdt[..], SIZE_STRINGS);
    var len := |s| + 1;
    var offset := (strtabsize + len) % TWO32;
    Wrapped(strtabsize + len);
    var structTop := Field(fdt[..], OFF_STRUCT) + Field(fdt[..], SIZE_STRUCT);
    GuardIs(strtab, strtabsize, len, structTop);
    if !StringFits(strtab, strtabsize, len, structTop) {
      return 0;
    }
    MemCpy(fdt, strtab - offset, CStr(s));
    ghost var b1 := fdt[..];
    FieldFrame(b, b1);
    SetField(fdt, SIZE_STRINGS, strtabsize + len);
    PrependedIs(b, fdt[..], s);
    r := (-offset) % TWO32;
  }

  lemma Wrapped(n: int)
    requires 0 < n < TWO32
    ensures n % TWO32 == n && (-n) % TWO32 == TWO32 - n
  {
  }

  lemma PrependedIs(b: bytes, c: bytes, s: bytes)
    requires Shape(b) && Building(b) && |s| + 1 <= Room(b) && |c| == |b|
    requires forall k: nat | k < 10 && k != SIZE_STRINGS :: Field(c, k) == Field(b, k)
    requires Field(c, SIZE_STRINGS) == Field(b, SIZE_STRINGS) + |s| + 1
    requires forall i | HEADER_SIZE <= i < |b| && !(Low(b) - |s| - 1 <= i < Low(b)) :: c[i] == b[i]
    requires forall i | Low(b) - |s| - 1 <= i < Low(b) :: c[i] == CStr(s)[i - Low(b) + |s| + 1]
    ensures Prepended(b, c, s)
  {
    hide Field;
    SameBytes(Written(c), Written(b));
    var u, v := Pool(c), CStr(s) + Pool(b);
    forall i | 0 <= i < |u| ensures u[i] == v[i] {
      assert u[i] == c[Low(c) + i];
      if i > |s| {
        assert v[i] == Pool(b)[i - |s| - 1] == b[Low(b) + i - |s| - 1];
      }
    }
    SameBytes(u, v);
  }

  /** `fdt_del_last_string_`: what it rolls back to is the blob before the string, byte for byte. */
  method DelLastString(fdt: array<byte>, s: bytes, ghost b: bytes)
    requires Shape(b) && |b| == fdt.Length && Prepended(b, fdt[..], s)
    requires Field(fdt[..], SIZE_STRINGS) == Field(b, SIZE_STRINGS) + |s| + 1
    modifies fdt
    ensures Unchanged(b, fdt[..])
  {
    hide Field;
    var strtabsize := Field(fdt[..], SIZE_STRINGS);
    SetField(fdt, SIZE_STRINGS, (strtabsize - (|s| + 1)) % TWO32);
    HeaderBytes(fdt[..], b);
    forall i | 0 <= i < |b| && (i < Top(b) || Low(b) <= i) ensures fdt[i] == b[i] {
      if i < HEADER_SIZE {
        assert fdt[i] == fdt[..][..HEADER_SIZE][i] == b[..HEADER_SIZE][i];
      }
    }
  }

  /** The client asked for `FDT_CREATE_FLAG_NO_NAME_DEDUP`. */
  predicate NoDedup(b: bytes)
    requires |b| >= HEADER_SIZE
  {
    Field(b, LAST_COMP) % 2 == 1
  }

  /** Whether writing a property called `name` stores a new string. */
  predicate NewName(b: bytes, name: bytes)
    requires Shape(b)
  {
    NoDedup(b) || R.FindStr(Pool(b), name, 0).None?
  }

  /** The name of a property, found or stored: 0, or its offset as the 32-bit pattern of a negative number. */
  method FindAddString(fdt: array<byte>, s: bytes) returns (r: int, isNew: bool)
    requires Writing(fdt[..]) && Building(fdt[..]) && NoNul(s)
    requires NewName(fdt[..], s) ==> Field(fdt[..], SIZE_STRINGS) + |s| + 1 <= Field(fdt[..], TOTALSIZE)
    modifies fdt
    ensures var b := old(fdt[..]); var c := fdt[..];
      && (r == 0 <==> NewName(b, s) && |s| + 1 > Room(b))
      && (r == 0 ==> c == b)
      && (isNew == NewName(b, s))
      && (r != 0 && !isNew ==> c == b)
      && (r != 0 && isNew ==> Prepended(b, c, s) && Field(c, SIZE_STRINGS) == Field(b, SIZE_STRINGS) + |s| + 1)
      && (r != 0 ==> Writing(c) && DraftOf(c) == DraftOf(b) && Building(c))
      && (r != 0 ==> Room(c) == Room(b) - if isNew then |s| + 1 else 0)
      && (r != 0 ==> 0 <= r < TWO32 && NameAt(Pool(c), r + Shift(c)) == Some(s))
  {
    hide Field, Scan, Resolved, Be, DraftOf, Prepended, Written, Pool, NameAt, Writing, CStr;
    ShapeOf(fdt[..]);
    ghost var b := fdt[..];
    if NoDedup(fdt[..]) {
      isNew := true;
      r := AddString(fdt, s);
    } else {
      var strtab := Field(fdt[..], TOTALSIZE);
      var strtabsize := Field(fdt[..], SIZE_STRINGS);
      PoolIs(fdt[..]);
      var p := R.FindString(fdt, strtab - strtabsize, strtabsize, s);
      if p.Some? {
        FoundName(Pool(b), s, p.value);
        Wrapped(strtabsize - p.value);
        return (p.value - strtabsize) % TWO32, false;
      }
      isNew := true;
      r := AddString(fdt, s);
    }
    if r != 0 {
      AddedName(b, fdt[..], s);
    }
  }

  lemma PoolIs(b: bytes)
    requires Shape(b)
    ensures 0 <= Low(b) <= Field(b, TOTALSIZE) <= |b| && Pool(b) == b[Low(b)..Low(b) + Field(b, SIZE_STRINGS)]
  {
  }

  lemma AddedName(b: bytes, c: bytes, s: bytes)
    requires Writing(b) && Building(b) && NoNul(s) && Prepended(b, c, s)
    requires Field(c, SIZE_STRINGS) == Field(b, SIZE_STRINGS) + |s| + 1
    ensures Writing(c) && DraftOf(c) == DraftOf(b) && Building(c) && Room(c) == Room(b) - |s| - 1
    ensures NameAt(Pool(c), TWO32 - (Field(b, SIZE_STRINGS) + |s| + 1) + Shift(c)) == Some(s)
  {
    hide Field, Scan, Resolved, Be, DraftOf, Writing;
    ShapeOf(b);
    NameAtFront(s, Pool(b));
    PrependDraft(b, c, CStr(s));
  }

  lemma FoundName(t: bytes, s: bytes, p: nat)
    requires NoNul(s) && R.FindStr(t, s, 0) == Some(p)
    ensures p < |t| && NameAt(t, p) == Some(s)
  {
    NameAtIs(t, p, s);
  }

  lemma NameAtFront(s: bytes, t: bytes)
    requires NoNul(s)
    ensures NameAt(CStr(s) + t, 0) == Some(s)
  {
    var u := CStr(s) + t;
    assert u[0..|CStr(s)|] == CStr(s);
    NameAtIs(u, 0, s);
  }

  // ---------------------------------------------------------------- properties

  /** What a property costs. */
  function PropertyCost(b: bytes, name: bytes, len: nat): (n: int)
    requires Shape(b)
  {
    (if NewName(b, name) then |name| + 1 else 0) + 12 + Align4(len)
  }

  /** What a property called `name` adds to the strings. */
  function AddedString(b: bytes, name: bytes): (x: bytes)
    requires Shape(b)
  {
    if NewName(b, name) then CStr(name) else []
  }

  lemma AddedStep(b: bytes, c: bytes, name: bytes)
    requires Shape(b) && Building(b)
    requires (if NewName(b, name) then Prepended(b, c, name) && Shape(c) && Room(c) == Room(b) - |name| - 1 else c == b)
    ensures Stepped(b, c, 0, AddedString(b, name))
  {
    hide Field;
  }

  /** `fdt_property_placeholder`: the position of the value.  `mid` is the blob once the name is stored, `tok` the
      tag. */
  method PropertyPlaceholder(fdt: array<byte>, name: bytes, len: nat)
    returns (err: int, p: nat, ghost mid: bytes, ghost tok: Token)
    requires Callable(fdt[..]) && NoNul(name) && len <= INT_MAX
    requires ProbeStruct(fdt[..]) == 0 && NewName(fdt[..], name) ==>
      Field(fdt[..], SIZE_STRINGS) + |name| + 1 <= Field(fdt[..], TOTALSIZE)
    modifies fdt
    ensures var b := old(fdt[..]);
      && (ProbeStruct(b) != 0 ==> err == ProbeStruct(b) && fdt[..] == b)
      && (ProbeStruct(b) == 0 ==> err == if PropertyCost(b, name, len) <= Room(b) then 0 else -ERR_NOSPACE)
      && (ProbeStruct(b) == 0 && err != 0 ==> Unchanged(b, fdt[..]))
      && (err == 0 ==>
        && Writing(mid) && |mid| == |b| && DraftOf(mid) == DraftOf(b) && Stepped(b, mid, 0, AddedString(b, name))
        && tok.Prop? && WfTok(tok) && |tok.val| == len && NameAt(Pool(mid), tok.nameoff + Shift(mid)) == Some(name)
        && Emitted(mid, fdt[..], EncTok(tok)) && p == Top(mid) + 12 && p + len <= |b|)
  {
    hide Field, Scan, Resolved, Be, DraftOf, Word, Align4, EncTok, Emitted, Prepended, Stepped, AddedString, NameAt,
         Pool, Put;
    mid, tok, p := [], Nop, 0;
    if ProbeStruct(fdt[..]) != 0 {
      return ProbeStruct(fdt[..]), p, mid, tok;
    }
    ghost var b := fdt[..];
    var nameoff, isNew := FindAddString(fdt, name);
    if nameoff == 0 {
      return -ERR_NOSPACE, p, mid, tok;
    }
    mid := fdt[..];
    AddedStep(b, mid, name);
    var size := 12 + Align4(len);
    var prop := GrabSpace(fdt, size);
    if prop.None? {
      if isNew {
        DelLastString(fdt, name, b);
      }
      return -ERR_NOSPACE, p, mid, tok;
    }
    ghost var was := mid[prop.value..prop.value + size];
    Fill(fdt, prop.value, Word(PROP), mid, was);
    Fill(fdt, prop.value + 8, Word(nameoff), mid, Put(was, 0, Word(PROP)));
    Fill(fdt, prop.value + 4, Word(len), mid, Put(Put(was, 0, Word(PROP)), 8, Word(nameoff)));
    PropBytes(was, nameoff, len);
    tok := Prop(nameoff, was[12..12 + len], was[12 + len..]);
    return 0, prop.value + 12, mid, tok;
  }

  /** `fdt_property`. */
  method Property(fdt: array<byte>, name: bytes, val: bytes) returns (err: int)
    requires Callable(fdt[..]) && NoNul(name) && |val| <= INT_MAX
    requires ProbeStruct(fdt[..]) == 0 && NewName(fdt[..], name) ==>
      Field(fdt[..], SIZE_STRINGS) + |name| + 1 <= Field(fdt[..], TOTALSIZE)
    modifies fdt
    ensures var b := old(fdt[..]);
      && (ProbeStruct(b) != 0 ==> err == ProbeStruct(b) && fdt[..] == b)
      && (ProbeStruct(b) == 0 ==> err == if PropertyCost(b, name, |val|) <= Room(b) then 0 else -ERR_NOSPACE)
      && (ProbeStruct(b) == 0 && err != 0 ==>
           Unchanged(b, fdt[..]) && Writing(fdt[..]) && DraftOf(fdt[..]) == DraftOf(b))
      && (err == 0 ==> Writing(fdt[..]) && DraftOf(fdt[..]) == DraftOf(b).(log := DraftOf(b).log + [Set(name, val)]))
      && (err == 0 ==> Stepped(b, fdt[..], 12 + Align4(|val|), AddedString(b, name)))
  {
    hide Field, Scan, Resolved, Be, DraftOf, Word, Align4, EncTok, Emitted;
    ghost var b := fdt[..];
    var ptr;
    ghost var mid, tok;
    err, ptr, mid, tok := PropertyPlaceholder(fdt, name, |val|);
    if err != 0 {
      if ProbeStruct(b) == 0 {
        UnchangedDraft(b, fdt[..]);
      }
      return;
    }
    ValueBytes(tok.nameoff, tok.val, tok.pad, val);
    Fill(fdt, ptr, val, mid, EncTok(tok));
    EmittedTok(mid, fdt[..], Prop(tok.nameoff, val, tok.pad));
    EmittedStep(b, mid, fdt[..], EncTok(Prop(tok.nameoff, val, tok.pad)), AddedString(b, name));
  }
}
