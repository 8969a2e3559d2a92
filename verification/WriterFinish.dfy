/** `fdt_finish`: the strings move down behind the structure block, the name offsets are rewritten, and the blob
    reads back as what was written. */
module WriterFinish {
  import opened Bytes
  import opened Format
  import opened Tree
  import opened Blob
  import opened Reserves
  import opened TokenLog
  import opened Writer
  import opened Splicing
  import opened Editor
  import R = Reader

  // ---------------------------------------------------------------- name offsets

  /** A tag with its name offset counted from the front of the strings, which are `n` bytes long. */
  function RelocTok(tok: Token, n: nat): (r: Token)
    ensures WfTok(tok) ==> WfTok(r)
  {
    if tok.Prop? then tok.(nameoff := (tok.nameoff + n) % TWO32) else tok
  }

  function Reloc(ts: seq<Token>, n: nat): (r: seq<Token>)
    ensures |r| == |ts|
    ensures WfToks(ts) ==> WfToks(r)
  {
    seq(|ts|, i requires 0 <= i < |ts| => RelocTok(ts[i], n))
  }

  /** Relocation changes no name. */
  lemma RelocReads(ts: seq<Token>, t: bytes)
    requires |t| < TWO31 && WfToks(ts) && Resolved(ts, t, |t| - TWO32)
    ensures Resolved(Reloc(ts, |t|), t, 0) && LogOf(Reloc(ts, |t|), t, 0) == LogOf(ts, t, |t| - TWO32)
  {
    hide NameAt;
    forall i | 0 <= i < |ts|
      ensures ResolvedTok(RelocTok(ts[i], |t|), t, 0)
      ensures EntryOf(RelocTok(ts[i], |t|), t, 0) == EntryOf(ts[i], t, |t| - TWO32)
    {
      assert ResolvedTok(ts[i], t, |t| - TWO32) && WfTok(ts[i]);
      if ts[i].Prop? {
        NameInside(t, ts[i].nameoff + |t| - TWO32);
      }
    }
  }

  lemma NameInside(t: bytes, no: int)
    requires NameAt(t, no).Some?
    ensures 0 <= no < |t|
  {
  }

  lemma RelocLen(tok: Token, n: nat)
    requires WfTok(tok)
    ensures |EncTok(RelocTok(tok, n))| == |EncTok(tok)|
  {
    hide Word;
  }

  /** Rewriting the offset word of a property tag. */
  lemma RelocWord(tok: Token, n: nat)
    requires WfTok(tok) && tok.Prop?
    ensures |EncTok(tok)| >= 12 && Unword(EncTok(tok)[8..12]) == tok.nameoff
    ensures Put(EncTok(tok), 8, Word((tok.nameoff + n) % TWO32)) == EncTok(RelocTok(tok, n))
  {
    hide Word, Unword;
    assert EncTok(tok)[8..12] == Word(tok.nameoff);
  }

  // ---------------------------------------------------------------- the relocation walk

  /** The walk stands at `off`: what is before it has been relocated, what is behind it has not. */
  ghost predicate Walking(s: bytes, ts: seq<Token>, n: nat, i: nat, off: int)
  {
    && i <= |ts| && WfToks(ts) && |s| < TWO31 && Aligned(off) && WfToks(ts[i..]) && WfToks(Reloc(ts[..i], n))
    && At(s, 0, EncToks(Reloc(ts[..i], n))) && off == |EncToks(Reloc(ts[..i], n))|
    && At(s, off, EncToks(ts[i..])) && At(s, off + |EncToks(ts[i..])|, Word(END))
  }

  lemma WalkStart(s: bytes, ts: seq<Token>, n: nat)
    requires HoldsRun(s, ts)
    ensures Walking(s, ts, n, 0, 0)
  {
    hide EncTok, Word, WfTok;
    assert ts[0..] == ts;
    assert Reloc(ts[..0], n) == [];
    AlignedSmall();
    AtEmpty(s, 0);
  }

  /** What the walk finds: the next tag of the run, or its end. */
  lemma WalkLook(s: bytes, ts: seq<Token>, n: nat, i: nat, off: int)
    requires Walking(s, ts, n, i, off)
    ensures i <= |ts| && 0 <= off < |s| < TWO31
    ensures i == |ts| ==> HoldsRun(s, Reloc(ts, n)) && TagAt(s, off) == TagResult(END, off + 4)
    ensures i < |ts| ==>
      && WfTok(ts[i]) && At(s, off, EncTok(ts[i])) && Code(ts[i]) != END
      && TagAt(s, off) == TagResult(Code(ts[i]), off + |EncTok(ts[i])|)
      && (ts[i].Prop? ==> off + 12 <= |s| && Unword(s[off + 8..off + 12]) == ts[i].nameoff)
  {
    hide EncTok, Word, Unword, WfTok, TagAt, TokAt, EncToks;
    if i == |ts| {
      assert ts[..|ts|] == ts && ts[|ts|..] == [];
      NoToks();
      EndTag(s, off);
    } else {
      assert ts[i..][0] == ts[i];
      FirstTok(s, off, ts[i..]);
      if ts[i].Prop? {
        RelocWord(ts[i], n);
        SliceOfSlice(s, off, |EncTok(ts[i])|, 8, 12);
      }
    }
  }

  /** What one turn of the loop writes: a new name offset, when the tag `tok` at `off` is a property. */
  ghost predicate Rewrites(s: bytes, r: bytes, off: int, tok: Token, n: nat)
    requires WfTok(tok)
  {
    if tok.Prop? then 0 <= off && off + 12 <= |s| && r == Put(s, off + 8, Word((tok.nameoff + n) % TWO32)) else r == s
  }

  /** The tag `tok` stands behind the bytes `done` and before the bytes `rest` and the END tag. */
  ghost predicate Around(s: bytes, done: bytes, tok: Token, rest: bytes)
  {
    WfTok(tok) && |s| < TWO31 && Aligned(|done|) && At(s, 0, done + EncTok(tok) + rest + Word(END))
  }

  /** One step of the walk: the tag at `off` is relocated and nothing else changes. */
  lemma WalkStep(s: bytes, r: bytes, ts: seq<Token>, n: nat, i: nat, off: int)
    requires Walking(s, ts, n, i, off) && i < |ts| && |r| == |s| && WfTok(ts[i])
    requires Rewrites(s, r, off, ts[i], n)
    ensures Walking(r, ts, n, i + 1, off + |EncTok(ts[i])|)
  {
    hide EncTok, Word, Put, At, EncToks, WfTok, WfToks, RelocTok, Reloc, Rewrites, Walking, Around;
    RunHead(s, off, ts, n, i);
    var done, rest := EncToks(Reloc(ts[..i], n)), EncToks(ts[i + 1..]);
    WalkWrite(s, r, off, done, ts[i], n, rest);
    RunTail(r, off, ts, n, i);
  }

  /** The next tag of the run and the ones behind it. */
  lemma RunHead(s: bytes, off: int, ts: seq<Token>, n: nat, i: nat)
    requires Walking(s, ts, n, i, off) && i < |ts|
    ensures WfToks(ts) && WfToks(ts[i + 1..]) && WfToks(Reloc(ts[..i], n))
    ensures off == |EncToks(Reloc(ts[..i], n))|
    ensures Around(s, EncToks(Reloc(ts[..i], n)), ts[i], EncToks(ts[i + 1..]))
  {
    hide EncTok, EncToks, At, WfTok, TagAt, TokAt, Reloc, Aligned;
    assert ts[i..][0] == ts[i] && ts[i..][1..] == ts[i + 1..];
    FirstTok(s, off, ts[i..]);
    var done, rest := EncToks(Reloc(ts[..i], n)), EncToks(ts[i + 1..]);
    AtFour(s, 0, done, EncTok(ts[i]), rest, Word(END));
  }

  /** The walk has passed tag `i`. */
  lemma RunTail(r: bytes, off: int, ts: seq<Token>, n: nat, i: nat)
    requires i < |ts| && WfToks(ts) && WfToks(ts[i + 1..]) && WfToks(Reloc(ts[..i], n)) && WfTok(ts[i])
    requires off == |EncToks(Reloc(ts[..i], n))|
    requires Around(r, EncToks(Reloc(ts[..i], n)), RelocTok(ts[i], n), EncToks(ts[i + 1..]))
    ensures Walking(r, ts, n, i + 1, off + |EncTok(ts[i])|)
  {
    hide EncTok, EncToks, At, WfTok, Reloc, RelocTok, WfToks, Word, Aligned;
    RelocLen(ts[i], n);
    RelocSnoc(ts, n, i);
    var done, rest := EncToks(Reloc(ts[..i], n)), EncToks(ts[i + 1..]);
    AtSplit(r, 0, done + EncTok(RelocTok(ts[i], n)) + rest, Word(END));
    AtSplit(r, 0, done + EncTok(RelocTok(ts[i], n)), rest);
  }

  /** The write replaces one tag and leaves the tags before and behind it. */
  lemma WalkWrite(s: bytes, r: bytes, off: int, done: bytes, tok: Token, n: nat, rest: bytes)
    requires Around(s, done, tok, rest) && off == |done| && |r| == |s| && Rewrites(s, r, off, tok, n)
    ensures Around(r, done, RelocTok(tok, n), rest)
  {
    hide EncTok, Word, Put, At, Aligned;
    RelocLen(tok, n);
    var e := off + |EncTok(tok)|;
    AtSplit(s, 0, done + EncTok(tok) + rest, Word(END));
    AtSplit(s, 0, done + EncTok(tok), rest);
    AtSplit(s, 0, done, EncTok(tok));
    if tok.Prop? {
      RelocWord(tok, n);
      var x := Word((tok.nameoff + n) % TWO32);
      InBlock(s, off, EncTok(tok));
      PutMoves(s, off + 8, x, 0, done);
      PutMoves(s, off + 8, x, e, rest);
      PutMoves(s, off + 8, x, e + |rest|, Word(END));
      PutWithin(s, off, EncTok(tok), 8, x);
    }
    AtFour(r, 0, done, EncTok(RelocTok(tok, n)), rest, Word(END));
  }

  lemma PutWithin(s: bytes, off: nat, y: bytes, i: nat, x: bytes)
    requires At(s, off, y) && i + |x| <= |y|
    ensures off + i + |x| <= |s| && At(Put(s, off + i, x), off, Put(y, i, x))
  {
    InBlock(s, off, y);
    SpliceInner(s, off, y, i, |x|, x);
  }

  lemma RelocSnoc(ts: seq<Token>, n: nat, i: nat)
    requires WfToks(ts) && i < |ts|
    ensures WfToks(ts[i + 1..]) && WfToks(Reloc(ts[..i], n)) && WfToks(Reloc(ts[..i + 1], n))
    ensures WfTok(RelocTok(ts[i], n))
    ensures EncToks(Reloc(ts[..i + 1], n)) == EncToks(Reloc(ts[..i], n)) + EncTok(RelocTok(ts[i], n))
  {
    hide EncTok, RelocTok;
    var a := Reloc(ts[..i], n);
    assert Reloc(ts[..i + 1], n) == a + [RelocTok(ts[i], n)];
    assert WfTok(ts[i]);
    EncToksOne(RelocTok(ts[i], n));
    EncToksCat(a, [RelocTok(ts[i], n)]);
  }

  /** Same blob, another structure block of the same length. */
  ghost predicate OtherStruct(b: bytes, c: bytes)
    requires Sane(b)
  {
    && |c| == |b| && Sane(c) && (forall k: nat | k < 10 :: Field(c, k) == Field(b, k))
    && (forall i | 0 <= i < |b| && !(Field(b, OFF_STRUCT) <= i < Field(b, OFF_STRUCT) + Field(b, SIZE_STRUCT)) ::
         c[i] == b[i])
  }

  method PutStruct(fdt: array<byte>, off: nat, x: bytes)
    requires Sane(fdt[..]) && off + |x| <= |Struct(fdt[..])|
    modifies fdt
    ensures var b := old(fdt[..]); OtherStruct(b, fdt[..]) && Struct(fdt[..]) == Put(Struct(b), off, x)
  {
    hide Field;
    ghost var b := fdt[..];
    MemCpy(fdt, Field(fdt[..], OFF_STRUCT) + off, x);
    FieldFrame(b, fdt[..]);
    SameBytes(Struct(fdt[..]), Put(Struct(b), off, x));
  }

  /** The loop of `fdt_finish` over the tags `ts`. */
  method RelocateNames(fdt: array<byte>, ghost ts: seq<Token>) returns (err: int)
    requires Sane(fdt[..]) && HoldsRun(Struct(fdt[..]), ts)
    modifies fdt
    ensures err == 0 && OtherStruct(old(fdt[..]), fdt[..])
    ensures HoldsRun(Struct(fdt[..]), Reloc(ts, Field(old(fdt[..]), SIZE_STRINGS)))
  {
    hide Field, Struct, Word, Unword, HoldsRun, TagAt, EncTok, Put, Sane;
    ghost var b := fdt[..];
    ghost var n := Field(b, SIZE_STRINGS);
    ghost var i := 0;
    var offset := 0;
    WalkStart(Struct(b), ts, n);
    hide Walking;
    var tag, nextoffset := NextTag(fdt, offset);
    while tag != END
      invariant OtherStruct(b, fdt[..]) && i <= |ts| && R.IsInt(offset) && R.IsInt(nextoffset)
      invariant TagResult(tag, nextoffset) == TagAt(Struct(fdt[..]), offset)
      invariant Walking(Struct(fdt[..]), ts, n, i, offset)
      decreases |ts| - i
    {
      ghost var s := Struct(fdt[..]);
      WalkLook(s, ts, n, i, offset);
      if tag == PROP {
        var nameoff := R.StructWord(fdt, offset + 8);
        PutStruct(fdt, offset + 8, Word((nameoff + Field(fdt[..], SIZE_STRINGS)) % TWO32));
      }
      WalkStep(s, Struct(fdt[..]), ts, n, i, offset);
      offset := nextoffset;
      i := i + 1;
      tag, nextoffset := NextTag(fdt, offset);
    }
    WalkLook(Struct(fdt[..]), ts, n, i, offset);
    if nextoffset < 0 {
      return nextoffset;
    }
    return 0;
  }

  // ---------------------------------------------------------------- finishing

  /** `c` is the finished blob of the draft `b`: it reads back as the tree `a` exactly when the calls were those
      that write `a`, and its reserve map is the one that was entered. */
  ghost predicate Finished(b: bytes, c: bytes)
    requires Writing(b)
  {
    && |c| == |b| && Sane(c) && Field(c, MAGIC) == FDT_MAGIC && Field(c, LAST_COMP) == 16
    && Field(c, TOTALSIZE) == Top(b) + 4 + Field(b, SIZE_STRINGS)
    && (Field(c, TOTALSIZE) < INT_MAX ==> Editable(c))
    && ReserveList(c) == Some(UpToEmpty(DraftOf(b).reserves))
    && (forall a :: TreeOf(c) == Some(a) <==> DraftOf(b).log == Script(a))
  }

  /** `fdt_finish`. */
  method Finish(fdt: array<byte>) returns (err: int)
    requires Callable(fdt[..])
    modifies fdt
    ensures var b := old(fdt[..]); var c := fdt[..];
      && (ProbeStruct(b) != 0 ==> err == ProbeStruct(b))
      && (ProbeStruct(b) == 0 ==> err == if 4 <= Room(b) then 0 else -ERR_NOSPACE)
      && (err != 0 ==> c == b)
      && (err == 0 ==> Finished(b, c))
  {
    hide Field, Scan, Resolved, Be, DraftOf, Word, Written, Pool, Finished, Struct, Strings, HoldsRun, Emitted, Put;
    if ProbeStruct(fdt[..]) != 0 {
      return ProbeStruct(fdt[..]);
    }
    ghost var b := fdt[..];
    var end := GrabSpace(fdt, 4);
    if end.None? {
      return -ERR_NOSPACE;
    }
    ghost var was := b[end.value..end.value + 4];
    Fill(fdt, end.value, Word(END), b, was);
    ghost var b1 := fdt[..];
    PutWhole(was, Word(END));
    EmittedShape(b, b1, Word(END));
    var oldstroffset := Field(fdt[..], TOTALSIZE) - Field(fdt[..], SIZE_STRINGS);
    var newstroffset := Field(fdt[..], OFF_STRUCT) + Field(fdt[..], SIZE_STRUCT);
    MemMove(fdt, newstroffset, oldstroffset, Field(fdt[..], SIZE_STRINGS));
    FieldFrame(b1, fdt[..]);
    SetField(fdt, OFF_STRINGS, newstroffset);
    ghost var b2 := fdt[..];
    SettledIs(b, b1, b2);
    ghost var ts := Scan(Written(b), 0).value;
    SettledRun(b, b2);
    err := RelocateNames(fdt, ts);
    ghost var b3 := fdt[..];
    if err < 0 {
      return;
    }
    SetField(fdt, TOTALSIZE, newstroffset + Field(fdt[..], SIZE_STRINGS));
    SetField(fdt, LAST_COMP, 16);
    SetField(fdt, MAGIC, FDT_MAGIC);
    FinishedIs(b, b2, b3, fdt[..]);
  }

  lemma PutWhole(was: bytes, x: bytes)
    requires |was| == |x|
    ensures Put(was, 0, x) == x
  {
  }

  lemma EmittedShape(b: bytes, c: bytes, x: bytes)
    requires Shape(b) && Building(b) && Emitted(b, c, x)
    ensures Shape(c) && Building(c) && |c| == |b| && Top(c) == Top(b) + |x| && Low(c) == Low(b)
    ensures Field(c, SIZE_STRINGS) == Field(b, SIZE_STRINGS) && Field(c, OFF_STRUCT) == Field(b, OFF_STRUCT)
    ensures Written(c) == Written(b) + x && Pool(c) == Pool(b) && SameFront(b, c)
  {
    hide Field;
    EmittedTop(b, c, x);
    assert |Pool(c)| == |Pool(b)|;
  }

  /** The blob once the strings stand behind the structure block: what `fdt_next_tag` walks over. */
  ghost predicate Settled(b: bytes, c: bytes)
    requires Writing(b)
  {
    && Shape(b) && Sane(c) && |c| == |b|
    && Struct(c) == Written(b) + Word(END) && Strings(c) == Pool(b)
    && Field(c, OFF_RSVMAP) == RSV_START && Field(c, VERSION) == 17
    && Field(c, OFF_STRUCT) == Field(b, OFF_STRUCT) && RSV_START + 16 <= Field(c, OFF_STRUCT)
    && Field(c, SIZE_STRUCT) == |Written(b)| + 4
    && Field(c, OFF_STRINGS) == Field(c, OFF_STRUCT) + Field(c, SIZE_STRUCT)
    && Field(c, SIZE_STRINGS) == Field(b, SIZE_STRINGS)
    && (forall i | RSV_START <= i < Field(b, OFF_STRUCT) :: c[i] == b[i])
  }

  lemma SettledIs(b: bytes, b1: bytes, c: bytes)
    requires Writing(b) && Building(b) && Shape(b1) && Building(b1) && |b1| == |b| && |c| == |b|
    requires Top(b1) == Top(b) + 4 && SameFront(b, b1)
    requires Written(b1) == Written(b) + Word(END) && Pool(b1) == Pool(b)
    requires forall k: nat | k < 10 && k != OFF_STRINGS :: Field(c, k) == Field(b1, k)
    requires Field(c, OFF_STRINGS) == Top(b1)
    requires forall i | HEADER_SIZE <= i < Top(b1) :: c[i] == b1[i]
    requires forall i | Top(b1) <= i < Top(b1) + Field(b1, SIZE_STRINGS) :: c[i] == b1[i - Top(b1) + Low(b1)]
    ensures Settled(b, c)
  {
    hide Field, Scan, Resolved, Be, DraftOf, Word;
    assert |Pool(b1)| == |Pool(b)| && |Written(b1)| == |Written(b)| + 4;
    SameBytes(Struct(c), Written(b1));
    var u, v := Strings(c), Pool(b1);
    forall i | 0 <= i < |u| ensures u[i] == v[i] {
      assert u[i] == c[Top(b1) + i];
    }
    SameBytes(u, v);
  }

  lemma SettledRun(b: bytes, c: bytes)
    requires Writing(b) && Settled(b, c)
    ensures HoldsRun(Struct(c), Scan(Written(b), 0).value)
  {
    hide Field, Resolved, Be, Word, Written, Pool, Struct, Strings, Shape, Scan, At;
    var s := Written(b);
    AlignedSmall();
    EncScan(s, 0);
    WholeRun(s, Scan(s, 0).value);
    WholeAt(s + Word(END));
    AtSplit(s + Word(END), 0, s, Word(END));
  }

  lemma WholeAt(x: bytes)
    ensures At(x, 0, x)
  {
    assert x[0..0 + |x|] == x;
  }

  lemma FinishedIs(b: bytes, b2: bytes, b3: bytes, c: bytes)
    requires Writing(b) && Building(b) && Settled(b, b2) && OtherStruct(b2, b3) && |c| == |b3|
    requires HoldsRun(Struct(b3), Reloc(Scan(Written(b), 0).value, Field(b2, SIZE_STRINGS)))
    requires forall k: nat | k < 10 && k != TOTALSIZE && k != LAST_COMP && k != MAGIC :: Field(c, k) == Field(b3, k)
    requires Field(c, MAGIC) == FDT_MAGIC && Field(c, LAST_COMP) == 16
    requires Field(c, TOTALSIZE) == Field(b2, OFF_STRINGS) + Field(b2, SIZE_STRINGS)
    requires forall i | HEADER_SIZE <= i < |b3| :: c[i] == b3[i]
    ensures Finished(b, c)
  {
    hide Field, Resolved, Be, Word, Scan, HoldsRun, DraftOf, Written, Pool, TreeOf;
    FinishedBlocks(b, b2, b3, c);
    FinishedMap(b, b2, c);
    forall a ensures TreeOf(c) == Some(a) <==> DraftOf(b).log == Script(a) {
      FinishedTree(b, c, a);
    }
    TopIs(b);
  }

  lemma TopIs(b: bytes)
    requires Shape(b)
    ensures Top(b) == Field(b, OFF_STRUCT) + |Written(b)|
  {
  }

  lemma FinishedBlocks(b: bytes, b2: bytes, b3: bytes, c: bytes)
    requires Writing(b) && Settled(b, b2) && OtherStruct(b2, b3) && |c| == |b3|
    requires forall k: nat | k < 10 && k != TOTALSIZE && k != LAST_COMP && k != MAGIC :: Field(c, k) == Field(b3, k)
    requires Field(c, TOTALSIZE) == Field(b2, OFF_STRINGS) + Field(b2, SIZE_STRINGS)
    requires forall i | HEADER_SIZE <= i < |b3| :: c[i] == b3[i]
    ensures Sane(c) && Struct(c) == Struct(b3) && Strings(c) == Pool(b)
  {
    hide Field, Resolved, Be, Word, Scan, Written, Pool;
    SameBytes(Struct(c), Struct(b3));
    SameBytes(Strings(c), Strings(b2));
  }

  lemma FinishedMap(b: bytes, b2: bytes, c: bytes)
    requires Writing(b) && Building(b) && Settled(b, b2) && Sane(c) && |c| == |b|
    requires Field(c, OFF_RSVMAP) == RSV_START && Field(c, OFF_STRUCT) == Field(b, OFF_STRUCT)
    requires forall i | RSV_START <= i < Field(b, OFF_STRUCT) :: c[i] == b2[i]
    ensures ReserveList(c) == Some(UpToEmpty(DraftOf(b).reserves))
  {
    hide Field, Resolved, Be, Word, Scan, Written, Pool, ReserveAt;
    var n := Reserved(b);
    var e := RSV_START + 16 * n;
    SameBytes(c[RSV_START..e], b[RSV_START..e]);
    SameReserves(b, c, RSV_START, RSV_START, n);
    SameBytes(c[e..e + 16], b[e..e + 16]);
    SameReserve(b, c, e, e);
    ReserveListIs(c, n);
  }

  lemma FinishedTree(b: bytes, c: bytes, a: Tree)
    requires Writing(b) && Sane(c) && Strings(c) == Pool(b)
    requires HoldsRun(Struct(c), Reloc(Scan(Written(b), 0).value, |Pool(b)|))
    ensures TreeOf(c) == Some(a) <==> DraftOf(b).log == Script(a)
  {
    hide Field, Resolved, Be, Word, Scan, HoldsRun, Written, Pool, LogOf, Struct, Strings, ForestOf, Reloc;
    var ts := Scan(Written(b), 0).value;
    var t := Pool(b);
    AlignedSmall();
    EncScan(Written(b), 0);
    RelocReads(ts, t);
    RunIsTree(Struct(c), Reloc(ts, |t|), t, a);
  }
}
