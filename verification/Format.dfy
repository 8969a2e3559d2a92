/** The layout of a flattened device tree, version 17: the ten header words, the tags of the structure
    block, and the concrete syntax of a tree. */
module Format {
  import opened Bytes

  // ---------------------------------------------------------------- header

  const MAGIC := 0
  const TOTALSIZE := 1
  const OFF_STRUCT := 2
  const OFF_STRINGS := 3
  const OFF_RSVMAP := 4
  const VERSION := 5
  const LAST_COMP := 6
  const BOOT_CPUID := 7
  const SIZE_STRINGS := 8
  const SIZE_STRUCT := 9

  const HEADER_SIZE: int := 40
  const FDT_MAGIC: int := 0xd00d_feed
  const SW_MAGIC: int := 0x2ff2_0112 // ~FDT_MAGIC

  /** Header word `k` of the blob `b`. */
  function Field(b: bytes, k: nat): (v: int)
    requires |b| >= HEADER_SIZE && k < 10
    ensures 0 <= v < TWO32
  {
    Unword(b[4 * k..4 * k + 4])
  }

  lemma FieldPut(b: bytes, k: nat, v: int, j: nat)
    requires |b| >= HEADER_SIZE && k < 10 && j < 10 && 0 <= v < TWO32
    ensures Field(Put(b, 4 * k, Word(v)), j) == if j == k then v else Field(b, j)
  {
    if j == k {
      PutInside(b, 4 * k, Word(v));
    } else {
      PutOutside(b, 4 * k, Word(v), 4 * j, 4 * j + 4);
    }
  }

  /** The header words determine the header bytes. */
  lemma HeaderBytes(b: bytes, c: bytes)
    requires |b| >= HEADER_SIZE && |c| >= HEADER_SIZE
    requires forall k: nat | k < 10 :: Field(b, k) == Field(c, k)
    ensures b[..HEADER_SIZE] == c[..HEADER_SIZE]
  {
    forall i | 0 <= i < HEADER_SIZE ensures b[i] == c[i] {
      var k := i / 4;
      assert Field(b, k) == Field(c, k);
      WordOfUnword(b[4 * k..4 * k + 4]);
      WordOfUnword(c[4 * k..4 * k + 4]);
      assert b[i] == b[4 * k..4 * k + 4][i % 4] == c[4 * k..4 * k + 4][i % 4] == c[i];
    }
  }

  /** Bytes outside the header leave every header word alone. */
  lemma FieldFrame(b: bytes, c: bytes)
    requires |b| >= HEADER_SIZE && |c| >= HEADER_SIZE
    requires forall i | 0 <= i < HEADER_SIZE :: b[i] == c[i]
    ensures forall k: nat | k < 10 :: Field(b, k) == Field(c, k)
  {
    forall k: nat | k < 10 ensures Field(b, k) == Field(c, k) {
      assert b[4 * k..4 * k + 4] == c[4 * k..4 * k + 4];
    }
  }

  method SetField(fdt: array<byte>, k: nat, v: int)
    requires fdt.Length >= HEADER_SIZE && k < 10 && 0 <= v < TWO32
    modifies fdt
    ensures forall j: nat | j < 10 :: Field(fdt[..], j) == if j == k then v else old(Field(fdt[..], j))
    ensures forall i | HEADER_SIZE <= i < fdt.Length :: fdt[i] == old(fdt[i])
  {
    ghost var was := fdt[..];
    MemCpy(fdt, 4 * k, Word(v));
    forall j: nat | j < 10 ensures Field(fdt[..], j) == if j == k then v else Field(was, j) {
      FieldPut(was, k, v, j);
    }
  }

  /** The same for a blob that starts at `base`. */
  method SetFieldAt(mem: array<byte>, base: nat, k: nat, v: int)
    requires base + HEADER_SIZE <= mem.Length && k < 10 && 0 <= v < TWO32
    modifies mem
    ensures var b := old(mem[base..]); var c := mem[base..];
      && (forall j: nat | j < 10 :: Field(c, j) == if j == k then v else Field(b, j))
      && (forall i | HEADER_SIZE <= i < |b| :: c[i] == b[i])
    ensures forall i | 0 <= i < mem.Length && !(base <= i < base + HEADER_SIZE) :: mem[i] == old(mem[i])
  {
    ghost var b := mem[base..];
    MemCpy(mem, base + 4 * k, Word(v));
    SameBytes(mem[base..], Put(b, 4 * k, Word(v)));
    forall j: nat | j < 10 ensures Field(mem[base..], j) == if j == k then v else Field(b, j) {
      FieldPut(b, k, v, j);
    }
  }

  // ---------------------------------------------------------------- tags

  const BEGIN_NODE := 1
  const END_NODE := 2
  const PROP := 3
  const NOP := 4
  const END := 9

  const ERR_NOTFOUND := 1
  const ERR_EXISTS := 2
  const ERR_NOSPACE := 3
  const ERR_BADOFFSET := 4
  const ERR_BADPHANDLE := 6
  const ERR_BADSTATE := 7
  const ERR_TRUNCATED := 8
  const ERR_BADMAGIC := 9
  const ERR_BADVERSION := 10
  const ERR_BADSTRUCTURE := 11
  const ERR_BADLAYOUT := 12
  const ERR_INTERNAL := 13
  const ERR_BADOVERLAY := 16
  const ERR_NOPHANDLES := 17
  const ERR_BADFLAGS := 18

  const INT_MAX: int := 0x7fff_ffff

  /** A tag and the offset of the tag after it; a negative `next` is an error code and comes with `END`. */
  datatype TagResult = TagResult(tag: int, next: int)

  /** `fdt_next_tag` on the structure block `s`. */
  function TagAt(s: bytes, off: int): (r: TagResult)
    ensures r.next < 0 ==> r.tag == END
    ensures r.next >= 0 ==> off >= 0 && off + 4 <= |s| && off + 4 <= r.next < |s| + 4 && Aligned(r.next)
    ensures r.next >= 0 ==> r.tag == Unword(s[off..off + 4])
    ensures r.tag in {BEGIN_NODE, END_NODE, PROP, NOP, END}
  {
    if off < 0 || off + 4 > |s| then TagResult(END, -ERR_TRUNCATED) else
    var tag := Unword(s[off..off + 4]);
    if tag == BEGIN_NODE then
      var k := NulAt(s, off + 4);
      if k == |s| then TagResult(END, -ERR_BADSTRUCTURE) else TagResult(tag, Align4(k + 1))
    else if tag == PROP then
      if off + 8 > |s| then TagResult(END, -ERR_BADSTRUCTURE) else
      var len := Unword(s[off + 4..off + 8]);
      var sum := (len + off + 4) % TWO32;
      if INT_MAX <= sum || sum < off + 4 then TagResult(END, -ERR_BADSTRUCTURE) else
      if off + 12 + len > |s| then TagResult(END, -ERR_BADSTRUCTURE) else TagResult(tag, Align4(off + 12 + len))
    else if tag == END_NODE || tag == NOP || tag == END then TagResult(tag, Align4(off + 4))
    else TagResult(END, -ERR_BADSTRUCTURE)
  }

  // ---------------------------------------------------------------- tokens

  function PadLen(n: nat): (k: nat) { Align4(n) - n }

  /** One tag of the structure block with its payload; `pad` is the alignment filler, whose value no reader looks at. */
  datatype Token =
    | Begin(name: bytes, pad: bytes)
    | EndNode
    | Prop(nameoff: int, val: bytes, pad: bytes)
    | Nop

  predicate WfTok(t: Token)
  {
    match t
    case Begin(name, pad) => NoNul(name) && |pad| == PadLen(|name| + 1)
    case Prop(nameoff, val, pad) => 0 <= nameoff < TWO32 && |val| < TWO31 && |pad| == PadLen(|val|)
    case _ => true
  }

  function Code(t: Token): (c: int)
  {
    match t
    case Begin(_, _) => BEGIN_NODE
    case EndNode => END_NODE
    case Prop(_, _, _) => PROP
    case Nop => NOP
  }

  function EncTok(t: Token): (s: bytes)
    requires WfTok(t)
    ensures Aligned(|s|) && |s| >= 4
  {
    hide Word, Align4, Aligned;
    AlignedSmall();
    match t
    case Begin(name, pad) =>
      AlignedAdd(4, Align4(|name| + 1));
      Word(BEGIN_NODE) + name + [0] + pad
    case EndNode => Word(END_NODE)
    case Prop(nameoff, val, pad) =>
      AlignedAdd(4, 4);
      AlignedAdd(4, 8);
      AlignedAdd(12, Align4(|val|));
      Word(PROP) + Word(|val|) + Word(nameoff) + val + pad
    case Nop => Word(NOP)
  }

  lemma PropSize(nameoff: int, val: bytes, pad: bytes)
    requires WfTok(Prop(nameoff, val, pad))
    ensures |EncTok(Prop(nameoff, val, pad))| == 12 + Align4(|val|) && |val| + |pad| == Align4(|val|)
  {
    hide Word;
  }

  /** `x` stands at `off` in `s`. */
  ghost predicate At(s: bytes, off: int, x: bytes)
  {
    0 <= off && off + |x| <= |s| && s[off..off + |x|] == x
  }

  lemma AtSplit(s: bytes, off: int, x: bytes, y: bytes)
    ensures At(s, off, x + y) <==> At(s, off, x) && At(s, off + |x|, y)
  {
    if 0 <= off && off + |x| + |y| <= |s| {
      Cut(s, off, off + |x|, off + |x| + |y|);
      var a, b := s[off..off + |x|], s[off + |x|..off + |x| + |y|];
      if a + b == x + y {
        assert a == (a + b)[..|x|] == (x + y)[..|x|] == x;
        assert b == (a + b)[|x|..] == (x + y)[|x|..] == y;
      }
    }
  }

  lemma BeginParts(s: bytes, off: int, name: bytes, pad: bytes)
    requires WfTok(Begin(name, pad)) && At(s, off, EncTok(Begin(name, pad)))
    ensures At(s, off, Word(BEGIN_NODE)) && At(s, off + 4, name) && At(s, off + 4 + |name|, [0])
    ensures At(s, off + 5 + |name|, pad)
  {
    hide Word;
    AtSplit(s, off, Word(BEGIN_NODE) + name + [0], pad);
    AtSplit(s, off, Word(BEGIN_NODE) + name, [0]);
    AtSplit(s, off, Word(BEGIN_NODE), name);
  }

  lemma PropParts(s: bytes, off: int, nameoff: int, val: bytes, pad: bytes)
    requires WfTok(Prop(nameoff, val, pad)) && At(s, off, EncTok(Prop(nameoff, val, pad)))
    ensures At(s, off, Word(PROP)) && At(s, off + 4, Word(|val|)) && At(s, off + 8, Word(nameoff))
    ensures At(s, off + 12, val) && At(s, off + 12 + |val|, pad)
  {
    hide Word;
    AtSplit(s, off, Word(PROP) + Word(|val|) + Word(nameoff) + val, pad);
    AtSplit(s, off, Word(PROP) + Word(|val|) + Word(nameoff), val);
    AtSplit(s, off, Word(PROP) + Word(|val|), Word(nameoff));
    AtSplit(s, off, Word(PROP), Word(|val|));
  }

  lemma TagAtBegin(s: bytes, off: int, name: bytes, pad: bytes)
    requires WfTok(Begin(name, pad)) && Aligned(off) && At(s, off, EncTok(Begin(name, pad)))
    ensures TagAt(s, off) == TagResult(BEGIN_NODE, off + |EncTok(Begin(name, pad))|)
  {
    hide Word, Unword, Align4;
    BeginParts(s, off, name, pad);
    assert s[off + 4 + |name|] == s[off + 4 + |name|..off + 4 + |name| + 1][0];
    NulAtIs(s, off + 4, off + 4 + |name|);
    AlignShift(off + 4, |name| + 1);
  }

  lemma TagAtProp(s: bytes, off: int, nameoff: int, val: bytes, pad: bytes)
    requires WfTok(Prop(nameoff, val, pad)) && Aligned(off) && At(s, off, EncTok(Prop(nameoff, val, pad)))
    requires |s| < TWO31
    ensures TagAt(s, off) == TagResult(PROP, off + |EncTok(Prop(nameoff, val, pad))|)
  {
    hide Word, Unword, Align4;
    PropParts(s, off, nameoff, val, pad);
    AlignShift(off + 12, |val|);
  }

  /** A reader that stands on an encoded tag sees that tag and steps to the next one. */
  lemma TagAtTok(s: bytes, off: int, t: Token)
    requires WfTok(t) && Aligned(off) && |s| < TWO31 && At(s, off, EncTok(t))
    ensures TagAt(s, off) == TagResult(Code(t), off + |EncTok(t)|)
  {
    hide Word, Unword;
    match t
    case Begin(name, pad) => TagAtBegin(s, off, name, pad);
    case Prop(nameoff, val, pad) => TagAtProp(s, off, nameoff, val, pad);
    case _ =>
  }

  /** The token a reader stands on when `TagAt` accepts it. */
  function TokAt(s: bytes, off: int): (t: Token)
    requires TagAt(s, off).next >= 0 && TagAt(s, off).next <= |s| && TagAt(s, off).tag != END
  {
    var r := TagAt(s, off);
    if r.tag == BEGIN_NODE then
      var k := NulAt(s, off + 4);
      Begin(s[off + 4..k], s[k + 1..r.next])
    else if r.tag == PROP then
      var len := Unword(s[off + 4..off + 8]);
      Prop(Unword(s[off + 8..off + 12]), s[off + 12..off + 12 + len], s[off + 12 + len..r.next])
    else if r.tag == END_NODE then EndNode
    else Nop
  }

  lemma TokAtBegin(s: bytes, off: int)
    requires Aligned(off) && TagAt(s, off).next >= 0 && TagAt(s, off).next <= |s| && TagAt(s, off).tag == BEGIN_NODE
    ensures WfTok(TokAt(s, off)) && At(s, off, EncTok(TokAt(s, off)))
    ensures TagAt(s, off).next == off + |EncTok(TokAt(s, off))|
  {
    hide Word, Unword, Align4;
    var next := TagAt(s, off).next;
    WordOfUnword(s[off..off + 4]);
    AlignShift(off + 4, NulAt(s, off + 4) + 1 - off - 4);
    var k := NulAt(s, off + 4);
    Cut(s, off, off + 4, k);
    Cut(s, off, k, k + 1);
    Cut(s, off, k + 1, next);
  }

  lemma TokAtProp(s: bytes, off: int)
    requires |s| < TWO31 && Aligned(off)
    requires TagAt(s, off).next >= 0 && TagAt(s, off).next <= |s| && TagAt(s, off).tag == PROP
    ensures WfTok(TokAt(s, off)) && At(s, off, EncTok(TokAt(s, off)))
    ensures TagAt(s, off).next == off + |EncTok(TokAt(s, off))|
  {
    hide Word, Unword, Align4;
    var next := TagAt(s, off).next;
    AlignShift(off + 12, Unword(s[off + 4..off + 8]));
    var len := Unword(s[off + 4..off + 8]);
    WordOfUnword(s[off..off + 4]);
    WordOfUnword(s[off + 4..off + 8]);
    WordOfUnword(s[off + 8..off + 12]);
    Cut(s, off, off + 4, off + 8);
    Cut(s, off, off + 8, off + 12);
    Cut(s, off, off + 12, off + 12 + len);
    Cut(s, off, off + 12 + len, next);
  }

  /** Whatever `TagAt` accepts is the encoding of a token: reading loses nothing. */
  lemma TokAtTag(s: bytes, off: int)
    requires |s| < TWO31 && Aligned(off)
    requires TagAt(s, off).next >= 0 && TagAt(s, off).next <= |s| && TagAt(s, off).tag != END
    ensures WfTok(TokAt(s, off)) && At(s, off, EncTok(TokAt(s, off)))
    ensures Code(TokAt(s, off)) == TagAt(s, off).tag && TagAt(s, off).next == off + |EncTok(TokAt(s, off))|
  {
    hide Word, Unword;
    var r := TagAt(s, off);
    if r.tag == BEGIN_NODE {
      TokAtBegin(s, off);
    } else if r.tag == PROP {
      TokAtProp(s, off);
    } else {
      WordOfUnword(s[off..off + 4]);
    }
  }
}
