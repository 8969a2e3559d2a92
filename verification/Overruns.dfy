/** Reserve maps that run into the structure block.  `fdt_rw_probe_` asks for the room of one entry only, so such a blob
    is accepted; what the operations on the map then do to the structure block, exactly, and blobs that they damage. */
module Overruns {
  import opened Bytes
  import opened Format
  import opened Tree
  import opened Blob
  import opened Reserves
  import opened Splicing
  import opened Editor
  import opened MadeBlob
  import opened ReserveEditor
  import opened Packing

  // ---------------------------------------------------------------- adding and deleting entries

  /** Byte `i` of the structure block after an insertion at `p`, which lies behind it. */
  function InsertedByte(b: bytes, p: nat, x: bytes, i: nat): (y: byte)
    requires |x| == 16 && i < p <= |b|
  {
    if i + 16 < p then b[i + 16] else x[i + 16 - p]
  }

  /** Where an insertion at `p` cuts into the structure block, it happens to write the bytes that stand there. */
  predicate InsertSpares(b: bytes, p: nat, x: bytes)
    requires Editable(b) && |x| == 16 && p + 16 <= |b|
  {
    var o := Field(b, OFF_STRUCT);
    forall i | o <= i < o + Field(b, SIZE_STRUCT) && i < p :: InsertedByte(b, p, x, i) == b[i]
  }

  lemma InsertedBytes(b: bytes, c: bytes, p: nat, x: bytes)
    requires Editable(b) && |x| == 16 && Inserted(b, c, p, x)
    ensures Sane(c) && |Struct(c)| == |Struct(b)|
    ensures var o := Field(b, OFF_STRUCT);
      forall i | 0 <= i < |Struct(b)| ::
        Struct(c)[i] == if o + i >= p then b[o + i] else InsertedByte(b, p, x, o + i)
  {
    hide Field;
    var o, s := Field(b, OFF_STRUCT), Field(b, SIZE_STRUCT);
    forall i | 0 <= i < s
      ensures Struct(c)[i] == if o + i >= p then b[o + i] else InsertedByte(b, p, x, o + i)
    {
      assert Struct(c)[i] == c[o + 16 + i];
      if o + i < p <= o + 16 + i {
        assert c[o + 16 + i] == c[p..p + 16][o + 16 + i - p];
      }
    }
  }

  /** The structure block survives an insertion exactly then; always when the insertion is in front of it. */
  lemma InsertedStruct(b: bytes, c: bytes, p: nat, x: bytes)
    requires Editable(b) && |x| == 16 && Inserted(b, c, p, x)
    ensures p + 16 <= |b| && Sane(c) && (Struct(c) == Struct(b) <==> InsertSpares(b, p, x))
    ensures p <= Field(b, OFF_STRUCT) ==> InsertSpares(b, p, x)
  {
    hide Field;
    var o, s := Field(b, OFF_STRUCT), Field(b, SIZE_STRUCT);
    InsertedBytes(b, c, p, x);
    if Struct(c) == Struct(b) {
      forall i | o <= i < o + s && i < p
        ensures InsertedByte(b, p, x, i) == b[i]
      {
        assert Struct(c)[i - o] == Struct(b)[i - o];
      }
    }
    if InsertSpares(b, p, x) {
      forall i | 0 <= i < s
        ensures Struct(c)[i] == Struct(b)[i]
      {
        if o + i < p { assert InsertedByte(b, p, x, o + i) == b[o + i]; }
      }
      SameBytes(Struct(c), Struct(b));
    }
  }

  /** Where a removal at `p` cuts into the structure block, the bytes that move up happen to be the same. */
  predicate RemoveSpares(b: bytes, p: nat)
    requires Editable(b)
  {
    var o := Field(b, OFF_STRUCT);
    forall i | o <= i < o + Field(b, SIZE_STRUCT) && i < p + 16 :: b[i] == b[i - 16]
  }

  lemma RemovedBytes(b: bytes, c: bytes, p: nat)
    requires Editable(b) && Removed(b, c, p)
    ensures Sane(c) && |Struct(c)| == |Struct(b)|
    ensures var o := Field(b, OFF_STRUCT);
      forall i | 0 <= i < |Struct(b)| :: Struct(c)[i] == if o + i < p + 16 then b[o + i - 16] else b[o + i]
  {
    hide Field;
    var o, s := Field(b, OFF_STRUCT), Field(b, SIZE_STRUCT);
    forall i | 0 <= i < s
      ensures Struct(c)[i] == if o + i < p + 16 then b[o + i - 16] else b[o + i]
    {
      assert Struct(c)[i] == c[o + i - 16];
    }
  }

  lemma RemovedStruct(b: bytes, c: bytes, p: nat)
    requires Editable(b) && Removed(b, c, p)
    ensures Sane(c) && (Struct(c) == Struct(b) <==> RemoveSpares(b, p))
    ensures p + 16 <= Field(b, OFF_STRUCT) ==> RemoveSpares(b, p)
  {
    hide Field;
    var o, s := Field(b, OFF_STRUCT), Field(b, SIZE_STRUCT);
    RemovedBytes(b, c, p);
    if Struct(c) == Struct(b) {
      forall i | o <= i < o + s && i < p + 16
        ensures b[i] == b[i - 16]
      {
        assert Struct(c)[i - o] == Struct(b)[i - o];
      }
    }
    if RemoveSpares(b, p) {
      forall i | 0 <= i < s
        ensures Struct(c)[i] == Struct(b)[i]
      {
        assert b[o + i] == Struct(b)[i];
      }
      SameBytes(Struct(c), Struct(b));
    }
  }

  // ---------------------------------------------------------------- blobs that are damaged

  /** A block with one empty node. */
  function OneNode(): (s: bytes)
    ensures |s| == 16
  {
    EndLen();
    Enc(Node([], Zeros(3), Nil, Nil)) + Word(END)
  }

  lemma OneNodeBytes()
    ensures OneNode() == Word(BEGIN_NODE) + Zeros(4) + Word(END_NODE) + Word(END)
    ensures Holds(OneNode(), Node([], Zeros(3), Nil, Nil))
  {
    hide Word;
    assert Enc(Nil) == [];
    assert Zeros(4) == [0] + Zeros(3);
  }

  /** A blob whose reserve map has one entry in front of the structure block, goes on inside it and ends behind it;
      `gap` bytes lie in front of the map. */
  function Overrun(gap: nat): (b: bytes)
    requires gap <= 8
    ensures |b| == 120 + gap
  {
    Words([FDT_MAGIC, 120 + gap, 56 + gap, 72 + gap, 40 + gap, 17, 16, 0, 0, 16])
    + Zeros(gap) + EncReserve(Reserve(1, 1)) + OneNode() + Zeros(48)
  }

  lemma OverrunFields(gap: nat)
    requires gap <= 8
    ensures var b := Overrun(gap);
      && Field(b, MAGIC) == FDT_MAGIC && Field(b, TOTALSIZE) == 120 + gap && Field(b, OFF_STRUCT) == 56 + gap
      && Field(b, OFF_STRINGS) == 72 + gap && Field(b, OFF_RSVMAP) == 40 + gap && Field(b, VERSION) == 17
      && Field(b, LAST_COMP) == 16 && Field(b, SIZE_STRINGS) == 0 && Field(b, SIZE_STRUCT) == 16
  {
    hide Word, Words, Field, OneNode, EncReserve;
    var ws := [FDT_MAGIC, 120 + gap, 56 + gap, 72 + gap, 40 + gap, 17, 16, 0, 0, 16];
    var x := Zeros(gap) + EncReserve(Reserve(1, 1)) + OneNode() + Zeros(48);
    HeaderFields(ws, x);
    assert Overrun(gap) == Words(ws) + x;
  }

  lemma OverrunParts(gap: nat)
    requires gap <= 8
    ensures var b := Overrun(gap);
      && At(b, 40 + gap, EncReserve(Reserve(1, 1))) && At(b, 56 + gap, OneNode()) && At(b, 72 + gap, Zeros(48))
      && At(b, 56 + gap, Word(BEGIN_NODE)) && At(b, 60 + gap, Zeros(4)) && At(b, 64 + gap, Word(END_NODE))
      && At(b, 68 + gap, Word(END))
  {
    hide Word, Unword, OneNode, EncReserve;
    OneNodeBytes();
    var b := Overrun(gap);
    var ws := [FDT_MAGIC, 120 + gap, 56 + gap, 72 + gap, 40 + gap, 17, 16, 0, 0, 16];
    var x := Words(ws) + Zeros(gap);
    assert b == x + EncReserve(Reserve(1, 1)) + OneNode() + Zeros(48);
    AtSplit(b, 0, x + EncReserve(Reserve(1, 1)) + OneNode(), Zeros(48));
    AtSplit(b, 0, x + EncReserve(Reserve(1, 1)), OneNode());
    AtSplit(b, 0, x, EncReserve(Reserve(1, 1)));
    AtSplit(b, 56 + gap, Word(BEGIN_NODE) + Zeros(4) + Word(END_NODE), Word(END));
    AtSplit(b, 56 + gap, Word(BEGIN_NODE) + Zeros(4), Word(END_NODE));
    AtSplit(b, 56 + gap, Word(BEGIN_NODE), Zeros(4));
  }

  lemma LastByte(v: int)
    requires 0 <= v < 256
    ensures Word(v)[3] == v as byte
  {
  }

  lemma {:induction false} BeZeros(n: nat)
    ensures Be(Zeros(n)) == 0
  {
    if n > 0 {
      assert Zeros(n)[..n - 1] == Zeros(n - 1);
      BeZeros(n - 1);
    }
  }

  lemma OverrunCount(gap: nat)
    requires gap <= 8
    ensures var b := Overrun(gap); Editable(b) && CountFrom(b, 0) == Some(2)
  {
    var b := Overrun(gap);
    OverrunFields(gap);
    OverrunParts(gap);
    LastByte(END);
    BeZeros(8);
    EncReserveAt(b, 40 + gap, Reserve(1, 1));
    hide Field, Be, Word, EncReserve, OneNode, Overrun;
    assert Double(b, 48 + gap) != 0;
    assert Double(b, 64 + gap) != 0 by {
      assert b[71 + gap] == b[68 + gap..72 + gap][3];
      BeLast(b[64 + gap..72 + gap]);
    }
    assert Double(b, 80 + gap) == 0 by {
      assert b[80 + gap..88 + gap] == b[72 + gap..120 + gap][8..16] == Zeros(8);
    }
    assert CountFrom(b, 2) == Some(2);
    assert CountFrom(b, 1) == Some(2);
  }

  lemma BeLast(x: bytes)
    requires |x| == 8
    ensures Be(x) >= x[7] as nat
  {
  }

  /** The probe accepts it, a client reads one node, and the map counts two entries. */
  lemma OverrunIs(gap: nat)
    requires gap <= 8
    ensures var b := Overrun(gap);
      && Editable(b) && RwProbe(b) == 0 && CountFrom(b, 0) == Some(2) && Struct(b) == OneNode()
      && TreeOf(b) == Some(Sub([], Done, Done))
  {
    hide Field, Be, Word, EncReserve, OneNode, Overrun, Holds, ForestOf, RwProbe, CountFrom;
    OverrunFields(gap);
    OverrunParts(gap);
    OverrunCount(gap);
    OneNodeBytes();
    ProbeIsEditable(Overrun(gap));
    HoldsParses(OneNode(), Node([], Zeros(3), Nil, Nil));
  }

  lemma {:induction false} ZeroBytes(n: nat)
    ensures BeBytes(n, 0) == Zeros(n)
  {
    if n > 0 { ZeroBytes(n - 1); }
  }

  /** The fourth byte of a small reserve entry. */
  lemma FourthByte(a: nat)
    requires a < 256
    ensures EncReserve(Reserve(a, 1))[3] == 0
  {
    ZeroBytes(7);
    assert BeBytes(8, a) == Zeros(7) + [a as byte];
  }

  /** A block of 16 bytes that reads as one empty node begins with the tag of a node. */
  lemma SmallTree(c: bytes)
    requires Sane(c) && |Struct(c)| == 16 && TreeOf(c) == Some(Sub([], Done, Done))
    ensures Struct(c)[0..4] == Word(BEGIN_NODE)
  {
    hide Field, Word, Struct, ForestOf, Strings;
    var s, f := Struct(c), ForestOf(Struct(c)).value;
    ParsesHolds(s, f);
    EndLen();
    SmallForest(f, Strings(c));
    if f.Node? {
      BeginParts(s, 0, f.name, f.pad) by { BeginAt(s, f); }
    }
  }

  lemma BeginAt(s: bytes, f: Forest)
    requires Wf(f) && f.Node? && At(s, 0, Enc(f))
    ensures At(s, 0, EncTok(Begin(f.name, f.pad)))
  {
    hide EncTok, Aligned;
    AtSplit(s, 0, EncTok(Begin(f.name, f.pad)) + Enc(f.body) + EncTok(EndNode), Enc(f.rest));
    AtSplit(s, 0, EncTok(Begin(f.name, f.pad)) + Enc(f.body), EncTok(EndNode));
    AtSplit(s, 0, EncTok(Begin(f.name, f.pad)), Enc(f.body));
  }

  lemma {:induction false} SmallForest(f: Forest, t: bytes)
    requires Wf(f) && Named(f, t) && Abs(f, t).Sub?
    ensures |Enc(f)| >= 12 && (f.Node? || |Enc(f)| >= 16)
  {
    hide Word, NameAt;
    EndLen();
    match f
    case Item(tok, rest) => SmallForest(rest, t);
    case Node(name, pad, body, rest) =>
  }

  /** So a block that begins otherwise reads as something else, if as anything. */
  lemma OtherTree(b: bytes, c: bytes)
    requires Sane(b) && TreeOf(b) == Some(Sub([], Done, Done)) && Sane(c) && |Struct(c)| == 16 && Struct(c)[3] != 1
    ensures TreeOf(c) != TreeOf(b)
  {
    hide Field, Struct, TreeOf, Word;
    LastByte(BEGIN_NODE);
    assert Struct(c)[3] == Struct(c)[0..4][3];
    if TreeOf(c) == TreeOf(b) { SmallTree(c); }
  }

  /** Adding an entry to it, or deleting its second one, goes through, and the blob no longer reads as that tree. */
  lemma AddFails() returns (b: bytes)
    ensures Editable(b) && RwProbe(b) == 0 && Mapped(b) && TreeOf(b) == Some(Sub([], Done, Done))
    ensures CountFrom(b, 0) == Some(2) && DataSize(b) + 16 <= Field(b, TOTALSIZE) && EntryAt(b, 2) + 16 <= |b|
    ensures AddPlace(b) == EntryAt(b, 2)
    ensures forall c | Inserted(b, c, EntryAt(b, 2), EncReserve(Reserve(0, 1))) :: Sane(c) && TreeOf(c) != TreeOf(b)
    ensures forall c | Removed(b, c, EntryAt(b, 1)) :: Sane(c) && TreeOf(c) != TreeOf(b)
  {
    hide Field, Word, EncReserve, OneNode, Overrun, RwProbe, CountFrom, Editable, TreeOf, Inserted, Removed, Struct;
    b := Overrun(0);
    OverrunFields(0);
    OverrunParts(0);
    OverrunIs(0);
    FourthByte(0);
    FourthByte(1);
    forall c | Inserted(b, c, EntryAt(b, 2), EncReserve(Reserve(0, 1)))
      ensures Sane(c) && TreeOf(c) != TreeOf(b)
    {
      InsertedBytes(b, c, 72, EncReserve(Reserve(0, 1)));
      OtherTree(b, c);
    }
    forall c | Removed(b, c, EntryAt(b, 1))
      ensures Sane(c) && TreeOf(c) != TreeOf(b)
    {
      RemovedBytes(b, c, 56);
      assert b[43] == b[40..56][3];
      OtherTree(b, c);
    }
  }

  /** So it is after packing, when the map has to move. */
  lemma PackFails() returns (b: bytes)
    ensures Editable(b) && RwProbe(b) == 0 && Packs(b) && TreeOf(b) == Some(Sub([], Done, Done)) && !StructSpared(b)
    ensures forall c | Sane(c) && StructPacked(b, c) :: TreeOf(c) != TreeOf(b)
  {
    hide Field, Word, EncReserve, OneNode, Overrun, RwProbe, CountFrom, TreeOf, Struct;
    b := Overrun(8);
    OverrunFields(8);
    OverrunParts(8);
    OverrunIs(8);
    LastByte(BEGIN_NODE);
    LastByte(END_NODE);
    assert b[67] == b[64..68][3] && b[75] == b[72..76][3];
    assert FirstByte(b, 67) == b[75];
    forall c | Sane(c) && StructPacked(b, c)
      ensures TreeOf(c) != TreeOf(b)
    {
      OtherTree(b, c);
    }
  }
}
