/** Renaming, deleting, adding and blanking nodes in place (`fdt_rw.c`, `fdt_wip.c`). */
module NodeOps {
  import opened Bytes
  import opened Format
  import opened Tree
  import opened Blob
  import opened Walk
  import opened TreeOps
  import opened Splicing
  import opened Editor
  import opened NodeEditor
  import R = Reader

  // ---------------------------------------------------------------- fdt_del_node

  /** The bytes of the node at the front of a forest. */
  function NodeSize(n: Forest): (k: nat)
    requires n.Node? && Wf(n)
  {
    |EncTok(Begin(n.name, n.pad))| + |Enc(n.body)| + 4
  }

  lemma NodeBytes(n: Forest)
    requires n.Node? && Wf(n)
    ensures Enc(n) == (EncTok(Begin(n.name, n.pad)) + Enc(n.body) + EncTok(EndNode)) + Enc(n.rest)
    ensures NodeSize(n) <= |Enc(n)| && Enc(n)[NodeSize(n)..] == Enc(n.rest)
  {
    hide EncTok, Word, Aligned;
    EndLen();
  }

  lemma NodeSizeAligned(n: Forest)
    requires n.Node? && Wf(n)
    ensures Aligned(NodeSize(n))
  {
    hide EncTok, Word, Aligned, Enc;
    AlignedSmall();
    AlignedAdd(|EncTok(Begin(n.name, n.pad))|, |Enc(n.body)|);
    AlignedAdd(|EncTok(Begin(n.name, n.pad))| + |Enc(n.body)|, 4);
  }

  /** `fdt_node_end_offset_` on a well-formed blob. */
  lemma NodeEndAt(b: bytes, off: int, c: Ctx, n: Forest)
    requires NodeAt(b, off, c, n)
    ensures NodeEnd(Struct(b), off, 0) == off + NodeSize(n) && 0 <= off && off + NodeSize(n) <= |Struct(b)|
  {
    hide Field, Struct, Strings, NameAt, EncTok, Aligned, Pre, Post, TagAt;
    NodeAtHole(Struct(b), c, n.name, n.pad, n.body, n.rest);
    NodeInIs(Struct(b), off, n.name, n.pad, n.body);
    NodeEndIs(Struct(b), off, n.name, n.pad, n.body);
  }

  /** Cutting a node out of the block cuts it out of the tree. */
  lemma NodeCut(b: bytes, d: bytes, off: int, c: Ctx, n: Forest)
    requires NodeAt(b, off, c, n) && 0 <= off && off + NodeSize(n) <= |Struct(b)|
    requires Edited(b, d, Splice(Struct(b), off, NodeSize(n), []), Strings(b))
    ensures Replaced(b, d, c, n.rest)
  {
    hide Field, Struct, Strings, NameAt, EncTok, Aligned, Pre, Post, Edited, Splice, Holds, NodeSize;
    var s' := Splice(Struct(b), off, NodeSize(n), []);
    EditedSize(b, d, s', Strings(b));
    NodeBytes(n);
    EditHead(Struct(b), c, n, n.rest, NodeSize(n), []);
    ForestHeld(b, d, c, n, n.rest, s', Strings(b));
  }

  /** `fdt_del_node`: on a well-formed blob it always succeeds and takes the whole subtree out. */
  method DelNode(fdt: array<byte>, node: int, ghost c: Ctx, ghost n: Forest) returns (err: int)
    requires Sane(fdt[..]) && Field(fdt[..], MAGIC) != SW_MAGIC && R.IsInt(node)
    modifies fdt
    ensures err != 0 ==> fdt[..] == old(fdt[..])
    ensures NodeAt(old(fdt[..]), node, c, n) ==> err == 0 && Replaced(old(fdt[..]), fdt[..], c, n.rest)
  {
    hide Field, Struct, Strings, TagAt, Sane, Edited, Splice, NodeAt, Replaced, RwProbe, NodeSize, NodeEnd;
    ghost var b := fdt[..];
    SaneSize(b);
    ProbeIsEditable(b);
    err := RwProbe(fdt[..]);
    if err != 0 {
      NotNodeAt(b, node, c, n);
      return;
    }
    if NodeAt(b, node, c, n) {
      NodeAtWf(b, node, c, n);
      NodeEndAt(b, node, c, n);
    }
    var end := R.NodeEndOffset(fdt, node);
    NodeEndNeg(Struct(b), node);
    if end < 0 {
      return end;
    }
    var p := Field(fdt[..], OFF_STRUCT) + node;
    err := SpliceStruct(fdt, p, end - node, 0);
    if NodeAt(b, node, c, n) {
      EditableSize(b);
      assert b[p..p + 0] == [];
      NodeCut(b, fdt[..], node, c, n);
    }
  }

  lemma NodeEndNeg(s: bytes, off: int)
    ensures off < 0 ==> NodeEnd(s, off, 0) == off
  {
  }

  // ---------------------------------------------------------------- fdt_set_name

  lemma BeginSize(name: bytes, pad: bytes)
    requires WfTok(Begin(name, pad))
    ensures |EncTok(Begin(name, pad))| == 4 + Align4(|name| + 1)
  {
    hide Word;
  }

  lemma NameOver(s: bytes, off: nat, name: bytes, pad: bytes, x: bytes, wanted: bytes)
    requires WfTok(Begin(name, pad)) && At(s, off, EncTok(Begin(name, pad)))
    requires NoNul(wanted) && |x| == Align4(|wanted| + 1)
    ensures off + 4 + Align4(|name| + 1) <= |s| && WfTok(Begin(wanted, x[|wanted| + 1..]))
    ensures Put(Splice(s, off + 4, Align4(|name| + 1), x), off + 4, CStr(wanted))
      == Splice(s, off, |EncTok(Begin(name, pad))|, EncTok(Begin(wanted, x[|wanted| + 1..])))
  {
    hide Word, Put, Splice, At, Align4;
    BeginParts(s, off, name, pad);
    InBlock(s, off, EncTok(Begin(name, pad)));
    BeginSize(name, pad);
    NameOverBytes(s, off, Align4(|name| + 1), x, wanted);
    assert EncTok(Begin(wanted, x[|wanted| + 1..])) == Word(BEGIN_NODE) + CStr(wanted) + x[|wanted| + 1..];
  }

  lemma NameOverBytes(s: bytes, off: nat, gone: nat, x: bytes, wanted: bytes)
    requires off + 4 + gone <= |s| && At(s, off, Word(BEGIN_NODE)) && |wanted| + 1 <= |x|
    ensures Put(Splice(s, off + 4, gone, x), off + 4, CStr(wanted))
      == Splice(s, off, 4 + gone, Word(BEGIN_NODE) + CStr(wanted) + x[|wanted| + 1..])
  {
    hide Word;
    assert s[..off + 4] == s[..off] + Word(BEGIN_NODE);
  }

  lemma NameSet(b: bytes, d: bytes, off: int, c: Ctx, n: Forest, name: bytes, x: bytes)
    requires NodeAt(b, off, c, n) && NoNul(name) && |x| == Align4(|name| + 1)
    requires 0 <= off && off + 4 + Align4(|n.name| + 1) <= |Struct(b)|
    requires Edited(b, d, Put(Splice(Struct(b), off + 4, Align4(|n.name| + 1), x), off + 4, CStr(name)), Strings(b))
    ensures WfTok(Begin(name, x[|name| + 1..]))
    ensures Replaced(b, d, c, Node(name, x[|name| + 1..], n.body, n.rest))
  {
    hide Field, Struct, Strings, NameAt, EncTok, Aligned, Pre, Post, Edited, Splice, Put, Holds, CStr, Align4;
    NodeAtHole(Struct(b), c, n.name, n.pad, n.body, n.rest);
    NameOver(Struct(b), off, n.name, n.pad, x, name);
    var pad := x[|name| + 1..];
    var g := Node(name, pad, n.body, n.rest);
    var e := EncTok(Begin(n.name, n.pad));
    var s' := Splice(Struct(b), off, |e|, EncTok(Begin(name, pad)));
    EditedSize(b, d, s', Strings(b));
    AtHole(Struct(b), c, n);
    RenamedBytes(n, name, pad);
    EditHead(Struct(b), c, n, g, |e|, EncTok(Begin(name, pad)));
    ForestHeld(b, d, c, n, g, s', Strings(b));
  }

  lemma RenamedBytes(n: Forest, name: bytes, pad: bytes)
    requires n.Node? && Wf(n) && WfTok(Begin(name, pad))
    ensures var k := |EncTok(Begin(n.name, n.pad))|;
      k <= |Enc(n)| && Enc(Node(name, pad, n.body, n.rest)) == EncTok(Begin(name, pad)) + Enc(n)[k..]
  {
    hide EncTok, Aligned;
    Assoc(EncTok(Begin(name, pad)), Enc(n.body), EncTok(EndNode));
    Assoc(EncTok(Begin(name, pad)), Enc(n.body) + EncTok(EndNode), Enc(n.rest));
    Assoc(EncTok(Begin(n.name, n.pad)), Enc(n.body), EncTok(EndNode));
    Assoc(EncTok(Begin(n.name, n.pad)), Enc(n.body) + EncTok(EndNode), Enc(n.rest));
  }

  /** `fdt_set_name`. */
  method SetName(fdt: array<byte>, node: int, name: bytes, ghost c: Ctx, ghost n: Forest)
    returns (err: int, ghost g: Forest)
    requires Sane(fdt[..]) && Field(fdt[..], MAGIC) != SW_MAGIC && R.IsInt(node) && NoNul(name)
    requires |name| <= INT_MAX - 16
    modifies fdt
    ensures err != 0 ==> fdt[..] == old(fdt[..])
    ensures var b := old(fdt[..]);
      NodeAt(b, node, c, n) ==>
        && (err == if DataSize(b) - Align4(|n.name| + 1) + Align4(|name| + 1) <= Field(b, TOTALSIZE)
               then 0 else -ERR_NOSPACE)
        && (err == 0 ==>
             g.Node? && g.name == name && g.body == n.body && g.rest == n.rest && Replaced(b, fdt[..], c, g))
  {
    hide Field, Struct, Strings, TagAt, Sane, Edited, Splice, Put, NodeAt, Replaced, RwProbe, CheckNode, NodeName,
         Align4, CStr;
    ghost var b := fdt[..];
    g := n;
    SaneSize(b);
    ProbeIsEditable(b);
    err := RwProbe(fdt[..]);
    if err != 0 {
      NotNodeAt(b, node, c, n);
      return;
    }
    EditableProbe(b);
    if NodeAt(b, node, c, n) {
      NodeAtWf(b, node, c, n);
      NodeNameAt(b, node, c, n);
    }
    var oldname;
    err, oldname := R.GetName(fdt, node);
    if err != 0 {
      return;
    }
    NodeNameSize(Struct(b), node);
    var p := Field(fdt[..], OFF_STRUCT) + node + 4;
    err := SpliceStruct(fdt, p, Align4(|oldname| + 1), Align4(|name| + 1));
    if err != 0 {
      return;
    }
    ghost var b1 := fdt[..];
    EditableSize(b);
    WriteStruct(fdt, node + 4, CStr(name));
    if NodeAt(b, node, c, n) {
      ghost var x := b[p..p + Align4(|name| + 1)];
      WriteBehind(b, b1, fdt[..], Splice(Struct(b), node + 4, Align4(|n.name| + 1), x), Strings(b), node + 4,
        CStr(name));
      NameSet(b, fdt[..], node, c, n, name, x);
      g := Node(name, x[|name| + 1..], n.body, n.rest);
    }
  }

  lemma EditableProbe(b: bytes)
    requires Editable(b)
    ensures RoProbe(b) >= 0
  {
  }

  lemma NodeNameSize(s: bytes, off: int)
    requires CheckNode(s, off) >= 0
    ensures 0 <= off && off + 4 + |NodeName(s, off)| < |s|
  {
  }

  /** What the name and node lookups return on a well-formed blob. */
  lemma NodeNameAt(b: bytes, off: int, c: Ctx, n: Forest)
    requires NodeAt(b, off, c, n)
    ensures CheckNode(Struct(b), off) == off + 4 + Align4(|n.name| + 1) <= |Struct(b)| && 0 <= off
    ensures NodeName(Struct(b), off) == n.name
  {
    hide Field, Struct, Strings, NameAt, EncTok, Aligned, Pre, Post, TagAt;
    NodeAtHole(Struct(b), c, n.name, n.pad, n.body, n.rest);
    NodeInIs(Struct(b), off, n.name, n.pad, n.body);
    BeginSize(n.name, n.pad);
  }

  // ---------------------------------------------------------------- fdt_add_subnode

  /** The tag loop of `fdt_add_subnode_namelen`: the offset of the first tag that is neither property nor NOP. */
  function SkipItems(s: bytes, off: int): (r: int)
    ensures r >= off
    decreases |s| - off
  {
    hide Unword, Align4;
    var r := TagAt(s, off);
    if r.tag == PROP || r.tag == NOP then SkipItems(s, r.next) else off
  }

  lemma {:induction false} SkipItemsIs(s: bytes, off: int, f: Forest)
    requires Inside(s, off, f)
    ensures SkipItems(s, off) == off + |Pre(HeadCtx(f))|
    decreases f
  {
    hide Word, Unword, EncTok, TagAt, Aligned, Align4, At;
    match f
    case Nil => InsideNil(s, off);
    case Node(name, pad, body, rest) => InsideNode(s, off, name, pad, body, rest);
    case Item(tok, rest) =>
      InsideItem(s, off, tok, rest);
      SkipItemsIs(s, off + |EncTok(tok)|, rest);
  }

  method AfterProps(fdt: array<byte>, start: int) returns (offset: int)
    requires Sane(fdt[..]) && R.IsInt(start)
    ensures offset == SkipItems(Struct(fdt[..]), start) && R.IsInt(offset)
  {
    hide Field, Unword, Struct, TagAt;
    ghost var s := Struct(fdt[..]);
    offset := start;
    var tag, next := NextTag(fdt, offset);
    while tag == PROP || tag == NOP
      invariant R.IsInt(offset) && R.IsInt(next)
      invariant TagResult(tag, next) == TagAt(s, offset)
      invariant SkipItems(s, start) == SkipItems(s, offset)
      decreases |s| - offset
    {
      offset := next;
      tag, next := NextTag(fdt, offset);
    }
  }

  /** A new empty node: tag, name, zero padding, end tag. */
  function EmptyNode(name: bytes): (x: bytes)
    ensures |x| == 4 + Align4(|name| + 1) + 4
  {
    Word(BEGIN_NODE) + name + Zeros(Align4(|name| + 1) - |name|) + Word(END_NODE)
  }

  function NewNode(name: bytes, rest: Forest): (g: Forest)
  {
    Node(name, Zeros(PadLen(|name| + 1)), Nil, rest)
  }

  lemma EmptyNodeIs(name: bytes, rest: Forest)
    requires NoNul(name) && Wf(rest)
    ensures Wf(NewNode(name, rest)) && Enc(NewNode(name, rest)) == EmptyNode(name) + Enc(rest)
  {
    hide Word, Aligned;
    assert Zeros(Align4(|name| + 1) - |name|) == [0] + Zeros(PadLen(|name| + 1));
    assert Enc(Nil) == [];
  }

  /** The stores of a new node over the room spliced in for it. */
  method FillNode(fdt: array<byte>, offset: nat, name: bytes)
    requires HEADER_SIZE <= fdt.Length && HEADER_SIZE <= Field(fdt[..], OFF_STRUCT)
    requires Field(fdt[..], OFF_STRUCT) + offset + |EmptyNode(name)| <= fdt.Length
    modifies fdt
    ensures var b := old(fdt[..]);
      Editable(b) && offset + |EmptyNode(name)| <= |Struct(b)| ==>
        Edited(b, fdt[..], Put(Struct(b), offset, EmptyNode(name)), Strings(b))
  {
    hide Field, Struct, Strings, Sane, Edited, Put, EmptyNode, Zeros, Align4, Word;
    ghost var b := fdt[..];
    var a := Align4(|name| + 1);
    EmptyNodeLen(name);
    WriteStruct(fdt, offset, Word(BEGIN_NODE));
    ghost var b1 := fdt[..];
    WriteStruct(fdt, offset + 4, Zeros(a));
    ghost var b2 := fdt[..];
    WriteStruct(fdt, offset + 4, name);
    ghost var b3 := fdt[..];
    WriteStruct(fdt, offset + 4 + a, Word(END_NODE));
    if Editable(b) && offset + |EmptyNode(name)| <= |Struct(b)| {
      ghost var s, t := Struct(b), Strings(b);
      ghost var s1 := Put(s, offset, Word(BEGIN_NODE));
      ghost var s2 := Put(s1, offset + 4, Zeros(a));
      ghost var s3 := Put(s2, offset + 4, name);
      WriteBehind(b, b1, b2, s1, t, offset + 4, Zeros(a));
      WriteBehind(b, b2, b3, s2, t, offset + 4, name);
      WriteBehind(b, b3, fdt[..], s3, t, offset + 4 + a, Word(END_NODE));
      EmptyNodeStores(s, offset, name);
    }
  }

  lemma EmptyNodeStores(s: bytes, off: nat, name: bytes)
    requires off + |EmptyNode(name)| <= |s|
    ensures var a := Align4(|name| + 1);
      Put(Put(Put(Put(s, off, Word(BEGIN_NODE)), off + 4, Zeros(a)), off + 4, name), off + 4 + a, Word(END_NODE))
      == Put(s, off, EmptyNode(name))
  {
    hide Word, Align4, Zeros, Splice, Put;
    var a := Align4(|name| + 1);
    EmptyNodeLen(name);
    var raw := s[off..off + (4 + a + 4)];
    PutInRegion(s, off, raw, 0, Word(BEGIN_NODE));
    var r1 := Put(raw, 0, Word(BEGIN_NODE));
    var s1 := Put(s, off, Word(BEGIN_NODE));
    PutInRegion(s1, off, r1, 4, Zeros(a));
    var r2 := Put(r1, 4, Zeros(a));
    var s2 := Put(s1, off + 4, Zeros(a));
    PutInRegion(s2, off, r2, 4, name);
    var r3 := Put(r2, 4, name);
    var s3 := Put(s2, off + 4, name);
    PutInRegion(s3, off, r3, 4 + a, Word(END_NODE));
    EmptyNodeRoom(raw, name, a);
    PutPut(s, off, raw, r1);
    PutPut(s, off, r1, r2);
    PutPut(s, off, r2, r3);
    PutPut(s, off, r3, EmptyNode(name));
  }

  lemma PutPut(s: bytes, off: nat, x: bytes, y: bytes)
    requires off + |x| <= |s| && |x| == |y|
    ensures Put(Put(s, off, x), off, y) == Put(s, off, y)
  {
  }

  /** A write inside a region rewrites the region. */
  lemma PutInRegion(s: bytes, off: nat, x: bytes, i: nat, y: bytes)
    requires off + |x| <= |s| && i + |y| <= |x| && s[off..off + |x|] == x
    ensures Put(s, off + i, y) == Put(s, off, Put(x, i, y))
    ensures Put(s, off + i, y)[off..off + |x|] == Put(x, i, y)
  {
    assert s == s[..off] + x + s[off + |x|..];
  }

  lemma RoomFilled(s: bytes, off: nat, raw: bytes, x: bytes)
    requires off <= |s| && |raw| == |x|
    ensures off + |x| <= |Splice(s, off, 0, raw)| && Put(Splice(s, off, 0, raw), off, x) == Splice(s, off, 0, x)
  {
  }

  lemma EmptyNodeRoom(raw: bytes, name: bytes, a: nat)
    requires a == Align4(|name| + 1) && |raw| == 4 + a + 4
    ensures Put(Put(Put(Put(raw, 0, Word(BEGIN_NODE)), 4, Zeros(a)), 4, name), 4 + a, Word(END_NODE)) == EmptyNode(name)
  {
    hide Word, Align4;
    assert Zeros(a)[|name|..] == Zeros(a - |name|);
  }

  lemma SubAdded(b: bytes, d: bytes, off: int, c: Ctx, n: Forest, name: bytes)
    requires NodeAt(b, off, c, n) && NoNul(name)
    requires var o := InsertAt(n, off);
      0 <= o <= |Struct(b)| && Edited(b, d, Splice(Struct(b), o, 0, EmptyNode(name)), Strings(b))
    ensures BodyIs(b, d, off, c, n, WithBody(n, Plug(HeadCtx(n.body), NewNode(name, HeadTail(n.body)))),
      AddSub(Abs(n.body, Strings(b)), name))
  {
    hide Field, Struct, Strings, NameAt, EncTok, Aligned, Align4, Word, Edited, Pre, Post, Holds, Splice, EmptyNode;
    var t, s := Strings(b), Struct(b);
    var k, f := HeadCtx(n.body), HeadTail(n.body);
    NodeAtWf(b, off, c, n);
    WfPlug(k, f);
    InBodyIs(c, n, k, f);
    InBodyIs(c, n, k, NewNode(name, f));
    EmptyNodeIs(name, f);
    var s' := Splice(s, InsertAt(n, off), 0, EmptyNode(name));
    EditedSize(b, d, s', t);
    HoldsWf(s, Plug(c, n));
    EditHead(s, InBody(c, n, k), f, NewNode(name, f), 0, EmptyNode(name));
    AddSubAbs(n.body, t, name, Zeros(PadLen(|name| + 1)));
    BodyHeld(b, d, off, c, n, Plug(k, NewNode(name, f)), s', t);
  }

  /** Where a new subnode of the node at `off` goes. */
  function InsertAt(n: Forest, off: int): (o: int)
    requires n.Node? && Wf(n)
  {
    BodyAt(off, n.name, n.pad) + |Pre(HeadCtx(n.body))|
  }

  /** What the searches of `fdt_add_subnode` return on a well-formed blob. */
  lemma SubLookup(b: bytes, off: int, c: Ctx, n: Forest, name: bytes)
    requires NodeAt(b, off, c, n)
    ensures var r := FindSub(Struct(b), off, 0, name);
      match SubCtx(n.body, name)
      case None => r == -ERR_NOTFOUND
      case Some(k) => r == BodyAt(off, n.name, n.pad) + |Pre(k)| && r >= 0
    ensures CheckNode(Struct(b), off) >= 0 && CheckNode(Struct(b), off) == BodyAt(off, n.name, n.pad)
    ensures SkipItems(Struct(b), CheckNode(Struct(b), off)) == InsertAt(n, off)
    ensures 0 <= InsertAt(n, off) <= |Struct(b)|
  {
    hide Field, Struct, Strings, NameAt, EncTok, Aligned, Align4, Pre, Post, TagAt, NameMatches;
    NodeAtHole(Struct(b), c, n.name, n.pad, n.body, n.rest);
    NodeInIs(Struct(b), off, n.name, n.pad, n.body);
    SubnodeOffsetIs(Struct(b), off, n.name, n.pad, n.body, name);
    SkipItemsIs(Struct(b), BodyAt(off, n.name, n.pad), n.body);
    WfPlug(HeadCtx(n.body), HeadTail(n.body));
    EncPlug(HeadCtx(n.body), HeadTail(n.body));
  }

  /** `fdt_add_subnode_namelen`: the offset of the new node or an error code. */
  method AddSubnode(fdt: array<byte>, parent: int, name: bytes, ghost c: Ctx, ghost n: Forest)
    returns (r: int, ghost g: Forest)
    requires Sane(fdt[..]) && Field(fdt[..], MAGIC) != SW_MAGIC && R.IsInt(parent) && NoNul(name)
    requires |name| <= INT_MAX - 32
    modifies fdt
    ensures r < 0 ==> fdt[..] == old(fdt[..])
    ensures var b := old(fdt[..]);
      NodeAt(b, parent, c, n) ==>
        && (SubCtx(n.body, name).Some? ==> r == -ERR_EXISTS)
        && (SubCtx(n.body, name).None? ==>
             r == if DataSize(b) + |EmptyNode(name)| <= Field(b, TOTALSIZE) then InsertAt(n, parent) else -ERR_NOSPACE)
        && (r >= 0 ==> r == InsertAt(n, parent)
                       && g == WithBody(n, Plug(HeadCtx(n.body), NewNode(name, HeadTail(n.body))))
                       && BodyIs(b, fdt[..], parent, c, n, g, AddSub(Abs(n.body, Strings(b)), name))
                       && DataSize(fdt[..]) == DataSize(b) + |EmptyNode(name)|)
  {
    hide Field, Struct, Strings, TagAt, Sane, Edited, Splice, Put, NodeAt, BodyIs, RwProbe, FindSub, CheckNode,
         SkipItems, SubCtx, Align4, InsertAt, AddSub, Abs, EmptyNode, Zeros, HeadCtx, HeadTail, NewNode, Live, RoProbe;
    ghost var b := fdt[..];
    g := n;
    SaneSize(b);
    ProbeIsEditable(b);
    var probe := RwProbe(fdt[..]);
    if probe != 0 {
      NotNodeAt(b, parent, c, n);
      return probe, g;
    }
    if NodeAt(b, parent, c, n) {
      NodeAtWf(b, parent, c, n);
      SubLookup(b, parent, c, n, name);
    }
    var offset := R.SubnodeOffset(fdt, parent, name);
    if offset >= 0 {
      return -ERR_EXISTS, g;
    } else if offset != -ERR_NOTFOUND {
      return offset, g;
    }
    FindSubNeg(Struct(b), parent, name);
    CheckNodeTag(Struct(b), parent);
    var tag, next := NextTag(fdt, parent);
    if tag != BEGIN_NODE {
      return -ERR_INTERNAL, g;
    }
    offset := AfterProps(fdt, next);
    var a := Align4(|name| + 1);
    EmptyNodeLen(name);
    var p := Field(fdt[..], OFF_STRUCT) + offset;
    SkipItemsPos(Struct(b), parent);
    r := SpliceStruct(fdt, p, 0, 4 + a + 4);
    if r != 0 {
      return;
    }
    EditableSize(b);
    ghost var b1 := fdt[..];
    FillNode(fdt, offset, name);
    r := offset;
    if NodeAt(b, parent, c, n) {
      ghost var raw := b[p..p + (4 + a + 4)];
      RoomFilled(Struct(b), offset, raw, EmptyNode(name));
      EditedBlocks(b, b1, Splice(Struct(b), offset, 0, raw), Strings(b));
      EditedTrans(b, b1, fdt[..], Splice(Struct(b), offset, 0, raw), Strings(b), Splice(Struct(b), offset, 0,
        EmptyNode(name)), Strings(b));
      EditedGrowth(b, fdt[..], Splice(Struct(b), offset, 0, EmptyNode(name)), Strings(b));
      SubAdded(b, fdt[..], parent, c, n, name);
      g := WithBody(n, Plug(HeadCtx(n.body), NewNode(name, HeadTail(n.body))));
    }
  }

  lemma EmptyNodeLen(name: bytes)
    ensures |EmptyNode(name)| == 4 + Align4(|name| + 1) + 4
  {
  }

  lemma FindSubNeg(s: bytes, off: int, name: bytes)
    ensures off < 0 ==> FindSub(s, off, 0, name) == off
  {
  }

  lemma CheckNodeTag(s: bytes, off: int)
    ensures CheckNode(s, off) >= 0 ==> TagAt(s, off) == TagResult(BEGIN_NODE, CheckNode(s, off))
    ensures TagAt(s, off).tag == BEGIN_NODE ==> TagAt(s, off).next >= 0
  {
  }

  lemma SkipItemsPos(s: bytes, off: int)
    ensures TagAt(s, off).tag == BEGIN_NODE ==> SkipItems(s, TagAt(s, off).next) >= 0
  {
    hide SkipItems;
  }
}
