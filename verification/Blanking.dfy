/** Blanking nodes and properties with NOP tags (`fdt_wip.c`), and why it means the same as deleting them. */
module Blanking {
  import opened Bytes
  import opened Format
  import opened Tree
  import opened Blob
  import opened Walk
  import opened TreeOps
  import opened Splicing
  import opened Editor
  import opened NodeOps
  import R = Reader

  /** `k` NOP tags. */
  function NopBytes(k: nat): (x: bytes)
    ensures |x| == 4 * k
  {
    if k == 0 then [] else NopBytes(k - 1) + Word(NOP)
  }

  /** `k` NOP items in front of `rest`. */
  function NopRun(k: nat, rest: Forest): (f: Forest)
  {
    if k == 0 then rest else NopRun(k - 1, Item(Nop, rest))
  }

  lemma {:induction false} NopRunIs(k: nat, rest: Forest, t: bytes)
    requires Wf(rest) && Named(rest, t)
    ensures Wf(NopRun(k, rest)) && Enc(NopRun(k, rest)) == NopBytes(k) + Enc(rest)
    ensures Named(NopRun(k, rest), t) && Abs(NopRun(k, rest), t) == Abs(rest, t)
  {
    if k > 0 {
      NopRunIs(k - 1, Item(Nop, rest), t);
      Assoc(NopBytes(k - 1), Word(NOP), Enc(rest));
    }
  }

  /** `fdt_nop_region_` at structure offset `start`. */
  method NopRegion(fdt: array<byte>, start: nat, len: nat)
    requires HEADER_SIZE <= fdt.Length && HEADER_SIZE <= Field(fdt[..], OFF_STRUCT)
    requires Field(fdt[..], OFF_STRUCT) + start + Align4(len) <= fdt.Length
    modifies fdt
    ensures fdt[..] == Put(old(fdt[..]), old(Field(fdt[..], OFF_STRUCT)) + start, NopBytes(Align4(len) / 4))
  {
    hide Field, Word, Put, Align4, NopBytes;
    ghost var b := fdt[..];
    var base := Field(fdt[..], OFF_STRUCT) + start;
    var p := 0;
    ghost var k, m := 0, Align4(len) / 4;
    QuarterBound(len);
    PutNothing(b, base);
    while p < len
      invariant p == 4 * k && k <= m
      invariant fdt[..] == Put(b, base, NopBytes(k))
      decreases len - p
    {
      MemCpy(fdt, base + p, Word(NOP));
      PutMore(b, base, NopBytes(k), Word(NOP));
      NopBytesMore(k);
      p := p + 4;
      k := k + 1;
    }
  }

  lemma QuarterBound(len: nat)
    ensures var m := Align4(len) / 4; Align4(len) == 4 * m && len <= 4 * m < len + 4
  {
  }

  lemma NopBytesMore(k: nat)
    ensures NopBytes(k + 1) == NopBytes(k) + Word(NOP)
  {
  }

  lemma PutNothing(b: bytes, p: nat)
    requires p <= |b|
    ensures Put(b, p, NopBytes(0)) == b
  {
  }

  lemma PutMore(b: bytes, p: nat, x: bytes, y: bytes)
    requires p + |x| + |y| <= |b|
    ensures Put(Put(b, p, x), p + |x|, y) == Put(b, p, x + y)
  {
  }

  /** A blanked region of the structure block, seen in the blob. */
  lemma NopRegionIs(b: bytes, d: bytes, start: nat, k: nat)
    requires Editable(b) && start + 4 * k <= |Struct(b)| && Field(b, OFF_STRUCT) + start + 4 * k <= |b|
    requires d == Put(b, Field(b, OFF_STRUCT) + start, NopBytes(k))
    ensures Edited(b, d, Put(Struct(b), start, NopBytes(k)), Strings(b))
  {
    hide Field, NopBytes;
    FieldFrame(b, d);
    WriteStructIs(b, d, start, NopBytes(k));
  }

  /** `g` takes `size` bytes and reads like `h`. */
  ghost predicate ReadsAs(g: Forest, h: Forest, t: bytes, size: nat)
  {
    Wf(g) && Named(g, t) && Named(h, t) && Abs(g, t) == Abs(h, t) && |Enc(g)| == size
  }

  /** Blanking the front of a forest. */
  lemma Blanked(b: bytes, d: bytes, c: Ctx, f: Forest, g: Forest, p: int, k: nat)
    requires Editable(b) && Holds(Struct(b), Plug(c, f)) && Named(Plug(c, f), Strings(b)) && Named(g, Strings(b))
    requires WfCtx(c) && 0 <= p == |Pre(c)| && Wf(f) && Wf(g) && 4 * k <= |Enc(f)| && Enc(f)[4 * k..] == Enc(g)
    requires p + 4 * k <= |Struct(b)| && Edited(b, d, Put(Struct(b), p, NopBytes(k)), Strings(b))
    ensures Replaced(b, d, c, NopRun(k, g)) && ReadsAs(NopRun(k, g), g, Strings(b), |Enc(f)|)
    ensures Strings(d) == Strings(b)
  {
    hide Field, Struct, Strings, NameAt, EncTok, Aligned, Pre, Post, Edited, Holds, NopBytes, Enc, Abs, Named, Wf;
    NopRunIs(k, g, Strings(b));
    var s := Struct(b);
    hide Put, Splice;
    PutIsSplice(s, p, NopBytes(k));
    EditedSize(b, d, Put(s, p, NopBytes(k)), Strings(b));
    EditedBlocks(b, d, Put(s, p, NopBytes(k)), Strings(b));
    EditHead(s, c, f, NopRun(k, g), 4 * k, NopBytes(k));
    ForestHeld(b, d, c, f, NopRun(k, g), Splice(s, p, 4 * k, NopBytes(k)), Strings(b));
  }

  // Every surviving node stays where it is.

  lemma {:induction false} NopNodes(k: nat, g: Forest, off: int)
    requires Wf(g)
    ensures Wf(NopRun(k, g)) && |Enc(NopRun(k, g))| == 4 * k + |Enc(g)|
    ensures Nodes(NopRun(k, g), off) == Nodes(g, off + 4 * k)
  {
    hide Word;
    if k > 0 { NopNodes(k - 1, Item(Nop, g), off); }
  }

  /** The nodes before and after a position, and around it; the hole takes `size` bytes. */
  function NodesBefore(c: Ctx, off: int): (r: seq<(int, bytes)>)
    requires WfCtx(c)
  {
    match c
    case Hole => []
    case CItem(tok, inner) => NodesBefore(inner, off + |EncTok(tok)|)
    case CBody(name, pad, inner, _) => [(off, name)] + NodesBefore(inner, BodyAt(off, name, pad))
    case CRest(name, pad, body, inner) =>
      var b := BodyAt(off, name, pad);
      ([(off, name)] + Nodes(body, b)) + NodesBefore(inner, b + |Enc(body)| + 4)
  }

  function NodesAfter(c: Ctx, off: int, size: nat): (r: seq<(int, bytes)>)
    requires WfCtx(c)
  {
    match c
    case Hole => []
    case CItem(tok, inner) => NodesAfter(inner, off + |EncTok(tok)|, size)
    case CBody(name, pad, inner, rest) =>
      var b := BodyAt(off, name, pad);
      NodesAfter(inner, b, size) + Nodes(rest, b + |Pre(inner)| + size + |Post(inner)| + 4)
    case CRest(name, pad, body, inner) => NodesAfter(inner, BodyAt(off, name, pad) + |Enc(body)| + 4, size)
  }

  lemma {:induction false} NodesPlug(c: Ctx, f: Forest, off: int)
    requires WfCtx(c) && Wf(f)
    ensures Wf(Plug(c, f))
    ensures Nodes(Plug(c, f), off) == NodesBefore(c, off) + Nodes(f, off + |Pre(c)|) + NodesAfter(c, off, |Enc(f)|)
  {
    hide EncTok, Aligned, Enc, Nodes, NodesBefore, NodesAfter, Pre, Plug;
    WfPlug(c, f);
    match c
    case Hole => NodesInItem(c, f, off);
    case CItem(tok, inner) =>
      NodesPlug(inner, f, off + |EncTok(tok)|);
      NodesInItem(c, f, off);
    case CBody(name, pad, inner, rest) =>
      NodesPlug(inner, f, BodyAt(off, name, pad));
      NodesInBody(c, f, off);
    case CRest(name, pad, body, inner) =>
      NodesPlug(inner, f, BodyAt(off, name, pad) + |Enc(body)| + 4);
      NodesInRest(c, f, off);
  }

  lemma NodesInItem(c: Ctx, f: Forest, off: int)
    requires (c.Hole? || c.CItem?) && WfCtx(c) && Wf(f) && Wf(Plug(c, f)) && (c.CItem? ==> Wf(Plug(c.inner, f)))
    requires c.CItem? ==>
      var o := off + |EncTok(c.tok)|;
      Nodes(Plug(c.inner, f), o)
      == NodesBefore(c.inner, o) + Nodes(f, o + |Pre(c.inner)|) + NodesAfter(c.inner, o, |Enc(f)|)
    ensures Nodes(Plug(c, f), off) == NodesBefore(c, off) + Nodes(f, off + |Pre(c)|) + NodesAfter(c, off, |Enc(f)|)
  {
    hide EncTok, Aligned, Enc;
  }

  lemma NodesInBody(c: Ctx, f: Forest, off: int)
    requires c.CBody? && WfCtx(c) && Wf(f) && Wf(Plug(c.inner, f)) && Wf(Plug(c, f))
    requires var b := BodyAt(off, c.name, c.pad);
      Nodes(Plug(c.inner, f), b)
      == NodesBefore(c.inner, b) + Nodes(f, b + |Pre(c.inner)|) + NodesAfter(c.inner, b, |Enc(f)|)
    ensures Nodes(Plug(c, f), off) == NodesBefore(c, off) + Nodes(f, off + |Pre(c)|) + NodesAfter(c, off, |Enc(f)|)
  {
    hide EncTok, Aligned, Enc;
    var b, inner := BodyAt(off, c.name, c.pad), c.inner;
    EncPlug(inner, f);
    Assoc5Nodes([(off, c.name)], NodesBefore(inner, b), Nodes(f, b + |Pre(inner)|), NodesAfter(inner, b, |Enc(f)|),
      Nodes(c.rest, b + |Enc(Plug(inner, f))| + 4));
  }

  lemma NodesInRest(c: Ctx, f: Forest, off: int)
    requires c.CRest? && WfCtx(c) && Wf(f) && Wf(Plug(c.inner, f)) && Wf(Plug(c, f))
    requires var e := BodyAt(off, c.name, c.pad) + |Enc(c.body)| + 4;
      Nodes(Plug(c.inner, f), e)
      == NodesBefore(c.inner, e) + Nodes(f, e + |Pre(c.inner)|) + NodesAfter(c.inner, e, |Enc(f)|)
    ensures Nodes(Plug(c, f), off) == NodesBefore(c, off) + Nodes(f, off + |Pre(c)|) + NodesAfter(c, off, |Enc(f)|)
  {
    hide EncTok, Aligned, Enc;
    EndLen();
    var b, inner := BodyAt(off, c.name, c.pad), c.inner;
    var e := b + |Enc(c.body)| + 4;
    Assoc5Nodes([(off, c.name)] + Nodes(c.body, b), NodesBefore(inner, e), Nodes(f, e + |Pre(inner)|),
      NodesAfter(inner, e, |Enc(f)|), []);
  }

  lemma Assoc5Nodes<T>(a: seq<T>, b: seq<T>, c: seq<T>, d: seq<T>, e: seq<T>)
    ensures a + (b + c + d) + e == (a + b) + c + (d + e)
    ensures a + (b + c + d) == (a + b) + c + d
  {
  }

  /** Blanking a node takes it and the nodes inside it out of the list of nodes; all others are where they were. */
  lemma NopNodeNodes(c: Ctx, n: Forest) returns (before: seq<(int, bytes)>, after: seq<(int, bytes)>)
    requires n.Node? && WfCtx(c) && Wf(n)
    ensures var g := NopRun(NodeSize(n) / 4, n.rest);
      var gone := [(|Pre(c)|, n.name)] + Nodes(n.body, BodyAt(|Pre(c)|, n.name, n.pad));
      && Wf(Plug(c, n)) && Wf(Plug(c, g))
      && Nodes(Plug(c, n), 0) == before + gone + after && Nodes(Plug(c, g), 0) == before + after
  {
    hide EncTok, NopRun, Pre, Enc, Nodes, NodesBefore, NodesAfter;
    NodeSizeAligned(n);
    AlignedExact(NodeSize(n));
    NodeBytes(n);
    var g := NopRun(NodeSize(n) / 4, n.rest);
    NopNodes(NodeSize(n) / 4, n.rest, |Pre(c)|);
    NodesOfNode(n, |Pre(c)|);
    NodesPlug(c, n, 0);
    NodesPlug(c, g, 0);
    before, after := NodesBefore(c, 0), Nodes(g, |Pre(c)|) + NodesAfter(c, 0, |Enc(n)|);
    Assoc5Nodes(before, [(|Pre(c)|, n.name)] + Nodes(n.body, BodyAt(|Pre(c)|, n.name, n.pad)), Nodes(g, |Pre(c)|),
      NodesAfter(c, 0, |Enc(n)|), []);
  }

  lemma NodesOfNode(n: Forest, off: int)
    requires n.Node? && Wf(n)
    ensures Nodes(n, off)
      == [(off, n.name)] + Nodes(n.body, BodyAt(off, n.name, n.pad)) + Nodes(n.rest, off + NodeSize(n))
  {
    hide EncTok;
  }

  /** `fdt_nop_node`: the subtree is gone for every reader, and no byte outside it moves. */
  method NopNode(fdt: array<byte>, node: int, ghost c: Ctx, ghost n: Forest) returns (err: int)
    requires Sane(fdt[..]) && R.IsInt(node)
    requires Field(fdt[..], OFF_STRUCT) + Align4(Field(fdt[..], SIZE_STRUCT)) <= fdt.Length
    modifies fdt
    ensures err != 0 ==> fdt[..] == old(fdt[..])
    ensures var b := old(fdt[..]);
      NodeAt(b, node, c, n) ==>
        && err == 0
        && Replaced(b, fdt[..], c, NopRun(NodeSize(n) / 4, n.rest))
        && ReadsAs(NopRun(NodeSize(n) / 4, n.rest), n.rest, Strings(b), |Enc(n)|) && Strings(fdt[..]) == Strings(b)
        && Field(b, OFF_STRUCT) + node + NodeSize(n) <= |b|
        && fdt[..] == Put(b, Field(b, OFF_STRUCT) + node, NopBytes(NodeSize(n) / 4))
  {
    hide Field, Struct, Strings, TagAt, Edited, NodeAt, Replaced, NodeSize, NodeEnd, NopBytes, NopRun, Enc, Abs, Named,
         Wf, ReadsAs;
    ghost var b := fdt[..];
    if NodeAt(b, node, c, n) {
      NodeAtWf(b, node, c, n);
      NodeEndAt(b, node, c, n);
      NodeSizeAligned(n);
      AlignedExact(NodeSize(n));
    }
    var end := R.NodeEndOffset(fdt, node);
    NodeEndNeg(Struct(b), node);
    if end < 0 {
      return end;
    }
    NodeEndInside(Struct(b), node, 0);
    AlignWithin(node, end, |Struct(b)|);
    NopRegion(fdt, node, end - node);
    err := 0;
    if NodeAt(b, node, c, n) {
      NopRegionIs(b, fdt[..], node, NodeSize(n) / 4);
      NodeBytes(n);
      NodeAtBlank(b, fdt[..], node, c, n);
    }
  }

  lemma NodeAtBlank(b: bytes, d: bytes, off: int, c: Ctx, n: Forest)
    requires NodeAt(b, off, c, n) && 0 <= off && off + NodeSize(n) <= |Struct(b)| && NodeSize(n) % 4 == 0
    requires NodeSize(n) <= |Enc(n)| && Enc(n)[NodeSize(n)..] == Enc(n.rest)
    requires Edited(b, d, Put(Struct(b), off, NopBytes(NodeSize(n) / 4)), Strings(b))
    ensures var g := NopRun(NodeSize(n) / 4, n.rest);
      Replaced(b, d, c, g) && ReadsAs(g, n.rest, Strings(b), |Enc(n)|) && Strings(d) == Strings(b)
  {
    hide Field, Struct, Strings, Edited, Replaced, NodeSize, NopBytes, NopRun, Enc, Abs, Holds, Pre, NameAt;
    AbsPlug(c, n, Strings(b));
    Blanked(b, d, c, n, n.rest, off, NodeSize(n) / 4);
  }

  lemma AlignedExact(k: nat)
    requires Aligned(k)
    ensures Align4(k) == k && k % 4 == 0
  {
  }

  lemma AlignWithin(from: nat, to: int, size: nat)
    requires Aligned(from) && from <= to <= size + 3 && (to <= size || Aligned(to))
    ensures from + Align4(to - from) <= Align4(size)
  {
  }

  /** The end of a node is an aligned tag boundary inside the block. */
  lemma {:induction false} NodeEndInside(s: bytes, off: int, depth: int)
    requires off >= 0 && NodeEnd(s, off, depth) >= 0 && depth >= 0
    ensures Aligned(off) && off < NodeEnd(s, off, depth) < |s| + 4 && Aligned(NodeEnd(s, off, depth))
    decreases |s| + 8 - off
  {
    var n := NextNode(s, off, depth);
    ScanNodeInside(s, CheckNode(s, off), depth);
    if n.off >= 0 && n.depth >= 0 {
      NodeEndInside(s, n.off, n.depth);
    }
  }

  lemma {:induction false} ScanNodeInside(s: bytes, off: int, depth: int)
    requires off >= 0 && Aligned(off)
    ensures var n := ScanNode(s, off, depth); n.off >= 0 ==> Aligned(n.off) && off <= n.off < |s| + 4
    decreases |s| - off
  {
    hide Unword, Align4, Aligned;
    var r := TagAt(s, off);
    if r.tag == END_NODE && depth - 1 >= 0 {
      ScanNodeInside(s, r.next, depth - 1);
    } else if r.tag == PROP || r.tag == NOP {
      ScanNodeInside(s, r.next, depth);
    }
  }

  // ---------------------------------------------------------------- properties

  /** Blanking the found property. */
  lemma PropBlanked(b: bytes, d: bytes, off: int, c: Ctx, n: Forest, name: bytes) returns (body: Forest)
    requires NodeAt(b, off, c, n) && PropCtx(n.body, Strings(b), name).Some?
    requires var r := GetProperty(Struct(b), Strings(b), off, name);
      0 <= r && r + 12 <= |Struct(b)| && r + 12 + Align4(PropLen(Struct(b), r)) <= |Struct(b)| ==>
        Edited(b, d, Put(Struct(b), r, NopBytes((12 + Align4(PropLen(Struct(b), r))) / 4)), Strings(b))
    ensures BodyIs(b, d, off, c, n, WithBody(n, body), DelAttr(Abs(n.body, Strings(b)), name))
    ensures Strings(d) == Strings(b) && Wf(body) && |Enc(body)| == |Enc(n.body)|
    ensures Wf(n.body) && Nodes(body, 0) == Nodes(n.body, 0)
  {
    hide Field, Struct, Strings, NameAt, EncTok, Aligned, Pre, Post, Edited, Holds, NopBytes, Abs, TagAt, Replaced,
         Align4, BodyIs;
    var t := Strings(b);
    var k, f, r := PropPlaced(b, off, c, n, name);
    PropSize(f.tok.nameoff, f.tok.val, f.tok.pad);
    var q := (12 + Align4(|f.tok.val|)) / 4;
    AlignedQuarter(12 + Align4(|f.tok.val|), Align4(|f.tok.val|));
    InBodyIs(c, n, k, f);
    InBodyIs(c, n, k, f.rest);
    InBodyIs(c, n, k, NopRun(q, f.rest));
    AbsPlug(InBody(c, n, k), f, t);
    Blanked(b, d, InBody(c, n, k), f, f.rest, r, q);
    body := Plug(k, NopRun(q, f.rest));
    BlankedBody(b, d, off, c, n, name, k, f, NopRun(q, f.rest));
    NopPropNodes(k, f, q);
  }

  /** Blanking a property leaves every node where it is. */
  lemma NopPropNodes(k: Ctx, f: Forest, q: nat)
    requires WfCtx(k) && f.Item? && Wf(f) && |EncTok(f.tok)| == 4 * q
    ensures Wf(Plug(k, f)) && Wf(Plug(k, NopRun(q, f.rest)))
    ensures Nodes(Plug(k, NopRun(q, f.rest)), 0) == Nodes(Plug(k, f), 0)
  {
    hide EncTok, NopRun, Pre;
    NopNodes(q, f.rest, |Pre(k)|);
    NodesPlug(k, f, 0);
    NodesPlug(k, NopRun(q, f.rest), 0);
  }

  lemma AlignedQuarter(m: nat, a: nat)
    requires m == 12 + a && Aligned(a)
    ensures 4 * (m / 4) == m
  {
  }

  lemma BlankedBody(b: bytes, d: bytes, off: int, c: Ctx, n: Forest, name: bytes, k: Ctx, f: Forest, h: Forest)
    requires Wf(f) && NodeAt(b, off, c, n) && Found(Strings(b), n, name, k, f)
    requires Named(f.rest, Strings(b)) && ReadsAs(h, f.rest, Strings(b), |Enc(f)|)
    requires Replaced(b, d, InBody(c, n, k), h) && Strings(d) == Strings(b)
    ensures BodyIs(b, d, off, c, n, WithBody(n, Plug(k, h)), DelAttr(Abs(n.body, Strings(b)), name))
    ensures Wf(Plug(k, h)) && |Enc(Plug(k, h))| == |Enc(n.body)|
  {
    hide Field, Struct, Strings, NameAt, EncTok, Aligned, Pre, Post, Holds;
    var t := Strings(b);
    EncPlug(k, h);
    EncPlug(k, f);
    InBodyIs(c, n, k, h);
    AbsPlug(k, f.rest, t);
    AbsPlug(k, h, t);
    AbsPlug(k, f, t);
    DropPropAbs(n.body, t, name);
    AbsPlug(c, WithBody(n, Plug(k, h)), t);
  }

  /** `fdt_nop_property`: the property is gone for every reader, and nothing moves. */
  method NopProperty(fdt: array<byte>, node: int, name: bytes, ghost c: Ctx, ghost n: Forest)
    returns (err: int, ghost g: Forest)
    requires Live(fdt[..]) && R.IsInt(node)
    requires Field(fdt[..], OFF_STRUCT) + Align4(Field(fdt[..], SIZE_STRUCT)) <= fdt.Length
    modifies fdt
    ensures err != 0 ==> fdt[..] == old(fdt[..])
    ensures var b := old(fdt[..]); var prop := GetProperty(Struct(b), Strings(b), node, name);
      err == 0 <==> prop >= 0
    ensures var b := old(fdt[..]); var prop := GetProperty(Struct(b), Strings(b), node, name);
      err == 0 ==>
        && prop + 12 + Align4(PropLen(Struct(b), prop)) + Field(b, OFF_STRUCT) <= |b|
        && fdt[..] == Put(b, Field(b, OFF_STRUCT) + prop, NopBytes((12 + Align4(PropLen(Struct(b), prop))) / 4))
    ensures var b := old(fdt[..]);
      NodeAt(b, node, c, n) ==>
        && (err == if GetAttr(Abs(n.body, Strings(b)), name).Some? then 0 else -ERR_NOTFOUND)
        && (err == 0 ==> BodyIs(b, fdt[..], node, c, n, g, DelAttr(Abs(n.body, Strings(b)), name))
                         && Strings(fdt[..]) == Strings(b) && Wf(g) && |Enc(g)| == |Enc(n)|
                         && Wf(n.body) && Wf(g.body) && Nodes(g.body, 0) == Nodes(n.body, 0))
  {
    hide Field, Struct, Strings, TagAt, GetProperty, CheckNode, Edited, NodeAt, BodyIs, Unword, NameAt, Abs, GetAttr,
         DelAttr, NopBytes, Put, EncTok, Word;
    ghost var b := fdt[..];
    g := n;
    if NodeAt(b, node, c, n) {
      NodeAtWf(b, node, c, n);
      NodeLookup(b, node, c, n, name, []);
    }
    var prop := R.GetProperty(fdt, node, name);
    if prop < 0 {
      return prop, g;
    }
    assert CheckProp(Struct(b), prop) >= 0;
    var len := R.StructWord(fdt, prop + 4);
    R.PropLenInt(Struct(b), prop);
    AlignShift(12, len);
    AlignWithin(prop, prop + len + 12, |Struct(b)|);
    NopRegion(fdt, prop, len + 12);
    err := 0;
    if NodeAt(b, node, c, n) {
      NopRegionIs(b, fdt[..], prop, (12 + Align4(len)) / 4);
      ghost var body := PropBlanked(b, fdt[..], node, c, n, name);
      g := WithBody(n, body);
    }
  }

  // ---------------------------------------------------------------- blanking and deleting agree

  /** A blob in which a forest was blanked reads like one in which it was cut out: `fdt_nop_node` means
      `fdt_del_node`. */
  lemma BlankIsCut(b: bytes, blanked: bytes, cut: bytes, c: Ctx, f: Forest, g: Forest, h: Forest, size: nat)
    requires Editable(b) && Holds(Struct(b), Plug(c, f)) && Named(Plug(c, f), Strings(b))
    requires Replaced(b, blanked, c, g) && Strings(blanked) == Strings(b) && ReadsAs(g, h, Strings(b), size)
    requires Replaced(b, cut, c, h)
    ensures TreeOf(blanked) == TreeOf(cut) && TreeOf(cut).Some?
  {
    hide Field, Struct, Strings, Holds, NameAt, Pre, TreeOf;
    ReplacedTree(b, blanked, c, f, g);
    ReplacedTree(b, cut, c, f, h);
    var t := Strings(b);
    var x := Strings(cut)[|t|..];
    assert Strings(cut) == t + x;
    AbsGrows(h, t, x);
  }
}
