/** Merging an overlay into a base blob (`fdt_overlay.c`). */
module Overlay {
  import opened Bytes
  import opened Format
  import opened Tree
  import opened Blob
  import opened Walk
  import opened TreeOps
  import opened Splicing
  import opened Editor
  import opened NodeOps
  import opened Merging
  import R = Reader

  /** The overlay node at `off`, with its body. */
  ghost predicate OvAt(b: bytes, off: int, name: bytes, pad: bytes, body: Forest)
  {
    Live(b) && NodeIn(Struct(b), off, name, pad, body) && Named(body, Strings(b))
  }

  // ---------------------------------------------------------------- room

  /** The result `err` of an edit of `b` into `d` that takes at most `room` bytes: it fails for want of space only, and
      not when that much is free. */
  predicate Roomed(b: bytes, d: bytes, room: nat, err: int)
  {
    && |b| >= HEADER_SIZE && |d| >= HEADER_SIZE && (err == 0 || err == -ERR_NOSPACE)
    && (DataSize(b) + room <= Field(b, TOTALSIZE) ==> err == 0)
    && (err == 0 ==> DataSize(d) <= DataSize(b) + room)
  }

  /** `more` bytes are the most that is still to come of `room`. */
  predicate RoomLeft(b: bytes, d: bytes, room: nat, more: nat)
  {
    && |b| >= HEADER_SIZE && |d| >= HEADER_SIZE && Field(d, TOTALSIZE) == Field(b, TOTALSIZE)
    && DataSize(d) + more <= DataSize(b) + room
  }

  lemma RoomStep(b: bytes, d: bytes, e: bytes, room: nat, one: nat, more: nat, err: int)
    requires RoomLeft(b, d, room, one + more) && Roomed(d, e, one, err) && |e| >= HEADER_SIZE
    requires Field(e, TOTALSIZE) == Field(d, TOTALSIZE)
    ensures if err == 0 then RoomLeft(b, e, room, more) else Roomed(b, e, room, err)
  {
    hide Field;
  }

  lemma RoomLess(b: bytes, d: bytes, room: nat, more: nat)
    requires RoomLeft(b, d, room, more)
    ensures Roomed(b, d, room, 0)
  {
    hide Field;
  }

  lemma KeptTotal(b: bytes, d: bytes, off: int, c: Ctx, n: Forest, g: Forest)
    requires NodeAt(b, off, c, n) && Kept(b, d, off, c, n, g)
    ensures HEADER_SIZE <= |b| == |d| && Field(d, TOTALSIZE) == Field(b, TOTALSIZE)
  {
    hide Field, Struct, Strings, Holds, Pre;
  }

  lemma RoomStart(b: bytes, off: int, c: Ctx, n: Forest, room: nat)
    requires NodeAt(b, off, c, n)
    ensures RoomLeft(b, b, room, room)
  {
    hide Field, Struct, Strings, Holds, Pre;
  }

  lemma SetRoomed(b: bytes, d: bytes, n: Forest, name: bytes, val: bytes, err: int)
    requires Sane(b) && n.Node? && |d| >= HEADER_SIZE
    requires err == if DataSize(b) + SetGrowth(Strings(b), n.body, name, val) <= Field(b, TOTALSIZE)
                    then 0 else -ERR_NOSPACE
    requires err == 0 ==> DataSize(d) == DataSize(b) + SetGrowth(Strings(b), n.body, name, val)
    ensures Roomed(b, d, SetRoom(name, val), err)
  {
    hide Field, PropCtx;
  }

  lemma SubRoomed(b: bytes, d: bytes, off: int, c: Ctx, n: Forest, name: bytes, r: int, err: int)
    requires NodeAt(b, off, c, n) && HEADER_SIZE <= |d| && (r < 0 ==> d == b)
    requires SubCtx(n.body, name).Some? ==> r == -ERR_EXISTS
    requires SubCtx(n.body, name).None? ==>
      r == if DataSize(b) + |EmptyNode(name)| <= Field(b, TOTALSIZE) then InsertAt(n, off) else -ERR_NOSPACE
    requires 0 <= InsertAt(n, off) && (r >= 0 ==> DataSize(d) == DataSize(b) + |EmptyNode(name)|)
    requires err == if r < 0 && r != -ERR_EXISTS then r else 0
    ensures Roomed(b, d, SubRoom(name), err)
  {
    hide Field, Struct, Strings, Holds, Pre, SubCtx, InsertAt;
  }

  // ---------------------------------------------------------------- gluing edits together

  lemma BodyIsTrans(b: bytes, d: bytes, e: bytes, off: int, c: Ctx, n: Forest, g: Forest, h: Forest)
    requires NodeAt(b, off, c, n) && Kept(b, d, off, c, n, g) && Kept(d, e, off, c, g, h)
    ensures Kept(b, e, off, c, n, h)
  {
    hide Field, Struct, Strings, Holds, Pre;
  }

  lemma KeptSelf(b: bytes, off: int, c: Ctx, n: Forest)
    requires NodeAt(b, off, c, n)
    ensures Kept(b, b, off, c, n, n)
  {
    hide Field, Struct, Strings, Holds, Pre;
  }

  lemma KeptIs(b: bytes, d: bytes, off: int, c: Ctx, n: Forest, g: Forest)
    requires NodeAt(b, off, c, n) && Kept(b, d, off, c, n, g)
    ensures NodeAt(d, off, c, g) && |d| == |b|
  {
    hide Field, Struct, Strings, Holds, Pre;
  }

  /** A failed edit that left the used bytes alone left the node where it was. */
  lemma UsedKept(b: bytes, d: bytes, off: int, c: Ctx, n: Forest)
    requires NodeAt(b, off, c, n) && Sane(d) && Used(d) == Used(b) && |d| == |b|
    ensures Kept(b, d, off, c, n, n)
  {
    UsedFields(b, d);
    UsedBlocks(b, d);
    hide Field, Struct, Strings, Holds, Pre, Named;
  }

  lemma UsedFields(b: bytes, d: bytes)
    requires Editable(b) && Sane(d) && Used(d) == Used(b) && |d| == |b|
    ensures forall k: nat | k < 10 :: Field(d, k) == Field(b, k)
    ensures forall i | 0 <= i < DataSize(b) :: d[i] == b[i]
  {
    hide Field;
    assert DataSize(d) == |Used(d)| == |Used(b)| == DataSize(b);
    forall i | 0 <= i < DataSize(b) ensures d[i] == b[i] {
      assert d[i] == Used(d)[i] == Used(b)[i] == b[i];
    }
    FieldFrame(b, d);
  }

  lemma UsedBlocks(b: bytes, d: bytes)
    requires Editable(b) && Sane(d) && |d| == |b|
    requires forall k: nat | k < 10 :: Field(d, k) == Field(b, k)
    requires forall i | 0 <= i < DataSize(b) :: d[i] == b[i]
    ensures Editable(d) && Struct(d) == Struct(b) && Strings(d) == Strings(b)
  {
    hide Field;
    assert Struct(d) == Struct(b);
    assert Strings(d) == Strings(b);
  }

  // ---------------------------------------------------------------- properties

  /** The property of the overlay that the enumeration stands on. */
  lemma OvProp(b: bytes, pos: int, rem: Forest, tok: Token, rest: Forest)
    requires Live(b) && Inside(Struct(b), pos, rem) && Named(rem, Strings(b)) && PropFrom(rem) == Item(tok, rest)
    ensures var s, t := Struct(b), Strings(b); var o := NextProp(s, pos);
      && tok.Prop? && WfTok(tok) && 0 <= o && CheckProp(s, o) == o + |EncTok(tok)| && o + 12 + |tok.val| <= |s|
      && NameAt(t, PropNameOff(s, o)).Some? && PropNameOff(s, o) == tok.nameoff && PropLen(s, o) == |tok.val|
      && s[o + 12..o + 12 + |tok.val|] == tok.val
      && |NameAt(t, tok.nameoff).value| < |t|
      && Inside(s, o + |EncTok(tok)|, rest) && Named(rest, t)
      && Abs(rem, t) == Attr(NameAt(t, tok.nameoff).value, tok.val, Abs(rest, t))
  {
    hide Field, Struct, Strings, EncTok, TagAt, Aligned, Align4, At, NameAt;
    NextPropIs(Struct(b), pos, rem, Strings(b));
    PropFields(Struct(b), pos + PropSkip(rem), tok);
    NameShort(Strings(b), tok.nameoff);
  }

  lemma NameShort(t: bytes, no: int)
    requires NameAt(t, no).Some?
    ensures |NameAt(t, no).value| < |t| && NoNul(NameAt(t, no).value)
  {
  }

  lemma OvPropAt(b: bytes, pos: int, rem: Forest) returns (tok: Token, rest: Forest, name: bytes)
    requires Live(b) && Inside(Struct(b), pos, rem) && Named(rem, Strings(b)) && NextProp(Struct(b), pos) >= 0
    ensures var s, t := Struct(b), Strings(b); var o := NextProp(s, pos);
      && tok.Prop? && WfTok(tok) && CheckProp(s, o) == o + |EncTok(tok)| && pos <= o && o + 12 <= |s|
      && |tok.val| + 12 <= |s|
      && NameAt(t, PropNameOff(s, o)) == Some(name) && |name| < |t| && NoNul(name)
      && PropLen(s, o) == |tok.val| && o + 12 + |tok.val| <= |s| && s[o + 12..o + 12 + |tok.val|] == tok.val
      && NextPropertyOffset(s, o) == NextProp(s, o + |EncTok(tok)|)
      && Inside(s, o + |EncTok(tok)|, rest) && Named(rest, t)
      && Named(rem, t) && Abs(rem, t) == Attr(name, tok.val, Abs(rest, t))
  {
    hide Field, Struct, Strings, EncTok, TagAt, Aligned, Align4, At, NameAt, NextProp, PropNameOff, PropLen;
    NextPropIs(Struct(b), pos, rem, Strings(b));
    tok, rest := PropFrom(rem).tok, PropFrom(rem).rest;
    OvProp(b, pos, rem, tok, rest);
    name := NameAt(Strings(b), tok.nameoff).value;
    NameShort(Strings(b), tok.nameoff);
    CheckPropNonneg(Struct(b), NextProp(Struct(b), pos));
  }

  lemma CheckPropNonneg(s: bytes, off: int)
    ensures CheckProp(s, off) >= 0 ==> NextPropertyOffset(s, off) == NextProp(s, CheckProp(s, off))
  {
  }

  lemma OvPropsEnd(b: bytes, pos: int, rem: Forest, acc: Tree)
    requires Live(b) && Inside(Struct(b), pos, rem) && Named(rem, Strings(b)) && NextProp(Struct(b), pos) < 0
    ensures MergeProps(acc, Abs(rem, Strings(b))) == acc
  {
    hide Field, Struct, Strings, EncTok, TagAt, Aligned, Align4, At, NameAt, NextProp;
    InBlock(Struct(b), pos, Enc(rem));
    NextPropIs(Struct(b), pos, rem, Strings(b));
  }

  lemma OvBody(b: bytes, off: int, name: bytes, pad: bytes, body: Forest)
    requires OvAt(b, off, name, pad, body)
    ensures Sane(b) && Live(b) && WfTok(Begin(name, pad)) && Inside(Struct(b), BodyAt(off, name, pad), body)
    ensures Named(body, Strings(b))
    ensures FirstPropertyOffset(Struct(b), off) == NextProp(Struct(b), BodyAt(off, name, pad))
    ensures CheckNode(Struct(b), off) == BodyAt(off, name, pad)
  {
    hide Field, Struct, Strings, EncTok, TagAt, Aligned, Align4, At, NameAt, NextProp;
    NodeInIs(Struct(b), off, name, pad, body);
  }

  /** One set behind another edit of the same node. */
  lemma SetOne(b: bytes, d: bytes, e: bytes, off: int, c: Ctx, n: Forest, g: Forest, h: Forest, acc: Tree, name: bytes,
               val: bytes)
    requires NodeAt(b, off, c, n) && BodyIs(b, d, off, c, n, g, acc) && NodeAt(d, off, c, g)
    requires BodyIs(d, e, off, c, g, h, SetAttr(Abs(g.body, Strings(d)), name, val))
    ensures BodyIs(b, e, off, c, n, h, SetAttr(acc, name, val)) && NodeAt(e, off, c, h)
  {
    hide Field, Struct, Strings, Holds, Pre, NodeAt, Kept, SetAttr, Named, Abs;
    BodyIsTrans(b, d, e, off, c, n, g, h);
    KeptIs(b, e, off, c, n, h);
  }

  lemma BodyStart(b: bytes, off: int, c: Ctx, n: Forest)
    requires NodeAt(b, off, c, n)
    ensures BodyIs(b, b, off, c, n, n, Abs(n.body, Strings(b)))
  {
    hide Field, Struct, Strings, Holds, Pre;
  }

  lemma BodyKept(b: bytes, d: bytes, off: int, c: Ctx, n: Forest, g: Forest, a: Tree)
    requires NodeAt(b, off, c, n) && BodyIs(b, d, off, c, n, g, a)
    ensures Kept(b, d, off, c, n, g) && NodeAt(d, off, c, g)
  {
    hide Field, Struct, Strings, Holds, Pre;
  }

  lemma NodeAtSane(b: bytes, off: int, c: Ctx, n: Forest)
    requires NodeAt(b, off, c, n)
    ensures Sane(b) && Field(b, MAGIC) != SW_MAGIC && Editable(b) && |b| < TWO31
  {
  }

  /** The property loop of `overlay_apply_node`. */
  method ApplyProps(fdt: array<byte>, target: int, fdto: array<byte>, node: int, ghost c: Ctx, ghost n: Forest,
                    ghost name: bytes, ghost pad: bytes, ghost body: Forest)
    returns (err: int, ghost g: Forest)
    requires fdt != fdto && R.IsInt(target) && R.IsInt(node)
    requires NodeAt(fdt[..], target, c, n) && OvAt(fdto[..], node, name, pad, body)
    modifies fdt
    ensures Kept(old(fdt[..]), fdt[..], target, c, n, g)
    ensures err == 0 ==> BodyIs(old(fdt[..]), fdt[..], target, c, n, g,
      MergeProps(Abs(n.body, Strings(old(fdt[..]))), Abs(body, Strings(fdto[..]))))
    ensures Roomed(old(fdt[..]), fdt[..], PropsRoom(Abs(body, Strings(fdto[..]))), err)
  {
    hide Roomed, RoomLeft, SetRoom, Field, Struct, Strings, TagAt, NodeAt, Kept, BodyIs, Inside, Abs, NameAt, Named,
         Used, CheckProp, NextProp, EncTok, WfTok, SetAttr, RwProbe, SetGrowth, PropNameOff, PropLen, OvAt, Sane;
    ghost var b := fdt[..];
    OvBody(fdto[..], node, name, pad, body);
    ghost var s, t := Struct(fdto[..]), Strings(fdto[..]);
    BodyStart(b, target, c, n);
    NodeAtWf(b, target, c, n);
    g := n;
    ghost var acc := Abs(n.body, Strings(b));
    ghost var rem, pos := body, BodyAt(node, name, pad);
    ghost var goal := MergeProps(acc, Abs(body, t));
    ghost var room := PropsRoom(Abs(body, t));
    RoomStart(b, target, c, n, room);
    var property := R.FirstPropertyOffset(fdto, node);
    while property >= 0
      invariant R.IsInt(property)
      invariant Inside(s, pos, rem) && Named(rem, t) && property == NextProp(s, pos)
      invariant BodyIs(b, fdt[..], target, c, n, g, acc) && NodeAt(fdt[..], target, c, g)
      invariant MergeProps(acc, Abs(rem, t)) == goal && RoomLeft(b, fdt[..], room, PropsRoom(Abs(rem, t)))
      decreases |s| - pos
    {
      ghost var tok, rest, nm := OvPropAt(fdto[..], pos, rem);
      var pname, prop;
      err, pname, prop := R.GetPropByOffset(fdto, property);
      ghost var d := fdt[..];
      BodyKept(b, d, target, c, n, g, acc);
      if err != 0 {
        return;
      }
      NodeAtSane(d, target, c, g);
      NodeAtWf(d, target, c, g);
      BodyRead(b, d, target, c, n, g, acc);
      ghost var h;
      err, h := SetProp(fdt, target, pname, prop, c, g);
      SetRoomed(d, fdt[..], g, pname, prop, err);
      if err != 0 {
        UsedKept(d, fdt[..], target, c, g);
        BodyIsTrans(b, d, fdt[..], target, c, n, g, g);
        KeptTotal(d, fdt[..], target, c, g, g);
        RoomStep(b, d, fdt[..], room, SetRoom(pname, prop), PropsRoom(Abs(rest, t)), err);
        return;
      }
      BodyKept(d, fdt[..], target, c, g, h, SetAttr(Abs(g.body, Strings(d)), pname, prop));
      KeptTotal(d, fdt[..], target, c, g, h);
      RoomStep(b, d, fdt[..], room, SetRoom(pname, prop), PropsRoom(Abs(rest, t)), err);
      SetOne(b, d, fdt[..], target, c, n, g, h, acc, pname, prop);
      g, acc := h, SetAttr(acc, pname, prop);
      pos := property + |EncTok(tok)|;
      rem := rest;
      property := R.NextPropertyOffset(fdto, property);
    }
    OvPropsEnd(fdto[..], pos, rem, acc);
    BodyKept(b, fdt[..], target, c, n, g, acc);
    RoomLess(b, fdt[..], room, PropsRoom(Abs(rem, t)));
    err := 0;
  }

  // ---------------------------------------------------------------- subnodes

  /** The subnode of `h` that `name` finds, at position `k` of the body. */
  ghost predicate SubFound(h: Forest, name: bytes, k: Ctx, m: Forest)
  {
    && h.Node? && m.Node? && WfCtx(k) && Wf(m) && Plug(k, m) == h.body
    && SubCtx(h.body, name) == Some(k) && SubTail(h.body, name) == m
  }

  /** A found subnode is a node of the blob. */
  lemma SubNodeAt(b: bytes, off: int, c: Ctx, h: Forest, name: bytes) returns (k: Ctx, m: Forest)
    requires NodeAt(b, off, c, h) && SubCtx(h.body, name).Some?
    ensures h.Node? && m.Node? && SubFound(h, name, k, m) && WfTok(Begin(h.name, h.pad))
    ensures NodeAt(b, BodyAt(off, h.name, h.pad) + |Pre(k)|, InBody(c, h, k), m)
    ensures FindSub(Struct(b), off, 0, name) == BodyAt(off, h.name, h.pad) + |Pre(k)| < TWO31
    ensures Named(h.body, Strings(b)) && Named(m, Strings(b)) && Named(m.body, Strings(b))
    ensures FindSubT(Abs(h.body, Strings(b)), name) == Some(Abs(m.body, Strings(b)))
  {
    hide Field, Struct, Strings, NameAt, Aligned, Pre, Post, Holds, NameMatches, EncTok;
    k := SubCtx(h.body, name).value;
    m := SubTail(h.body, name);
    WfPlug(k, m);
    InBodyIs(c, h, k, m);
    SubCtxAbs(h.body, Strings(b), name);
    SubLookup(b, off, c, h, name);
    AbsPlug(k, m, Strings(b));
    HoleInside(Struct(b), InBody(c, h, k), m);
  }

  lemma HoleInside(s: bytes, c: Ctx, f: Forest)
    requires Holds(s, Plug(c, f)) && WfCtx(c)
    ensures |Pre(c)| <= |s| < TWO31
  {
    hide Pre, Post, Word;
    AtHole(s, c, f);
  }

  /** An edit of the found subnode is an edit of its parent. */
  lemma LiftSub(b: bytes, d: bytes, off: int, c: Ctx, h: Forest, name: bytes, k: Ctx, m: Forest, m': Forest)
    requires NodeAt(b, off, c, h) && SubFound(h, name, k, m) && WfTok(Begin(h.name, h.pad))
    requires NodeAt(b, BodyAt(off, h.name, h.pad) + |Pre(k)|, InBody(c, h, k), m)
    requires Kept(b, d, BodyAt(off, h.name, h.pad) + |Pre(k)|, InBody(c, h, k), m, m')
    ensures Kept(b, d, off, c, h, WithBody(h, Plug(k, m')))
    ensures Sane(d) && m'.Node? && Named(m'.body, Strings(d)) && Named(h.body, Strings(b))
    ensures BodyIs(b, d, off, c, h, WithBody(h, Plug(k, m')),
      PutSub(Abs(h.body, Strings(b)), name, Abs(m'.body, Strings(d))))
  {
    hide Field, Struct, Strings, NameAt, Aligned, Pre, Post, Holds, NameMatches, EncTok;
    var t, t' := Strings(b), Strings(d);
    var x := t'[|t|..];
    assert t' == t + x;
    InBodyIs(c, h, k, m');
    AbsGrows(h, t, x);
    AbsGrows(h.body, t, x);
    AbsGrows(h.rest, t, x);
    PutSubAbs(h.body, t', name, m'.body);
    AbsPlug(c, WithBody(h, Plug(k, m')), t');
    WfPlug(k, m');
  }

  /** What `fdt_add_subnode`, and `fdt_subnode_offset` behind it, leave: the subnode is there. */
  lemma SubEnsured(b: bytes, d: bytes, off: int, c: Ctx, g: Forest, h: Forest, name: bytes)
    requires NodeAt(b, off, c, g) && SubCtx(g.body, name).None? && NoNul(name)
    requires h == WithBody(g, Plug(HeadCtx(g.body), NewNode(name, HeadTail(g.body))))
    requires BodyIs(b, d, off, c, g, h, AddSub(Abs(g.body, Strings(b)), name))
    ensures SubCtx(h.body, name) == Some(HeadCtx(g.body))
    ensures BodyIs(b, d, off, c, g, h, EnsureSub(Abs(g.body, Strings(b)), name))
  {
    hide Field, Struct, Strings, NameAt, Pre, Post, Holds, NameMatches, EncTok, Kept, Zeros, AddSub;
    SubCtxNew(g.body, name, NewNode(name, HeadTail(g.body)));
    SubCtxAbs(g.body, Strings(b), name);
  }

  /** `d` is `b` where the node at `off` certainly has the subnode `name`, which stands at `nnode`. */
  ghost predicate SubReady(b: bytes, d: bytes, off: int, c: Ctx, n: Forest, h: Forest, name: bytes, nnode: int)
  {
    && NodeAt(b, off, c, n) && BodyIs(b, d, off, c, n, h, EnsureSub(Abs(n.body, Strings(b)), name))
    && NodeAt(d, off, c, h)
    && SubCtx(h.body, name).Some? && nnode == FindSub(Struct(d), off, 0, name)
  }

  lemma InsertNonneg(b: bytes, off: int, c: Ctx, n: Forest, name: bytes)
    requires NodeAt(b, off, c, n)
    ensures 0 <= InsertAt(n, off) <= |Struct(b)|
  {
    hide Field, Struct, Strings, Holds, Pre, Named;
    SubLookup(b, off, c, n, name);
  }

  lemma SubThere(b: bytes, off: int, c: Ctx, n: Forest, name: bytes)
    requires NodeAt(b, off, c, n) && SubCtx(n.body, name).Some?
    ensures SubReady(b, b, off, c, n, n, name, FindSub(Struct(b), off, 0, name))
  {
    hide Field, Struct, Strings, Holds, Pre, Kept, NameMatches, NameAt, AddSub, FindSub, SubCtx;
    SubCtxAbs(n.body, Strings(b), name);
    BodyStart(b, off, c, n);
  }

  lemma SubMade(b: bytes, d: bytes, off: int, c: Ctx, n: Forest, h: Forest, name: bytes)
    requires NodeAt(b, off, c, n) && SubCtx(n.body, name).None? && NoNul(name)
    requires h == WithBody(n, Plug(HeadCtx(n.body), NewNode(name, HeadTail(n.body))))
    requires BodyIs(b, d, off, c, n, h, AddSub(Abs(n.body, Strings(b)), name))
    ensures SubReady(b, d, off, c, n, h, name, InsertAt(n, off))
  {
    hide Field, Struct, Strings, Holds, Pre, Kept, NameMatches, NameAt, AddSub, FindSub, SubCtx, NewNode, EnsureSub;
    SubEnsured(b, d, off, c, n, h, name);
    BodyKept(b, d, off, c, n, h, AddSub(Abs(n.body, Strings(b)), name));
    var k, m := SubNodeAt(d, off, c, h, name);
  }

  lemma SubReadyIs(b: bytes, d: bytes, off: int, c: Ctx, n: Forest, h: Forest, name: bytes, nnode: int)
    requires SubReady(b, d, off, c, n, h, name, nnode)
    ensures NodeAt(d, off, c, h) && SubCtx(h.body, name).Some? && nnode == FindSub(Struct(d), off, 0, name)
    ensures NodeAt(b, off, c, n) && Kept(b, d, off, c, n, h)
  {
    hide Field, Struct, Strings, Holds, Pre, NodeAt, Kept, FindSub, SubCtx, EnsureSub, Abs, Named;
  }

  /** The merge below the found subnode, seen from its parent. */
  lemma SubMerged(b: bytes, d: bytes, e: bytes, off: int, c: Ctx, n: Forest, h: Forest, g: Forest, name: bytes,
                  nnode: int, am: Tree)
    requires SubReady(b, d, off, c, n, h, name, nnode)
    requires BodyIs(d, e, off, c, h, g, PutSub(Abs(h.body, Strings(d)), name, am))
    ensures BodyIs(b, e, off, c, n, g, PutSub(EnsureSub(Abs(n.body, Strings(b)), name), name, am))
    ensures Abs(h.body, Strings(d)) == EnsureSub(Abs(n.body, Strings(b)), name)
  {
    hide Field, Struct, Strings, Holds, Pre, NodeAt, Kept, FindSub, SubCtx, EnsureSub, PutSub, Named, Abs;
    BodyIsTrans(b, d, e, off, c, n, h, g);
  }

  lemma OvName(b: bytes, off: int, name: bytes, pad: bytes, body: Forest)
    requires OvAt(b, off, name, pad, body)
    ensures Sane(b) && Live(b) && RoProbe(b) >= 0 && CheckNode(Struct(b), off) >= 0 && NodeName(Struct(b), off) == name
    ensures NoNul(name) && |name| <= INT_MAX - 32 && Named(body, Strings(b))
  {
    hide Field, Struct, Strings, EncTok, TagAt, NameAt;
    NodeInIs(Struct(b), off, name, pad, body);
    NodeNameSize(Struct(b), off);
  }

  /** `rem` starts with the overlay node at `off`. */
  ghost predicate OvRest(b: bytes, off: int, rem: Forest, bound: nat)
  {
    Live(b) && rem.Node? && Inside(Struct(b), off, rem) && Named(rem, Strings(b)) && FSize(rem) <= bound
  }

  lemma OvRestIs(b: bytes, off: int, rem: Forest, bound: nat)
    requires OvRest(b, off, rem, bound)
    ensures OvAt(b, off, rem.name, rem.pad, rem.body) && rem.Node? && Sane(b)
    ensures Named(rem, Strings(b)) && Named(rem.body, Strings(b)) && Named(rem.rest, Strings(b))
    ensures FSize(rem.body) < bound
  {
    hide Field, Struct, Strings, EncTok, TagAt, NameAt, At, Aligned;
    InsideNode(Struct(b), off, rem.name, rem.pad, rem.body, rem.rest);
  }

  lemma OvFirst(b: bytes, node: int, name: bytes, pad: bytes, body: Forest, acc: Tree) returns (rem: Forest)
    requires OvAt(b, node, name, pad, body)
    ensures var r := FirstSubnode(Struct(b), node);
      if r >= 0 then
        && OvRest(b, r, rem, FSize(body))
        && MergeSubs(acc, Abs(rem, Strings(b))) == MergeSubs(acc, Abs(body, Strings(b)))
        && SubsRoom(Abs(rem, Strings(b))) == SubsRoom(Abs(body, Strings(b)))
      else MergeSubs(acc, Abs(body, Strings(b))) == acc
  {
    hide Field, Struct, Strings, EncTok, TagAt, NameAt, At, Aligned, MergeSubs, Pre;
    var s := Struct(b);
    NodeInIs(s, node, name, pad, body);
    FirstSubnodeIs(s, node, name, pad, body);
    NextNodeIs(s, BodyAt(node, name, pad), body, Strings(b));
    rem := NodeFrom(body);
  }

  lemma OvNext(b: bytes, off: int, rem: Forest, acc: Tree, bound: nat) returns (next: Forest)
    requires OvRest(b, off, rem, bound)
    ensures Named(rem.rest, Strings(b))
    ensures var r := NextSub(Struct(b), off, 1);
      if r >= 0 then OvRest(b, r, next, bound) && FSize(next) < FSize(rem)
                     && MergeSubs(acc, Abs(next, Strings(b))) == MergeSubs(acc, Abs(rem.rest, Strings(b)))
                     && SubsRoom(Abs(next, Strings(b))) == SubsRoom(Abs(rem.rest, Strings(b)))
      else MergeSubs(acc, Abs(rem.rest, Strings(b))) == acc
  {
    hide Field, Struct, Strings, EncTok, TagAt, NameAt, At, Aligned, MergeSubs, Pre, NextSub;
    var s := Struct(b);
    InsideNode(s, off, rem.name, rem.pad, rem.body, rem.rest);
    NextSubnodeIs(s, off, rem.name, rem.pad, rem.body, rem.rest);
    NextNodeIs(s, BodyAt(off, rem.name, rem.pad) + |Enc(rem.body)| + 4, rem.rest, Strings(b));
    next := NodeFrom(rem.rest);
  }

  lemma MergeIs(a: Tree, ov: Tree)
    ensures Merge(a, ov) == MergeSubs(MergeProps(a, ov), ov)
  {
  }

  lemma SubsRoomIs(rem: Forest, t: bytes)
    requires rem.Node? && Named(rem, t)
    ensures SubsRoom(Abs(rem, t)) == SubRoom(rem.name) + MergeRoom(Abs(rem.body, t)) + SubsRoom(Abs(rem.rest, t))
  {
    hide NameAt, MergeRoom, SubRoom;
  }

  lemma RoomIs(ov: Tree)
    ensures MergeRoom(ov) == PropsRoom(ov) + SubsRoom(ov)
  {
  }

  lemma RoomAtLeast(b: bytes, d: bytes, room: nat, more: nat)
    requires RoomLeft(b, d, room, more)
    ensures RoomLeft(b, d, room, 0)
  {
    hide Field;
  }

  lemma MergeSubsStep(acc: Tree, rem: Forest, t: bytes)
    requires rem.Node? && Named(rem, t)
    ensures var b := EnsureSub(acc, rem.name);
      var merged := Merge(FindSubT(b, rem.name).value, Abs(rem.body, t));
      MergeSubs(acc, Abs(rem, t)) == MergeSubs(PutSub(b, rem.name, merged), Abs(rem.rest, t))
  {
    hide NameAt, Merge, PutSub, EnsureSub;
  }

  /** One merged subnode behind the earlier ones. */
  lemma SubOne(b: bytes, d: bytes, e: bytes, off: int, c: Ctx, n: Forest, g: Forest, h: Forest, acc: Tree, next: Tree)
    requires NodeAt(b, off, c, n) && BodyIs(b, d, off, c, n, g, acc) && NodeAt(d, off, c, g)
    requires BodyIs(d, e, off, c, g, h, next)
    ensures BodyIs(b, e, off, c, n, h, next) && NodeAt(e, off, c, h)
  {
    hide Field, Struct, Strings, Holds, Pre, NodeAt, Kept, Named, Abs;
    BodyIsTrans(b, d, e, off, c, n, g, h);
    KeptIs(b, e, off, c, n, h);
  }

  /** One round of the subnode loop: find or make the subnode, then merge into it. */
  method ApplySub(fdt: array<byte>, target: int, fdto: array<byte>, subnode: int, ghost c: Ctx, ghost n: Forest,
                  ghost oname: bytes, ghost pad: bytes, ghost body: Forest)
    returns (err: int, ghost g: Forest)
    requires fdt != fdto && R.IsInt(target) && R.IsInt(subnode)
    requires NodeAt(fdt[..], target, c, n) && OvAt(fdto[..], subnode, oname, pad, body)
    modifies fdt
    ensures Kept(old(fdt[..]), fdt[..], target, c, n, g)
    ensures var a := EnsureSub(Abs(n.body, Strings(old(fdt[..]))), oname);
      err == 0 ==> BodyIs(old(fdt[..]), fdt[..], target, c, n, g,
        PutSub(a, oname, Merge(FindSubT(a, oname).value, Abs(body, Strings(fdto[..])))))
    ensures Roomed(old(fdt[..]), fdt[..], SubRoom(oname) + MergeRoom(Abs(body, Strings(fdto[..]))), err)
    decreases FSize(body), 4
  {
    hide Roomed, RoomLeft, SubRoom, MergeRoom, Field, Struct, Strings, TagAt, NodeAt, Kept, BodyIs, Abs, NameAt, Named,
         CheckNode, NodeName, RwProbe, RoProbe, Sane, Live, FindSub, SubCtx, PutSub, EnsureSub, Merge, FindSubT,
         InsertAt, EmptyNode, AddSub, OvAt, InBody, WithBody, Pre, SubFound, BodyAt, SubReady, HeadCtx, HeadTail,
         NewNode;
    ghost var b := fdt[..];
    g := n;
    KeptSelf(b, target, c, n);
    OvName(fdto[..], subnode, oname, pad, body);
    ghost var ov := Abs(body, Strings(fdto[..]));
    ghost var room := SubRoom(oname) + MergeRoom(ov);
    NodeAtSane(b, target, c, n);
    RoomStart(b, target, c, n, room);
    var name;
    err, name := R.GetName(fdto, subnode);
    InsertNonneg(b, target, c, n, name);
    var nnode;
    ghost var h;
    nnode, h := AddSubnode(fdt, target, name, c, n);
    ghost var made := if nnode < 0 && nnode != -ERR_EXISTS then nnode else 0;
    SubRoomed(b, fdt[..], target, c, n, name, nnode, made);
    if nnode == -ERR_EXISTS {
      SubThere(b, target, c, n, name);
      LiveOf(b, target, c, n);
      nnode := R.SubnodeOffset(fdt, target, name);
      h := n;
    } else if nnode < 0 {
      RoomStep(b, b, b, room, SubRoom(name), MergeRoom(ov), made);
      return nnode, g;
    } else {
      SubMade(b, fdt[..], target, c, n, h, name);
    }
    // here fdt holds the subnode
    ghost var d := fdt[..];
    SubReadyIs(b, d, target, c, n, h, name, nnode);
    KeptTotal(b, d, target, c, n, h);
    RoomStep(b, b, d, room, SubRoom(name), MergeRoom(ov), 0);
    ghost var k, m := SubNodeAt(d, target, c, h, name);
    ghost var m';
    err, m' := ApplyNode(fdt, nnode, fdto, subnode, InBody(c, h, k), m, oname, pad, body);
    KeptTotal(d, fdt[..], nnode, InBody(c, h, k), m, m');
    RoomStep(b, d, fdt[..], room, MergeRoom(ov), 0, err);
    if err == 0 { RoomLess(b, fdt[..], room, 0); }
    LiftSub(d, fdt[..], target, c, h, name, k, m, m');
    g := WithBody(h, Plug(k, m'));
    BodyIsTrans(b, d, fdt[..], target, c, n, h, g);
    if err == 0 {
      NodeAtSane(d, target, c, h);
      BodyRead(d, fdt[..], nnode, InBody(c, h, k), m, m', Merge(Abs(m.body, Strings(d)), ov));
      SubMerged(b, d, fdt[..], target, c, n, h, g, name, nnode, Abs(m'.body, Strings(fdt[..])));
    }
  }

  lemma LiveOf(b: bytes, off: int, c: Ctx, n: Forest)
    requires NodeAt(b, off, c, n)
    ensures Live(b)
  {
  }

  lemma BodyRead(b: bytes, d: bytes, off: int, c: Ctx, n: Forest, g: Forest, a: Tree)
    requires NodeAt(b, off, c, n) && BodyIs(b, d, off, c, n, g, a)
    ensures Sane(d) && Named(g.body, Strings(d)) && Abs(g.body, Strings(d)) == a
  {
    hide Field, Struct, Strings, Holds, Pre;
  }

  /** `overlay_apply_node`: on success the target subtree is the recursive merge of base and overlay; success or not,
      nothing outside the target node changes and the blob stays well formed, so the held offset stays valid. */
  method ApplyNode(fdt: array<byte>, target: int, fdto: array<byte>, node: int, ghost c: Ctx, ghost n: Forest,
                   ghost name: bytes, ghost pad: bytes, ghost body: Forest)
    returns (err: int, ghost g: Forest)
    requires fdt != fdto && R.IsInt(target) && R.IsInt(node)
    requires NodeAt(fdt[..], target, c, n) && OvAt(fdto[..], node, name, pad, body)
    modifies fdt
    ensures Kept(old(fdt[..]), fdt[..], target, c, n, g)
    ensures err == 0 ==> BodyIs(old(fdt[..]), fdt[..], target, c, n, g,
      Merge(Abs(n.body, Strings(old(fdt[..]))), Abs(body, Strings(fdto[..]))))
    ensures Roomed(old(fdt[..]), fdt[..], MergeRoom(Abs(body, Strings(fdto[..]))), err)
    decreases FSize(body), 3
  {
    hide Roomed, RoomLeft, SubRoom, PropsRoom, SubsRoom, Field, Struct, Strings, TagAt, NodeAt, Kept, BodyIs, Inside,
         Abs, NameAt, Named, CheckNode, EncTok, WfTok, Sane, EnsureSub, PutSub, Merge, FindSubT, OvAt, FSize,
         FirstSubnode, NextSub, Pre, BodyAt, MergeSubs, MergeProps, NodeFrom, NodeHead;
    ghost var b := fdt[..];
    OvBody(fdto[..], node, name, pad, body);
    ghost var room := MergeRoom(Abs(body, Strings(fdto[..])));
    RoomStart(b, target, c, n, room);
    RoomIs(Abs(body, Strings(fdto[..])));
    ghost var rest := SubsRoom(Abs(body, Strings(fdto[..])));
    err, g := ApplyProps(fdt, target, fdto, node, c, n, name, pad, body);
    KeptTotal(b, fdt[..], target, c, n, g);
    RoomStep(b, b, fdt[..], room, PropsRoom(Abs(body, Strings(fdto[..]))), rest, err);
    if err != 0 {
      return;
    }
    ghost var s, t := Struct(fdto[..]), Strings(fdto[..]);
    NodeAtWf(b, target, c, n);
    ghost var acc := MergeProps(Abs(n.body, Strings(b)), Abs(body, t));
    ghost var goal := Merge(Abs(n.body, Strings(b)), Abs(body, t));
    MergeIs(Abs(n.body, Strings(b)), Abs(body, t));
    BodyKept(b, fdt[..], target, c, n, g, acc);
    ghost var rem := OvFirst(fdto[..], node, name, pad, body, acc);
    RoomAtLeast(b, fdt[..], room, rest);
    var subnode := R.FirstSubnode(fdto, node);
    while subnode >= 0
      invariant R.IsInt(subnode)
      invariant BodyIs(b, fdt[..], target, c, n, g, acc) && NodeAt(fdt[..], target, c, g)
      invariant subnode >= 0 ==> OvRest(fdto[..], subnode, rem, FSize(body))
      invariant if subnode >= 0 then Named(rem, t) && MergeSubs(acc, Abs(rem, t)) == goal else acc == goal
      invariant RoomLeft(b, fdt[..], room, if subnode >= 0 then SubsRoom(Abs(rem, t)) else 0)
      decreases if subnode < 0 then 0 else 1 + FSize(rem)
    {
      ghost var d := fdt[..];
      BodyKept(b, d, target, c, n, g, acc);
      BodyRead(b, d, target, c, n, g, acc);
      OvRestIs(fdto[..], subnode, rem, FSize(body));
      ghost var h;
      err, h := ApplySub(fdt, target, fdto, subnode, c, g, rem.name, rem.pad, rem.body);
      KeptTotal(d, fdt[..], target, c, g, h);
      SubsRoomIs(rem, t);
      RoomStep(b, d, fdt[..], room, SubRoom(rem.name) + MergeRoom(Abs(rem.body, t)), SubsRoom(Abs(rem.rest, t)), err);
      if err != 0 {
        BodyIsTrans(b, d, fdt[..], target, c, n, g, h);
        g := h;
        return;
      }
      ghost var next := PutSub(EnsureSub(acc, rem.name), rem.name, Merge(FindSubT(EnsureSub(acc, rem.name),
        rem.name).value, Abs(rem.body, t)));
      SubOne(b, d, fdt[..], target, c, n, g, h, acc, next);
      MergeSubsStep(acc, rem, t);
      g, acc := h, next;
      ghost var rem' := OvNext(fdto[..], subnode, rem, acc, FSize(body));
      RoomAtLeast(b, fdt[..], room, SubsRoom(Abs(rem.rest, t)));
      subnode := R.NextSubnode(fdto, subnode);
      rem := rem';
    }
    BodyKept(b, fdt[..], target, c, n, g, acc);
    RoomLess(b, fdt[..], room, 0);
    err := 0;
  }
}
