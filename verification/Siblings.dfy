/** Walking over the subnodes of a node while they are being stored into. */
module Siblings {
  import opened Bytes
  import opened Format
  import opened Tree
  import opened Blob
  import opened Walk
  import opened TreeOps
  import opened Editor
  import opened Merging
  import opened Inplace

  /** A position in a list of siblings, not inside one of them. */
  predicate Flat(k: Ctx)
  {
    match k
    case Hole => true
    case CItem(_, inner) => Flat(inner)
    case CBody(_, _, _, _) => false
    case CRest(_, _, _, inner) => Flat(inner)
  }

  lemma {:induction false} InsideFlat(s: bytes, off: int, k: Ctx, f: Forest)
    requires Inside(s, off, Plug(k, f)) && Flat(k)
    ensures WfCtx(k) && Wf(f) && Inside(s, off + |Pre(k)|, f)
    decreases k
  {
    hide EncTok, TagAt, Aligned, At, Word, Inside;
    InsideWf(s, off, Plug(k, f));
    WfPlug(k, f);
    match k
    case Hole =>
    case CItem(tok, inner) =>
      InsideItem(s, off, tok, Plug(inner, f));
      InsideFlat(s, off + |EncTok(tok)|, inner, f);
    case CRest(name, pad, body, inner) =>
      InsideNode(s, off, name, pad, body, Plug(inner, f));
      EndLen();
      InsideFlat(s, BodyAt(off, name, pad) + |Enc(body)| + 4, inner, f);
  }

  lemma InsideWf(s: bytes, off: int, f: Forest)
    requires Inside(s, off, f)
    ensures Wf(f)
  {
  }

  lemma {:induction false} NodeHeadFlat(f: Forest)
    requires NodeHead(f).Some? && Wf(f)
    ensures var h := NodeHead(f).value; Flat(h) && WfCtx(h) && NodeFrom(f).Node? && Plug(h, NodeFrom(f)) == f
    ensures Wf(NodeFrom(f)) && FSize(NodeFrom(f)) <= FSize(f)
  {
    match f
    case Item(_, rest) => NodeHeadFlat(rest);
    case Node(_, _, _, _) =>
  }

  lemma {:induction false} CompFlat(k: Ctx, h: Ctx)
    requires Flat(k) && Flat(h)
    ensures Flat(Comp(k, h))
  {
    match k
    case Hole =>
    case CItem(_, inner) => CompFlat(inner, h);
    case CRest(_, _, _, inner) => CompFlat(inner, h);
  }

  /** The subnode `rem` of the node `g` stands at `child`, behind the siblings of `k`. */
  ghost predicate ChildAt(b: bytes, node: int, c: Ctx, g: Forest, k: Ctx, child: int, rem: Forest)
  {
    && NodeAt(b, node, c, g) && rem.Node? && Flat(k) && WfCtx(k) && g.body == Plug(k, rem)
    && child == BodyAt(node, g.name, g.pad) + |Pre(k)|
  }

  /** Then it is a node of the blob. */
  lemma ChildNode(b: bytes, node: int, c: Ctx, g: Forest, k: Ctx, child: int, rem: Forest)
    requires ChildAt(b, node, c, g, k, child, rem)
    ensures WfTok(Begin(g.name, g.pad)) && WfCtx(InBody(c, g, k)) && NodeAt(b, child, InBody(c, g, k), rem)
    ensures NamedC(k, Strings(b)) && Named(rem, Strings(b)) && Named(g.body, Strings(b)) && Named(rem.body, Strings(b))
    ensures Named(rem.rest, Strings(b))
    ensures Abs(g.body, Strings(b)) == PlugT(AbsC(k, Strings(b)), Abs(rem, Strings(b)))
    ensures Inside(Struct(b), child, rem) && 0 <= child < |Struct(b)| < TWO31 && FSize(rem) <= FSize(g.body)
  {
    hide Field, Struct, Strings, NameAt, EncTok, Aligned, Pre, Post, TagAt, At, Holds, Inside;
    NodeAtHole(Struct(b), c, g.name, g.pad, g.body, g.rest);
    InBodyIs(c, g, k, rem);
    AbsPlug(k, rem, Strings(b));
    WfPlug(k, rem);
    BodyInside(Struct(b), node, g);
    InsideFlat(Struct(b), BodyAt(node, g.name, g.pad), k, rem);
    InsideNode(Struct(b), child, rem.name, rem.pad, rem.body, rem.rest);
    PlugSize(k, rem);
  }

  lemma BodyInside(s: bytes, node: int, g: Forest)
    requires g.Node? && NodeIn(s, node, g.name, g.pad, g.body)
    ensures Inside(s, BodyAt(node, g.name, g.pad), g.body)
  {
  }

  lemma {:induction false} PlugSize(k: Ctx, f: Forest)
    ensures FSize(f) <= FSize(Plug(k, f))
  {
    match k
    case Hole =>
    case CItem(_, inner) => PlugSize(inner, f);
    case CBody(_, _, inner, _) => PlugSize(inner, f);
    case CRest(_, _, _, inner) => PlugSize(inner, f);
  }

  /** `fdt_first_subnode` finds the first child. */
  lemma FirstChild(b: bytes, node: int, c: Ctx, g: Forest) returns (k: Ctx, rem: Forest)
    requires NodeAt(b, node, c, g)
    ensures var r := FirstSubnode(Struct(b), node);
      if r >= 0 then NodeHead(g.body) == Some(k) && ChildAt(b, node, c, g, k, r, rem) && rem == NodeFrom(g.body)
      else NodeHead(g.body).None?
  {
    hide Field, Struct, Strings, NameAt, EncTok, Aligned, Pre, Post, TagAt, At, Holds, Inside;
    NodeAtHole(Struct(b), c, g.name, g.pad, g.body, g.rest);
    FirstSubnodeIs(Struct(b), node, g.name, g.pad, g.body);
    NodeInIs(Struct(b), node, g.name, g.pad, g.body);
    k, rem := Hole, Nil;
    if NodeHead(g.body).Some? {
      NodeHeadFlat(g.body);
      k, rem := NodeHead(g.body).value, NodeFrom(g.body);
    }
  }

  /** `fdt_next_subnode` finds the next child. */
  lemma NextChild(b: bytes, node: int, c: Ctx, g: Forest, k: Ctx, child: int, rem: Forest)
    returns (k': Ctx, rem': Forest)
    requires ChildAt(b, node, c, g, k, child, rem)
    ensures rem.Node?
    ensures var r := NextSub(Struct(b), child, 1);
      if r >= 0 then
        && NodeHead(rem.rest).Some? && k' == Comp(k, CRest(rem.name, rem.pad, rem.body, NodeHead(rem.rest).value))
        && rem' == NodeFrom(rem.rest) && ChildAt(b, node, c, g, k', r, rem') && FSize(rem') < FSize(rem)
      else NodeHead(rem.rest).None?
  {
    hide Field, Struct, Strings, NameAt, EncTok, Aligned, Post, TagAt, At, Holds, Inside, NextSub;
    ChildNode(b, node, c, g, k, child, rem);
    InsideNode(Struct(b), child, rem.name, rem.pad, rem.body, rem.rest);
    NextSubnodeIs(Struct(b), child, rem.name, rem.pad, rem.body, rem.rest);
    k', rem' := Hole, Nil;
    if NodeHead(rem.rest).Some? {
      InsideWf(Struct(b), child, rem);
      NodeHeadFlat(rem.rest);
      var h := NodeHead(rem.rest).value;
      rem' := NodeFrom(rem.rest);
      var step := CRest(rem.name, rem.pad, rem.body, h);
      k' := Comp(k, step);
      CompFlat(k, step);
      CompPlug(k, step, rem');
      CompPre(k, step);
      EndLen();
    }
  }

  /** Storing into a child is storing into its parent. */
  lemma LiftStored(b: bytes, d: bytes, node: int, c: Ctx, g: Forest, k: Ctx, child: int, rem: Forest, m: Forest,
                   a: Tree)
    requires ChildAt(b, node, c, g, k, child, rem) && NodeAt(b, child, InBody(c, g, k), rem) && NamedC(k, Strings(b))
    requires Stored(b, d, child, InBody(c, g, k), rem, m, a) && Named(rem.rest, Strings(b))
    ensures var h := WithBody(g, Plug(k, m));
      Stored(b, d, node, c, g, h, PlugT(AbsC(k, Strings(b)), Sub(rem.name, a, Abs(rem.rest, Strings(b)))))
      && ChildAt(d, node, c, h, k, child, m) && m.rest == rem.rest && m.name == rem.name && m.pad == rem.pad
      && FSize(m) == FSize(rem)
  {
    hide Field, Struct, Strings, NameAt, EncTok, Aligned, Pre, Post, TagAt, At, Holds, BodyIs, NodeAt, Abs, Named,
         InBody, Enc, FSize;
    NodeAtWf(b, node, c, g);
    LiftedBody(b, d, node, c, g, k, child, rem, m, a);
    LiftedSizes(b, d, node, c, g, k, child, rem, m, a);
    var h := WithBody(g, Plug(k, m));
    StoredNode(b, d, node, c, g, h, PlugT(AbsC(k, Strings(b)), Sub(rem.name, a, Abs(rem.rest, Strings(b)))));
  }

  lemma LiftedBody(b: bytes, d: bytes, node: int, c: Ctx, g: Forest, k: Ctx, child: int, rem: Forest, m: Forest,
                   a: Tree)
    requires ChildAt(b, node, c, g, k, child, rem) && NodeAt(b, child, InBody(c, g, k), rem) && NamedC(k, Strings(b))
    requires Stored(b, d, child, InBody(c, g, k), rem, m, a) && Named(rem.rest, Strings(b))
    ensures var h := WithBody(g, Plug(k, m));
      BodyIs(b, d, node, c, g, h, PlugT(AbsC(k, Strings(b)), Sub(rem.name, a, Abs(rem.rest, Strings(b)))))
  {
    hide Field, Struct, Strings, NameAt, EncTok, Aligned, Pre, Post, TagAt, At, Holds, Enc, FSize;
    var t := Strings(b);
    var h := WithBody(g, Plug(k, m));
    WfPlug(c, g);
    InBodyIs(c, g, k, m);
    AbsPlug(k, m, t);
    AbsPlug(c, g, t);
    AbsPlug(c, h, t);
    WfPlug(k, m);
  }

  lemma LiftedSizes(b: bytes, d: bytes, node: int, c: Ctx, g: Forest, k: Ctx, child: int, rem: Forest, m: Forest,
                    a: Tree)
    requires ChildAt(b, node, c, g, k, child, rem) && NodeAt(b, child, InBody(c, g, k), rem) && NamedC(k, Strings(b))
    requires Stored(b, d, child, InBody(c, g, k), rem, m, a) && Named(rem.rest, Strings(b))
    ensures m.Node? && m.rest == rem.rest && m.name == rem.name && m.pad == rem.pad && FSize(m) == FSize(rem)
    ensures Strings(d) == Strings(b) && Wf(Plug(k, m)) && g.Node? && Wf(g.body)
    ensures SameShape(g.body, Plug(k, m))
  {
    hide Field, Struct, Strings, NameAt, EncTok, Aligned, Pre, Post, TagAt, At, Holds, Abs, Named, AbsC, NamedC;
    WfPlug(k, rem);
    WfPlug(k, m);
    ShapeSelf(rem.rest);
    ShapePlug(k, rem, m);
    ShapeSizes(rem.body, m.body);
  }

  lemma StoredTrans(b: bytes, d: bytes, e: bytes, off: int, c: Ctx, n: Forest, g: Forest, h: Forest, a: Tree, a': Tree)
    requires NodeAt(b, off, c, n) && Stored(b, d, off, c, n, g, a) && NodeAt(d, off, c, g)
    requires Stored(d, e, off, c, g, h, a')
    ensures Stored(b, e, off, c, n, h, a') && NodeAt(e, off, c, h)
  {
    hide Field, Struct, Strings, Holds, Pre, Abs, Named, Enc, SameShape;
    ShapeTrans(n.body, g.body, h.body);
  }

  lemma StoredSelf(b: bytes, off: int, c: Ctx, n: Forest)
    requires NodeAt(b, off, c, n)
    ensures Named(n.body, Strings(b)) && Stored(b, b, off, c, n, n, Abs(n.body, Strings(b)))
  {
    hide Field, Struct, Strings, Holds, Pre, Enc;
    ShapeSelf(n.body);
  }

  lemma StoredNode(b: bytes, d: bytes, off: int, c: Ctx, n: Forest, g: Forest, a: Tree)
    requires NodeAt(b, off, c, n) && Stored(b, d, off, c, n, g, a)
    ensures NodeAt(d, off, c, g) && g.Node? && g.name == n.name && g.pad == n.pad && FSize(g.body) == FSize(n.body)
    ensures Sane(d) && Strings(d) == Strings(b) && Named(g.body, Strings(d)) && Abs(g.body, Strings(d)) == a
  {
    hide Field, Struct, Strings, Holds, Pre, Abs, Named, Enc, SameShape;
    ShapeSizes(n.body, g.body);
  }
}
