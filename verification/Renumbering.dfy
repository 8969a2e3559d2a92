/** Renumbering the phandles of an overlay blob (`fdt_overlay.c`), in place. */
module Renumbering {
  import opened Bytes
  import opened Format
  import opened Tree
  import opened Blob
  import opened Walk
  import opened TreeOps
  import opened Splicing
  import opened Editor
  import opened Merging
  import opened Inplace
  import opened Siblings
  import opened PhandleLaws
  import R = Reader

  // ---------------------------------------------------------------- one property

  /** The result code of shifting property `name` of a node with body `a`. */
  function ShiftError(a: Tree, name: bytes, delta: int): (err: int)
  {
    match GetAttr(a, name)
    case None => -ERR_NOTFOUND
    case Some(v) => if |v| != 4 then -ERR_BADPHANDLE else if Unword(v) + delta >= NO_PHANDLE then -ERR_NOPHANDLES else 0
  }

  /** `overlay_phandle_add_offset`. */
  method PhandleAddOffset(fdt: array<byte>, node: int, name: bytes, delta: nat, ghost c: Ctx, ghost n: Forest)
    returns (err: int, ghost g: Forest)
    requires NodeAt(fdt[..], node, c, n) && R.IsInt(node) && delta < TWO32
    modifies fdt
    ensures Named(n.body, Strings(old(fdt[..])))
    ensures var b := old(fdt[..]); var a := Abs(n.body, Strings(b));
      && err == ShiftError(a, name, delta)
      && (err != 0 ==> fdt[..] == b && g == n)
      && (err == 0 ==> CanShift(a, name, delta) && Stored(b, fdt[..], node, c, n, g, ShiftAttr(a, name, delta)))
  {
    hide Field, Struct, Strings, NameAt, Pre, Holds, GetProperty, Stored, NodeAt, Put, Abs, Named, Word, Unword,
         ReplaceAttr, PropLen;
    ghost var b := fdt[..];
    g := n;
    NodeAtWf(b, node, c, n);
    PropRead(b, node, c, n, name);
    var valp := R.GetProperty(fdt, node, name);
    if valp < 0 {
      return valp, g;
    }
    var len := R.StructWord(fdt, valp + 4);
    LenWord(Struct(b), valp);
    if len != 4 {
      return -ERR_BADPHANDLE, g;
    }
    var val := R.StructWord(fdt, valp + 12);
    if (val + delta) % TWO32 < val || (val + delta) % TWO32 == NO_PHANDLE {
      return -ERR_NOPHANDLES, g;
    }
    WholeValue(GetAttr(Abs(n.body, Strings(b)), name).value, Word(val + delta));
    g := StoreValue(fdt, valp, 0, Word((val + delta) % TWO32), node, c, n, name);
    err := 0;
  }

  // ---------------------------------------------------------------- a whole node

  /** Both phandle properties of one node, as `overlay_adjust_node_phandles` shifts them before it descends. */
  method AdjustOwn(fdto: array<byte>, node: int, delta: nat, ghost c: Ctx, ghost n: Forest)
    returns (err: int, ghost g: Forest)
    requires NodeAt(fdto[..], node, c, n) && R.IsInt(node) && delta < TWO32
    modifies fdto
    ensures g.Node? && Named(n.body, Strings(old(fdto[..]))) && Named(g.body, Strings(old(fdto[..])))
    ensures var b := old(fdto[..]); var t := Strings(b);
      && Stored(b, fdto[..], node, c, n, g, Abs(g.body, t)) && NodeAt(fdto[..], node, c, g)
      && (err == 0 <==> CanShiftOwn(Abs(n.body, t), delta)) && err <= 0
      && (err == 0 ==> Abs(g.body, t) == ShiftOwn(Abs(n.body, t), delta))
  {
    hide Field, Struct, Strings, NameAt, Holds, Stored, NodeAt, Abs, Named, Word, Unword, ShiftAttr, CanShift,
         ShiftError;
    ghost var b := fdto[..];
    NodeAtWf(b, node, c, n);
    ghost var t := Strings(b);
    StoredSelf(b, node, c, n);
    ghost var a := Abs(n.body, t);
    err, g := PhandleAddOffset(fdto, node, PHANDLE, delta, c, n);
    ErrorIs(a, PHANDLE, delta);
    if err == 0 {
      StoredNode(b, fdto[..], node, c, n, g, ShiftAttr(a, PHANDLE, delta));
    } else if err != -ERR_NOTFOUND {
      return;
    }
    ghost var d, a1 := fdto[..], Abs(g.body, t);
    ghost var h;
    err, h := PhandleAddOffset(fdto, node, LINUX_PHANDLE, delta, c, g);
    ErrorIs(a1, LINUX_PHANDLE, delta);
    SecondIs(a, delta);
    if err == 0 {
      StoredTrans(b, d, fdto[..], node, c, n, g, h, a1, ShiftAttr(a1, LINUX_PHANDLE, delta));
      StoredNode(b, fdto[..], node, c, n, h, ShiftAttr(a1, LINUX_PHANDLE, delta));
      g := h;
    } else if err == -ERR_NOTFOUND {
      err := 0;
    }
  }

  lemma ErrorIs(a: Tree, name: bytes, delta: nat)
    ensures ShiftError(a, name, delta) <= 0
    ensures CanShift(a, name, delta) <==> ShiftError(a, name, delta) == 0 || ShiftError(a, name, delta) == -ERR_NOTFOUND
    ensures ShiftError(a, name, delta) == -ERR_NOTFOUND ==> CanShift(a, name, delta) && ShiftAttr(a, name, delta) == a
  {
    hide Word, Unword;
  }

  /** Whether the second property can be shifted does not depend on the first. */
  lemma SecondIs(a: Tree, delta: nat)
    ensures CanShift(a, PHANDLE, delta) ==>
      (CanShift(ShiftAttr(a, PHANDLE, delta), LINUX_PHANDLE, delta) <==> CanShift(a, LINUX_PHANDLE, delta))
  {
    hide Word, Unword;
    if CanShift(a, PHANDLE, delta) {
      ShiftAttrKeeps(a, PHANDLE, delta, LINUX_PHANDLE);
    }
  }

  // ---------------------------------------------------------------- the walk over the subnodes

  /** The tags before the first subnode do not take part in a shift. */
  lemma {:induction false} HeadShift(f: Forest, t: bytes, delta: nat)
    requires Named(f, t)
    ensures match NodeHead(f)
      case None => Shiftable(Abs(f, t), delta) && ShiftSubs(Abs(f, t), delta) == Abs(f, t)
      case Some(h) =>
        && NamedC(h, t) && Named(NodeFrom(f), t)
        && (Shiftable(Abs(f, t), delta) <==> Shiftable(Abs(NodeFrom(f), t), delta))
        && (Shiftable(Abs(f, t), delta) ==>
          ShiftSubs(Abs(f, t), delta) == PlugT(AbsC(h, t), ShiftSubs(Abs(NodeFrom(f), t), delta)))
  {
    hide NameAt, CanShiftOwn, ShiftOwn;
    match f
    case Nil =>
    case Item(_, rest) => HeadShift(rest, t, delta);
    case Node(_, _, _, _) =>
  }

  /** How far the walk has come: the subnodes of `k` are shifted, those of `rem` are not. */
  ghost predicate Halfway(a: Tree, t: bytes, delta: nat, k: Ctx, rem: Forest)
  {
    && NamedC(k, t) && Named(rem, t)
    && (Shiftable(a, delta) <==> Shiftable(Abs(rem, t), delta))
    && (Shiftable(a, delta) ==> ShiftSubs(a, delta) == PlugT(AbsC(k, t), ShiftSubs(Abs(rem, t), delta)))
  }

  /** One subnode further. */
  lemma HalfwayStep(a: Tree, t: bytes, delta: nat, k: Ctx, rem: Forest, m: Forest)
    requires Halfway(a, t, delta, k, rem) && rem.Node? && m.Node? && m.name == rem.name && m.rest == rem.rest
    requires Named(m.body, t) && Named(rem.body, t) && ShiftableNode(Abs(rem.body, t), delta)
    requires Abs(m.body, t) == ShiftNode(Abs(rem.body, t), delta)
    ensures NodeHead(m.rest).None? ==> Shiftable(a, delta) && ShiftSubs(a, delta) == PlugT(AbsC(k, t), Abs(m, t))
    ensures NodeHead(m.rest).Some? ==>
      Halfway(a, t, delta, Comp(k, CRest(m.name, m.pad, m.body, NodeHead(m.rest).value)), NodeFrom(m.rest))
  {
    hide NameAt, CanShiftOwn, ShiftOwn;
    HeadShift(m.rest, t, delta);
    if NodeHead(m.rest).Some? {
      var step := CRest(m.name, m.pad, m.body, NodeHead(m.rest).value);
      var x := NodeFrom(m.rest);
      AbsComp(k, step, t, Abs(x, t));
      if Shiftable(a, delta) {
        AbsComp(k, step, t, ShiftSubs(Abs(x, t), delta));
      }
    }
  }

  lemma HalfwayStuck(a: Tree, t: bytes, delta: nat, k: Ctx, rem: Forest)
    requires Halfway(a, t, delta, k, rem) && rem.Node? && Named(rem.body, t)
    ensures !ShiftableNode(Abs(rem.body, t), delta) ==> !Shiftable(a, delta)
  {
    hide NameAt, CanShiftOwn, ShiftOwn;
  }

  /** The state of the walk at `child`; a negative `child` is the end. */
  ghost predicate Walking(b: bytes, d: bytes, node: int, c: Ctx, n: Forest, g: Forest, a: Tree, delta: nat, k: Ctx,
                          child: int, rem: Forest)
  {
    && NodeAt(b, node, c, n) && g.Node? && Named(g.body, Strings(b))
    && Stored(b, d, node, c, n, g, Abs(g.body, Strings(b))) && NodeAt(d, node, c, g)
    && (if child >= 0 then
          ChildAt(d, node, c, g, k, child, rem) && Halfway(a, Strings(b), delta, k, rem) && FSize(rem) <= FSize(n.body)
        else Shiftable(a, delta) && Abs(g.body, Strings(b)) == ShiftSubs(a, delta))
  }

  lemma WalkFirst(b: bytes, d: bytes, node: int, c: Ctx, n: Forest, g: Forest, delta: nat) returns (k: Ctx, rem: Forest)
    requires NodeAt(b, node, c, n) && g.Node? && Named(g.body, Strings(b))
    requires Stored(b, d, node, c, n, g, Abs(g.body, Strings(b))) && NodeAt(d, node, c, g)
    ensures Editable(d)
    ensures Walking(b, d, node, c, n, g, Abs(g.body, Strings(b)), delta, k, FirstSubnode(Struct(d), node), rem)
  {
    hide Field, Struct, Strings, NameAt, Pre, Holds, NodeAt, BodyIs, FirstSubnode, ChildAt, Enc;
    k, rem := FirstChild(d, node, c, g);
    NodeAtWf(b, node, c, n);
    StoredNode(b, d, node, c, n, g, Abs(g.body, Strings(b)));
    NodeAtWf(d, node, c, g);
    HeadShift(g.body, Strings(b), delta);
    if NodeHead(g.body).Some? {
      NodeHeadFlat(g.body);
    }
  }

  lemma WalkChild(b: bytes, d: bytes, node: int, c: Ctx, n: Forest, g: Forest, a: Tree, delta: nat, k: Ctx, child: int,
                  rem: Forest)
    requires Walking(b, d, node, c, n, g, a, delta, k, child, rem) && child >= 0
    ensures g.Node? && NodeAt(d, child, InBody(c, g, k), rem) && R.IsInt(child) && rem.Node? && FSize(rem) < FSize(n)
    ensures Sane(d) && Strings(d) == Strings(b) && Named(rem.body, Strings(d))
    ensures ChildAt(d, node, c, g, k, child, rem) && Halfway(a, Strings(b), delta, k, rem)
  {
    hide Field, Struct, Strings, NameAt, Pre, Holds, NodeAt, BodyIs, ChildAt, Enc, InBody, Abs, Named, Halfway;
    ChildNode(d, node, c, g, k, child, rem);
    NodeAtWf(b, node, c, n);
    NodeAtWf(d, node, c, g);
    NodeAtWf(d, child, InBody(c, g, k), rem);
  }

  /** What one round of the walk does when the child `m` has come back. */
  lemma WalkNext(b: bytes, d: bytes, e: bytes, node: int, c: Ctx, n: Forest, g: Forest, a: Tree, delta: nat, k: Ctx,
                 child: int, rem: Forest, m: Forest)
    returns (h: Forest, k': Ctx, rem': Forest)
    requires Walking(b, d, node, c, n, g, a, delta, k, child, rem) && child >= 0 && m.Node?
    requires NodeAt(d, child, InBody(c, g, k), rem) && Named(m.body, Strings(d)) && rem.Node?
    requires Named(rem.body, Strings(d))
    requires Stored(d, e, child, InBody(c, g, k), rem, m, Abs(m.body, Strings(d)))
    ensures h.Node? && Named(h.body, Strings(b)) && NodeAt(b, node, c, n)
    ensures Stored(b, e, node, c, n, h, Abs(h.body, Strings(b))) && NodeAt(e, node, c, h)
    ensures Editable(e)
    ensures var x := Abs(rem.body, Strings(d));
      ShiftableNode(x, delta) && Abs(m.body, Strings(d)) == ShiftNode(x, delta) ==>
      Walking(b, e, node, c, n, h, a, delta, k', NextSub(Struct(e), child, 1), rem')
      && (NextSub(Struct(e), child, 1) >= 0 ==> FSize(rem') < FSize(rem))
  {
    hide Field, Struct, Strings, NameAt, Pre, Holds, NodeAt, BodyIs, Enc, InBody, ChildAt, Halfway, NextSub,
         ShiftableNode, ShiftNode;
    NodeAtWf(b, node, c, n);
    var t := Strings(b);
    ChildNode(d, node, c, g, k, child, rem);
    LiftStored(d, e, node, c, g, k, child, rem, m, Abs(m.body, t));
    h := WithBody(g, Plug(k, m));
    var x := PlugT(AbsC(k, t), Sub(rem.name, Abs(m.body, t), Abs(rem.rest, t)));
    StoredTrans(b, d, e, node, c, n, g, h, Abs(g.body, t), x);
    StoredNode(b, e, node, c, n, h, x);
    NodeAtWf(e, node, c, h);
    k', rem' := NextChild(e, node, c, h, k, child, m);
    if ShiftableNode(Abs(rem.body, t), delta) && Abs(m.body, t) == ShiftNode(Abs(rem.body, t), delta) {
      HalfwayStep(a, t, delta, k, rem, m);
      AbsPlug(k, m, t);
    }
  }

  /** `overlay_adjust_node_phandles`: the phandles of the node and of every node below it move by `delta`; it goes
      through exactly when each of them is a cell that stays below the reserved value.  No byte outside the values
      changes, so every offset stays valid. */
  method AdjustNode(fdto: array<byte>, node: int, delta: nat, ghost c: Ctx, ghost n: Forest)
    returns (err: int, ghost g: Forest)
    requires NodeAt(fdto[..], node, c, n) && R.IsInt(node) && delta < TWO32
    modifies fdto
    ensures g.Node? && Named(n.body, Strings(old(fdto[..]))) && Named(g.body, Strings(old(fdto[..])))
    ensures var b := old(fdto[..]); var t := Strings(b);
      && Stored(b, fdto[..], node, c, n, g, Abs(g.body, t)) && NodeAt(fdto[..], node, c, g)
      && (err == 0 <==> ShiftableNode(Abs(n.body, t), delta)) && err <= 0
      && (err == 0 ==> Abs(g.body, t) == ShiftNode(Abs(n.body, t), delta))
    decreases FSize(n)
  {
    hide Field, Struct, Strings, NameAt, Holds, Stored, NodeAt, Abs, Named, CanShiftOwn, ShiftOwn, Walking, Shiftable,
         ShiftSubs, ChildAt, Halfway, FirstSubnode, NextSub, InBody, Comp, Pre, FSize;
    ghost var b := fdto[..];
    NodeAtWf(b, node, c, n);
    ghost var t := Strings(b);
    err, g := AdjustOwn(fdto, node, delta, c, n);
    if err != 0 {
      return;
    }
    ghost var a := Abs(g.body, t);
    OwnFirst(Abs(n.body, t), delta);
    ghost var k, rem := WalkFirst(b, fdto[..], node, c, n, g, delta);
    var child := R.FirstSubnode(fdto, node);
    while child >= 0
      invariant R.IsInt(child) && Walking(b, fdto[..], node, c, n, g, a, delta, k, child, rem)
      decreases if child < 0 then 0 else 1 + FSize(rem)
    {
      ghost var d := fdto[..];
      WalkChild(b, d, node, c, n, g, a, delta, k, child, rem);
      ghost var m;
      err, m := AdjustNode(fdto, child, delta, InBody(c, g, k), rem);
      ghost var h, k', rem' := WalkNext(b, d, fdto[..], node, c, n, g, a, delta, k, child, rem, m);
      if err != 0 {
        HalfwayStuck(a, t, delta, k, rem);
        g := h;
        return;
      }
      g, k, rem := h, k', rem';
      child := R.NextSubnode(fdto, child);
    }
    WalkedAll(b, fdto[..], node, c, n, g, a, delta, k, child, rem);
  }

  lemma WalkedAll(b: bytes, d: bytes, node: int, c: Ctx, n: Forest, g: Forest, a: Tree, delta: nat, k: Ctx, child: int,
                  rem: Forest)
    requires Walking(b, d, node, c, n, g, a, delta, k, child, rem) && child < 0
    ensures NodeAt(b, node, c, n) && g.Node? && Sane(b) && Named(g.body, Strings(b))
    ensures Stored(b, d, node, c, n, g, Abs(g.body, Strings(b))) && NodeAt(d, node, c, g)
    ensures Shiftable(a, delta) && Abs(g.body, Strings(b)) == ShiftSubs(a, delta)
  {
    hide Field, Struct, Strings, NameAt, Pre, Holds, Stored, Abs, Named, Shiftable, ShiftSubs;
  }
}
