/** Edits of the tree a client sees, their laws, and how they arise from edits of the concrete forest. */
module TreeOps {
  import opened Bytes
  import opened Format
  import opened Tree
  import opened Walk

  // ---------------------------------------------------------------- properties of one node

  /** The value of property `name` of a node with body `a`: only properties before the first subnode count. */
  function GetAttr(a: Tree, name: bytes): (r: Option<bytes>)
  {
    match a
    case Attr(n, v, rest) => if n == name then Some(v) else GetAttr(rest, name)
    case _ => None
  }

  function ReplaceAttr(a: Tree, name: bytes, val: bytes): (r: Tree)
  {
    match a
    case Attr(n, v, rest) => if n == name then Attr(n, val, rest) else Attr(n, v, ReplaceAttr(rest, name, val))
    case _ => a
  }

  /** Setting a property overwrites it in place, or puts a new one in front. */
  function SetAttr(a: Tree, name: bytes, val: bytes): (r: Tree)
  {
    if GetAttr(a, name).Some? then ReplaceAttr(a, name, val) else Attr(name, val, a)
  }

  function AppendAttr(a: Tree, name: bytes, val: bytes): (r: Tree)
  {
    match GetAttr(a, name)
    case Some(v) => ReplaceAttr(a, name, v + val)
    case None => Attr(name, val, a)
  }

  function DelAttr(a: Tree, name: bytes): (r: Tree)
  {
    match a
    case Attr(n, v, rest) => if n == name then rest else Attr(n, v, DelAttr(rest, name))
    case _ => a
  }

  /** A new empty subnode goes behind the properties and before the other subnodes. */
  function AddSub(a: Tree, name: bytes): (r: Tree)
  {
    match a
    case Attr(n, v, rest) => Attr(n, v, AddSub(rest, name))
    case _ => Sub(name, Done, a)
  }

  /** The subnodes of a body, in order. */
  function Subs(a: Tree): (r: seq<(bytes, Tree)>)
  {
    match a
    case Done => []
    case Attr(_, _, rest) => Subs(rest)
    case Sub(n, body, rest) => [(n, body)] + Subs(rest)
  }

  lemma {:induction false} ReplaceGet(a: Tree, name: bytes, val: bytes, other: bytes)
    requires GetAttr(a, name).Some?
    ensures GetAttr(ReplaceAttr(a, name, val), other) == if other == name then Some(val) else GetAttr(a, other)
    ensures Subs(ReplaceAttr(a, name, val)) == Subs(a)
  {
    if a.name != name { ReplaceGet(a.rest, name, val, other); }
  }

  /** After a set, the property reads back as written, every other property and every subnode as before. */
  lemma SetGet(a: Tree, name: bytes, val: bytes, other: bytes)
    ensures GetAttr(SetAttr(a, name, val), other) == if other == name then Some(val) else GetAttr(a, other)
    ensures Subs(SetAttr(a, name, val)) == Subs(a)
  {
    if GetAttr(a, name).Some? { ReplaceGet(a, name, val, other); }
  }

  lemma {:induction false} DelGet(a: Tree, name: bytes, other: bytes)
    ensures other != name ==> GetAttr(DelAttr(a, name), other) == GetAttr(a, other)
    ensures Subs(DelAttr(a, name)) == Subs(a)
  {
    if a.Attr? && a.name != name { DelGet(a.rest, name, other); }
  }

  lemma {:induction false} AddSubGet(a: Tree, name: bytes, other: bytes)
    ensures GetAttr(AddSub(a, name), other) == GetAttr(a, other)
    ensures Subs(AddSub(a, name)) == [(name, Done)] + Subs(a)
  {
    if a.Attr? { AddSubGet(a.rest, name, other); }
  }

  // ---------------------------------------------------------------- positions

  /** A tree with one hole. */
  datatype TCtx =
    | THole
    | TAttr(name: bytes, val: bytes, inner: TCtx)
    | TBody(name: bytes, inner: TCtx, rest: Tree)
    | TRest(name: bytes, body: Tree, inner: TCtx)

  function PlugT(k: TCtx, a: Tree): (r: Tree)
  {
    match k
    case THole => a
    case TAttr(n, v, inner) => Attr(n, v, PlugT(inner, a))
    case TBody(n, inner, rest) => Sub(n, PlugT(inner, a), rest)
    case TRest(n, body, inner) => Sub(n, body, PlugT(inner, a))
  }

  predicate NamedC(c: Ctx, t: bytes)
  {
    match c
    case Hole => true
    case CItem(tok, inner) => (tok.Prop? ==> NameAt(t, tok.nameoff).Some?) && NamedC(inner, t)
    case CBody(_, _, inner, rest) => NamedC(inner, t) && Named(rest, t)
    case CRest(_, _, body, inner) => Named(body, t) && NamedC(inner, t)
  }

  function AbsC(c: Ctx, t: bytes): (k: TCtx)
    requires NamedC(c, t)
  {
    match c
    case Hole => THole
    case CItem(tok, inner) =>
      if tok.Prop? then TAttr(NameAt(t, tok.nameoff).value, tok.val, AbsC(inner, t)) else AbsC(inner, t)
    case CBody(n, _, inner, rest) => TBody(n, AbsC(inner, t), Abs(rest, t))
    case CRest(n, _, body, inner) => TRest(n, Abs(body, t), AbsC(inner, t))
  }

  lemma {:induction false} AbsPlug(c: Ctx, f: Forest, t: bytes)
    ensures Named(Plug(c, f), t) <==> NamedC(c, t) && Named(f, t)
    ensures Named(Plug(c, f), t) ==> Abs(Plug(c, f), t) == PlugT(AbsC(c, t), Abs(f, t))
  {
    hide NameAt;
    match c
    case Hole =>
    case CItem(_, inner) => AbsPlug(inner, f, t);
    case CBody(_, _, inner, _) => AbsPlug(inner, f, t);
    case CRest(_, _, _, inner) => AbsPlug(inner, f, t);
  }

  lemma {:induction false} AbsCGrows(c: Ctx, t: bytes, x: bytes)
    requires NamedC(c, t)
    ensures NamedC(c, t + x) && AbsC(c, t + x) == AbsC(c, t)
  {
    hide NameAt;
    match c
    case Hole =>
    case CItem(tok, inner) =>
      AbsCGrows(inner, t, x);
      if tok.Prop? { NameGrows(t, x, tok.nameoff); }
    case CBody(_, _, inner, rest) =>
      AbsCGrows(inner, t, x);
      AbsGrows(rest, t, x);
    case CRest(_, _, body, inner) =>
      AbsGrows(body, t, x);
      AbsCGrows(inner, t, x);
  }

  // ---------------------------------------------------------------- concrete lookups, read abstractly

  /** The property a reader finds by name is the property the tree has under that name. */
  lemma {:induction false} PropCtxAbs(f: Forest, t: bytes, name: bytes)
    requires Named(f, t)
    ensures PropCtx(f, t, name).Some? <==> GetAttr(Abs(f, t), name).Some?
    ensures PropCtx(f, t, name).Some? ==> GetAttr(Abs(f, t), name) == Some(PropTail(f, t, name).tok.val)
  {
    hide NameAt;
    match f
    case Item(tok, rest) => PropCtxAbs(rest, t, name);
    case _ =>
  }

  /** Replacing the found property token replaces the property of the tree. */
  lemma {:induction false} ReplacePropAbs(f: Forest, t: bytes, name: bytes, tok: Token)
    requires Named(f, t) && PropCtx(f, t, name).Some?
    requires tok.Prop? && tok.nameoff == PropTail(f, t, name).tok.nameoff
    ensures var g := Plug(PropCtx(f, t, name).value, Item(tok, PropTail(f, t, name).rest));
      Named(g, t) && Abs(g, t) == ReplaceAttr(Abs(f, t), name, tok.val)
  {
    hide NameAt;
    match f
    case Item(head, rest) =>
      if !(head.Prop? && NameAt(t, head.nameoff) == Some(name)) {
        ReplacePropAbs(rest, t, name, tok);
      }
  }

  /** Cutting the found property token out deletes the property of the tree. */
  lemma {:induction false} DropPropAbs(f: Forest, t: bytes, name: bytes)
    requires Named(f, t) && PropCtx(f, t, name).Some?
    ensures var g := Plug(PropCtx(f, t, name).value, PropTail(f, t, name).rest);
      Named(g, t) && Abs(g, t) == DelAttr(Abs(f, t), name)
  {
    hide NameAt;
    match f
    case Item(head, rest) =>
      if !(head.Prop? && NameAt(t, head.nameoff) == Some(name)) {
        DropPropAbs(rest, t, name);
      }
  }

  /** The position behind the leading properties and NOPs of a body. */
  function HeadCtx(f: Forest): (c: Ctx)
    ensures Wf(f) ==> WfCtx(c)
  {
    match f
    case Item(tok, rest) => CItem(tok, HeadCtx(rest))
    case _ => Hole
  }

  function HeadTail(f: Forest): (g: Forest)
    ensures Plug(HeadCtx(f), g) == f && !g.Item?
  {
    match f
    case Item(_, rest) => HeadTail(rest)
    case _ => f
  }

  lemma {:induction false} AddSubAbs(f: Forest, t: bytes, name: bytes, pad: bytes)
    requires Named(f, t)
    ensures var g := Plug(HeadCtx(f), Node(name, pad, Nil, HeadTail(f)));
      Named(g, t) && Abs(g, t) == AddSub(Abs(f, t), name)
  {
    hide NameAt;
    match f
    case Item(_, rest) => AddSubAbs(rest, t, name, pad);
    case _ =>
  }

  lemma {:induction false} AbsComp(k: Ctx, d: Ctx, t: bytes, a: Tree)
    requires NamedC(k, t) && NamedC(d, t)
    ensures NamedC(Comp(k, d), t) && PlugT(AbsC(Comp(k, d), t), a) == PlugT(AbsC(k, t), PlugT(AbsC(d, t), a))
  {
    hide NameAt;
    match k
    case Hole =>
    case CItem(_, inner) => AbsComp(inner, d, t, a);
    case CBody(_, _, inner, _) => AbsComp(inner, d, t, a);
    case CRest(_, _, _, inner) => AbsComp(inner, d, t, a);
  }
}
