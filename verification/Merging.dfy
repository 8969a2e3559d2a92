/** The merge of an overlay subtree into a base subtree, on the trees a client sees. */
module Merging {
  import opened Bytes
  import opened Format
  import opened Tree
  import opened Walk
  import opened TreeOps

  /** The body of the first subnode whose name matches `want` (a name without unit address matches any). */
  function FindSubT(a: Tree, want: bytes): (r: Option<Tree>)
  {
    match a
    case Done => None
    case Attr(_, _, rest) => FindSubT(rest, want)
    case Sub(n, body, rest) => if NameMatches(n, want) then Some(body) else FindSubT(rest, want)
  }

  /** That subnode with another body. */
  function PutSub(a: Tree, want: bytes, body: Tree): (r: Tree)
  {
    match a
    case Done => Done
    case Attr(n, v, rest) => Attr(n, v, PutSub(rest, want, body))
    case Sub(n, b, rest) => if NameMatches(n, want) then Sub(n, body, rest) else Sub(n, b, PutSub(rest, want, body))
  }

  /** `fdt_add_subnode` unless a matching subnode exists. */
  function EnsureSub(a: Tree, name: bytes): (r: Tree)
    ensures FindSubT(r, name).Some?
  {
    if FindSubT(a, name).Some? then a else
    AddSubFound(a, name);
    AddSub(a, name)
  }

  lemma {:induction false} AddSubFound(a: Tree, name: bytes)
    requires FindSubT(a, name).None?
    ensures FindSubT(AddSub(a, name), name) == Some(Done)
  {
    if a.Attr? { AddSubFound(a.rest, name); }
  }

  /** The properties of `ov` set one after the other on `a`. */
  function MergeProps(a: Tree, ov: Tree): (r: Tree)
    decreases ov
  {
    match ov
    case Attr(n, v, rest) => MergeProps(SetAttr(a, n, v), rest)
    case _ => a
  }

  /** The subnodes of `ov` merged one after the other into `a`, each into the subnode of that name, made if missing. */
  function MergeSubs(a: Tree, ov: Tree): (r: Tree)
    decreases ov, 0
  {
    match ov
    case Done => a
    case Attr(_, _, rest) => MergeSubs(a, rest)
    case Sub(n, body, rest) =>
      var b := EnsureSub(a, n);
      MergeSubs(PutSub(b, n, Merge(FindSubT(b, n).value, body)), rest)
  }

  /** The merge of a node body: properties override, subnodes merge recursively. */
  function Merge(a: Tree, ov: Tree): (r: Tree)
    decreases ov, 1
  {
    MergeSubs(MergeProps(a, ov), ov)
  }

  // ---------------------------------------------------------------- room

  /** The bytes that setting a property takes at most: its tag, and its name in the strings block. */
  function SetRoom(name: bytes, val: bytes): (n: nat) { |name| + 1 + 12 + Align4(|val|) }

  /** The bytes of a new subnode. */
  function SubRoom(name: bytes): (n: nat) { 4 + Align4(|name| + 1) + 4 }

  function PropsRoom(ov: Tree): (n: nat)
  {
    match ov
    case Attr(n, v, rest) => SetRoom(n, v) + PropsRoom(rest)
    case _ => 0
  }

  function SubsRoom(ov: Tree): (n: nat)
    decreases ov, 0
  {
    match ov
    case Done => 0
    case Attr(_, _, rest) => SubsRoom(rest)
    case Sub(n, body, rest) => SubRoom(n) + MergeRoom(body) + SubsRoom(rest)
  }

  /** The bytes that merging `ov` into a node takes at most. */
  function MergeRoom(ov: Tree): (n: nat)
    decreases ov, 1
  {
    PropsRoom(ov) + SubsRoom(ov)
  }

  // ---------------------------------------------------------------- concrete counterparts

  lemma {:induction false} SubCtxAbs(f: Forest, t: bytes, want: bytes)
    requires Named(f, t)
    ensures SubCtx(f, want).Some? <==> FindSubT(Abs(f, t), want).Some?
    ensures SubCtx(f, want).Some? ==>
      Named(SubTail(f, want), t) && FindSubT(Abs(f, t), want) == Some(Abs(SubTail(f, want).body, t))
  {
    hide NameAt, NameMatches;
    match f
    case Nil =>
    case Item(_, rest) => SubCtxAbs(rest, t, want);
    case Node(name, _, body, rest) => if !NameMatches(name, want) { SubCtxAbs(rest, t, want); }
  }

  /** Replacing the body of the found subnode, read abstractly; the old names may be read in a grown table. */
  lemma {:induction false} PutSubAbs(f: Forest, t: bytes, want: bytes, body: Forest)
    requires Named(f, t) && SubCtx(f, want).Some? && Named(body, t)
    ensures var m := SubTail(f, want); var g := Plug(SubCtx(f, want).value, Node(m.name, m.pad, body, m.rest));
      Named(g, t) && Abs(g, t) == PutSub(Abs(f, t), want, Abs(body, t))
  {
    hide NameAt, NameMatches;
    match f
    case Item(_, rest) => PutSubAbs(rest, t, want, body);
    case Node(name, _, _, rest) => if !NameMatches(name, want) { PutSubAbs(rest, t, want, body); }
  }

  /** A name matches itself. */
  lemma NameMatchesSelf(name: bytes)
    ensures NameMatches(name, name)
  {
  }

  /** After an add, the search by that name finds the new node. */
  lemma {:induction false} SubCtxNew(f: Forest, name: bytes, g: Forest)
    requires SubCtx(f, name).None? && g.Node? && g.name == name && g.rest == HeadTail(f)
    ensures SubCtx(Plug(HeadCtx(f), g), name) == Some(HeadCtx(f)) && SubTail(Plug(HeadCtx(f), g), name) == g
  {
    NameMatchesSelf(name);
    hide NameMatches;
    match f
    case Item(_, rest) => SubCtxNew(rest, name, g);
    case _ =>
  }

  // ---------------------------------------------------------------- enumerating a body

  /** The part of a body that starts with its next property. */
  function PropFrom(f: Forest): (g: Forest)
    ensures g.Item? ==> g.tok.Prop?
  {
    match f
    case Item(tok, rest) => if tok.Prop? then f else PropFrom(rest)
    case _ => Nil
  }

  function PropSkip(f: Forest): (k: nat)
    requires Wf(f)
  {
    match f
    case Item(tok, rest) => if tok.Prop? then 0 else |EncTok(tok)| + PropSkip(rest)
    case _ => 0
  }

  /** `nextprop_` in a body: the next property, or the end of the properties. */
  lemma {:induction false} NextPropIs(s: bytes, off: int, f: Forest, t: bytes)
    requires Inside(s, off, f) && Named(f, t)
    ensures match PropFrom(f)
      case Item(tok, rest) =>
        && NextProp(s, off) == off + PropSkip(f) && Wf(PropFrom(f)) && At(s, off + PropSkip(f), EncTok(tok))
        && Aligned(off + PropSkip(f))
        && Inside(s, off + PropSkip(f) + |EncTok(tok)|, rest) && NameAt(t, tok.nameoff).Some? && Named(rest, t)
        && Abs(f, t) == Attr(NameAt(t, tok.nameoff).value, tok.val, Abs(rest, t))
      case _ => NextProp(s, off) == -ERR_NOTFOUND && !Abs(f, t).Attr?
    decreases f
  {
    hide Word, Unword, EncTok, TagAt, Aligned, Align4, At, NameAt;
    match f
    case Nil => InsideNil(s, off);
    case Node(name, pad, body, rest) => InsideNode(s, off, name, pad, body, rest);
    case Item(tok, rest) =>
      InsideItem(s, off, tok, rest);
      if !tok.Prop? { NextPropIs(s, off + |EncTok(tok)|, rest, t); }
  }

  /** The part of a body that starts with its next node. */
  function NodeFrom(f: Forest): (g: Forest)
    ensures NodeHead(f).Some? ==> g.Node? && Plug(NodeHead(f).value, g) == f && FSize(g) <= FSize(f)
  {
    match f
    case Nil => Nil
    case Item(_, rest) => NodeFrom(rest)
    case Node(_, _, _, _) => f
  }

  function FSize(f: Forest): (k: nat)
  {
    match f
    case Nil => 0
    case Item(_, rest) => 1 + FSize(rest)
    case Node(_, _, body, rest) => 1 + FSize(body) + FSize(rest)
  }

  /** The tag loop that looks for the next node of a body. */
  lemma {:induction false} NextNodeIs(s: bytes, off: int, f: Forest, t: bytes)
    requires Inside(s, off, f) && Named(f, t)
    ensures match NodeHead(f)
      case Some(c) => Wf(NodeFrom(f)) && WfCtx(c) && Inside(s, off + |Pre(c)|, NodeFrom(f)) && Named(NodeFrom(f), t)
      case None => true
    ensures forall a :: MergeSubs(a, Abs(f, t)) == if NodeHead(f).Some? then MergeSubs(a, Abs(NodeFrom(f), t)) else a
    ensures NodeHead(f).Some? ==> SubsRoom(Abs(NodeFrom(f), t)) == SubsRoom(Abs(f, t))
    decreases f
  {
    hide Word, Unword, EncTok, TagAt, Aligned, Align4, At, NameAt, Merge, PutSub, EnsureSub, MergeRoom;
    match f
    case Nil =>
    case Node(_, _, _, _) =>
    case Item(tok, rest) =>
      InsideItem(s, off, tok, rest);
      NextNodeIs(s, off + |EncTok(tok)|, rest, t);
  }
}
