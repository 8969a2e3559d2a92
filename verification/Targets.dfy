/** Finding the node that an overlay fragment is meant for: by phandle or by path. */
module Targets {
  import opened Bytes
  import opened Format
  import opened Components
  import opened Tree
  import opened Blob
  import opened Walk
  import opened TreeOps
  import opened Editor
  import opened NodeOps
  import opened Merging
  import opened MergeLaws
  import opened PhandleLaws
  import opened MaxPhandle
  import opened Paths
  import O = Overlay
  import R = Reader

  // ---------------------------------------------------------------- by phandle, on trees

  /** The body of the first node, in document order, with that phandle. */
  function FindPhandle(a: Tree, p: int): (r: Option<Tree>)
  {
    match a
    case Done => None
    case Attr(_, _, rest) => FindPhandle(rest, p)
    case Sub(_, body, rest) =>
      if PhandleOf(body) == p then Some(body)
      else if FindPhandle(body, p).Some? then FindPhandle(body, p) else FindPhandle(rest, p)
  }

  /** That node with another body. */
  function PutPhandle(a: Tree, p: int, x: Tree): (r: Tree)
  {
    match a
    case Done => Done
    case Attr(n, v, rest) => Attr(n, v, PutPhandle(rest, p, x))
    case Sub(n, body, rest) =>
      if PhandleOf(body) == p then Sub(n, x, rest)
      else if FindPhandle(body, p).Some? then Sub(n, PutPhandle(body, p, x), rest)
      else Sub(n, body, PutPhandle(rest, p, x))
  }

  // ---------------------------------------------------------------- by phandle, on blobs

  /** The position of that node. */
  function PhandleCtx(f: Forest, t: bytes, p: int): (r: Option<Ctx>)
    requires Named(f, t)
  {
    match f
    case Nil => None
    case Item(tok, rest) => (match PhandleCtx(rest, t, p) case None => None case Some(k) => Some(CItem(tok, k)))
    case Node(name, pad, body, rest) =>
      if PhandleOf(Abs(body, t)) == p then Some(Hole) else
      match PhandleCtx(body, t, p)
      case Some(k) => Some(CBody(name, pad, k, rest))
      case None =>
        match PhandleCtx(rest, t, p)
        case Some(k) => Some(CRest(name, pad, body, k))
        case None => None
  }

  /** The forest that starts with it. */
  function PhandleTail(f: Forest, t: bytes, p: int): (g: Forest)
    requires Named(f, t)
    ensures PhandleCtx(f, t, p).Some? ==> g.Node? && Plug(PhandleCtx(f, t, p).value, g) == f
  {
    match f
    case Nil => Nil
    case Item(_, rest) => PhandleTail(rest, t, p)
    case Node(_, _, body, rest) =>
      if PhandleOf(Abs(body, t)) == p then f
      else if PhandleCtx(body, t, p).Some? then PhandleTail(body, t, p) else PhandleTail(rest, t, p)
  }

  /** Both views of the search, and of a replacement. */
  lemma {:induction false} PhandleAbs(f: Forest, t: bytes, p: int, x: Tree)
    requires Named(f, t)
    ensures PhandleCtx(f, t, p).Some? <==> FindPhandle(Abs(f, t), p).Some?
    ensures PhandleCtx(f, t, p).Some? ==>
      var k, m := PhandleCtx(f, t, p).value, PhandleTail(f, t, p);
      && NamedC(k, t) && Named(m, t) && FindPhandle(Abs(f, t), p) == Some(Abs(m.body, t))
      && PutPhandle(Abs(f, t), p, x) == PlugT(AbsC(k, t), Sub(m.name, x, Abs(m.rest, t)))
  {
    hide NameAt, PhandleOf;
    match f
    case Nil =>
    case Item(_, rest) => PhandleAbs(rest, t, p, x);
    case Node(_, _, body, rest) =>
      PhandleAbs(body, t, p, x);
      PhandleAbs(rest, t, p, x);
  }

  /** The loop of `fdt_node_offset_by_phandle`, resumed at the tag at `pos`. */
  function PhandleFrom(s: bytes, t: bytes, pos: int, p: int): (r: int)
    requires |s| < TWO31
    decreases |s| - pos
  {
    hide TagAt, PhandleAt;
    var o := ScanAny(s, pos);
    if o < 0 || PhandleAt(s, t, o) == p then o
    else if CheckNode(s, o) < 0 then CheckNode(s, o)
    else PhandleFrom(s, t, CheckNode(s, o), p)
  }

  /** Over a forest the loop stops at that node, or goes on behind the forest. */
  lemma {:induction false} PhandleSkip(s: bytes, t: bytes, off: int, f: Forest, p: int)
    requires Wf(f) && Aligned(off) && |s| < TWO31 && At(s, off, Enc(f)) && Named(f, t)
    ensures match PhandleCtx(f, t, p)
      case Some(k) => WfCtx(k) && PhandleFrom(s, t, off, p) == off + |Pre(k)|
      case None => PhandleFrom(s, t, off, p) == PhandleFrom(s, t, off + |Enc(f)|, p)
    decreases f
  {
    hide Unword, Word, NameAt, EncTok, Aligned, At, TagAt, PhandleAt, PhandleOf, PhandleFrom, NodeIn, BodyAt;
    match f
    case Nil =>
    case Item(tok, rest) =>
      ReadItem(s, off, tok, rest);
      PhandleSkip(s, t, off + |EncTok(tok)|, rest, p);
      PhandleNext(s, t, off, off + |EncTok(tok)|, p);
      PhandleItem(tok, rest, t, p);
    case Node(name, pad, body, rest) =>
      ReadNode(s, off, name, pad, body, rest);
      var b := BodyAt(off, name, pad);
      var e := b + |Enc(body)|;
      PhandleEnter(s, t, off, name, pad, body, p);
      PhandleSkip(s, t, b, body, p);
      PhandleNext(s, t, e, e + 4, p);
      PhandleSkip(s, t, e + 4, rest, p);
      PhandleNode(off, name, pad, body, rest, t, p);
  }

  lemma PhandleItem(tok: Token, rest: Forest, t: bytes, p: int)
    requires Wf(Item(tok, rest)) && Named(Item(tok, rest), t)
    ensures match PhandleCtx(rest, t, p)
      case Some(k) => PhandleCtx(Item(tok, rest), t, p) == Some(CItem(tok, k))
                      && (WfCtx(k) ==> WfCtx(CItem(tok, k)) && |Pre(CItem(tok, k))| == |EncTok(tok)| + |Pre(k)|)
      case None => PhandleCtx(Item(tok, rest), t, p).None?
  {
    hide NameAt, PhandleOf, EncTok;
  }

  /** Positions inside a node and behind it. */
  lemma PhandleNode(off: int, name: bytes, pad: bytes, body: Forest, rest: Forest, t: bytes, p: int)
    requires Wf(Node(name, pad, body, rest)) && Named(Node(name, pad, body, rest), t)
    ensures var f := Node(name, pad, body, rest);
      if PhandleOf(Abs(body, t)) == p then PhandleCtx(f, t, p) == Some(Hole)
      else match PhandleCtx(body, t, p)
      case Some(k) =>
        PhandleCtx(f, t, p) == Some(CBody(name, pad, k, rest))
        && (WfCtx(k) ==> WfCtx(CBody(name, pad, k, rest))
                         && off + |Pre(CBody(name, pad, k, rest))| == BodyAt(off, name, pad) + |Pre(k)|)
      case None =>
        match PhandleCtx(rest, t, p)
        case Some(k) =>
          PhandleCtx(f, t, p) == Some(CRest(name, pad, body, k))
          && (WfCtx(k) ==> WfCtx(CRest(name, pad, body, k))
                           && off + |Pre(CRest(name, pad, body, k))|
                              == BodyAt(off, name, pad) + |Enc(body)| + 4 + |Pre(k)|)
        case None => PhandleCtx(f, t, p).None?
  {
    hide NameAt, PhandleOf, EncTok;
    EndLen();
  }

  /** At a node its phandle is looked at. */
  lemma PhandleEnter(s: bytes, t: bytes, off: int, name: bytes, pad: bytes, body: Forest, p: int)
    requires WfTok(Begin(name, pad)) && Wf(body) && Aligned(off) && |s| < TWO31 && At(s, off, EncTok(Begin(name, pad)))
    requires var b := BodyAt(off, name, pad);
      Aligned(b) && At(s, b, Enc(body)) && At(s, b + |Enc(body)|, EncTok(EndNode))
    requires Named(body, t)
    ensures PhandleFrom(s, t, off, p)
      == if PhandleOf(Abs(body, t)) == p then off else PhandleFrom(s, t, BodyAt(off, name, pad), p)
  {
    hide Unword, Word, NameAt, EncTok, Aligned, At, TagAt, PhandleAt, PhandleOf, Enc, Abs;
    NodeInIs(s, off, name, pad, body);
    PhandleAtIs(s, t, off, name, pad, body);
  }

  lemma PhandleNext(s: bytes, t: bytes, off: int, next: int, p: int)
    requires |s| < TWO31 && TagAt(s, off).next == next && TagAt(s, off).tag in {END_NODE, PROP, NOP}
    ensures PhandleFrom(s, t, off, p) == PhandleFrom(s, t, next, p)
  {
    hide Unword, TagAt, PhandleAt;
  }

  /** `fdt_node_offset_by_phandle`. */
  method NodeByPhandle(fdt: array<byte>, p: int) returns (r: int)
    requires Live(fdt[..]) && 0 <= p < TWO32
    ensures p == 0 || p == NO_PHANDLE ==> r == -ERR_BADPHANDLE
    ensures p != 0 && p != NO_PHANDLE ==> r == PhandleFrom(Struct(fdt[..]), Strings(fdt[..]), 0, p)
    ensures R.IsInt(r)
  {
    hide Field, Unword, Struct, Strings, TagAt, PhandleAt, CheckNode;
    if p == 0 || p == NO_PHANDLE {
      return -ERR_BADPHANDLE;
    }
    ghost var s, t := Struct(fdt[..]), Strings(fdt[..]);
    r := -1;
    while true
      invariant R.IsInt(r) && (r < 0 ==> r == -1)
      invariant r >= 0 && CheckNode(s, r) < 0 ==> PhandleFrom(s, t, 0, p) == CheckNode(s, r)
      invariant r >= 0 && CheckNode(s, r) >= 0 ==> PhandleFrom(s, t, 0, p) == PhandleFrom(s, t, CheckNode(s, r), p)
      decreases Left(s, r) + if r < 0 then |s| + 100 else 0
    {
      r := NextAny(fdt, r);
      if r < 0 {
        return;
      }
      var value := GetPhandle(fdt, r);
      if value == p {
        return;
      }
    }
  }

  /** What it finds in the blob of a rooted tree. */
  lemma PhandleNodeAt(b: bytes, root: Forest, p: int)
    requires NodeAt(b, 0, Hole, root)
    ensures Sane(b) && Named(root, Strings(b))
    ensures var r := PhandleFrom(Struct(b), Strings(b), 0, p);
      match PhandleCtx(root, Strings(b), p)
      case Some(k) => NodeAt(b, r, k, PhandleTail(root, Strings(b), p))
      case None => r == -ERR_NOTFOUND
  {
    hide Field, Struct, Strings, NameAt, Pre, Post, PhandleFrom, EncTok, TagAt, Word, Unword, PhandleOf, PhandleCtx,
         PhandleTail, Enc;
    var s, t := Struct(b), Strings(b);
    AlignedSmall();
    RootBytes(b, root);
    PhandleSkip(s, t, 0, root, p);
    match PhandleCtx(root, t, p)
    case Some(k) =>
      var m := PhandleTail(root, t, p);
      WfPlug(k, m);
      AbsPlug(k, m, t);
    case None =>
      PhandleEnd(s, t, |Enc(root)|, p);
  }

  lemma RootBytes(b: bytes, root: Forest)
    requires NodeAt(b, 0, Hole, root)
    ensures Sane(b) && Live(b) && Wf(root) && Named(root, Strings(b)) && |Struct(b)| < TWO31
    ensures At(Struct(b), 0, Enc(root)) && At(Struct(b), |Enc(root)|, Word(END))
  {
    hide Field, Struct, Strings, NameAt, Post, Word, Enc;
    AtHole(Struct(b), Hole, root);
  }

  lemma PhandleEnd(s: bytes, t: bytes, off: int, p: int)
    requires |s| < TWO31 && Aligned(off) && At(s, off, Word(END))
    ensures PhandleFrom(s, t, off, p) == -ERR_NOTFOUND
  {
    hide Word, TagAt, PhandleAt;
    EndTag(s, off);
  }

  // ---------------------------------------------------------------- by path

  /** The body at the end of a path replaced. */
  function PutAtPath(a: Tree, names: seq<bytes>, x: Tree): (r: Tree)
    requires NodeAtPath(a, names).Some?
    decreases |names|
  {
    if names == [] then x else PutSub(a, names[0], PutAtPath(FindSubT(a, names[0]).value, names[1..], x))
  }

  /** The components of a path. */
  function Parts(path: bytes, p: nat): (names: seq<bytes>)
    requires p <= |path|
  {
    Split(path, p, |path|)
  }

  lemma PartsStep(path: bytes, p: nat)
    requires p <= |path|
    ensures var q := SkipSlashes(path, p);
      if q == |path| then Parts(path, p) == []
      else Parts(path, p) == [path[q..NextSlash(path, q)]] + Parts(path, NextSlash(path, q))
  {
  }

  /** Replacing the body of a found subnode, at its position. */
  lemma {:induction false} SubPlug(f: Forest, t: bytes, want: bytes, x: Tree)
    requires Named(f, t) && SubCtx(f, want).Some?
    ensures var k, m := SubCtx(f, want).value, SubTail(f, want);
      && NamedC(k, t) && m.Node? && Named(m, t)
      && PlugT(AbsC(k, t), Sub(m.name, x, Abs(m.rest, t))) == PutSub(Abs(f, t), want, x)
  {
    hide NameAt, NameMatches;
    match f
    case Item(_, rest) => SubPlug(rest, t, want, x);
    case Node(name, _, _, rest) => if !NameMatches(name, want) { SubPlug(rest, t, want, x); }
  }

  /** One step down, as an edit of the parent's body. */
  lemma StepPlug(b: bytes, off: int, c: Ctx, n: Forest, name: bytes, x: Tree)
    requires NodeAt(b, off, c, n) && SubCtx(n.body, name).Some?
    ensures var t, k, m := Strings(b), SubCtx(n.body, name).value, SubTail(n.body, name);
      && Named(n.body, t) && Named(n.rest, t) && m.Node? && Named(m, t) && NamedC(c, t) && NamedC(InBody(c, n, k), t)
      && PlugT(AbsC(InBody(c, n, k), t), Sub(m.name, x, Abs(m.rest, t)))
         == PlugT(AbsC(c, t), Sub(n.name, PutSub(Abs(n.body, t), name, x), Abs(n.rest, t)))
  {
    hide Field, Struct, Strings, NameAt, Pre, Post, NameMatches, EncTok, SubCtx, SubTail, PutSub;
    var t := Strings(b);
    AbsPlug(c, n, t);
    SubPlug(n.body, t, name, x);
    var k, m := SubCtx(n.body, name).value, SubTail(n.body, name);
    AbsComp(c, CBody(n.name, n.pad, k, n.rest), t, Sub(m.name, x, Abs(m.rest, t)));
  }

  /** What following a path finds, and what replacing it there does to the tree. */
  lemma {:induction false} PathNodeAt(b: bytes, path: bytes, p: nat, off: int, c: Ctx, n: Forest)
    returns (c2: Ctx, n2: Forest)
    requires NodeAt(b, off, c, n) && p <= |path|
    ensures Sane(b) && Named(n.body, Strings(b)) && Named(n.rest, Strings(b)) && NamedC(c, Strings(b))
    ensures var r := PathFrom(Struct(b), path, p, off);
      match NodeAtPath(Abs(n.body, Strings(b)), Parts(path, p))
      case Some(x) => FoundAt(b, r, c2, n2, x)
      case None => r == -ERR_NOTFOUND
    ensures NodeAtPath(Abs(n.body, Strings(b)), Parts(path, p)).Some? ==>
      forall y :: PlugNode(b, c2, n2, y) == PlugNode(b, c, n, PutAtPath(Abs(n.body, Strings(b)), Parts(path, p), y))
    decreases |path| - p
  {
    hide Field, Struct, Strings, NameAt, NodeAt, FindSub, SubCtx, SubTail, Abs, Named, PathFrom, Split, InBody, AbsC,
         PlugT, NamedC, PutSub, FindSubT, Pre;
    NodeFacts(b, off, c, n);
    var t := Strings(b);
    var q := SkipSlashes(path, p);
    PartsStep(path, p);
    PathStep(b, path, p, off);
    c2, n2 := c, n;
    if q < |path| {
      var e := NextSlash(path, q);
      var want := path[q..e];
      var names := Parts(path, p);
      assert names[0] == want && names[1..] == Parts(path, e);
      SubLookup(b, off, c, n, want);
      SubCtxAbs(n.body, t, want);
      if SubCtx(n.body, want).Some? {
        var k, m := O.SubNodeAt(b, off, c, n, want);
        c2, n2 := PathNodeAt(b, path, e, FindSub(Struct(b), off, 0, want), InBody(c, n, k), m);
        forall y | NodeAtPath(Abs(n.body, t), names).Some?
          ensures PlugNode(b, c2, n2, y) == PlugNode(b, c, n, PutAtPath(Abs(n.body, t), names, y))
        {
          StepPlug(b, off, c, n, want, PutAtPath(Abs(m.body, t), Parts(path, e), y));
        }
      }
    }
  }

  /** At `off` is the node `n`, with the body `x`. */
  ghost predicate FoundAt(b: bytes, off: int, c: Ctx, n: Forest, x: Tree)
  {
    NodeAt(b, off, c, n) && Named(n.body, Strings(b)) && Abs(n.body, Strings(b)) == x && 0 <= off < TWO31
  }

  /** The tree with another body of the node `n` at position `c`. */
  ghost function PlugNode(b: bytes, c: Ctx, n: Forest, y: Tree): (a: Tree)
    requires Sane(b)
  {
    if n.Node? && NamedC(c, Strings(b)) && Named(n.rest, Strings(b))
    then PlugT(AbsC(c, Strings(b)), Sub(n.name, y, Abs(n.rest, Strings(b)))) else Done
  }

  lemma NodeFacts(b: bytes, off: int, c: Ctx, n: Forest)
    requires NodeAt(b, off, c, n)
    ensures Sane(b) && n.Node? && Named(n.body, Strings(b)) && Named(n.rest, Strings(b)) && NamedC(c, Strings(b))
    ensures 0 <= off < TWO31 && Named(n, Strings(b)) && FoundAt(b, off, c, n, Abs(n.body, Strings(b)))
  {
    hide Field, Struct, Strings, NameAt, Pre, Post;
    AbsPlug(c, n, Strings(b));
    O.HoleInside(Struct(b), c, n);
  }

  lemma PathStep(b: bytes, path: bytes, p: nat, off: int)
    requires Sane(b) && p <= |path|
    ensures var q := SkipSlashes(path, p);
      if q == |path| then PathFrom(Struct(b), path, p, off) == off
      else var child := FindSub(Struct(b), off, 0, path[q..NextSlash(path, q)]);
        PathFrom(Struct(b), path, p, off)
        == if child < 0 then child else PathFrom(Struct(b), path, NextSlash(path, q), child)
  {
    hide Struct, FindSub;
  }

  // ---------------------------------------------------------------- laws

  /** What has been put at the end of a path is found there. */
  lemma {:induction false} PathPut(a: Tree, names: seq<bytes>, x: Tree)
    requires NodeAtPath(a, names).Some?
    ensures NodeAtPath(PutAtPath(a, names, x), names) == Some(x)
    decreases |names|
  {
    hide PutSub, FindSubT;
    if names != [] {
      var b := FindSubT(a, names[0]).value;
      FindPut(a, names[0], PutAtPath(b, names[1..], x));
      PathPut(b, names[1..], x);
    }
  }

  /** A path that leaves the other one at a sibling leads where it led. */
  lemma {:induction false} PathPutOther(a: Tree, names: seq<bytes>, x: Tree, other: seq<bytes>, i: nat)
    requires NodeAtPath(a, names).Some? && i < |names| && i < |other| && names[..i] == other[..i]
    requires MergeLaws.Apart(names[i], other[i])
    ensures NodeAtPath(PutAtPath(a, names, x), other) == NodeAtPath(a, other)
    decreases i
  {
    hide PutSub, FindSubT, MergeLaws.Apart;
    var b := FindSubT(a, names[0]).value;
    if i == 0 {
      FindPutOther(a, names[0], PutAtPath(b, names[1..], x), other[0]);
    } else {
      assert names[0] == names[..i][0] == other[0];
      assert names[1..][..i - 1] == names[..i][1..] && other[1..][..i - 1] == other[..i][1..];
      FindPut(a, names[0], PutAtPath(b, names[1..], x));
      PathPutOther(b, names[1..], x, other[1..], i - 1);
    }
  }

  /** A body that keeps its phandle is found under it. */
  lemma {:induction false} PhandlePut(a: Tree, p: int, x: Tree)
    requires FindPhandle(a, p).Some? && PhandleOf(x) == p
    ensures FindPhandle(PutPhandle(a, p, x), p) == Some(x)
  {
    hide PhandleOf;
    match a
    case Attr(_, _, rest) => PhandlePut(rest, p, x);
    case Sub(_, body, rest) =>
      if PhandleOf(body) != p {
        if FindPhandle(body, p).Some? {
          PhandlePut(body, p, x);
          PhandleOfPut(body, p, x);
        } else {
          PhandlePut(rest, p, x);
        }
      }
  }

  /** The properties of the nodes around it are left alone. */
  lemma PhandleOfPut(a: Tree, p: int, x: Tree)
    ensures PhandleOf(PutPhandle(a, p, x)) == PhandleOf(a)
  {
    hide Unword;
    AttrsOfPut(a, p, x, PHANDLE);
    AttrsOfPut(a, p, x, LINUX_PHANDLE);
  }

  lemma {:induction false} AttrsOfPut(a: Tree, p: int, x: Tree, name: bytes)
    ensures GetAttr(PutPhandle(a, p, x), name) == GetAttr(a, name)
  {
    if a.Attr? { AttrsOfPut(a.rest, p, x, name); }
  }

  /** Another phandle leads where it led, if it is not one inside the old body or the new one. */
  lemma {:induction false} PhandlePutOther(a: Tree, p: int, x: Tree, q: int)
    requires FindPhandle(a, p).Some? && PhandleOf(x) == p != q
    requires FindPhandle(FindPhandle(a, p).value, q).None? && FindPhandle(x, q).None?
    ensures FindPhandle(PutPhandle(a, p, x), q).Some? <==> FindPhandle(a, q).Some?
    ensures FindPhandle(a, q).Some? && FindPhandle(FindPhandle(a, q).value, p).None? ==>
      FindPhandle(PutPhandle(a, p, x), q) == FindPhandle(a, q)
  {
    hide PhandleOf;
    match a
    case Attr(_, _, rest) => PhandlePutOther(rest, p, x, q);
    case Sub(_, body, rest) =>
      if PhandleOf(body) != p {
        if FindPhandle(body, p).Some? {
          PhandleOfPut(body, p, x);
          PhandlePutOther(body, p, x, q);
        } else {
          PhandlePutOther(rest, p, x, q);
        }
      }
  }
}
