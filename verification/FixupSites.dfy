/** Where local fixups are stored: the values of nodes that lie apart from the fixups themselves, so that reading the
    fixups and storing by them do not interfere. */
module FixupSites {
  import opened Bytes
  import opened Format
  import opened Tree
  import opened Blob
  import opened Walk
  import opened TreeOps
  import opened Editor
  import opened NodeOps
  import opened Inplace

  // ---------------------------------------------------------------- a region that is left alone

  /** The blocks agree on the bytes from `lo` to `hi`. */
  predicate SameZone(s: bytes, s': bytes, lo: int, hi: int)
  {
    |s'| == |s| && 0 <= lo <= hi <= |s| && s'[lo..hi] == s[lo..hi]
  }

  lemma ZoneAt(s: bytes, s': bytes, lo: int, hi: int, off: int, x: bytes)
    requires SameZone(s, s', lo, hi) && At(s, off, x) && lo <= off && off + |x| <= hi
    ensures At(s', off, x)
  {
    SliceOfSlice(s, lo, hi - lo, off - lo, off - lo + |x|);
    SliceOfSlice(s', lo, hi - lo, off - lo, off - lo + |x|);
  }

  lemma ZoneTrans(s: bytes, s': bytes, s'': bytes, lo: int, hi: int)
    requires SameZone(s, s', lo, hi) && SameZone(s', s'', lo, hi)
    ensures SameZone(s, s'', lo, hi)
  {
  }

  lemma ZoneInside(s: bytes, s': bytes, lo: int, hi: int, off: int, f: Forest)
    requires SameZone(s, s', lo, hi) && Inside(s, off, f) && lo <= off && off + |Enc(f)| + 4 <= hi
    ensures Inside(s', off, f)
  {
    hide EncTok, SameZone, At, Word;
    EndLen();
    ZoneSize(s, s', lo, hi);
    ZoneAt(s, s', lo, hi, off, Enc(f));
    ZoneAt(s, s', lo, hi, off + |Enc(f)|, EncTok(EndNode));
  }

  lemma ZoneSize(s: bytes, s': bytes, lo: int, hi: int)
    requires SameZone(s, s', lo, hi)
    ensures |s'| == |s|
  {
  }

  lemma ZoneNode(s: bytes, s': bytes, lo: int, hi: int, off: int, name: bytes, pad: bytes, body: Forest)
    requires SameZone(s, s', lo, hi) && NodeIn(s, off, name, pad, body)
    requires lo <= off && BodyAt(off, name, pad) + |Enc(body)| + 4 <= hi
    ensures NodeIn(s', off, name, pad, body)
  {
    hide EncTok, SameZone, At, Word, Inside;
    ZoneAt(s, s', lo, hi, off, EncTok(Begin(name, pad)));
    ZoneInside(s, s', lo, hi, BodyAt(off, name, pad), body);
  }

  /** A store outside the region leaves it alone. */
  lemma ZonePut(s: bytes, p: nat, x: bytes, lo: int, hi: int)
    requires p + |x| <= |s| && 0 <= lo <= hi <= |s| && (p + |x| <= lo || hi <= p)
    ensures SameZone(s, Put(s, p, x), lo, hi)
  {
    PutOutside(s, p, x, lo, hi);
  }

  // ---------------------------------------------------------------- sizes that stores do not change

  /** The size of the tags of a body before its first subnode. */
  function HeadSize(f: Forest): (n: nat)
    requires Wf(f)
    ensures n <= |Enc(f)|
  {
    match f
    case Item(tok, rest) => |EncTok(tok)| + HeadSize(rest)
    case _ => 0
  }

  lemma {:induction false} ShapeHead(f: Forest, g: Forest)
    requires SameShape(f, g) && Wf(f) && Wf(g)
    ensures HeadSize(f) == HeadSize(g)
  {
    if f.Item? {
      TagSize(f.tok, g.tok);
      ShapeHead(f.rest, g.rest);
    }
  }

  /** The same subnode is found in the same place. */
  lemma {:induction false} ShapeSub(f: Forest, g: Forest, want: bytes)
    requires SameShape(f, g) && Wf(f) && Wf(g)
    ensures SubCtx(f, want).Some? <==> SubCtx(g, want).Some?
    ensures SubCtx(f, want).Some? ==>
      && |Pre(SubCtx(f, want).value)| == |Pre(SubCtx(g, want).value)| && SameShape(SubTail(f, want), SubTail(g, want))
      && Wf(SubTail(f, want)) && Wf(SubTail(g, want))
  {
    hide EncTok, Aligned, NameMatches, Word;
    match f
    case Nil =>
    case Item(tok, rest) =>
      ShapeTag(tok, g.tok);
      ShapeSub(rest, g.rest, want);
    case Node(name, _, body, rest) =>
      ShapeSizes(body, g.body);
      EndLen();
      ShapeSub(rest, g.rest, want);
  }

  lemma ShapeTag(t: Token, u: Token)
    requires SameTag(t, u) && WfTok(t) && WfTok(u)
    ensures |EncTok(t)| == |EncTok(u)| && t.Prop? == u.Prop? && (t.Prop? ==> t.nameoff == u.nameoff)
  {
    TagSize(t, u);
  }

  /** The same property is found in the same place. */
  lemma {:induction false} ShapeProp(f: Forest, g: Forest, t: bytes, name: bytes)
    requires SameShape(f, g) && Wf(f) && Wf(g)
    ensures PropCtx(f, t, name).Some? <==> PropCtx(g, t, name).Some?
    ensures PropCtx(f, t, name).Some? ==> |Pre(PropCtx(f, t, name).value)| == |Pre(PropCtx(g, t, name).value)|
  {
    hide EncTok, Aligned, NameAt, Word;
    if f.Item? {
      ShapeTag(f.tok, g.tok);
      ShapeProp(f.rest, g.rest, t, name);
    }
  }

  lemma SameProperty(b: bytes, d: bytes, node: int, c: Ctx, n: Forest, g: Forest, a: Tree, name: bytes)
    requires NodeAt(b, node, c, n) && Stored(b, d, node, c, n, g, a)
    ensures Sane(b) && Sane(d) && NodeAt(d, node, c, g)
    ensures GetProperty(Struct(d), Strings(d), node, name) == GetProperty(Struct(b), Strings(b), node, name)
  {
    hide Field, Struct, Strings, Holds, Pre, Enc, EncTok, SameShape, PropCtx, GetProperty;
    NodeAtHole(Struct(b), c, n.name, n.pad, n.body, n.rest);
    NodeAtHole(Struct(d), c, g.name, g.pad, g.body, g.rest);
    GetPropertyIs(Struct(b), Strings(b), node, n.name, n.pad, n.body, name);
    GetPropertyIs(Struct(d), Strings(d), node, g.name, g.pad, g.body, name);
    ShapeProp(n.body, g.body, Strings(b), name);
  }

  // ---------------------------------------------------------------- nodes apart from the fixups

  /** The whole node lies outside the region. */
  predicate Outside(n: Forest, node: int, lo: int, hi: int)
    requires n.Node? && Wf(n)
  {
    node + NodeSize(n) <= lo || hi <= node
  }

  /** The subnode that `want` finds lies outside the region. */
  predicate SubOutside(n: Forest, node: int, want: bytes, lo: int, hi: int)
    requires n.Node? && Wf(n)
  {
    SubCtx(n.body, want).Some? ==>
      && Wf(SubTail(n.body, want))
      && Outside(SubTail(n.body, want), BodyAt(node, n.name, n.pad) + |Pre(SubCtx(n.body, want).value)|, lo, hi)
  }

  /** What the fixups `fx` of the node lead to lies outside the region: the whole node does, or the region lies behind
      its properties and none of its subnodes that `fx` names overlaps it. */
  predicate Clear(n: Forest, node: int, fx: Tree, lo: int, hi: int)
    requires n.Node? && Wf(n)
  {
    || Outside(n, node, lo, hi)
    || (BodyAt(node, n.name, n.pad) + HeadSize(n.body) <= lo
        && forall i | 0 <= i < |Subs(fx)| :: SubOutside(n, node, Subs(fx)[i].0, lo, hi))
  }

  lemma ShapeClear(n: Forest, g: Forest, node: int, fx: Tree, lo: int, hi: int)
    requires n.Node? && g.Node? && Wf(n) && Wf(g) && g.name == n.name && g.pad == n.pad && SameShape(n.body, g.body)
    requires Clear(n, node, fx, lo, hi)
    ensures Clear(g, node, fx, lo, hi)
  {
    hide EncTok, Pre, SubCtx, SameShape, HeadSize, Enc;
    ShapeSizes(n.body, g.body);
    ShapeHead(n.body, g.body);
    if !Outside(n, node, lo, hi) {
      forall i | 0 <= i < |Subs(fx)|
        ensures SubOutside(g, node, Subs(fx)[i].0, lo, hi)
      {
        assert SubOutside(n, node, Subs(fx)[i].0, lo, hi);
        ShapeSubOutside(n, g, node, Subs(fx)[i].0, lo, hi);
      }
    }
  }

  lemma ShapeSubOutside(n: Forest, g: Forest, node: int, want: bytes, lo: int, hi: int)
    requires n.Node? && g.Node? && Wf(n) && Wf(g) && g.name == n.name && g.pad == n.pad && SameShape(n.body, g.body)
    requires SubOutside(n, node, want, lo, hi)
    ensures SubOutside(g, node, want, lo, hi)
  {
    hide EncTok, Pre, SubCtx, Enc;
    ShapeSub(n.body, g.body, want);
    if SubCtx(n.body, want).Some? {
      ShapeSizes(SubTail(n.body, want).body, SubTail(g.body, want).body);
    }
  }

  /** A property lies before the first subnode. */
  lemma {:induction false} PropInHead(f: Forest, t: bytes, name: bytes)
    requires Wf(f) && PropCtx(f, t, name).Some?
    ensures WfTok(PropTail(f, t, name).tok)
    ensures |Pre(PropCtx(f, t, name).value)| + |EncTok(PropTail(f, t, name).tok)| <= HeadSize(f)
  {
    hide NameAt, EncTok, Aligned;
    match f
    case Item(tok, rest) =>
      if !(tok.Prop? && NameAt(t, tok.nameoff) == Some(name)) { PropInHead(rest, t, name); }
  }

  lemma ValueInTok(tok: Token)
    requires WfTok(tok) && tok.Prop?
    ensures 12 + |tok.val| <= |EncTok(tok)|
  {
  }

  /** So the value that a fixup property leads to lies outside the region. */
  lemma ValueOutside(b: bytes, node: int, c: Ctx, n: Forest, name: bytes, fx: Tree, lo: int, hi: int)
    requires NodeAt(b, node, c, n) && Clear(n, node, fx, lo, hi) && Named(n.body, Strings(b))
    requires GetAttr(Abs(n.body, Strings(b)), name).Some?
    ensures var r, v := GetProperty(Struct(b), Strings(b), node, name), GetAttr(Abs(n.body, Strings(b)), name).value;
      0 <= r && (r + 12 + |v| <= lo || hi <= r)
  {
    hide Field, Struct, Strings, Holds, Pre, Enc, EncTok, NameAt, PropCtx, GetProperty, Abs, GetAttr;
    NodeAtHole(Struct(b), c, n.name, n.pad, n.body, n.rest);
    NodeInIs(Struct(b), node, n.name, n.pad, n.body);
    GetPropertyIs(Struct(b), Strings(b), node, n.name, n.pad, n.body, name);
    PropCtxAbs(n.body, Strings(b), name);
    PropInHead(n.body, Strings(b), name);
    ValueInTok(PropTail(n.body, Strings(b), name).tok);
    BodyBehind(node, n);
  }

  lemma BodyBehind(node: int, n: Forest)
    requires n.Node? && Wf(n)
    ensures node + 4 <= BodyAt(node, n.name, n.pad)
    ensures BodyAt(node, n.name, n.pad) + HeadSize(n.body) <= node + NodeSize(n)
    ensures BodyAt(node, n.name, n.pad) + |Enc(n.body)| + 4 == node + NodeSize(n)
  {
    hide EncTok;
  }

  /** And the subnode that a fixup subnode leads to lies outside it. */
  lemma SubIsOutside(n: Forest, node: int, fx: Tree, want: bytes, lo: int, hi: int)
    requires n.Node? && Wf(n) && Clear(n, node, fx, lo, hi) && want in Wants(fx)
    ensures SubOutside(n, node, want, lo, hi)
  {
    hide EncTok, Pre, SubCtx, Enc, HeadSize;
    var i :| 0 <= i < |Subs(fx)| && Subs(fx)[i].0 == want;
    if Outside(n, node, lo, hi) && SubCtx(n.body, want).Some? {
      SubWithin(n, node, want);
    }
  }

  /** The names of the subnodes of a body. */
  function Wants(fx: Tree): (r: seq<bytes>)
    ensures |r| == |Subs(fx)| && forall i | 0 <= i < |r| :: r[i] == Subs(fx)[i].0
  {
    seq(|Subs(fx)|, i requires 0 <= i < |Subs(fx)| => Subs(fx)[i].0)
  }

  lemma SubWithin(n: Forest, node: int, want: bytes)
    requires n.Node? && Wf(n) && SubCtx(n.body, want).Some?
    ensures var m := SubTail(n.body, want); var o := BodyAt(node, n.name, n.pad) + |Pre(SubCtx(n.body, want).value)|;
      Wf(m) && node <= o && o + NodeSize(m) <= node + NodeSize(n)
  {
    hide EncTok, Pre, Post, SubCtx, Enc, Aligned;
    var k, m := SubCtx(n.body, want).value, SubTail(n.body, want);
    WfPlug(k, m);
    EncPlug(k, m);
    NodeBytes(m);
  }
}
