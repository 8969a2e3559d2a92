/** Path lookup and path printing (`fdt_path_offset`, `fdt_get_path`). */
module Paths {
  import opened Bytes
  import opened Format
  import opened Tree
  import opened Blob
  import opened Walk
  import opened Siblings
  import opened Merging
  import opened Components
  import R = Reader

  const ERR_BADPATH := 5

  // ---------------------------------------------------------------- looking a path up

  /** The loop of `fdt_path_offset_namelen`, resumed at position `p` of the path with node `off` reached. */
  function PathFrom(s: bytes, path: bytes, p: nat, off: int): (r: int)
    requires p <= |path|
    decreases |path| - p
  {
    if p == |path| then off else
    var q := SkipSlashes(path, p);
    if q == |path| then off else
    var e := NextSlash(path, q);
    assert e > q;
    var child := FindSub(s, off, 0, path[q..e]);
    if child < 0 then child else PathFrom(s, path, e, child)
  }

  /** `fdt_path_offset_namelen` for an absolute path. */
  method PathOffset(fdt: array<byte>, path: bytes) returns (offset: int)
    requires Live(fdt[..]) && (path == [] || path[0] == SLASH)
    ensures offset == if path == [] then -ERR_BADPATH else PathFrom(Struct(fdt[..]), path, 0, 0)
  {
    hide Field, Struct, FindSub;
    if |path| <= 0 {
      return -ERR_BADPATH;
    }
    offset := 0;
    var p := 0;
    ghost var s := Struct(fdt[..]);
    while p < |path|
      invariant 0 <= p <= |path| && R.IsInt(offset) && PathFrom(s, path, 0, 0) == PathFrom(s, path, p, offset)
      decreases |path| - p
    {
      ghost var start := p;
      while path[p] == SLASH
        invariant start <= p < |path| && SkipSlashes(path, start) == SkipSlashes(path, p)
        decreases |path| - p
      {
        p := p + 1;
        if p == |path| {
          return;
        }
      }
      var q := p;
      while q < |path| && path[q] != SLASH
        invariant p <= q <= |path| && NextSlash(path, p) == NextSlash(path, q)
      {
        q := q + 1;
      }
      offset := R.SubnodeOffset(fdt, offset, path[p..q]);
      if offset < 0 {
        return;
      }
      p := q;
    }
  }

  // ---------------------------------------------------------------- positions and their names

  /** The names of the nodes around a position, outermost first. */
  function Around(c: Ctx): (names: seq<bytes>)
  {
    match c
    case Hole => []
    case CItem(_, inner) => Around(inner)
    case CBody(name, _, inner, _) => [name] + Around(inner)
    case CRest(_, _, _, inner) => Around(inner)
  }

  /** The names on the way from a body to the node `name` at position `c` in it. */
  function Below(c: Ctx, name: bytes): (names: seq<bytes>)
    ensures |names| == |Around(c)| + 1
  {
    Around(c) + [name]
  }

  /** No node on the way has an earlier sibling that answers to its name, with or without unit address. */
  predicate FirstAlong(c: Ctx, name: bytes)
  {
    match c
    case Hole => true
    case CItem(_, inner) => FirstAlong(inner, name)
    case CBody(_, _, inner, _) => FirstAlong(inner, name)
    case CRest(other, _, _, inner) => !NameMatches(other, Below(inner, name)[0]) && FirstAlong(inner, name)
  }

  /** The siblings before a position answer to other names. */
  predicate FirstHere(k: Ctx, want: bytes)
    requires Flat(k)
  {
    match k
    case Hole => true
    case CItem(_, inner) => FirstHere(inner, want)
    case CRest(other, _, _, inner) => !NameMatches(other, want) && FirstHere(inner, want)
  }

  /** The first level of a position: the child on the way, and the position inside that child. */
  function Level(c: Ctx): (k: Ctx)
    ensures Flat(k) && (WfCtx(c) ==> WfCtx(k))
  {
    match c
    case Hole => Hole
    case CItem(tok, inner) => CItem(tok, Level(inner))
    case CBody(_, _, _, _) => Hole
    case CRest(name, pad, body, inner) => CRest(name, pad, body, Level(inner))
  }

  function Deeper(c: Ctx): (d: Ctx)
    ensures d.Hole? || d.CBody?
    ensures WfCtx(c) ==> WfCtx(d)
  {
    match c
    case Hole => c
    case CItem(_, inner) => Deeper(inner)
    case CBody(_, _, _, _) => c
    case CRest(_, _, _, inner) => Deeper(inner)
  }

  lemma {:induction false} WayDown(c: Ctx, m: Forest)
    requires m.Node?
    ensures var k, d := Level(c), Deeper(c); var names := Below(c, m.name);
      && Plug(c, m) == Plug(k, Plug(d, m)) && Plug(d, m).Node? && Plug(d, m).name == names[0]
      && names[1..] == (if d.CBody? then Below(d.inner, m.name) else [])
      && (FirstAlong(c, m.name) <==> FirstHere(k, names[0]) && (d.CBody? ==> FirstAlong(d.inner, m.name)))
  {
    match c
    case Hole =>
    case CItem(_, inner) => WayDown(inner, m);
    case CBody(_, _, _, _) =>
    case CRest(_, _, _, inner) => WayDown(inner, m);
  }

  lemma {:induction false} WayDownPre(c: Ctx)
    requires WfCtx(c)
    ensures |Pre(c)| == |Pre(Level(c))| + |Pre(Deeper(c))|
    ensures Deeper(c).Hole? ==> |Pre(c)| == |Pre(Level(c))|
  {
    hide Word, EncTok, Aligned;
    match c
    case Hole =>
    case CItem(_, inner) => WayDownPre(inner);
    case CBody(_, _, _, _) =>
    case CRest(_, _, _, inner) => WayDownPre(inner);
  }

  // ---------------------------------------------------------------- looking a node up by its names

  /** The size of a node without the siblings after it. */
  function Extent(m: Forest): (n: int)
    requires m.Node? && Wf(m)
    ensures n >= 8
  {
    BodyAt(0, m.name, m.pad) + |Enc(m.body)| + 4
  }

  lemma {:induction false} SubCtxFlat(k: Ctx, m: Forest, want: bytes)
    requires Flat(k) && WfCtx(k) && m.Node? && Wf(m) && NameMatches(m.name, want)
    ensures var r := SubCtx(Plug(k, m), want);
      && r.Some? && WfCtx(r.value) && Flat(r.value) && (FirstHere(k, want) ==> r.value == k)
    ensures Wf(Plug(k, m)) && Wf(SubTail(Plug(k, m), want))
    ensures !FirstHere(k, want) ==>
      |Pre(SubCtx(Plug(k, m), want).value)| + Extent(SubTail(Plug(k, m), want)) <= |Pre(k)|
  {
    hide Word, EncTok, Aligned, NameMatches;
    match k
    case Hole =>
    case CItem(_, inner) => SubCtxFlat(inner, m, want);
    case CRest(_, _, _, inner) =>
      EndLen();
      SubCtxFlat(inner, m, want);
  }

  lemma ExtentIs(o: int, m: Forest)
    requires m.Node? && Wf(m)
    ensures o + Extent(m) == BodyAt(o, m.name, m.pad) + |Enc(m.body)| + 4
  {
  }

  lemma NodeInWf(s: bytes, off: int, name: bytes, pad: bytes, body: Forest)
    requires NodeIn(s, off, name, pad, body)
    ensures WfTok(Begin(name, pad)) && Wf(body) && 0 <= off
  {
    InsideWf(s, BodyAt(off, name, pad), body);
  }

  lemma NodeInBody(s: bytes, off: int, name: bytes, pad: bytes, body: Forest)
    requires NodeIn(s, off, name, pad, body)
    ensures WfTok(Begin(name, pad)) && Inside(s, BodyAt(off, name, pad), body)
  {
  }

  /** A subnode of a node is a node, inside the bytes of the parent. */
  lemma SubnodeIn(s: bytes, off: int, name: bytes, pad: bytes, body: Forest, k: Ctx, m: Forest)
    requires NodeIn(s, off, name, pad, body) && body == Plug(k, m) && Flat(k) && m.Node?
    ensures WfCtx(k) && Wf(m)
    ensures var o := BodyAt(off, name, pad) + |Pre(k)|;
      NodeIn(s, o, m.name, m.pad, m.body) && o > off && o + Extent(m) <= BodyAt(off, name, pad) + |Enc(body)|
  {
    hide Word, EncTok, Aligned, At, TagAt, Inside, Pre, Post, Enc, Plug, NodeIn;
    NodeInBody(s, off, name, pad, body);
    var b := BodyAt(off, name, pad);
    InsideWf(s, b, body);
    WfPlug(k, m);
    EncPlug(k, m);
    InsideFlat(s, b, k, m);
    InsideNode(s, b + |Pre(k)|, m.name, m.pad, m.body, m.rest);
    ExtentIs(b + |Pre(k)|, m);
  }

  /** A search that has reached a node never leaves it. */
  lemma {:induction false} LookupStays(s: bytes, path: bytes, p: nat, off: int, name: bytes, pad: bytes, body: Forest)
    requires p <= |path| && NodeIn(s, off, name, pad, body)
    ensures PathFrom(s, path, p, off) < 0 || off <= PathFrom(s, path, p, off) < BodyAt(off, name, pad) + |Enc(body)| + 4
    decreases |path| - p
  {
    hide FindSub, NodeIn, SubCtx, Extent, Pre, Enc, EncTok;
    NodeInWf(s, off, name, pad, body);
    var q := SkipSlashes(path, p);
    if p < |path| && q < |path| {
      var e := NextSlash(path, q);
      var want := path[q..e];
      SubnodeOffsetIs(s, off, name, pad, body, want);
      var c := SubCtx(body, want);
      if c.Some? {
        var m := SubTail(body, want);
        NodeInWf(s, off, name, pad, body);
        SubCtxIsFlat(body, want);
        SubnodeIn(s, off, name, pad, body, c.value, m);
        ExtentIs(BodyAt(off, name, pad) + |Pre(c.value)|, m);
        LookupStays(s, path, e, BodyAt(off, name, pad) + |Pre(c.value)|, m.name, m.pad, m.body);
      }
    }
  }

  lemma {:induction false} SubCtxIsFlat(f: Forest, want: bytes)
    requires SubCtx(f, want).Some?
    ensures Flat(SubCtx(f, want).value)
  {
    match f
    case Item(_, rest) => SubCtxIsFlat(rest, want);
    case Node(name, _, _, rest) => if !NameMatches(name, want) { SubCtxIsFlat(rest, want); }
  }

  /** Names that can be path components. */
  predicate Component(name: bytes) { name != [] && SLASH !in name }

  /** Each name with a slash in front. */
  function Rendered(names: seq<bytes>): (path: bytes)
    ensures path == [] || path[0] == SLASH
  {
    if names == [] then [] else [SLASH] + names[0] + Rendered(names[1..])
  }

  /** One component of a rendered path is one lookup. */
  lemma OneComponent(s: bytes, path: bytes, p: nat, off: int, name: bytes, rest: bytes)
    requires p <= |path| && path[p..] == [SLASH] + name + rest && Component(name) && (rest == [] || rest[0] == SLASH)
    ensures p + 1 + |name| <= |path| && path[p + 1 + |name|..] == rest
    ensures PathFrom(s, path, p, off)
      == var child := FindSub(s, off, 0, name); if child < 0 then child else PathFrom(s, path, p + 1 + |name|, child)
  {
    hide FindSub;
    var t := path[p..];
    assert path[p] == t[0] == SLASH;
    assert path[p + 1] == t[1] == name[0];
    var e := p + 1 + |name|;
    assert path[p + 1..e] == t[1..1 + |name|] == name;
    assert path[e..] == t[1 + |name|..] == rest;
    if e < |path| { assert path[e] == rest[0]; }
    assert path[p + 1] in path[p + 1..e];
    NextSlashIs(path, p + 1, e);
    assert SkipSlashes(path, p) == p + 1;
  }

  /** Into the child: what is left of the path, and where the child's body is. */
  lemma LookupInner(d: Ctx, m: Forest, o: int)
    requires d.CBody? && WfCtx(d)
    ensures BodyAt(o, d.name, d.pad) + |Pre(d.inner)| == o + |Pre(d)|
    ensures Plug(d, m) == Node(d.name, d.pad, Plug(d.inner, m), d.rest)
  {
    hide EncTok;
  }

  lemma PathEnd(s: bytes, path: bytes, p: nat, off: int)
    requires p <= |path| && path[p..] == []
    ensures PathFrom(s, path, p, off) == off
  {
  }

  /** Looking the names below a node up, one after the other, leads to the node they were taken from if and
      only if each of them is the first of its siblings that answers to its name. */
  lemma {:induction false} LookupBelow(s: bytes, path: bytes, p: nat, off: int, name: bytes, pad: bytes, c: Ctx,
                                       m: Forest)
    requires m.Node? && NodeIn(s, off, name, pad, Plug(c, m))
    requires forall x | x in Below(c, m.name) :: Component(x)
    requires p <= |path| && path[p..] == Rendered(Below(c, m.name))
    ensures WfCtx(c)
    ensures PathFrom(s, path, p, off) == BodyAt(off, name, pad) + |Pre(c)| <==> FirstAlong(c, m.name)
    decreases |Around(c)|
  {
    hide FindSub, NodeIn, Pre, EncTok, NameMatches, PathFrom, SubCtx, Component, Level, Deeper, Extent;
    var k, d := Level(c), Deeper(c);
    var names := Below(c, m.name);
    var body := Plug(c, m);
    WayDown(c, m);
    NodeInWf(s, off, name, pad, body);
    WfPlug(c, m);
    WayDownPre(c);
    var child := Plug(d, m);
    WfPlug(d, m);
    NameMatchesSelf(names[0]);
    SubCtxFlat(k, child, names[0]);
    SubnodeOffsetIs(s, off, name, pad, body, names[0]);
    assert names[0] in names;
    OneComponent(s, path, p, off, names[0], Rendered(names[1..]));
    SubnodeIn(s, off, name, pad, body, k, child);
    var o := BodyAt(off, name, pad) + |Pre(k)|;
    var p' := p + 1 + |names[0]|;
    if !FirstHere(k, names[0]) {
      var g := SubTail(body, names[0]);
      var k' := SubCtx(body, names[0]).value;
      SubnodeIn(s, off, name, pad, body, k', g);
      LookupStays(s, path, p', BodyAt(off, name, pad) + |Pre(k')|, g.name, g.pad, g.body);
      ExtentIs(BodyAt(off, name, pad) + |Pre(k')|, g);
    } else if d.CBody? {
      LookupInner(d, m, o);
      LookupBelow(s, path, p', o, d.name, d.pad, d.inner, m);
    } else {
      PathEnd(s, path, p', o);
    }
  }
}
