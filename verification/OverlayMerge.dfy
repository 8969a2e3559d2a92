/** `overlay_merge`: the fragments of an overlay, merged one after the other into the nodes they are meant for. */
module OverlayMerge {
  import opened Bytes
  import opened Format
  import opened Components
  import opened Tree
  import opened Blob
  import opened Walk
  import opened TreeOps
  import opened Splicing
  import opened Editor
  import opened Merging
  import opened MergeLaws
  import opened PhandleLaws
  import opened Paths
  import opened Targets
  import M = MaxPhandle
  import O = Overlay
  import R = Reader

  // "__overlay__", "target", "target-path"
  const OVERLAY: bytes := [95, 95, 111, 118, 101, 114, 108, 97, 121, 95, 95]
  const TARGET: bytes := [116, 97, 114, 103, 101, 116]
  const TARGET_PATH: bytes := [116, 97, 114, 103, 101, 116, 45, 112, 97, 116, 104]

  // ---------------------------------------------------------------- what a fragment means

  /** `overlay_get_target_phandle`: 0 for none, all ones for a malformed one. */
  function TargetPhandle(frag: Tree): (p: int)
    ensures 0 <= p <= NO_PHANDLE
  {
    match GetAttr(frag, TARGET)
    case None => 0
    case Some(v) => if |v| == 4 then Unword(v) else NO_PHANDLE
  }

  /** Where a fragment goes, in the tree `a`. */
  datatype Target = ByPhandle(p: int) | ByPath(names: seq<bytes>) | Missing(err: int)

  /** `fdt_overlay_target_offset`, on trees. */
  function TargetOf(a: Tree, frag: Tree): (t: Target)
    requires a.Sub?
    ensures t.Missing? ==> t.err < 0
    ensures t.ByPhandle? ==> FindPhandle(a, t.p).Some?
    ensures t.ByPath? ==> NodeAtPath(a.body, t.names).Some?
  {
    var p := TargetPhandle(frag);
    if p == NO_PHANDLE then Missing(-ERR_BADPHANDLE)
    else if p != 0 then if FindPhandle(a, p).Some? then ByPhandle(p) else Missing(-ERR_NOTFOUND)
    else
      match GetAttr(frag, TARGET_PATH)
      case None => Missing(-ERR_BADOVERLAY)
      case Some(v) =>
        var path := v[..NulAt(v, 0)];
        if path == [] then Missing(-ERR_BADPATH)
        else if NodeAtPath(a.body, Parts(path, 0)).Some? then ByPath(Parts(path, 0)) else Missing(-ERR_NOTFOUND)
  }

  /** The body of the target. */
  function BodyOf(a: Tree, t: Target): (x: Tree)
    requires a.Sub? && (t.ByPhandle? ==> FindPhandle(a, t.p).Some?) && (t.ByPath? ==> NodeAtPath(a.body, t.names).Some?)
  {
    match t
    case ByPhandle(p) => FindPhandle(a, p).value
    case ByPath(names) => NodeAtPath(a.body, names).value
    case Missing(_) => Done
  }

  /** The tree with another body there. */
  function PutBody(a: Tree, t: Target, x: Tree): (r: Tree)
    requires a.Sub? && (t.ByPath? ==> NodeAtPath(a.body, t.names).Some?)
    ensures r.Sub?
  {
    match t
    case ByPhandle(p) => PutPhandle(a, p, x)
    case ByPath(names) => Sub(a.name, PutAtPath(a.body, names, x), a.rest)
    case Missing(_) => a
  }

  datatype Outcome = Merged(a: Tree) | Refused(err: int)

  /** One fragment: nothing without an `__overlay__` node, otherwise the merge at its target. */
  function MergeFragment(a: Tree, frag: Tree): (r: Outcome)
    requires a.Sub?
    ensures r.Merged? ==> r.a.Sub?
  {
    match FindSubT(frag, OVERLAY)
    case None => Merged(a)
    case Some(ov) =>
      var t := TargetOf(a, frag);
      if t.Missing? then Refused(t.err) else Merged(PutBody(a, t, Merge(BodyOf(a, t), ov)))
  }

  /** All fragments, each into the tree that the earlier ones have left. */
  function MergeFragments(a: Tree, frags: seq<(bytes, Tree)>): (r: Outcome)
    requires a.Sub?
    ensures r.Merged? ==> r.a.Sub?
    decreases |frags|
  {
    if frags == [] then Merged(a) else
    match MergeFragment(a, frags[0].1)
    case Refused(e) => Refused(e)
    case Merged(x) => MergeFragments(x, frags[1..])
  }

  /** The bytes that merging a fragment takes at most. */
  function FragmentRoom(frag: Tree): (n: nat)
  {
    match FindSubT(frag, OVERLAY)
    case None => 0
    case Some(ov) => MergeRoom(ov)
  }

  function FragmentsRoom(frags: seq<(bytes, Tree)>): (n: nat)
  {
    if frags == [] then 0 else FragmentRoom(frags[0].1) + FragmentsRoom(frags[1..])
  }

  /** The result `err` of a merge that takes at most `room` bytes and comes to `r` on trees: besides what `r` says it
      fails for want of space only, and not when that much is free. */
  predicate Ends(b: bytes, d: bytes, room: nat, r: Outcome, err: int)
  {
    match r
    case Merged(_) => O.Roomed(b, d, room, err)
    case Refused(e) =>
      && HEADER_SIZE <= |b| && (err == e || err == -ERR_NOSPACE)
      && (DataSize(b) + room <= Field(b, TOTALSIZE) ==> err == e)
  }

  /** A target path is a C string that starts at the root. */
  predicate Addressed(frag: Tree)
  {
    FindSubT(frag, OVERLAY).Some? && TargetPhandle(frag) == 0 && GetAttr(frag, TARGET_PATH).Some? ==>
      var v := GetAttr(frag, TARGET_PATH).value; NulAt(v, 0) < |v| && (v[0] == 0 || v[0] == SLASH)
  }

  predicate AllAddressed(frags: seq<(bytes, Tree)>) { forall i | 0 <= i < |frags| :: Addressed(frags[i].1) }

  // ---------------------------------------------------------------- reading a fragment

  /** `fdt_getprop`, for the overlay node at `node`. */
  method GetValue(fdto: array<byte>, node: int, want: bytes, ghost name: bytes, ghost pad: bytes, ghost body: Forest)
    returns (v: Option<bytes>)
    requires O.OvAt(fdto[..], node, name, pad, body) && R.IsInt(node)
    ensures Sane(fdto[..]) && Named(body, Strings(fdto[..])) && v == GetAttr(Abs(body, Strings(fdto[..])), want)
  {
    hide Field, Struct, Strings, Unword, GetProperty, Abs, NameAt, GetAttr, NodeIn;
    var r := R.GetProperty(fdto, node, want);
    ValueIs(fdto[..], node, name, pad, body, want);
    if r < 0 {
      return None;
    }
    var len := R.StructWord(fdto, r + 4);
    var p := Field(fdto[..], OFF_STRUCT) + r + 12;
    StructPart(fdto[..], r + 12, len);
    return Some(fdto[p..p + len]);
  }

  lemma StructPart(b: bytes, off: int, len: int)
    requires Sane(b) && 0 <= off && 0 <= len && off + len <= |Struct(b)|
    ensures var p := Field(b, OFF_STRUCT) + off; 0 <= p && p + len <= |b| && b[p..p + len] == Struct(b)[off..off + len]
  {
    hide Field;
    SliceOfSlice(b, Field(b, OFF_STRUCT), |Struct(b)|, off, off + len);
  }

  lemma ValueIs(b: bytes, off: int, name: bytes, pad: bytes, body: Forest, want: bytes)
    requires O.OvAt(b, off, name, pad, body)
    ensures Sane(b) && Named(body, Strings(b))
    ensures var r := GetProperty(Struct(b), Strings(b), off, want);
      match GetAttr(Abs(body, Strings(b)), want)
      case None => r < 0
      case Some(v) => 0 <= r && r + 12 + |v| <= |Struct(b)| && PropLen(Struct(b), r) == |v|
                      && Struct(b)[r + 12..r + 12 + |v|] == v
  {
    hide Field, Struct, Strings, Unword, Word, NameAt, Pre, EncTok, Aligned, At, TagAt, Enc, GetProperty, PropLen;
    var s, t := Struct(b), Strings(b);
    GetPropertyIs(s, t, off, name, pad, body, want);
    PropCtxAbs(body, t, want);
    if PropCtx(body, t, want).Some? {
      M.PropInside(s, BodyAt(off, name, pad), body, t, want);
    }
  }

  /** A subnode of an overlay node. */
  lemma OvSub(b: bytes, off: int, name: bytes, pad: bytes, body: Forest, want: bytes) returns (m: Forest)
    requires O.OvAt(b, off, name, pad, body)
    ensures Sane(b) && Named(body, Strings(b))
    ensures var r := FindSub(Struct(b), off, 0, want);
      match FindSubT(Abs(body, Strings(b)), want)
      case None => r == -ERR_NOTFOUND
      case Some(x) => m.Node? && O.OvAt(b, r, m.name, m.pad, m.body) && 0 <= r < TWO31
                      && Named(m.body, Strings(b)) && Abs(m.body, Strings(b)) == x
  {
    hide Field, Struct, Strings, NameAt, EncTok, Aligned, At, TagAt, Pre, Enc, NodeIn, SubCtx, SubTail, FindSub,
         NameMatches;
    var s, t := Struct(b), Strings(b);
    SubnodeOffsetIs(s, off, name, pad, body, want);
    SubCtxAbs(body, t, want);
    m := Nil;
    if SubCtx(body, want).Some? {
      m := SubTail(body, want);
      SubCtxIsFlat(body, want);
      SubnodeIn(s, off, name, pad, body, SubCtx(body, want).value, m);
      NodeInSmall(s, FindSub(s, off, 0, want), m.name, m.pad, m.body);
    }
  }

  lemma NodeInSmall(s: bytes, off: int, name: bytes, pad: bytes, body: Forest)
    requires NodeIn(s, off, name, pad, body) && |s| < TWO31
    ensures 0 <= off < TWO31
  {
    hide EncTok, Aligned;
  }

  // ---------------------------------------------------------------- the target

  /** The base is the blob of the tree `a`, rooted at offset 0. */
  ghost predicate BaseIs(b: bytes, root: Forest, a: Tree)
  {
    NodeAt(b, 0, Hole, root) && Named(root, Strings(b)) && Abs(root, Strings(b)) == a && a.Sub?
  }

  /** The target has been found: its node is at `r`, and another body there is another body in the tree. */
  ghost predicate TargetAt(b: bytes, a: Tree, t: Target, r: int, c: Ctx, n: Forest)
    requires a.Sub? && (t.ByPhandle? ==> FindPhandle(a, t.p).Some?) && (t.ByPath? ==> NodeAtPath(a.body, t.names).Some?)
  {
    && FoundAt(b, r, c, n, BodyOf(a, t)) && Sane(b)
    && forall y :: PlugNode(b, c, n, y) == PutBody(a, t, y)
  }

  lemma FoundPhandle(b: bytes, root: Forest, a: Tree, p: int) returns (c: Ctx, n: Forest)
    requires BaseIs(b, root, a)
    ensures Sane(b)
    ensures var r := PhandleFrom(Struct(b), Strings(b), 0, p);
      if FindPhandle(a, p).Some? then TargetAt(b, a, ByPhandle(p), r, c, n) else r == -ERR_NOTFOUND
  {
    hide Field, Struct, Strings, NameAt, PhandleFrom, NodeAt, PhandleCtx, PhandleTail, PutPhandle, FindPhandle, AbsC,
         PlugT;
    PhandleNodeAt(b, root, p);
    PhandleAbs(root, Strings(b), p, Done);
    c, n := Hole, root;
    if FindPhandle(a, p).Some? {
      c, n := PhandleCtx(root, Strings(b), p).value, PhandleTail(root, Strings(b), p);
      NodeFacts(b, PhandleFrom(Struct(b), Strings(b), 0, p), c, n);
      forall y ensures PlugNode(b, c, n, y) == PutBody(a, ByPhandle(p), y) {
        PhandleAbs(root, Strings(b), p, y);
      }
    }
  }

  lemma FoundPath(b: bytes, root: Forest, a: Tree, path: bytes) returns (c: Ctx, n: Forest)
    requires BaseIs(b, root, a)
    ensures Sane(b)
    ensures var r := PathFrom(Struct(b), path, 0, 0); var names := Parts(path, 0);
      if NodeAtPath(a.body, names).Some? then TargetAt(b, a, ByPath(names), r, c, n) else r == -ERR_NOTFOUND
  {
    hide Field, Struct, Strings, NameAt, PathFrom, NodeAt, Parts, NodeAtPath, PutAtPath;
    NodeFacts(b, 0, Hole, root);
    c, n := PathNodeAt(b, path, 0, 0, Hole, root);
    if NodeAtPath(a.body, Parts(path, 0)).Some? {
      forall y ensures PlugNode(b, c, n, y) == PutBody(a, ByPath(Parts(path, 0)), y) {
        assert PlugNode(b, c, n, y) == PlugNode(b, Hole, root, PutAtPath(a.body, Parts(path, 0), y));
      }
    }
  }

  /** `fdt_overlay_target_offset`. */
  method TargetOffset(fdt: array<byte>, fdto: array<byte>, fragment: int, ghost root: Forest, ghost a: Tree,
                      ghost name: bytes, ghost pad: bytes, ghost body: Forest)
    returns (r: int, ghost c: Ctx, ghost n: Forest)
    requires BaseIs(fdt[..], root, a) && O.OvAt(fdto[..], fragment, name, pad, body) && R.IsInt(fragment)
    requires Named(body, Strings(fdto[..])) && FindSubT(Abs(body, Strings(fdto[..])), OVERLAY).Some?
    requires Addressed(Abs(body, Strings(fdto[..])))
    ensures var t := TargetOf(a, Abs(body, Strings(fdto[..])));
      if t.Missing? then r == t.err else TargetAt(fdt[..], a, t, r, c, n)
  {
    hide Field, Struct, Strings, NameAt, NodeIn, NodeAt, Abs, Named, PhandleFrom, PathFrom, Unword, FindSubT, GetAttr,
         TargetAt, FindPhandle, NodeAtPath, Parts;
    c, n := Hole, root;
    BaseLive(fdt[..], root, a);
    var val := GetValue(fdto, fragment, TARGET, name, pad, body);
    var phandle := 0;
    if val.Some? {
      phandle := if |val.value| != 4 then NO_PHANDLE else Unword(val.value);
    }
    if phandle == NO_PHANDLE {
      return -ERR_BADPHANDLE, c, n;
    }
    if phandle != 0 {
      c, n := FoundPhandle(fdt[..], root, a, phandle);
      r := NodeByPhandle(fdt, phandle);
      return;
    }
    var path := GetValue(fdto, fragment, TARGET_PATH, name, pad, body);
    if path.None? {
      return -ERR_BADOVERLAY, c, n;
    }
    var cpath := path.value[..NulAt(path.value, 0)];
    c, n := FoundPath(fdt[..], root, a, cpath);
    r := PathOffset(fdt, cpath);
  }

  lemma BaseLive(b: bytes, root: Forest, a: Tree)
    requires BaseIs(b, root, a)
    ensures Live(b) && Sane(b)
  {
    hide Field, Struct, Strings, NameAt, Abs;
    O.LiveOf(b, 0, Hole, root);
  }

  // ---------------------------------------------------------------- one fragment

  /** Everything around the tree is as it was: the reserve map, the header words, the names that were there. */
  ghost predicate Around(b: bytes, d: bytes)
    requires Editable(b)
  {
    && Editable(d) && |d| == |b| && Strings(b) <= Strings(d)
    && Field(d, TOTALSIZE) == Field(b, TOTALSIZE) && Field(d, OFF_RSVMAP) == Field(b, OFF_RSVMAP)
    && Field(d, OFF_STRUCT) == Field(b, OFF_STRUCT) && Field(d, BOOT_CPUID) == Field(b, BOOT_CPUID)
    && (forall i | HEADER_SIZE <= i < Field(b, OFF_STRUCT) :: d[i] == b[i])
  }

  lemma AroundThen(b: bytes, d: bytes, e: bytes)
    requires Editable(b) && Around(b, d) && Around(d, e)
    ensures Around(b, e)
  {
    hide Field, Strings;
  }

  /** The base after an edit of one of its nodes. */
  lemma BaseAfter(b: bytes, d: bytes, root: Forest, a: Tree, off: int, c: Ctx, n: Forest, g: Forest)
    returns (root': Forest)
    requires BaseIs(b, root, a) && NodeAt(b, off, c, n) && R.IsInt(off) && Kept(b, d, off, c, n, g)
    ensures Editable(b) && Around(b, d) && Sane(d)
    ensures TreeOf(d).Some? && BaseIs(d, root', TreeOf(d).value)
  {
    hide Field, Struct, Strings, NameAt, Pre, Post, Enc, ForestOf;
    HoldsParses(Struct(b), root);
    HoldsParses(Struct(b), Plug(c, n));
    root' := Plug(c, g);
    HoldsParses(Struct(d), root');
    WfPlug(c, g);
  }

  /** The merged node, seen in the whole tree. */
  lemma MergedTree(b: bytes, d: bytes, a: Tree, t: Target, off: int, c: Ctx, n: Forest, g: Forest, x: Tree)
    requires a.Sub? && (t.ByPhandle? ==> FindPhandle(a, t.p).Some?) && (t.ByPath? ==> NodeAtPath(a.body, t.names).Some?)
    requires TargetAt(b, a, t, off, c, n) && NodeAt(b, off, c, n) && BodyIs(b, d, off, c, n, g, x) && Sane(d)
    ensures TreeOf(d) == Some(PutBody(a, t, x))
  {
    hide Field, Struct, Strings, NameAt, NodeAt, AbsC, PlugT, Abs, Named, TreeOf, PutBody, BodyOf;
    BodyIsTree(b, d, off, c, n, g, x);
    NodeFacts(b, off, c, n);
    assert PlugNode(b, c, n, x) == PutBody(a, t, x);
  }

  lemma OvLive(b: bytes, off: int, name: bytes, pad: bytes, body: Forest)
    requires O.OvAt(b, off, name, pad, body)
    ensures Live(b) && Sane(b) && Named(body, Strings(b))
  {
  }

  lemma AroundSelf(b: bytes, root: Forest, a: Tree)
    requires BaseIs(b, root, a)
    ensures Editable(b) && Around(b, b)
  {
    hide Field, Struct, Strings, NameAt, Abs;
  }

  lemma TargetNode(b: bytes, a: Tree, t: Target, r: int, c: Ctx, n: Forest)
    requires a.Sub? && (t.ByPhandle? ==> FindPhandle(a, t.p).Some?) && (t.ByPath? ==> NodeAtPath(a.body, t.names).Some?)
    requires TargetAt(b, a, t, r, c, n)
    ensures NodeAt(b, r, c, n) && 0 <= r < TWO31 && Sane(b) && Named(n.body, Strings(b))
    ensures Abs(n.body, Strings(b)) == BodyOf(a, t)
  {
    hide NodeAt, Abs, Named, BodyOf, PutBody, PlugNode;
  }

  /** One round of `overlay_merge`. */
  method ApplyFragment(fdt: array<byte>, fdto: array<byte>, fragment: int, ghost root: Forest, ghost a: Tree,
                       ghost name: bytes, ghost pad: bytes, ghost body: Forest)
    returns (err: int, ghost root': Forest, ghost a': Tree)
    requires fdt != fdto && BaseIs(fdt[..], root, a) && O.OvAt(fdto[..], fragment, name, pad, body) && R.IsInt(fragment)
    requires Named(body, Strings(fdto[..])) && Addressed(Abs(body, Strings(fdto[..])))
    modifies fdt
    ensures BaseIs(fdt[..], root', a') && Editable(old(fdt[..])) && Around(old(fdt[..]), fdt[..])
    ensures match MergeFragment(a, Abs(body, Strings(fdto[..])))
      case Merged(x) => (err == 0 ==> a' == x)
        && O.Roomed(old(fdt[..]), fdt[..], FragmentRoom(Abs(body, Strings(fdto[..]))), err)
      case Refused(e) => err == e < 0 && fdt[..] == old(fdt[..])
  {
    hide O.Roomed, MergeRoom, Field, Struct, Strings, NameAt, NodeIn, NodeAt, Abs, Named, FindSubT, BaseIs, TargetAt,
         FindPhandle, NodeAtPath, TargetOf, PutBody, BodyOf, Merge, Around, Kept, BodyIs, TreeOf, FindSub, Addressed;
    ghost var b := fdt[..];
    root', a' := root, a;
    OvLive(fdto[..], fragment, name, pad, body);
    AroundSelf(b, root, a);
    ghost var frag := Abs(body, Strings(fdto[..]));
    ghost var m := OvSub(fdto[..], fragment, name, pad, body, OVERLAY);
    var overlay := R.SubnodeOffset(fdto, fragment, OVERLAY);
    if overlay == -ERR_NOTFOUND {
      NothingDone(b);
      return 0, root', a';
    }
    if overlay < 0 {
      return overlay, root', a';
    }
    BaseTree(b, root, a);
    ghost var t := TargetOf(a, frag);
    var target;
    ghost var c, n;
    target, c, n := TargetOffset(fdt, fdto, fragment, root, a, name, pad, body);
    if !t.Missing? { TargetNode(b, a, t, target, c, n); }
    if target < 0 {
      return target, root', a';
    }
    ghost var g;
    err, g := O.ApplyNode(fdt, target, fdto, overlay, c, n, m.name, m.pad, m.body);
    root' := BaseAfter(b, fdt[..], root, a, target, c, n, g);
    a' := TreeOf(fdt[..]).value;
    if err == 0 {
      MergedTree(b, fdt[..], a, t, target, c, n, g, Merge(BodyOf(a, t), Abs(m.body, Strings(fdto[..]))));
    }
  }

  lemma NothingDone(b: bytes)
    requires Editable(b)
    ensures O.Roomed(b, b, 0, 0)
  {
    hide Field;
  }

  lemma BaseTree(b: bytes, root: Forest, a: Tree)
    requires BaseIs(b, root, a)
    ensures a.Sub?
  {
    hide NodeAt, Abs, Named, Strings;
  }

  // ---------------------------------------------------------------- all fragments

  /** The subnodes of a body are those from its first node on. */
  lemma {:induction false} SubsFrom(f: Forest, t: bytes)
    requires Named(f, t)
    ensures NodeHead(f).Some? ==> Named(NodeFrom(f), t)
    ensures Subs(Abs(f, t)) == if NodeHead(f).Some? then Subs(Abs(NodeFrom(f), t)) else []
  {
    hide NameAt;
    match f
    case Nil =>
    case Item(_, rest) => SubsFrom(rest, t);
    case Node(_, _, _, _) =>
  }

  /** The fragments still to come start with the one at `off`. */
  ghost predicate Ahead(b: bytes, off: int, rem: Forest, bound: nat, frags: seq<(bytes, Tree)>)
  {
    && Sane(b)
    && if off < 0 then frags == []
       else O.OvRest(b, off, rem, bound) && Named(rem, Strings(b)) && Subs(Abs(rem, Strings(b))) == frags
  }

  lemma FragFirst(b: bytes, node: int, name: bytes, pad: bytes, body: Forest) returns (rem: Forest)
    requires O.OvAt(b, node, name, pad, body)
    ensures Sane(b) && Named(body, Strings(b))
    ensures Ahead(b, FirstSubnode(Struct(b), node), rem, FSize(body), Subs(Abs(body, Strings(b))))
  {
    hide Field, Struct, Strings, EncTok, TagAt, NameAt, At, Aligned, Pre, Subs, Abs;
    var s := Struct(b);
    NodeInIs(s, node, name, pad, body);
    FirstSubnodeIs(s, node, name, pad, body);
    NextNodeIs(s, BodyAt(node, name, pad), body, Strings(b));
    SubsFrom(body, Strings(b));
    rem := NodeFrom(body);
  }

  lemma FragNext(b: bytes, off: int, rem: Forest, bound: nat, frags: seq<(bytes, Tree)>) returns (next: Forest)
    requires Ahead(b, off, rem, bound, frags) && off >= 0
    ensures frags != [] && rem.Node? && O.OvAt(b, off, rem.name, rem.pad, rem.body) && Sane(b)
    ensures Named(rem.body, Strings(b)) && frags[0].1 == Abs(rem.body, Strings(b))
    ensures var r := NextSub(Struct(b), off, 1);
      Ahead(b, r, next, bound, frags[1..]) && (r >= 0 ==> FSize(next) < FSize(rem))
  {
    hide Field, Struct, Strings, EncTok, TagAt, NameAt, At, Aligned, Pre, NextSub;
    var s := Struct(b);
    O.OvRestIs(b, off, rem, bound);
    InsideNode(s, off, rem.name, rem.pad, rem.body, rem.rest);
    NextSubnodeIs(s, off, rem.name, rem.pad, rem.body, rem.rest);
    NextNodeIs(s, BodyAt(off, rem.name, rem.pad) + |Enc(rem.body)| + 4, rem.rest, Strings(b));
    SubsFrom(rem.rest, Strings(b));
    next := NodeFrom(rem.rest);
    assert frags == [(rem.name, Abs(rem.body, Strings(b)))] + Subs(Abs(rem.rest, Strings(b)));
  }

  lemma EndsStep(b: bytes, d: bytes, e: bytes, room: nat, a: Tree, frags: seq<(bytes, Tree)>, one: Outcome, err: int)
    requires a.Sub? && frags != [] && one == MergeFragment(a, frags[0].1) && Editable(b) && Editable(d) && Editable(e)
    requires O.RoomLeft(b, d, room, FragmentsRoom(frags)) && Field(e, TOTALSIZE) == Field(d, TOTALSIZE)
    requires match one
      case Merged(_) => O.Roomed(d, e, FragmentRoom(frags[0].1), err)
      case Refused(x) => err == x < 0 && e == d
    ensures err != 0 ==> Ends(b, e, room, MergeFragments(a, frags), err)
    ensures err == 0 ==> one.Merged? && O.RoomLeft(b, e, room, FragmentsRoom(frags[1..]))
  {
    hide Field, MergeFragment, FragmentRoom;
    if one.Merged? {
      O.RoomStep(b, d, e, room, FragmentRoom(frags[0].1), FragmentsRoom(frags[1..]), err);
    }
  }

  lemma EndsHere(b: bytes, d: bytes, room: nat, a: Tree)
    requires a.Sub? && O.RoomLeft(b, d, room, FragmentsRoom([]))
    ensures Ends(b, d, room, MergeFragments(a, []), 0)
  {
    hide Field;
    O.RoomLess(b, d, room, 0);
  }

  lemma RoomStarts(b: bytes, root: Forest, a: Tree, room: nat)
    requires BaseIs(b, root, a)
    ensures O.RoomLeft(b, b, room, room)
  {
    hide Field, Struct, Strings, NodeAt, Abs, Named;
    O.RoomStart(b, 0, Hole, root, room);
  }

  lemma AroundTotal(b: bytes, d: bytes)
    requires Editable(b) && Around(b, d)
    ensures Editable(d) && |d| == |b| && Field(d, TOTALSIZE) == Field(b, TOTALSIZE)
  {
  }

  /** `overlay_merge`: on success the base reads as the tree into which all fragments have been merged in order; success
      or not, it is well formed, and nothing around the tree has changed.  It fails for want of space, which it does
      not if as many bytes are free as the fragments can take, or with the error of the first fragment whose target is
      missing. */
  method MergeOverlay(fdt: array<byte>, fdto: array<byte>, ghost root: Forest, ghost a: Tree, ghost name: bytes,
                      ghost pad: bytes, ghost body: Forest)
    returns (err: int, ghost root': Forest, ghost a': Tree)
    requires fdt != fdto && BaseIs(fdt[..], root, a) && O.OvAt(fdto[..], 0, name, pad, body)
    requires Named(body, Strings(fdto[..])) && AllAddressed(Subs(Abs(body, Strings(fdto[..]))))
    modifies fdt
    ensures BaseIs(fdt[..], root', a') && Editable(old(fdt[..])) && Around(old(fdt[..]), fdt[..])
    ensures match MergeFragments(a, Subs(Abs(body, Strings(fdto[..]))))
      case Merged(x) => err == 0 ==> a' == x
      case Refused(e) => err != 0
    ensures var all := Subs(Abs(body, Strings(fdto[..])));
      Ends(old(fdt[..]), fdt[..], FragmentsRoom(all), MergeFragments(a, all), err)
  {
    hide O.Roomed, O.RoomLeft, Ends, FragmentRoom, Editable, Field, Struct, Strings, Abs, Named, BaseIs, MergeFragment,
         Around, Subs, FirstSubnode, NextSub, Ahead, NodeIn, Addressed, NodeAt;
    ghost var b := fdt[..];
    ghost var all := Subs(Abs(body, Strings(fdto[..])));
    root', a' := root, a;
    BaseTree(b, root, a);
    AroundSelf(b, root, a);
    OvLive(fdto[..], 0, name, pad, body);
    ghost var frags := all;
    ghost var room := FragmentsRoom(all);
    RoomStarts(b, root, a, room);
    ghost var rem := FragFirst(fdto[..], 0, name, pad, body);
    var fragment := R.FirstSubnode(fdto, 0);
    while fragment >= 0
      invariant R.IsInt(fragment) && Ahead(fdto[..], fragment, rem, FSize(body), frags) && AllAddressed(frags)
      invariant BaseIs(fdt[..], root', a') && a'.Sub? && Editable(b) && Around(b, fdt[..])
      invariant MergeFragments(a, all) == MergeFragments(a', frags)
      invariant O.RoomLeft(b, fdt[..], room, FragmentsRoom(frags))
      decreases if fragment < 0 then 0 else 1 + FSize(rem)
    {
      ghost var d := fdt[..];
      ghost var next := FragNext(fdto[..], fragment, rem, FSize(body), frags);
      assert Addressed(frags[0].1);
      ghost var before := a';
      err, root', a' := ApplyFragment(fdt, fdto, fragment, root', a', rem.name, rem.pad, rem.body);
      AroundThen(b, d, fdt[..]);
      AroundTotal(d, fdt[..]);
      EndsStep(b, d, fdt[..], room, before, frags, MergeFragment(before, frags[0].1), err);
      if err != 0 {
        return;
      }
      BaseTree(fdt[..], root', a');
      fragment := R.NextSubnode(fdto, fragment);
      rem, frags := next, frags[1..];
    }
    AheadEnd(fdto[..], fragment, rem, FSize(body), frags);
    EndsHere(b, fdt[..], room, a');
    err := 0;
  }

  lemma AheadEnd(b: bytes, off: int, rem: Forest, bound: nat, frags: seq<(bytes, Tree)>)
    requires Ahead(b, off, rem, bound, frags) && off < 0
    ensures frags == []
  {
  }
}
