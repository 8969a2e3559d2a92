/** Renumbering the local references of an overlay blob (`overlay_update_local_references`), in place: the fixups that
    say where the references are lie in the same blob. */
module LocalFixups {
  import opened Bytes
  import opened Format
  import opened Tree
  import opened Blob
  import opened Walk
  import opened TreeOps
  import opened Splicing
  import opened Editor
  import opened NodeOps
  import opened Merging
  import opened MergeLaws
  import opened Inplace
  import opened Siblings
  import opened FixupLaws
  import opened FixupStores
  import opened FixupSites
  import opened Components
  import opened PhandleLaws
  import opened Renumbering
  import O = Overlay
  import P = Paths
  import R = Reader

  /** `d` is `b` with the body of the node `n` reading as `a` and nothing moved; the region of the fixups is
      untouched. */
  ghost predicate Progress(b: bytes, d: bytes, node: int, c: Ctx, n: Forest, g: Forest, a: Tree, lo: int, hi: int)
  {
    NodeAt(b, node, c, n) && Stored(b, d, node, c, n, g, a) && SameZone(Struct(b), Struct(d), lo, hi)
  }

  lemma ProgressIs(b: bytes, d: bytes, node: int, c: Ctx, n: Forest, g: Forest, a: Tree, lo: int, hi: int)
    requires Progress(b, d, node, c, n, g, a, lo, hi)
    ensures NodeAt(b, node, c, n) && NodeAt(d, node, c, g) && Stored(b, d, node, c, n, g, a) && g.Node?
    ensures Sane(b) && Sane(d) && Strings(d) == Strings(b) && Named(g.body, Strings(d)) && Abs(g.body, Strings(d)) == a
    ensures Editable(b) && Editable(d) && SameZone(Struct(b), Struct(d), lo, hi)
    ensures Wf(n) && Wf(g) && g.name == n.name && g.pad == n.pad && n.Node? && SameShape(n.body, g.body)
  {
    hide Field, Struct, Strings, Holds, Pre, Enc, Abs, Named, SameZone, SameShape;
  }

  lemma ProgressStart(b: bytes, node: int, c: Ctx, n: Forest, lo: int, hi: int)
    requires NodeAt(b, node, c, n) && 0 <= lo <= hi <= |Struct(b)|
    ensures Named(n.body, Strings(b)) && Progress(b, b, node, c, n, n, Abs(n.body, Strings(b)), lo, hi)
  {
    hide Field, Struct, Strings, NodeAt, Stored, Abs, Named;
    StoredSelf(b, node, c, n);
  }

  lemma ProgressTrans(b: bytes, d: bytes, e: bytes, node: int, c: Ctx, n: Forest, g: Forest, h: Forest, a: Tree,
                      a': Tree, lo: int, hi: int)
    requires Progress(b, d, node, c, n, g, a, lo, hi) && Progress(d, e, node, c, g, h, a', lo, hi)
    ensures Progress(b, e, node, c, n, h, a', lo, hi)
  {
    hide Field, Struct, Strings, NodeAt, Stored, SameZone;
    ProgressIs(b, d, node, c, n, g, a, lo, hi);
    ProgressIs(d, e, node, c, g, h, a', lo, hi);
    StoredTrans(b, d, e, node, c, n, g, h, a, a');
    ZoneTrans(Struct(b), Struct(d), Struct(e), lo, hi);
  }

  // ---------------------------------------------------------------- the cells of one property

  /** What the loop over the listed cells finds in the blob. */
  lemma CellRead(b: bytes, d: bytes, node: int, c: Ctx, n: Forest, g: Forest, a: Tree, name: bytes, w: bytes, lo: int,
                 hi: int)
    requires Progress(b, d, node, c, n, g, ReplaceAttr(a, name, w), lo, hi) && GetAttr(a, name).Some?
    ensures Sane(b) && Sane(d) && Strings(d) == Strings(b) && NodeAt(d, node, c, g) && g.Node?
    ensures Named(g.body, Strings(d))
    ensures Abs(g.body, Strings(d)) == ReplaceAttr(a, name, w) && GetAttr(ReplaceAttr(a, name, w), name) == Some(w)
    ensures var r := GetProperty(Struct(d), Strings(d), node, name);
      && r == GetProperty(Struct(b), Strings(b), node, name) && 0 <= r && r + 12 + |w| <= |Struct(d)|
      && Struct(d)[r + 12..r + 12 + |w|] == w
  {
    hide Field, Struct, Strings, NodeAt, Stored, Abs, Named, SameZone, GetProperty, PropLen;
    ProgressIs(b, d, node, c, n, g, ReplaceAttr(a, name, w), lo, hi);
    ReplaceGet(a, name, w, name);
    SameProperty(b, d, node, c, n, g, ReplaceAttr(a, name, w), name);
    PropRead(d, node, c, g, name);
  }

  lemma {:induction false} ReplaceTwice(a: Tree, name: bytes, v: bytes, w: bytes)
    ensures ReplaceAttr(ReplaceAttr(a, name, v), name, w) == ReplaceAttr(a, name, w)
  {
    if a.Attr? && a.name != name { ReplaceTwice(a.rest, name, v, w); }
  }

  lemma CellStored(b: bytes, d: bytes, e: bytes, node: int, c: Ctx, n: Forest, g: Forest, h: Forest, a: Tree,
                   name: bytes, w: bytes, w': bytes, p: nat, x: bytes, lo: int, hi: int)
    requires Progress(b, d, node, c, n, g, ReplaceAttr(a, name, w), lo, hi) && NodeAt(d, node, c, g)
    requires Stored(d, e, node, c, g, h, ReplaceAttr(ReplaceAttr(a, name, w), name, w')) && Sane(d) && Sane(e)
    requires p + |x| <= |Struct(d)| && Struct(e) == Put(Struct(d), p, x) && (p + |x| <= lo || hi <= p)
    ensures Progress(b, e, node, c, n, h, ReplaceAttr(a, name, w'), lo, hi)
  {
    hide Field, Struct, Strings, NodeAt, Stored, Put;
    ReplaceTwice(a, name, w, w');
    ZonePut(Struct(d), p, x, lo, hi);
    ProgressTrans(b, d, e, node, c, n, g, h, ReplaceAttr(a, name, w), ReplaceAttr(a, name, w'), lo, hi);
  }

  lemma CellWord(s: bytes, p: int, w: bytes, off: nat)
    requires 0 <= p && p + |w| <= |s| && s[p..p + |w|] == w && off + 4 <= |w|
    ensures s[p + off..p + off + 4] == w[off..off + 4]
  {
    SliceOfSlice(s, p, |w|, off, off + 4);
  }

  lemma ListedWord(s: bytes, s': bytes, lo: int, hi: int, p: int, fx: bytes, i: nat)
    requires SameZone(s, s', lo, hi) && At(s, p, fx) && lo <= p && p + |fx| <= hi && 4 * i + 4 <= |fx|
    ensures p + 4 * i + 4 <= |s'| && Unword(s'[p + 4 * i..p + 4 * i + 4]) == Listed(fx, i)
  {
    hide Unword;
    ZoneAt(s, s', lo, hi, p, fx);
    SliceOfSlice(s', p, |fx|, 4 * i, 4 * i + 4);
  }

  /** The inner loop: every cell that the fixup value `fx` lists moves by `delta`. */
  method FixCells(fdto: array<byte>, fixVal: nat, count: nat, prop: nat, delta: nat, ghost node: int, ghost c: Ctx,
                  ghost n: Forest, ghost name: bytes, ghost fx: bytes, ghost lo: int, ghost hi: int)
    returns (ghost g: Forest)
    requires NodeAt(fdto[..], node, c, n) && Named(n.body, Strings(fdto[..]))
    requires GetAttr(Abs(n.body, Strings(fdto[..])), name).Some? && |fx| == 4 * count
    requires prop == GetProperty(Struct(fdto[..]), Strings(fdto[..]), node, name)
    requires lo <= fixVal && fixVal + |fx| <= hi && At(Struct(fdto[..]), fixVal, fx)
    requires 0 <= lo <= hi <= |Struct(fdto[..])|
    requires var v := GetAttr(Abs(n.body, Strings(fdto[..])), name).value;
      AllInside(|v|, fx) && (prop + 12 + |v| <= lo || hi <= prop)
    modifies fdto
    ensures var b := old(fdto[..]); var a := Abs(n.body, Strings(b));
      var moved := ReplaceAttr(a, name, MoveCells(GetAttr(a, name).value, fx, count, delta));
      Progress(b, fdto[..], node, c, n, g, moved, lo, hi)
  {
    hide Field, Struct, Strings, NodeAt, Stored, Abs, Named, SameZone, GetProperty, GetAttr, ReplaceAttr, Progress, At,
         Word, Unword, MoveCells, Put, Listed, AllInside;
    ghost var b := fdto[..];
    NodeAtWf(b, node, c, n);
    ghost var a := Abs(n.body, Strings(b));
    ghost var v := GetAttr(a, name).value;
    g := n;
    ProgressStart(b, node, c, n, lo, hi);
    ReplaceSame(a, name, v);
    NoCells(v, fx, delta);
    var i := 0;
    while i < count
      invariant i <= count
      invariant Progress(b, fdto[..], node, c, n, g, ReplaceAttr(a, name, MoveCells(v, fx, i, delta)), lo, hi)
    {
      ghost var d := fdto[..];
      ghost var w := MoveCells(v, fx, i, delta);
      CellRead(b, d, node, c, n, g, a, name, w, lo, hi);
      ProgressIs(b, d, node, c, n, g, ReplaceAttr(a, name, w), lo, hi);
      ListedWord(Struct(b), Struct(d), lo, hi, fixVal, fx, i);
      var off := R.StructWord(fdto, fixVal + 4 * i);
      ListedInside(v, fx, i);
      CellWord(Struct(d), prop + 12, w, off);
      var ref := R.StructWord(fdto, prop + 12 + off);
      ghost var h;
      h := StoreValue(fdto, prop, off, Word((ref + delta) % TWO32), node, c, g, name);
      OneMore(v, fx, i, delta);
      CellStored(b, d, fdto[..], node, c, n, g, h, a, name, w, MoveCells(v, fx, i + 1, delta), prop + 12 + off,
        Word((ref + delta) % TWO32), lo, hi);
      g := h;
      i := i + 1;
    }
  }

  lemma NoCells(v: bytes, fx: bytes, delta: nat)
    requires AllInside(|v|, fx)
    ensures MoveCells(v, fx, 0, delta) == v
  {
  }

  lemma OneMore(v: bytes, fx: bytes, i: nat, delta: nat)
    requires AllInside(|v|, fx) && 4 * i + 4 <= |fx|
    ensures Listed(fx, i) + 4 <= |v|
    ensures var w := MoveCells(v, fx, i, delta);
      MoveCells(v, fx, i + 1, delta)
        == Put(w, Listed(fx, i), Word((Unword(w[Listed(fx, i)..Listed(fx, i) + 4]) + delta) % TWO32))
  {
    hide Word, Unword, Put;
    ListedInside(v, fx, i);
  }

  // ---------------------------------------------------------------- the properties of one node

  /** The fixups not yet read: the tags from `pos` on, in the region. */
  ghost predicate Unread(b: bytes, pos: int, rem: Forest, lo: int, hi: int)
  {
    Live(b) && Inside(Struct(b), pos, rem) && Named(rem, Strings(b)) && lo <= pos && pos + |Enc(rem)| + 4 <= hi
  }

  lemma AheadStays(b: bytes, d: bytes, pos: int, rem: Forest, lo: int, hi: int)
    requires Unread(b, pos, rem, lo, hi) && Live(d) && Strings(d) == Strings(b)
    requires SameZone(Struct(b), Struct(d), lo, hi)
    ensures Unread(d, pos, rem, lo, hi)
  {
    hide Field, Struct, Strings, Inside, Named, SameZone;
    InsideWf(Struct(b), pos, rem);
    ZoneInside(Struct(b), Struct(d), lo, hi, pos, rem);
  }

  lemma {:induction false} PropExtent(f: Forest)
    requires Wf(f) && PropFrom(f).Item?
    ensures WfTok(PropFrom(f).tok) && Wf(PropFrom(f).rest)
    ensures |Enc(f)| == PropSkip(f) + |EncTok(PropFrom(f).tok)| + |Enc(PropFrom(f).rest)|
  {
    hide EncTok, Aligned;
    if !f.tok.Prop? { PropExtent(f.rest); }
  }

  /** The property at `r` of the blob, called `name`, with value `v`. */
  ghost predicate PropIs(b: bytes, r: int, name: bytes, v: bytes)
  {
    && Live(b) && CheckProp(Struct(b), r) >= 0 && r + 12 + |v| <= |Struct(b)| && At(Struct(b), r + 12, v)
    && NameAt(Strings(b), PropNameOff(Struct(b), r)) == Some(name) && PropLen(Struct(b), r) == |v|
  }

  /** The next fixup property, `name` with value `v`, and what is ahead behind it. */
  ghost predicate FixupNext(b: bytes, pos: int, rem: Forest, lo: int, hi: int, name: bytes, v: bytes, pos': int,
                            rest: Forest)
  {
    && Sane(b) && PropFrom(rem).Item? && rest == PropFrom(rem).rest && Wf(rem) && Named(rem, Strings(b))
    && Named(rest, Strings(b))
    && Abs(rem, Strings(b)) == Attr(name, v, Abs(rest, Strings(b))) && pos < pos' && Unread(b, pos', rest, lo, hi)
    && var r := NextProp(Struct(b), pos);
      && PropIs(b, r, name, v) && lo <= r + 12 && r + 12 + |v| <= hi
      && NextPropertyOffset(Struct(b), r) == NextProp(Struct(b), pos')
  }

  lemma NextFixup(b: bytes, pos: int, rem: Forest, lo: int, hi: int)
    returns (name: bytes, v: bytes, pos': int, rest: Forest)
    requires Unread(b, pos, rem, lo, hi) && NextProp(Struct(b), pos) >= 0
    ensures FixupNext(b, pos, rem, lo, hi, name, v, pos', rest)
  {
    hide Field, Struct, Strings, EncTok, TagAt, Aligned, Align4, At, NameAt, NextProp, PropNameOff, PropLen, Inside,
         CheckProp;
    InsideWf(Struct(b), pos, rem);
    NextPropIs(Struct(b), pos, rem, Strings(b));
    PropExtent(rem);
    var tok := PropFrom(rem).tok;
    rest := PropFrom(rem).rest;
    O.OvProp(b, pos, rem, tok, rest);
    name := NameAt(Strings(b), tok.nameoff).value;
    v := tok.val;
    pos' := NextProp(Struct(b), pos) + |EncTok(tok)|;
    O.CheckPropNonneg(Struct(b), NextProp(Struct(b), pos));
    ValueInTok(tok);
    AtIs(Struct(b), NextProp(Struct(b), pos) + 12, v);
  }

  /** What one round needs of it, and what it leaves. */
  lemma FixupNextIs(b: bytes, pos: int, rem: Forest, lo: int, hi: int, name: bytes, v: bytes, pos': int, rest: Forest,
                    acc: Tree, delta: nat)
    requires FixupNext(b, pos, rem, lo, hi, name, v, pos', rest)
    ensures Sane(b) && Named(rem, Strings(b)) && Named(rest, Strings(b)) && pos < pos' && Unread(b, pos', rest, lo, hi)
    ensures var r := NextProp(Struct(b), pos);
      && PropIs(b, r, name, v) && lo <= r + 12 && r + 12 + |v| <= hi
      && NextPropertyOffset(Struct(b), r) == NextProp(Struct(b), pos')
    ensures FixProps(acc, Abs(rem, Strings(b)), delta) ==
      match FixAttr(acc, name, v, delta)
      case Fixed(x) => FixProps(x, Abs(rest, Strings(b)), delta)
      case other => other
  {
    hide Struct, Strings, Unread, PropIs, FixAttr, NextProp, NextPropertyOffset, Sane;
  }

  lemma AtIs(s: bytes, p: int, x: bytes)
    requires 0 <= p && p + |x| <= |s| && s[p..p + |x|] == x
    ensures At(s, p, x)
  {
  }

  lemma NoMoreFixups(b: bytes, pos: int, rem: Forest, lo: int, hi: int)
    requires Unread(b, pos, rem, lo, hi) && NextProp(Struct(b), pos) < 0
    ensures Named(rem, Strings(b)) && !Abs(rem, Strings(b)).Attr?
  {
    hide Field, Struct, Strings, EncTok, TagAt, Aligned, Align4, At, NameAt, NextProp, Inside;
    InsideWf(Struct(b), pos, rem);
    InsideOff(Struct(b), pos, rem);
    NextPropIs(Struct(b), pos, rem, Strings(b));
  }

  lemma InsideOff(s: bytes, pos: int, f: Forest)
    requires Inside(s, pos, f)
    ensures 0 <= pos
  {
  }

  /** What `fdt_getprop_by_offset` and the reads behind it see. */
  lemma PropIsRead(b: bytes, r: int, name: bytes, v: bytes)
    requires PropIs(b, r, name, v)
    ensures Live(b) && Sane(b) && CheckProp(Struct(b), r) >= 0 && r >= 0
    ensures NameAt(Strings(b), PropNameOff(Struct(b), r)) == Some(name)
    ensures PropLen(Struct(b), r) == |v| && r + 12 + |v| <= |Struct(b)| && Struct(b)[r + 12..r + 12 + |v|] == v
    ensures At(Struct(b), r + 12, v) && |Struct(b)| < TWO31
  {
    hide Field, NameAt, PropLen;
  }

  /** One round: the cells that the fixup property at `fixupProp` lists. */
  method FixProperty(fdto: array<byte>, treeNode: int, fixupProp: int, delta: nat, ghost c: Ctx, ghost n: Forest,
                     ghost fn: bytes, ghost fv: bytes, ghost fx: Tree, ghost lo: int, ghost hi: int)
    returns (err: int, ghost g: Forest)
    requires NodeAt(fdto[..], treeNode, c, n) && R.IsInt(treeNode) && R.IsInt(fixupProp)
    requires PropIs(fdto[..], fixupProp, fn, fv) && lo <= fixupProp + 12 && fixupProp + 12 + |fv| <= hi
    requires 0 <= lo <= hi <= |Struct(fdto[..])| && Clear(n, treeNode, fx, lo, hi) && Named(n.body, Strings(fdto[..]))
    requires FixAttr(Abs(n.body, Strings(fdto[..])), fn, fv, delta) != Stray
    modifies fdto
    ensures var b := old(fdto[..]);
      match FixAttr(Abs(n.body, Strings(b)), fn, fv, delta)
      case Fixed(a) => err == 0 && Progress(b, fdto[..], treeNode, c, n, g, a, lo, hi)
      case Refused(a) => err == -ERR_BADOVERLAY && Progress(b, fdto[..], treeNode, c, n, g, a, lo, hi)
      case Stray => false
  {
    hide Field, Struct, Strings, NodeAt, Stored, Abs, Named, SameZone, GetProperty, GetAttr, ReplaceAttr, Progress, At,
         Word, Unword, MoveCells, Put, Listed, AllInside, PropIs, CheckProp, NameAt, PropLen, PropNameOff, Clear;
    ghost var b := fdto[..];
    NodeAtWf(b, treeNode, c, n);
    ghost var a := Abs(n.body, Strings(b));
    PropIsRead(b, fixupProp, fn, fv);
    g := n;
    ProgressStart(b, treeNode, c, n, lo, hi);
    var name, fixupVal;
    err, name, fixupVal := R.GetPropByOffset(fdto, fixupProp);
    if err != 0 {
      return;
    }
    assert name == fn && fixupVal == fv;
    if |fixupVal| % 4 != 0 {
      return -ERR_BADOVERLAY, g;
    }
    PropRead(b, treeNode, c, n, name);
    var treeVal := R.GetProperty(fdto, treeNode, name);
    if treeVal < 0 {
      if treeVal == -ERR_NOTFOUND {
        return -ERR_BADOVERLAY, g;
      }
      return treeVal, g;
    }
    ValueOutside(b, treeNode, c, n, name, fx, lo, hi);
    g := FixCells(fdto, fixupProp + 12, |fixupVal| / 4, treeVal, delta, treeNode, c, n, name, fixupVal, lo, hi);
    err := 0;
  }

  /** The property loop. */
  method FixProperties(fdto: array<byte>, treeNode: int, fixupNode: int, delta: nat, ghost c: Ctx, ghost n: Forest,
                       ghost fxn: Forest, ghost lo: int, ghost hi: int)
    returns (err: int, ghost g: Forest)
    requires NodeAt(fdto[..], treeNode, c, n) && R.IsInt(treeNode) && R.IsInt(fixupNode)
    requires FixupsAt(fdto[..], fixupNode, fxn, lo, hi) && 0 <= lo <= hi <= |Struct(fdto[..])|
    requires Named(n.body, Strings(fdto[..])) && Clear(n, treeNode, Abs(fxn.body, Strings(fdto[..])), lo, hi)
    requires FixProps(Abs(n.body, Strings(fdto[..])), Abs(fxn.body, Strings(fdto[..])), delta) != Stray
    modifies fdto
    ensures var b := old(fdto[..]);
      match FixProps(Abs(n.body, Strings(b)), Abs(fxn.body, Strings(b)), delta)
      case Fixed(a) => err == 0 && Progress(b, fdto[..], treeNode, c, n, g, a, lo, hi)
      case Refused(a) => err == -ERR_BADOVERLAY && Progress(b, fdto[..], treeNode, c, n, g, a, lo, hi)
      case Stray => false
  {
    hide Field, Struct, Strings, NodeAt, Stored, Abs, Named, SameZone, Progress, At, PropIs, CheckProp, NameAt, PropLen,
         PropNameOff, Clear, FixAttr, FixProps, Unread, NextProp, EncTok, Enc, BodyAt, FixupsAt, FixupNext, SameShape,
         NextPropertyOffset, FirstPropertyOffset, Editable, Live, Sane;
    ghost var b := fdto[..];
    NodeAtWf(b, treeNode, c, n);
    EditableLive(b);
    ghost var t := Strings(b);
    FixupsBody(b, fixupNode, fxn, lo, hi);
    ghost var fx := Abs(fxn.body, t);
    ghost var goal := FixProps(Abs(n.body, t), fx, delta);
    g := n;
    ghost var acc := Abs(n.body, t);
    ProgressStart(b, treeNode, c, n, lo, hi);
    ghost var pos, rem := BodyAt(fixupNode, fxn.name, fxn.pad), fxn.body;
    var fixupProp := R.FirstPropertyOffset(fdto, fixupNode);
    while fixupProp >= 0
      invariant R.IsInt(fixupProp) && Sane(fdto[..])
      invariant Progress(b, fdto[..], treeNode, c, n, g, acc, lo, hi)
      invariant Unread(fdto[..], pos, rem, lo, hi) && fixupProp == NextProp(Struct(fdto[..]), pos)
      invariant Named(rem, t) && FixProps(acc, Abs(rem, t), delta) == goal
      decreases hi - pos
    {
      ghost var d := fdto[..];
      ProgressIs(b, d, treeNode, c, n, g, acc, lo, hi);
      ghost var fn, fv, pos', rest := NextFixup(d, pos, rem, lo, hi);
      FixupNextIs(d, pos, rem, lo, hi, fn, fv, pos', rest, acc, delta);
      ShapeClear(n, g, treeNode, fx, lo, hi);
      ProgressSize(b, d, treeNode, c, n, g, acc, lo, hi);
      ghost var h;
      err, h := FixProperty(fdto, treeNode, fixupProp, delta, c, g, fn, fv, fx, lo, hi);
      ghost var one := FixAttr(acc, fn, fv, delta);
      ProgressTrans(b, d, fdto[..], treeNode, c, n, g, h, acc, one.a, lo, hi);
      ProgressIs(d, fdto[..], treeNode, c, g, h, one.a, lo, hi);
      g := h;
      if err != 0 {
        return;
      }
      AheadLive(d, pos, rem, lo, hi);
      EditableLive(fdto[..]);
      AheadStays(d, fdto[..], pos, rem, lo, hi);
      AheadSame(d, fdto[..], pos, rem, lo, hi);
      ghost var fn', fv', pos'', rest' := NextFixup(fdto[..], pos, rem, lo, hi);
      FixupNextIs(fdto[..], pos, rem, lo, hi, fn', fv', pos'', rest', acc, delta);
      SameRest(d, fdto[..], pos, rem, lo, hi, fn, fv, pos', rest, fn', fv', pos'', rest');
      acc := one.a;
      fixupProp := R.NextPropertyOffset(fdto, fixupProp);
      pos, rem := pos'', rest';
    }
    NoMoreFixups(fdto[..], pos, rem, lo, hi);
    ProgressIs(b, fdto[..], treeNode, c, n, g, acc, lo, hi);
    FixPropsEnd(acc, Abs(rem, t), delta);
    err := 0;
  }

  lemma FixPropsEnd(a: Tree, fx: Tree, delta: nat)
    requires !fx.Attr?
    ensures FixProps(a, fx, delta) == Fixed(a)
  {
  }

  lemma SameRest(b: bytes, d: bytes, pos: int, rem: Forest, lo: int, hi: int, name: bytes, v: bytes, p: int,
                 rest: Forest, name': bytes, v': bytes, p': int, rest': Forest)
    requires FixupNext(b, pos, rem, lo, hi, name, v, p, rest) && FixupNext(d, pos, rem, lo, hi, name', v', p', rest')
    ensures rest == rest'
  {
    hide Struct, Strings, Unread, PropIs, NextProp, NextPropertyOffset, Sane, Named, Abs;
  }

  /** The fixup node `fxn` stands at `off`, in the region. */
  ghost predicate FixupsAt(b: bytes, off: int, fxn: Forest, lo: int, hi: int)
  {
    && Live(b) && fxn.Node? && NodeIn(Struct(b), off, fxn.name, fxn.pad, fxn.body) && Named(fxn.body, Strings(b))
    && lo <= off && BodyAt(off, fxn.name, fxn.pad) + |Enc(fxn.body)| + 4 <= hi
  }

  lemma FixupsBody(b: bytes, off: int, fxn: Forest, lo: int, hi: int)
    requires FixupsAt(b, off, fxn, lo, hi)
    ensures Sane(b) && Live(b) && fxn.Node? && WfTok(Begin(fxn.name, fxn.pad)) && Named(fxn.body, Strings(b))
    ensures Unread(b, BodyAt(off, fxn.name, fxn.pad), fxn.body, lo, hi)
    ensures FirstPropertyOffset(Struct(b), off) == NextProp(Struct(b), BodyAt(off, fxn.name, fxn.pad))
  {
    hide Field, Struct, Strings, EncTok, TagAt, At, NameAt, NextProp;
    O.OvBody(b, off, fxn.name, fxn.pad, fxn.body);
  }

  lemma ProgressSize(b: bytes, d: bytes, node: int, c: Ctx, n: Forest, g: Forest, a: Tree, lo: int, hi: int)
    requires Progress(b, d, node, c, n, g, a, lo, hi)
    ensures Sane(d) && 0 <= lo <= hi <= |Struct(d)|
  {
    hide Field, Struct, Strings, NodeAt, Stored;
    ProgressIs(b, d, node, c, n, g, a, lo, hi);
  }

  lemma EditableLive(b: bytes)
    requires Editable(b)
    ensures Live(b) && Sane(b)
  {
  }

  lemma AheadLive(b: bytes, pos: int, rem: Forest, lo: int, hi: int)
    requires Unread(b, pos, rem, lo, hi)
    ensures Live(b) && Sane(b) && Named(rem, Strings(b))
  {
  }

  /** The enumeration stands where it stood. */
  lemma AheadSame(b: bytes, d: bytes, pos: int, rem: Forest, lo: int, hi: int)
    requires Unread(b, pos, rem, lo, hi) && Unread(d, pos, rem, lo, hi) && Strings(d) == Strings(b)
    ensures NextProp(Struct(d), pos) == NextProp(Struct(b), pos)
  {
    hide Field, Struct, Strings, EncTok, TagAt, Aligned, Align4, At, NameAt, NextProp, Inside;
    InsideWf(Struct(b), pos, rem);
    NextPropIs(Struct(b), pos, rem, Strings(b));
    NextPropIs(Struct(d), pos, rem, Strings(d));
  }

  // ---------------------------------------------------------------- the subnodes

  /** The tags before the first subnode do not take part. */
  lemma {:induction false} HeadFixes(f: Forest, t: bytes, a: Tree, delta: nat)
    requires Named(f, t)
    ensures match NodeHead(f)
      case None => FixSubs(a, Abs(f, t), delta) == Fixed(a)
      case Some(_) => Named(NodeFrom(f), t) && FixSubs(a, Abs(f, t), delta) == FixSubs(a, Abs(NodeFrom(f), t), delta)
                      && Subs(Abs(f, t)) == Subs(Abs(NodeFrom(f), t))
  {
    hide NameAt, Fix, PutSub, FindSubT;
    match f
    case Nil =>
    case Item(_, rest) => HeadFixes(rest, t, a, delta);
    case Node(_, _, _, _) =>
  }

  /** Where the enumeration of the fixup subnodes stands: at `rem`, or behind the last one. */
  ghost predicate SubAhead(b: bytes, off: int, rem: Forest, lo: int, hi: int, a: Tree, delta: nat, goal: Fixed,
                           fx: Tree)
  {
    && Sane(b)
    && (off >= 0 ==> Unread(b, off, rem, lo, hi) && rem.Node? && FixSubs(a, Abs(rem, Strings(b)), delta) == goal
                     && forall w | w in Wants(Abs(rem, Strings(b))) :: w in Wants(fx))
    && (off < 0 ==> goal == Fixed(a))
  }

  lemma SubAheadIs(b: bytes, off: int, rem: Forest, lo: int, hi: int, a: Tree, delta: nat, goal: Fixed, fx: Tree)
    requires SubAhead(b, off, rem, lo, hi, a, delta, goal, fx) && off >= 0
    ensures Sane(b) && rem.Node? && Named(rem, Strings(b)) && Named(rem.body, Strings(b)) && Named(rem.rest, Strings(b))
    ensures Unread(b, off, rem, lo, hi) && FixupsAt(b, off, rem, lo, hi) && rem.name in Wants(fx)
    ensures goal == ThenSubs(FixOneSub(a, rem.name, Abs(rem.body, Strings(b)), delta), Abs(rem.rest, Strings(b)), delta)
    ensures forall w | w in Wants(Abs(rem.rest, Strings(b))) :: w in Wants(fx)
  {
    hide Field, Struct, Strings, EncTok, Aligned, At, TagAt, NameAt, Fix, PutSub, FindSubT;
    InsideNode(Struct(b), off, rem.name, rem.pad, rem.body, rem.rest);
    WantsNode(rem.name, Abs(rem.body, Strings(b)), Abs(rem.rest, Strings(b)));
  }

  lemma WantsNode(n: bytes, body: Tree, rest: Tree)
    ensures Wants(Sub(n, body, rest)) == [n] + Wants(rest)
  {
  }

  /** One fixup subnode. */
  function FixOneSub(a: Tree, n: bytes, body: Tree, delta: nat): (r: Fixed)
  {
    match FindSubT(a, n)
    case None => Refused(a)
    case Some(s) =>
      match Fix(s, body, delta)
      case Fixed(x) => Fixed(PutSub(a, n, x))
      case Refused(x) => Refused(PutSub(a, n, x))
      case Stray => Stray
  }

  function ThenSubs(one: Fixed, rest: Tree, delta: nat): (r: Fixed)
  {
    match one
    case Fixed(y) => FixSubs(y, rest, delta)
    case _ => one
  }

  lemma FirstSub(b: bytes, off: int, fxn: Forest, lo: int, hi: int, a: Tree, delta: nat) returns (rem: Forest)
    requires FixupsAt(b, off, fxn, lo, hi)
    ensures Sane(b) && Named(fxn.body, Strings(b))
    ensures var fx := Abs(fxn.body, Strings(b)); var r := FirstSubnode(Struct(b), off);
      SubAhead(b, r, rem, lo, hi, a, delta, FixSubs(a, fx, delta), fx) && (r >= 0 ==> FSize(rem) <= FSize(fxn.body))
  {
    hide Field, Struct, Strings, EncTok, Aligned, At, TagAt, NameAt, FixSubs, Pre, Post;
    var s, t := Struct(b), Strings(b);
    NodeInIs(s, off, fxn.name, fxn.pad, fxn.body);
    FirstSubnodeIs(s, off, fxn.name, fxn.pad, fxn.body);
    HeadFixes(fxn.body, t, a, delta);
    rem := NodeFrom(fxn.body);
    NextNodeIs(s, BodyAt(off, fxn.name, fxn.pad), fxn.body, t);
    if NodeHead(fxn.body).Some? {
      EncPlug(NodeHead(fxn.body).value, rem);
      SameWants(Abs(fxn.body, t), Abs(rem, t));
    }
  }

  lemma SameWants(a: Tree, b: Tree)
    requires Subs(a) == Subs(b)
    ensures Wants(a) == Wants(b)
  {
  }

  lemma NextOne(b: bytes, off: int, rem: Forest, lo: int, hi: int, a: Tree, delta: nat, fx: Tree) returns (rem': Forest)
    requires Unread(b, off, rem, lo, hi) && rem.Node?
    requires Sane(b) && Named(rem.rest, Strings(b))
    requires forall w | w in Wants(Abs(rem.rest, Strings(b))) :: w in Wants(fx)
    ensures var r := NextSub(Struct(b), off, 1);
      && SubAhead(b, r, rem', lo, hi, a, delta, FixSubs(a, Abs(rem.rest, Strings(b)), delta), fx)
      && (r >= 0 ==> FSize(rem') < FSize(rem))
  {
    hide Field, Struct, Strings, EncTok, Aligned, At, TagAt, NameAt, FixSubs, Pre, Post, NextSub;
    var s, t := Struct(b), Strings(b);
    InsideNode(s, off, rem.name, rem.pad, rem.body, rem.rest);
    NextSubnodeIs(s, off, rem.name, rem.pad, rem.body, rem.rest);
    HeadFixes(rem.rest, t, a, delta);
    rem' := NodeFrom(rem.rest);
    NextNodeIs(s, BodyAt(off, rem.name, rem.pad) + |Enc(rem.body)| + 4, rem.rest, t);
    if NodeHead(rem.rest).Some? {
      EncPlug(NodeHead(rem.rest).value, rem');
      SameWants(Abs(rem.rest, t), Abs(rem', t));
    }
  }

  /** Replacing the body of the found subnode, read as a position. */
  lemma {:induction false} PutSubCtx(f: Forest, t: bytes, want: bytes, x: Tree)
    requires Named(f, t) && SubCtx(f, want).Some?
    ensures var k, m := SubCtx(f, want).value, SubTail(f, want);
      && Flat(k) && NamedC(k, t) && Named(m, t) && Named(m.rest, t)
      && PlugT(AbsC(k, t), Sub(m.name, x, Abs(m.rest, t))) == PutSub(Abs(f, t), want, x)
  {
    hide NameAt, NameMatches;
    match f
    case Item(_, rest) => PutSubCtx(rest, t, want, x);
    case Node(name, _, _, rest) => if !NameMatches(name, want) { PutSubCtx(rest, t, want, x); }
  }

  /** Progress in the found subnode is progress in its parent. */
  lemma LiftProgress(d: bytes, e: bytes, node: int, c: Ctx, g: Forest, want: bytes, k: Ctx, child: int, m: Forest,
                     m': Forest, x: Tree, lo: int, hi: int)
    requires NodeAt(d, node, c, g) && O.SubFound(g, want, k, m) && WfTok(Begin(g.name, g.pad))
    requires Named(g.body, Strings(d))
    requires child == BodyAt(node, g.name, g.pad) + |Pre(k)| && Progress(d, e, child, InBody(c, g, k), m, m', x, lo, hi)
    ensures Progress(d, e, node, c, g, WithBody(g, Plug(k, m')), PutSub(Abs(g.body, Strings(d)), want, x), lo, hi)
  {
    hide Field, Struct, Strings, NodeAt, Stored, Abs, Named, SameZone, NameMatches, InBody, Pre;
    NodeAtWf(d, node, c, g);
    PutSubCtx(g.body, Strings(d), want, x);
    LiftStored(d, e, node, c, g, k, child, m, m', x);
  }

  // ---------------------------------------------------------------- a whole node

  lemma FixupName(b: bytes, off: int, fxn: Forest, lo: int, hi: int)
    requires FixupsAt(b, off, fxn, lo, hi)
    ensures Sane(b) && Live(b) && fxn.Node? && RoProbe(b) >= 0 && CheckNode(Struct(b), off) >= 0
    ensures NodeName(Struct(b), off) == fxn.name && Named(fxn.body, Strings(b))
  {
    hide Field, Struct, Strings, EncTok, TagAt, NameAt, At;
    O.OvName(b, off, fxn.name, fxn.pad, fxn.body);
  }

  lemma FixupsStay(b: bytes, d: bytes, off: int, fxn: Forest, lo: int, hi: int)
    requires FixupsAt(b, off, fxn, lo, hi) && Live(d) && Strings(d) == Strings(b)
    requires SameZone(Struct(b), Struct(d), lo, hi)
    ensures FixupsAt(d, off, fxn, lo, hi)
  {
    hide Field, Struct, Strings, NodeIn, Named, SameZone;
    ZoneNode(Struct(b), Struct(d), lo, hi, off, fxn.name, fxn.pad, fxn.body);
  }

  lemma FixIs(a: Tree, fx: Tree, delta: nat)
    ensures Fix(a, fx, delta) == match FixProps(a, fx, delta) case Fixed(b) => FixSubs(b, fx, delta) case other => other
  {
  }

  /** What looking the subnode up gives. */
  lemma SubThere(b: bytes, node: int, c: Ctx, n: Forest, want: bytes, fx: Tree, lo: int, hi: int)
    returns (k: Ctx, m: Forest)
    requires NodeAt(b, node, c, n) && Clear(n, node, fx, lo, hi) && want in Wants(fx) && Named(n.body, Strings(b))
    ensures Sane(b)
    ensures var r := FindSub(Struct(b), node, 0, want);
      match FindSubT(Abs(n.body, Strings(b)), want)
      case None => r == -ERR_NOTFOUND
      case Some(s) =>
        && n.Node? && O.SubFound(n, want, k, m) && WfTok(Begin(n.name, n.pad)) && Wf(m) && m.Node?
        && r == BodyAt(node, n.name, n.pad) + |Pre(k)| && R.IsInt(r) && r >= 0
        && NodeAt(b, r, InBody(c, n, k), m) && Named(m.body, Strings(b)) && Abs(m.body, Strings(b)) == s
        && Outside(m, r, lo, hi)
  {
    hide Field, Struct, Strings, NodeAt, Abs, Named, FindSub, Clear, NodeSize, Pre, InBody, SubCtx, NameMatches;
    NodeAtWf(b, node, c, n);
    SubCtxAbs(n.body, Strings(b), want);
    SubLookup(b, node, c, n, want);
    k, m := Hole, Nil;
    if SubCtx(n.body, want).Some? {
      k, m := O.SubNodeAt(b, node, c, n, want);
      SubIsOutside(n, node, fx, want, lo, hi);
    }
  }

  /** One round of the subnode loop. */
  method UpdateSub(fdto: array<byte>, treeNode: int, fixupChild: int, delta: nat, ghost c: Ctx, ghost n: Forest,
                   ghost fxn: Forest, ghost fx: Tree, ghost lo: int, ghost hi: int)
    returns (err: int, ghost g: Forest)
    requires NodeAt(fdto[..], treeNode, c, n) && R.IsInt(treeNode) && R.IsInt(fixupChild)
    requires FixupsAt(fdto[..], fixupChild, fxn, lo, hi) && 0 <= lo <= hi <= |Struct(fdto[..])|
    requires Named(n.body, Strings(fdto[..])) && Clear(n, treeNode, fx, lo, hi) && fxn.name in Wants(fx)
    requires FixOneSub(Abs(n.body, Strings(fdto[..])), fxn.name, Abs(fxn.body, Strings(fdto[..])), delta) != Stray
    modifies fdto
    ensures var b := old(fdto[..]);
      match FixOneSub(Abs(n.body, Strings(b)), fxn.name, Abs(fxn.body, Strings(b)), delta)
      case Fixed(a) => err == 0 && Progress(b, fdto[..], treeNode, c, n, g, a, lo, hi)
      case Refused(a) => err == -ERR_BADOVERLAY && Progress(b, fdto[..], treeNode, c, n, g, a, lo, hi)
      case Stray => false
    decreases FSize(fxn.body), 1
  {
    hide Field, Struct, Strings, NodeAt, Abs, Named, FindSub, Clear, Progress, FixupsAt, Fix, PutSub, FindSubT, InBody,
         Pre, O.SubFound, NodeSize, Sane, Live, WithBody, BodyAt, FSize, CheckNode, NodeName, RoProbe, Outside, Within,
         FixRun;
    ghost var b := fdto[..];
    ProgressStart(b, treeNode, c, n, lo, hi);
    FixupName(b, fixupChild, fxn, lo, hi);
    g := n;
    ghost var k, m := SubThere(b, treeNode, c, n, fxn.name, fx, lo, hi);
    var fixupChildName;
    err, fixupChildName := R.GetName(fdto, fixupChild);
    var treeChild := R.SubnodeOffset(fdto, treeNode, fixupChildName);
    if treeChild == -ERR_NOTFOUND {
      return -ERR_BADOVERLAY, g;
    }
    if treeChild < 0 {
      return treeChild, g;
    }
    OutsideClear(m, treeChild, Abs(fxn.body, Strings(b)), lo, hi);
    StrayIs(Abs(m.body, Strings(b)), Abs(fxn.body, Strings(b)), delta);
    ghost var m';
    err, m' := UpdateNode(fdto, treeChild, fixupChild, delta, InBody(c, n, k), m, fxn, lo, hi);
    ghost var inner := Fix(Abs(m.body, Strings(b)), Abs(fxn.body, Strings(b)), delta);
    LiftProgress(b, fdto[..], treeNode, c, n, fxn.name, k, treeChild, m, m', inner.a, lo, hi);
    g := WithBody(n, Plug(k, m'));
  }

  lemma OutsideClear(m: Forest, node: int, fx: Tree, lo: int, hi: int)
    requires m.Node? && Wf(m) && Outside(m, node, lo, hi)
    ensures Clear(m, node, fx, lo, hi)
  {
    hide NodeSize;
  }

  /** `overlay_update_local_node_references`: the cells that the fixups list in the node, and in every node below it
      that they name, move by `delta`; every tag stays where it is, and so do the fixups.  What a refusal leaves is what
      had been done before it. */
  method UpdateNode(fdto: array<byte>, treeNode: int, fixupNode: int, delta: nat, ghost c: Ctx, ghost n: Forest,
                    ghost fxn: Forest, ghost lo: int, ghost hi: int)
    returns (err: int, ghost g: Forest)
    requires NodeAt(fdto[..], treeNode, c, n) && R.IsInt(treeNode) && R.IsInt(fixupNode)
    requires FixupsAt(fdto[..], fixupNode, fxn, lo, hi) && 0 <= lo <= hi <= |Struct(fdto[..])|
    requires Named(n.body, Strings(fdto[..])) && Clear(n, treeNode, Abs(fxn.body, Strings(fdto[..])), lo, hi)
    requires Within(FixRun(Abs(n.body, Strings(fdto[..])), Abs(fxn.body, Strings(fdto[..]))).stores)
    modifies fdto
    ensures var b := old(fdto[..]);
      match Fix(Abs(n.body, Strings(b)), Abs(fxn.body, Strings(b)), delta)
      case Fixed(a) => err == 0 && Progress(b, fdto[..], treeNode, c, n, g, a, lo, hi)
      case Refused(a) => err == -ERR_BADOVERLAY && Progress(b, fdto[..], treeNode, c, n, g, a, lo, hi)
      case Stray => false
    decreases FSize(fxn.body), 0
  {
    hide Field, Struct, Strings, NodeAt, Abs, Named, Clear, Progress, FixupsAt, Fix, FixProps, FixSubs, FixOneSub,
         SubAhead, Sane, Live, Editable, SameShape, SameZone, FirstSubnode, NextSub, Stored, Wants, Unread, Within,
         FixRun;
    ghost var b := fdto[..];
    NodeAtWf(b, treeNode, c, n);
    EditableLive(b);
    FixupsBody(b, fixupNode, fxn, lo, hi);
    ghost var t := Strings(b);
    ghost var fx := Abs(fxn.body, t);
    StrayIs(Abs(n.body, t), fx, delta);
    FixIs(Abs(n.body, t), fx, delta);
    err, g := FixProperties(fdto, treeNode, fixupNode, delta, c, n, fxn, lo, hi);
    if err != 0 {
      return;
    }
    ghost var acc := FixProps(Abs(n.body, t), fx, delta).a;
    ghost var goal := FixSubs(acc, fx, delta);
    ProgressIs(b, fdto[..], treeNode, c, n, g, acc, lo, hi);
    EditableLive(fdto[..]);
    FixupsStay(b, fdto[..], fixupNode, fxn, lo, hi);
    ghost var rem := FirstSub(fdto[..], fixupNode, fxn, lo, hi, acc, delta);
    var fixupChild := R.FirstSubnode(fdto, fixupNode);
    while fixupChild >= 0
      invariant R.IsInt(fixupChild) && Progress(b, fdto[..], treeNode, c, n, g, acc, lo, hi)
      invariant SubAhead(fdto[..], fixupChild, rem, lo, hi, acc, delta, goal, fx)
      invariant fixupChild >= 0 ==> FSize(rem) <= FSize(fxn.body)
      decreases if fixupChild < 0 then 0 else 1 + FSize(rem)
    {
      ghost var d := fdto[..];
      ProgressIs(b, d, treeNode, c, n, g, acc, lo, hi);
      ProgressSize(b, d, treeNode, c, n, g, acc, lo, hi);
      SubAheadIs(d, fixupChild, rem, lo, hi, acc, delta, goal, fx);
      ShapeClear(n, g, treeNode, fx, lo, hi);
      ghost var one := FixOneSub(acc, rem.name, Abs(rem.body, t), delta);
      ghost var h;
      err, h := UpdateSub(fdto, treeNode, fixupChild, delta, c, g, rem, fx, lo, hi);
      ProgressTrans(b, d, fdto[..], treeNode, c, n, g, h, acc, one.a, lo, hi);
      ProgressIs(d, fdto[..], treeNode, c, g, h, one.a, lo, hi);
      g := h;
      if err != 0 {
        return;
      }
      EditableLive(fdto[..]);
      AheadStays(d, fdto[..], fixupChild, rem, lo, hi);
      ghost var rem' := NextOne(fdto[..], fixupChild, rem, lo, hi, one.a, delta, fx);
      acc := one.a;
      fixupChild := R.NextSubnode(fdto, fixupChild);
      rem := rem';
    }
    SubsDone(fdto[..], fixupChild, rem, lo, hi, acc, delta, goal, fx);
    err := 0;
  }

  lemma SubsDone(b: bytes, off: int, rem: Forest, lo: int, hi: int, a: Tree, delta: nat, goal: Fixed, fx: Tree)
    requires SubAhead(b, off, rem, lo, hi, a, delta, goal, fx) && off < 0
    ensures goal == Fixed(a)
  {
    hide FixSubs;
  }

  // ---------------------------------------------------------------- the whole overlay

  const FIXUPS: bytes := [95, 95, 108, 111, 99, 97, 108, 95, 102, 105, 120, 117, 112, 115, 95, 95] // "__local_fixups__"

  lemma {:induction false} HeadBeforeSub(f: Forest, want: bytes)
    requires Wf(f) && SubCtx(f, want).Some?
    ensures HeadSize(f) <= |Pre(SubCtx(f, want).value)|
  {
    hide EncTok, Aligned, NameMatches;
    if f.Item? { HeadBeforeSub(f.rest, want); }
  }

  /** Two names that find different subnodes find them in different places. */
  lemma {:induction false} SubsApart(f: Forest, v: bytes, w: bytes, off: int)
    requires Wf(f) && SubCtx(f, v).Some? && SubCtx(f, w).Some? && SubCtx(f, v) != SubCtx(f, w)
    ensures Wf(SubTail(f, v)) && Wf(SubTail(f, w))
    ensures var p, q := off + |Pre(SubCtx(f, v).value)|, off + |Pre(SubCtx(f, w).value)|;
      p + NodeSize(SubTail(f, v)) <= q || q + NodeSize(SubTail(f, w)) <= p
  {
    hide EncTok, Aligned, NameMatches, Enc;
    match f
    case Item(tok, rest) => SubsApart(rest, v, w, off + |EncTok(tok)|);
    case Node(name, pad, body, rest) =>
      EndLen();
      if NameMatches(name, v) {
        SubBehind(rest, w);
      } else if NameMatches(name, w) {
        SubBehind(rest, v);
      } else {
        SubsApart(rest, v, w, BodyAt(off, name, pad) + |Enc(body)| + 4);
      }
  }

  lemma {:induction false} SubBehind(f: Forest, want: bytes)
    requires Wf(f) && SubCtx(f, want).Some?
    ensures Wf(SubTail(f, want))
  {
    hide NameMatches;
    match f
    case Item(_, rest) => SubBehind(rest, want);
    case Node(name, _, _, rest) => if !NameMatches(name, want) { SubBehind(rest, want); }
  }

  /** The number of subnodes before the first one that `want` finds. */
  function SubIndex(a: Tree, want: bytes): (n: nat)
  {
    match a
    case Done => 0
    case Attr(_, _, rest) => SubIndex(rest, want)
    case Sub(n, _, rest) => if NameMatches(n, want) then 0 else 1 + SubIndex(rest, want)
  }

  /** No fixup leads into the fixups themselves. */
  predicate LeadElsewhere(a: Tree, fx: Tree)
  {
    forall i | 0 <= i < |Subs(fx)| :: SubIndex(a, Subs(fx)[i].0) != SubIndex(a, FIXUPS)
  }

  lemma {:induction false} SameIndex(f: Forest, t: bytes, v: bytes, w: bytes)
    requires Named(f, t) && SubCtx(f, v) == SubCtx(f, w)
    ensures SubIndex(Abs(f, t), v) == SubIndex(Abs(f, t), w)
  {
    hide NameAt, NameMatches;
    match f
    case Nil =>
    case Item(_, rest) => SameIndex(rest, t, v, w);
    case Node(name, _, _, rest) =>
      if !NameMatches(name, v) && !NameMatches(name, w) { SameIndex(rest, t, v, w); }
  }

  lemma RootClear(root: Forest, t: bytes, node: int, fx: Tree)
    requires root.Node? && Wf(root) && Named(root.body, t) && SubCtx(root.body, FIXUPS).Some?
    requires LeadElsewhere(Abs(root.body, t), fx)
    ensures Wf(SubTail(root.body, FIXUPS))
    ensures var lo := BodyAt(node, root.name, root.pad) + |Pre(SubCtx(root.body, FIXUPS).value)|;
      Clear(root, node, fx, lo, lo + NodeSize(SubTail(root.body, FIXUPS)))
  {
    hide EncTok, Pre, SubCtx, Enc, HeadSize, NodeSize;
    SubBehind(root.body, FIXUPS);
    HeadBeforeSub(root.body, FIXUPS);
    var b := BodyAt(node, root.name, root.pad);
    forall i | 0 <= i < |Subs(fx)|
      ensures SubOutside(root, node, Subs(fx)[i].0, b + |Pre(SubCtx(root.body, FIXUPS).value)|,
        b + |Pre(SubCtx(root.body, FIXUPS).value)| + NodeSize(SubTail(root.body, FIXUPS)))
    {
      if SubCtx(root.body, Subs(fx)[i].0).Some? {
        if SubCtx(root.body, Subs(fx)[i].0) == SubCtx(root.body, FIXUPS) {
          SameIndex(root.body, t, Subs(fx)[i].0, FIXUPS);
        }
        SubsApart(root.body, Subs(fx)[i].0, FIXUPS, b);
      }
    }
  }

  /** What is asked of an overlay: every listed cell lies in its value, and no fixup leads into the fixups. */
  predicate Fixable(a: Tree)
  {
    match FindSubT(a, FIXUPS)
    case None => true
    case Some(fx) => Within(FixRun(a, fx).stores) && LeadElsewhere(a, fx)
  }

  /** What updating the local references of a tree comes to. */
  function Updated(a: Tree, delta: nat): (r: Fixed)
  {
    match FindSubT(a, FIXUPS)
    case None => Fixed(a)
    case Some(fx) => Fix(a, fx, delta)
  }

  /** The fixups node, ready to be read. */
  lemma FixupsFound(b: bytes, root: Forest) returns (fxn: Forest, lo: int, hi: int)
    requires NodeAt(b, 0, Hole, root) && Named(root.body, Strings(b))
    requires FindSubT(Abs(root.body, Strings(b)), FIXUPS).Some?
    requires LeadElsewhere(Abs(root.body, Strings(b)), FindSubT(Abs(root.body, Strings(b)), FIXUPS).value)
    ensures Sane(b) && fxn.Node? && Named(fxn.body, Strings(b))
    ensures FindSubT(Abs(root.body, Strings(b)), FIXUPS) == Some(Abs(fxn.body, Strings(b)))
    ensures FindSub(Struct(b), 0, 0, FIXUPS) == lo && FixupsAt(b, lo, fxn, lo, hi) && 0 <= lo <= hi <= |Struct(b)|
    ensures root.Node? && Wf(root) && Clear(root, 0, Abs(fxn.body, Strings(b)), lo, hi)
  {
    hide Field, Struct, Strings, NodeAt, Abs, Named, FindSub, Clear, Pre, InBody, SubCtx, NameMatches, EncTok, Enc,
         NodeIn, At;
    NodeAtWf(b, 0, Hole, root);
    SubCtxAbs(root.body, Strings(b), FIXUPS);
    var k;
    k, fxn := O.SubNodeAt(b, 0, Hole, root, FIXUPS);
    RootClear(root, Strings(b), 0, Abs(fxn.body, Strings(b)));
    lo := BodyAt(0, root.name, root.pad) + |Pre(k)|;
    hi := lo + NodeSize(fxn);
    BodyBehind(lo, fxn);
    NodeAtFixups(b, lo, InBody(Hole, root, k), fxn, hi);
  }

  lemma NodeAtFixups(b: bytes, lo: int, c: Ctx, fxn: Forest, hi: int)
    requires NodeAt(b, lo, c, fxn) && fxn.Node? && Named(fxn.body, Strings(b))
    requires BodyAt(lo, fxn.name, fxn.pad) + |Enc(fxn.body)| + 4 == hi
    ensures Sane(b) && FixupsAt(b, lo, fxn, lo, hi) && 0 <= lo <= hi <= |Struct(b)|
  {
    hide Field, Struct, Strings, Pre, EncTok, At, Holds, TagAt;
    NodeAtHole(Struct(b), c, fxn.name, fxn.pad, fxn.body, fxn.rest);
    NodeInIs(Struct(b), lo, fxn.name, fxn.pad, fxn.body);
  }

  /** The path "/__local_fixups__" is one lookup. */
  lemma FixupsPath(s: bytes)
    ensures P.PathFrom(s, [SLASH] + FIXUPS, 0, 0) == FindSub(s, 0, 0, FIXUPS)
  {
    hide FindSub, P.PathFrom;
    var path := [SLASH] + FIXUPS;
    assert path[0..] == [SLASH] + FIXUPS + [];
    P.OneComponent(s, path, 0, 0, FIXUPS, []);
    var child := FindSub(s, 0, 0, FIXUPS);
    if child >= 0 {
      P.PathEnd(s, path, |path|, child);
    }
  }

  /** `overlay_update_local_references`. */
  method UpdateLocalReferences(fdto: array<byte>, delta: nat, ghost root: Forest) returns (err: int, ghost g: Forest)
    requires NodeAt(fdto[..], 0, Hole, root) && Named(root.body, Strings(fdto[..]))
    requires Fixable(Abs(root.body, Strings(fdto[..])))
    modifies fdto
    ensures var b := old(fdto[..]);
      match Updated(Abs(root.body, Strings(b)), delta)
      case Fixed(a) => err == 0 && Stored(b, fdto[..], 0, Hole, root, g, a)
      case Refused(a) => err == -ERR_BADOVERLAY && Stored(b, fdto[..], 0, Hole, root, g, a)
      case Stray => false
  {
    hide Field, Struct, Strings, NodeAt, Abs, Named, FindSub, Clear, Progress, FixupsAt, Fix, Stored, LeadElsewhere,
         FindSubT, Sane, Live, Editable;
    ghost var b := fdto[..];
    NodeAtWf(b, 0, Hole, root);
    EditableLive(b);
    g := root;
    StoredSelf(b, 0, Hole, root);
    FixupsPath(Struct(b));
    var fixups := P.PathOffset(fdto, [SLASH] + FIXUPS);
    SubLookup(b, 0, Hole, root, FIXUPS);
    SubCtxAbs(root.body, Strings(b), FIXUPS);
    if fixups < 0 {
      if fixups == -ERR_NOTFOUND {
        return 0, g;
      }
      return fixups, g;
    }
    ghost var fxn, lo, hi := FixupsFound(b, root);
    err, g := UpdateNode(fdto, 0, fixups, delta, Hole, root, fxn, lo, hi);
    ProgressIs(b, fdto[..], 0, Hole, root, g, Updated(Abs(root.body, Strings(b)), delta).a, lo, hi);
  }

  /** Both steps of renumbering an overlay from its root: `overlay_adjust_local_phandles`, then the local references. */
  method RenumberOverlay(fdto: array<byte>, delta: nat, ghost root: Forest) returns (err: int, ghost g: Forest)
    requires NodeAt(fdto[..], 0, Hole, root) && Named(root.body, Strings(fdto[..])) && delta < TWO32
    requires var a := Abs(root.body, Strings(fdto[..]));
      ShiftableNode(a, delta) ==> Fixable(ShiftNode(a, delta))
    modifies fdto
    ensures err <= 0
    ensures var b := old(fdto[..]); var a := Abs(root.body, Strings(b));
      err == 0 ==> ShiftableNode(a, delta) && Updated(ShiftNode(a, delta), delta).Fixed?
                   && Stored(b, fdto[..], 0, Hole, root, g, Updated(ShiftNode(a, delta), delta).a)
    ensures var a := Abs(root.body, Strings(old(fdto[..])));
      ShiftableNode(a, delta) && Updated(ShiftNode(a, delta), delta).Fixed? ==> err == 0
  {
    hide Field, Struct, Strings, NodeAt, Abs, Named, Stored, Fixable, Updated, ShiftableNode, ShiftNode, SameShape;
    ghost var b := fdto[..];
    NodeAtWf(b, 0, Hole, root);
    err, g := AdjustNode(fdto, 0, delta, Hole, root);
    if err != 0 {
      return;
    }
    ghost var d := fdto[..];
    StoredNode(b, d, 0, Hole, root, g, Abs(g.body, Strings(b)));
    ghost var h;
    err, h := UpdateLocalReferences(fdto, delta, g);
    StoredTrans(b, d, fdto[..], 0, Hole, root, g, h, Abs(g.body, Strings(b)), Updated(Abs(g.body, Strings(b)),
      delta).a);
    g := h;
  }
}
