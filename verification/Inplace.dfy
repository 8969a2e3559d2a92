/** Storing into the value of a property without moving anything (`fdt_setprop_inplace`). */
module Inplace {
  import opened Bytes
  import opened Format
  import opened Tree
  import opened Blob
  import opened Walk
  import opened TreeOps
  import opened Splicing
  import opened Editor
  import opened Merging
  import R = Reader

  /** The same tag, up to the bytes of a value. */
  predicate SameTag(t: Token, u: Token)
  {
    t == u || (t.Prop? && u.Prop? && t.nameoff == u.nameoff && |t.val| == |u.val| && t.pad == u.pad)
  }

  /** The same tags in the same places, up to the bytes of values. */
  predicate SameShape(f: Forest, g: Forest)
  {
    match (f, g)
    case (Nil, Nil) => true
    case (Item(t, r), Item(u, q)) => SameTag(t, u) && SameShape(r, q)
    case (Node(n, p, b, r), Node(m, o, d, q)) => n == m && p == o && SameShape(b, d) && SameShape(r, q)
    case _ => false
  }

  lemma {:induction false} ShapeSelf(f: Forest)
    ensures SameShape(f, f)
  {
    match f
    case Nil =>
    case Item(_, rest) => ShapeSelf(rest);
    case Node(_, _, body, rest) =>
      ShapeSelf(body);
      ShapeSelf(rest);
  }

  lemma {:induction false} ShapeTrans(f: Forest, g: Forest, h: Forest)
    requires SameShape(f, g) && SameShape(g, h)
    ensures SameShape(f, h)
  {
    match f
    case Nil =>
    case Item(_, rest) => ShapeTrans(rest, g.rest, h.rest);
    case Node(_, _, body, rest) =>
      ShapeTrans(body, g.body, h.body);
      ShapeTrans(rest, g.rest, h.rest);
  }

  /** So nothing has another size. */
  lemma {:induction false} ShapeSizes(f: Forest, g: Forest)
    requires SameShape(f, g) && Wf(f) && Wf(g)
    ensures |Enc(f)| == |Enc(g)| && FSize(f) == FSize(g)
  {
    hide Word, Unword, Aligned;
    match f
    case Nil =>
    case Item(tok, rest) =>
      TagSize(tok, g.tok);
      hide EncTok;
      ShapeSizes(rest, g.rest);
    case Node(_, _, body, rest) =>
      hide EncTok;
      ShapeSizes(body, g.body);
      ShapeSizes(rest, g.rest);
  }

  lemma TagSize(t: Token, u: Token)
    requires SameTag(t, u) && WfTok(t) && WfTok(u)
    ensures |EncTok(t)| == |EncTok(u)|
  {
  }

  /** Every node is where it was. */
  lemma {:induction false} ShapeNodes(f: Forest, g: Forest, off: int)
    requires SameShape(f, g) && Wf(f) && Wf(g)
    ensures Nodes(f, off) == Nodes(g, off)
  {
    hide Word, Unword, Aligned;
    match f
    case Nil =>
    case Item(tok, rest) =>
      TagSize(tok, g.tok);
      ShapeNodes(rest, g.rest, off + |EncTok(tok)|);
    case Node(name, pad, body, rest) =>
      hide EncTok;
      ShapeSizes(body, g.body);
      ShapeNodes(body, g.body, BodyAt(off, name, pad));
      ShapeNodes(rest, g.rest, BodyAt(off, name, pad) + |Enc(body)| + 4);
  }

  /** A value changed at one position. */
  lemma {:induction false} ShapePlug(k: Ctx, f: Forest, g: Forest)
    requires SameShape(f, g)
    ensures SameShape(Plug(k, f), Plug(k, g))
  {
    match k
    case Hole =>
    case CItem(_, inner) => ShapePlug(inner, f, g);
    case CBody(_, _, inner, rest) =>
      ShapeSelf(rest);
      ShapePlug(inner, f, g);
    case CRest(_, _, body, inner) =>
      ShapeSelf(body);
      ShapePlug(inner, f, g);
  }

  /** `d` is `b` with the body of the node `n` reading as `a`, and every tag and every node is where it was. */
  ghost predicate Stored(b: bytes, d: bytes, off: int, c: Ctx, n: Forest, g: Forest, a: Tree)
    requires NodeAt(b, off, c, n)
  {
    && BodyIs(b, d, off, c, n, g, a) && Strings(d) == Strings(b)
    && g.Node? && Wf(g.body) && Wf(n.body) && SameShape(n.body, g.body)
  }

  /** The property tag with `x` stored at `idx` of its value. */
  function StoredTok(tok: Token, idx: nat, x: bytes): (r: Token)
    requires tok.Prop? && idx + |x| <= |tok.val|
  {
    tok.(val := Put(tok.val, idx, x))
  }

  lemma StoredTokBytes(tok: Token, idx: nat, x: bytes, rest: bytes)
    requires WfTok(tok) && tok.Prop? && idx + |x| <= |tok.val|
    ensures WfTok(StoredTok(tok, idx, x)) && 12 + idx + |x| <= |EncTok(tok)|
    ensures EncTok(StoredTok(tok, idx, x)) + rest == Put(EncTok(tok) + rest, 12 + idx, x)
  {
    hide Word, Put;
    var h := Word(PROP) + Word(|tok.val|) + Word(tok.nameoff);
    PutBefore(EncTok(tok), rest, 12 + idx, x);
    PutBefore(h + tok.val, tok.pad, 12 + idx, x);
    PutBehind(h, tok.val, idx, x);
  }

  /** Storing into the found property is setting it to the changed value. */
  lemma ValueStored(b: bytes, d: bytes, off: int, c: Ctx, n: Forest, name: bytes, k: Ctx, f: Forest, r: int, idx: nat,
                    x: bytes)
    requires NodeAt(b, off, c, n) && Found(Strings(b), n, name, k, f)
    requires WfCtx(InBody(c, n, k)) && r == |Pre(InBody(c, n, k))| && Plug(InBody(c, n, k), f) == Plug(c, n)
    requires idx + |x| <= |f.tok.val| && r + 12 + idx + |x| <= |Struct(b)|
    requires Edited(b, d, Put(Struct(b), r + 12 + idx, x), Strings(b))
    ensures Named(n.body, Strings(b))
    ensures var g := WithBody(n, Plug(k, Item(StoredTok(f.tok, idx, x), f.rest)));
      Stored(b, d, off, c, n, g, ReplaceAttr(Abs(n.body, Strings(b)), name, Put(f.tok.val, idx, x)))
  {
    hide Field, Struct, Strings, NameAt, EncTok, Aligned, Word, Put, Splice, Edited, Pre, Post, Holds, At, StoredTok;
    var t, s := Strings(b), Struct(b);
    StoredTokIs(f.tok, idx, x);
    var f' := Item(StoredTok(f.tok, idx, x), f.rest);
    StoredTokBytes(f.tok, idx, x, Enc(f.rest));
    PutIsSplice(s, r + 12 + idx, x);
    PutIsSplice(Enc(f), 12 + idx, x);
    EditedSize(b, d, Put(s, r + 12 + idx, x), t);
    EditAt(s, InBody(c, n, k), f, f', 12 + idx, |x|, x);
    InBodyIs(c, n, k, f');
    AbsPlug(c, n, t);
    ReplacePropAbs(n.body, t, name, f'.tok);
    BodyHeld(b, d, off, c, n, Plug(k, f'), Put(s, r + 12 + idx, x), t);
    EditedBlocks(b, d, Put(s, r + 12 + idx, x), t);
    ShapeSelf(f.rest);
    ShapePlug(k, f, f');
    HoldsWf(Put(s, r + 12 + idx, x), Plug(InBody(c, n, k), f'));
  }

  lemma StoredTokIs(tok: Token, idx: nat, x: bytes)
    requires WfTok(tok) && tok.Prop? && idx + |x| <= |tok.val|
    ensures WfTok(StoredTok(tok, idx, x)) && StoredTok(tok, idx, x).Prop? && SameTag(tok, StoredTok(tok, idx, x))
    ensures StoredTok(tok, idx, x).nameoff == tok.nameoff && StoredTok(tok, idx, x).val == Put(tok.val, idx, x)
  {
  }

  /** Storing through a pointer into the value of property `name`, which stands at `prop`. */
  method StoreValue(fdt: array<byte>, prop: nat, idx: nat, x: bytes, ghost node: int, ghost c: Ctx, ghost n: Forest,
                    ghost name: bytes)
    returns (ghost g: Forest)
    requires NodeAt(fdt[..], node, c, n) && prop == GetProperty(Struct(fdt[..]), Strings(fdt[..]), node, name)
    requires Named(n.body, Strings(fdt[..])) && GetAttr(Abs(n.body, Strings(fdt[..])), name).Some?
    requires idx + |x| <= |GetAttr(Abs(n.body, Strings(fdt[..])), name).value|
    modifies fdt
    ensures var b := old(fdt[..]); var a := Abs(n.body, Strings(b));
      Stored(b, fdt[..], node, c, n, g, ReplaceAttr(a, name, Put(GetAttr(a, name).value, idx, x)))
    ensures prop + 12 + idx + |x| <= |Struct(old(fdt[..]))| && Sane(fdt[..])
    ensures Struct(fdt[..]) == Put(Struct(old(fdt[..])), prop + 12 + idx, x)
    ensures fdt[..] == Put(old(fdt[..]), Field(old(fdt[..]), OFF_STRUCT) + prop + 12 + idx, x)
  {
    hide Field, Struct, Strings, NameAt, Holds, GetProperty, Edited, Stored, NodeAt, Put, Abs, Named, GetAttr,
         ReplaceAttr;
    ghost var b := fdt[..];
    g := StoreIs(b, prop, idx, x, node, c, n, name);
    WriteStruct(fdt, prop + 12 + idx, x);
    EditedBlocks(b, fdt[..], Put(Struct(b), prop + 12 + idx, x), Strings(b));
  }

  /** Where the store goes, and what it does. */
  lemma StoreIs(b: bytes, prop: nat, idx: nat, x: bytes, node: int, c: Ctx, n: Forest, name: bytes) returns (g: Forest)
    requires NodeAt(b, node, c, n) && prop == GetProperty(Struct(b), Strings(b), node, name)
    requires Named(n.body, Strings(b)) && GetAttr(Abs(n.body, Strings(b)), name).Some?
    requires idx + |x| <= |GetAttr(Abs(n.body, Strings(b)), name).value|
    ensures Editable(b) && HEADER_SIZE <= Field(b, OFF_STRUCT) && Field(b, OFF_STRUCT) + |Struct(b)| <= |b|
    ensures prop + 12 + idx + |x| <= |Struct(b)|
    ensures var a := Abs(n.body, Strings(b));
      forall d | Edited(b, d, Put(Struct(b), prop + 12 + idx, x), Strings(b)) ::
        Stored(b, d, node, c, n, g, ReplaceAttr(a, name, Put(GetAttr(a, name).value, idx, x)))
  {
    hide Field, Struct, Strings, NameAt, Pre, Holds, GetProperty, Edited, Stored, NodeAt, Put, PropCtx, PropTail,
         InBody, Plug, WithBody, Abs, Named, GetAttr, ReplaceAttr, EncTok, At, PropLen, Align4, StoredTok;
    NodeAtWf(b, node, c, n);
    PropCtxAbs(n.body, Strings(b), name);
    var k, f, r := PropPlaced(b, node, c, n, name);
    ValueInside(b, n, name, k, f, r);
    g := WithBody(n, Plug(k, Item(StoredTok(f.tok, idx, x), f.rest)));
    forall d | Edited(b, d, Put(Struct(b), prop + 12 + idx, x), Strings(b))
      ensures Stored(b, d, node, c, n, g, ReplaceAttr(Abs(n.body, Strings(b)), name, Put(f.tok.val, idx, x))) {
      ValueStored(b, d, node, c, n, name, k, f, r, idx, x);
    }
  }

  lemma ValueInside(b: bytes, n: Forest, name: bytes, k: Ctx, f: Forest, r: int)
    requires Editable(b) && n.Node? && Found(Strings(b), n, name, k, f) && At(Struct(b), r, EncTok(f.tok))
    requires WfTok(f.tok)
    requires Named(n.body, Strings(b))
    ensures f.Item? && f.tok.Prop? && r + 12 + |f.tok.val| <= |Struct(b)|
    ensures GetAttr(Abs(n.body, Strings(b)), name) == Some(f.tok.val)
    ensures HEADER_SIZE <= Field(b, OFF_STRUCT) && Field(b, OFF_STRUCT) + |Struct(b)| <= |b|
  {
    hide NameAt, Word;
    PropSize(f.tok.nameoff, f.tok.val, f.tok.pad);
    PropCtxAbs(n.body, Strings(b), name);
  }

  // ---------------------------------------------------------------- reading a property

  /** What `fdt_getprop` finds. */
  lemma PropRead(b: bytes, node: int, c: Ctx, n: Forest, name: bytes)
    requires NodeAt(b, node, c, n)
    ensures Live(b) && Named(n.body, Strings(b))
    ensures var s := Struct(b); var r := GetProperty(s, Strings(b), node, name);
      match GetAttr(Abs(n.body, Strings(b)), name)
      case None => r == -ERR_NOTFOUND
      case Some(v) => 0 <= r && r + 12 + |v| <= |s| && PropLen(s, r) == |v| && s[r + 12..r + 12 + |v|] == v
  {
    hide Field, Struct, Strings, NameAt, EncTok, Aligned, Pre, Post, TagAt, PropLen, Align4, Holds, GetProperty;
    NodeLookup(b, node, c, n, name, []);
    PropCtxAbs(n.body, Strings(b), name);
    if PropCtx(n.body, Strings(b), name).Some? {
      var k, f, r := PropPlaced(b, node, c, n, name);
      WfPlug(k, f);
      ValueInside(b, n, name, k, f, r);
      ValueBytes(Struct(b), r, f.tok);
    }
  }

  lemma LenWord(s: bytes, r: int)
    requires 0 <= r && r + 12 <= |s|
    ensures PropLen(s, r) == Unword(s[r + 4..r + 8])
  {
  }

  // ---------------------------------------------------------------- the public functions

  /** The length check of `fdt_setprop_inplace_namelen_partial`, with its 32-bit sum. */
  predicate GuardAccepts(proplen: int, idx: nat, len: nat)
  {
    !(proplen < (len + idx) % TWO32)
  }

  /** It accepts exactly the stores inside the value if and only if the sum does not wrap below the length. */
  lemma GuardIs(proplen: int, idx: nat, len: nat)
    requires 0 <= proplen < TWO31 && idx < TWO32 && len < TWO31
    ensures (GuardAccepts(proplen, idx, len) <==> idx + len <= proplen) <==>
      idx + len < TWO32 || proplen < idx + len - TWO32
  {
  }

  /** A store of one byte at the last index of 32 bits is accepted for every property, although it lies outside the
      value: in front of it where addresses have 32 bits, far behind it where they have 64. */
  lemma GuardFails(proplen: int)
    requires 0 <= proplen < TWO31
    ensures GuardAccepts(proplen, 0xffff_ffff, 1) && !(0xffff_ffff + 1 <= proplen)
  {
  }

  /** `fdt_setprop_inplace_namelen_partial`: the store goes through exactly if it lies inside the value; then that part
      of the value is `x` and every other byte of the blob is as it was. */
  method SetPropInplacePartial(fdt: array<byte>, node: int, name: bytes, idx: nat, x: bytes, ghost c: Ctx,
                               ghost n: Forest)
    returns (err: int, ghost g: Forest)
    requires NodeAt(fdt[..], node, c, n) && R.IsInt(node) && idx < TWO32 && |x| < TWO31
    requires idx + |x| < TWO32 || GetProperty(Struct(fdt[..]), Strings(fdt[..]), node, name) < 0
             || PropLen(Struct(fdt[..]), GetProperty(Struct(fdt[..]), Strings(fdt[..]), node, name)) < idx + |x| - TWO32
    modifies fdt
    ensures Named(n.body, Strings(old(fdt[..])))
    ensures var b := old(fdt[..]); var a := Abs(n.body, Strings(b));
      match GetAttr(a, name)
      case None => err == -ERR_NOTFOUND && fdt[..] == b
      case Some(v) =>
        if |v| < idx + |x| then err == -ERR_NOSPACE && fdt[..] == b
        else
          var p := Field(b, OFF_STRUCT) + GetProperty(Struct(b), Strings(b), node, name) + 12 + idx;
          && err == 0 && 0 <= p && p + |x| <= |b| && fdt[..] == Put(b, p, x)
          && Stored(b, fdt[..], node, c, n, g, ReplaceAttr(a, name, Put(v, idx, x)))
  {
    hide Field, Struct, Strings, NameAt, Pre, Holds, GetProperty, Stored, NodeAt, Put, Abs, Named, Word, Unword,
         ReplaceAttr, PropLen;
    ghost var b := fdt[..];
    g := n;
    NodeAtWf(b, node, c, n);
    PropRead(b, node, c, n, name);
    var propval := R.GetProperty(fdt, node, name);
    if propval < 0 {
      return propval, g;
    }
    var proplen := R.StructWord(fdt, propval + 4);
    LenWord(Struct(b), propval);
    if proplen < (|x| + idx) % TWO32 {
      return -ERR_NOSPACE, g;
    }
    g := StoreValue(fdt, propval, idx, x, node, c, n, name);
    err := 0;
  }

  /** `fdt_setprop_inplace`: a value of the same length. */
  method SetPropInplace(fdt: array<byte>, node: int, name: bytes, x: bytes, ghost c: Ctx, ghost n: Forest)
    returns (err: int, ghost g: Forest)
    requires NodeAt(fdt[..], node, c, n) && R.IsInt(node) && |x| < TWO31
    modifies fdt
    ensures Named(n.body, Strings(old(fdt[..])))
    ensures var b := old(fdt[..]); var a := Abs(n.body, Strings(b));
      match GetAttr(a, name)
      case None => err == -ERR_NOTFOUND && fdt[..] == b
      case Some(v) =>
        if |v| != |x| then err == -ERR_NOSPACE && fdt[..] == b
        else err == 0 && Stored(b, fdt[..], node, c, n, g, SetAttr(a, name, x))
  {
    hide Field, Struct, Strings, NameAt, Pre, Holds, GetProperty, Stored, NodeAt, Put, Abs, Named, Word, Unword,
         ReplaceAttr, PropLen;
    ghost var b := fdt[..];
    g := n;
    NodeAtWf(b, node, c, n);
    PropRead(b, node, c, n, name);
    var propval := R.GetProperty(fdt, node, name);
    if propval < 0 {
      return propval, g;
    }
    var proplen := R.StructWord(fdt, propval + 4);
    LenWord(Struct(b), propval);
    if proplen != |x| {
      return -ERR_NOSPACE, g;
    }
    WholeValue(GetAttr(Abs(n.body, Strings(b)), name).value, x);
    err, g := SetPropInplacePartial(fdt, node, name, 0, x, c, n);
  }

  lemma WholeValue(v: bytes, x: bytes)
    requires |v| == |x|
    ensures Put(v, 0, x) == x
  {
  }
}
