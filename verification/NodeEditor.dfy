/** Deleting and appending properties, and renaming, adding, deleting and blanking nodes in place. */
module NodeEditor {
  import opened Bytes
  import opened Format
  import opened Tree
  import opened Blob
  import opened Walk
  import opened TreeOps
  import opened Splicing
  import opened Editor
  import R = Reader

  // ---------------------------------------------------------------- fdt_delprop

  /** Cutting a property token out deletes the property. */
  lemma DropFound(b: bytes, d: bytes, off: int, c: Ctx, n: Forest, name: bytes, k: Ctx, g: Forest, r: int)
    requires NodeAt(b, off, c, n) && Found(Strings(b), n, name, k, g)
    requires WfCtx(InBody(c, n, k)) && r == |Pre(InBody(c, n, k))| && r + |EncTok(g.tok)| <= |Struct(b)|
    requires Edited(b, d, Splice(Struct(b), r, |EncTok(g.tok)|, []), Strings(b))
    ensures BodyIs(b, d, off, c, n, WithBody(n, Plug(k, g.rest)), DelAttr(Abs(n.body, Strings(b)), name))
  {
    hide Field, Struct, Strings, NameAt, EncTok, Aligned, Edited, Pre, Post, Holds, Splice;
    var t, s := Strings(b), Struct(b);
    var s' := Splice(s, r, |EncTok(g.tok)|, []);
    EditedSize(b, d, s', t);
    NodeAtHole(s, c, n.name, n.pad, n.body, n.rest);
    InBodyIs(c, n, k, g);
    InBodyIs(c, n, k, g.rest);
    HoldsWf(s, Plug(c, n));
    EditHead(s, InBody(c, n, k), g, g.rest, |EncTok(g.tok)|, []);
    DropPropAbs(n.body, t, name);
    BodyHeld(b, d, off, c, n, Plug(k, g.rest), s', t);
  }

  /** What one splice over the found property means. */
  lemma DelPropDone(b: bytes, d: bytes, off: int, c: Ctx, n: Forest, name: bytes, prop: int, err: int)
    returns (g: Forest)
    requires NodeAt(b, off, c, n) && prop == GetProperty(Struct(b), Strings(b), off, name) && prop >= 0
    requires prop + 12 + Align4(PropLen(Struct(b), prop)) <= |Struct(b)| ==>
      && (err == if DataSize(b) - (12 + Align4(PropLen(Struct(b), prop))) <= Field(b, TOTALSIZE)
             then 0 else -ERR_NOSPACE)
      && (err == 0 ==> Edited(b, d, Splice(Struct(b), prop, 12 + Align4(PropLen(Struct(b), prop)), []), Strings(b)))
    ensures err == 0 && GetAttr(Abs(n.body, Strings(b)), name).Some?
    ensures BodyIs(b, d, off, c, n, g, DelAttr(Abs(n.body, Strings(b)), name))
  {
    hide Field, Struct, Strings, TagAt, GetProperty, Edited, Pre, Post, Splice, BodyIs, Align4, Unword, NameAt, GetAttr,
         Abs, NodeAt, PropLen;
    NodeAtWf(b, off, c, n);
    EditableSize(b);
    NodeLookup(b, off, c, n, name, []);
    var k, f, r := PropPlaced(b, off, c, n, name);
    PropSize(f.tok.nameoff, f.tok.val, f.tok.pad);
    DropFound(b, d, off, c, n, name, k, f, r);
    g := WithBody(n, Plug(k, f.rest));
  }

  /** `fdt_delprop`. */
  method DelProp(fdt: array<byte>, node: int, name: bytes, ghost c: Ctx, ghost n: Forest)
    returns (err: int, ghost g: Forest)
    requires Sane(fdt[..]) && Field(fdt[..], MAGIC) != SW_MAGIC && R.IsInt(node)
    modifies fdt
    ensures err != 0 ==> fdt[..] == old(fdt[..])
    ensures var b := old(fdt[..]);
      NodeAt(b, node, c, n) ==>
        && (err == if GetAttr(Abs(n.body, Strings(b)), name).Some? then 0 else -ERR_NOTFOUND)
        && (err == 0 ==> BodyIs(b, fdt[..], node, c, n, g, DelAttr(Abs(n.body, Strings(b)), name)))
  {
    hide Field, Struct, Strings, TagAt, GetProperty, CheckNode, Sane, Edited, Splice, NodeAt, BodyIs, Align4, Unword,
         RwProbe, PropCtx, NameAt, Abs, GetAttr, DelAttr;
    ghost var b := fdt[..];
    g := n;
    SaneSize(b);
    ProbeIsEditable(b);
    err := RwProbe(fdt[..]);
    if err != 0 {
      NotNodeAt(b, node, c, n);
      return;
    }
    var prop := R.GetProperty(fdt, node, name);
    if prop < 0 {
      if NodeAt(b, node, c, n) {
        NodeAtWf(b, node, c, n);
        NodeLookup(b, node, c, n, name, []);
      }
      return prop, g;
    }
    assert CheckProp(Struct(b), prop) >= 0;
    var len := R.StructWord(fdt, prop + 4);
    var p := Field(fdt[..], OFF_STRUCT) + prop;
    err := SpliceStruct(fdt, p, 12 + Align4(len), 0);
    if NodeAt(b, node, c, n) {
      assert prop + 12 <= |Struct(b)|;
      assert b[p..p + 0] == [];
      g := DelPropDone(b, fdt[..], node, c, n, name, prop, err);
    }
  }

  lemma EditableSize(b: bytes)
    requires Editable(b)
    ensures DataSize(b) <= Field(b, TOTALSIZE) <= |b|
  {
  }

  // ---------------------------------------------------------------- fdt_appendprop

  /** How many bytes an append needs. */
  function AppendGrowth(t: bytes, body: Forest, name: bytes, val: bytes): (n: int)
  {
    match PropCtx(body, t, name)
    case Some(_) =>
      var size := |PropTail(body, t, name).tok.val|;
      Align4(size + |val|) - Align4(size)
    case None => NameCost(t, name) + 12 + Align4(|val|)
  }

  /** After the grow the old value still stands in front, so storing the addition behind it appends. */
  lemma AppendBytes(s: bytes, r: nat, tok: Token, x: bytes, val: bytes)
    requires WfTok(tok) && tok.Prop? && At(s, r, EncTok(tok)) && r + 12 + Align4(|tok.val|) <= |s|
    requires |tok.val| + |val| <= |x| && |tok.val| + |val| < TWO32 && x[..|tok.val|] == tok.val
    ensures var s1 := Put(Splice(s, r + 12, Align4(|tok.val|), x), r + 4, Word(|tok.val| + |val|));
      Put(s1, r + 12 + |tok.val|, val) == Put(s1, r + 12, tok.val + val)
  {
    hide Word, EncTok, Align4;
    var s0 := Splice(s, r + 12, Align4(|tok.val|), x);
    var s1 := Put(s0, r + 4, Word(|tok.val| + |val|));
    var m := |tok.val|;
    assert s0[r + 12..r + 12 + m] == tok.val;
    PutOutside(s0, r + 4, Word(m + |val|), r + 12, r + 12 + m);
    assert s1[r + 12..r + 12 + m] == tok.val;
    SamePut(s1, r + 12, tok.val, val);
  }

  lemma SamePut(s: bytes, p: nat, a: bytes, v: bytes)
    requires p + |a| + |v| <= |s| && s[p..p + |a|] == a
    ensures Put(s, p + |a|, v) == Put(s, p, a + v)
  {
  }

  /** The bytes of a property value, read straight from the blob. */
  lemma ValueInBlob(b: bytes, r: nat, tok: Token)
    requires Editable(b) && WfTok(tok) && tok.Prop? && Aligned(r) && At(Struct(b), r, EncTok(tok))
    ensures var p := Field(b, OFF_STRUCT) + r + 12; p + |tok.val| <= |b| && b[p..p + |tok.val|] == tok.val
  {
    hide Field, EncTok, Word;
    PropFields(Struct(b), r, tok);
    SliceOfSlice(b, Field(b, OFF_STRUCT), |Struct(b)|, r + 12, r + 12 + |tok.val|);
  }

  lemma AppendExisting(b: bytes, d: bytes, off: int, c: Ctx, n: Forest, name: bytes, val: bytes, x: bytes, k: Ctx,
                       g: Forest, r: int)
    requires NodeAt(b, off, c, n) && Found(Strings(b), n, name, k, g)
    requires |x| == Align4(|g.tok.val| + |val|) && |g.tok.val| + |val| < TWO31 && x[..|g.tok.val|] == g.tok.val
    requires WfCtx(InBody(c, n, k)) && r == |Pre(InBody(c, n, k))|
    requires At(Struct(b), r, EncTok(g.tok)) && r + |EncTok(g.tok)| <= |Struct(b)|
    requires r + 12 + Align4(|g.tok.val|) <= |Struct(b)|
    requires Edited(b, d, Put(Put(Splice(Struct(b), r + 12, Align4(|g.tok.val|), x), r + 4, Word(|g.tok.val| + |val|)),
      r + 12 + |g.tok.val|, val), Strings(b))
    ensures var tok := Prop(g.tok.nameoff, g.tok.val + val, x[|g.tok.val + val|..]);
      BodyIs(b, d, off, c, n, WithBody(n, Plug(k, Item(tok, g.rest))), AppendAttr(Abs(n.body, Strings(b)), name, val))
  {
    hide Field, Struct, Strings, NameAt, EncTok, Aligned, Align4, Word, Put, Splice, Edited, Pre, Post, Holds, BodyIs;
    PropCtxAbs(n.body, Strings(b), name);
    AppendBytes(Struct(b), r, g.tok, x, val);
    SetExisting(b, d, off, c, n, name, g.tok.val + val, x, k, g, r);
  }

  /** `fdt_appendprop`. */
  method AppendProp(fdt: array<byte>, node: int, name: bytes, val: bytes, ghost c: Ctx, ghost n: Forest)
    returns (err: int, ghost g: Forest)
    requires Sane(fdt[..]) && Field(fdt[..], MAGIC) != SW_MAGIC
    requires R.IsInt(node) && NoNul(name) && |name| < INT_MAX && fdt.Length + |val| <= INT_MAX - 16
    modifies fdt
    ensures err != 0 ==> Sane(fdt[..]) && Used(fdt[..]) == old(Used(fdt[..]))
    ensures var b := old(fdt[..]);
      NodeAt(b, node, c, n) ==>
        && (err == if DataSize(b) + AppendGrowth(Strings(b), n.body, name, val) <= Field(b, TOTALSIZE)
               then 0 else -ERR_NOSPACE)
        && (err == 0 ==> BodyIs(b, fdt[..], node, c, n, g, AppendAttr(Abs(n.body, Strings(b)), name, val)))
  {
    hide Field, Struct, Strings, Sane, RwProbe, NodeAt, BodyIs, Used, GetProperty, AppendGrowth, AppendAttr, Abs,
         NameAt;
    ghost var b := fdt[..];
    g := n;
    SaneSize(b);
    ProbeIsEditable(b);
    err := RwProbe(fdt[..]);
    if err != 0 {
      NotNodeAt(b, node, c, n);
      return;
    }
    var prop := R.GetProperty(fdt, node, name);
    if prop >= 0 {
      err, g := GrowProp(fdt, node, name, val, prop, c, n);
    } else {
      err, g := AddAppended(fdt, node, name, val, c, n);
    }
  }

  /** What the grow and the two stores of an append mean. */
  lemma GrowDone(b: bytes, d: bytes, off: int, c: Ctx, n: Forest, name: bytes, val: bytes, prop: int)
    returns (g: Forest)
    requires NodeAt(b, off, c, n) && prop == GetProperty(Struct(b), Strings(b), off, name) && prop >= 0
    requires |b| + |val| < TWO31 && PropLen(Struct(b), prop) <= |b|
    requires var len := PropLen(Struct(b), prop); var p := Field(b, OFF_STRUCT) + prop + 12;
      prop + 12 + Align4(len) <= |Struct(b)| ==>
        && p + Align4(len + |val|) <= |b|
        && var longer := Splice(Struct(b), prop + 12, Align4(len), b[p..p + Align4(len + |val|)]);
           Edited(b, d, Put(Put(longer, prop + 4, Word(len + |val|)), prop + 12 + len, val), Strings(b))
    ensures BodyIs(b, d, off, c, n, g, AppendAttr(Abs(n.body, Strings(b)), name, val))
  {
    hide Field, Struct, Strings, TagAt, GetProperty, Edited, Pre, Post, Splice, Put, Word, BodyIs, Align4, Unword,
         NameAt, GetAttr, Abs, NodeAt, AppendAttr, EncTok, PropLen;
    NodeAtWf(b, off, c, n);
    NodeLookup(b, off, c, n, name, []);
    var k, f, r := PropPlaced(b, off, c, n, name);
    ValueInBlob(b, r, f.tok);
    var m := |f.tok.val|;
    var p := Field(b, OFF_STRUCT) + prop + 12;
    var x := b[p..p + Align4(m + |val|)];
    assert x[..m] == b[p..p + m];
    AppendExisting(b, d, off, c, n, name, val, x, k, f, r);
    g := WithBody(n, Plug(k, Item(Prop(f.tok.nameoff, f.tok.val + val, x[|f.tok.val + val|..]), f.rest)));
  }

  /** When the found property can grow. */
  lemma GrowFits(b: bytes, off: int, c: Ctx, n: Forest, name: bytes, val: bytes)
    requires NodeAt(b, off, c, n) && GetProperty(Struct(b), Strings(b), off, name) >= 0
    ensures var r := GetProperty(Struct(b), Strings(b), off, name);
      && r + 12 <= |Struct(b)| && r + 12 + Align4(PropLen(Struct(b), r)) <= |Struct(b)|
      && AppendGrowth(Strings(b), n.body, name, val)
         == Align4(PropLen(Struct(b), r) + |val|) - Align4(PropLen(Struct(b), r))
  {
    hide Field, Struct, Strings, TagAt, GetProperty, Pre, Post, Align4, Unword, NameAt, Abs, NodeAt, PropLen;
    NodeAtWf(b, off, c, n);
    NodeLookup(b, off, c, n, name, []);
    var k, f, r := PropPlaced(b, off, c, n, name);
  }

  /** The branch of `fdt_appendprop` that found the property at `prop`. */
  method GrowProp(fdt: array<byte>, node: int, name: bytes, val: bytes, prop: int, ghost c: Ctx, ghost n: Forest)
    returns (err: int, ghost g: Forest)
    requires Editable(fdt[..]) && R.IsInt(node) && fdt.Length + |val| <= INT_MAX - 16
    requires prop >= 0 && prop == GetProperty(Struct(fdt[..]), Strings(fdt[..]), node, name)
    modifies fdt
    ensures err != 0 ==> fdt[..] == old(fdt[..])
    ensures var b := old(fdt[..]);
      NodeAt(b, node, c, n) ==>
        && (err == if DataSize(b) + AppendGrowth(Strings(b), n.body, name, val) <= Field(b, TOTALSIZE)
               then 0 else -ERR_NOSPACE)
        && (err == 0 ==> BodyIs(b, fdt[..], node, c, n, g, AppendAttr(Abs(n.body, Strings(b)), name, val)))
  {
    hide Field, Unword, Word, Struct, Strings, TagAt, Edited, Align4, NodeAt, BodyIs, AppendAttr, Abs, NameAt, PropCtx,
         Splice, Put, Sane, AppendGrowth, GetProperty;
    ghost var b := fdt[..];
    g := n;
    assert CheckProp(Struct(b), prop) >= 0;
    var oldlen := R.StructWord(fdt, prop + 4);
    R.PropLenInt(Struct(b), prop);
    var newlen := |val| + oldlen;
    EditableSize(b);
    if NodeAt(b, node, c, n) {
      GrowFits(b, node, c, n, name, val);
    }
    var p := Field(fdt[..], OFF_STRUCT) + prop + 12;
    err := SpliceStruct(fdt, p, Align4(oldlen), Align4(newlen));
    if err != 0 {
      return;
    }
    ghost var b1 := fdt[..];
    WriteStruct(fdt, prop + 4, Word(newlen));
    ghost var b2 := fdt[..];
    WriteStruct(fdt, prop + 12 + oldlen, val);
    if NodeAt(b, node, c, n) {
      ghost var s0 := Splice(Struct(b), prop + 12, Align4(oldlen), b[p..p + Align4(newlen)]);
      WriteBehind(b, b1, b2, s0, Strings(b), prop + 4, Word(newlen));
      WriteBehind(b, b2, fdt[..], Put(s0, prop + 4, Word(newlen)), Strings(b), prop + 12 + oldlen, val);
      g := GrowDone(b, fdt[..], node, c, n, name, val, prop);
    }
  }

  /** The branch of `fdt_appendprop` for a property that is not there. */
  method AddAppended(fdt: array<byte>, node: int, name: bytes, val: bytes, ghost c: Ctx, ghost n: Forest)
    returns (err: int, ghost g: Forest)
    requires Editable(fdt[..]) && R.IsInt(node) && NoNul(name) && |name| < INT_MAX && |val| <= INT_MAX - 16
    requires GetProperty(Struct(fdt[..]), Strings(fdt[..]), node, name) < 0
    modifies fdt
    ensures err != 0 ==> Editable(fdt[..]) && Used(fdt[..]) == old(Used(fdt[..]))
    ensures var b := old(fdt[..]);
      NodeAt(b, node, c, n) ==>
        && (err == if DataSize(b) + AppendGrowth(Strings(b), n.body, name, val) <= Field(b, TOTALSIZE)
               then 0 else -ERR_NOSPACE)
        && (err == 0 ==> BodyIs(b, fdt[..], node, c, n, g, AppendAttr(Abs(n.body, Strings(b)), name, val)))
  {
    hide Field, Word, Struct, Strings, TagAt, Edited, Align4, NodeAt, BodyIs, SetAttr, Abs, NameAt, Holds, PropCtx, Pre,
         Splice, Put, GetAttr, Completes, CheckNode, GetProperty, NamesWith, NameCost, PropHeader, Sane;
    ghost var b := fdt[..];
    g := n;
    var prop;
    ghost var nameoff, x;
    if NodeAt(b, node, c, n) {
      NodeAtWf(b, node, c, n);
      NodeLookup(b, node, c, n, name, val);
    }
    err, prop, nameoff, x := AddProperty(fdt, node, name, |val|);
    if err != 0 {
      return;
    }
    ghost var d := fdt[..];
    WriteStruct(fdt, prop + 12, val);
    if NodeAt(b, node, c, n) {
      ghost var s1;
      g, s1 := CompletesNew(b, node, c, n, name, val, nameoff, x);
      CompletesSize(b, node, c, n, g, SetAttr(Abs(n.body, Strings(b)), name, val), val, prop, s1, NamesWith(Strings(b),
        name));
      WriteBehind(b, d, fdt[..], s1, NamesWith(Strings(b), name), prop + 12, val);
      CompletesIs(b, fdt[..], node, c, n, g, SetAttr(Abs(n.body, Strings(b)), name, val), val, prop, s1,
        NamesWith(Strings(b), name));
      AppendIsSet(Abs(n.body, Strings(b)), name, val);
    }
  }

  lemma AppendIsSet(a: Tree, name: bytes, val: bytes)
    requires GetAttr(a, name).None?
    ensures AppendAttr(a, name, val) == SetAttr(a, name, val)
  {
  }

  lemma CompletesSize(b: bytes, off: int, c: Ctx, n: Forest, g: Forest, a: Tree, val: bytes, prop: int, s1: bytes,
                      t1: bytes)
    requires Completes(b, off, c, n, g, a, val, prop, s1, t1)
    ensures 0 <= prop && prop + 12 + |val| <= |s1|
  {
    hide Edited, BodyIs, NodeAt;
  }

  lemma CompletesIs(b: bytes, d: bytes, off: int, c: Ctx, n: Forest, g: Forest, a: Tree, val: bytes, prop: int,
                    s1: bytes, t1: bytes)
    requires Completes(b, off, c, n, g, a, val, prop, s1, t1) && Edited(b, d, Put(s1, prop + 12, val), t1)
    ensures BodyIs(b, d, off, c, n, g, a)
  {
    hide Edited, BodyIs, NodeAt, Put;
  }
}
