/** In-place editing of a finished blob (`fdt_rw.c`, `fdt_wip.c`). */
module Editor {
  import opened Bytes
  import opened Format
  import opened Tree
  import opened Blob
  import opened Walk
  import opened TreeOps
  import opened Splicing
  import R = Reader

  // ---------------------------------------------------------------- bytes of one property

  lemma SpliceIs(r: bytes, s: bytes, p: nat, gone: nat, x: bytes)
    requires p + gone <= |s| && |r| == |s| - gone + |x|
    requires r[..p] == s[..p] && At(r, p, x) && r[p + |x|..] == s[p + gone..]
    ensures r == Splice(s, p, gone, x)
  {
    assert r == r[..p] + r[p..p + |x|] + r[p + |x|..];
  }

  lemma PropJoin(r: bytes, p: int, nameoff: int, val: bytes, pad: bytes)
    requires WfTok(Prop(nameoff, val, pad))
    requires At(r, p, Word(PROP)) && At(r, p + 4, Word(|val|)) && At(r, p + 8, Word(nameoff))
    requires At(r, p + 12, val) && At(r, p + 12 + |val|, pad)
    ensures At(r, p, EncTok(Prop(nameoff, val, pad)))
  {
    hide Word;
    AtSplit(r, p, Word(PROP), Word(|val|));
    AtSplit(r, p, Word(PROP) + Word(|val|), Word(nameoff));
    AtSplit(r, p, Word(PROP) + Word(|val|) + Word(nameoff), val);
    AtSplit(r, p, Word(PROP) + Word(|val|) + Word(nameoff) + val, pad);
  }

  /** A write keeps what stands elsewhere, and a write inside a region rewrites the region. */
  lemma PutMoves(s: bytes, p: nat, x: bytes, off: int, y: bytes)
    requires p + |x| <= |s| && At(s, off, y)
    ensures off + |y| <= p || p + |x| <= off ==> At(Put(s, p, x), off, y)
  {
    if off + |y| <= p || p + |x| <= off {
      PutOutside(s, p, x, off, off + |y|);
    }
  }

  lemma PutAt(s: bytes, p: nat, x: bytes)
    requires p + |x| <= |s|
    ensures At(Put(s, p, x), p, x)
  {
    PutInside(s, p, x);
  }

  /** Resizing a property, storing its length and then its value replaces the property token. */
  lemma ResizeBytes(s: bytes, p: nat, nameoff: int, val: bytes, pad: bytes, x: bytes, wanted: bytes)
    requires WfTok(Prop(nameoff, val, pad)) && At(s, p, EncTok(Prop(nameoff, val, pad)))
    requires |x| == Align4(|wanted|) && |wanted| < TWO31
    ensures p + 12 + Align4(|val|) <= |s| && WfTok(Prop(nameoff, wanted, x[|wanted|..]))
    ensures var s1 := Put(Splice(s, p + 12, Align4(|val|), x), p + 4, Word(|wanted|));
      Put(s1, p + 12, wanted)
        == Splice(s, p, |EncTok(Prop(nameoff, val, pad))|, EncTok(Prop(nameoff, wanted, x[|wanted|..])))
  {
    PropSize(nameoff, val, pad);
    PropSize(nameoff, wanted, x[|wanted|..]);
    PropParts(s, p, nameoff, val, pad);
    InBlock(s, p, EncTok(Prop(nameoff, val, pad)));
    ResizeJoin(s, p, nameoff, Align4(|val|), x, wanted);
  }

  lemma ResizeJoin(s: bytes, p: nat, nameoff: int, gone: nat, x: bytes, wanted: bytes)
    requires 0 <= nameoff < TWO32 && p + 12 + gone <= |s| && |wanted| < TWO31 && |x| == Align4(|wanted|)
    requires At(s, p, Word(PROP)) && At(s, p + 8, Word(nameoff))
    ensures WfTok(Prop(nameoff, wanted, x[|wanted|..]))
    ensures Put(Put(Splice(s, p + 12, gone, x), p + 4, Word(|wanted|)), p + 12, wanted)
      == Splice(s, p, 12 + gone, EncTok(Prop(nameoff, wanted, x[|wanted|..])))
  {
    hide Word;
    PropSize(nameoff, wanted, x[|wanted|..]);
    hide Align4, EncTok, Put, Splice, At;
    var s0 := Splice(s, p + 12, gone, x);
    var s1 := Put(s0, p + 4, Word(|wanted|));
    var s2 := Put(s1, p + 12, wanted);
    SpliceMoves(s, p + 12, gone, x, p, Word(PROP));
    SpliceMoves(s, p + 12, gone, x, p + 8, Word(nameoff));
    PutMoves(s0, p + 4, Word(|wanted|), p, Word(PROP));
    PutMoves(s0, p + 4, Word(|wanted|), p + 8, Word(nameoff));
    PutAt(s0, p + 4, Word(|wanted|));
    PutMoves(s1, p + 12, wanted, p, Word(PROP));
    PutMoves(s1, p + 12, wanted, p + 4, Word(|wanted|));
    PutMoves(s1, p + 12, wanted, p + 8, Word(nameoff));
    PutAt(s1, p + 12, wanted);
    ResizeRest(s, p, gone, x, wanted);
    PropJoin(s2, p, nameoff, wanted, x[|wanted|..]);
    SpliceIs(s2, s, p, 12 + gone, EncTok(Prop(nameoff, wanted, x[|wanted|..])));
  }

  lemma SpliceTail(s: bytes, p: nat, gone: nat, x: bytes, k: nat)
    requires p + gone <= |s| && k <= |x|
    ensures At(Splice(s, p, gone, x), p + k, x[k..])
  {
    SameBytes(Splice(s, p, gone, x)[p + k..p + |x|], x[k..]);
  }

  lemma ResizeRest(s: bytes, p: nat, gone: nat, x: bytes, wanted: bytes)
    requires p + 12 + gone <= |s| && |wanted| <= |x| && |wanted| < TWO31
    ensures var s2 := Put(Put(Splice(s, p + 12, gone, x), p + 4, Word(|wanted|)), p + 12, wanted);
      s2[..p] == s[..p] && s2[p + 12 + |x|..] == s[p + 12 + gone..] && At(s2, p + 12 + |wanted|, x[|wanted|..])
  {
    hide Word, Put, Splice;
    var s0 := Splice(s, p + 12, gone, x);
    var s1 := Put(s0, p + 4, Word(|wanted|));
    SpliceMoves(s, p + 12, gone, x, 0, s[..p]);
    SpliceMoves(s, p + 12, gone, x, p + 12 + gone, s[p + 12 + gone..]);
    SpliceTail(s, p + 12, gone, x, |wanted|);
    PutMoves(s0, p + 4, Word(|wanted|), 0, s[..p]);
    PutMoves(s0, p + 4, Word(|wanted|), p + 12 + |x|, s[p + 12 + gone..]);
    PutMoves(s0, p + 4, Word(|wanted|), p + 12 + |wanted|, x[|wanted|..]);
    PutMoves(s1, p + 12, wanted, 0, s[..p]);
    PutMoves(s1, p + 12, wanted, p + 12 + |x|, s[p + 12 + gone..]);
    PutMoves(s1, p + 12, wanted, p + 12 + |wanted|, x[|wanted|..]);
  }

  lemma ReplaceTok(s: bytes, c: Ctx, tok: Token, wanted: Token, rest: Forest)
    requires Holds(s, Plug(c, Item(tok, rest))) && WfTok(wanted) && wanted.Prop? && WfTok(tok) && tok.Prop?
    requires |s| - |EncTok(tok)| + |EncTok(wanted)| < TWO31
    ensures WfCtx(c) && |Pre(c)| + |EncTok(tok)| <= |s|
    ensures Holds(Splice(s, |Pre(c)|, |EncTok(tok)|, EncTok(wanted)), Plug(c, Item(wanted, rest)))
  {
    hide EncTok, Pre, Post, Holds, Aligned, Splice, Plug;
    HoldsWf(s, Plug(c, Item(tok, rest)));
    WfPlug(c, Item(tok, rest));
    EditHead(s, c, Item(tok, rest), Item(wanted, rest), |EncTok(tok)|, EncTok(wanted));
  }

  lemma HoldsWf(s: bytes, f: Forest)
    requires Holds(s, f)
    ensures Wf(f) && |s| < TWO31
  {
  }

  // ---------------------------------------------------------------- positions in a blob

  /** The node `n` stands at structure offset `off` of the well-formed blob `b`, in the surroundings `c`. */
  ghost predicate NodeAt(b: bytes, off: int, c: Ctx, n: Forest)
  {
    && Editable(b) && Holds(Struct(b), Plug(c, n)) && Named(Plug(c, n), Strings(b))
    && n.Node? && Wf(n) && WfCtx(c) && off == |Pre(c)| && Named(n, Strings(b))
  }

  /** `d` is `b` with the forest `g` at position `c` and nothing else changed: same surroundings, same reserve map,
      same name strings. */
  ghost predicate Replaced(b: bytes, d: bytes, c: Ctx, g: Forest)
    requires Editable(b)
  {
    && Editable(d) && |d| == |b|
    && Holds(Struct(d), Plug(c, g)) && Named(Plug(c, g), Strings(d)) && Named(g, Strings(d))
    && Strings(b) <= Strings(d)
    && Field(d, TOTALSIZE) == Field(b, TOTALSIZE) && Field(d, OFF_RSVMAP) == Field(b, OFF_RSVMAP)
    && Field(d, OFF_STRUCT) == Field(b, OFF_STRUCT) && Field(d, BOOT_CPUID) == Field(b, BOOT_CPUID)
    && (forall i | HEADER_SIZE <= i < Field(b, OFF_STRUCT) :: d[i] == b[i])
  }

  /** `d` is `b` with `g` in the place of `n`, and `g` is the node `n` with another body. */
  ghost predicate Kept(b: bytes, d: bytes, off: int, c: Ctx, n: Forest, g: Forest)
    requires NodeAt(b, off, c, n)
  {
    && Replaced(b, d, c, g) && NodeAt(d, off, c, g)
    && g.name == n.name && g.pad == n.pad && g.rest == n.rest
  }

  /** ... and that body reads as `a`. */
  ghost predicate BodyIs(b: bytes, d: bytes, off: int, c: Ctx, n: Forest, g: Forest, a: Tree)
    requires NodeAt(b, off, c, n)
  {
    Kept(b, d, off, c, n, g) && Named(g.body, Strings(d)) && Abs(g.body, Strings(d)) == a
  }

  /** The tree a client reads from a blob. */
  function TreeOf(b: bytes): (r: Option<Tree>)
    requires Sane(b)
  {
    match ForestOf(Struct(b))
    case None => None
    case Some(f) => if Named(f, Strings(b)) then Some(Abs(f, Strings(b))) else None
  }

  /** A replacement at one position is the same replacement in the whole tree, and nowhere else. */
  lemma ReplacedTree(b: bytes, d: bytes, c: Ctx, f: Forest, g: Forest)
    requires Editable(b) && Holds(Struct(b), Plug(c, f)) && Named(Plug(c, f), Strings(b)) && Replaced(b, d, c, g)
    ensures NamedC(c, Strings(b)) && Named(f, Strings(b))
    ensures TreeOf(b) == Some(PlugT(AbsC(c, Strings(b)), Abs(f, Strings(b))))
    ensures TreeOf(d) == Some(PlugT(AbsC(c, Strings(b)), Abs(g, Strings(d))))
  {
    hide Field, Struct, Strings, Holds, ForestOf, NameAt, Pre;
    var t := Strings(b);
    var x := Strings(d)[|t|..];
    assert Strings(d) == t + x;
    HoldsParses(Struct(b), Plug(c, f));
    HoldsParses(Struct(d), Plug(c, g));
    AbsPlug(c, f, t);
    AbsPlug(c, g, Strings(d));
    AbsCGrows(c, t, x);
  }

  /** The edit of one body is the same edit of the whole tree, at that place and nowhere else. */
  lemma BodyIsTree(b: bytes, d: bytes, off: int, c: Ctx, n: Forest, g: Forest, a: Tree)
    requires NodeAt(b, off, c, n) && BodyIs(b, d, off, c, n, g, a)
    ensures NamedC(c, Strings(b)) && Named(n, Strings(b))
    ensures TreeOf(b) == Some(PlugT(AbsC(c, Strings(b)), Sub(n.name, Abs(n.body, Strings(b)), Abs(n.rest, Strings(b)))))
    ensures TreeOf(d) == Some(PlugT(AbsC(c, Strings(b)), Sub(n.name, a, Abs(n.rest, Strings(b)))))
  {
    hide Field, Struct, Strings, Holds, ForestOf, NameAt, Pre;
    ReplacedTree(b, d, c, n, g);
    var t := Strings(b);
    var x := Strings(d)[|t|..];
    assert Strings(d) == t + x;
    AbsGrows(n.rest, t, x);
  }

  // ---------------------------------------------------------------- properties

  /** `fdt_resize_property_`: the error code, or 0 and the offset of the property. */
  method ResizeProperty(fdt: array<byte>, node: int, name: bytes, len: nat) returns (err: int, prop: int)
    requires Editable(fdt[..]) && R.IsInt(node) && len <= INT_MAX - 16
    modifies fdt
    ensures var b := old(fdt[..]); var s := Struct(b); var r := GetProperty(s, Strings(b), node, name);
      && err <= 0
      && (err != 0 ==> fdt[..] == b)
      && (r < 0 ==> err == r)
      && (r >= 0 && err != 0 ==> err != -ERR_NOTFOUND)
      && (err == 0 ==> r >= 0 && prop == r && Field(fdt[..], OFF_STRUCT) == Field(b, OFF_STRUCT)
                       && Field(b, OFF_STRUCT) + r + 12 + Align4(len) <= fdt.Length)
      && (r >= 0 && r + 12 + Align4(PropLen(s, r)) <= |s| ==>
        err == if DataSize(b) - Align4(PropLen(s, r)) + Align4(len) <= Field(b, TOTALSIZE) then 0 else -ERR_NOSPACE)
      && (err == 0 && r + 12 + Align4(PropLen(s, r)) <= |s| ==>
        var p := Field(b, OFF_STRUCT) + r + 12;
        Edited(b, fdt[..], Put(Splice(s, r + 12, Align4(PropLen(s, r)), b[p..p + Align4(len)]), r + 4, Word(len)),
          Strings(b)))
  {
    hide Field, Unword, Word, Struct, Strings, TagAt, Edited, Align4;
    ghost var b := fdt[..];
    prop := R.GetProperty(fdt, node, name);
    if prop < 0 {
      return prop, prop;
    }
    assert CheckProp(Struct(b), prop) >= 0;
    var oldlen := R.StructWord(fdt, prop + 4);
    R.PropLenInt(Struct(b), prop);
    var p := Field(fdt[..], OFF_STRUCT) + prop + 12;
    err := SpliceStruct(fdt, p, Align4(oldlen), Align4(len));
    if err != 0 {
      return;
    }
    ghost var b1 := fdt[..];
    WriteStruct(fdt, prop + 4, Word(len));
    if prop + 12 + Align4(oldlen) <= |Struct(b)| {
      ghost var s := Splice(Struct(b), prop + 12, Align4(oldlen), b[p..p + Align4(len)]);
      WriteBehind(b, b1, fdt[..], s, Strings(b), prop + 4, Word(len));
    }
  }

  /** A write into the structure block of an edited blob. */
  lemma WriteBehind(b: bytes, c: bytes, d: bytes, s: bytes, t: bytes, off: nat, x: bytes)
    requires Editable(b) && Edited(b, c, s, t) && off + |x| <= |s|
    requires Editable(c) && off + |x| <= |Struct(c)| ==> Edited(c, d, Put(Struct(c), off, x), Strings(c))
    ensures Edited(b, d, Put(s, off, x), t)
  {
    hide Field, Struct, Strings;
    EditedTrans(b, c, d, s, t, Put(s, off, x), t);
  }

  /** The position `k` inside the body of the node `n` that stands at `c`. */
  function InBody(c: Ctx, n: Forest, k: Ctx): (full: Ctx)
    requires n.Node?
  {
    Comp(c, CBody(n.name, n.pad, k, n.rest))
  }

  function WithBody(n: Forest, body: Forest): (g: Forest)
    requires n.Node?
  {
    Node(n.name, n.pad, body, n.rest)
  }

  lemma InBodyIs(c: Ctx, n: Forest, k: Ctx, f: Forest)
    requires WfCtx(c) && n.Node? && WfCtx(k) && WfTok(Begin(n.name, n.pad)) && Wf(n.rest)
    ensures WfCtx(InBody(c, n, k)) && Plug(InBody(c, n, k), f) == Plug(c, WithBody(n, Plug(k, f)))
    ensures |Pre(InBody(c, n, k))| == BodyAt(|Pre(c)|, n.name, n.pad) + |Pre(k)|
  {
    hide EncTok;
    CompPlug(c, CBody(n.name, n.pad, k, n.rest), f);
    CompPre(c, CBody(n.name, n.pad, k, n.rest));
  }

  /** When the block of `d` holds the replacement, and its names resolve, `d` is `b` with that replacement. */
  lemma ForestHeld(b: bytes, d: bytes, c: Ctx, f: Forest, g: Forest, s: bytes, t: bytes)
    requires Editable(b) && Named(Plug(c, f), Strings(b)) && Edited(b, d, s, t) && Strings(b) <= t
    requires Holds(s, Plug(c, g)) && Named(g, t)
    ensures Replaced(b, d, c, g)
  {
    hide Field, Struct, Strings, Holds, NameAt, Pre;
    var t0 := Strings(b);
    var x := t[|t0|..];
    assert t == t0 + x;
    AbsPlug(c, f, t0);
    AbsCGrows(c, t0, x);
    AbsPlug(c, g, t);
  }

  lemma BodyHeld(b: bytes, d: bytes, off: int, c: Ctx, n: Forest, body: Forest, s: bytes, t: bytes)
    requires NodeAt(b, off, c, n) && Edited(b, d, s, t) && Strings(b) <= t
    requires Holds(s, Plug(c, WithBody(n, body))) && Named(body, t)
    ensures BodyIs(b, d, off, c, n, WithBody(n, body), Abs(body, t))
  {
    hide Field, Struct, Strings, Holds, NameAt, Pre;
    var t0 := Strings(b);
    assert t == t0 + t[|t0|..];
    AbsGrows(n.rest, t0, t[|t0|..]);
    ForestHeld(b, d, c, n, WithBody(n, body), s, t);
    HoldsWf(s, Plug(c, WithBody(n, body)));
    WfPlug(c, WithBody(n, body));
  }

  /** Property `name` of the body `n` is the token at the front of `g`, at position `k`. */
  ghost predicate Found(t: bytes, n: Forest, name: bytes, k: Ctx, g: Forest)
  {
    && n.Node? && g.Item? && g.tok.Prop? && WfCtx(k) && Wf(g) && Plug(k, g) == n.body
    && PropCtx(n.body, t, name) == Some(k) && PropTail(n.body, t, name) == g
  }

  /** The found property, as a position in the whole block. */
  lemma PropPlaced(b: bytes, off: int, c: Ctx, n: Forest, name: bytes) returns (k: Ctx, g: Forest, r: int)
    requires NodeAt(b, off, c, n) && PropCtx(n.body, Strings(b), name).Some?
    ensures Found(Strings(b), n, name, k, g)
    ensures WfCtx(InBody(c, n, k)) && r == |Pre(InBody(c, n, k))|
    ensures GetProperty(Struct(b), Strings(b), off, name) == r
    ensures Plug(InBody(c, n, k), g) == Plug(c, n)
    ensures At(Struct(b), r, EncTok(g.tok)) && r + |EncTok(g.tok)| <= |Struct(b)|
    ensures r + 12 <= |Struct(b)| && PropLen(Struct(b), r) == |g.tok.val|
    ensures r + 12 + Align4(|g.tok.val|) <= |Struct(b)|
  {
    hide Field, Struct, Strings, NameAt, EncTok, Aligned, Pre, Post;
    var t, s := Strings(b), Struct(b);
    k := PropCtx(n.body, t, name).value;
    g := PropTail(n.body, t, name);
    NodeAtHole(s, c, n.name, n.pad, n.body, n.rest);
    WfPlug(k, g);
    GetPropertyIs(s, t, off, n.name, n.pad, n.body, name);
    InBodyIs(c, n, k, g);
    r := |Pre(InBody(c, n, k))|;
    PropAtHole(s, InBody(c, n, k), g);
  }

  lemma PropAtHole(s: bytes, c: Ctx, g: Forest)
    requires Holds(s, Plug(c, g)) && WfCtx(c) && Wf(g) && g.Item? && g.tok.Prop?
    ensures At(s, |Pre(c)|, EncTok(g.tok)) && |Pre(c)| + |EncTok(g.tok)| <= |s|
    ensures |Pre(c)| + 12 <= |s| && PropLen(s, |Pre(c)|) == |g.tok.val|
    ensures |Pre(c)| + 12 + Align4(|g.tok.val|) <= |s|
  {
    AtHole(s, c, g);
    hide Field, Struct, Strings, NameAt, EncTok, Aligned, Pre, Post;
    AtSplit(s, |Pre(c)|, EncTok(g.tok), Enc(g.rest));
    PropFields(s, |Pre(c)|, g.tok);
    InBlock(s, |Pre(c)|, EncTok(g.tok));
    PropSize(g.tok.nameoff, g.tok.val, g.tok.pad);
  }

  /** Resizing and rewriting the found property sets the property. */
  lemma SetExisting(b: bytes, d: bytes, off: int, c: Ctx, n: Forest, name: bytes, val: bytes, x: bytes, k: Ctx,
                    g: Forest, r: int)
    requires NodeAt(b, off, c, n) && Found(Strings(b), n, name, k, g)
    requires |x| == Align4(|val|) && |val| < TWO31
    requires WfCtx(InBody(c, n, k)) && r == |Pre(InBody(c, n, k))|
    requires At(Struct(b), r, EncTok(g.tok)) && r + |EncTok(g.tok)| <= |Struct(b)|
    requires r + 12 + Align4(|g.tok.val|) <= |Struct(b)|
    requires Edited(b, d, Put(Put(Splice(Struct(b), r + 12, Align4(|g.tok.val|), x), r + 4, Word(|val|)), r + 12, val),
      Strings(b))
    ensures BodyIs(b, d, off, c, n, WithBody(n, Plug(k, Item(Prop(g.tok.nameoff, val, x[|val|..]), g.rest))),
      ReplaceAttr(Abs(n.body, Strings(b)), name, val))
  {
    hide Field, Struct, Strings, NameAt, EncTok, Aligned, Align4, Word, Put, Splice, Edited, Pre, Post, Holds;
    var t, s := Strings(b), Struct(b);
    var tok := Prop(g.tok.nameoff, val, x[|val|..]);
    ResizeBytes(s, r, g.tok.nameoff, g.tok.val, g.tok.pad, x, val);
    var s' := Splice(s, r, |EncTok(g.tok)|, EncTok(tok));
    EditedSize(b, d, s', t);
    NodeAtHole(s, c, n.name, n.pad, n.body, n.rest);
    InBodyIs(c, n, k, g);
    ReplaceTok(s, InBody(c, n, k), g.tok, tok, g.rest);
    InBodyIs(c, n, k, Item(tok, g.rest));
    AbsPlug(c, n, t);
    ReplacePropAbs(n.body, t, name, tok);
    BodyHeld(b, d, off, c, n, Plug(k, Item(tok, g.rest)), s', t);
  }

  lemma EditedBlocks(b: bytes, d: bytes, s: bytes, t: bytes)
    requires Editable(b) && Edited(b, d, s, t)
    ensures Editable(d) && Struct(d) == s && Strings(d) == t && |d| == |b|
  {
    hide Field;
  }

  lemma EditedSize(b: bytes, d: bytes, s: bytes, t: bytes)
    requires Editable(b) && Edited(b, d, s, t)
    ensures |s| < TWO31 && |t| < TWO31
  {
    hide Field;
  }

  lemma EditedGrowth(b: bytes, d: bytes, s: bytes, t: bytes)
    requires Editable(b) && Edited(b, d, s, t)
    ensures DataSize(d) == DataSize(b) + |s| - |Struct(b)| + |t| - |Strings(b)|
  {
    hide Field;
  }

  /** What a property name costs in the strings block. */
  function NameCost(t: bytes, name: bytes): (n: nat)
  {
    if R.FindStr(t, name, 0).Some? then 0 else |name| + 1
  }

  function NamesWith(t: bytes, name: bytes): (t': bytes)
    ensures t <= t'
  {
    if R.FindStr(t, name, 0).Some? then t else t + CStr(name)
  }

  /** The three header words of a property. */
  function PropHeader(len: nat, nameoff: int): (w: bytes)
    requires len < TWO32 && 0 <= nameoff < TWO32
    ensures |w| == 12
  {
    Word(PROP) + Word(len) + Word(nameoff)
  }

  /** `fdt_add_property_`: the error code, or 0 and the offset of the new property, whose `x` bytes of value are still
      unset. */
  method AddProperty(fdt: array<byte>, node: int, name: bytes, len: nat)
    returns (err: int, prop: int, ghost nameoff: int, ghost x: bytes)
    requires Editable(fdt[..]) && R.IsInt(node) && NoNul(name) && |name| < INT_MAX && len <= INT_MAX - 16
    modifies fdt
    ensures var b := old(fdt[..]); var s := Struct(b); var t := Strings(b); var nx := CheckNode(s, node);
      && err <= 0
      && (nx < 0 ==> err == nx)
      && (err != 0 ==> Editable(fdt[..]) && Used(fdt[..]) == Used(b))
      && (0 <= nx <= |s| ==>
        err == if DataSize(b) + NameCost(t, name) + 12 + Align4(len) <= Field(b, TOTALSIZE) then 0 else -ERR_NOSPACE)
      && (err == 0 ==> prop == nx && nx >= 0 && Field(fdt[..], OFF_STRUCT) == Field(b, OFF_STRUCT)
                       && Field(b, OFF_STRUCT) + nx + 12 + Align4(len) <= fdt.Length)
    ensures var b, t' := old(fdt[..]), NamesWith(Strings(old(fdt[..])), name);
      var s, nx := Struct(b), CheckNode(Struct(b), node);
      err == 0 && nx <= |s| ==>
        && 0 <= nx && 0 <= nameoff < TWO32 && NameAt(t', nameoff) == Some(name) && |x| == Align4(len)
        && Edited(b, fdt[..], Splice(s, nx, 0, PropHeader(len, nameoff) + x), t')
  {
    hide Field, Unword, Word, Struct, Strings, TagAt, Edited, Align4, CheckNode, Appended;
    ghost var b := fdt[..];
    nameoff, x := 0, [];
    prop := R.CheckNodeOffset(fdt, node);
    if prop < 0 {
      return prop, prop, nameoff, x;
    }
    var namestroff, isNew := FindAddString(fdt, name);
    NameCostIs(b, fdt[..], name, namestroff, isNew);
    if namestroff < 0 {
      return namestroff, prop, nameoff, x;
    }
    ghost var b1 := fdt[..];
    var p := Field(fdt[..], OFF_STRUCT) + prop;
    err := SpliceStruct(fdt, p, 0, 12 + Align4(len));
    if err != 0 {
      if isNew {
        DelLastString(fdt, name, b);
      }
      return err, prop, nameoff, x;
    }
    ghost var b2 := fdt[..];
    WriteStruct(fdt, prop, PropHeader(len, namestroff));
    nameoff := namestroff;
    x := b1[p + 12..p + 12 + Align4(len)];
    if prop <= |Struct(b)| {
      AddPropertyDone(b, b1, b2, fdt[..], prop, b1[p..p + 12 + Align4(len)], PropHeader(len, nameoff),
        NamesWith(Strings(b), name));
      SliceOfSlice(b1, p, 12 + Align4(len), 12, 12 + Align4(len));
    }
  }

  lemma AddPropertyDone(b: bytes, b1: bytes, b2: bytes, d: bytes, prop: nat, raw: bytes, h: bytes, t: bytes)
    requires Editable(b) && Editable(b1) && Edited(b, b1, Struct(b), t) && prop <= |Struct(b)| && |h| <= |raw|
    requires Struct(b1) == Struct(b) && Strings(b1) == t
    requires Edited(b1, b2, Splice(Struct(b1), prop, 0, raw), Strings(b1))
    requires Editable(b2) && prop + |h| <= |Struct(b2)| ==> Edited(b2, d, Put(Struct(b2), prop, h), Strings(b2))
    ensures Edited(b, d, Splice(Struct(b), prop, 0, h + raw[|h|..]), t)
  {
    hide Field, Struct, Strings, Edited;
    var s := Struct(b);
    EditedTrans(b, b1, b2, s, t, Splice(s, prop, 0, raw), t);
    WriteBehind(b, b2, d, Splice(s, prop, 0, raw), t, prop, h);
    HeaderOver(s, prop, raw, h);
  }

  lemma HeaderOver(s: bytes, p: nat, raw: bytes, h: bytes)
    requires p <= |s| && |h| <= |raw|
    ensures Put(Splice(s, p, 0, raw), p, h) == Splice(s, p, 0, h + raw[|h|..])
  {
  }

  /** What adding a name to the strings block did. */
  lemma NameCostIs(b: bytes, d: bytes, name: bytes, r: int, isNew: bool)
    requires Editable(b) && NoNul(name)
    requires var t := Strings(b);
      && (r < 0 ==> d == b && R.FindStr(t, name, 0) == None && DataSize(b) + |name| + 1 > Field(b, TOTALSIZE))
      && (r >= 0 && !isNew ==> d == b && R.FindStr(t, name, 0) == Some(r))
      && (r >= 0 && isNew ==> r == |t| && R.FindStr(t, name, 0) == None && Appended(b, d, name))
    ensures r < 0 ==> DataSize(b) + NameCost(Strings(b), name) > Field(b, TOTALSIZE)
    ensures r >= 0 ==> var t' := NamesWith(Strings(b), name);
      && Edited(b, d, Struct(b), t') && DataSize(d) == DataSize(b) + NameCost(Strings(b), name)
      && Field(d, TOTALSIZE) == Field(b, TOTALSIZE) && Field(d, OFF_STRUCT) == Field(b, OFF_STRUCT)
      && 0 <= r < TWO31 && NameAt(t', r) == Some(name) && Struct(d) == Struct(b) && Editable(d) && Strings(d) == t'
  {
    hide Field, Struct, Strings;
    var t := Strings(b);
    var t' := NamesWith(t, name);
    if r >= 0 {
      NameStands(t, name, if isNew then |t| else r);
      if isNew {
        AppendedIs(b, d, name);
      } else {
        EditedSelf(b);
      }
    }
  }

  lemma AppendedIs(b: bytes, d: bytes, s: bytes)
    requires Editable(b) && Appended(b, d, s)
    ensures Edited(b, d, Struct(b), Strings(b) + CStr(s)) && DataSize(d) == DataSize(b) + |s| + 1
    ensures Field(d, TOTALSIZE) == Field(b, TOTALSIZE) && Field(d, OFF_STRUCT) == Field(b, OFF_STRUCT)
    ensures Editable(d) && Struct(d) == Struct(b) && Strings(d) == Strings(b) + CStr(s) && |Strings(b)| < TWO31
  {
    hide Field;
  }

  lemma EditedSelf(b: bytes)
    requires Editable(b)
    ensures Edited(b, b, Struct(b), Strings(b)) && |Strings(b)| < TWO31
  {
    hide Field;
  }

  /** The looked-up or added name stands where `r` says. */
  lemma NameStands(t: bytes, name: bytes, r: nat)
    requires NoNul(name)
    requires R.FindStr(t, name, 0) == Some(r) || (R.FindStr(t, name, 0) == None && r == |t|)
    ensures NameAt(NamesWith(t, name), r) == Some(name) && r <= |t|
  {
    NameAtIs(NamesWith(t, name), r, name);
  }

  /** Writing header and value of a property spliced in behind the node's tag puts the property in front. */
  lemma SetNew(b: bytes, d: bytes, off: int, c: Ctx, n: Forest, name: bytes, val: bytes, nameoff: int, x: bytes,
               t': bytes)
    requires NodeAt(b, off, c, n) && Strings(b) <= t' && NameAt(t', nameoff) == Some(name) && 0 <= nameoff < TWO32
    requires |x| == Align4(|val|) && |val| < TWO31
    requires 0 <= CheckNode(Struct(b), off) <= |Struct(b)|
    requires var nx := CheckNode(Struct(b), off);
      Edited(b, d, Put(Splice(Struct(b), nx, 0, PropHeader(|val|, nameoff) + x), nx + 12, val), t')
    ensures BodyIs(b, d, off, c, n, WithBody(n, Item(Prop(nameoff, val, x[|val|..]), n.body)),
      Attr(name, val, Abs(n.body, Strings(b))))
  {
    hide Field, Struct, Strings, NameAt, Aligned, Align4, Word, Edited, Pre, Post, Holds, Splice, Put, CheckNode,
         EncTok, PropHeader;
    var t, s := Strings(b), Struct(b);
    var tok := Prop(nameoff, val, x[|val|..]);
    PropSize(nameoff, val, x[|val|..]);
    NodeAtHole(s, c, n.name, n.pad, n.body, n.rest);
    NodeInIs(s, off, n.name, n.pad, n.body);
    var nx := CheckNode(s, off);
    ValueOver(s, nx, PropHeader(|val|, nameoff), x, val);
    HeaderTok(nameoff, val, x[|val|..]);
    EditedSize(b, d, Splice(s, nx, 0, EncTok(tok)), t');
    PutFront(s, c, n, tok);
    assert t' == t + t'[|t|..];
    AbsGrows(n.body, t, t'[|t|..]);
    BodyHeld(b, d, off, c, n, Item(tok, n.body), Splice(s, nx, 0, EncTok(tok)), t');
  }

  lemma HeaderTok(nameoff: int, val: bytes, pad: bytes)
    requires WfTok(Prop(nameoff, val, pad))
    ensures PropHeader(|val|, nameoff) + val + pad == EncTok(Prop(nameoff, val, pad))
  {
  }

  lemma ValueOver(s: bytes, p: nat, h: bytes, x: bytes, val: bytes)
    requires p <= |s| && |val| <= |x|
    ensures Put(Splice(s, p, 0, h + x), p + |h|, val) == Splice(s, p, 0, h + val + x[|val|..])
  {
  }

  lemma PutFront(s: bytes, c: Ctx, n: Forest, tok: Token)
    requires n.Node? && Holds(s, Plug(c, n)) && WfTok(tok) && tok.Prop? && |s| + |EncTok(tok)| < TWO31
    ensures WfCtx(c) && WfTok(Begin(n.name, n.pad))
    ensures 0 <= BodyAt(|Pre(c)|, n.name, n.pad) <= |s|
    ensures Holds(Splice(s, BodyAt(|Pre(c)|, n.name, n.pad), 0, EncTok(tok)), Plug(c, WithBody(n, Item(tok, n.body))))
  {
    hide EncTok, Holds, Aligned, Pre, Post;
    HoldsWf(s, Plug(c, n));
    WfPlug(c, n);
    InBodyIs(c, n, Hole, n.body);
    InBodyIs(c, n, Hole, Item(tok, n.body));
    PreHole();
    EditHead(s, InBody(c, n, Hole), n.body, Item(tok, n.body), 0, EncTok(tok));
  }

  lemma PreHole()
    ensures Pre(Hole) == [] && Post(Hole) == []
  {
  }

  /** How many bytes a set needs: the change of the padded value, or a whole new property and perhaps its name. */
  function SetGrowth(t: bytes, body: Forest, name: bytes, val: bytes): (n: int)
  {
    match PropCtx(body, t, name)
    case Some(_) => Align4(|val|) - Align4(|PropTail(body, t, name).tok.val|)
    case None => NameCost(t, name) + 12 + Align4(|val|)
  }

  /** Storing `val` at property `prop` of a blob with blocks `s1` and `t1` completes the set. */
  ghost predicate Completes(b: bytes, off: int, c: Ctx, n: Forest, g: Forest, a: Tree, val: bytes, prop: int, s1: bytes,
                            t1: bytes)
  {
    && NodeAt(b, off, c, n) && 0 <= prop && prop + 12 + |val| <= |s1|
    && forall d :: Edited(b, d, Put(s1, prop + 12, val), t1) ==> BodyIs(b, d, off, c, n, g, a)
  }

  lemma CompletesOld(b: bytes, off: int, c: Ctx, n: Forest, name: bytes, val: bytes, x: bytes)
    returns (g: Forest, s1: bytes)
    requires NodeAt(b, off, c, n) && PropCtx(n.body, Strings(b), name).Some? && |x| == Align4(|val|) && |val| < TWO31
    ensures var r := GetProperty(Struct(b), Strings(b), off, name);
      && 0 <= r && r + 12 <= |Struct(b)| && r + 12 + Align4(PropLen(Struct(b), r)) <= |Struct(b)|
      && PropLen(Struct(b), r) == |PropTail(n.body, Strings(b), name).tok.val|
      && s1 == Put(Splice(Struct(b), r + 12, Align4(PropLen(Struct(b), r)), x), r + 4, Word(|val|))
      && Completes(b, off, c, n, g, SetAttr(Abs(n.body, Strings(b)), name, val), val, r, s1, Strings(b))
  {
    hide Field, Struct, Strings, NameAt, EncTok, Aligned, Align4, Word, Put, Splice, Edited, Pre, Post, Holds, BodyIs,
         NodeAt, PropLen;
    NodeAtWf(b, off, c, n);
    var k, f, r := PropPlaced(b, off, c, n, name);
    s1 := Put(Splice(Struct(b), r + 12, Align4(|f.tok.val|), x), r + 4, Word(|val|));
    g := WithBody(n, Plug(k, Item(Prop(f.tok.nameoff, val, x[|val|..]), f.rest)));
    PropCtxAbs(n.body, Strings(b), name);
    forall d | Edited(b, d, Put(s1, r + 12, val), Strings(b))
      ensures BodyIs(b, d, off, c, n, g, SetAttr(Abs(n.body, Strings(b)), name, val)) {
      SetExisting(b, d, off, c, n, name, val, x, k, f, r);
    }
  }

  lemma NodeAtWf(b: bytes, off: int, c: Ctx, n: Forest)
    requires NodeAt(b, off, c, n)
    ensures Editable(b) && n.Node? && Wf(n) && WfCtx(c) && Named(n, Strings(b))
  {
  }

  lemma CompletesNew(b: bytes, off: int, c: Ctx, n: Forest, name: bytes, val: bytes, nameoff: int, x: bytes)
    returns (g: Forest, s1: bytes)
    requires NodeAt(b, off, c, n) && PropCtx(n.body, Strings(b), name).None? && |x| == Align4(|val|) && |val| < TWO31
    requires NameAt(NamesWith(Strings(b), name), nameoff) == Some(name) && 0 <= nameoff < TWO32
    ensures var nx := CheckNode(Struct(b), off);
      && 0 <= nx <= |Struct(b)|
      && s1 == Splice(Struct(b), nx, 0, PropHeader(|val|, nameoff) + x)
      && Completes(b, off, c, n, g, SetAttr(Abs(n.body, Strings(b)), name, val), val, nx, s1,
        NamesWith(Strings(b), name))
  {
    hide Field, Struct, Strings, NameAt, EncTok, Aligned, Align4, Word, Put, Splice, Edited, Pre, Post, Holds, BodyIs,
         NodeAt, CheckNode;
    NodeAtWf(b, off, c, n);
    NodeLookup(b, off, c, n, name, val);
    var nx := CheckNode(Struct(b), off);
    var t' := NamesWith(Strings(b), name);
    s1 := Splice(Struct(b), nx, 0, PropHeader(|val|, nameoff) + x);
    g := WithBody(n, Item(Prop(nameoff, val, x[|val|..]), n.body));
    forall d | Edited(b, d, Put(s1, nx + 12, val), t')
      ensures BodyIs(b, d, off, c, n, g, SetAttr(Abs(n.body, Strings(b)), name, val)) {
      SetNew(b, d, off, c, n, name, val, nameoff, x, t');
    }
  }

  /** `fdt_setprop_placeholder` for a value `val` that the caller is about to store. */
  method SetPropPlaceholder(fdt: array<byte>, node: int, name: bytes, len: nat, ghost val: bytes, ghost c: Ctx,
                            ghost n: Forest)
    returns (err: int, prop: int, ghost g: Forest, ghost s1: bytes, ghost t1: bytes)
    requires Sane(fdt[..]) && Field(fdt[..], MAGIC) != SW_MAGIC
    requires R.IsInt(node) && NoNul(name) && |name| < INT_MAX && len <= INT_MAX - 16 && |val| == len
    modifies fdt
    ensures err != 0 ==> Sane(fdt[..]) && Used(fdt[..]) == old(Used(fdt[..]))
    ensures err == 0 ==> HEADER_SIZE <= Field(fdt[..], OFF_STRUCT) && prop >= 0
                         && Field(fdt[..], OFF_STRUCT) + prop + 12 + len <= fdt.Length
    ensures var b := old(fdt[..]);
      NodeAt(b, node, c, n) ==>
        && (err == if DataSize(b) + SetGrowth(Strings(b), n.body, name, val) <= Field(b, TOTALSIZE)
               then 0 else -ERR_NOSPACE)
        && (err == 0 ==> Edited(b, fdt[..], s1, t1)
                         && |s1| + |t1| == |Struct(b)| + |Strings(b)| + SetGrowth(Strings(b), n.body, name, val)
                         && Completes(b, node, c, n, g, SetAttr(Abs(n.body, Strings(b)), name, val), val, prop, s1, t1))
  {
    hide Field, Struct, Strings, Holds, TagAt, GetProperty, CheckNode, Sane, Edited, Pre, Splice, Put, NodeAt,
         Completes, PropLen, Align4, SetGrowth, NameCost, NamesWith, RwProbe, PropCtx, PropHeader, NameAt, Used,
         SetAttr, Abs;
    ghost var b := fdt[..];
    g, s1, t1, prop := n, [], [], -1;
    SaneSize(b);
    ProbeIsEditable(b);
    err := RwProbe(fdt[..]);
    if err != 0 {
      NotNodeAt(b, node, c, n);
      return;
    }
    if NodeAt(b, node, c, n) {
      NodeLookup(b, node, c, n, name, val);
    }
    err, prop := ResizeProperty(fdt, node, name, len);
    if err == -ERR_NOTFOUND {
      ghost var nameoff, x;
      err, prop, nameoff, x := AddProperty(fdt, node, name, len);
      if err == 0 && NodeAt(b, node, c, n) {
        g, s1 := CompletesNew(b, node, c, n, name, val, nameoff, x);
        t1 := NamesWith(Strings(b), name);
        NamesSize(Strings(b), name);
      }
    } else if NodeAt(b, node, c, n) {
      ghost var p := Field(b, OFF_STRUCT) + prop + 12;
      ghost var x := if err == 0 then b[p..p + Align4(len)] else seq(Align4(len), _ => 0);
      g, s1 := CompletesOld(b, node, c, n, name, val, x);
      t1 := Strings(b);
    }
  }

  lemma NamesSize(t: bytes, name: bytes)
    ensures |NamesWith(t, name)| == |t| + NameCost(t, name)
  {
  }

  lemma SaneSize(b: bytes)
    requires Sane(b)
    ensures HEADER_SIZE <= |b| < TWO31 && HEADER_SIZE <= Field(b, OFF_STRUCT) < TWO31
    ensures Field(b, OFF_STRUCT) + |Struct(b)| <= |b|
  {
  }

  lemma NotNodeAt(b: bytes, off: int, c: Ctx, n: Forest)
    requires !Editable(b)
    ensures !NodeAt(b, off, c, n)
  {
  }

  /** `fdt_setprop`.  Any failure leaves the used bytes of the blob alone; on a well-formed blob the call fails
      exactly for want of space, and success sets the property of the node at `node` and changes nothing else. */
  method SetProp(fdt: array<byte>, node: int, name: bytes, val: bytes, ghost c: Ctx, ghost n: Forest)
    returns (err: int, ghost g: Forest)
    requires Sane(fdt[..]) && Field(fdt[..], MAGIC) != SW_MAGIC
    requires R.IsInt(node) && NoNul(name) && |name| < INT_MAX && |val| <= INT_MAX - 16
    modifies fdt
    ensures err != 0 ==> Sane(fdt[..]) && Used(fdt[..]) == old(Used(fdt[..]))
    ensures var b := old(fdt[..]);
      NodeAt(b, node, c, n) ==>
        && (err == if DataSize(b) + SetGrowth(Strings(b), n.body, name, val) <= Field(b, TOTALSIZE)
               then 0 else -ERR_NOSPACE)
        && (err == 0 ==> BodyIs(b, fdt[..], node, c, n, g, SetAttr(Abs(n.body, Strings(b)), name, val))
                         && DataSize(fdt[..]) == DataSize(b) + SetGrowth(Strings(b), n.body, name, val))
  {
    hide Field, Struct, Strings, Edited, BodyIs, Sane, NodeAt, SetGrowth;
    ghost var b := fdt[..];
    var prop;
    ghost var s1, t1;
    err, prop, g, s1, t1 := SetPropPlaceholder(fdt, node, name, |val|, val, c, n);
    if err != 0 {
      return;
    }
    ghost var d := fdt[..];
    WriteStruct(fdt, prop + 12, val);
    if NodeAt(b, node, c, n) {
      NodeAtWf(b, node, c, n);
      WriteBehind(b, d, fdt[..], s1, t1, prop + 12, val);
      EditedGrowth(b, fdt[..], Put(s1, prop + 12, val), t1);
    }
  }

  /** What the property lookup returns on a well-formed blob. */
  lemma NodeLookup(b: bytes, off: int, c: Ctx, n: Forest, name: bytes, val: bytes)
    requires NodeAt(b, off, c, n)
    ensures CheckNode(Struct(b), off) == BodyAt(off, n.name, n.pad) && 0 <= BodyAt(off, n.name, n.pad) <= |Struct(b)|
    ensures PropCtx(n.body, Strings(b), name).Some? <==> GetAttr(Abs(n.body, Strings(b)), name).Some?
    ensures PropCtx(n.body, Strings(b), name).None? ==>
      && GetProperty(Struct(b), Strings(b), off, name) == -ERR_NOTFOUND
      && SetGrowth(Strings(b), n.body, name, val) == NameCost(Strings(b), name) + 12 + Align4(|val|)
    ensures PropCtx(n.body, Strings(b), name).Some? ==>
      var r := GetProperty(Struct(b), Strings(b), off, name);
      && 0 <= r && r + 12 <= |Struct(b)| && r + 12 + Align4(PropLen(Struct(b), r)) <= |Struct(b)|
      && SetGrowth(Strings(b), n.body, name, val) == Align4(|val|) - Align4(PropLen(Struct(b), r))
  {
    hide Field, Struct, Strings, NameAt, EncTok, Aligned, Pre, Post, TagAt, PropLen, Align4;
    NodeAtHole(Struct(b), c, n.name, n.pad, n.body, n.rest);
    NodeInIs(Struct(b), off, n.name, n.pad, n.body);
    GetPropertyIs(Struct(b), Strings(b), off, n.name, n.pad, n.body, name);
    PropCtxAbs(n.body, Strings(b), name);
    if PropCtx(n.body, Strings(b), name).Some? {
      var k, f, r := PropPlaced(b, off, c, n, name);
    }
  }
}
