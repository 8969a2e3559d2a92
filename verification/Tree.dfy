/** Trees.  `Forest` is the concrete syntax of a run of sibling tags, kept down to the padding bytes, so
    that a structure block *is* the encoding of one forest.  `Ctx` is a forest with one hole: a position in
    the block.  `Tree` is what a client sees: names resolved, padding and NOPs gone. */
module Tree {
  import opened Bytes
  import opened Format

  datatype Option<+T> = None | Some(value: T)

  // ---------------------------------------------------------------- concrete syntax

  datatype Forest =
    | Nil
    | Item(tok: Token, rest: Forest)
    | Node(name: bytes, pad: bytes, body: Forest, rest: Forest)

  predicate Wf(f: Forest)
  {
    match f
    case Nil => true
    case Item(tok, rest) => WfTok(tok) && (tok.Prop? || tok.Nop?) && Wf(rest)
    case Node(name, pad, body, rest) => WfTok(Begin(name, pad)) && Wf(body) && Wf(rest)
  }

  function Enc(f: Forest): (s: bytes)
    requires Wf(f)
    ensures Aligned(|s|)
  {
    AlignedSmall();
    hide Word, Unword, Align4, Aligned, EncTok;
    match f
    case Nil => []
    case Item(tok, rest) =>
      AlignedAdd(|EncTok(tok)|, |Enc(rest)|);
      EncTok(tok) + Enc(rest)
    case Node(name, pad, body, rest) =>
      AlignedNode(|EncTok(Begin(name, pad))|, |Enc(body)|, |EncTok(EndNode)|, |Enc(rest)|);
      EncTok(Begin(name, pad)) + Enc(body) + EncTok(EndNode) + Enc(rest)
  }

  lemma AlignedNode(a: int, b: int, c: int, d: int)
    requires Aligned(a) && Aligned(b) && Aligned(c) && Aligned(d)
    ensures Aligned(a + b) && Aligned(a + b + c) && Aligned(a + b + c + d)
  {
    AlignedAdd(a, b);
    AlignedAdd(a + b, c);
    AlignedAdd(a + b + c, d);
  }

  lemma EndLen()
    ensures |EncTok(EndNode)| == 4
  {
  }

  lemma InBlock(s: bytes, off: int, x: bytes)
    requires At(s, off, x)
    ensures 0 <= off && off + |x| <= |s|
  {
  }

  /** What stands in the block where a forest starts: one tag and the forests after it. */
  lemma ReadItem(s: bytes, off: int, tok: Token, rest: Forest)
    requires Wf(Item(tok, rest)) && Aligned(off) && |s| < TWO31 && At(s, off, Enc(Item(tok, rest)))
    ensures TagAt(s, off) == TagResult(Code(tok), off + |EncTok(tok)|)
    ensures At(s, off, EncTok(tok)) && At(s, off + |EncTok(tok)|, Enc(rest))
    ensures |Enc(Item(tok, rest))| == |EncTok(tok)| + |Enc(rest)| && Aligned(off + |EncTok(tok)|)
  {
    hide Word, Unword, Align4, Aligned, TagAt, EncTok;
    AtSplit(s, off, EncTok(tok), Enc(rest));
    TagAtTok(s, off, tok);
    AlignedAdd(off, |EncTok(tok)|);
  }

  /** The offset of the first tag inside the node whose tag is at `off`. */
  function BodyAt(off: int, name: bytes, pad: bytes): (b: int)
    requires WfTok(Begin(name, pad))
    ensures b >= off + 4
  {
    off + |EncTok(Begin(name, pad))|
  }

  /** The nodes of a forest that stands at `off`: offset and name of each, in document order. */
  function Nodes(f: Forest, off: int): (r: seq<(int, bytes)>)
    requires Wf(f)
  {
    match f
    case Nil => []
    case Item(tok, rest) => Nodes(rest, off + |EncTok(tok)|)
    case Node(name, pad, body, rest) =>
      var b := BodyAt(off, name, pad);
      [(off, name)] + Nodes(body, b) + Nodes(rest, b + |Enc(body)| + 4)
  }

  lemma ReadNode(s: bytes, off: int, name: bytes, pad: bytes, body: Forest, rest: Forest)
    requires Wf(Node(name, pad, body, rest)) && Aligned(off) && |s| < TWO31
    requires At(s, off, Enc(Node(name, pad, body, rest)))
    ensures var b := BodyAt(off, name, pad); var e := b + |Enc(body)|;
      && TagAt(s, off) == TagResult(BEGIN_NODE, b) && At(s, off, EncTok(Begin(name, pad))) && Aligned(b)
      && At(s, b, Enc(body)) && Aligned(e)
      && At(s, e, EncTok(EndNode)) && TagAt(s, e) == TagResult(END_NODE, e + 4)
      && At(s, e + 4, Enc(rest)) && Aligned(e + 4)
      && off + |Enc(Node(name, pad, body, rest))| == e + 4 + |Enc(rest)|
  {
    hide Word, Unword, Align4, Aligned, TagAt, EncTok;
    var t := EncTok(Begin(name, pad));
    AtSplit(s, off, t + Enc(body) + EncTok(EndNode), Enc(rest));
    AtSplit(s, off, t + Enc(body), EncTok(EndNode));
    AtSplit(s, off, t, Enc(body));
    TagAtTok(s, off, Begin(name, pad));
    EndLen();
    AlignedAdd(off, |t|);
    AlignedAdd(off + |t|, |Enc(body)|);
    AlignedSmall();
    AlignedAdd(off + |t| + |Enc(body)|, 4);
    TagAtTok(s, off + |t| + |Enc(body)|, EndNode);
  }

  // ---------------------------------------------------------------- parsing

  datatype Parsed = Bad | Good(f: Forest, stop: int)

  /** The forest whose tags start at `off`, up to the END_NODE or END tag that stops it. */
  function Parse(s: bytes, off: int): (p: Parsed)
    ensures p.Good? ==> 0 <= off <= p.stop && p.stop + 4 <= |s|
    ensures p.Good? ==> TagAt(s, p.stop).next >= 0 && (TagAt(s, p.stop).tag == END_NODE || TagAt(s, p.stop).tag == END)
    decreases |s| - off
  {
    hide Word, Unword, TagAt, Align4, Aligned;
    var r := TagAt(s, off);
    if r.next < 0 || r.next > |s| then Bad else
    if r.tag == END || r.tag == END_NODE then Good(Nil, off) else
    if r.tag == BEGIN_NODE then
      var body := Parse(s, r.next);
      if body.Bad? || TagAt(s, body.stop).tag != END_NODE then Bad else
      var rest := Parse(s, body.stop + 4);
      if rest.Bad? then Bad else
      var t := TokAt(s, off);
      if t.Begin? then Good(Node(t.name, t.pad, body.f, rest.f), rest.stop) else Bad
    else
      var rest := Parse(s, r.next);
      if rest.Bad? then Bad else Good(Item(TokAt(s, off), rest.f), rest.stop)
  }

  lemma ParseItem(s: bytes, off: int, tok: Token, rest: Forest, stop: int)
    requires tok.Prop? || tok.Nop?
    requires 0 <= off && off + 4 <= |s|
    requires 0 <= TagAt(s, off).next <= |s| && TagAt(s, off).tag == Code(tok) && TokAt(s, off) == tok
    requires Parse(s, TagAt(s, off).next) == Good(rest, stop)
    ensures Parse(s, off) == Good(Item(tok, rest), stop)
  {
    hide Word, Unword, TagAt, TokAt;
  }

  lemma ParseNode(s: bytes, off: int, name: bytes, pad: bytes, body: Forest, e: int, rest: Forest, stop: int)
    requires 0 <= off && off + 4 <= |s|
    requires 0 <= TagAt(s, off).next <= |s| && TagAt(s, off).tag == BEGIN_NODE
    requires TokAt(s, off) == Begin(name, pad) && Parse(s, TagAt(s, off).next) == Good(body, e)
    requires TagAt(s, e).tag == END_NODE && Parse(s, e + 4) == Good(rest, stop)
    ensures Parse(s, off) == Good(Node(name, pad, body, rest), stop)
  {
    hide Word, Unword, TagAt, TokAt;
  }

  /** Parsing an encoded forest gives it back. */
  lemma {:induction false} ParseEnc(s: bytes, off: int, f: Forest)
    requires Wf(f) && Aligned(off) && |s| < TWO31 && At(s, off, Enc(f))
    requires var r := TagAt(s, off + |Enc(f)|); 0 <= r.next <= |s| && (r.tag == END_NODE || r.tag == END)
    ensures Parse(s, off) == Good(f, off + |Enc(f)|)
    decreases f
  {
    hide Word, Unword, TagAt, Align4, Aligned, EncTok, TokAt, At, BodyAt;
    InBlock(s, off, Enc(f));
    match f
    case Nil =>
    case Item(tok, rest) =>
      hide Parse;
      ReadItem(s, off, tok, rest);
      InBlock(s, off + |EncTok(tok)|, Enc(rest));
      ParseEnc(s, off + |EncTok(tok)|, rest);
      TokOfEnc(s, off, tok);
      ParseItem(s, off, tok, rest, off + |Enc(f)|);
    case Node(name, pad, body, rest) =>
      hide Parse;
      ReadNode(s, off, name, pad, body, rest);
      var b := BodyAt(off, name, pad);
      var e := b + |Enc(body)|;
      InBlock(s, b, Enc(body));
      InBlock(s, e, EncTok(EndNode));
      ParseEnc(s, b, body);
      ParseEnc(s, e + 4, rest);
      TokOfEnc(s, off, Begin(name, pad));
      ParseNode(s, off, name, pad, body, e, rest, off + |Enc(f)|);
  }

  /** `TokAt` inverts `EncTok`. */
  lemma TokOfEnc(s: bytes, off: int, t: Token)
    requires WfTok(t) && Aligned(off) && |s| < TWO31 && At(s, off, EncTok(t))
    ensures TagAt(s, off) == TagResult(Code(t), off + |EncTok(t)|)
    ensures TokAt(s, off) == t
  {
    hide Word, Unword, Align4, Aligned, TagAt;
    TagAtTok(s, off, t);
    match t
    case Begin(name, pad) => TokOfBegin(s, off, name, pad);
    case Prop(nameoff, val, pad) => TokOfProp(s, off, nameoff, val, pad);
    case _ =>
  }

  lemma TokOfBegin(s: bytes, off: int, name: bytes, pad: bytes)
    requires WfTok(Begin(name, pad)) && At(s, off, EncTok(Begin(name, pad)))
    requires TagAt(s, off) == TagResult(BEGIN_NODE, off + |EncTok(Begin(name, pad))|)
    ensures TokAt(s, off) == Begin(name, pad)
  {
    hide Word, Unword, Align4, Aligned, TagAt;
    BeginParts(s, off, name, pad);
    assert s[off + 4 + |name|] == s[off + 4 + |name|..off + 4 + |name| + 1][0];
    NulAtIs(s, off + 4, off + 4 + |name|);
  }

  lemma TokOfProp(s: bytes, off: int, nameoff: int, val: bytes, pad: bytes)
    requires WfTok(Prop(nameoff, val, pad)) && At(s, off, EncTok(Prop(nameoff, val, pad)))
    requires TagAt(s, off) == TagResult(PROP, off + |EncTok(Prop(nameoff, val, pad))|)
    ensures TokAt(s, off) == Prop(nameoff, val, pad)
  {
    hide Word, Unword, Align4, Aligned, TagAt;
    PropParts(s, off, nameoff, val, pad);
  }

  /** Whatever parses is the encoding of what it parses to. */
  lemma {:induction false} EncParse(s: bytes, off: int)
    requires |s| < TWO31 && Aligned(off) && Parse(s, off).Good?
    ensures Wf(Parse(s, off).f) && At(s, off, Enc(Parse(s, off).f))
    ensures Parse(s, off).stop == off + |Enc(Parse(s, off).f)|
    decreases |s| - off
  {
    hide Word, Unword, TagAt, Align4, Aligned, EncTok, TokAt, At;
    AtEmpty(s, off);
    var r := TagAt(s, off);
    if r.tag == END || r.tag == END_NODE {
    } else {
      TokAtTag(s, off);
      var t := TokAt(s, off);
      if r.tag == BEGIN_NODE {
        var body := Parse(s, r.next);
        EncParse(s, r.next);
        AlignedSmall();
        AlignedAdd(r.next, |Enc(body.f)|);
        AlignedAdd(body.stop, 4);
        EncParse(s, body.stop + 4);
        var rest := Parse(s, body.stop + 4);
        EndTagBytes(s, body.stop);
        EndLen();
        AtFour(s, off, EncTok(t), Enc(body.f), EncTok(EndNode), Enc(rest.f));
      } else {
        EncParse(s, r.next);
        AtSplit(s, off, EncTok(t), Enc(Parse(s, r.next).f));
      }
    }
  }

  lemma AtEmpty(s: bytes, off: int)
    requires 0 <= off <= |s|
    ensures At(s, off, [])
  {
  }

  lemma AtFour(s: bytes, off: int, a: bytes, b: bytes, c: bytes, d: bytes)
    requires At(s, off, a) && At(s, off + |a|, b) && At(s, off + |a| + |b|, c) && At(s, off + |a| + |b| + |c|, d)
    ensures At(s, off, a + b + c + d)
  {
    hide At;
    AtSplit(s, off, a, b);
    AtSplit(s, off, a + b, c);
    AtSplit(s, off, a + b + c, d);
  }

  lemma EndTagBytes(s: bytes, off: int)
    requires TagAt(s, off).next >= 0 && TagAt(s, off).tag == END_NODE
    ensures At(s, off, EncTok(EndNode))
  {
    WordOfUnword(s[off..off + 4]);
  }

  /** `s` is a structure block that holds the forest `f`: its encoding, then the END tag. */
  ghost predicate Holds(s: bytes, f: Forest)
  {
    Wf(f) && |s| < TWO31 && At(s, 0, Enc(f)) && At(s, |Enc(f)|, Word(END))
  }

  /** The forest of a structure block. */
  function ForestOf(s: bytes): (r: Option<Forest>)
  {
    var p := Parse(s, 0);
    if p.Good? && TagAt(s, p.stop).tag == END then Some(p.f) else None
  }

  lemma HoldsParses(s: bytes, f: Forest)
    requires Holds(s, f)
    ensures ForestOf(s) == Some(f)
  {
    hide Word, TagAt, Enc, Parse, Aligned, Align4, At, Wf;
    AlignedSmall();
    EndTag(s, |Enc(f)|);
    InBlock(s, |Enc(f)|, Word(END));
    ParseEnc(s, 0, f);
  }

  lemma ParsesHolds(s: bytes, f: Forest)
    requires |s| < TWO31 && ForestOf(s) == Some(f)
    ensures Holds(s, f)
  {
    AlignedSmall();
    var p := Parse(s, 0);
    hide Word, TagAt, Enc, Parse, Aligned, Align4;
    EncParse(s, 0);
    WordOfUnword(s[p.stop..p.stop + 4]);
  }

  /** A block holds a forest exactly when the tag reader parses it to that forest. */
  lemma HoldsIsParse(s: bytes, f: Forest)
    requires |s| < TWO31
    ensures Holds(s, f) <==> ForestOf(s) == Some(f)
  {
    hide Holds, ForestOf;
    if Holds(s, f) { HoldsParses(s, f); }
    if ForestOf(s) == Some(f) { ParsesHolds(s, f); }
  }

  lemma EndTag(s: bytes, off: int)
    requires Aligned(off) && At(s, off, Word(END))
    ensures TagAt(s, off) == TagResult(END, off + 4)
  {
    hide Word, Unword;
  }

  // ---------------------------------------------------------------- positions

  /** A forest with one hole. */
  datatype Ctx =
    | Hole
    | CItem(tok: Token, inner: Ctx)
    | CBody(name: bytes, pad: bytes, inner: Ctx, rest: Forest)
    | CRest(name: bytes, pad: bytes, body: Forest, inner: Ctx)

  function Plug(c: Ctx, f: Forest): (g: Forest)
  {
    match c
    case Hole => f
    case CItem(tok, inner) => Item(tok, Plug(inner, f))
    case CBody(name, pad, inner, rest) => Node(name, pad, Plug(inner, f), rest)
    case CRest(name, pad, body, inner) => Node(name, pad, body, Plug(inner, f))
  }

  predicate WfCtx(c: Ctx)
  {
    match c
    case Hole => true
    case CItem(tok, inner) => WfTok(tok) && (tok.Prop? || tok.Nop?) && WfCtx(inner)
    case CBody(name, pad, inner, rest) => WfTok(Begin(name, pad)) && WfCtx(inner) && Wf(rest)
    case CRest(name, pad, body, inner) => WfTok(Begin(name, pad)) && Wf(body) && WfCtx(inner)
  }

  lemma {:induction c} WfPlug(c: Ctx, f: Forest)
    ensures Wf(Plug(c, f)) <==> WfCtx(c) && Wf(f)
  {
  }

  /** The bytes before and after the hole. */
  function Pre(c: Ctx): (s: bytes)
    requires WfCtx(c)
    ensures Aligned(|s|)
  {
    AlignedSmall();
    hide Word, Unword, Align4, Aligned, EncTok;
    match c
    case Hole => []
    case CItem(tok, inner) =>
      AlignedAdd(|EncTok(tok)|, |Pre(inner)|);
      EncTok(tok) + Pre(inner)
    case CBody(name, pad, inner, rest) =>
      AlignedAdd(|EncTok(Begin(name, pad))|, |Pre(inner)|);
      EncTok(Begin(name, pad)) + Pre(inner)
    case CRest(name, pad, body, inner) =>
      AlignedNode(|EncTok(Begin(name, pad))|, |Enc(body)|, |EncTok(EndNode)|, |Pre(inner)|);
      EncTok(Begin(name, pad)) + Enc(body) + EncTok(EndNode) + Pre(inner)
  }

  function Post(c: Ctx): (s: bytes)
    requires WfCtx(c)
    ensures Aligned(|s|)
  {
    AlignedSmall();
    hide Word, Unword, Align4, Aligned, EncTok;
    match c
    case Hole => []
    case CItem(_, inner) => Post(inner)
    case CBody(_, _, inner, rest) =>
      AlignedNode(|Post(inner)|, |EncTok(EndNode)|, |Enc(rest)|, |EncTok(EndNode)|);
      Post(inner) + EncTok(EndNode) + Enc(rest)
    case CRest(_, _, _, inner) => Post(inner)
  }

  lemma {:induction false} EncPlug(c: Ctx, f: Forest)
    requires WfCtx(c) && Wf(f)
    ensures Wf(Plug(c, f)) && Enc(Plug(c, f)) == Pre(c) + Enc(f) + Post(c)
  {
    hide Word, Unword, Align4, Aligned, EncTok;
    WfPlug(c, f);
    match c
    case Hole =>
    case CItem(tok, inner) =>
      EncPlug(inner, f);
      Assoc5(EncTok(tok), Pre(inner), Enc(f), Post(inner), []);
    case CBody(name, pad, inner, rest) =>
      EncPlug(inner, f);
      EncPlugBody(name, pad, inner, rest, f);
    case CRest(name, pad, body, inner) =>
      EncPlug(inner, f);
      EncPlugRest(name, pad, body, inner, f);
  }

  lemma EncPlugBody(name: bytes, pad: bytes, inner: Ctx, rest: Forest, f: Forest)
    requires WfCtx(CBody(name, pad, inner, rest)) && Wf(f) && Wf(Plug(inner, f))
    requires Enc(Plug(inner, f)) == Pre(inner) + Enc(f) + Post(inner)
    ensures var c := CBody(name, pad, inner, rest);
      Enc(Node(name, pad, Plug(inner, f), rest)) == Pre(c) + Enc(f) + Post(c)
  {
    hide EncTok, Aligned, Plug;
    AssocBody(EncTok(Begin(name, pad)), Pre(inner), Enc(f), Post(inner), EncTok(EndNode), Enc(rest));
  }

  lemma EncPlugRest(name: bytes, pad: bytes, body: Forest, inner: Ctx, f: Forest)
    requires WfCtx(CRest(name, pad, body, inner)) && Wf(f) && Wf(Plug(inner, f))
    requires Enc(Plug(inner, f)) == Pre(inner) + Enc(f) + Post(inner)
    ensures var c := CRest(name, pad, body, inner);
      Enc(Node(name, pad, body, Plug(inner, f))) == Pre(c) + Enc(f) + Post(c)
  {
    hide EncTok, Aligned, Plug;
    var h := EncTok(Begin(name, pad)) + Enc(body) + EncTok(EndNode);
    Assoc5(h, Pre(inner), Enc(f), Post(inner), []);
  }

  lemma AssocBody(a: bytes, p: bytes, f: bytes, q: bytes, e: bytes, r: bytes)
    ensures a + (p + f + q) + e + r == (a + p) + f + (q + e + r)
  {
    Assoc5(a, p, f, q, e + r);
    Assoc(a + (p + f + q), e, r);
    Assoc(q, e, r);
  }

  /** One context inside the hole of another. */
  function Comp(c: Ctx, d: Ctx): (e: Ctx)
  {
    match c
    case Hole => d
    case CItem(tok, inner) => CItem(tok, Comp(inner, d))
    case CBody(name, pad, inner, rest) => CBody(name, pad, Comp(inner, d), rest)
    case CRest(name, pad, body, inner) => CRest(name, pad, body, Comp(inner, d))
  }

  lemma {:induction c} CompPlug(c: Ctx, d: Ctx, f: Forest)
    ensures Plug(Comp(c, d), f) == Plug(c, Plug(d, f))
    ensures WfCtx(Comp(c, d)) <==> WfCtx(c) && WfCtx(d)
  {
  }

  lemma {:induction false} CompPre(c: Ctx, d: Ctx)
    requires WfCtx(c) && WfCtx(d)
    ensures WfCtx(Comp(c, d)) && Pre(Comp(c, d)) == Pre(c) + Pre(d) && Post(Comp(c, d)) == Post(d) + Post(c)
  {
    hide Word, Unword, Align4, Aligned, EncTok;
    CompPlug(c, d, Nil);
    match c
    case Hole =>
    case CItem(tok, inner) =>
      CompPre(inner, d);
      Assoc(EncTok(tok), Pre(inner), Pre(d));
    case CBody(name, pad, inner, rest) =>
      CompPre(inner, d);
      Assoc(EncTok(Begin(name, pad)), Pre(inner), Pre(d));
      Assoc(Post(d), Post(inner), EncTok(EndNode));
      Assoc(Post(d), Post(inner) + EncTok(EndNode), Enc(rest));
    case CRest(name, pad, body, inner) =>
      CompPre(inner, d);
      Assoc(EncTok(Begin(name, pad)) + Enc(body) + EncTok(EndNode), Pre(inner), Pre(d));
  }

  /** Where the hole of `c` stands in a block that holds `Plug(c, f)`. */
  lemma AtHole(s: bytes, c: Ctx, f: Forest)
    requires Holds(s, Plug(c, f))
    ensures WfCtx(c) && Wf(f) && At(s, |Pre(c)|, Enc(f)) && At(s, |Pre(c)| + |Enc(f)|, Post(c))
    ensures At(s, |Pre(c)| + |Enc(f)| + |Post(c)|, Word(END)) && At(s, 0, Pre(c))
  {
    hide Word, Enc, Pre, Post;
    WfPlug(c, f);
    EncPlug(c, f);
    AtSplit(s, 0, Pre(c) + Enc(f), Post(c));
    AtSplit(s, 0, Pre(c), Enc(f));
  }

  /** A splice moves what stands behind it and leaves what stands before it. */
  lemma SpliceMoves(s: bytes, p: nat, gone: nat, x: bytes, off: int, y: bytes)
    requires p + gone <= |s| && At(s, off, y)
    ensures off + |y| <= p ==> At(Splice(s, p, gone, x), off, y)
    ensures p + gone <= off ==> At(Splice(s, p, gone, x), off - gone + |x|, y)
  {
    var r := Splice(s, p, gone, x);
    if off + |y| <= p {
      var u, v := r[off..off + |y|], s[off..off + |y|];
      forall i | 0 <= i < |y| ensures u[i] == v[i] {
        assert r[off + i] == s[off + i];
      }
      SameBytes(u, v);
    }
    if p + gone <= off {
      var o := off - gone + |x|;
      var u, v := r[o..o + |y|], s[off..off + |y|];
      forall i | 0 <= i < |y| ensures u[i] == v[i] {
        assert r[o + i] == s[off + i];
      }
      SameBytes(u, v);
    }
  }

  lemma SpliceInner(s: bytes, off: nat, y: bytes, i: nat, gone: nat, x: bytes)
    requires At(s, off, y) && i + gone <= |y|
    ensures At(Splice(s, off + i, gone, x), off, Splice(y, i, gone, x))
  {
    var r := Splice(s, off + i, gone, x);
    var z := Splice(y, i, gone, x);
    var u := r[off..off + |z|];
    forall j | 0 <= j < |z| ensures u[j] == z[j] {
      assert r[off + j] == z[j] by {
        if j < i {
          assert r[off + j] == s[off + j] == s[off..off + |y|][j];
        } else if j >= i + |x| {
          assert r[off + j] == s[off + j - |x| + gone] == s[off..off + |y|][j - |x| + gone];
        }
      }
    }
    SameBytes(u, z);
  }

  /** Splicing inside the forest that fills a hole is editing the tree at that position, and nothing else. */
  lemma EditAt(s: bytes, c: Ctx, f: Forest, g: Forest, i: nat, gone: nat, x: bytes)
    requires Holds(s, Plug(c, f)) && Wf(f) && Wf(g)
    requires i + gone <= |Enc(f)| && Enc(g) == Splice(Enc(f), i, gone, x)
    requires |s| - gone + |x| < TWO31
    ensures WfCtx(c) && |Pre(c)| + |Enc(f)| <= |s|
    ensures Holds(Splice(s, |Pre(c)| + i, gone, x), Plug(c, g))
  {
    hide Word, Enc, Pre, Post, Aligned, At, Splice, Wf, WfCtx, Plug;
    AtHole(s, c, f);
    EncPlug(c, g);
    var p := |Pre(c)|;
    var e := p + |Enc(f)|;
    InBlock(s, p, Enc(f));
    InBlock(s, e, Post(c));
    SpliceInner(s, p, Enc(f), i, gone, x);
    SpliceMoves(s, p + i, gone, x, 0, Pre(c));
    SpliceMoves(s, p + i, gone, x, e, Post(c));
    SpliceMoves(s, p + i, gone, x, e + |Post(c)|, Word(END));
    assert e - gone + |x| == p + |Enc(g)|;
    AtThree(Splice(s, p + i, gone, x), Pre(c), Enc(g), Post(c), Word(END));
  }

  /** The same for a change at the front of that forest. */
  lemma EditHead(s: bytes, c: Ctx, f: Forest, g: Forest, gone: nat, x: bytes)
    requires Holds(s, Plug(c, f)) && Wf(f) && Wf(g)
    requires gone <= |Enc(f)| && Enc(g) == x + Enc(f)[gone..]
    requires |s| - gone + |x| < TWO31
    ensures WfCtx(c) && |Pre(c)| + |Enc(f)| <= |s|
    ensures Holds(Splice(s, |Pre(c)|, gone, x), Plug(c, g))
  {
    hide Word, Enc, Pre, Post, Aligned, At, Wf, WfCtx, Plug, Holds;
    assert Enc(g) == Splice(Enc(f), 0, gone, x);
    EditAt(s, c, f, g, 0, gone, x);
  }

  lemma AtThree(s: bytes, a: bytes, b: bytes, c: bytes, d: bytes)
    requires At(s, 0, a) && At(s, |a|, b) && At(s, |a| + |b|, c) && At(s, |a| + |b| + |c|, d)
    ensures At(s, 0, a + b + c) && At(s, |a + b + c|, d)
  {
    AtSplit(s, 0, a, b);
    AtSplit(s, 0, a + b, c);
  }

  // ---------------------------------------------------------------- names

  /** The string at offset `no` of the strings block `t`. */
  function NameAt(t: bytes, no: int): (r: Option<bytes>)
    ensures r.Some? ==> NoNul(r.value) && 0 <= no && no + |r.value| + 1 <= |t|
    ensures r.Some? ==> t[no..no + |r.value| + 1] == CStr(r.value)
  {
    if no < 0 || no >= |t| then None else
    var k := NulAt(t, no);
    if k == |t| then None else
    assert t[no..k + 1] == t[no..k] + [0];
    Some(t[no..k])
  }

  lemma NameAtIs(t: bytes, no: int, name: bytes)
    requires NoNul(name) && At(t, no, CStr(name))
    ensures NameAt(t, no) == Some(name)
  {
    var k := no + |name|;
    assert t[no..no + |CStr(name)|][|name|] == 0;
    assert t[no..k] == t[no..no + |CStr(name)|][..|name|] == name;
    NulAtIs(t, no, k);
  }

  /** Names survive when the strings block grows at its end. */
  lemma NameGrows(t: bytes, x: bytes, no: int)
    requires NameAt(t, no).Some?
    ensures NameAt(t + x, no) == NameAt(t, no)
  {
    var name := NameAt(t, no).value;
    assert (t + x)[no..no + |name| + 1] == t[no..no + |name| + 1];
    NameAtIs(t + x, no, name);
  }

  // ---------------------------------------------------------------- what a client sees

  datatype Tree =
    | Done
    | Attr(name: bytes, val: bytes, rest: Tree)
    | Sub(name: bytes, body: Tree, rest: Tree)

  /** Every property name of the forest resolves in the strings block. */
  predicate Named(f: Forest, t: bytes)
  {
    match f
    case Nil => true
    case Item(tok, rest) => (tok.Prop? ==> NameAt(t, tok.nameoff).Some?) && Named(rest, t)
    case Node(_, _, body, rest) => Named(body, t) && Named(rest, t)
  }

  function Abs(f: Forest, t: bytes): (a: Tree)
    requires Named(f, t)
  {
    match f
    case Nil => Done
    case Item(tok, rest) =>
      if tok.Prop? then Attr(NameAt(t, tok.nameoff).value, tok.val, Abs(rest, t)) else Abs(rest, t)
    case Node(name, _, body, rest) => Sub(name, Abs(body, t), Abs(rest, t))
  }

  lemma {:induction false} AbsGrows(f: Forest, t: bytes, x: bytes)
    requires Named(f, t)
    ensures Named(f, t + x) && Abs(f, t + x) == Abs(f, t)
  {
    match f
    case Nil =>
    case Item(tok, rest) =>
      AbsGrows(rest, t, x);
      if tok.Prop? { NameGrows(t, x, tok.nameoff); }
    case Node(_, _, body, rest) =>
      AbsGrows(body, t, x);
      AbsGrows(rest, t, x);
  }
}
