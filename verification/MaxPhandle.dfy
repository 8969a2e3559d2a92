/** The largest phandle of a blob (`fdt_get_phandle`, `fdt_find_max_phandle`, `fdt_generate_phandle`). */
module MaxPhandle {
  import opened Bytes
  import opened Format
  import opened Tree
  import opened Blob
  import opened Walk
  import opened TreeOps
  import opened Editor
  import opened PhandleLaws
  import opened MadeBlob
  import R = Reader

  // ---------------------------------------------------------------- one node

  /** The cell that property `name` of the node at `off` holds, if it is one cell long. */
  function CellAt(s: bytes, t: bytes, off: int, name: bytes): (v: Option<int>)
    requires |s| < TWO31
    ensures v.Some? ==> 0 <= v.value < TWO32
  {
    hide Unword, PropLen;
    var r := GetProperty(s, t, off, name);
    if r < 0 then None else
    R.PropLenInt(s, r);
    if PropLen(s, r) == 4 then Some(Unword(s[r + 12..r + 16])) else None
  }

  /** `fdt_get_phandle`, on the bytes. */
  function PhandleAt(s: bytes, t: bytes, off: int): (p: int)
    requires |s| < TWO31
    ensures 0 <= p < TWO32
  {
    var p := CellAt(s, t, off, PHANDLE);
    if p.Some? then p.value else
    var q := CellAt(s, t, off, LINUX_PHANDLE);
    if q.Some? then q.value else 0
  }

  method GetCell(fdt: array<byte>, node: int, name: bytes) returns (v: Option<int>)
    requires Live(fdt[..]) && R.IsInt(node)
    ensures v == CellAt(Struct(fdt[..]), Strings(fdt[..]), node, name)
  {
    hide Field, Unword, Struct, Strings, GetProperty, Sane;
    var s := R.GetProperty(fdt, node, name);
    if s < 0 {
      return None;
    }
    R.PropLenInt(Struct(fdt[..]), s);
    var len := R.StructWord(fdt, s + 4);
    if len != 4 {
      return None;
    }
    var w := R.StructWord(fdt, s + 12);
    return Some(w);
  }

  /** `fdt_get_phandle`. */
  method GetPhandle(fdt: array<byte>, node: int) returns (p: int)
    requires Live(fdt[..]) && R.IsInt(node)
    ensures p == PhandleAt(Struct(fdt[..]), Strings(fdt[..]), node)
  {
    hide Field, Unword, Struct, Strings, CellAt;
    var php := GetCell(fdt, node, PHANDLE);
    if php.None? {
      php := GetCell(fdt, node, LINUX_PHANDLE);
      if php.None? {
        return 0;
      }
    }
    return php.value;
  }

  /** What it returns for a node of a tree. */
  lemma PhandleAtIs(s: bytes, t: bytes, off: int, name: bytes, pad: bytes, body: Forest)
    requires NodeIn(s, off, name, pad, body) && Named(body, t) && |s| < TWO31
    ensures PhandleAt(s, t, off) == PhandleOf(Abs(body, t))
  {
    hide Unword, CellAt, NodeIn, Abs, Named;
    CellAtIs(s, t, off, name, pad, body, PHANDLE);
    CellAtIs(s, t, off, name, pad, body, LINUX_PHANDLE);
  }

  lemma CellAtIs(s: bytes, t: bytes, off: int, name: bytes, pad: bytes, body: Forest, want: bytes)
    requires NodeIn(s, off, name, pad, body) && Named(body, t) && |s| < TWO31
    ensures CellAt(s, t, off, want) ==
      match GetAttr(Abs(body, t), want)
      case Some(v) => if |v| == 4 then Some(Unword(v)) else None
      case None => None
  {
    hide Unword, Word, NameAt, Pre, EncTok, Aligned, At, TagAt, Enc, GetProperty, PropLen;
    GetPropertyIs(s, t, off, name, pad, body, want);
    PropCtxAbs(body, t, want);
    if PropCtx(body, t, want).Some? {
      PropInside(s, BodyAt(off, name, pad), body, t, want);
      NodeInIs(s, off, name, pad, body);
    }
  }

  /** The found property, in a body that stands at `off`. */
  lemma {:induction false} PropInside(s: bytes, off: int, f: Forest, t: bytes, want: bytes)
    requires Inside(s, off, f) && PropCtx(f, t, want).Some?
    ensures var k := PropCtx(f, t, want).value; var tok := PropTail(f, t, want).tok;
      && WfCtx(k) && tok.Prop?
      && var r := off + |Pre(k)|;
        0 <= r && r + 12 + |tok.val| <= |s| && PropLen(s, r) == |tok.val| && s[r + 12..r + 12 + |tok.val|] == tok.val
    decreases f
  {
    hide Unword, Word, NameAt, EncTok, Aligned, At, TagAt, PropLen;
    match f
    case Item(tok, rest) =>
      InsideItem(s, off, tok, rest);
      if tok.Prop? && NameAt(t, tok.nameoff) == Some(want) {
        PropFields(s, off, tok);
        ValueBytes(s, off, tok);
      } else {
        PropInside(s, off + |EncTok(tok)|, rest, t, want);
      }
  }

  // ---------------------------------------------------------------- all nodes

  /** The tag loop of `fdt_next_node` without a depth counter. */
  function ScanAny(s: bytes, off: int): (r: int)
    ensures r >= 0 ==> r >= off && TagAt(s, r).tag == BEGIN_NODE
    decreases |s| - off
  {
    hide Unword, Align4, TagAt;
    var r := TagAt(s, off);
    if r.tag == BEGIN_NODE then off
    else if r.tag == END then (if r.next >= 0 || r.next == -ERR_TRUNCATED then -ERR_NOTFOUND else r.next)
    else ScanAny(s, r.next)
  }

  /** `fdt_next_node` without a depth counter. */
  method NextAny(fdt: array<byte>, offset: int) returns (r: int)
    requires Sane(fdt[..]) && R.IsInt(offset)
    ensures var s := Struct(fdt[..]);
      r == if offset < 0 then ScanAny(s, 0)
           else if CheckNode(s, offset) < 0 then CheckNode(s, offset) else ScanAny(s, CheckNode(s, offset))
    ensures R.IsInt(r)
  {
    hide Field, Unword, Struct, TagAt;
    ghost var s := Struct(fdt[..]);
    var next := 0;
    if offset >= 0 {
      next := R.CheckNodeOffset(fdt, offset);
      if next < 0 {
        return next;
      }
    }
    ghost var start := next;
    var tag;
    r := next;
    tag, next := NextTag(fdt, r);
    while tag != BEGIN_NODE
      invariant R.IsInt(r) && r >= 0 && R.IsInt(next)
      invariant TagResult(tag, next) == TagAt(s, r)
      invariant ScanAny(s, start) == ScanAny(s, r)
      decreases |s| - r
    {
      if tag == END {
        return if next >= 0 || next == -ERR_TRUNCATED then -ERR_NOTFOUND else next;
      }
      r := next;
      tag, next := NextTag(fdt, r);
    }
  }

  /** The loop of `fdt_find_max_phandle`, resumed at the tag at `pos` with the maximum `max` so far: how it ends, and
      with what maximum. */
  function MaxFrom(s: bytes, t: bytes, pos: int, max: int): (r: (int, int))
    requires |s| < TWO31
    decreases |s| - pos
  {
    hide TagAt, PhandleAt;
    var o := ScanAny(s, pos);
    if o < 0 then (o, max) else
    var v := PhandleAt(s, t, o);
    if CheckNode(s, o) < 0 then (CheckNode(s, o), if v > max then v else max) else
    MaxFrom(s, t, CheckNode(s, o), if v > max then v else max)
  }

  function Max2(a: int, b: int): (m: int)
  {
    if b > a then b else a
  }

  lemma {:induction false} MaxCat(a: seq<int>, b: seq<int>)
    ensures MaxOf(a + b) == Max2(MaxOf(a), MaxOf(b))
    decreases |b|
  {
    if b == [] {
      assert a + b == a;
    } else {
      MaxCat(a, b[..|b| - 1]);
      assert (a + b)[..|a + b| - 1] == a + b[..|b| - 1];
    }
  }

  /** The maximum of a node: its own phandle, those of its body, those of its siblings. */
  lemma MaxOfNode(p: int, body: seq<int>, rest: seq<int>, m: int)
    requires p >= 0 && m >= 0
    ensures Max2(Max2(Max2(m, p), MaxOf(body)), MaxOf(rest)) == Max2(m, MaxOf([p] + body + rest))
  {
    MaxCat([p], body);
    MaxCat([p] + body, rest);
  }

  /** Over a forest the loop takes the maximum of its phandles. */
  lemma {:induction false} MaxSkip(s: bytes, t: bytes, off: int, f: Forest, m: int)
    requires Wf(f) && Aligned(off) && |s| < TWO31 && At(s, off, Enc(f)) && Named(f, t) && m >= 0
    ensures MaxFrom(s, t, off, m) == MaxFrom(s, t, off + |Enc(f)|, Max2(m, MaxOf(Phandles(Abs(f, t)))))
    decreases f
  {
    hide Unword, Word, NameAt, EncTok, Aligned, At, TagAt, PhandleAt, PhandleOf, MaxFrom, MaxOf, NodeIn;
    match f
    case Nil =>
    case Item(tok, rest) =>
      ReadItem(s, off, tok, rest);
      MaxSkip(s, t, off + |EncTok(tok)|, rest, m);
      MaxNext(s, t, off, off + |EncTok(tok)|, m);
    case Node(name, pad, body, rest) =>
      ReadNode(s, off, name, pad, body, rest);
      var e := BodyAt(off, name, pad) + |Enc(body)|;
      var m1 := Max2(m, PhandleOf(Abs(body, t)));
      var m2 := Max2(m1, MaxOf(Phandles(Abs(body, t))));
      MaxEnter(s, t, off, name, pad, body, m);
      MaxSkip(s, t, BodyAt(off, name, pad), body, m1);
      MaxNext(s, t, e, e + 4, m2);
      MaxSkip(s, t, e + 4, rest, m2);
      MaxOfNode(PhandleOf(Abs(body, t)), Phandles(Abs(body, t)), Phandles(Abs(rest, t)), m);
  }

  /** At a node its phandle is taken into account. */
  lemma MaxEnter(s: bytes, t: bytes, off: int, name: bytes, pad: bytes, body: Forest, m: int)
    requires WfTok(Begin(name, pad)) && Wf(body) && Aligned(off) && |s| < TWO31 && At(s, off, EncTok(Begin(name, pad)))
    requires var b := BodyAt(off, name, pad);
      Aligned(b) && At(s, b, Enc(body)) && At(s, b + |Enc(body)|, EncTok(EndNode))
    requires Named(body, t)
    ensures MaxFrom(s, t, off, m) == MaxFrom(s, t, BodyAt(off, name, pad), Max2(m, PhandleOf(Abs(body, t))))
  {
    hide Unword, Word, NameAt, EncTok, Aligned, At, TagAt, PhandleAt, PhandleOf, Enc, Abs;
    NodeInIs(s, off, name, pad, body);
    PhandleAtIs(s, t, off, name, pad, body);
  }

  /** A tag that starts no node is passed over. */
  lemma MaxNext(s: bytes, t: bytes, off: int, next: int, m: int)
    requires |s| < TWO31 && TagAt(s, off).next == next && TagAt(s, off).tag in {END_NODE, PROP, NOP}
    ensures MaxFrom(s, t, off, m) == MaxFrom(s, t, next, m)
  {
    hide Unword, TagAt, PhandleAt;
  }

  /** On the blob of a tree the loop ends well, with the largest phandle of the tree. */
  lemma MaxIs(b: bytes, a: Tree)
    requires Sane(b) && TreeOf(b) == Some(a)
    ensures MaxFrom(Struct(b), Strings(b), 0, 0) == (-ERR_NOTFOUND, MaxOf(Phandles(a)))
  {
    hide Field, Unword, Word, Struct, Strings, TagAt, PhandleAt, NameAt, At, Phandles, ForestOf, Enc, EncTok;
    var s, t := Struct(b), Strings(b);
    var f := ForestOf(s).value;
    ParsesHolds(s, f);
    AlignedSmall();
    MaxSkip(s, t, 0, f, 0);
    EndTag(s, |Enc(f)|);
    assert Max2(0, MaxOf(Phandles(a))) == MaxOf(Phandles(a));
  }

  /** `fdt_find_max_phandle`. */
  method FindMaxPhandle(fdt: array<byte>) returns (err: int, max: int)
    requires Live(fdt[..])
    ensures var r := MaxFrom(Struct(fdt[..]), Strings(fdt[..]), 0, 0);
      if r.0 == -ERR_NOTFOUND then err == 0 && max == r.1 else err == r.0
    ensures forall a :: TreeOf(fdt[..]) == Some(a) ==> err == 0 && max == MaxOf(Phandles(a))
  {
    hide Field, Unword, Struct, Strings, TagAt, PhandleAt, TreeOf, CheckNode;
    ghost var s, t := Struct(fdt[..]), Strings(fdt[..]);
    forall a | TreeOf(fdt[..]) == Some(a) ensures MaxFrom(s, t, 0, 0) == (-ERR_NOTFOUND, MaxOf(Phandles(a))) {
      MaxIs(fdt[..], a);
    }
    max := 0;
    var offset := -1;
    while true
      invariant R.IsInt(offset)
      invariant offset < 0 || CheckNode(s, offset) < 0
                || MaxFrom(s, t, 0, 0) == MaxFrom(s, t, CheckNode(s, offset), max)
      invariant offset < 0 ==> offset == -1 && max == 0
      invariant offset >= 0 && CheckNode(s, offset) < 0 ==> MaxFrom(s, t, 0, 0) == (CheckNode(s, offset), max)
      decreases Left(s, offset) + if offset < 0 then |s| + 100 else 0
    {
      ghost var was := offset;
      offset := NextAny(fdt, offset);
      if offset < 0 {
        if offset == -ERR_NOTFOUND {
          break;
        }
        return offset, max;
      }
      var value := GetPhandle(fdt, offset);
      if value > max {
        max := value;
      }
    }
    err := 0;
  }

  /** `fdt_generate_phandle`: the cell behind the largest phandle, which is a phandle that no node has if and only if
      the largest is below the last one that can be given.  At that one it reports an error; beyond it the sum wraps. */
  method GeneratePhandle(fdt: array<byte>) returns (err: int, phandle: int)
    requires Live(fdt[..])
    ensures forall a :: TreeOf(fdt[..]) == Some(a) ==>
      && (err == 0 <==> MaxOf(Phandles(a)) != NO_PHANDLE - 1)
      && (err == 0 && phandle > 0 && phandle !in Phandles(a) <==> MaxOf(Phandles(a)) < NO_PHANDLE - 1)
      && (err == 0 && MaxOf(Phandles(a)) > NO_PHANDLE - 1 ==> phandle == 0)
  {
    hide Field, Unword, Struct, Strings, TreeOf, MaxFrom, Phandles;
    phandle := 0;
    var max;
    err, max := FindMaxPhandle(fdt);
    if err < 0 {
      return;
    }
    if max == NO_PHANDLE - 1 { // FDT_MAX_PHANDLE
      return -ERR_NOPHANDLES, 0;
    }
    phandle := (max + 1) % TWO32;
    forall a | TreeOf(fdt[..]) == Some(a)
      ensures MaxOf(Phandles(a)) <= NO_PHANDLE
    {
      PhandlesSmall(a);
    }
  }

  lemma {:induction false} PhandlesSmall(a: Tree)
    ensures forall p | p in Phandles(a) :: 0 <= p <= NO_PHANDLE
  {
    hide PhandleOf;
    match a
    case Done =>
    case Attr(_, _, rest) => PhandlesSmall(rest);
    case Sub(_, body, rest) =>
      PhandlesSmall(body);
      PhandlesSmall(rest);
  }

  /** A blob for which it fails: one node whose phandle cell is all ones. */
  lemma GenerateFails() returns (b: bytes, a: Tree)
    ensures Live(b) && TreeOf(b) == Some(a) && a == Sub([], Attr(PHANDLE, Word(NO_PHANDLE), Done), Done)
    ensures MaxOf(Phandles(a)) == NO_PHANDLE && (MaxOf(Phandles(a)) + 1) % TWO32 == 0
  {
    hide Word, Unword, Made, Holds, TreeOf;
    a := Sub([], Attr(PHANDLE, Word(NO_PHANDLE), Done), Done);
    var f := OnesForest();
    var s, t := Enc(f) + Word(END), PHANDLE + [0];
    OnesHolds();
    MadeTree(s, t, f);
    MadeIs(s, t);
    b := Made(s, t);
    var body := Attr(PHANDLE, Word(NO_PHANDLE), Done);
    assert GetAttr(body, PHANDLE) == Some(Word(NO_PHANDLE));
    assert PhandleOf(body) == NO_PHANDLE;
    assert Phandles(a) == [NO_PHANDLE];
    assert [NO_PHANDLE][..0] == [];
  }

  function OnesForest(): (f: Forest)
    ensures Wf(f)
  {
    Node([], Zeros(3), Item(Prop(0, Word(NO_PHANDLE), []), Nil), Nil)
  }

  lemma OnesHolds()
    ensures var f := OnesForest(); var t := PHANDLE + [0];
      && Holds(Enc(f) + Word(END), f) && Small(Enc(f) + Word(END), t) && Named(f, t)
      && Abs(f, t) == Sub([], Attr(PHANDLE, Word(NO_PHANDLE), Done), Done)
  {
    hide Word, Unword;
    var t := PHANDLE + [0];
    NulAtIs(t, 0, 7);
    assert t[0..7] == PHANDLE;
    assert NameAt(t, 0) == Some(PHANDLE);
    var body := Item(Prop(0, Word(NO_PHANDLE), []), Nil);
    assert Named(body, t) && Abs(body, t) == Attr(PHANDLE, Word(NO_PHANDLE), Done);
    assert Enc(Nil) == [];
    assert |Enc(body)| == 16;
  }
}
