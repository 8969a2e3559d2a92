/** The read-only walks over a structure block, as total functions of its bytes, and what they find when
    the block encodes a tree.  Negative offsets are error codes. */
module Walk {
  import opened Bytes
  import opened Format
  import opened Tree

  const COMMERCIAL_AT: byte := 64

  /** A bound on the tags still ahead of `off`. */
  function Left(s: bytes, off: int): (n: nat)
  {
    if off < 0 then 0 else if |s| + 8 - off < 1 then 1 else |s| + 8 - off
  }

  datatype Step = Step(off: int, depth: int)

  /** `fdt_check_node_offset_`. */
  function CheckNode(s: bytes, off: int): (r: int)
    ensures r >= 0 ==>
      off >= 0 && Aligned(off) && off + 4 <= |s| && r >= off + 4 && TagAt(s, off) == TagResult(BEGIN_NODE, r)
  {
    if off < 0 || !Aligned(off) || TagAt(s, off).tag != BEGIN_NODE then -ERR_BADOFFSET else TagAt(s, off).next
  }

  /** `fdt_check_prop_offset_`. */
  function CheckProp(s: bytes, off: int): (r: int)
    ensures r >= 0 ==>
      off >= 0 && Aligned(off) && off + 12 <= |s| && r >= off + 12 && TagAt(s, off) == TagResult(PROP, r)
  {
    if off < 0 || !Aligned(off) || TagAt(s, off).tag != PROP then -ERR_BADOFFSET else TagAt(s, off).next
  }

  /** The tag loop of `fdt_next_node` with a depth counter. */
  function ScanNode(s: bytes, off: int, depth: int): (r: Step)
    ensures r.off >= 0 ==> r.off >= off
    decreases |s| - off
  {
    hide Unword, Align4;
    var r := TagAt(s, off);
    if r.tag == BEGIN_NODE then Step(off, depth + 1)
    else if r.tag == END_NODE then
      if depth - 1 < 0 then Step(r.next, depth - 1) else ScanNode(s, r.next, depth - 1)
    else if r.tag == END then Step(if r.next >= 0 then -ERR_NOTFOUND else r.next, depth)
    else ScanNode(s, r.next, depth)
  }

  /** `fdt_next_node` with a depth counter. */
  function NextNode(s: bytes, off: int, depth: int): (r: Step)
    ensures r.off >= 0 && off >= 0 ==> r.off > off && off + 4 <= |s|
  {
    if off < 0 then ScanNode(s, 0, depth) else
    if CheckNode(s, off) < 0 then Step(CheckNode(s, off), depth) else ScanNode(s, CheckNode(s, off), depth)
  }

  /** `fdt_first_subnode`. */
  function FirstSubnode(s: bytes, off: int): (r: int)
  {
    var n := NextNode(s, off, 0);
    if n.off < 0 || n.depth != 1 then -ERR_NOTFOUND else n.off
  }

  /** The loop of `fdt_next_subnode`. */
  function NextSub(s: bytes, off: int, depth: int): (r: int)
    requires off >= 0
    decreases |s| - off
  {
    var n := NextNode(s, off, depth);
    if n.off < 0 || n.depth < 1 then -ERR_NOTFOUND
    else if n.depth > 1 then NextSub(s, n.off, n.depth)
    else n.off
  }

  /** The loop of `fdt_node_end_offset_`. */
  function NodeEnd(s: bytes, off: int, depth: int): (r: int)
    decreases Left(s, off)
  {
    if off < 0 || depth < 0 then off else
    var n := NextNode(s, off, depth);
    NodeEnd(s, n.off, n.depth)
  }

  /** `fdt_nodename_eq_`: an exact match, or a match up to a unit address the caller left out. */
  predicate NameMatches(node: bytes, want: bytes)
  {
    |want| <= |node| && node[..|want|] == want
    && (|node| == |want| || (COMMERCIAL_AT !in want && node[|want|] == COMMERCIAL_AT))
  }

  function NodeName(s: bytes, off: int): (r: bytes)
    requires CheckNode(s, off) >= 0
  {
    s[off + 4..NulAt(s, off + 4)]
  }

  predicate NodeNameEq(s: bytes, off: int, want: bytes)
  {
    CheckNode(s, off) >= 0 && NameMatches(NodeName(s, off), want)
  }

  /** The loop of `fdt_subnode_offset_namelen`. */
  function FindSub(s: bytes, off: int, depth: int, want: bytes): (r: int)
    decreases Left(s, off)
  {
    if depth < 0 then -ERR_NOTFOUND
    else if off < 0 then off
    else if depth == 1 && NodeNameEq(s, off, want) then off
    else
      var n := NextNode(s, off, depth);
      FindSub(s, n.off, n.depth, want)
  }

  /** `nextprop_`. */
  function NextProp(s: bytes, off: int): (r: int)
    ensures r >= 0 ==> r >= off
    decreases |s| - off
  {
    hide Unword, Align4;
    var r := TagAt(s, off);
    if r.tag == END then (if r.next >= 0 then -ERR_BADSTRUCTURE else r.next)
    else if r.tag == PROP then off
    else if r.tag == NOP then NextProp(s, r.next)
    else -ERR_NOTFOUND
  }

  function FirstPropertyOffset(s: bytes, off: int): (r: int)
  {
    if CheckNode(s, off) < 0 then CheckNode(s, off) else NextProp(s, CheckNode(s, off))
  }

  function NextPropertyOffset(s: bytes, off: int): (r: int)
    ensures r >= 0 ==> off >= 0 && r >= off + 12 && off + 12 <= |s|
  {
    if CheckProp(s, off) < 0 then CheckProp(s, off) else NextProp(s, CheckProp(s, off))
  }

  function PropNameOff(s: bytes, off: int): (r: int)
    requires 0 <= off && off + 12 <= |s|
  {
    Unword(s[off + 8..off + 12])
  }

  function PropLen(s: bytes, off: int): (r: int)
    requires 0 <= off && off + 12 <= |s|
  {
    Unword(s[off + 4..off + 8])
  }

  /** The loop of `fdt_get_property_namelen_`: the offset of the property, starting the search at property `off`. */
  function FindProp(s: bytes, t: bytes, off: int, name: bytes): (r: int)
    ensures r >= 0 ==> CheckProp(s, r) >= 0
    decreases if off < 0 then 0 else |s| + 1 - off
  {
    if off < 0 then off
    else if CheckProp(s, off) < 0 then -ERR_INTERNAL
    else if NameAt(t, PropNameOff(s, off)) == Some(name) then off
    else FindProp(s, t, NextPropertyOffset(s, off), name)
  }

  /** `fdt_get_property`. */
  function GetProperty(s: bytes, t: bytes, node: int, name: bytes): (r: int)
    ensures r >= 0 ==> CheckProp(s, r) >= 0
  {
    FindProp(s, t, FirstPropertyOffset(s, node), name)
  }

  // ---------------------------------------------------------------- what the walks find in a tree

  /** The body `f` of a node stands at `off`, and its END_NODE after it. */
  ghost predicate Inside(s: bytes, off: int, f: Forest)
  {
    Wf(f) && Aligned(off) && |s| < TWO31 && At(s, off, Enc(f)) && At(s, off + |Enc(f)|, EncTok(EndNode))
  }

  lemma InsideNil(s: bytes, off: int)
    requires Inside(s, off, Nil)
    ensures TagAt(s, off) == TagResult(END_NODE, off + 4) && 0 <= off && off + 4 <= |s| && Enc(Nil) == []
  {
    hide Word, Unword, EncTok;
    EndLen();
    TagAtTok(s, off, EndNode);
  }

  lemma InsideItem(s: bytes, off: int, tok: Token, rest: Forest)
    requires Inside(s, off, Item(tok, rest))
    ensures var n := off + |EncTok(tok)|;
      && TagAt(s, off) == TagResult(Code(tok), n) && 0 <= off && off + 4 <= n <= |s| && At(s, off, EncTok(tok))
      && Inside(s, n, rest) && n + |Enc(rest)| == off + |Enc(Item(tok, rest))|
  {
    hide Word, Unword, EncTok, Aligned, TagAt;
    ReadItem(s, off, tok, rest);
  }

  /** A node stands at `off`: its tag, then its body. */
  ghost predicate NodeIn(s: bytes, off: int, name: bytes, pad: bytes, body: Forest)
  {
    && WfTok(Begin(name, pad)) && Aligned(off) && At(s, off, EncTok(Begin(name, pad)))
    && Inside(s, BodyAt(off, name, pad), body)
  }

  lemma NodeInIs(s: bytes, off: int, name: bytes, pad: bytes, body: Forest)
    requires NodeIn(s, off, name, pad, body)
    ensures
      var b := BodyAt(off, name, pad);
      var e := b + |Enc(body)|;
      && CheckNode(s, off) == b && 0 <= off && off + 4 <= b <= e <= |s| - 4
      && TagAt(s, off) == TagResult(BEGIN_NODE, b) && TagAt(s, e) == TagResult(END_NODE, e + 4)
      && NodeName(s, off) == name
  {
    hide Word, Unword, EncTok, TagAt;
    EndLen();
    TagAtTok(s, off, Begin(name, pad));
    NodeNameIs(s, off, name, pad);
    var b := BodyAt(off, name, pad);
    AlignedAdd(b, |Enc(body)|);
    TagAtTok(s, b + |Enc(body)|, EndNode);
  }

  lemma InsideNode(s: bytes, off: int, name: bytes, pad: bytes, body: Forest, rest: Forest)
    requires Inside(s, off, Node(name, pad, body, rest))
    ensures
      var b := BodyAt(off, name, pad);
      var e := b + |Enc(body)|;
      && CheckNode(s, off) == b && 0 <= off && off + 4 <= b <= e <= |s| - 4 && Inside(s, b, body)
      && NodeIn(s, off, name, pad, body)
      && TagAt(s, off) == TagResult(BEGIN_NODE, b)
      && TagAt(s, e) == TagResult(END_NODE, e + 4) && Inside(s, e + 4, rest)
      && e + 4 + |Enc(rest)| == off + |Enc(Node(name, pad, body, rest))|
      && NodeName(s, off) == name
  {
    hide Word, Unword, EncTok, Aligned, TagAt;
    EndLen();
    ReadNode(s, off, name, pad, body, rest);
    NodeNameIs(s, off, name, pad);
  }

  lemma NodeNameIs(s: bytes, off: int, name: bytes, pad: bytes)
    requires WfTok(Begin(name, pad)) && |s| < TWO31 && Aligned(off) && At(s, off, EncTok(Begin(name, pad)))
    ensures CheckNode(s, off) == BodyAt(off, name, pad) && NodeName(s, off) == name
  {
    hide Word, Unword, EncTok, TagAt;
    TagAtTok(s, off, Begin(name, pad));
    TokOfEnc(s, off, Begin(name, pad));
  }

  // Properties of a node.

  /** Where the next property of a body starts, relative to the body. */
  function PropHead(f: Forest): (r: Option<nat>)
  {
    match f
    case Item(tok, rest) =>
      if tok.Prop? then Some(0) else
      (match PropHead(rest) case None => None case Some(n) => Some(4 + n))
    case _ => None
  }

  /** The position of the first property called `name` in a body; lookup stops at the first subnode. */
  function PropCtx(f: Forest, t: bytes, name: bytes): (r: Option<Ctx>)
    ensures r.Some? && Wf(f) ==> WfCtx(r.value)
  {
    match f
    case Item(tok, rest) =>
      if tok.Prop? && NameAt(t, tok.nameoff) == Some(name) then Some(Hole) else
      (match PropCtx(rest, t, name) case None => None case Some(c) => Some(CItem(tok, c)))
    case _ => None
  }

  /** What stands at that position: the property itself and the siblings after it. */
  function PropTail(f: Forest, t: bytes, name: bytes): (g: Forest)
    requires PropCtx(f, t, name).Some?
    ensures Plug(PropCtx(f, t, name).value, g) == f
    ensures g.Item? && g.tok.Prop? && NameAt(t, g.tok.nameoff) == Some(name)
  {
    match f
    case Item(tok, rest) =>
      if tok.Prop? && NameAt(t, tok.nameoff) == Some(name) then f else PropTail(rest, t, name)
  }

  lemma PropFields(s: bytes, off: int, tok: Token)
    requires WfTok(tok) && tok.Prop? && Aligned(off) && |s| < TWO31 && At(s, off, EncTok(tok))
    ensures CheckProp(s, off) == off + |EncTok(tok)| && 0 <= off && off + 12 <= |s|
    ensures PropNameOff(s, off) == tok.nameoff && PropLen(s, off) == |tok.val|
    ensures off + 12 + |tok.val| <= |s| && s[off + 12..off + 12 + |tok.val|] == tok.val
  {
    hide Word, Unword, EncTok, TagAt, Aligned;
    TagAtTok(s, off, tok);
    PropParts(s, off, tok.nameoff, tok.val, tok.pad);
  }

  lemma ValueBytes(s: bytes, r: int, tok: Token)
    requires WfTok(tok) && tok.Prop? && At(s, r, EncTok(tok))
    ensures 0 <= r && r + 12 + |tok.val| <= |s| && s[r + 12..r + 12 + |tok.val|] == tok.val
  {
    hide Word, EncTok;
    PropParts(s, r, tok.nameoff, tok.val, tok.pad);
  }

  /** `fdt_get_property` on the body of a node finds the first property of that name, or nothing. */
  lemma {:induction false} FindPropIs(s: bytes, t: bytes, off: int, f: Forest, name: bytes)
    requires Inside(s, off, f)
    ensures FindProp(s, t, NextProp(s, off), name)
      == match PropCtx(f, t, name) case None => -ERR_NOTFOUND case Some(c) => off + |Pre(c)|
    decreases f
  {
    hide Word, Unword, EncTok, TagAt, Aligned, Align4, At, NameAt;
    match f
    case Nil => InsideNil(s, off);
    case Node(name, pad, body, rest) => InsideNode(s, off, name, pad, body, rest);
    case Item(tok, rest) =>
      InsideItem(s, off, tok, rest);
      var n := off + |EncTok(tok)|;
      FindPropIs(s, t, n, rest, name);
      if tok.Prop? {
        PropFields(s, off, tok);
      }
  }

  /** The properties a client can enumerate: those before the first subnode. */
  function Props(f: Forest): (r: seq<Token>)
  {
    match f
    case Item(tok, rest) => if tok.Prop? then [tok] + Props(rest) else Props(rest)
    case _ => []
  }

  // Subnodes.

  /** Where the tag loop stops when it enters a body at depth `d`: at the first node, or behind the END_NODE. */
  lemma {:induction false} ScanBody(s: bytes, off: int, f: Forest, d: int)
    requires Inside(s, off, f) && d >= 0
    ensures match NodeHead(f)
      case Some(c) => ScanNode(s, off, d) == Step(off + |Pre(c)|, d + 1)
      case None => var e := off + |Enc(f)| + 4;
        ScanNode(s, off, d) == if d == 0 then Step(e, -1) else ScanNode(s, e, d - 1)
    decreases f
  {
    hide Word, Unword, EncTok, TagAt, Aligned, Align4, At;
    match f
    case Nil => InsideNil(s, off);
    case Node(name, pad, body, rest) => InsideNode(s, off, name, pad, body, rest);
    case Item(tok, rest) =>
      InsideItem(s, off, tok, rest);
      ScanBody(s, off + |EncTok(tok)|, rest, d);
  }

  /** The position of the first node of a body. */
  function NodeHead(f: Forest): (r: Option<Ctx>)
    ensures r.Some? && Wf(f) ==> WfCtx(r.value)
  {
    match f
    case Nil => None
    case Item(tok, rest) => (match NodeHead(rest) case None => None case Some(c) => Some(CItem(tok, c)))
    case Node(_, _, _, _) => Some(Hole)
  }

  /** The loop of `fdt_subnode_offset_namelen`, resumed at the tag at `pos`. */
  function FindSubFrom(s: bytes, pos: int, depth: int, want: bytes): (r: int)
  {
    var n := ScanNode(s, pos, depth);
    FindSub(s, n.off, n.depth, want)
  }

  /** Inside a child the search only passes through. */
  lemma {:induction false} FindSubSkip(s: bytes, off: int, f: Forest, d: int, want: bytes)
    requires Inside(s, off, f) && d >= 1
    ensures FindSubFrom(s, off, d, want) == FindSubFrom(s, off + |Enc(f)| + 4, d - 1, want)
    decreases f
  {
    hide Word, Unword, EncTok, TagAt, Aligned, Align4, At, NodeNameEq;
    match f
    case Nil => InsideNil(s, off);
    case Item(tok, rest) =>
      InsideItem(s, off, tok, rest);
      FindSubSkip(s, off + |EncTok(tok)|, rest, d, want);
    case Node(name, pad, body, rest) =>
      InsideNode(s, off, name, pad, body, rest);
      var b := BodyAt(off, name, pad);
      FindSubSkip(s, b, body, d + 1, want);
      FindSubSkip(s, b + |Enc(body)| + 4, rest, d, want);
  }

  /** The position of the first subnode whose name matches. */
  function SubCtx(f: Forest, want: bytes): (r: Option<Ctx>)
    ensures r.Some? && Wf(f) ==> WfCtx(r.value)
  {
    match f
    case Nil => None
    case Item(tok, rest) => (match SubCtx(rest, want) case None => None case Some(c) => Some(CItem(tok, c)))
    case Node(name, pad, body, rest) =>
      if NameMatches(name, want) then Some(Hole) else
      (match SubCtx(rest, want) case None => None case Some(c) => Some(CRest(name, pad, body, c)))
  }

  /** What stands at that position: the subnode and the siblings after it. */
  function SubTail(f: Forest, want: bytes): (g: Forest)
    requires SubCtx(f, want).Some?
    ensures Plug(SubCtx(f, want).value, g) == f
    ensures g.Node? && NameMatches(g.name, want)
  {
    match f
    case Item(_, rest) => SubTail(rest, want)
    case Node(name, _, _, rest) => if NameMatches(name, want) then f else SubTail(rest, want)
  }

  /** The subnode search over the body of the parent finds the first matching subnode, or nothing. */
  lemma {:induction false} FindSubIs(s: bytes, off: int, f: Forest, want: bytes)
    requires Inside(s, off, f)
    ensures FindSubFrom(s, off, 0, want)
      == match SubCtx(f, want) case None => -ERR_NOTFOUND case Some(c) => off + |Pre(c)|
    decreases f
  {
    hide Word, Unword, EncTok, TagAt, Aligned, Align4, At, NameMatches;
    match f
    case Nil => InsideNil(s, off);
    case Item(tok, rest) =>
      InsideItem(s, off, tok, rest);
      FindSubIs(s, off + |EncTok(tok)|, rest, want);
    case Node(name, pad, body, rest) =>
      InsideNode(s, off, name, pad, body, rest);
      var b := BodyAt(off, name, pad);
      var e := b + |Enc(body)|;
      FindSubSkip(s, b, body, 1, want);
      FindSubIs(s, e + 4, rest, want);
      EndLen();
  }

  /** `fdt_subnode_offset_namelen` on a node. */
  lemma SubnodeOffsetIs(s: bytes, off: int, name: bytes, pad: bytes, body: Forest, want: bytes)
    requires NodeIn(s, off, name, pad, body)
    ensures FindSub(s, off, 0, want)
      == match SubCtx(body, want) case None => -ERR_NOTFOUND case Some(c) => BodyAt(off, name, pad) + |Pre(c)|
  {
    hide Word, Unword, EncTok, TagAt, Aligned, Align4, At, NameMatches;
    NodeInIs(s, off, name, pad, body);
    FindSubIs(s, BodyAt(off, name, pad), body, want);
  }

  /** The loop of `fdt_node_end_offset_`, resumed at the tag at `pos`. */
  function NodeEndFrom(s: bytes, pos: int, depth: int): (r: int)
  {
    var n := ScanNode(s, pos, depth);
    NodeEnd(s, n.off, n.depth)
  }

  lemma {:induction false} NodeEndSkip(s: bytes, off: int, f: Forest, d: int)
    requires Inside(s, off, f) && d >= 0
    ensures var e := off + |Enc(f)| + 4; NodeEndFrom(s, off, d) == if d == 0 then e else NodeEndFrom(s, e, d - 1)
    decreases f
  {
    hide Word, Unword, EncTok, TagAt, Aligned, Align4, At;
    match f
    case Nil => InsideNil(s, off);
    case Item(tok, rest) =>
      InsideItem(s, off, tok, rest);
      NodeEndSkip(s, off + |EncTok(tok)|, rest, d);
    case Node(name, pad, body, rest) =>
      InsideNode(s, off, name, pad, body, rest);
      var b := BodyAt(off, name, pad);
      NodeEndSkip(s, b, body, d + 1);
      NodeEndSkip(s, b + |Enc(body)| + 4, rest, d);
  }

  /** `fdt_node_end_offset_` on a node: the offset right after its END_NODE. */
  lemma NodeEndIs(s: bytes, off: int, name: bytes, pad: bytes, body: Forest)
    requires NodeIn(s, off, name, pad, body)
    ensures NodeEnd(s, off, 0) == BodyAt(off, name, pad) + |Enc(body)| + 4
  {
    hide Word, Unword, EncTok, TagAt, Aligned, Align4, At;
    NodeInIs(s, off, name, pad, body);
    NodeEndSkip(s, BodyAt(off, name, pad), body, 0);
  }

  /** The loop of `fdt_next_subnode`, resumed at the tag at `pos`. */
  function NextSubFrom(s: bytes, pos: int, depth: int): (r: int)
  {
    var n := ScanNode(s, pos, depth);
    if n.off < 0 || n.depth < 1 then -ERR_NOTFOUND
    else if n.depth > 1 then NextSub(s, n.off, n.depth)
    else n.off
  }

  lemma {:induction false} NextSubSkip(s: bytes, off: int, f: Forest, d: int)
    requires Inside(s, off, f) && d >= 1
    ensures NextSubFrom(s, off, d) == NextSubFrom(s, off + |Enc(f)| + 4, d - 1)
    decreases f
  {
    hide Word, Unword, EncTok, TagAt, Aligned, Align4, At;
    match f
    case Nil => InsideNil(s, off);
    case Item(tok, rest) =>
      InsideItem(s, off, tok, rest);
      NextSubSkip(s, off + |EncTok(tok)|, rest, d);
    case Node(name, pad, body, rest) =>
      InsideNode(s, off, name, pad, body, rest);
      var b := BodyAt(off, name, pad);
      NextSubSkip(s, b, body, d + 1);
      NextSubSkip(s, b + |Enc(body)| + 4, rest, d);
  }

  /** `fdt_first_subnode` on a node. */
  lemma FirstSubnodeIs(s: bytes, off: int, name: bytes, pad: bytes, body: Forest)
    requires NodeIn(s, off, name, pad, body)
    ensures FirstSubnode(s, off)
      == match NodeHead(body) case None => -ERR_NOTFOUND case Some(c) => BodyAt(off, name, pad) + |Pre(c)|
  {
    hide Word, Unword, EncTok, TagAt, Aligned, Align4, At;
    NodeInIs(s, off, name, pad, body);
    ScanBody(s, BodyAt(off, name, pad), body, 0);
  }

  /** `fdt_next_subnode` on a node: the next sibling node, or nothing. */
  lemma NextSubnodeIs(s: bytes, off: int, name: bytes, pad: bytes, body: Forest, rest: Forest)
    requires Inside(s, off, Node(name, pad, body, rest))
    ensures NextSub(s, off, 1)
      == match NodeHead(rest) case None => -ERR_NOTFOUND
         case Some(c) => BodyAt(off, name, pad) + |Enc(body)| + 4 + |Pre(c)|
  {
    hide Word, Unword, EncTok, TagAt, Aligned, Align4, At;
    InsideNode(s, off, name, pad, body, rest);
    var b := BodyAt(off, name, pad);
    NextSubSkip(s, b, body, 1);
    ScanBody(s, b + |Enc(body)| + 4, rest, 0);
  }

  /** `fdt_get_property` on a node. */
  lemma GetPropertyIs(s: bytes, t: bytes, off: int, name: bytes, pad: bytes, body: Forest, want: bytes)
    requires NodeIn(s, off, name, pad, body)
    ensures GetProperty(s, t, off, want)
      == match PropCtx(body, t, want) case None => -ERR_NOTFOUND case Some(c) => BodyAt(off, name, pad) + |Pre(c)|
  {
    hide Word, Unword, EncTok, TagAt, Aligned, Align4, At;
    NodeInIs(s, off, name, pad, body);
    FindPropIs(s, t, BodyAt(off, name, pad), body, want);
  }

  /** The node that fills the hole of `c` stands where the hole is. */
  lemma NodeAtHole(s: bytes, c: Ctx, name: bytes, pad: bytes, body: Forest, rest: Forest)
    requires Holds(s, Plug(c, Node(name, pad, body, rest)))
    ensures WfCtx(c) && Wf(Node(name, pad, body, rest)) && NodeIn(s, |Pre(c)|, name, pad, body)
  {
    hide Word, Unword, EncTok, TagAt, Aligned, Align4, Pre, Post;
    AtHole(s, c, Node(name, pad, body, rest));
    ReadNode(s, |Pre(c)|, name, pad, body, rest);
  }
}
