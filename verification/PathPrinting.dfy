/** Path printing (`fdt_get_path`), and that looking a printed path up leads back. */
module PathPrinting {
  import opened Bytes
  import opened Format
  import opened Tree
  import opened Blob
  import opened Walk
  import opened Siblings
  import opened Paths
  import opened Components
  import R = Reader

  /** Each name with a slash behind, the way the buffer is filled. */
  function Slashed(names: seq<bytes>): (r: bytes)
  {
    if names == [] then [] else Slashed(names[..|names| - 1]) + names[|names| - 1] + [SLASH]
  }

  lemma SlashedNone()
    ensures Slashed([]) == []
  {
  }

  lemma SlashedPush(names: seq<bytes>, name: bytes)
    ensures Slashed(names + [name]) == Slashed(names) + name + [SLASH]
  {
    assert (names + [name])[..|names|] == names;
  }

  /** What the loop comes to. */
  datatype Trail = Reached(names: seq<bytes>) | NoRoom | Failed(code: int) | Untame

  /** The names that stay in the buffer when a node at this depth is reached. */
  function Remaining(stack: seq<bytes>, depth: nat): (r: seq<bytes>)
    ensures |r| <= depth && r <= stack
  {
    if |stack| > depth then stack[..depth] else stack
  }

  /** The names in the buffer after the node at `off` has been visited: its own too if its parents' are there and it
      fits. */
  function Visited(s: bytes, off: int, kept: seq<bytes>, depth: nat, room: nat): (r: seq<bytes>)
    requires |kept| == depth ==> CheckNode(s, off) >= 0
  {
    if |kept| == depth && |Slashed(kept)| + |NodeName(s, off)| + 1 <= room then kept + [NodeName(s, off)] else kept
  }

  /** The loop of `fdt_get_path` from the node at `off`, with the names of `stack` in the buffer.  It is untame when it
      leaves the root node or meets a name with a slash: then the loop that removes names counts wrong. */
  function TrailFrom(s: bytes, off: int, depth: int, stack: seq<bytes>, target: int, room: nat): (r: Trail)
    decreases Left(s, off)
  {
    if off < 0 || off > target then
      Failed(if off == -ERR_NOTFOUND || off >= 0 then -ERR_BADOFFSET
             else if off == -ERR_BADOFFSET then -ERR_BADSTRUCTURE else off)
    else if depth < 0 then Untame
    else
      var kept := Remaining(stack, depth);
      if |kept| == depth && CheckNode(s, off) < 0 then Failed(CheckNode(s, off))
      else if |kept| == depth && SLASH in NodeName(s, off) then Untame
      else
        var names := Visited(s, off, kept, depth, room);
        if off == target then (if |names| < depth + 1 then NoRoom else Reached(names))
        else
          var n := NextNode(s, off, depth);
          TrailFrom(s, n.off, n.depth, names, target, room)
  }

  /** The text left in the buffer: the last slash goes, except for the root. */
  function PathText(names: seq<bytes>): (r: bytes)
  {
    var t := Slashed(names);
    if |t| > 1 then t[..|t| - 1] else t
  }

  /** A node found after the first is below it, or outside the root. */
  lemma {:induction false} ScanDepth(s: bytes, off: int, depth: int)
    requires depth >= 0
    ensures var n := ScanNode(s, off, depth); n.off >= 0 ==> n.depth != 0
    decreases |s| - off
  {
    hide TagAt;
    var r := TagAt(s, off);
    if r.tag == END_NODE {
      if depth >= 1 { ScanDepth(s, r.next, depth - 1); }
    } else if r.tag != BEGIN_NODE && r.tag != END {
      ScanDepth(s, r.next, depth);
    }
  }

  lemma NextDepth(s: bytes, off: int, depth: int)
    requires off >= 0 && depth >= 0
    ensures var n := NextNode(s, off, depth); n.off >= 0 ==> n.depth != 0
  {
    if CheckNode(s, off) >= 0 { ScanDepth(s, CheckNode(s, off), depth); }
  }

  predicate NoSlash(names: seq<bytes>) { forall x | x in names :: SLASH !in x }

  /** `do p--; while (buf[p-1] != '/')`. */
  method PopName(buf: array<byte>, top: nat, ghost rest: seq<bytes>, ghost name: bytes) returns (p: nat)
    requires top <= buf.Length && buf[..top] == Slashed(rest + [name]) && SLASH !in name && rest != []
    ensures p <= top && buf[..p] == Slashed(rest)
  {
    SlashedPush(rest, name);
    ghost var low := |Slashed(rest)|;
    ghost var t := buf[..top];
    assert t[..low] == Slashed(rest) && t[low - 1] == SLASH;
    assert t[low..top - 1] == name;
    forall i | low <= i < top - 1
      ensures buf[i] != SLASH
    {
      assert buf[i] == t[i] == t[low..top - 1][i - low];
      assert name[i - low] in name;
    }
    p := top - 1;
    while buf[p - 1] != SLASH
      invariant low <= p < top
      decreases p
    {
      assert buf[p - 1] == t[p - 1];
      p := p - 1;
    }
    assert buf[..p] == t[..low];
  }

  /** The loop that removes the names of nodes the walk has left. */
  method PopNames(buf: array<byte>, top: nat, names: nat, depth: nat, ghost stack: seq<bytes>)
    returns (p: nat, pdepth: nat)
    requires top <= buf.Length && buf[..top] == Slashed(stack) && |stack| == names && NoSlash(stack)
    requires depth == 0 ==> stack == []
    ensures p <= buf.Length && buf[..p] == Slashed(Remaining(stack, depth)) && pdepth == |Remaining(stack, depth)|
  {
    assert stack[..names] == stack;
    p, pdepth := top, names;
    while pdepth > depth
      invariant pdepth <= |stack| && (pdepth >= depth || pdepth == |stack|)
      invariant p <= buf.Length && buf[..p] == Slashed(stack[..pdepth])
    {
      assert stack[..pdepth] == stack[..pdepth - 1] + [stack[pdepth - 1]];
      p := PopName(buf, p, stack[..pdepth - 1], stack[pdepth - 1]);
      pdepth := pdepth - 1;
    }
    assert stack[..pdepth] == Remaining(stack, depth);
  }

  /** `memcpy(buf + p, name, namelen)` and the slash. */
  method PushName(buf: array<byte>, p: nat, name: bytes, ghost names: seq<bytes>)
    requires p + |name| + 1 <= buf.Length && buf[..p] == Slashed(names)
    modifies buf
    ensures buf[..p + |name| + 1] == Slashed(names + [name])
  {
    MemCpy(buf, p, name);
    SlashedPush(names, name);
    assert buf[..p] == Slashed(names);
    assert buf[p..p + |name|] == name;
    buf[p + |name|] := SLASH;
    assert buf[..p + |name| + 1] == buf[..p] + buf[p..p + |name|] + [SLASH];
  }

  /** Appending the name of the node that has been reached. */
  method VisitNode(fdt: array<byte>, offset: int, buf: array<byte>, top: nat, names: nat, depth: nat,
                   ghost kept: seq<bytes>)
    returns (code: int, p: nat, pdepth: nat)
    requires Live(fdt[..]) && R.IsInt(offset) && buf != fdt
    requires top <= buf.Length && buf[..top] == Slashed(kept) && names == |kept| <= depth
    modifies buf
    ensures code <= 0 && (code < 0 <==> |kept| == depth && CheckNode(Struct(fdt[..]), offset) < 0)
    ensures code < 0 ==> code == CheckNode(Struct(fdt[..]), offset)
    ensures code == 0 ==>
      && p <= buf.Length && pdepth == |Visited(Struct(fdt[..]), offset, kept, depth, buf.Length)|
      && buf[..p] == Slashed(Visited(Struct(fdt[..]), offset, kept, depth, buf.Length))
  {
    hide Field, Struct, TagAt, NodeName, CheckNode, Slashed;
    code, p, pdepth := 0, top, names;
    if pdepth >= depth {
      var err, name := R.GetName(fdt, offset);
      if err < 0 {
        code := err;
        return;
      }
      if p + |name| + 1 <= buf.Length {
        PushName(buf, p, name, kept);
        p := p + |name| + 1;
        pdepth := pdepth + 1;
      }
    }
  }

  /** The last slash gives way to the terminator, except for the root. */
  method Terminate(buf: array<byte>, top: nat, ghost names: seq<bytes>)
    requires 2 <= buf.Length && top <= buf.Length && buf[..top] == Slashed(names)
    modifies buf
    ensures At(buf[..], 0, CStr(PathText(names)))
  {
    hide Slashed;
    var p := top;
    if p > 1 {
      p := p - 1;
    }
    ghost var t := buf[..top];
    buf[p] := 0;
    assert buf[..p] == PathText(names);
    assert buf[..][0..p + 1] == PathText(names) + [0];
  }

  // ---------------------------------------------------------------- what the loop finds in a tree

  /** The loop resumed at the tag at `pos`. */
  function ScanTrail(s: bytes, pos: int, depth: int, stack: seq<bytes>, target: int, room: nat): (r: Trail)
  {
    var n := ScanNode(s, pos, depth);
    TrailFrom(s, n.off, n.depth, stack, target, room)
  }

  /** No name contains a slash. */
  predicate SlashFree(f: Forest)
  {
    match f
    case Nil => true
    case Item(_, rest) => SlashFree(rest)
    case Node(name, _, body, rest) => SLASH !in name && SlashFree(body) && SlashFree(rest)
  }

  lemma {:induction false} ScanNotDeeper(s: bytes, off: int, depth: int)
    ensures ScanNode(s, off, depth).depth <= depth + 1
    decreases |s| - off
  {
    hide TagAt;
    var r := TagAt(s, off);
    if r.tag == END_NODE {
      if depth >= 1 { ScanNotDeeper(s, r.next, depth - 1); }
    } else if r.tag != BEGIN_NODE && r.tag != END {
      ScanNotDeeper(s, r.next, depth);
    }
  }

  /** Names deeper than the next node can be do not matter. */
  lemma TrailKept(s: bytes, pos: int, d: nat, stack: seq<bytes>, target: int, room: nat)
    ensures ScanTrail(s, pos, d, stack, target, room) == ScanTrail(s, pos, d, Remaining(stack, d + 1), target, room)
  {
    hide CheckNode, NodeName, NextNode, ScanNode, Visited;
    ScanNotDeeper(s, pos, d);
    var n := ScanNode(s, pos, d);
    if 0 <= n.depth {
      assert Remaining(Remaining(stack, d + 1), n.depth) == Remaining(stack, n.depth);
    }
  }

  /** One node before the target: on to its body. */
  lemma TrailNode(s: bytes, off: int, name: bytes, pad: bytes, body: Forest, d: nat, stack: seq<bytes>, target: int,
                  room: nat)
    requires NodeIn(s, off, name, pad, body) && SLASH !in name && off < target
    ensures CheckNode(s, off) >= 0
    ensures ScanTrail(s, off, d, stack, target, room)
      == ScanTrail(s, BodyAt(off, name, pad), d + 1, Visited(s, off, Remaining(stack, d + 1), d + 1, room), target,
           room)
  {
    hide NodeIn, NodeName, Visited, Word, TagAt, EncTok;
    NodeInIs(s, off, name, pad, body);
  }

  /** A run of siblings before the target leaves no name behind. */
  lemma {:induction false} TrailSkip(s: bytes, off: int, f: Forest, d: nat, stack: seq<bytes>, target: int, room: nat)
    requires Inside(s, off, f) && SlashFree(f) && off + |Enc(f)| <= target
    ensures ScanTrail(s, off, d, stack, target, room) == ScanTrail(s, off + |Enc(f)|, d, stack, target, room)
    decreases f, 0
  {
    hide Word, Unword, EncTok, TagAt, Aligned, Align4, At, TrailFrom, Inside, NodeIn, CheckNode, NodeName, NextNode;
    InsideWf(s, off, f);
    match f
    case Nil => InsideNil(s, off);
    case Item(tok, rest) =>
      InsideItem(s, off, tok, rest);
      TrailSkip(s, off + |EncTok(tok)|, rest, d, stack, target, room);
    case Node(name, pad, body, rest) =>
      InsideNode(s, off, name, pad, body, rest);
      TrailPast(s, off, name, pad, body, d, stack, target, room);
      TrailSkip(s, BodyAt(off, name, pad) + |Enc(body)| + 4, rest, d, stack, target, room);
  }

  lemma {:induction false} TrailPast(s: bytes, off: int, name: bytes, pad: bytes, body: Forest, d: nat,
                                     stack: seq<bytes>, target: int, room: nat)
    requires NodeIn(s, off, name, pad, body) && SLASH !in name && SlashFree(body)
    requires BodyAt(off, name, pad) + |Enc(body)| + 4 <= target
    ensures ScanTrail(s, off, d, stack, target, room)
      == ScanTrail(s, BodyAt(off, name, pad) + |Enc(body)| + 4, d, stack, target, room)
    decreases body, 1
  {
    hide Word, Unword, EncTok, TagAt, Aligned, Align4, At, TrailFrom, Inside, NodeIn, CheckNode, NodeName, NextNode;
    NodeInBody(s, off, name, pad, body);
    NodeInIs(s, off, name, pad, body);
    var b := BodyAt(off, name, pad);
    var e := b + |Enc(body)|;
    TrailNode(s, off, name, pad, body, d, stack, target, room);
    var kept := Remaining(stack, d + 1);
    var names := Visited(s, off, kept, d + 1, room);
    assert Remaining(names, d + 1) == kept;
    TrailSkip(s, b, body, d + 1, names, target, room);
    TrailKept(s, e + 4, d, names, target, room);
    TrailKept(s, e + 4, d, stack, target, room);
  }

  lemma {:induction false} SlashedGrows(a: seq<bytes>, b: seq<bytes>)
    ensures |Slashed(a)| <= |Slashed(a + b)|
    decreases |b|
  {
    if b == [] {
      assert a + b == a;
    } else {
      assert a + b == (a + b[..|b| - 1]) + [b[|b| - 1]];
      SlashedPush(a + b[..|b| - 1], b[|b| - 1]);
      SlashedGrows(a, b[..|b| - 1]);
    }
  }

  /** The outcome at a node whose names are these, `above` of which are on the way already. */
  function Outcome(above: seq<bytes>, depth: nat, below: seq<bytes>, room: nat): (r: Trail)
  {
    if |above| == depth && |Slashed(above + below)| <= room then Reached(above + below) else NoRoom
  }

  lemma OutcomeStep(above: seq<bytes>, depth: nat, name: bytes, below: seq<bytes>, names: seq<bytes>, room: nat)
    requires |above| <= depth && |Slashed(above)| <= room
    requires names == if |above| == depth && |Slashed(above)| + |name| + 1 <= room then above + [name] else above
    ensures |Slashed(names)| <= room && |names| <= depth + 1 && Remaining(names, depth + 1) == names
    ensures Outcome(names, depth + 1, below, room) == Outcome(above, depth, [name] + below, room)
  {
    hide Slashed;
    SlashedPush(above, name);
    SlashedGrows(above + [name], below);
    assert (above + [name]) + below == above + ([name] + below);
  }

  /** At the target itself. */
  lemma TrailHere(s: bytes, off: int, m: Forest, d: nat, stack: seq<bytes>, room: nat)
    requires m.Node? && NodeIn(s, off, m.name, m.pad, m.body) && SLASH !in m.name
    ensures ScanTrail(s, off, d, stack, off, room) == Outcome(Remaining(stack, d + 1), d + 1, [m.name], room)
  {
    hide NodeIn, NodeName, Word, TagAt, EncTok, Slashed;
    NodeInIs(s, off, m.name, m.pad, m.body);
    SlashedPush(Remaining(stack, d + 1), m.name);
  }

  /** The walk to a node at a position in a body. */
  lemma {:induction false} TrailTo(s: bytes, off: int, c: Ctx, m: Forest, d: nat, stack: seq<bytes>, room: nat)
    requires m.Node? && Inside(s, off, Plug(c, m)) && SlashFree(Plug(c, m)) && WfCtx(c)
    requires |Slashed(Remaining(stack, d + 1))| <= room
    ensures ScanTrail(s, off, d, stack, off + |Pre(c)|, room)
      == Outcome(Remaining(stack, d + 1), d + 1, Below(c, m.name), room)
    decreases c
  {
    hide Word, Unword, EncTok, TagAt, Aligned, Align4, At, TrailFrom, Inside, NodeIn, CheckNode, NodeName, NextNode,
         Slashed;
    var target := off + |Pre(c)|;
    match c
    case Hole =>
      InsideNode(s, off, m.name, m.pad, m.body, m.rest);
      assert Below(c, m.name) == [m.name];
      TrailHere(s, off, m, d, stack, room);
    case CItem(tok, inner) =>
      InsideItem(s, off, tok, Plug(inner, m));
      TrailTo(s, off + |EncTok(tok)|, inner, m, d, stack, room);
    case CBody(name, pad, inner, rest) =>
      InsideNode(s, off, name, pad, Plug(inner, m), rest);
      var b := BodyAt(off, name, pad);
      TrailNode(s, off, name, pad, Plug(inner, m), d, stack, b + |Pre(inner)|, room);
      var names := Visited(s, off, Remaining(stack, d + 1), d + 1, room);
      OutcomeStep(Remaining(stack, d + 1), d + 1, name, Below(inner, m.name), names, room);
      assert Below(c, m.name) == [name] + Below(inner, m.name);
      TrailTo(s, b, inner, m, d + 1, names, room);
    case CRest(name, pad, body, inner) =>
      InsideNode(s, off, name, pad, body, Plug(inner, m));
      EndLen();
      var e := BodyAt(off, name, pad) + |Enc(body)|;
      TrailPast(s, off, name, pad, body, d, stack, target, room);
      TrailTo(s, e + 4, inner, m, d, stack, room);
  }

  /** Inside a root without slashes in its names the walk is tame, whatever the target. */
  lemma {:induction false} TrailTame(s: bytes, off: int, f: Forest, d: nat, stack: seq<bytes>, target: int, room: nat)
    requires Inside(s, off, f) && SlashFree(f) && target < off + |Enc(f)| + 4
    ensures ScanTrail(s, off, d, stack, target, room) != Untame
    decreases f
  {
    hide Word, Unword, EncTok, TagAt, Aligned, Align4, At, Inside, NodeIn, CheckNode, NodeName, NextNode, Slashed;
    InsideWf(s, off, f);
    match f
    case Nil => InsideNil(s, off);
    case Item(tok, rest) =>
      InsideItem(s, off, tok, rest);
      TrailTame(s, off + |EncTok(tok)|, rest, d, stack, target, room);
    case Node(name, pad, body, rest) =>
      InsideNode(s, off, name, pad, body, rest);
      var b := BodyAt(off, name, pad);
      var e := b + |Enc(body)|;
      if target == off {
        TrailHere(s, off, f, d, stack, room);
      } else if off < target < e + 4 {
        TrailNode(s, off, name, pad, body, d, stack, target, room);
        TrailTame(s, b, body, d + 1, Visited(s, off, Remaining(stack, d + 1), d + 1, room), target, room);
      } else if target >= e + 4 {
        TrailPast(s, off, name, pad, body, d, stack, target, room);
        TrailTame(s, e + 4, rest, d, stack, target, room);
      }
  }

  // ---------------------------------------------------------------- printing and looking up

  /** A root node at offset 0, as `fdt_check_full` asks for: its name is empty. */
  ghost predicate Rooted(s: bytes, pad: bytes, body: Forest)
  {
    NodeIn(s, 0, [], pad, body) && SlashFree(body)
  }

  /** The offset behind the root node. */
  function RootEnd(pad: bytes, body: Forest): (n: int)
    requires WfTok(Begin([], pad)) && Wf(body)
  {
    BodyAt(0, [], pad) + |Enc(body)| + 4
  }

  predicate Before(off: int, pad: bytes, body: Forest)
  {
    WfTok(Begin([], pad)) && Wf(body) && off < RootEnd(pad, body)
  }

  /** At the root: into its body with an empty name in the buffer. */
  lemma TrailRoot(s: bytes, pad: bytes, body: Forest, target: int, room: nat)
    requires Rooted(s, pad, body) && room >= 1
    ensures WfTok(Begin([], pad)) && Wf(body)
    ensures target == 0 ==> TrailFrom(s, 0, 0, [], target, room) == Reached([[]])
    ensures target > 0 ==>
      TrailFrom(s, 0, 0, [], target, room) == ScanTrail(s, BodyAt(0, [], pad), 0, [[]], target, room)
  {
    hide NodeIn, NodeName, Word, TagAt, EncTok, SlashFree;
    NodeInIs(s, 0, [], pad, body);
    NodeInWf(s, 0, [], pad, body);
    assert Visited(s, 0, [], 0, room) == [[]];
  }

  /** On such a block the walk is tame for every offset up to the end of the root. */
  lemma RootTame(s: bytes, pad: bytes, body: Forest, target: int, room: nat)
    requires Rooted(s, pad, body) && room >= 1
    ensures WfTok(Begin([], pad)) && Wf(body)
    ensures Before(target, pad, body) ==> TrailFrom(s, 0, 0, [], target, room) != Untame
  {
    hide NodeIn, NodeName, Word, TagAt, EncTok, SlashFree;
    TrailRoot(s, pad, body, target, room);
    NodeInBody(s, 0, [], pad, body);
    if 0 < target < RootEnd(pad, body) {
      TrailTame(s, BodyAt(0, [], pad), body, 0, [[]], target, room);
    }
  }

  /** `fdt_get_path`. */
  method GetPath(fdt: array<byte>, node: int, buf: array<byte>, ghost pad: bytes, ghost body: Forest) returns (err: int)
    requires Live(fdt[..]) && R.IsInt(node) && buf != fdt
    requires Rooted(Struct(fdt[..]), pad, body) && Before(node, pad, body)
    modifies buf
    ensures err <= 0
    ensures buf.Length < 2 ==> err == -ERR_NOSPACE
    ensures var t := TrailFrom(Struct(fdt[..]), 0, 0, [], node, buf.Length);
      buf.Length >= 2 ==>
        && (err == 0 <==> t.Reached?)
        && (t.Reached? ==> At(buf[..], 0, CStr(PathText(t.names))))
        && (t.NoRoom? ==> err == -ERR_NOSPACE) && (t.Failed? ==> err == t.code)
  {
    SlashedNone();
    hide Field, Struct, TagAt, NodeName, CheckNode, NextNode, Slashed, Rooted;
    if buf.Length < 2 {
      return -ERR_NOSPACE;
    }
    ghost var s := Struct(fdt[..]);
    RootTame(s, pad, body, node, buf.Length);
    ghost var stack: seq<bytes> := [];
    assert buf[..0] == Slashed(stack);
    var offset, depth, pdepth, p: nat := 0, 0, 0, 0;
    while 0 <= offset <= node
      invariant R.IsInt(offset) && |stack| == pdepth && p <= buf.Length && buf[..p] == Slashed(stack) && NoSlash(stack)
      invariant fdt[..] == old(fdt[..])
      invariant offset >= 0 && depth == 0 ==> stack == []
      invariant TrailFrom(s, 0, 0, [], node, buf.Length) == TrailFrom(s, offset, depth, stack, node, buf.Length)
      decreases Left(s, offset)
    {
      assert depth >= 0;
      p, pdepth := PopNames(buf, p, pdepth, depth, stack);
      stack := Remaining(stack, depth);
      var code;
      code, p, pdepth := VisitNode(fdt, offset, buf, p, pdepth, depth, stack);
      if code < 0 {
        return code;
      }
      stack := Visited(s, offset, stack, depth, buf.Length);
      if offset == node {
        if pdepth < depth + 1 {
          return -ERR_NOSPACE;
        }
        Terminate(buf, p, stack);
        return 0;
      }
      NextDepth(s, offset, depth);
      offset, depth := R.NextNode(fdt, offset, depth);
    }
    if offset == -ERR_NOTFOUND || offset >= 0 {
      return -ERR_BADOFFSET;
    } else if offset == -ERR_BADOFFSET {
      return -ERR_BADSTRUCTURE;
    }
    return offset;
  }

  lemma {:induction false} SlashedRendered(names: seq<bytes>)
    ensures Slashed([[]] + names) == Rendered(names) + [SLASH]
    decreases |names|
  {
    if names == [] {
      SlashedRoot();
      assert [[]] + names == [[]];
    } else {
      var n := |names| - 1;
      SlashedRendered(names[..n]);
      assert [[]] + names == ([[]] + names[..n]) + [names[n]];
      SlashedPush([[]] + names[..n], names[n]);
      RenderedSnoc(names[..n], names[n]);
      assert names == names[..n] + [names[n]];
      assert (Rendered(names[..n]) + [SLASH]) + names[n] + [SLASH]
        == (Rendered(names[..n]) + ([SLASH] + names[n])) + [SLASH];
    }
  }

  lemma {:induction false} RenderedSnoc(names: seq<bytes>, name: bytes)
    ensures Rendered(names + [name]) == Rendered(names) + ([SLASH] + name)
  {
    if names == [] {
      assert names + [name] == [name];
      assert Rendered([name][1..]) == [];
    } else {
      RenderedSnoc(names[1..], name);
      assert (names + [name])[1..] == names[1..] + [name];
      assert [SLASH] + names[0] + (Rendered(names[1..]) + ([SLASH] + name))
        == [SLASH] + names[0] + Rendered(names[1..]) + ([SLASH] + name);
    }
  }

  /** Printing: the path of a node is the names from the root down, each with a slash in front; it is printed exactly
      when it fits with its terminator. */
  lemma Printed(s: bytes, pad: bytes, c: Ctx, m: Forest, room: nat)
    requires m.Node? && Rooted(s, pad, Plug(c, m)) && room >= 2 && m.name != []
    ensures WfTok(Begin([], pad)) && WfCtx(c)
    ensures var path := Rendered(Below(c, m.name)); var names := [[]] + Below(c, m.name);
      && PathText(names) == path
      && TrailFrom(s, 0, 0, [], BodyAt(0, [], pad) + |Pre(c)|, room) == if |CStr(path)| <= room then Reached(names)
         else NoRoom
  {
    hide NodeIn, NodeName, Word, TagAt, EncTok, SlashFree, Slashed, Rendered;
    var names := Below(c, m.name);
    NodeInWf(s, 0, [], pad, Plug(c, m));
    WfPlug(c, m);
    var target := BodyAt(0, [], pad) + |Pre(c)|;
    NodeInBody(s, 0, [], pad, Plug(c, m));
    TrailRoot(s, pad, Plug(c, m), target, room);
    SlashedRoot();
    SlashedRendered(names);
    RenderedSome(names);
    TrailTo(s, BodyAt(0, [], pad), c, m, 0, [[]], room);
  }

  lemma SlashedRoot()
    ensures Slashed([[]]) == [SLASH]
  {
    var none: seq<bytes> := [];
    assert none + [[]] == [[]];
    SlashedPush(none, []);
  }

  lemma RenderedSome(names: seq<bytes>)
    requires names != []
    ensures |Rendered(names)| >= 1
  {
  }

  /** Looking a printed path up leads back to the node it was printed for if and only if no node on the way has an
      earlier sibling that answers to its name. */
  lemma PrintedIsFound(s: bytes, pad: bytes, c: Ctx, m: Forest)
    requires m.Node? && Rooted(s, pad, Plug(c, m)) && forall x | x in Below(c, m.name) :: x != []
    ensures WfTok(Begin([], pad)) && WfCtx(c)
    ensures var path := PathText([[]] + Below(c, m.name));
      PathFrom(s, path, 0, 0) == BodyAt(0, [], pad) + |Pre(c)| <==> FirstAlong(c, m.name)
  {
    hide NodeIn, NodeName, Word, TagAt, EncTok, Slashed, Rendered, PathFrom;
    var names := Below(c, m.name);
    forall x | x in names
      ensures Component(x)
    {
      NamesSlashFree(c, m, x);
    }
    var path := Rendered(names);
    assert m.name in names;
    Printed(s, pad, c, m, 2);
    assert path[0..] == path;
    LookupBelow(s, path, 0, 0, [], pad, c, m);
  }

  lemma {:induction false} NamesSlashFree(c: Ctx, m: Forest, x: bytes)
    requires m.Node? && SlashFree(Plug(c, m)) && x in Below(c, m.name)
    ensures SLASH !in x
  {
    match c
    case Hole =>
    case CItem(_, inner) => NamesSlashFree(inner, m, x);
    case CBody(name, _, inner, _) => if x != name { NamesSlashFree(inner, m, x); }
    case CRest(_, _, _, inner) => NamesSlashFree(inner, m, x);
  }

  /** The root prints as a single slash, which leads back to it. */
  lemma RootPrinted(s: bytes, pad: bytes, body: Forest, room: nat)
    requires Rooted(s, pad, body) && room >= 2
    ensures TrailFrom(s, 0, 0, [], 0, room) == Reached([[]])
    ensures PathText([[]]) == [SLASH] && PathFrom(s, [SLASH], 0, 0) == 0
  {
    TrailRoot(s, pad, body, 0, room);
    SlashedRoot();
    assert SkipSlashes([SLASH], 0) == 1;
  }
}
