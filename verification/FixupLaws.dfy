/** What applying local fixups does to a tree: each cell that `__local_fixups__` lists moves by the same number as the
    phandles, so that it still refers to the same node. */
module FixupLaws {
  import opened Bytes
  import opened Tree
  import opened TreeOps
  import opened Walk
  import opened Merging
  import opened MergeLaws
  import opened PhandleLaws

  // ---------------------------------------------------------------- the cells of one property

  /** The `i`-th offset that a fixup property lists. */
  function Listed(fx: bytes, i: nat): (off: int)
    requires 4 * i + 4 <= |fx|
    ensures 0 <= off < TWO32
  {
    Unword(fx[4 * i..4 * i + 4])
  }

  /** Every listed cell lies inside a value of `size` bytes. */
  predicate AllInside(size: nat, fx: bytes)
  {
    forall i | 0 <= i < |fx| / 4 :: Listed(fx, i) + 4 <= size
  }

  /** One cell moved, as `fdt32_st` of `fdt32_ld` plus `delta` does it. */
  function MoveCell(v: bytes, off: nat, delta: nat): (r: bytes)
    requires off + 4 <= |v|
    ensures |r| == |v|
  {
    Put(v, off, Word((Unword(v[off..off + 4]) + delta) % TWO32))
  }

  /** The first `k` listed cells moved one after the other. */
  function MoveCells(v: bytes, fx: bytes, k: nat, delta: nat): (r: bytes)
    requires AllInside(|v|, fx) && 4 * k <= |fx|
    ensures |r| == |v|
  {
    if k == 0 then v else MoveCell(MoveCells(v, fx, k - 1, delta), Listed(fx, k - 1), delta)
  }

  function CellAt(v: bytes, off: nat): (x: int)
    requires off + 4 <= |v|
    ensures 0 <= x < TWO32
  {
    Unword(v[off..off + 4])
  }

  lemma MoveCellIs(v: bytes, off: nat, delta: nat, c: nat)
    requires off + 4 <= |v| && c + 4 <= |v|
    ensures c == off ==> CellAt(MoveCell(v, off, delta), c) == (CellAt(v, off) + delta) % TWO32
    ensures c + 4 <= off || off + 4 <= c ==> CellAt(MoveCell(v, off, delta), c) == CellAt(v, c)
  {
    hide Word, Unword, Put;
    var x := Word((Unword(v[off..off + 4]) + delta) % TWO32);
    PutInside(v, off, x);
    if c + 4 <= off || off + 4 <= c {
      PutOutside(v, off, x, c, c + 4);
    }
  }

  /** The cells listed before `k` other than `i` keep clear of the cell at `c`. */
  predicate ClearOf(fx: bytes, k: nat, i: nat, c: nat)
    requires 4 * k <= |fx|
  {
    forall j: nat | j < k && j != i :: Listed(fx, j) + 4 <= c || c + 4 <= Listed(fx, j)
  }

  /** A cell listed once, and overlapped by no other listed cell, moves by `delta` once. */
  lemma {:induction false} MovedOnce(v: bytes, fx: bytes, k: nat, delta: nat, i: nat)
    requires AllInside(|v|, fx) && 4 * k <= |fx| && i < k && ClearOf(fx, k, i, Listed(fx, i))
    ensures CellAt(MoveCells(v, fx, k, delta), Listed(fx, i)) == (CellAt(v, Listed(fx, i)) + delta) % TWO32
  {
    hide Listed, CellAt, MoveCell;
    var w := MoveCells(v, fx, k - 1, delta);
    var c := Listed(fx, i);
    MoveCellIs(w, Listed(fx, k - 1), delta, c);
    if i == k - 1 {
      UnmovedCell(v, fx, k - 1, delta, i, c);
    } else {
      assert Listed(fx, k - 1) + 4 <= c || c + 4 <= Listed(fx, k - 1);
      MovedOnce(v, fx, k - 1, delta, i);
    }
  }

  /** A cell that no listed cell overlaps is left alone. */
  lemma {:induction false} UnmovedCell(v: bytes, fx: bytes, k: nat, delta: nat, i: nat, c: nat)
    requires AllInside(|v|, fx) && 4 * k <= |fx| && k <= i && c + 4 <= |v| && ClearOf(fx, k, i, c)
    ensures CellAt(MoveCells(v, fx, k, delta), c) == CellAt(v, c)
  {
    hide Listed, CellAt, MoveCell;
    if k > 0 {
      assert Listed(fx, k - 1) + 4 <= c || c + 4 <= Listed(fx, k - 1);
      MoveCellIs(MoveCells(v, fx, k - 1, delta), Listed(fx, k - 1), delta, c);
      UnmovedCell(v, fx, k - 1, delta, i, c);
    }
  }

  /** A byte outside all listed cells is left alone. */
  lemma {:induction false} UnmovedByte(v: bytes, fx: bytes, k: nat, delta: nat, p: nat)
    requires AllInside(|v|, fx) && 4 * k <= |fx| && p < |v|
    requires forall j: nat | j < k :: p < Listed(fx, j) || Listed(fx, j) + 4 <= p
    ensures MoveCells(v, fx, k, delta)[p] == v[p]
  {
    hide Word, Listed;
    if k > 0 {
      assert p < Listed(fx, k - 1) || Listed(fx, k - 1) + 4 <= p;
      UnmovedByte(v, fx, k - 1, delta, p);
    }
  }

  // ---------------------------------------------------------------- a whole tree

  /** How `overlay_update_local_node_references` ends: all cells moved, or refused after some of them, or a listed cell
      does not lie inside the value, which the source does not check. */
  datatype Fixed = Fixed(a: Tree) | Refused(a: Tree) | Stray

  /** One fixup property `n` with value `v`. */
  function FixAttr(a: Tree, n: bytes, v: bytes, delta: nat): (r: Fixed)
  {
    if |v| % 4 != 0 then Refused(a) else
    match GetAttr(a, n)
    case None => Refused(a)
    case Some(w) =>
      if AllInside(|w|, v) then Fixed(ReplaceAttr(a, n, MoveCells(w, v, |v| / 4, delta))) else Stray
  }

  function FixProps(a: Tree, fx: Tree, delta: nat): (r: Fixed)
    decreases fx
  {
    match fx
    case Attr(n, v, rest) =>
      (match FixAttr(a, n, v, delta) case Fixed(b) => FixProps(b, rest, delta) case other => other)
    case _ => Fixed(a)
  }

  function FixSubs(a: Tree, fx: Tree, delta: nat): (r: Fixed)
    decreases fx, 0
  {
    match fx
    case Done => Fixed(a)
    case Attr(_, _, rest) => FixSubs(a, rest, delta)
    case Sub(n, body, rest) =>
      match FindSubT(a, n)
      case None => Refused(a)
      case Some(s) =>
        match Fix(s, body, delta)
        case Fixed(x) => FixSubs(PutSub(a, n, x), rest, delta)
        case Refused(x) => Refused(PutSub(a, n, x))
        case Stray => Stray
  }

  function Fix(a: Tree, fx: Tree, delta: nat): (r: Fixed)
    decreases fx, 1
  {
    match FixProps(a, fx, delta)
    case Fixed(b) => FixSubs(b, fx, delta)
    case other => other
  }

  // ---------------------------------------------------------------- properties of one node

  /** The value of property `name` after the fixups of its node. */
  function FixedValue(v: bytes, fx: Option<bytes>, delta: nat): (r: Option<bytes>)
  {
    match fx
    case None => Some(v)
    case Some(l) => if AllInside(|v|, l) then Some(MoveCells(v, l, |l| / 4, delta)) else None
  }

  lemma {:induction false} FixPropsGet(a: Tree, fx: Tree, delta: nat, name: bytes)
    requires FixProps(a, fx, delta).Fixed? && DistinctProps(fx)
    ensures var r := FixProps(a, fx, delta).a;
      && Subs(r) == Subs(a)
      && match GetAttr(a, name)
         case None => GetAttr(r, name).None? && LastAttr(fx, name).None?
         case Some(v) => GetAttr(r, name).Some? && GetAttr(r, name) == FixedValue(v, LastAttr(fx, name), delta)
    decreases fx
  {
    hide MoveCells, AllInside;
    match fx
    case Attr(n, v, rest) =>
      var b := FixAttr(a, n, v, delta).a;
      ReplaceGet(a, n, MoveCells(GetAttr(a, n).value, v, |v| / 4, delta), name);
      FixPropsGet(b, rest, delta, name);
    case _ =>
  }

  lemma {:induction false} PutSubKeeps(a: Tree, want: bytes, x: Tree, name: bytes)
    ensures GetAttr(PutSub(a, want, x), name) == GetAttr(a, name)
  {
    if a.Attr? { PutSubKeeps(a.rest, want, x, name); }
  }

  lemma {:induction false} FixSubsGet(a: Tree, fx: Tree, delta: nat, name: bytes)
    requires FixSubs(a, fx, delta).Fixed?
    ensures GetAttr(FixSubs(a, fx, delta).a, name) == GetAttr(a, name)
    decreases fx
  {
    hide Fix, PutSub, FindSubT;
    match fx
    case Done =>
    case Attr(_, _, rest) => FixSubsGet(a, rest, delta, name);
    case Sub(n, body, rest) =>
      var x := Fix(FindSubT(a, n).value, body, delta).a;
      PutSubKeeps(a, n, x, name);
      FixSubsGet(PutSub(a, n, x), rest, delta, name);
  }

  /** After the fixups of a node a listed property reads with its cells moved, every other one as before. */
  lemma FixGet(a: Tree, fx: Tree, delta: nat, name: bytes)
    requires Fix(a, fx, delta).Fixed? && DistinctProps(fx)
    ensures match GetAttr(a, name)
      case None => GetAttr(Fix(a, fx, delta).a, name).None? && LastAttr(fx, name).None?
      case Some(v) =>
        && GetAttr(Fix(a, fx, delta).a, name).Some?
        && GetAttr(Fix(a, fx, delta).a, name) == FixedValue(v, LastAttr(fx, name), delta)
  {
    hide FixProps, FixSubs, FixedValue, GetAttr, LastAttr;
    FixPropsGet(a, fx, delta, name);
    FixSubsGet(FixProps(a, fx, delta).a, fx, delta, name);
  }

  // ---------------------------------------------------------------- subnodes

  /** A subnode that no fixup names is left alone. */
  lemma {:induction false} FixSubsOther(a: Tree, fx: Tree, delta: nat, other: bytes)
    requires FixSubs(a, fx, delta).Fixed? && ApartFromAll(fx, other)
    ensures FindSubT(FixSubs(a, fx, delta).a, other) == FindSubT(a, other)
    decreases fx
  {
    hide NameMatches, Apart, PutSub, Fix, FindSubT;
    match fx
    case Done =>
    case Attr(_, _, rest) => FixSubsOther(a, rest, delta, other);
    case Sub(n, body, rest) =>
      var x := Fix(FindSubT(a, n).value, body, delta).a;
      FixSubsOther(PutSub(a, n, x), rest, delta, other);
      FindPutOther(a, n, x, other);
  }

  /** A subnode that a fixup names gets the fixups of that name. */
  lemma {:induction false} FixSubsChild(a: Tree, fx: Tree, delta: nat, name: bytes)
    requires FixSubs(a, fx, delta).Fixed? && Distinct(fx) && Child(fx, name).Some?
    ensures FindSubT(a, name).Some? && Fix(FindSubT(a, name).value, Child(fx, name).value, delta).Fixed?
    ensures FindSubT(FixSubs(a, fx, delta).a, name)
      == Some(Fix(FindSubT(a, name).value, Child(fx, name).value, delta).a)
    decreases fx
  {
    hide NameMatches, Apart, PutSub, Fix, FindSubT;
    match fx
    case Attr(_, _, rest) => FixSubsChild(a, rest, delta, name);
    case Sub(n, body, rest) =>
      var x := Fix(FindSubT(a, n).value, body, delta).a;
      if n == name {
        FixSubsOther(PutSub(a, n, x), rest, delta, name);
        FindPut(a, n, x);
      } else {
        ChildApart(rest, name, n);
        ApartSym(name, n);
        FixSubsChild(PutSub(a, n, x), rest, delta, name);
        FindPutOther(a, n, x, name);
      }
  }

  lemma FixChild(a: Tree, fx: Tree, delta: nat, name: bytes)
    requires Fix(a, fx, delta).Fixed? && Distinct(fx) && DistinctProps(fx) && Child(fx, name).Some?
    ensures FindSubT(a, name).Some? && Fix(FindSubT(a, name).value, Child(fx, name).value, delta).Fixed?
    ensures FindSubT(Fix(a, fx, delta).a, name) == Some(Fix(FindSubT(a, name).value, Child(fx, name).value, delta).a)
  {
    hide NameMatches, FixProps, FixSubs, FindSubT, Distinct, DistinctProps, Child;
    var b := FixProps(a, fx, delta).a;
    FixPropsGet(a, fx, delta, name);
    FindSubSubs(b, a, name);
    FixSubsChild(b, fx, delta, name);
    assert Fix(a, fx, delta) == FixSubs(b, fx, delta);
  }

  lemma {:induction false} DistinctPropsChild(fx: Tree, name: bytes)
    requires DistinctProps(fx) && Child(fx, name).Some?
    ensures DistinctProps(Child(fx, name).value)
  {
    match fx
    case Attr(_, _, rest) => DistinctPropsChild(rest, name);
    case Sub(n, _, rest) => if n != name { DistinctPropsChild(rest, name); }
  }

  /** At every node of the fixups, however deep, the node of the same path has got those fixups. */
  lemma {:induction false} FixAtPath(a: Tree, fx: Tree, delta: nat, path: seq<bytes>)
    requires Fix(a, fx, delta).Fixed? && Distinct(fx) && DistinctProps(fx) && OverlayAt(fx, path).Some?
    ensures NodeAtPath(a, path).Some? && Fix(NodeAtPath(a, path).value, OverlayAt(fx, path).value, delta).Fixed?
    ensures NodeAtPath(Fix(a, fx, delta).a, path)
      == Some(Fix(NodeAtPath(a, path).value, OverlayAt(fx, path).value, delta).a)
    ensures DistinctProps(OverlayAt(fx, path).value)
    decreases |path|
  {
    hide NameMatches, Fix, FindSubT, Distinct, DistinctProps, Child;
    if path != [] {
      FixChild(a, fx, delta, path[0]);
      DistinctChild(fx, path[0]);
      DistinctPropsChild(fx, path[0]);
      FixAtPath(FindSubT(a, path[0]).value, Child(fx, path[0]).value, delta, path[1..]);
    }
  }

  // ---------------------------------------------------------------- phandles stay

  /** No fixup is for a phandle property. */
  predicate NoPhandles(fx: Tree)
  {
    match fx
    case Done => true
    case Attr(n, _, rest) => n != PHANDLE && n != LINUX_PHANDLE && NoPhandles(rest)
    case Sub(_, body, rest) => NoPhandles(body) && NoPhandles(rest)
  }

  lemma {:induction false} PutSubPhandles(a: Tree, want: bytes, x: Tree)
    requires FindSubT(a, want).Some?
    requires PhandleOf(x) == PhandleOf(FindSubT(a, want).value) && Phandles(x) == Phandles(FindSubT(a, want).value)
    ensures Phandles(PutSub(a, want, x)) == Phandles(a)
  {
    hide NameMatches, PhandleOf;
    match a
    case Attr(_, _, rest) => PutSubPhandles(rest, want, x);
    case Sub(n, _, rest) => if !NameMatches(n, want) { PutSubPhandles(rest, want, x); }
  }

  lemma {:induction false} FixPropsPhandles(a: Tree, fx: Tree, delta: nat)
    requires FixProps(a, fx, delta).Fixed? && NoPhandles(fx)
    ensures var r := FixProps(a, fx, delta).a; PhandleOf(r) == PhandleOf(a) && Phandles(r) == Phandles(a)
    decreases fx
  {
    hide MoveCells, AllInside, Unword;
    match fx
    case Attr(n, v, rest) =>
      var w := MoveCells(GetAttr(a, n).value, v, |v| / 4, delta);
      OwnSubs(a, n, w);
      ReplaceGet(a, n, w, PHANDLE);
      ReplaceGet(a, n, w, LINUX_PHANDLE);
      FixPropsPhandles(ReplaceAttr(a, n, w), rest, delta);
    case _ =>
  }

  lemma {:induction false} FixSubsPhandles(a: Tree, fx: Tree, delta: nat)
    requires FixSubs(a, fx, delta).Fixed? && NoPhandles(fx)
    ensures var r := FixSubs(a, fx, delta).a; PhandleOf(r) == PhandleOf(a) && Phandles(r) == Phandles(a)
    decreases fx, 0
  {
    hide Fix, PutSub, FindSubT, Phandles, Unword;
    match fx
    case Done =>
    case Attr(_, _, rest) => FixSubsPhandles(a, rest, delta);
    case Sub(n, body, rest) =>
      var x := Fix(FindSubT(a, n).value, body, delta).a;
      FixKeepsPhandles(FindSubT(a, n).value, body, delta);
      PutSubPhandles(a, n, x);
      PutSubKeeps(a, n, x, PHANDLE);
      PutSubKeeps(a, n, x, LINUX_PHANDLE);
      FixSubsPhandles(PutSub(a, n, x), rest, delta);
  }

  /** Fixups that are not for phandle properties leave every phandle alone. */
  lemma {:induction false} FixKeepsPhandles(a: Tree, fx: Tree, delta: nat)
    requires Fix(a, fx, delta).Fixed? && NoPhandles(fx)
    ensures var r := Fix(a, fx, delta).a; PhandleOf(r) == PhandleOf(a) && Phandles(r) == Phandles(a)
    decreases fx, 1
  {
    hide PhandleOf, Phandles, FixProps, FixSubs;
    FixPropsPhandles(a, fx, delta);
    FixSubsPhandles(FixProps(a, fx, delta).a, fx, delta);
  }

  // ---------------------------------------------------------------- what a reference means

  /** After a shift by `delta` the moved value names exactly the nodes that the old value named. */
  lemma ReferenceKept(ov: Tree, delta: nat, v: int)
    requires ShiftableNode(ov, delta) && 1 <= v < TWO32
    ensures var was, now := Phandles(ov), Phandles(ShiftNode(ov, delta));
      |now| == |was| && (v in was ==> v + delta < TWO32)
      && (forall i | 0 <= i < |was| && v in was :: was[i] == v <==> now[i] == (v + delta) % TWO32)
  {
    hide Word, Unword, Phandles, Moved, Shiftable, ShiftSubs, ShiftNode;
    ShiftedPhandles(ov, delta);
    OwnAfterSubs(ov, delta);
    forall i | 0 <= i < |Phandles(ov)|
      ensures Phandles(ov)[i] >= 1 ==> Moved(ov, delta)[i] == Phandles(ov)[i] + delta < NO_PHANDLE
      ensures Moved(ov, delta)[i] == Phandles(ov)[i] + delta || (Moved(ov, delta)[i] == 0 && Phandles(ov)[i] == 0)
    {
      MovedAt(ov, delta, i);
    }
  }

  lemma {:induction false} ShiftFinds(a: Tree, delta: nat, n: bytes)
    requires Shiftable(a, delta)
    ensures match FindSubT(a, n)
      case None => FindSubT(ShiftSubs(a, delta), n).None?
      case Some(b) => ShiftableNode(b, delta) && FindSubT(ShiftSubs(a, delta), n) == Some(ShiftNode(b, delta))
  {
    hide NameMatches, CanShiftOwn, ShiftOwn;
    match a
    case Done =>
    case Attr(_, _, rest) => ShiftFinds(rest, delta, n);
    case Sub(m, _, rest) => if !NameMatches(m, n) { ShiftFinds(rest, delta, n); }
  }

  lemma ShiftNodeFinds(a: Tree, delta: nat, n: bytes)
    requires ShiftableNode(a, delta)
    ensures match FindSubT(a, n)
      case None => FindSubT(ShiftNode(a, delta), n).None?
      case Some(b) => ShiftableNode(b, delta) && FindSubT(ShiftNode(a, delta), n) == Some(ShiftNode(b, delta))
  {
    hide NameMatches, Word, Unword, FindSubT, Shiftable, ShiftSubs;
    var b := ShiftSubs(a, delta);
    ShiftFinds(a, delta, n);
    ShiftAttrCan(b, delta);
    ShiftAttrKeeps(b, PHANDLE, delta, n);
    ShiftAttrKeeps(ShiftAttr(b, PHANDLE, delta), LINUX_PHANDLE, delta, n);
    FindSubSubs(ShiftOwn(b, delta), b, n);
  }

  /** A shift is the same shift at every node, and leaves all other properties alone. */
  lemma {:induction false} ShiftAtPath(a: Tree, delta: nat, path: seq<bytes>)
    requires ShiftableNode(a, delta)
    ensures match NodeAtPath(a, path)
      case None => NodeAtPath(ShiftNode(a, delta), path).None?
      case Some(b) => ShiftableNode(b, delta) && NodeAtPath(ShiftNode(a, delta), path) == Some(ShiftNode(b, delta))
    decreases |path|
  {
    hide NameMatches, ShiftableNode, ShiftNode, FindSubT;
    if path != [] {
      ShiftNodeFinds(a, delta, path[0]);
      if FindSubT(a, path[0]).Some? {
        ShiftAtPath(FindSubT(a, path[0]).value, delta, path[1..]);
      }
    }
  }

  lemma ShiftGet(a: Tree, delta: nat, name: bytes)
    requires ShiftableNode(a, delta) && name != PHANDLE && name != LINUX_PHANDLE
    ensures GetAttr(ShiftNode(a, delta), name) == GetAttr(a, name)
  {
    hide Word, Unword, Shiftable, ShiftSubs;
    var b := ShiftSubs(a, delta);
    ShiftAttrCan(b, delta);
    ShiftAttrKeeps(b, PHANDLE, delta, name);
    ShiftAttrKeeps(ShiftAttr(b, PHANDLE, delta), LINUX_PHANDLE, delta, name);
  }

  lemma {:induction false} NoPhandlesLast(fx: Tree, name: bytes)
    requires NoPhandles(fx) && LastAttr(fx, name).Some?
    ensures name != PHANDLE && name != LINUX_PHANDLE
  {
    match fx
    case Attr(n, _, rest) => if n != name { NoPhandlesLast(rest, name); }
  }

  lemma {:induction false} NoPhandlesAt(fx: Tree, path: seq<bytes>)
    requires NoPhandles(fx) && OverlayAt(fx, path).Some?
    ensures NoPhandles(OverlayAt(fx, path).value)
    decreases |path|
  {
    if path != [] {
      NoPhandlesChild(fx, path[0]);
      NoPhandlesAt(Child(fx, path[0]).value, path[1..]);
    }
  }

  lemma {:induction false} NoPhandlesChild(fx: Tree, name: bytes)
    requires NoPhandles(fx) && Child(fx, name).Some?
    ensures NoPhandles(Child(fx, name).value)
  {
    match fx
    case Attr(_, _, rest) => NoPhandlesChild(rest, name);
    case Sub(n, _, rest) => if n != name { NoPhandlesChild(rest, name); }
  }

  /** The tree of an overlay whose phandles and local references have been renumbered. */
  function Renumbered(ov: Tree, fx: Tree, delta: nat): (r: Fixed)
    requires ShiftableNode(ov, delta)
  {
    Fix(ShiftNode(ov, delta), fx, delta)
  }

  /** A cell of the overlay that its fixups list once, and that held the phandle of some node: after the renumbering it
      holds the phandle of exactly those nodes again. */
  lemma LocalReference(ov: Tree, fx: Tree, delta: nat, path: seq<bytes>, name: bytes, i: nat)
    requires ShiftableNode(ov, delta) && Renumbered(ov, fx, delta).Fixed?
    requires Distinct(fx) && DistinctProps(fx) && NoPhandles(fx) && OverlayAt(fx, path).Some?
    requires LastAttr(OverlayAt(fx, path).value, name).Some?
    requires var l := LastAttr(OverlayAt(fx, path).value, name).value;
      4 * i + 4 <= |l| && ClearOf(l, |l| / 4, i, Listed(l, i))
    ensures NodeAtPath(ov, path).Some? && GetAttr(NodeAtPath(ov, path).value, name).Some?
    ensures NodeAtPath(Renumbered(ov, fx, delta).a, path).Some?
    ensures GetAttr(NodeAtPath(Renumbered(ov, fx, delta).a, path).value, name).Some?
    ensures var c := Listed(LastAttr(OverlayAt(fx, path).value, name).value, i);
      var was := GetAttr(NodeAtPath(ov, path).value, name).value;
      var now := GetAttr(NodeAtPath(Renumbered(ov, fx, delta).a, path).value, name).value;
      && c + 4 <= |was| == |now| && CellAt(now, c) == (CellAt(was, c) + delta) % TWO32
      && SameNodes(Phandles(ov), CellAt(was, c), Phandles(Renumbered(ov, fx, delta).a), CellAt(now, c))
  {
    hide Fix, Shiftable, ShiftNode, CanShiftOwn, Distinct, DistinctProps, NodeAtPath, OverlayAt, GetAttr, LastAttr,
         Phandles, MoveCells, CellAt, Listed, Word, Unword;
    var s := ShiftNode(ov, delta);
    var r := Renumbered(ov, fx, delta).a;
    var f := OverlayAt(fx, path).value;
    FixAtPath(s, fx, delta, path);
    ShiftAtPath(ov, delta, path);
    NoPhandlesAt(fx, path);
    NoPhandlesLast(f, name);
    FixGet(NodeAtPath(s, path).value, f, delta, name);
    ShiftGet(NodeAtPath(ov, path).value, delta, name);
    var l := LastAttr(f, name).value;
    var was := GetAttr(NodeAtPath(ov, path).value, name).value;
    FixKeepsPhandles(s, fx, delta);
    ListedInside(was, l, i);
    MovedOnce(was, l, |l| / 4, delta, i);
    SameNodesIs(ov, delta, CellAt(was, Listed(l, i)));
  }

  lemma ListedInside(v: bytes, l: bytes, i: nat)
    requires AllInside(|v|, l) && 4 * i + 4 <= |l|
    ensures i < |l| / 4 && Listed(l, i) + 4 <= |v|
  {
    hide Unword;
  }

  /** When `v` is the phandle of some node of the first list, `w` is the phandle of the same nodes in the second. */
  ghost predicate SameNodes(ps: seq<int>, v: int, qs: seq<int>, w: int)
  {
    |qs| == |ps| && (v >= 1 && v in ps ==> forall i | 0 <= i < |ps| :: ps[i] == v <==> qs[i] == w)
  }

  lemma SameNodesIs(ov: Tree, delta: nat, v: int)
    requires ShiftableNode(ov, delta) && 0 <= v < TWO32
    ensures SameNodes(Phandles(ov), v, Phandles(ShiftNode(ov, delta)), (v + delta) % TWO32)
  {
    hide Phandles, Shiftable, ShiftNode, CanShiftOwn;
    if v >= 1 {
      ReferenceKept(ov, delta, v);
    } else {
      ReferenceKept(ov, delta, 1);
    }
  }
}
