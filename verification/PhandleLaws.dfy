/** Phandles of a tree, and what shifting all of them by one number does. */
module PhandleLaws {
  import opened Bytes
  import opened Tree
  import opened TreeOps

  const PHANDLE: bytes := [112, 104, 97, 110, 100, 108, 101] // "phandle"
  const LINUX_PHANDLE: bytes := [108, 105, 110, 117, 120, 44, 112, 104, 97, 110, 100, 108, 101] // "linux,phandle"
  const NO_PHANDLE: int := 0xffff_ffff

  /** `fdt_get_phandle` of a node with body `a`: 0 when it has none. */
  function PhandleOf(a: Tree): (p: int)
    ensures 0 <= p < TWO32
  {
    var v := GetAttr(a, PHANDLE);
    if v.Some? && |v.value| == 4 then Unword(v.value) else
    var w := GetAttr(a, LINUX_PHANDLE);
    if w.Some? && |w.value| == 4 then Unword(w.value) else 0
  }

  /** The phandles of all nodes below, in document order; nodes without one count as 0. */
  function Phandles(a: Tree): (ps: seq<int>)
  {
    match a
    case Done => []
    case Attr(_, _, rest) => Phandles(rest)
    case Sub(_, body, rest) => [PhandleOf(body)] + Phandles(body) + Phandles(rest)
  }

  // ---------------------------------------------------------------- shifting

  /** `overlay_phandle_add_offset` goes through. */
  predicate CanShift(a: Tree, name: bytes, delta: int)
  {
    match GetAttr(a, name)
    case None => true
    case Some(v) => |v| == 4 && Unword(v) + delta < NO_PHANDLE
  }

  function ShiftAttr(a: Tree, name: bytes, delta: nat): (r: Tree)
    requires CanShift(a, name, delta)
  {
    match GetAttr(a, name)
    case None => a
    case Some(v) => ReplaceAttr(a, name, Word(Unword(v) + delta))
  }

  /** Both phandle properties of a node. */
  predicate CanShiftOwn(a: Tree, delta: nat)
  {
    CanShift(a, PHANDLE, delta) && CanShift(a, LINUX_PHANDLE, delta)
  }

  function ShiftOwn(a: Tree, delta: nat): (r: Tree)
    requires CanShiftOwn(a, delta)
  {
    ShiftAttrKeeps(a, PHANDLE, delta, LINUX_PHANDLE);
    ShiftAttr(ShiftAttr(a, PHANDLE, delta), LINUX_PHANDLE, delta)
  }

  lemma ShiftAttrKeeps(a: Tree, name: bytes, delta: nat, other: bytes)
    requires CanShift(a, name, delta)
    ensures GetAttr(ShiftAttr(a, name, delta), other) ==
      if other == name && GetAttr(a, name).Some? then Some(Word(Unword(GetAttr(a, name).value) + delta))
      else GetAttr(a, other)
    ensures Subs(ShiftAttr(a, name, delta)) == Subs(a)
  {
    hide Word, Unword;
    if GetAttr(a, name).Some? {
      ReplaceGet(a, name, Word(Unword(GetAttr(a, name).value) + delta), other);
    }
  }

  /** Every node below can be shifted. */
  predicate Shiftable(a: Tree, delta: nat)
  {
    match a
    case Done => true
    case Attr(_, _, rest) => Shiftable(rest, delta)
    case Sub(_, body, rest) => CanShiftOwn(body, delta) && Shiftable(body, delta) && Shiftable(rest, delta)
  }

  /** Every node below shifted. */
  function ShiftSubs(a: Tree, delta: nat): (r: Tree)
    requires Shiftable(a, delta)
    ensures forall name :: GetAttr(r, name) == GetAttr(a, name)
  {
    match a
    case Done => Done
    case Attr(n, v, rest) => Attr(n, v, ShiftSubs(rest, delta))
    case Sub(n, body, rest) =>
      Sub(n, ShiftOwn(ShiftSubs(body, delta), delta), ShiftSubs(rest, delta))
  }

  /** A whole node: its own phandle and those below. */
  predicate ShiftableNode(a: Tree, delta: nat)
  {
    CanShiftOwn(a, delta) && Shiftable(a, delta)
  }

  function ShiftNode(a: Tree, delta: nat): (r: Tree)
    requires ShiftableNode(a, delta)
  {
    ShiftOwn(ShiftSubs(a, delta), delta)
  }

  /** Replacing a property and shifting the subnodes commute. */
  lemma {:induction false} ReplaceShift(a: Tree, name: bytes, val: bytes, delta: nat)
    requires GetAttr(a, name).Some?
    ensures Shiftable(ReplaceAttr(a, name, val), delta) <==> Shiftable(a, delta)
    ensures Shiftable(a, delta) ==>
      ShiftSubs(ReplaceAttr(a, name, val), delta) == ReplaceAttr(ShiftSubs(a, delta), name, val)
  {
    hide Word, Unword, CanShiftOwn, ShiftOwn;
    if a.name != name {
      ReplaceShift(a.rest, name, val, delta);
    }
  }

  lemma AttrShift(a: Tree, name: bytes, delta: nat)
    requires CanShift(a, name, delta)
    ensures Shiftable(ShiftAttr(a, name, delta), delta) <==> Shiftable(a, delta)
    ensures Shiftable(a, delta) ==> CanShift(ShiftSubs(a, delta), name, delta)
    ensures Shiftable(a, delta) ==>
      ShiftSubs(ShiftAttr(a, name, delta), delta) == ShiftAttr(ShiftSubs(a, delta), name, delta)
  {
    hide Word, Unword, CanShiftOwn, ShiftOwn;
    match GetAttr(a, name)
    case None =>
    case Some(v) => ReplaceShift(a, name, Word(Unword(v) + delta), delta);
  }

  /** The order of the source, own properties first, comes to the same. */
  lemma OwnFirst(a: Tree, delta: nat)
    requires CanShiftOwn(a, delta)
    ensures Shiftable(ShiftOwn(a, delta), delta) <==> Shiftable(a, delta)
    ensures Shiftable(a, delta) ==> ShiftSubs(ShiftOwn(a, delta), delta) == ShiftNode(a, delta)
  {
    hide Word, Unword, CanShift, ShiftAttr;
    ShiftAttrCan(a, delta);
    var b := ShiftAttr(a, PHANDLE, delta);
    AttrShift(a, PHANDLE, delta);
    AttrShift(b, LINUX_PHANDLE, delta);
  }

  lemma ShiftAttrCan(a: Tree, delta: nat)
    requires CanShiftOwn(a, delta)
    ensures CanShift(ShiftAttr(a, PHANDLE, delta), LINUX_PHANDLE, delta)
  {
    hide Word, Unword;
    ShiftAttrKeeps(a, PHANDLE, delta, LINUX_PHANDLE);
  }

  // ---------------------------------------------------------------- what a shift does

  /** A node has a phandle property. */
  predicate HasPhandle(a: Tree)
  {
    GetAttr(a, PHANDLE).Some? || GetAttr(a, LINUX_PHANDLE).Some?
  }

  /** Shifted phandles: those that exist move by `delta`, the others stay 0. */
  function Moved(a: Tree, delta: nat): (ps: seq<int>)
    requires Shiftable(a, delta)
  {
    match a
    case Done => []
    case Attr(_, _, rest) => Moved(rest, delta)
    case Sub(_, body, rest) =>
      [if HasPhandle(body) then PhandleOf(body) + delta else 0] + Moved(body, delta) + Moved(rest, delta)
  }

  lemma {:induction false} OwnSubs(a: Tree, name: bytes, val: bytes)
    requires GetAttr(a, name).Some?
    ensures Phandles(ReplaceAttr(a, name, val)) == Phandles(a)
  {
    hide PhandleOf;
    if a.name != name { OwnSubs(a.rest, name, val); }
  }

  lemma ShiftOwnPhandle(a: Tree, delta: nat)
    requires CanShiftOwn(a, delta)
    ensures PhandleOf(ShiftOwn(a, delta)) == if HasPhandle(a) then PhandleOf(a) + delta else 0
    ensures Phandles(ShiftOwn(a, delta)) == Phandles(a)
  {
    hide Word, Unword;
    ShiftAttrKeeps(a, PHANDLE, delta, PHANDLE);
    ShiftAttrKeeps(a, PHANDLE, delta, LINUX_PHANDLE);
    var b := ShiftAttr(a, PHANDLE, delta);
    ShiftAttrKeeps(b, LINUX_PHANDLE, delta, PHANDLE);
    ShiftAttrKeeps(b, LINUX_PHANDLE, delta, LINUX_PHANDLE);
    if GetAttr(a, PHANDLE).Some? {
      OwnSubs(a, PHANDLE, Word(Unword(GetAttr(a, PHANDLE).value) + delta));
    }
    if GetAttr(b, LINUX_PHANDLE).Some? {
      OwnSubs(b, LINUX_PHANDLE, Word(Unword(GetAttr(b, LINUX_PHANDLE).value) + delta));
    }
  }

  /** Shifting moves every phandle of the tree by the same amount and touches nothing else about them. */
  lemma {:induction false} ShiftedPhandles(a: Tree, delta: nat)
    requires Shiftable(a, delta)
    ensures Phandles(ShiftSubs(a, delta)) == Moved(a, delta) && |Moved(a, delta)| == |Phandles(a)|
  {
    hide Word, Unword, PhandleOf, CanShiftOwn, ShiftOwn, HasPhandle;
    match a
    case Done =>
    case Attr(_, _, rest) => ShiftedPhandles(rest, delta);
    case Sub(_, body, rest) =>
      ShiftedPhandles(body, delta);
      ShiftedPhandles(rest, delta);
      OwnAfterSubs(body, delta);
  }

  lemma OwnAfterSubs(a: Tree, delta: nat)
    requires ShiftableNode(a, delta)
    ensures CanShiftOwn(ShiftSubs(a, delta), delta)
    ensures PhandleOf(ShiftNode(a, delta)) == if HasPhandle(a) then PhandleOf(a) + delta else 0
    ensures Phandles(ShiftNode(a, delta)) == Phandles(ShiftSubs(a, delta))
  {
    hide Word, Unword;
    ShiftOwnPhandle(ShiftSubs(a, delta), delta);
  }

  /** In terms of positions: phandle `i` moves by `delta`, or is 0 before and after. */
  lemma {:induction false} MovedAt(a: Tree, delta: nat, i: nat)
    requires Shiftable(a, delta) && i < |Phandles(a)| && |Moved(a, delta)| == |Phandles(a)|
    ensures Moved(a, delta)[i] == Phandles(a)[i] + delta || (Moved(a, delta)[i] == 0 && Phandles(a)[i] == 0)
    ensures Phandles(a)[i] >= 1 ==> Moved(a, delta)[i] == Phandles(a)[i] + delta
    ensures Moved(a, delta)[i] < NO_PHANDLE
  {
    hide Word, Unword;
    match a
    case Attr(_, _, rest) => MovedAt(rest, delta, i);
    case Sub(_, body, rest) =>
      ShiftedPhandles(body, delta);
      ShiftedPhandles(rest, delta);
      var k := |Phandles(body)|;
      if 1 <= i <= k {
        MovedAt(body, delta, i - 1);
      } else if i > k {
        MovedAt(rest, delta, i - 1 - k);
      }
  }

  /** The largest phandle of a list. */
  function MaxOf(ps: seq<int>): (m: int)
    ensures m >= 0 && (forall i | 0 <= i < |ps| :: ps[i] <= m) && (m == 0 || m in ps)
  {
    if ps == [] then 0 else
    var m := MaxOf(ps[..|ps| - 1]);
    var x := ps[|ps| - 1];
    if x > m then x else m
  }

  /** After an overlay is shifted by the largest phandle of the base, its phandles clash neither with those of the base
      nor with each other. */
  lemma NoClash(base: Tree, ov: Tree)
    requires Shiftable(ov, MaxOf(Phandles(base)))
    ensures var delta := MaxOf(Phandles(base));
      var now, was := Phandles(ShiftSubs(ov, delta)), Phandles(ov);
      && |now| == |was|
      && (forall i, j | 0 <= i < |was| && 0 <= j < |Phandles(base)| && was[i] >= 1 :: now[i] > Phandles(base)[j])
      && (forall i, j | 0 <= i < |was| && 0 <= j < |was| && was[i] >= 1 && was[j] >= 1 ::
           now[i] == now[j] <==> was[i] == was[j])
  {
    hide Word, Unword, Phandles, Moved, Shiftable, ShiftSubs;
    var delta := MaxOf(Phandles(base));
    ShiftedPhandles(ov, delta);
    forall i | 0 <= i < |Phandles(ov)|
      ensures Phandles(ov)[i] >= 1 ==> Moved(ov, delta)[i] == Phandles(ov)[i] + delta {
      MovedAt(ov, delta, i);
    }
  }
}
