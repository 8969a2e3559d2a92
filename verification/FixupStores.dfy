/** Where the local fixups of an overlay store: the listed places against the values they are for, in the order in
    which they are read.  It does not depend on the number by which the cells move. */
module FixupStores {
  import opened Bytes
  import opened Tree
  import opened TreeOps
  import opened Walk
  import opened Merging
  import opened FixupLaws

  /** A cell stored at `place` of a value of `size` bytes. */
  datatype Store = Store(place: nat, size: nat)

  /** The stores, up to the first fixup that is refused; `ok` if none is. */
  datatype Run = Run(stores: seq<Store>, ok: bool)

  function Both(r: Run, s: Run): (t: Run)
  {
    if r.ok then Run(r.stores + s.stores, s.ok) else r
  }

  /** The stores of one fixup value in a value of `size` bytes. */
  function Cells(size: nat, v: bytes): (ss: seq<Store>)
  {
    seq(|v| / 4, i requires 0 <= i < |v| / 4 => Store(Listed(v, i), size))
  }

  function AttrRun(a: Tree, n: bytes, v: bytes): (r: Run)
  {
    if |v| % 4 != 0 || GetAttr(a, n).None? then Run([], false) else Run(Cells(|GetAttr(a, n).value|, v), true)
  }

  function PropsRun(a: Tree, fx: Tree): (r: Run)
  {
    match fx
    case Attr(n, v, rest) => Both(AttrRun(a, n, v), PropsRun(a, rest))
    case _ => Run([], true)
  }

  function SubsRun(a: Tree, fx: Tree): (r: Run)
    decreases fx, 0
  {
    match fx
    case Done => Run([], true)
    case Attr(_, _, rest) => SubsRun(a, rest)
    case Sub(n, body, rest) =>
      match FindSubT(a, n)
      case None => Run([], false)
      case Some(s) => Both(FixRun(s, body), SubsRun(a, rest))
  }

  /** The stores for the fixups `fx` of a node that reads as `a`: its properties first, then its subnodes. */
  function FixRun(a: Tree, fx: Tree): (r: Run)
    decreases fx, 1
  {
    Both(PropsRun(a, fx), SubsRun(a, fx))
  }

  /** Every store lies inside its value. */
  predicate Within(ss: seq<Store>) { forall s | s in ss :: s.place + 4 <= s.size }

  lemma WithinBoth(r: Run, s: Run)
    ensures Within(Both(r, s).stores) <==> Within(r.stores) && (r.ok ==> Within(s.stores))
  {
    assert forall x :: x in r.stores + s.stores <==> x in r.stores || x in s.stores;
  }

  // ---------------------------------------------------------------- trees that differ in the bytes of values only

  predicate SameSizes(a: Tree, b: Tree)
  {
    match a
    case Done => b.Done?
    case Attr(n, v, rest) => b.Attr? && b.name == n && |b.val| == |v| && SameSizes(rest, b.rest)
    case Sub(n, body, rest) => b.Sub? && b.name == n && SameSizes(body, b.body) && SameSizes(rest, b.rest)
  }

  lemma SizesSelf(a: Tree)
    ensures SameSizes(a, a)
  {
  }

  lemma {:induction false} SizesGet(a: Tree, b: Tree, n: bytes)
    requires SameSizes(a, b)
    ensures GetAttr(a, n).Some? <==> GetAttr(b, n).Some?
    ensures GetAttr(a, n).Some? ==> |GetAttr(a, n).value| == |GetAttr(b, n).value|
  {
    if a.Attr? { SizesGet(a.rest, b.rest, n); }
  }

  lemma {:induction false} SizesFind(a: Tree, b: Tree, n: bytes)
    requires SameSizes(a, b)
    ensures FindSubT(a, n).Some? <==> FindSubT(b, n).Some?
    ensures FindSubT(a, n).Some? ==> SameSizes(FindSubT(a, n).value, FindSubT(b, n).value)
  {
    hide NameMatches;
    match a
    case Done =>
    case Attr(_, _, rest) => SizesFind(rest, b.rest, n);
    case Sub(m, _, rest) => if !NameMatches(m, n) { SizesFind(rest, b.rest, n); }
  }

  lemma {:induction false} SizesReplace(a: Tree, b: Tree, n: bytes, w: bytes)
    requires SameSizes(a, b) && (GetAttr(b, n).Some? ==> |w| == |GetAttr(b, n).value|)
    ensures SameSizes(a, ReplaceAttr(b, n, w))
  {
    if a.Attr? && a.name != n { SizesReplace(a.rest, b.rest, n, w); }
  }

  lemma {:induction false} SizesPut(a: Tree, b: Tree, n: bytes, x: Tree)
    requires SameSizes(a, b) && FindSubT(a, n).Some? && SameSizes(FindSubT(a, n).value, x)
    ensures SameSizes(a, PutSub(b, n, x))
  {
    hide NameMatches;
    match a
    case Attr(_, _, rest) => SizesPut(rest, b.rest, n, x);
    case Sub(m, _, rest) => if !NameMatches(m, n) { SizesPut(rest, b.rest, n, x); }
  }

  // ---------------------------------------------------------------- what the run says of the fixups

  /** The outcome `f` of fixups on a tree of the sizes of `a` agrees with the run. */
  predicate Tells(a: Tree, r: Run, f: Fixed)
  {
    match f
    case Fixed(x) => r.ok && Within(r.stores) && SameSizes(a, x)
    case Refused(x) => !r.ok && Within(r.stores) && SameSizes(a, x)
    case Stray => !Within(r.stores)
  }

  lemma CellsInside(size: nat, v: bytes)
    ensures Within(Cells(size, v)) <==> AllInside(size, v)
  {
    hide Listed;
    forall i | 0 <= i < |v| / 4
      ensures Cells(size, v)[i] in Cells(size, v) && Cells(size, v)[i] == Store(Listed(v, i), size)
    {
    }
  }

  lemma AttrTells(a: Tree, b: Tree, n: bytes, v: bytes, delta: nat)
    requires SameSizes(a, b)
    ensures Tells(a, AttrRun(a, n, v), FixAttr(b, n, v, delta))
  {
    hide MoveCells, AllInside, Cells;
    SizesGet(a, b, n);
    if |v| % 4 == 0 && GetAttr(b, n).Some? {
      var w := GetAttr(b, n).value;
      CellsInside(|w|, v);
      if AllInside(|w|, v) { SizesReplace(a, b, n, MoveCells(w, v, |v| / 4, delta)); }
    }
  }

  lemma {:induction false} PropsTell(a: Tree, b: Tree, fx: Tree, delta: nat)
    requires SameSizes(a, b)
    ensures Tells(a, PropsRun(a, fx), FixProps(b, fx, delta))
    decreases fx
  {
    hide Within, FixAttr, AttrRun, SameSizes;
    match fx
    case Attr(n, v, rest) =>
      AttrTells(a, b, n, v, delta);
      WithinBoth(AttrRun(a, n, v), PropsRun(a, rest));
      var one := FixAttr(b, n, v, delta);
      if one.Fixed? { PropsTell(a, one.a, rest, delta); }
    case _ => NoneWithin();
  }

  lemma NoneWithin()
    ensures Within([])
  {
  }

  lemma {:induction false} SubsTell(a: Tree, b: Tree, fx: Tree, delta: nat)
    requires SameSizes(a, b)
    ensures Tells(a, SubsRun(a, fx), FixSubs(b, fx, delta))
    decreases fx, 0
  {
    hide Within, SameSizes, Fix, FixRun, PutSub, FindSubT;
    NoneWithin();
    match fx
    case Done =>
    case Attr(_, _, rest) => SubsTell(a, b, rest, delta);
    case Sub(n, body, rest) =>
      SizesFind(a, b, n);
      if FindSubT(a, n).Some? {
        var s, t := FindSubT(a, n).value, FindSubT(b, n).value;
        FixTells(s, t, body, delta);
        WithinBoth(FixRun(s, body), SubsRun(a, rest));
        var one := Fix(t, body, delta);
        if !one.Stray? { SizesPut(a, b, n, one.a); }
        if one.Fixed? { SubsTell(a, PutSub(b, n, one.a), rest, delta); }
      }
  }

  lemma {:induction false} FixTells(a: Tree, b: Tree, fx: Tree, delta: nat)
    requires SameSizes(a, b)
    ensures Tells(a, FixRun(a, fx), Fix(b, fx, delta))
    decreases fx, 1
  {
    hide Within, SameSizes, FixProps, FixSubs, PropsRun, SubsRun;
    PropsTell(a, b, fx, delta);
    WithinBoth(PropsRun(a, fx), SubsRun(a, fx));
    match FixProps(b, fx, delta)
    case Fixed(x) => SubsTell(a, x, fx, delta);
    case _ =>
  }

  /** The fixups store inside their own values if and only if every listed place does; and they are refused if and only
      if a fixup is of no whole number of cells, or for a property or a node that there is not. */
  lemma StrayIs(a: Tree, fx: Tree, delta: nat)
    ensures Fix(a, fx, delta) == Stray <==> !Within(FixRun(a, fx).stores)
    ensures Fix(a, fx, delta).Fixed? <==> FixRun(a, fx).ok && Within(FixRun(a, fx).stores)
    ensures Fix(a, fx, delta).Refused? <==> !FixRun(a, fx).ok && Within(FixRun(a, fx).stores)
  {
    hide Within, SameSizes, Fix, FixRun;
    SizesSelf(a);
    FixTells(a, a, fx, delta);
  }
}
