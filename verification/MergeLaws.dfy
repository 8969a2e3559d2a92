/** What the recursive merge means, said without recursion over the overlay's items: which value a client reads
    where. */
module MergeLaws {
  import opened Bytes
  import opened Tree
  import opened Walk
  import opened TreeOps
  import opened Merging

  // ---------------------------------------------------------------- names

  /** Neither name finds the other: what "different siblings" means under the unit-address rule. */
  predicate Apart(v: bytes, w: bytes)
  {
    !NameMatches(v, w) && !NameMatches(w, v)
  }

  /** When two names find the same node, one of them finds the other. */
  lemma BothFind(node: bytes, v: bytes, w: bytes)
    requires NameMatches(node, v) && NameMatches(node, w)
    ensures NameMatches(v, w) || NameMatches(w, v)
  {
    if |v| < |w| {
      assert w == node[..|w|];
      assert w[..|v|] == v;
    } else if |w| < |v| {
      assert v == node[..|v|];
      assert v[..|w|] == w;
    } else {
      assert v == w;
      NameMatchesSelf(v);
    }
  }

  /** No node is found by two names that are apart. */
  lemma ApartFinds(node: bytes, v: bytes, w: bytes)
    requires Apart(v, w)
    ensures !(NameMatches(node, v) && NameMatches(node, w))
  {
    if NameMatches(node, v) && NameMatches(node, w) {
      BothFind(node, v, w);
    }
  }

  /** `name` is apart from every subnode of `a`. */
  predicate ApartFromAll(a: Tree, name: bytes)
  {
    match a
    case Done => true
    case Attr(_, _, rest) => ApartFromAll(rest, name)
    case Sub(n, _, rest) => Apart(n, name) && ApartFromAll(rest, name)
  }

  /** Sibling names are apart, here and in every subtree. */
  predicate Distinct(a: Tree)
  {
    match a
    case Done => true
    case Attr(_, _, rest) => Distinct(rest)
    case Sub(n, body, rest) => ApartFromAll(rest, n) && Distinct(body) && Distinct(rest)
  }

  // ---------------------------------------------------------------- properties

  /** The last value a body gives property `name`. */
  function LastAttr(ov: Tree, name: bytes): (r: Option<bytes>)
  {
    match ov
    case Attr(n, v, rest) =>
      if LastAttr(rest, name).Some? then LastAttr(rest, name) else if n == name then Some(v) else None
    case _ => None
  }

  lemma {:induction false} MergePropsGet(a: Tree, ov: Tree, name: bytes)
    ensures GetAttr(MergeProps(a, ov), name)
      == if LastAttr(ov, name).Some? then LastAttr(ov, name) else GetAttr(a, name)
    ensures Subs(MergeProps(a, ov)) == Subs(a)
    decreases ov
  {
    match ov
    case Attr(n, v, rest) =>
      MergePropsGet(SetAttr(a, n, v), rest, name);
      SetGet(a, n, v, name);
    case _ =>
  }

  lemma {:induction false} PutSubGet(a: Tree, want: bytes, body: Tree, name: bytes)
    ensures GetAttr(PutSub(a, want, body), name) == GetAttr(a, name)
  {
    if a.Attr? { PutSubGet(a.rest, want, body, name); }
  }

  lemma {:induction false} MergeSubsGet(a: Tree, ov: Tree, name: bytes)
    ensures GetAttr(MergeSubs(a, ov), name) == GetAttr(a, name)
    decreases ov
  {
    hide NameMatches, Merge, PutSub, EnsureSub, FindSubT;
    match ov
    case Done =>
    case Attr(_, _, rest) => MergeSubsGet(a, rest, name);
    case Sub(n, body, rest) =>
      var b := EnsureSub(a, n);
      var x := Merge(FindSubT(b, n).value, body);
      MergeSubsGet(PutSub(b, n, x), rest, name);
      PutSubGet(b, n, x, name);
      EnsureSubGet(a, n, name);
  }

  lemma EnsureSubGet(a: Tree, n: bytes, name: bytes)
    ensures GetAttr(EnsureSub(a, n), name) == GetAttr(a, name)
  {
    AddSubGet(a, n, name);
  }

  /** Properties of a merged node: the overlay's value where it has one, else the base's. */
  lemma MergeOverrides(a: Tree, ov: Tree, name: bytes)
    ensures GetAttr(Merge(a, ov), name) == if LastAttr(ov, name).Some? then LastAttr(ov, name) else GetAttr(a, name)
  {
    MergeSubsGet(MergeProps(a, ov), ov, name);
    MergePropsGet(a, ov, name);
  }

  // ---------------------------------------------------------------- subnodes

  /** `FindSubT` depends on the subnodes only. */
  lemma {:induction false} FindSubSubs(a: Tree, b: Tree, want: bytes)
    requires Subs(a) == Subs(b)
    ensures FindSubT(a, want) == FindSubT(b, want)
    decreases a, b
  {
    hide NameMatches;
    if a.Attr? {
      FindSubSubs(a.rest, b, want);
    } else if b.Attr? {
      FindSubSubs(a, b.rest, want);
    } else if a.Sub? {
      assert b.Sub? && Subs(a)[0] == Subs(b)[0];
      assert Subs(a)[1..] == Subs(a.rest) && Subs(b)[1..] == Subs(b.rest);
      FindSubSubs(a.rest, b.rest, want);
    } else {
      assert b.Done?;
    }
  }

  lemma {:induction false} FindPut(a: Tree, want: bytes, body: Tree)
    requires FindSubT(a, want).Some?
    ensures FindSubT(PutSub(a, want, body), want) == Some(body)
  {
    hide NameMatches;
    match a
    case Attr(_, _, rest) => FindPut(rest, want, body);
    case Sub(n, _, rest) => if !NameMatches(n, want) { FindPut(rest, want, body); }
  }

  lemma {:induction false} FindPutOther(a: Tree, want: bytes, body: Tree, other: bytes)
    requires Apart(want, other)
    ensures FindSubT(PutSub(a, want, body), other) == FindSubT(a, other)
  {
    hide NameMatches, Apart;
    match a
    case Done =>
    case Attr(_, _, rest) => FindPutOther(rest, want, body, other);
    case Sub(n, _, rest) =>
      ApartFinds(n, want, other);
      FindPutOther(rest, want, body, other);
  }

  lemma {:induction false} FindAddOther(a: Tree, name: bytes, other: bytes)
    requires Apart(name, other)
    ensures FindSubT(AddSub(a, name), other) == FindSubT(a, other)
  {
    if a.Attr? { FindAddOther(a.rest, name, other); }
  }

  /** The base body that an overlay subnode `name` is merged into. */
  function BaseOf(a: Tree, name: bytes): (r: Tree)
  {
    match FindSubT(a, name) case Some(b) => b case None => Done
  }

  lemma EnsureFinds(a: Tree, name: bytes)
    ensures FindSubT(EnsureSub(a, name), name) == Some(BaseOf(a, name))
  {
    if FindSubT(a, name).None? { AddSubFound(a, name); }
  }

  /** A subnode that no overlay subnode names is left as it was. */
  lemma {:induction false} MergeSubsOther(a: Tree, ov: Tree, other: bytes)
    requires ApartFromAll(ov, other)
    ensures FindSubT(MergeSubs(a, ov), other) == FindSubT(a, other)
    decreases ov
  {
    hide NameMatches, Apart, PutSub, Merge, FindSubT, AddSub;
    match ov
    case Done =>
    case Attr(_, _, rest) => MergeSubsOther(a, rest, other);
    case Sub(n, body, rest) =>
      var b := EnsureSub(a, n);
      var x := Merge(FindSubT(b, n).value, body);
      MergeSubsOther(PutSub(b, n, x), rest, other);
      FindPutOther(b, n, x, other);
      FindAddOther(a, n, other);
  }

  /** A node that no overlay subnode names reads as before the merge. */
  lemma MergeKeepsOthers(a: Tree, ov: Tree, other: bytes)
    requires ApartFromAll(ov, other)
    ensures FindSubT(Merge(a, ov), other) == FindSubT(a, other)
  {
    MergeSubsOther(MergeProps(a, ov), ov, other);
    MergePropsGet(a, ov, other);
    FindSubSubs(MergeProps(a, ov), a, other);
  }

  /** The overlay has a subnode called exactly `name`, with this body. */
  function Child(ov: Tree, name: bytes): (r: Option<Tree>)
  {
    match ov
    case Done => None
    case Attr(_, _, rest) => Child(rest, name)
    case Sub(n, body, rest) => if n == name then Some(body) else Child(rest, name)
  }

  lemma {:induction false} ChildNotApart(ov: Tree, name: bytes)
    requires Child(ov, name).Some?
    ensures !ApartFromAll(ov, name)
  {
    NameMatchesSelf(name);
    hide NameMatches;
    match ov
    case Attr(_, _, rest) => ChildNotApart(rest, name);
    case Sub(n, _, rest) => if n != name { ChildNotApart(rest, name); }
  }

  lemma {:induction false} ChildApart(ov: Tree, name: bytes, other: bytes)
    requires ApartFromAll(ov, other) && Child(ov, name).Some?
    ensures Apart(name, other)
  {
    hide NameMatches;
    match ov
    case Attr(_, _, rest) => ChildApart(rest, name, other);
    case Sub(n, _, rest) => if n != name { ChildApart(rest, name, other); }
  }

  /** Where the overlay has a subnode, the result has the recursive merge of both sides. */
  lemma {:induction false} MergeSubsChild(a: Tree, ov: Tree, name: bytes)
    requires Distinct(ov) && Child(ov, name).Some?
    ensures FindSubT(MergeSubs(a, ov), name) == Some(Merge(BaseOf(a, name), Child(ov, name).value))
    decreases ov
  {
    hide NameMatches, Apart, PutSub, Merge, FindSubT, AddSub, BaseOf;
    match ov
    case Attr(_, _, rest) => MergeSubsChild(a, rest, name);
    case Sub(n, body, rest) =>
      var b := EnsureSub(a, n);
      var x := Merge(FindSubT(b, n).value, body);
      EnsureFinds(a, n);
      if n == name {
        MergeSubsOther(PutSub(b, n, x), rest, name);
        FindPut(b, n, x);
      } else {
        ChildApart(rest, name, n);
        ApartSym(name, n);
        MergeSubsChild(PutSub(b, n, x), rest, name);
        BaseOfPut(a, b, n, x, name);
      }
  }

  lemma ApartSym(v: bytes, w: bytes)
    ensures Apart(v, w) == Apart(w, v)
  {
  }

  lemma BaseOfPut(a: Tree, b: Tree, n: bytes, x: Tree, name: bytes)
    requires Apart(n, name) && b == EnsureSub(a, n)
    ensures BaseOf(PutSub(b, n, x), name) == BaseOf(a, name)
  {
    hide NameMatches, Apart, AddSub;
    FindPutOther(b, n, x, name);
    FindAddOther(a, n, name);
  }

  lemma MergeChild(a: Tree, ov: Tree, name: bytes)
    requires Distinct(ov) && Child(ov, name).Some?
    ensures FindSubT(Merge(a, ov), name) == Some(Merge(BaseOf(a, name), Child(ov, name).value))
  {
    hide NameMatches;
    MergeSubsChild(MergeProps(a, ov), ov, name);
    MergePropsGet(a, ov, name);
    FindSubSubs(MergeProps(a, ov), a, name);
  }

  // ---------------------------------------------------------------- paths

  /** The body at the end of a path of node names; `Done` where the base has no such node. */
  function BaseAt(a: Tree, path: seq<bytes>): (r: Tree)
    decreases |path|
  {
    if path == [] then a else BaseAt(BaseOf(a, path[0]), path[1..])
  }

  function NodeAtPath(a: Tree, path: seq<bytes>): (r: Option<Tree>)
    decreases |path|
  {
    if path == [] then Some(a) else
    match FindSubT(a, path[0]) case None => None case Some(b) => NodeAtPath(b, path[1..])
  }

  /** The overlay body at the end of a path of its exact node names. */
  function OverlayAt(ov: Tree, path: seq<bytes>): (r: Option<Tree>)
    decreases |path|
  {
    if path == [] then Some(ov) else
    match Child(ov, path[0]) case None => None case Some(b) => OverlayAt(b, path[1..])
  }

  lemma {:induction false} DistinctChild(ov: Tree, name: bytes)
    requires Distinct(ov) && Child(ov, name).Some?
    ensures Distinct(Child(ov, name).value)
  {
    hide NameMatches, Apart;
    match ov
    case Attr(_, _, rest) => DistinctChild(rest, name);
    case Sub(n, _, rest) => if n != name { DistinctChild(rest, name); }
  }

  /** At every node of the overlay, however deep, the merged tree has the merge of what both trees have there. */
  lemma {:induction false} MergeAtPath(a: Tree, ov: Tree, path: seq<bytes>)
    requires Distinct(ov) && OverlayAt(ov, path).Some?
    ensures NodeAtPath(Merge(a, ov), path) == Some(Merge(BaseAt(a, path), OverlayAt(ov, path).value))
    decreases |path|
  {
    hide NameMatches, Merge, FindSubT, BaseOf, Distinct;
    if path != [] {
      MergeChild(a, ov, path[0]);
      DistinctChild(ov, path[0]);
      MergeAtPath(BaseOf(a, path[0]), Child(ov, path[0]).value, path[1..]);
    }
  }

  /** Reading one property anywhere in the merged tree along the overlay's paths. */
  lemma MergedProperty(a: Tree, ov: Tree, path: seq<bytes>, name: bytes)
    requires Distinct(ov) && OverlayAt(ov, path).Some?
    ensures NodeAtPath(Merge(a, ov), path).Some?
    ensures GetAttr(NodeAtPath(Merge(a, ov), path).value, name)
      == var o := LastAttr(OverlayAt(ov, path).value, name); if o.Some? then o else GetAttr(BaseAt(a, path), name)
  {
    hide Merge, Distinct;
    MergeAtPath(a, ov, path);
    MergeOverrides(BaseAt(a, path), OverlayAt(ov, path).value, name);
  }

  // ---------------------------------------------------------------- applying an overlay twice

  /** No property is given twice, here and in every subtree. */
  predicate DistinctProps(a: Tree)
  {
    match a
    case Done => true
    case Attr(n, _, rest) => LastAttr(rest, n).None? && DistinctProps(rest)
    case Sub(_, body, rest) => DistinctProps(body) && DistinctProps(rest)
  }

  /** Every property and subnode of `ov` is already there. */
  predicate Contains(m: Tree, ov: Tree)
    decreases ov
  {
    match ov
    case Done => true
    case Attr(n, v, rest) => Contains(m, rest)
    case Sub(n, body, rest) =>
      FindSubT(m, n).Some? && Merge(FindSubT(m, n).value, body) == FindSubT(m, n).value && Contains(m, rest)
  }

  lemma {:induction false} ReplaceSame(a: Tree, name: bytes, val: bytes)
    requires GetAttr(a, name) == Some(val)
    ensures ReplaceAttr(a, name, val) == a
  {
    if a.name != name { ReplaceSame(a.rest, name, val); }
  }

  lemma {:induction false} PropsSame(m: Tree, ov: Tree)
    requires forall n :: LastAttr(ov, n).Some? ==> GetAttr(m, n) == LastAttr(ov, n)
    requires DistinctProps(ov)
    ensures MergeProps(m, ov) == m
    decreases ov
  {
    match ov
    case Attr(n, v, rest) =>
      assert LastAttr(ov, n) == Some(v);
      ReplaceSame(m, n, v);
      forall k | LastAttr(rest, k).Some? ensures GetAttr(m, k) == LastAttr(rest, k) {
        assert LastAttr(ov, k) == LastAttr(rest, k);
      }
      PropsSame(m, rest);
    case _ =>
  }

  lemma {:induction false} PutSame(m: Tree, want: bytes)
    requires FindSubT(m, want).Some?
    ensures PutSub(m, want, FindSubT(m, want).value) == m
  {
    hide NameMatches;
    match m
    case Attr(_, _, rest) => PutSame(rest, want);
    case Sub(n, _, rest) => if !NameMatches(n, want) { PutSame(rest, want); }
  }

  lemma {:induction false} SubsSame(m: Tree, ov: Tree)
    requires Contains(m, ov)
    ensures MergeSubs(m, ov) == m
    decreases ov
  {
    hide NameMatches, PutSub, FindSubT, Merge;
    match ov
    case Done =>
    case Attr(_, _, rest) => SubsSame(m, rest);
    case Sub(n, body, rest) =>
      PutSame(m, n);
      SubsSame(m, rest);
  }

  /** Merging the same overlay again changes nothing. */
  lemma {:induction false} MergeTwice(a: Tree, ov: Tree)
    requires Distinct(ov) && DistinctProps(ov)
    ensures Merge(Merge(a, ov), ov) == Merge(a, ov)
    decreases ov, 1
  {
    hide NameMatches, PutSub, FindSubT, MergeSubs, MergeProps, GetAttr;
    var m := Merge(a, ov);
    forall n | LastAttr(ov, n).Some? ensures GetAttr(m, n) == LastAttr(ov, n) {
      MergeOverrides(a, ov, n);
    }
    PropsSame(m, ov);
    MergedContains(a, ov, ov);
    SubsSame(m, ov);
  }

  /** The merged tree already contains every part `part` of the overlay. */
  lemma {:induction false} MergedContains(a: Tree, ov: Tree, part: Tree)
    requires Distinct(ov) && DistinctProps(part) && Distinct(part)
    requires forall n :: Child(part, n).Some? ==> Child(ov, n) == Child(part, n)
    ensures Contains(Merge(a, ov), part)
    decreases part, 0
  {
    hide NameMatches, PutSub, FindSubT, Merge, BaseOf;
    match part
    case Done =>
    case Attr(n, _, rest) =>
      assert forall k :: Child(part, k) == Child(rest, k);
      MergedContains(a, ov, rest);
    case Sub(n, body, rest) =>
      assert Child(part, n) == Some(body);
      MergeChild(a, ov, n);
      MergeTwice(BaseOf(a, n), body);
      forall k | Child(rest, k).Some? ensures Child(ov, k) == Child(rest, k) {
        ChildNotApart(rest, k);
        assert k != n;
        assert Child(part, k) == Child(rest, k);
      }
      MergedContains(a, ov, rest);
  }
}
