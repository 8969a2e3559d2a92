/** Runs of tags that need not be balanced: what the sequential writer has produced so far, and when such a
    run is the structure block of a tree. */
module TokenLog {
  import opened Bytes
  import opened Format
  import opened Tree

  // ---------------------------------------------------------------- tokens in a row

  predicate WfToks(ts: seq<Token>)
  {
    forall i | 0 <= i < |ts| :: WfTok(ts[i])
  }

  function EncToks(ts: seq<Token>): (s: bytes)
    requires WfToks(ts)
    ensures Aligned(|s|)
  {
    hide Aligned, EncTok;
    AlignedSmall();
    if ts == [] then [] else
      AlignedAdd(|EncTok(ts[0])|, |EncToks(ts[1..])|);
      EncTok(ts[0]) + EncToks(ts[1..])
  }

  lemma {:induction false} EncToksCat(a: seq<Token>, b: seq<Token>)
    requires WfToks(a) && WfToks(b)
    ensures WfToks(a + b) && EncToks(a + b) == EncToks(a) + EncToks(b)
  {
    hide EncTok, Aligned;
    if a == [] {
      assert a + b == b;
    } else {
      assert (a + b)[1..] == a[1..] + b;
      EncToksCat(a[1..], b);
      Assoc(EncTok(a[0]), EncToks(a[1..]), EncToks(b));
    }
  }

  lemma EncToksOne(t: Token)
    requires WfTok(t)
    ensures WfToks([t]) && EncToks([t]) == EncTok(t)
  {
    hide EncTok;
    assert [t][1..] == [];
  }

  /** The tokens from `off` to the end of `s`, as the tag reader sees them. */
  function Scan(s: bytes, off: int): (r: Option<seq<Token>>)
    decreases |s| - off
  {
    hide TagAt, TokAt;
    if off == |s| then Some([]) else
    var r := TagAt(s, off);
    if r.next < 0 || r.next > |s| || r.tag == END then None else
    var rest := Scan(s, r.next);
    if rest.None? then None else Some([TokAt(s, off)] + rest.value)
  }

  /** Scanning encoded tokens gives them back. */
  lemma {:induction false} ScanEnc(s: bytes, off: int, ts: seq<Token>)
    requires WfToks(ts) && |s| < TWO31 && Aligned(off) && At(s, off, EncToks(ts)) && off + |EncToks(ts)| == |s|
    ensures Scan(s, off) == Some(ts)
    decreases |ts|
  {
    hide EncTok, Aligned, TagAt, TokAt, At;
    if ts != [] {
      var t, rest := ts[0], ts[1..];
      AtSplit(s, off, EncTok(t), EncToks(rest));
      TokOfEnc(s, off, t);
      AlignedAdd(off, |EncTok(t)|);
      ScanEnc(s, off + |EncTok(t)|, rest);
      assert ts == [t] + rest;
    }
  }

  /** Whatever can be scanned is the encoding of what it scans to. */
  lemma {:induction false} EncScan(s: bytes, off: int)
    requires |s| < TWO31 && Aligned(off) && Scan(s, off).Some?
    ensures WfToks(Scan(s, off).value) && At(s, off, EncToks(Scan(s, off).value))
    ensures off + |EncToks(Scan(s, off).value)| == |s|
    decreases |s| - off
  {
    hide EncTok, Aligned, TagAt, TokAt, At;
    if off == |s| {
      AtEmpty(s, off);
    } else {
      TokAtTag(s, off);
      var t := TokAt(s, off);
      var next := TagAt(s, off).next;
      EncScan(s, next);
      var rest := Scan(s, next).value;
      var ts := Scan(s, off).value;
      assert ts[1..] == rest && ts[0] == t;
      AtSplit(s, off, EncTok(t), EncToks(rest));
    }
  }

  /** A terminated run of tags can be read in one way only. */
  lemma {:induction false} OneReading(s: bytes, off: int, a: seq<Token>, b: seq<Token>)
    requires |s| < TWO31 && Aligned(off) && WfToks(a) && WfToks(b)
    requires At(s, off, EncToks(a)) && At(s, off + |EncToks(a)|, Word(END))
    requires At(s, off, EncToks(b)) && At(s, off + |EncToks(b)|, Word(END))
    ensures a == b
    decreases |a|
  {
    hide EncTok, Aligned, TagAt, TokAt, At, Word;
    if a == [] || b == [] {
      EndTag(s, off);
      if a != [] { FirstTok(s, off, a); }
      if b != [] { FirstTok(s, off, b); }
    } else {
      FirstTok(s, off, a);
      FirstTok(s, off, b);
      OneReading(s, off + |EncTok(a[0])|, a[1..], b[1..]);
      assert a == [a[0]] + a[1..] && b == [b[0]] + b[1..];
    }
  }

  lemma FirstTok(s: bytes, off: int, a: seq<Token>)
    requires |s| < TWO31 && Aligned(off) && WfToks(a) && a != [] && At(s, off, EncToks(a))
    ensures WfToks(a[1..]) && EncToks(a) == EncTok(a[0]) + EncToks(a[1..]) && Aligned(off + |EncTok(a[0])|)
    ensures TokAt.requires(s, off) && TokAt(s, off) == a[0] && At(s, off + |EncTok(a[0])|, EncToks(a[1..]))
    ensures At(s, off, EncTok(a[0])) && TagAt(s, off).tag == Code(a[0]) != END
    ensures TagAt(s, off).next == off + |EncTok(a[0])|
  {
    hide EncTok, Aligned, TagAt, TokAt, At;
    AtSplit(s, off, EncTok(a[0]), EncToks(a[1..]));
    TokOfEnc(s, off, a[0]);
    AlignedAdd(off, |EncTok(a[0])|);
    InBlock(s, off, EncTok(a[0]));
  }

  // ---------------------------------------------------------------- balanced runs

  /** The tags of a forest. */
  function Flatten(f: Forest): (ts: seq<Token>)
  {
    match f
    case Nil => []
    case Item(tok, rest) => [tok] + Flatten(rest)
    case Node(name, pad, body, rest) => [Begin(name, pad)] + Flatten(body) + [EndNode] + Flatten(rest)
  }

  lemma {:induction false} FlattenEnc(f: Forest)
    requires Wf(f)
    ensures WfToks(Flatten(f)) && EncToks(Flatten(f)) == Enc(f)
  {
    hide EncTok, Aligned, EncToks;
    match f
    case Nil => NoToks();
    case Item(tok, rest) =>
      FlattenEnc(rest);
      EncToksOne(tok);
      EncToksCat([tok], Flatten(rest));
    case Node(name, pad, body, rest) =>
      FlattenEnc(body);
      FlattenEnc(rest);
      EncToksOne(Begin(name, pad));
      EncToksOne(EndNode);
      EncToksCat([Begin(name, pad)], Flatten(body));
      EncToksCat([Begin(name, pad)] + Flatten(body), [EndNode]);
      EncToksCat([Begin(name, pad)] + Flatten(body) + [EndNode], Flatten(rest));
  }

  lemma NoToks()
    ensures EncToks([]) == []
  {
  }

  // ---------------------------------------------------------------- what the tags say

  datatype Entry = Open(name: bytes) | Close | Set(name: bytes, val: bytes)

  /** Every property name resolves in `t` once `shift` is added to its offset, and there are no NOPs. */
  predicate Resolved(ts: seq<Token>, t: bytes, shift: int)
  {
    forall i | 0 <= i < |ts| :: ResolvedTok(ts[i], t, shift)
  }

  predicate ResolvedTok(tok: Token, t: bytes, shift: int)
  {
    !tok.Nop? && (tok.Prop? ==> NameAt(t, tok.nameoff + shift).Some?)
  }

  function EntryOf(tok: Token, t: bytes, shift: int): (e: Entry)
    requires ResolvedTok(tok, t, shift)
  {
    match tok
    case Begin(name, _) => Open(name)
    case EndNode => Close
    case Prop(no, val, _) => Set(NameAt(t, no + shift).value, val)
  }

  function LogOf(ts: seq<Token>, t: bytes, shift: int): (log: seq<Entry>)
    requires Resolved(ts, t, shift)
    ensures |log| == |ts|
  {
    seq(|ts|, i requires 0 <= i < |ts| => EntryOf(ts[i], t, shift))
  }

  /** The calls that write the tree `a`. */
  function Script(a: Tree): (log: seq<Entry>)
  {
    match a
    case Done => []
    case Attr(name, val, rest) => [Set(name, val)] + Script(rest)
    case Sub(name, body, rest) => [Open(name)] + Script(body) + [Close] + Script(rest)
  }

  lemma LogCat(a: seq<Token>, b: seq<Token>, t: bytes, shift: int)
    requires Resolved(a + b, t, shift)
    ensures Resolved(a, t, shift) && Resolved(b, t, shift)
    ensures LogOf(a + b, t, shift) == LogOf(a, t, shift) + LogOf(b, t, shift)
  {
    hide ResolvedTok, EntryOf;
    assert forall i | 0 <= i < |a| :: (a + b)[i] == a[i];
    assert forall i | 0 <= i < |b| :: (a + b)[|a| + i] == b[i];
  }

  /** The log of a balanced run is the script of its tree. */
  lemma {:induction false} FlattenLog(f: Forest, t: bytes)
    requires Wf(f) && Resolved(Flatten(f), t, 0)
    ensures Named(f, t) && LogOf(Flatten(f), t, 0) == Script(Abs(f, t))
  {
    hide Resolved, LogOf, NameAt, WfTok;
    match f
    case Nil => LogNil(t);
    case Item(tok, rest) =>
      LogCat([tok], Flatten(rest), t, 0);
      LogOne(tok, t);
      FlattenLog(rest, t);
    case Node(name, pad, body, rest) =>
      LogCat([Begin(name, pad)] + Flatten(body) + [EndNode], Flatten(rest), t, 0);
      LogCat([Begin(name, pad)] + Flatten(body), [EndNode], t, 0);
      LogCat([Begin(name, pad)], Flatten(body), t, 0);
      LogOne(Begin(name, pad), t);
      LogOne(EndNode, t);
      FlattenLog(body, t);
      FlattenLog(rest, t);
  }

  lemma LogNil(t: bytes)
    ensures Resolved([], t, 0) && LogOf([], t, 0) == []
  {
  }

  lemma LogOne(tok: Token, t: bytes)
    requires Resolved([tok], t, 0)
    ensures ResolvedTok(tok, t, 0) && LogOf([tok], t, 0) == [EntryOf(tok, t, 0)]
  {
    assert ResolvedTok([tok][0], t, 0);
  }

  /** The forest that a run of tags spells when its log is the script of `a`. */
  function Grow(a: Tree, ts: seq<Token>): (f: Forest)
    decreases a
  {
    if |ts| != |Script(a)| then Nil else
    match a
    case Done => Nil
    case Attr(_, _, rest) => Item(ts[0], Grow(rest, ts[1..]))
    case Sub(_, body, rest) =>
      var k := |Script(body)|;
      if !ts[0].Begin? then Nil else
      Node(ts[0].name, ts[0].pad, Grow(body, ts[1..k + 1]), Grow(rest, ts[k + 2..]))
  }

  /** Such a run is balanced and spells `a`. */
  lemma {:induction false} GrowIs(a: Tree, ts: seq<Token>, t: bytes)
    requires WfToks(ts) && Resolved(ts, t, 0) && LogOf(ts, t, 0) == Script(a)
    ensures var f := Grow(a, ts); Wf(f) && Flatten(f) == ts && Named(f, t) && Abs(f, t) == a
    decreases a
  {
    hide NameAt, WfTok;
    match a
    case Done =>
    case Attr(name, val, rest) =>
      assert Script(a)[0] == Set(name, val) && Script(a)[1..] == Script(rest);
      assert ts == [ts[0]] + ts[1..];
      LogCat([ts[0]], ts[1..], t, 0);
      assert EntryOf(ts[0], t, 0) == LogOf(ts, t, 0)[0];
      assert LogOf(ts[1..], t, 0) == LogOf(ts, t, 0)[1..];
      GrowIs(rest, ts[1..], t);
    case Sub(name, body, rest) =>
      var k := |Script(body)|;
      SubRun(name, body, rest, ts, t);
      GrowIs(body, ts[1..k + 1], t);
      GrowIs(rest, ts[k + 2..], t);
      RunParts(ts, k);
  }

  lemma RunParts(ts: seq<Token>, k: nat)
    requires k + 2 <= |ts|
    ensures ts == [ts[0]] + ts[1..k + 1] + [ts[k + 1]] + ts[k + 2..]
  {
  }

  /** A run whose log is the script of one node and its siblings. */
  lemma SubRun(name: bytes, body: Tree, rest: Tree, ts: seq<Token>, t: bytes)
    requires WfToks(ts) && Resolved(ts, t, 0) && LogOf(ts, t, 0) == Script(Sub(name, body, rest))
    ensures var k := |Script(body)|;
      && k + 2 <= |ts| && |ts| == |Script(Sub(name, body, rest))|
      && ts[0].Begin? && ts[0].name == name && WfTok(ts[0]) && ts[k + 1].EndNode?
      && WfToks(ts[1..k + 1]) && Resolved(ts[1..k + 1], t, 0) && LogOf(ts[1..k + 1], t, 0) == Script(body)
      && WfToks(ts[k + 2..]) && Resolved(ts[k + 2..], t, 0) && LogOf(ts[k + 2..], t, 0) == Script(rest)
  {
    hide NameAt, WfTok;
    var k := |Script(body)|;
    ScriptParts(name, body, rest);
    CutRun(ts, k, t);
    assert ResolvedTok(ts[0], t, 0) && EntryOf(ts[0], t, 0) == LogOf(ts, t, 0)[0];
    assert ResolvedTok(ts[k + 1], t, 0) && EntryOf(ts[k + 1], t, 0) == LogOf(ts, t, 0)[k + 1];
  }

  lemma ScriptParts(name: bytes, body: Tree, rest: Tree)
    ensures var s, k := Script(Sub(name, body, rest)), |Script(body)|;
      && k + 2 <= |s| && s[0] == Open(name) && s[1..k + 1] == Script(body) && s[k + 1] == Close
      && s[k + 2..] == Script(rest)
  {
    FourParts(Open(name), Script(body), Close, Script(rest));
  }

  lemma FourParts(a: Entry, b: seq<Entry>, c: Entry, d: seq<Entry>)
    ensures var s, k := [a] + b + [c] + d, |b|;
      |s| == k + 2 + |d| && s[0] == a && s[1..k + 1] == b && s[k + 1] == c && s[k + 2..] == d
  {
  }

  lemma CutRun(ts: seq<Token>, k: nat, t: bytes)
    requires k + 2 <= |ts| && WfToks(ts) && Resolved(ts, t, 0)
    ensures WfToks(ts[1..k + 1]) && Resolved(ts[1..k + 1], t, 0) && WfToks(ts[k + 2..]) && Resolved(ts[k + 2..], t, 0)
    ensures LogOf(ts[1..k + 1], t, 0) == LogOf(ts, t, 0)[1..k + 1]
    ensures LogOf(ts[k + 2..], t, 0) == LogOf(ts, t, 0)[k + 2..]
  {
    hide NameAt, WfTok, EntryOf, ResolvedTok;
  }

  // ---------------------------------------------------------------- when a run is a tree

  /** `s` holds the tags `ts` and the END tag. */
  ghost predicate HoldsRun(s: bytes, ts: seq<Token>)
  {
    WfToks(ts) && |s| < TWO31 && At(s, 0, EncToks(ts)) && At(s, |EncToks(ts)|, Word(END))
  }

  /** A terminated run parses to a forest exactly when it is that forest's run of tags. */
  lemma RunIsForest(s: bytes, ts: seq<Token>, f: Forest)
    requires HoldsRun(s, ts)
    ensures ForestOf(s) == Some(f) <==> Wf(f) && Flatten(f) == ts
  {
    hide EncTok, EncToks, ForestOf, At, Word, Enc, Aligned;
    AlignedSmall();
    if Wf(f) && Flatten(f) == ts {
      FlattenEnc(f);
      HoldsParses(s, f);
    }
    if ForestOf(s) == Some(f) {
      ParsesHolds(s, f);
      FlattenEnc(f);
      OneReading(s, 0, ts, Flatten(f));
    }
  }

  /** A terminated run reads as the tree `a` exactly when its log is the script of `a`. */
  lemma RunIsTree(s: bytes, ts: seq<Token>, t: bytes, a: Tree)
    requires HoldsRun(s, ts) && Resolved(ts, t, 0)
    ensures ReadsTree(s, t, a) <==> LogOf(ts, t, 0) == Script(a)
  {
    hide HoldsRun, ForestOf, LogOf, NameAt, Resolved;
    if LogOf(ts, t, 0) == Script(a) {
      RunWf(s, ts);
      GrowIs(a, ts, t);
      RunIsForest(s, ts, Grow(a, ts));
    }
    if ReadsTree(s, t, a) {
      var f := ForestOf(s).value;
      RunIsForest(s, ts, f);
      FlattenLog(f, t);
    }
  }

  lemma RunWf(s: bytes, ts: seq<Token>)
    requires HoldsRun(s, ts)
    ensures WfToks(ts)
  {
  }

  /** A client that reads structure block `s` with strings block `t` sees the tree `a`. */
  predicate ReadsTree(s: bytes, t: bytes, a: Tree)
  {
    ForestOf(s).Some? && Named(ForestOf(s).value, t) && Abs(ForestOf(s).value, t) == a
  }
}
