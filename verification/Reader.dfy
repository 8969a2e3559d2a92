/** The read-only half of libfdt as it runs: loops over offsets, each proved against the walk it computes. */
module Reader {
  import opened Bytes
  import opened Format
  import opened Tree
  import opened Blob
  import W = Walk

  predicate IsInt(n: int) { -TWO31 <= n < TWO31 }

  /** `fdt_check_node_offset_`. */
  method CheckNodeOffset(fdt: array<byte>, off: int) returns (r: int)
    requires Sane(fdt[..]) && IsInt(off)
    ensures r == W.CheckNode(Struct(fdt[..]), off) && IsInt(r)
  {
    hide Field, Unword, Struct, TagAt;
    if off < 0 || !Aligned(off) {
      return -ERR_BADOFFSET;
    }
    var tag, next := NextTag(fdt, off);
    if tag != BEGIN_NODE {
      return -ERR_BADOFFSET;
    }
    return next;
  }

  /** `fdt_check_prop_offset_`. */
  method CheckPropOffset(fdt: array<byte>, off: int) returns (r: int)
    requires Sane(fdt[..]) && IsInt(off)
    ensures r == W.CheckProp(Struct(fdt[..]), off) && IsInt(r)
  {
    hide Field, Unword, Struct, TagAt;
    if off < 0 || !Aligned(off) {
      return -ERR_BADOFFSET;
    }
    var tag, next := NextTag(fdt, off);
    if tag != PROP {
      return -ERR_BADOFFSET;
    }
    return next;
  }

  /** `fdt_next_node` with a depth counter. */
  method NextNode(fdt: array<byte>, offset: int, depth: int) returns (r: int, d: int)
    requires Sane(fdt[..]) && IsInt(offset)
    ensures W.Step(r, d) == W.NextNode(Struct(fdt[..]), offset, depth) && IsInt(r)
  {
    hide Field, Unword, Struct, TagAt;
    ghost var s := Struct(fdt[..]);
    var next := 0;
    d := depth;
    if offset >= 0 {
      next := CheckNodeOffset(fdt, offset);
      if next < 0 {
        return next, d;
      }
    }
    ghost var start := next;
    var tag;
    r := next;
    tag, next := NextTag(fdt, r);
    while tag != BEGIN_NODE
      invariant IsInt(r) && r >= 0 && IsInt(next)
      invariant TagResult(tag, next) == TagAt(s, r)
      invariant W.ScanNode(s, start, depth) == W.ScanNode(s, r, d)
      decreases |s| - r
    {
      if tag == END_NODE {
        d := d - 1;
        if d < 0 {
          return next, d;
        }
      } else if tag == END {
        if next >= 0 {
          return -ERR_NOTFOUND, d;
        }
        return next, d;
      }
      r := next;
      tag, next := NextTag(fdt, r);
    }
    d := d + 1;
  }

  /** `fdt_first_subnode`. */
  method FirstSubnode(fdt: array<byte>, offset: int) returns (r: int)
    requires Sane(fdt[..]) && IsInt(offset)
    ensures r == W.FirstSubnode(Struct(fdt[..]), offset) && IsInt(r)
  {
    var d;
    r, d := NextNode(fdt, offset, 0);
    if r < 0 || d != 1 {
      r := -ERR_NOTFOUND;
    }
  }

  /** `fdt_next_subnode`. */
  method NextSubnode(fdt: array<byte>, offset: int) returns (r: int)
    requires Sane(fdt[..]) && IsInt(offset) && offset >= 0
    ensures r == W.NextSub(Struct(fdt[..]), offset, 1) && IsInt(r)
  {
    hide Field, Unword, Struct, TagAt, W.NextNode;
    ghost var s := Struct(fdt[..]);
    var d;
    r, d := NextNode(fdt, offset, 1);
    if r < 0 || d < 1 {
      return -ERR_NOTFOUND;
    }
    while d > 1
      invariant 0 <= r && IsInt(r) && d >= 1
      invariant W.NextSub(s, offset, 1) == if d > 1 then W.NextSub(s, r, d) else r
      decreases |s| - r
    {
      var o, e := NextNode(fdt, r, d);
      if o < 0 || e < 1 {
        return -ERR_NOTFOUND;
      }
      r, d := o, e;
    }
  }

  /** `fdt_node_end_offset_`. */
  method NodeEndOffset(fdt: array<byte>, offset: int) returns (r: int)
    requires Sane(fdt[..]) && IsInt(offset)
    ensures r == W.NodeEnd(Struct(fdt[..]), offset, 0) && IsInt(r)
  {
    hide Field, Unword, Struct, TagAt, W.NextNode;
    ghost var s := Struct(fdt[..]);
    var d := 0;
    r := offset;
    while r >= 0 && d >= 0
      invariant IsInt(r)
      invariant W.NodeEnd(s, offset, 0) == W.NodeEnd(s, r, d)
      decreases W.Left(s, r)
    {
      r, d := NextNode(fdt, r, d);
    }
  }

  /** `fdt_get_name`: the error code, or 0 and the name. */
  method GetName(fdt: array<byte>, offset: int) returns (err: int, name: bytes)
    requires Sane(fdt[..]) && IsInt(offset)
    ensures err <= 0
    ensures err == 0 <==> RoProbe(fdt[..]) >= 0 && W.CheckNode(Struct(fdt[..]), offset) >= 0
    ensures err == 0 ==> name == W.NodeName(Struct(fdt[..]), offset) && NoNul(name)
    ensures err < 0 && RoProbe(fdt[..]) >= 0 ==> err == W.CheckNode(Struct(fdt[..]), offset)
  {
    hide Field, Unword, TagAt, RoProbe;
    var probe := RoProbe(fdt[..]);
    if probe < 0 {
      return probe, [];
    }
    var next := CheckNodeOffset(fdt, offset);
    if next < 0 {
      return next, [];
    }
    ghost var s := Struct(fdt[..]);
    var start := Field(fdt[..], OFF_STRUCT) + offset + 4;
    NameInside(s, offset);
    var k := start;
    while fdt[k] != 0
      invariant start <= k < Field(fdt[..], OFF_STRUCT) + |s|
      invariant NulAt(s, offset + 4) == NulAt(s, offset + 4 + k - start) < |s|
      decreases fdt.Length - k
    {
      k := k + 1;
    }
    err, name := 0, fdt[start..k];
    SliceOfSlice(fdt[..], start - offset - 4, |s|, offset + 4, offset + 4 + k - start);
  }

  lemma NameInside(s: bytes, off: int)
    requires W.CheckNode(s, off) >= 0
    ensures off + 4 <= NulAt(s, off + 4) < |s|
  {
  }

  /** `fdt_subnode_offset_namelen`. */
  method SubnodeOffset(fdt: array<byte>, parent: int, name: bytes) returns (r: int)
    requires Live(fdt[..]) && IsInt(parent)
    ensures r == W.FindSub(Struct(fdt[..]), parent, 0, name) && IsInt(r)
  {
    hide Field, Unword, Struct, TagAt, W.NextNode, W.NodeName, W.NameMatches;
    ghost var s := Struct(fdt[..]);
    var d := 0;
    r := parent;
    while r >= 0 && d >= 0
      invariant IsInt(r)
      invariant W.FindSub(s, parent, 0, name) == W.FindSub(s, r, d, name)
      decreases W.Left(s, r)
    {
      if d == 1 {
        var eq := NodeNameEq(fdt, r, name);
        if eq {
          return r;
        }
      }
      r, d := NextNode(fdt, r, d);
    }
    if d < 0 {
      return -ERR_NOTFOUND;
    }
  }

  /** `fdt_nodename_eq_`. */
  method NodeNameEq(fdt: array<byte>, offset: int, want: bytes) returns (eq: bool)
    requires Live(fdt[..]) && IsInt(offset)
    ensures eq == W.NodeNameEq(Struct(fdt[..]), offset, want)
  {
    hide Field, Unword, Struct, TagAt, W.NodeName;
    var err, name := GetName(fdt, offset);
    if err < 0 || |name| < |want| || name[..|want|] != want {
      return false;
    }
    // p[len] is the terminator exactly when the whole name has been compared
    return |name| == |want| || (W.COMMERCIAL_AT !in want && name[|want|] == W.COMMERCIAL_AT);
  }

  /** `nextprop_`. */
  method NextProp(fdt: array<byte>, offset: int) returns (r: int)
    requires Sane(fdt[..]) && IsInt(offset)
    ensures r == W.NextProp(Struct(fdt[..]), offset) && IsInt(r)
  {
    hide Field, Unword, Struct, TagAt;
    ghost var s := Struct(fdt[..]);
    r := offset;
    var tag, next := NextTag(fdt, r);
    while true
      invariant IsInt(r) && IsInt(next)
      invariant TagResult(tag, next) == TagAt(s, r)
      invariant W.NextProp(s, offset) == W.NextProp(s, r)
      decreases |s| - r
    {
      if tag == END {
        return if next >= 0 then -ERR_BADSTRUCTURE else next;
      }
      if tag == PROP {
        return r;
      }
      if tag != NOP {
        return -ERR_NOTFOUND;
      }
      r := next;
      tag, next := NextTag(fdt, r);
    }
  }

  /** `fdt_first_property_offset`. */
  method FirstPropertyOffset(fdt: array<byte>, node: int) returns (r: int)
    requires Sane(fdt[..]) && IsInt(node)
    ensures r == W.FirstPropertyOffset(Struct(fdt[..]), node) && IsInt(r)
  {
    r := CheckNodeOffset(fdt, node);
    if r >= 0 {
      r := NextProp(fdt, r);
    }
  }

  /** `fdt_next_property_offset`. */
  method NextPropertyOffset(fdt: array<byte>, off: int) returns (r: int)
    requires Sane(fdt[..]) && IsInt(off)
    ensures r == W.NextPropertyOffset(Struct(fdt[..]), off) && IsInt(r)
  {
    r := CheckPropOffset(fdt, off);
    if r >= 0 {
      r := NextProp(fdt, r);
    }
  }

  /** `fdt_get_string`: the error code, or 0 and the string. */
  method GetString(fdt: array<byte>, stroffset: int) returns (err: int, str: bytes)
    requires Sane(fdt[..]) && Field(fdt[..], MAGIC) == FDT_MAGIC && IsInt(stroffset)
    ensures err <= 0 && (err == 0 ==> Live(fdt[..]))
    ensures Live(fdt[..]) ==> (if err == 0 then Some(str) else None) == NameAt(Strings(fdt[..]), stroffset)
  {
    hide Unword, Field, NulAt;
    var totalsize := RoProbe(fdt[..]);
    if totalsize < 0 {
      return totalsize, [];
    }
    var offStrings := Field(fdt[..], OFF_STRINGS);
    var sizeStrings := Field(fdt[..], SIZE_STRINGS);
    ghost var t := Strings(fdt[..]);
    hide RoProbe, Struct;
    WrapFree(stroffset, offStrings);
    var absoffset := (stroffset + offStrings) % TWO32;
    if absoffset >= totalsize || stroffset < 0 || stroffset >= sizeStrings {
      return -ERR_BADOFFSET, [];
    }
    assert absoffset == stroffset + offStrings;
    var len := totalsize - absoffset;
    assert len >= sizeStrings - stroffset;
    if sizeStrings - stroffset < len {
      len := sizeStrings - stroffset;
    }
    var k := MemChrNul(fdt, absoffset, len);
    SliceOfSlice(fdt[..], offStrings, sizeStrings, stroffset, sizeStrings);
    NulAtShift(t, stroffset);
    if k == len {
      return -ERR_TRUNCATED, [];
    }
    err, str := 0, fdt[absoffset..absoffset + k];
    SliceOfSlice(fdt[..], offStrings, sizeStrings, stroffset, stroffset + k);
  }

  lemma WrapFree(a: int, b: int)
    requires IsInt(a) && 0 <= b < TWO31
    ensures 0 <= a ==> (a + b) % TWO32 == a + b
  {
  }

  /** `memchr` for the terminator. */
  method MemChrNul(mem: array<byte>, start: nat, len: nat) returns (k: nat)
    requires start + len <= mem.Length
    ensures k == NulAt(mem[..][start..start + len], 0)
  {
    ghost var t := mem[..][start..start + len];
    k := 0;
    while k < len && mem[start + k] != 0
      invariant 0 <= k <= len
      invariant NulAt(t, 0) == NulAt(t, k)
    {
      k := k + 1;
    }
  }

  lemma {:induction false} NulAtShift(t: bytes, i: nat)
    requires i <= |t|
    ensures NulAt(t, i) == i + NulAt(t[i..], 0)
    decreases |t| - i
  {
    NulAtDrop(t, i, 0);
  }

  lemma {:induction false} NulAtDrop(t: bytes, i: nat, j: nat)
    requires i + j <= |t|
    ensures NulAt(t, i + j) == i + NulAt(t[i..], j)
    decreases |t| - j
  {
    if i + j < |t| && t[i + j] != 0 {
      NulAtDrop(t, i, j + 1);
    }
  }

  /** A 32-bit word as a C `int`. */
  function Signed(v: int): (r: int)
    requires 0 <= v < TWO32
    ensures IsInt(r)
  {
    if v < TWO31 then v else v - TWO32
  }

  /** The word at structure offset `off`. */
  method StructWord(fdt: array<byte>, off: int) returns (v: int)
    requires Sane(fdt[..]) && 0 <= off && off + 4 <= |Struct(fdt[..])|
    ensures v == Unword(Struct(fdt[..])[off..off + 4]) && 0 <= v < TWO32
  {
    hide Unword, Field;
    var p := Field(fdt[..], OFF_STRUCT) + off;
    v := Unword(fdt[p..p + 4]);
    SliceOfSlice(fdt[..], p - off, |Struct(fdt[..])|, off, off + 4);
  }

  /** `fdt_get_property_namelen_`: the offset of the property or an error code. */
  method GetProperty(fdt: array<byte>, node: int, name: bytes) returns (r: int)
    requires Live(fdt[..]) && IsInt(node)
    ensures r == W.GetProperty(Struct(fdt[..]), Strings(fdt[..]), node, name) && IsInt(r)
  {
    hide Field, Unword, Struct, Strings, TagAt, NameAt, W.NextPropertyOffset, W.FirstPropertyOffset;
    ghost var s, t := Struct(fdt[..]), Strings(fdt[..]);
    r := FirstPropertyOffset(fdt, node);
    while r >= 0
      invariant IsInt(r)
      invariant W.GetProperty(s, t, node, name) == W.FindProp(s, t, r, name)
      decreases W.Left(s, r)
    {
      var c := CheckPropOffset(fdt, r);
      if c < 0 {
        return -ERR_INTERNAL;
      }
      var nameoff := StructWord(fdt, r + 8);
      var err, str := GetString(fdt, Signed(nameoff));
      OutOfRange(t, nameoff);
      if err == 0 && str == name {
        return r;
      }
      r := NextPropertyOffset(fdt, r);
    }
  }

  /** A name offset that is negative as a C `int` resolves no more than the same word read unsigned. */
  lemma OutOfRange(t: bytes, v: int)
    requires |t| < TWO31 && 0 <= v < TWO32
    ensures NameAt(t, Signed(v)) == NameAt(t, v)
  {
  }

  lemma PropLenInt(s: bytes, off: int)
    requires W.CheckProp(s, off) >= 0 && |s| < TWO31
    ensures off + 12 + W.PropLen(s, off) <= |s| && 0 <= W.PropLen(s, off)
    ensures W.CheckProp(s, off) == Align4(off + 12 + W.PropLen(s, off))
  {
  }

  /** `fdt_getprop_by_offset`: the error code, or 0, the name and the value. */
  method GetPropByOffset(fdt: array<byte>, off: int) returns (err: int, name: bytes, val: bytes)
    requires Sane(fdt[..]) && Field(fdt[..], MAGIC) == FDT_MAGIC && IsInt(off)
    ensures err <= 0
    ensures var s, t := Struct(fdt[..]), Strings(fdt[..]);
      err == 0 <==> W.CheckProp(s, off) >= 0 && Live(fdt[..]) && NameAt(t, W.PropNameOff(s, off)).Some?
    ensures var s, t := Struct(fdt[..]), Strings(fdt[..]);
      err == 0 ==> NameAt(t, W.PropNameOff(s, off)) == Some(name) && off + 12 + W.PropLen(s, off) <= |s|
                   && val == s[off + 12..off + 12 + W.PropLen(s, off)]
  {
    hide Field, Unword, TagAt, NameAt;
    var c := CheckPropOffset(fdt, off);
    if c < 0 {
      return c, [], [];
    }
    PropLenInt(Struct(fdt[..]), off);
    var len := StructWord(fdt, off + 4);
    var nameoff := StructWord(fdt, off + 8);
    err, name := GetString(fdt, Signed(nameoff));
    OutOfRange(Strings(fdt[..]), nameoff);
    if err != 0 {
      return err, [], [];
    }
    var p := Field(fdt[..], OFF_STRUCT) + off + 12;
    val := fdt[p..p + len];
    SliceOfSlice(fdt[..], p - off - 12, |Struct(fdt[..])|, off + 12, off + 12 + len);
  }

  // ---------------------------------------------------------------- the string table

  /** The first place in `t` where the terminated string `s` stands. */
  function FindStr(t: bytes, s: bytes, from: nat): (r: Option<nat>)
    ensures r.Some? ==> from <= r.value && At(t, r.value, CStr(s))
    decreases |t| - from
  {
    if from + |s| + 1 > |t| then None
    else if t[from..from + |s| + 1] == CStr(s) then Some(from)
    else FindStr(t, s, from + 1)
  }

  /** `fdt_find_string_` on the table of `size` bytes at `base`. */
  method FindString(fdt: array<byte>, base: nat, size: nat, s: bytes) returns (r: Option<nat>)
    requires base + size <= fdt.Length
    ensures r == FindStr(fdt[base..base + size], s, 0)
  {
    ghost var t := fdt[..][base..base + size];
    var last := size - (|s| + 1);
    var p := 0;
    while p <= last
      invariant 0 <= p
      invariant FindStr(t, s, 0) == FindStr(t, s, p)
      decreases last - p
    {
      SliceOfSlice(fdt[..], base, size, p, p + |s| + 1);
      if fdt[base + p..base + p + |s| + 1] == CStr(s) {
        return Some(p);
      }
      p := p + 1;
    }
    return None;
  }
}
