/** The validator (`fdt_check_header`, `fdt_check_full`): what it accepts is exactly the well-formed blobs. */
module Checker {
  import opened Bytes
  import opened Format
  import opened Tree
  import opened Blob
  import opened Reserves
  import opened TokenLog
  import R = Reader
  import W = Walk

  // ---------------------------------------------------------------- the header

  /** `check_off_`. */
  predicate CheckOff(hdrsize: int, totalsize: int, off: int)
  {
    off >= hdrsize && off <= totalsize
  }

  /** `check_block_`, with the source's 32-bit sum. */
  predicate CheckBlock(hdrsize: int, totalsize: int, base: int, size: int)
  {
    && CheckOff(hdrsize, totalsize, base)
    && (base + size) % TWO32 >= base
    && CheckOff(hdrsize, totalsize, (base + size) % TWO32)
  }

  /** The 32-bit checks accept exactly the blocks inside the blob. */
  lemma CheckBlockIs(hdrsize: int, totalsize: int, base: int, size: int)
    requires 0 <= hdrsize && 0 <= totalsize < TWO32 && 0 <= base < TWO32 && 0 <= size < TWO32
    ensures CheckBlock(hdrsize, totalsize, base, size) <==> hdrsize <= base && base + size <= totalsize
  {
  }

  /** `fdt_check_header` for version 17. */
  function CheckHeader(b: bytes): (err: int)
    requires |b| >= HEADER_SIZE
    ensures err <= 0
  {
    var total := Field(b, TOTALSIZE);
    if Field(b, MAGIC) != FDT_MAGIC then -ERR_BADMAGIC
    else if Field(b, LAST_COMP) > 17 then -ERR_BADVERSION
    else if total < HEADER_SIZE || total > INT_MAX then -ERR_TRUNCATED
    else if !CheckOff(HEADER_SIZE, total, Field(b, OFF_RSVMAP)) then -ERR_TRUNCATED
    else if !CheckBlock(HEADER_SIZE, total, Field(b, OFF_STRUCT), Field(b, SIZE_STRUCT)) then -ERR_TRUNCATED
    else if !CheckBlock(HEADER_SIZE, total, Field(b, OFF_STRINGS), Field(b, SIZE_STRINGS)) then -ERR_TRUNCATED
    else 0
  }

  /** A checked header of a blob that is all there is what every other function relies on. */
  lemma HeaderIs(b: bytes)
    requires HEADER_SIZE <= |b| < TWO31 && Field(b, VERSION) == 17
    ensures CheckHeader(b) == 0 && Field(b, TOTALSIZE) <= |b| <==>
      Sane(b) && Field(b, MAGIC) == FDT_MAGIC && Field(b, LAST_COMP) <= 17
  {
    hide Field, CheckBlock;
    CheckBlockIs(HEADER_SIZE, Field(b, TOTALSIZE), Field(b, OFF_STRUCT), Field(b, SIZE_STRUCT));
    CheckBlockIs(HEADER_SIZE, Field(b, TOTALSIZE), Field(b, OFF_STRINGS), Field(b, SIZE_STRINGS));
  }

  // ---------------------------------------------------------------- the tags

  /** Whether the loop of `fdt_check_full` ends with 0 when it stands at `off`.  `live` says that names can be read. */
  predicate Accepts(s: bytes, t: bytes, live: bool, off: int, depth: nat, expectEnd: bool)
    decreases |s| - off
  {
    hide Unword, TagAt, NulAt;
    var r := TagAt(s, off);
    if r.next < 0 then false
    else if expectEnd && r.tag != END then false
    else if r.tag == NOP then Accepts(s, t, live, r.next, depth, expectEnd)
    else if r.tag == END then depth == 0
    else if r.tag == BEGIN_NODE then
      && (depth == 0 ==> live && W.CheckNode(s, off) >= 0 && W.NodeName(s, off) == [])
      && Accepts(s, t, live, r.next, depth + 1, expectEnd)
    else if r.tag == END_NODE then depth != 0 && Accepts(s, t, live, r.next, depth - 1, expectEnd || depth == 1)
    else live && NameOk(s, t, off) && Accepts(s, t, live, r.next, depth, expectEnd)
  }

  /** The property at `off` has a name that is terminated inside the strings block. */
  predicate NameOk(s: bytes, t: bytes, off: int)
  {
    W.CheckProp(s, off) >= 0 && NameAt(t, W.PropNameOff(s, off)).Some?
  }

  /** Properties and NOPs, then at most one node, whose name is empty and behind which nothing stands. */
  predicate Rooted(f: Forest)
  {
    match f
    case Nil => true
    case Item(_, rest) => Rooted(rest)
    case Node(name, _, _, rest) => name == [] && rest == Nil
  }

  predicate OnlyNops(f: Forest)
  {
    match f
    case Nil => true
    case Item(tok, rest) => tok.Nop? && OnlyNops(rest)
    case Node(_, _, _, _) => false
  }

  /** The tags from `off` are a balanced body with readable names and its END_NODE, and the loop goes on behind it. */
  predicate BodyThen(s: bytes, t: bytes, off: int, depth: nat)
    requires depth > 0
  {
    var p := Parse(s, off);
    && p.Good? && Named(p.f, t) && TagAt(s, p.stop).tag == END_NODE
    && Accepts(s, t, true, p.stop + 4, depth - 1, depth == 1)
  }

  /** Inside a node the loop accepts exactly that. */
  lemma {:induction false} AcceptsBody(s: bytes, t: bytes, off: int, depth: nat)
    requires |s| < TWO31 && Aligned(off) && depth > 0
    ensures Accepts(s, t, true, off, depth, false) <==> BodyThen(s, t, off, depth)
    decreases |s| - off
  {
    hide Unword, TagAt, TokAt, Word, NulAt, NameAt, BodyThen, Accepts, Align4, Parse;
    var r := TagAt(s, off);
    TagShape(s, off);
    if r.next < 0 || r.next > |s| || r.tag == END_NODE || r.tag == END {
      BodyStops(s, t, off, depth);
    } else if r.tag == BEGIN_NODE {
      AcceptsBody(s, t, r.next, depth + 1);
      var body := Parse(s, r.next);
      if body.Good? && TagAt(s, body.stop).tag == END_NODE {
        StopAligned(s, r.next);
        AcceptsBody(s, t, body.stop + 4, depth);
      }
      BodyBegins(s, t, off, depth);
    } else {
      AcceptsBody(s, t, r.next, depth);
      BodySteps(s, t, off, depth);
    }
  }

  lemma BodyStops(s: bytes, t: bytes, off: int, depth: nat)
    requires |s| < TWO31 && Aligned(off) && depth > 0
    requires var r := TagAt(s, off); r.next < 0 || r.next > |s| || r.tag == END_NODE || r.tag == END
    ensures Accepts(s, t, true, off, depth, false) <==> BodyThen(s, t, off, depth)
  {
    hide Unword, TagAt, TokAt;
    var r := TagAt(s, off);
    TagShape(s, off);
    if r.next < 0 || r.next > |s| {
      AcceptsOver(s, t, true, r.next, depth, false);
      AcceptsOver(s, t, true, r.next, depth + 1, false);
      AcceptsOver(s, t, true, r.next, depth - 1, depth == 1);
    }
  }

  lemma BodyBegins(s: bytes, t: bytes, off: int, depth: nat)
    requires |s| < TWO31 && Aligned(off) && depth > 0
    requires 0 <= TagAt(s, off).next <= |s| && TagAt(s, off).tag == BEGIN_NODE
    requires var r := TagAt(s, off);
      (Accepts(s, t, true, r.next, depth + 1, false) <==> BodyThen(s, t, r.next, depth + 1))
    requires var body := Parse(s, TagAt(s, off).next); body.Good? && TagAt(s, body.stop).tag == END_NODE ==>
      (Accepts(s, t, true, body.stop + 4, depth, false) <==> BodyThen(s, t, body.stop + 4, depth))
    ensures Accepts(s, t, true, off, depth, false) <==> BodyThen(s, t, off, depth)
  {
    hide Unword, TagAt, TokAt, NameAt, W.NodeName, W.CheckNode;
    TagShape(s, off);
  }

  lemma BodySteps(s: bytes, t: bytes, off: int, depth: nat)
    requires |s| < TWO31 && Aligned(off) && depth > 0
    requires 0 <= TagAt(s, off).next <= |s| && (TagAt(s, off).tag == PROP || TagAt(s, off).tag == NOP)
    requires var r := TagAt(s, off);
      (Accepts(s, t, true, r.next, depth, false) <==> BodyThen(s, t, r.next, depth))
    ensures Accepts(s, t, true, off, depth, false) <==> BodyThen(s, t, off, depth)
  {
    hide Unword, TagAt, TokAt, NameAt, W.PropNameOff, W.CheckProp;
    TagShape(s, off);
  }

  /** No tag starts behind the block. */
  lemma AcceptsOver(s: bytes, t: bytes, live: bool, off: int, depth: nat, expectEnd: bool)
    requires off < 0 || off > |s|
    ensures !Accepts(s, t, live, off, depth, expectEnd)
  {
  }

  /** What each kind of tag looks like to the parser. */
  lemma TagShape(s: bytes, off: int)
    requires |s| < TWO31 && Aligned(off)
    ensures var r := TagAt(s, off); r.next >= 0 && (r.tag == END_NODE || r.tag == END) ==> r.next == off + 4 <= |s|
    ensures var r := TagAt(s, off); 0 <= r.next <= |s| ==>
      && (r.tag == BEGIN_NODE ==>
           W.CheckNode(s, off) == r.next && TokAt(s, off).Begin? && TokAt(s, off).name == W.NodeName(s, off))
      && (r.tag == PROP ==>
           W.CheckProp(s, off) == r.next && TokAt(s, off).Prop? && TokAt(s, off).nameoff == W.PropNameOff(s, off))
      && (r.tag == NOP ==> TokAt(s, off) == Nop)
  {
    hide Unword, NulAt;
  }

  lemma StopAligned(s: bytes, off: int)
    requires |s| < TWO31 && Aligned(off) && Parse(s, off).Good?
    ensures Aligned(Parse(s, off).stop) && Parse(s, off).stop >= off
    ensures TagAt(s, Parse(s, off).stop).next == Parse(s, off).stop + 4 <= |s| && Aligned(Parse(s, off).stop + 4)
  {
    var p := Parse(s, off);
    hide Unword, TagAt, Enc, Parse;
    EncParse(s, off);
    TagShape(s, p.stop);
  }

  /** Behind the root node only the END tag is accepted. */
  lemma AcceptsEnd(s: bytes, t: bytes, off: int)
    requires |s| < TWO31 && Aligned(off)
    ensures Accepts(s, t, true, off, 0, true) <==> Parse(s, off) == Good(Nil, off) && TagAt(s, off).tag == END
  {
    hide Unword, TagAt, TokAt;
    TagShape(s, off);
  }

  /** The tags from `off` are properties, NOPs and at most one node, with an empty name, and then the END tag. */
  predicate RootThen(s: bytes, t: bytes, live: bool, off: int)
  {
    var p := Parse(s, off);
    p.Good? && Named(p.f, t) && TagAt(s, p.stop).tag == END && Rooted(p.f) && (live || OnlyNops(p.f))
  }

  /** At the top level the loop accepts exactly that. */
  lemma {:induction false} AcceptsRoot(s: bytes, t: bytes, live: bool, off: int)
    requires |s| < TWO31 && Aligned(off)
    ensures Accepts(s, t, live, off, 0, false) <==> RootThen(s, t, live, off)
    decreases |s| - off
  {
    hide Unword, TagAt, TokAt, Word, NulAt, NameAt, RootThen, Accepts, Align4, Parse, BodyThen;
    var r := TagAt(s, off);
    TagShape(s, off);
    if r.next < 0 || r.next > |s| || r.tag == END_NODE || r.tag == END {
      RootStops(s, t, live, off);
    } else if r.tag == BEGIN_NODE {
      AcceptsBody(s, t, r.next, 1);
      var body := Parse(s, r.next);
      if body.Good? && TagAt(s, body.stop).tag == END_NODE {
        StopAligned(s, r.next);
        AcceptsEnd(s, t, body.stop + 4);
      }
      RootBegins(s, t, live, off);
    } else {
      AcceptsRoot(s, t, live, r.next);
      RootSteps(s, t, live, off);
    }
  }

  lemma RootStops(s: bytes, t: bytes, live: bool, off: int)
    requires |s| < TWO31 && Aligned(off)
    requires var r := TagAt(s, off); r.next < 0 || r.next > |s| || r.tag == END_NODE || r.tag == END
    ensures Accepts(s, t, live, off, 0, false) <==> RootThen(s, t, live, off)
  {
    hide Unword, TagAt, TokAt;
    var r := TagAt(s, off);
    TagShape(s, off);
    if r.next < 0 || r.next > |s| {
      AcceptsOver(s, t, live, r.next, 0, false);
      AcceptsOver(s, t, live, r.next, 1, false);
    }
  }

  lemma RootBegins(s: bytes, t: bytes, live: bool, off: int)
    requires |s| < TWO31 && Aligned(off)
    requires 0 <= TagAt(s, off).next <= |s| && TagAt(s, off).tag == BEGIN_NODE
    requires Accepts(s, t, true, TagAt(s, off).next, 1, false) <==> BodyThen(s, t, TagAt(s, off).next, 1)
    requires var body := Parse(s, TagAt(s, off).next); body.Good? && TagAt(s, body.stop).tag == END_NODE ==>
      (Accepts(s, t, true, body.stop + 4, 0, true) <==>
        Parse(s, body.stop + 4) == Good(Nil, body.stop + 4) && TagAt(s, body.stop + 4).tag == END)
    ensures Accepts(s, t, live, off, 0, false) <==> RootThen(s, t, live, off)
  {
    hide Unword, TagAt, TokAt, NameAt, W.NodeName, W.CheckNode;
    TagShape(s, off);
    var body := Parse(s, TagAt(s, off).next);
    if body.Good? && TagAt(s, body.stop).tag == END_NODE {
      NilStops(s, body.stop + 4);
      var rest := Parse(s, body.stop + 4);
      if rest.Good? {
        var t0 := TokAt(s, off);
        var f := Node(t0.name, t0.pad, body.f, rest.f);
        assert Parse(s, off) == Good(f, rest.stop);
        assert Rooted(f) == (t0.name == [] && rest.f == Nil) && !OnlyNops(f);
        assert Named(f, t) == (Named(body.f, t) && Named(rest.f, t));
        assert Accepts(s, t, live, off, 0, false)
          == (live && t0.name == [] && Accepts(s, t, live, TagAt(s, off).next, 1, false));
      }
    }
  }

  lemma NilStops(s: bytes, off: int)
    ensures Parse(s, off).Good? && Parse(s, off).f == Nil ==> Parse(s, off).stop == off
  {
  }

  lemma RootSteps(s: bytes, t: bytes, live: bool, off: int)
    requires |s| < TWO31 && Aligned(off)
    requires 0 <= TagAt(s, off).next <= |s| && (TagAt(s, off).tag == PROP || TagAt(s, off).tag == NOP)
    requires Accepts(s, t, live, TagAt(s, off).next, 0, false) <==> RootThen(s, t, live, TagAt(s, off).next)
    ensures Accepts(s, t, live, off, 0, false) <==> RootThen(s, t, live, off)
  {
    hide Unword, TagAt, TokAt, NameAt, W.PropNameOff, W.CheckProp;
    TagShape(s, off);
  }

  // ---------------------------------------------------------------- the validator

  /** The blobs the validator is there to accept.  A blob of the largest possible size is one that the name readers
      refuse, so it passes only when there is no name to read. */
  ghost predicate Valid(b: bytes)
  {
    && Sane(b) && Field(b, MAGIC) == FDT_MAGIC && Field(b, LAST_COMP) <= 17
    && CountFrom(b, 0).Some?
    && ForestOf(Struct(b)).Some? && Named(ForestOf(Struct(b)).value, Strings(b)) && Rooted(ForestOf(Struct(b)).value)
    && (Field(b, TOTALSIZE) < INT_MAX || OnlyNops(ForestOf(Struct(b)).value))
  }

  /** `fdt_check_full`: 0 exactly on the valid blobs. */
  method CheckFull(fdt: array<byte>) returns (err: int)
    requires fdt.Length < TWO31 && (HEADER_SIZE <= fdt.Length ==> Field(fdt[..], VERSION) == 17)
    ensures err <= 0
    ensures err == 0 <==> Valid(fdt[..])
    ensures HEADER_SIZE <= fdt.Length && CheckHeader(fdt[..]) != 0 ==> err == CheckHeader(fdt[..])
  {
    hide Field, Unword, TagAt, NulAt, NameAt, Struct, Strings, CheckHeader, Accepts, Sane;
    if fdt.Length < HEADER_SIZE {
      return -ERR_TRUNCATED;
    }
    ghost var b := fdt[..];
    HeaderIs(b);
    err := CheckHeader(fdt[..]);
    if err != 0 {
      return;
    }
    if fdt.Length < Field(fdt[..], TOTALSIZE) {
      return -ERR_TRUNCATED;
    }
    assert fdt[0..] == fdt[..];
    var numMemrsv := NumMemRsv(fdt, 0);
    if numMemrsv < 0 {
      return numMemrsv;
    }
    err := CheckTags(fdt);
    TagsAreValid(b);
  }

  lemma TagsAreValid(b: bytes)
    requires Sane(b) && Field(b, MAGIC) == FDT_MAGIC && Field(b, LAST_COMP) <= 17 && CountFrom(b, 0).Some?
    ensures Accepts(Struct(b), Strings(b), Live(b), 0, 0, false) <==> Valid(b)
  {
    hide Field, TagAt, Struct, Strings, Accepts, Parse, CountFrom;
    AlignedSmall();
    AcceptsRoot(Struct(b), Strings(b), Live(b), 0);
  }

  /** The tag loop of `fdt_check_full`. */
  method CheckTags(fdt: array<byte>) returns (err: int)
    requires Sane(fdt[..]) && Field(fdt[..], MAGIC) == FDT_MAGIC && Field(fdt[..], LAST_COMP) <= 17
    ensures err <= 0
    ensures err == 0 <==> Accepts(Struct(fdt[..]), Strings(fdt[..]), Live(fdt[..]), 0, 0, false)
  {
    hide Field, Unword, TagAt, NulAt, NameAt, Struct, Strings, W.CheckProp, W.CheckNode, Sane, W.PropNameOff;
    ghost var s, t, live := Struct(fdt[..]), Strings(fdt[..]), Live(fdt[..]);
    var offset, nextoffset, depth, expectEnd := 0, 0, 0, false;
    var tag;
    while true
      invariant 0 <= nextoffset && R.IsInt(nextoffset) && 0 <= depth <= |s| && 4 * depth <= nextoffset
      invariant Accepts(s, t, live, 0, 0, false) == Accepts(s, t, live, nextoffset, depth, expectEnd)
      decreases |s| + 4 - nextoffset
    {
      offset := nextoffset;
      tag, nextoffset := NextTag(fdt, offset);
      if nextoffset < 0 {
        return nextoffset;
      }
      if expectEnd && tag != END {
        return -ERR_BADSTRUCTURE;
      }
      if tag == NOP {
      } else if tag == END {
        return if depth != 0 then -ERR_BADSTRUCTURE else 0;
      } else if tag == BEGIN_NODE {
        depth := depth + 1;
        if depth > INT_MAX {
          return -ERR_BADSTRUCTURE;
        }
        if depth == 1 {
          var e, name := R.GetName(fdt, offset);
          if e < 0 {
            return e;
          }
          if name != [] {
            return -ERR_BADSTRUCTURE;
          }
        }
      } else if tag == END_NODE {
        if depth == 0 {
          return -ERR_BADSTRUCTURE;
        }
        depth := depth - 1;
        if depth == 0 {
          expectEnd := true;
        }
      } else {
        var e, propname, prop := R.GetPropByOffset(fdt, offset);
        if e != 0 {
          return e;
        }
      }
    }
  }

  // ---------------------------------------------------------------- walks over a valid blob

  /** Where tag `i` of a run starts. */
  function Boundary(ts: seq<Token>, i: nat): (off: int)
    requires WfToks(ts) && i <= |ts|
  {
    |EncToks(ts[..i])|
  }

  /** From any tag of a terminated run, a scan finds a node or the end; it never meets broken bytes. */
  lemma {:induction false} ScanClean(s: bytes, off: int, ts: seq<Token>, depth: int)
    requires |s| < TWO31 && Aligned(off) && WfToks(ts)
    requires At(s, off, EncToks(ts)) && At(s, off + |EncToks(ts)|, Word(END))
    ensures W.ScanNode(s, off, depth).off >= 0 || W.ScanNode(s, off, depth).off == -ERR_NOTFOUND
    decreases |ts|
  {
    hide EncTok, Aligned, TagAt, TokAt, At, Word;
    if ts == [] {
      EndTag(s, off);
      InBlock(s, off + |EncToks(ts)|, Word(END));
    } else {
      FirstTok(s, off, ts);
      InBlock(s, off, EncTok(ts[0]));
      ScanClean(s, off + |EncTok(ts[0])|, ts[1..], if ts[0].EndNode? then depth - 1 else depth);
    }
  }

  lemma RunFrom(s: bytes, ts: seq<Token>, i: nat)
    requires HoldsRun(s, ts) && i <= |ts|
    ensures WfToks(ts[i..]) && Aligned(Boundary(ts, i))
    ensures At(s, Boundary(ts, i), EncToks(ts[i..])) && At(s, Boundary(ts, i) + |EncToks(ts[i..])|, Word(END))
  {
    hide EncTok, EncToks, WfTok, Word, Aligned;
    assert ts == ts[..i] + ts[i..];
    EncToksCat(ts[..i], ts[i..]);
    AtSplit(s, 0, EncToks(ts[..i]), EncToks(ts[i..]));
  }

  /** On a valid blob `fdt_next_node` fails with NOTFOUND and nothing else, whichever node it is asked about. */
  lemma NextNodeClean(b: bytes, i: nat, depth: int)
    requires Valid(b) && WfToks(Flatten(ForestOf(Struct(b)).value)) && i < |Flatten(ForestOf(Struct(b)).value)|
    ensures var ts := Flatten(ForestOf(Struct(b)).value);
      var r := W.NextNode(Struct(b), Boundary(ts, i), depth);
      r.off >= 0 || r.off == if ts[i].Begin? then -ERR_NOTFOUND else -ERR_BADOFFSET
  {
    hide Field, EncTok, EncToks, WfTok, Word, TagAt, TokAt, Struct, Strings, At, Aligned, ForestOf, Unword, Holds;
    var s := Struct(b);
    var f := ForestOf(s).value;
    var ts := Flatten(f);
    ParsesHolds(s, f);
    HeldRun(s, f);
    RunFrom(s, ts, i);
    var off := Boundary(ts, i);
    assert ts[i..][0] == ts[i] && ts[i..][1..] == ts[i + 1..];
    FirstTok(s, off, ts[i..]);
    InBlock(s, off, EncTok(ts[i]));
    if ts[i].Begin? {
      ScanClean(s, off + |EncTok(ts[i])|, ts[i + 1..], depth);
    }
  }

  lemma HeldRun(s: bytes, f: Forest)
    requires Holds(s, f)
    ensures HoldsRun(s, Flatten(f))
  {
    hide EncToks, Enc, Word, At;
    FlattenEnc(f);
  }
}
