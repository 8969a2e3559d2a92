/** A blob in memory: which bytes are the structure and strings blocks, and the tag reader on it. */
module Blob {
  import opened Bytes
  import opened Format
  import opened Tree

  /** What `fdt_check_header` establishes for a version 17 blob: every block lies inside `totalsize`. */
  predicate Sane(b: bytes)
  {
    && HEADER_SIZE <= |b| < TWO31
    && Field(b, TOTALSIZE) <= |b|
    && Field(b, VERSION) == 17
    && HEADER_SIZE <= Field(b, OFF_RSVMAP) <= Field(b, TOTALSIZE)
    && HEADER_SIZE <= Field(b, OFF_STRUCT)
    && Field(b, OFF_STRUCT) + Field(b, SIZE_STRUCT) <= Field(b, TOTALSIZE)
    && HEADER_SIZE <= Field(b, OFF_STRINGS)
    && Field(b, OFF_STRINGS) + Field(b, SIZE_STRINGS) <= Field(b, TOTALSIZE)
  }

  function Struct(b: bytes): (s: bytes)
    requires Sane(b)
    ensures |s| == Field(b, SIZE_STRUCT) && |s| + HEADER_SIZE <= |b| < TWO31
  {
    b[Field(b, OFF_STRUCT)..Field(b, OFF_STRUCT) + Field(b, SIZE_STRUCT)]
  }

  function Strings(b: bytes): (t: bytes)
    requires Sane(b)
    ensures |t| == Field(b, SIZE_STRINGS) && |t| + HEADER_SIZE <= |b| < TWO31
  {
    b[Field(b, OFF_STRINGS)..Field(b, OFF_STRINGS) + Field(b, SIZE_STRINGS)]
  }

  /** `fdt_ro_probe_` on a blob whose header is sane. */
  function RoProbe(b: bytes): (r: int)
    requires Sane(b)
    ensures r < 0 || r == Field(b, TOTALSIZE)
  {
    if Field(b, MAGIC) == FDT_MAGIC && Field(b, LAST_COMP) > 17 then -ERR_BADVERSION
    else if Field(b, MAGIC) == SW_MAGIC && Field(b, SIZE_STRUCT) == 0 then -ERR_BADSTATE
    else if Field(b, MAGIC) != FDT_MAGIC && Field(b, MAGIC) != SW_MAGIC then -ERR_BADMAGIC
    else if Field(b, TOTALSIZE) < INT_MAX then Field(b, TOTALSIZE)
    else -ERR_TRUNCATED
  }

  /** A finished blob that read-only functions accept. */
  predicate Live(b: bytes)
  {
    Sane(b) && Field(b, MAGIC) == FDT_MAGIC && Field(b, LAST_COMP) <= 17 && Field(b, TOTALSIZE) < INT_MAX
  }

  /** `fdt_offset_ptr`: the position in the blob of structure offset `offset`, if `len` bytes can be read there. */
  function OffsetPtr(b: bytes, offset: int, len: nat): (r: Option<nat>)
    requires |b| >= HEADER_SIZE && -TWO31 <= offset < TWO31 && len < TWO32
  {
    var uoffset := offset % TWO32;
    var absoffset := (offset + Field(b, OFF_STRUCT)) % TWO32;
    if offset < 0 then None
    else if absoffset < uoffset || (absoffset + len) % TWO32 < absoffset
            || (absoffset + len) % TWO32 > Field(b, TOTALSIZE) then None
    else if (uoffset + len) % TWO32 < uoffset || (uoffset + len) % TWO32 > Field(b, SIZE_STRUCT) then None
    else Some(Field(b, OFF_STRUCT) + offset)
  }

  /** The 32-bit checks accept exactly the regions inside the structure block. */
  lemma OffsetPtrIs(b: bytes, offset: int, len: nat)
    requires Sane(b) && -TWO31 <= offset < TWO31 && len < TWO32
    ensures OffsetPtr(b, offset, len).Some? <==> 0 <= offset && offset + len <= |Struct(b)|
    ensures OffsetPtr(b, offset, len).Some? ==>
      var p := OffsetPtr(b, offset, len).value;
      p == Field(b, OFF_STRUCT) + offset && p + len <= |b| && b[p..p + len] == Struct(b)[offset..offset + len]
  {
    hide Field, Unword, Struct;
    StructSize(b);
    PtrWraps(b, offset, len);
    if 0 <= offset && offset + len <= |Struct(b)| {
      StructSlice(b, offset, len);
    }
  }

  lemma StructSize(b: bytes)
    requires Sane(b)
    ensures |Struct(b)| == Field(b, SIZE_STRUCT) < TWO31
    ensures 0 <= Field(b, OFF_STRUCT) && Field(b, OFF_STRUCT) + Field(b, SIZE_STRUCT) <= Field(b, TOTALSIZE) < TWO31
  {
    hide Field, Unword;
  }

  lemma StructSlice(b: bytes, offset: int, len: nat)
    requires Sane(b) && 0 <= offset && offset + len <= |Struct(b)|
    ensures var p := Field(b, OFF_STRUCT) + offset;
      p >= 0 && p + len <= |b| && b[p..p + len] == Struct(b)[offset..offset + len]
  {
    hide Field, Unword;
    SliceOfSlice(b, Field(b, OFF_STRUCT), |Struct(b)|, offset, offset + len);
  }

  lemma ModSum(a: int, b: int)
    requires 0 <= a < TWO32 && 0 <= b < TWO32
    ensures (a + b) % TWO32 == if a + b < TWO32 then a + b else a + b - TWO32
  {
  }

  lemma PtrWraps(b: bytes, offset: int, len: nat)
    requires |b| >= HEADER_SIZE && -TWO31 <= offset < TWO31 && len < TWO32
    requires 0 <= Field(b, OFF_STRUCT) && Field(b, OFF_STRUCT) + Field(b, SIZE_STRUCT) <= Field(b, TOTALSIZE) < TWO31
    ensures OffsetPtr(b, offset, len).Some? <==> 0 <= offset && offset + len <= Field(b, SIZE_STRUCT)
    ensures OffsetPtr(b, offset, len).Some? ==> OffsetPtr(b, offset, len).value == Field(b, OFF_STRUCT) + offset
  {
    hide Field, Unword;
    if offset >= 0 {
      var o := Field(b, OFF_STRUCT);
      ModSum(offset, 0);
      ModSum(offset, o);
      ModSum(offset + o, len);
      ModSum(offset, len);
    }
  }

  lemma BytePtrIs(b: bytes, offset: int)
    requires Sane(b) && -TWO31 <= offset < TWO31
    ensures OffsetPtr(b, offset, 1).Some? <==> 0 <= offset < |Struct(b)|
    ensures OffsetPtr(b, offset, 1).Some? ==>
      OffsetPtr(b, offset, 1).value < |b| && b[OffsetPtr(b, offset, 1).value] == Struct(b)[offset]
  {
    hide Field, Unword, OffsetPtr;
    OffsetPtrIs(b, offset, 1);
    if 0 <= offset < |Struct(b)| {
      var p := OffsetPtr(b, offset, 1).value;
      assert b[p] == b[p..p + 1][0] == Struct(b)[offset..offset + 1][0];
    }
  }

  /** `fdt_next_tag`. */
  method NextTag(fdt: array<byte>, startoffset: int) returns (tag: int, next: int)
    requires Sane(fdt[..]) && -TWO31 <= startoffset < TWO31
    ensures TagResult(tag, next) == TagAt(Struct(fdt[..]), startoffset) && -TWO31 <= next < TWO31
  {
    hide Field, Unword, OffsetPtr, Align4, Struct;
    ghost var s := Struct(fdt[..]);
    var offset := startoffset;
    OffsetPtrIs(fdt[..], offset, 4);
    var tagp := OffsetPtr(fdt[..], offset, 4);
    if tagp.None? {
      return END, -ERR_TRUNCATED;
    }
    tag := Unword(fdt[tagp.value..tagp.value + 4]);
    offset := offset + 4;
    if tag == BEGIN_NODE {
      offset := SkipName(fdt, offset);
      if offset < 0 {
        return END, -ERR_BADSTRUCTURE;
      }
    } else if tag == PROP {
      offset := SkipValue(fdt, offset);
      if offset < 0 {
        return END, -ERR_BADSTRUCTURE;
      }
    } else if tag != END && tag != END_NODE && tag != NOP {
      return END, -ERR_BADSTRUCTURE;
    }
    OffsetPtrIs(fdt[..], startoffset, offset - startoffset);
    var whole := OffsetPtr(fdt[..], startoffset, offset - startoffset);
    if whole.None? {
      return END, -ERR_BADSTRUCTURE;
    }
    next := Align4(offset);
  }

  /** The name loop of `fdt_next_tag`: the offset after the terminator, or -1 when the block ends first. */
  method SkipName(fdt: array<byte>, start: int) returns (offset: int)
    requires Sane(fdt[..]) && 0 <= start <= |Struct(fdt[..])| && start < INT_MAX
    ensures var s := Struct(fdt[..]); var k := NulAt(s, start); offset == if k == |s| then -1 else k + 1
  {
    hide Field, Unword, OffsetPtr, Struct;
    ghost var s := Struct(fdt[..]);
    BytePtrIs(fdt[..], start);
    var p := OffsetPtr(fdt[..], start, 1);
    offset := start + 1;
    while p.Some? && fdt[p.value] != 0
      invariant start < offset <= |s| + 1
      invariant p.Some? <==> offset <= |s|
      invariant p.Some? ==> 0 <= p.value < fdt.Length && fdt[p.value] == s[offset - 1]
      invariant NulAt(s, start) == NulAt(s, offset - 1)
      decreases |s| + 1 - offset
    {
      BytePtrIs(fdt[..], offset);
      p := OffsetPtr(fdt[..], offset, 1);
      offset := offset + 1;
    }
    if p.None? {
      offset := -1;
    }
  }

  /** The length word of a property: the offset after its value, or -1 when the length is out of range. */
  method SkipValue(fdt: array<byte>, start: int) returns (offset: int)
    requires Sane(fdt[..]) && 4 <= start <= |Struct(fdt[..])| && start < INT_MAX - 4
    ensures var s := Struct(fdt[..]);
      if start + 4 > |s| then offset == -1 else
      var len := Unword(s[start..start + 4]);
      var sum := (len + start) % TWO32;
      offset == if INT_MAX <= sum || sum < start then -1 else start + 8 + len
  {
    hide Field, Unword, OffsetPtr, Struct;
    OffsetPtrIs(fdt[..], start, 4);
    var lenp := OffsetPtr(fdt[..], start, 4);
    if lenp.None? {
      return -1;
    }
    var len := Unword(fdt[lenp.value..lenp.value + 4]);
    var sum := (len + start) % TWO32;
    if INT_MAX <= sum || sum < start {
      return -1;
    }
    offset := start + 8 + len;
  }
}
