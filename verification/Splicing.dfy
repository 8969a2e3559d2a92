/** The one memmove under every in-place edit, its struct and strings wrappers, and what they keep. */
module Splicing {
  import opened Bytes
  import opened Format
  import opened Tree
  import opened Blob
  import R = Reader

  /** `fdt_blocks_misordered_`, with the source's 32-bit sums. */
  predicate Misordered(b: bytes, memRsvSize: nat, structSize: nat)
    requires |b| >= HEADER_SIZE
  {
    || Field(b, OFF_RSVMAP) < HEADER_SIZE
    || Field(b, OFF_STRUCT) < (Field(b, OFF_RSVMAP) + memRsvSize) % TWO32
    || Field(b, OFF_STRINGS) < (Field(b, OFF_STRUCT) + structSize) % TWO32
    || Field(b, TOTALSIZE) < (Field(b, OFF_STRINGS) + Field(b, SIZE_STRINGS)) % TWO32
  }

  /** `fdt_rw_probe_`. */
  function RwProbe(b: bytes): (r: int)
    requires Sane(b)
  {
    if RoProbe(b) < 0 then RoProbe(b)
    else if Misordered(b, 16, Field(b, SIZE_STRUCT)) then -ERR_BADLAYOUT
    else 0
  }

  /** A blob that can be edited in place: live, and its blocks in the order reserve map, structure, strings. */
  predicate Editable(b: bytes)
  {
    && Live(b)
    && HEADER_SIZE <= Field(b, OFF_RSVMAP)
    && Field(b, OFF_RSVMAP) + 16 <= Field(b, OFF_STRUCT)
    && Field(b, OFF_STRUCT) + Field(b, SIZE_STRUCT) <= Field(b, OFF_STRINGS)
    && Field(b, OFF_STRINGS) + Field(b, SIZE_STRINGS) <= Field(b, TOTALSIZE)
  }

  lemma ProbeIsEditable(b: bytes)
    requires Sane(b) && Field(b, MAGIC) != SW_MAGIC
    ensures RwProbe(b) == 0 <==> Editable(b)
    ensures RwProbe(b) != 0 ==> RwProbe(b) < 0
  {
    hide Field;
  }

  function DataSize(b: bytes): (n: int)
    requires |b| >= HEADER_SIZE
  {
    Field(b, OFF_STRINGS) + Field(b, SIZE_STRINGS)
  }

  /** The bytes of the blob that mean something. */
  function Used(b: bytes): (u: bytes)
    requires Sane(b)
  {
    b[..DataSize(b)]
  }

  /** `c` is `b` with structure block `s` and strings block `t`; everything else, down to the slack, is as it was. */
  ghost predicate Edited(b: bytes, c: bytes, s: bytes, t: bytes)
    requires Editable(b)
  {
    && |c| == |b| && Editable(c)
    && (forall k: nat | k < 10 && k != OFF_STRINGS && k != SIZE_STRINGS && k != SIZE_STRUCT ::
         Field(c, k) == Field(b, k))
    && Field(c, OFF_STRINGS) - Field(c, OFF_STRUCT) - Field(c, SIZE_STRUCT)
       == Field(b, OFF_STRINGS) - Field(b, OFF_STRUCT) - Field(b, SIZE_STRUCT)
    && (forall i | HEADER_SIZE <= i < Field(b, OFF_STRUCT) :: c[i] == b[i])
    && Struct(c) == s && Strings(c) == t
  }

  lemma EditedTrans(b: bytes, c: bytes, d: bytes, s: bytes, t: bytes, s': bytes, t': bytes)
    requires Editable(b) && Edited(b, c, s, t) && Edited(c, d, s', t')
    ensures Edited(b, d, s', t')
  {
    hide Field;
  }

  /** From `lo` on, `c` is `b` with the bytes behind `p + gone` moved to `p + room`; the `room` itself is not filled. */
  ghost predicate Moved(b: bytes, c: bytes, p: nat, gone: nat, room: nat, lo: nat)
    requires |b| >= HEADER_SIZE
  {
    && |c| == |b|
    && p + gone <= DataSize(b) <= |b| && DataSize(b) - gone + room <= |b|
    && (forall i | lo <= i < |b| && (i < p + room || DataSize(b) - gone + room <= i) :: c[i] == b[i])
    && (forall i | p + room <= i < DataSize(b) - gone + room :: c[i] == b[i - room + gone])
  }

  /** `fdt_splice_`. */
  method SpliceBlob(fdt: array<byte>, p: nat, oldlen: int, newlen: nat) returns (err: int)
    requires Editable(fdt[..]) && newlen <= INT_MAX && p < TWO32
    modifies fdt
    ensures var b := old(fdt[..]); var d := DataSize(b);
      && (err == if oldlen < 0 || p + oldlen > d then -ERR_BADOFFSET
                 else if d - oldlen + newlen <= Field(b, TOTALSIZE) then 0 else -ERR_NOSPACE)
      && (err == 0 ==> Moved(b, fdt[..], p, oldlen, newlen, 0))
      && (err != 0 ==> fdt[..] == b)
  {
    hide Field;
    var dsize := Field(fdt[..], OFF_STRINGS) + Field(fdt[..], SIZE_STRINGS);
    if oldlen < 0 || p + oldlen > dsize {
      return -ERR_BADOFFSET;
    }
    if (dsize + newlen) % TWO32 < oldlen {
      return -ERR_BADOFFSET;
    }
    if (dsize - oldlen + newlen) % TWO32 > Field(fdt[..], TOTALSIZE) {
      return -ERR_NOSPACE;
    }
    MemMove(fdt, p + newlen, p + oldlen, dsize - (p + oldlen));
    return 0;
  }

  /** `fdt_splice_struct_`. */
  method SpliceStruct(fdt: array<byte>, p: nat, oldlen: int, newlen: nat) returns (err: int)
    requires Editable(fdt[..]) && newlen <= INT_MAX && HEADER_SIZE <= p < TWO32
    modifies fdt
    ensures var b := old(fdt[..]);
      && (err == 0 || err == -ERR_BADOFFSET || err == -ERR_NOSPACE)
      && (err != 0 ==> fdt[..] == b)
      && (err == 0 ==> 0 <= oldlen && p + oldlen <= DataSize(b) && DataSize(b) - oldlen + newlen <= Field(b, TOTALSIZE))
      && (err == 0 ==>
           forall k: nat | k < 10 && k != OFF_STRINGS && k != SIZE_STRUCT :: Field(fdt[..], k) == Field(b, k))
    ensures var b := old(fdt[..]); var q := p - Field(b, OFF_STRUCT);
      0 <= q && 0 <= oldlen && q + oldlen <= |Struct(b)| ==>
        && (err == if DataSize(b) - oldlen + newlen <= Field(b, TOTALSIZE) then 0 else -ERR_NOSPACE)
        && (err == 0 ==> p + newlen <= fdt.Length
                         && Edited(b, fdt[..], Splice(Struct(b), q, oldlen, b[p..p + newlen]), Strings(b)))
  {
    hide Field;
    ghost var b := fdt[..];
    err := SpliceBlob(fdt, p, oldlen, newlen);
    if err != 0 {
      return;
    }
    ghost var b1 := fdt[..];
    FieldFrame(b, b1);
    var size := (Field(fdt[..], SIZE_STRUCT) + newlen - oldlen) % TWO32;
    SetField(fdt, SIZE_STRUCT, size);
    var off := (Field(fdt[..], OFF_STRINGS) + newlen - oldlen) % TWO32;
    SetField(fdt, OFF_STRINGS, off);
    ghost var q := p - Field(b, OFF_STRUCT);
    if 0 <= q && q + oldlen <= |Struct(b)| {
      MovedFrame(b, b1, fdt[..], p, oldlen, newlen);
      SpliceStructIs(b, fdt[..], p, oldlen, newlen);
    }
  }

  /** Header writes behind a splice do not disturb what the splice did to the blocks. */
  lemma MovedFrame(b: bytes, c: bytes, d: bytes, p: nat, gone: nat, room: nat)
    requires |b| >= HEADER_SIZE && Moved(b, c, p, gone, room, 0) && |d| == |c|
    requires HEADER_SIZE <= p && forall i | HEADER_SIZE <= i < |c| :: d[i] == c[i]
    ensures Moved(b, d, p, gone, room, HEADER_SIZE)
  {
    hide Field;
  }

  lemma SpliceStructIs(b: bytes, c: bytes, p: nat, oldlen: nat, newlen: nat)
    requires Editable(b) && |c| == |b|
    requires Field(b, OFF_STRUCT) <= p && p + oldlen <= Field(b, OFF_STRUCT) + Field(b, SIZE_STRUCT)
    requires DataSize(b) - oldlen + newlen <= Field(b, TOTALSIZE)
    requires forall k: nat | k < 10 && k != OFF_STRINGS && k != SIZE_STRUCT :: Field(c, k) == Field(b, k)
    requires Field(c, SIZE_STRUCT) == Field(b, SIZE_STRUCT) + newlen - oldlen
    requires Field(c, OFF_STRINGS) == Field(b, OFF_STRINGS) + newlen - oldlen
    requires Moved(b, c, p, oldlen, newlen, HEADER_SIZE)
    ensures p + newlen <= |c|
    ensures Edited(b, c, Splice(Struct(b), p - Field(b, OFF_STRUCT), oldlen, b[p..p + newlen]), Strings(b))
  {
    hide Field;
    var q := p - Field(b, OFF_STRUCT);
    var s := Splice(Struct(b), q, oldlen, b[p..p + newlen]);
    var o := Field(b, OFF_STRUCT);
    assert Editable(c);
    var u, v := Struct(c), Struct(b);
    forall j | 0 <= j < |s| ensures u[j] == s[j] {
      assert u[j] == c[o + j];
      if j < q {
        assert s[j] == v[j] == b[o + j];
      } else if j < q + newlen {
        assert s[j] == b[p..p + newlen][j - q] == b[o + j];
      } else {
        assert s[j] == v[j - newlen + oldlen] == b[o + j - newlen + oldlen];
      }
    }
    SameBytes(u, s);
    MovedStrings(b, c, p, oldlen, newlen);
  }

  lemma MovedStrings(b: bytes, c: bytes, p: nat, oldlen: nat, newlen: nat)
    requires Editable(b) && Editable(c) && Moved(b, c, p, oldlen, newlen, HEADER_SIZE)
    requires Field(b, OFF_STRUCT) <= p && p + oldlen <= Field(b, OFF_STRUCT) + Field(b, SIZE_STRUCT)
    requires Field(c, SIZE_STRINGS) == Field(b, SIZE_STRINGS)
    requires Field(c, OFF_STRINGS) == Field(b, OFF_STRINGS) + newlen - oldlen
    ensures Strings(c) == Strings(b)
  {
    hide Field;
    var u := Field(b, OFF_STRINGS);
    var x, y := Strings(c), Strings(b);
    forall j | 0 <= j < |y| ensures x[j] == y[j] {
      assert x[j] == c[u + newlen - oldlen + j] == b[u + j];
    }
    SameBytes(x, y);
  }

  /** Overwriting bytes of the structure block through a pointer into it. */
  method WriteStruct(fdt: array<byte>, off: nat, x: bytes)
    requires HEADER_SIZE <= fdt.Length && HEADER_SIZE <= Field(fdt[..], OFF_STRUCT)
    requires Field(fdt[..], OFF_STRUCT) + off + |x| <= fdt.Length
    modifies fdt
    ensures forall k: nat | k < 10 :: Field(fdt[..], k) == old(Field(fdt[..], k))
    ensures fdt[..] == Put(old(fdt[..]), Field(old(fdt[..]), OFF_STRUCT) + off, x)
    ensures var b := old(fdt[..]);
      Editable(b) && off + |x| <= |Struct(b)| ==> Edited(b, fdt[..], Put(Struct(b), off, x), Strings(b))
  {
    hide Field;
    ghost var b := fdt[..];
    MemCpy(fdt, Field(fdt[..], OFF_STRUCT) + off, x);
    FieldFrame(b, fdt[..]);
    if Editable(b) && off + |x| <= |Struct(b)| {
      WriteStructIs(b, fdt[..], off, x);
    }
  }

  lemma WriteStructIs(b: bytes, c: bytes, off: nat, x: bytes)
    requires Editable(b) && off + |x| <= |Struct(b)| && |c| == |b|
    requires forall k: nat | k < 10 :: Field(c, k) == Field(b, k)
    requires c == Put(b, Field(b, OFF_STRUCT) + off, x)
    ensures Edited(b, c, Put(Struct(b), off, x), Strings(b))
  {
    hide Field;
    assert Struct(c) == Put(Struct(b), off, x);
    assert Strings(c) == Strings(b);
  }

  /** `c` is `b` with the string `s` added behind the strings block. */
  ghost predicate Appended(b: bytes, c: bytes, s: bytes)
    requires Editable(b)
  {
    && Edited(b, c, Struct(b), Strings(b) + CStr(s))
    && Field(c, OFF_STRINGS) == Field(b, OFF_STRINGS)
    && Field(c, SIZE_STRINGS) == Field(b, SIZE_STRINGS) + |s| + 1
    && (forall i | HEADER_SIZE <= i < DataSize(b) :: c[i] == b[i])
  }

  /** `fdt_find_add_string_`: the offset of `s` in the strings block, appended there if it is new. */
  method FindAddString(fdt: array<byte>, s: bytes) returns (r: int, isNew: bool)
    requires Editable(fdt[..]) && |s| < INT_MAX
    modifies fdt
    ensures var b := old(fdt[..]); var t := Strings(b);
      && (r < 0 ==> r == -ERR_NOSPACE && fdt[..] == b && !isNew)
      && (r < 0 ==> R.FindStr(t, s, 0) == None && DataSize(b) + |s| + 1 > Field(b, TOTALSIZE))
      && (r >= 0 && !isNew ==> fdt[..] == b && R.FindStr(t, s, 0) == Some(r))
      && (r >= 0 && isNew ==> r == |t| && R.FindStr(t, s, 0) == None && Appended(b, fdt[..], s))
  {
    hide Field;
    ghost var b := fdt[..];
    var strtab := Field(fdt[..], OFF_STRINGS);
    var size := Field(fdt[..], SIZE_STRINGS);
    var p := R.FindString(fdt, strtab, size, s);
    if p.Some? {
      return p.value, false;
    }
    // fdt_splice_string_
    var err := SpliceBlob(fdt, strtab + size, 0, |s| + 1);
    if err != 0 {
      return err, false;
    }
    FieldFrame(b, fdt[..]);
    SetField(fdt, SIZE_STRINGS, size + |s| + 1);
    ghost var b1 := fdt[..];
    MemCpy(fdt, strtab + size, CStr(s));
    FieldFrame(b1, fdt[..]);
    PutInside(b1, strtab + size, CStr(s));
    AddStringIs(b, fdt[..], s);
    return size, true;
  }

  lemma AddStringIs(b: bytes, c: bytes, s: bytes)
    requires Editable(b) && |c| == |b| && DataSize(b) + |s| + 1 <= Field(b, TOTALSIZE)
    requires forall k: nat | k < 10 && k != SIZE_STRINGS :: Field(c, k) == Field(b, k)
    requires Field(c, SIZE_STRINGS) == Field(b, SIZE_STRINGS) + |s| + 1
    requires forall i | HEADER_SIZE <= i < DataSize(b) :: c[i] == b[i]
    requires At(c, DataSize(b), CStr(s))
    ensures Appended(b, c, s)
  {
    hide Field;
    assert Struct(c) == Struct(b);
    assert Strings(c) == Strings(b) + CStr(s) by {
      var o := Field(b, OFF_STRINGS);
      assert c[o..o + |Strings(b)|] == Strings(b);
      assert c[o..o + |Strings(b)| + |s| + 1] == c[o..o + |Strings(b)|] + c[DataSize(b)..DataSize(b) + |s| + 1];
    }
  }

  /** `fdt_del_last_string_`: undoing `FindAddString` brings back the blob byte for byte. */
  method DelLastString(fdt: array<byte>, s: bytes, ghost b: bytes)
    requires Editable(b) && |b| == fdt.Length && |s| < INT_MAX && Appended(b, fdt[..], s)
    modifies fdt
    ensures Editable(fdt[..]) && Used(fdt[..]) == Used(b)
  {
    hide Field;
    SetField(fdt, SIZE_STRINGS, (Field(fdt[..], SIZE_STRINGS) - (|s| + 1)) % TWO32);
    HeaderBytes(fdt[..], b);
    forall i | 0 <= i < DataSize(b) ensures fdt[i] == b[i] {
      if i < HEADER_SIZE {
        assert fdt[i] == fdt[..][..HEADER_SIZE][i] == b[..HEADER_SIZE][i];
      }
    }
  }
}
