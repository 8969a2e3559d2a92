/** exFAT directory entry sets: a file entry, a stream entry and name entries of 32 bytes each. */
module EntrySets {
  import opened Bytes
  import opened Components
  import opened Volume

  const ENTRY_FILE: byte := 0x85
  const ENTRY_STREAM: byte := 0xC0
  const ENTRY_NAME: byte := 0xC1
  const ATTR_DIR := 0x10
  const ATTR_ARCHIVE := 0x20

  // ---------------------------------------------------------------- what a set looks like

  /** The entries that a name of `len` characters takes. */
  function NameEntries(len: nat): (n: nat) { (len + 14) / 15 }

  function FileEntry(total: nat, isDir: bool): (e: bytes)
    requires 1 <= total <= 256
    ensures |e| == 32
  {
    [ENTRY_FILE, (total - 1) as byte, 0, 0] + LeBytes(2, if isDir then ATTR_DIR else ATTR_ARCHIVE) + Zeros(26)
  }

  function StreamEntry(nameLen: nat, cluster: nat, size: nat): (e: bytes)
    requires nameLen < 256
    ensures |e| == 32
  {
    [ENTRY_STREAM, 0, 0, nameLen as byte] + Zeros(4) + LeBytes(8, size) + Zeros(4) + LeBytes(4, cluster)
    + LeBytes(8, size)
  }

  /** Character `i` of a name, or 0 behind its end. */
  function CharAt(name: bytes, i: nat): (c: byte)
  {
    if i < |name| then name[i] else 0
  }

  /** `n` characters of a name from `i`, as 16-bit units. */
  function Units(name: bytes, i: nat, n: nat): (u: bytes)
    ensures |u| == 2 * n
  {
    if n == 0 then [] else Units(name, i, n - 1) + [CharAt(name, i + n - 1), 0]
  }

  /** Name entry `i`. */
  function NameEntry(name: bytes, i: nat): (e: bytes)
    ensures |e| == 32
  {
    [ENTRY_NAME, 0] + Units(name, 15 * i, 15)
  }

  function NamePart(name: bytes, n: nat): (e: bytes)
    ensures |e| == 32 * n
  {
    if n == 0 then [] else NamePart(name, n - 1) + NameEntry(name, n - 1)
  }

  /** The whole set, before the checksum is put in. */
  function EntrySet(name: bytes, cluster: nat, size: nat, isDir: bool): (s: bytes)
    requires |name| <= 255
    ensures |s| == 32 * (2 + NameEntries(|name|))
  {
    FileEntry(2 + NameEntries(|name|), isDir) + StreamEntry(|name|, cluster, size) + NamePart(name, NameEntries(|name|))
  }

  // ---------------------------------------------------------------- building

  /** The name that fits into a set. */
  function Shortened(name: bytes): (n: bytes)
    ensures |n| <= 255
  {
    CutTo(name, 255)
  }

  /** `exfat_build_entry_set`. */
  method BuildEntrySet(es: array<byte>, name: bytes, firstCluster: nat, size: nat, isDir: bool)
    returns (r: int, total: nat)
    requires es.Length >= 32 * 40 && NoNul(name) && firstCluster < TWO32 && size < TWO32 * TWO32
    modifies es
    ensures r == 0 && total == 2 + NameEntries(|Shortened(name)|) && 32 * total <= es.Length
    ensures es[..32 * total] == EntrySet(Shortened(name), firstCluster, size, isDir)
  {
    var nameLen := |name|;
    if nameLen > 255 {
      nameLen := 255;
    }
    var nameEntries := (nameLen + 14) / 15;
    total := 2 + nameEntries;
    if total > 40 {
      return -1, total;
    }
    FillZero(es, 32 * total);
    BuildHead(es, total, nameLen, firstCluster, size, isDir);
    BuildNames(es, name, nameEntries);
    r := 0;
    Cut(es[..], 0, 64, 32 * total);
  }

  /** The name entries. */
  method BuildNames(es: array<byte>, name: bytes, nameEntries: nat)
    requires 64 + 32 * nameEntries <= es.Length && nameEntries <= 17
    modifies es
    ensures es[..64] == old(es[..64]) && es[64..64 + 32 * nameEntries] == NamePart(Shortened(name), nameEntries)
  {
    hide NameEntry;
    ghost var head := es[..64];
    var p := 0;
    var i := 0;
    assert es[64..64] == NamePart(Shortened(name), 0);
    while i < nameEntries
      invariant 0 <= i <= nameEntries && p == (if 15 * i < |name| then 15 * i else |name|)
      invariant es[..64] == head && es[64..64 + 32 * i] == NamePart(Shortened(name), i)
    {
      ghost var was := es[..];
      p := BuildName(es, 64 + 32 * i, name, p, i);
      NamesGrow(was, es[..], 64 + 32 * i);
      ShortEntry(name, i);
      i := i + 1;
    }
  }

  lemma NamesGrow(was: bytes, c: bytes, q: nat)
    requires |c| == |was| && 64 <= q && q + 32 <= |c| && forall k | 0 <= k < |c| && !(q <= k < q + 32) :: c[k] == was[k]
    ensures c[..64] == was[..64] && c[64..q + 32] == was[64..q] + c[q..q + 32]
  {
    SameBytes(c[..64], was[..64]);
    SameBytes(c[64..q], was[64..q]);
    Cut(c, 64, q, q + 32);
  }

  /** The file and stream entries, stored field by field into a cleared buffer. */
  method BuildHead(es: array<byte>, total: nat, nameLen: nat, cluster: nat, size: nat, isDir: bool)
    requires 2 <= total <= 40 && nameLen < 256 && es.Length >= 64 && forall k | 0 <= k < 64 :: es[k] == 0
    modifies es
    ensures es[..64] == FileEntry(total, isDir) + StreamEntry(nameLen, cluster, size)
  {
    hide FileEntry, StreamEntry;
    BuildFile(es, total, isDir);
    ghost var was := es[..];
    BuildStream(es, nameLen, cluster, size);
    SameBytes(es[0..32], was[0..32]);
    Cut(es[..], 0, 32, 64);
  }

  method BuildFile(es: array<byte>, total: nat, isDir: bool)
    requires 2 <= total <= 40 && es.Length >= 64 && forall k | 0 <= k < 64 :: es[k] == 0
    modifies es
    ensures es[0..32] == FileEntry(total, isDir) && forall k | 32 <= k < 64 :: es[k] == 0
  {
    hide LeBytes;
    var attr := if isDir then ATTR_DIR else ATTR_ARCHIVE;
    es[0] := ENTRY_FILE;
    es[1] := (total - 1) as byte;
    MemCpy(es, 4, LeBytes(2, attr));
    ghost var c := es[..];
    SameBytes(c[4..6], LeBytes(2, attr));
    SameBytes(c[6..32], Zeros(26));
    Cut(c, 0, 4, 6);
    Cut(c, 0, 6, 32);
  }

  method BuildStream(es: array<byte>, nameLen: nat, cluster: nat, size: nat)
    requires nameLen < 256 && es.Length >= 64 && forall k | 32 <= k < 64 :: es[k] == 0
    modifies es
    ensures es[32..64] == StreamEntry(nameLen, cluster, size)
    ensures forall k | 0 <= k < 32 :: es[k] == old(es[k])
  {
    hide LeBytes;
    es[32] := ENTRY_STREAM;
    es[33] := 0;
    es[35] := nameLen as byte;
    MemCpy(es, 52, LeBytes(4, cluster));
    MemCpy(es, 56, LeBytes(8, size));
    MemCpy(es, 40, LeBytes(8, size));
    ghost var c := es[..];
    SameBytes(c[36..40], Zeros(4));
    SameBytes(c[40..48], LeBytes(8, size));
    SameBytes(c[48..52], Zeros(4));
    SameBytes(c[52..56], LeBytes(4, cluster));
    SameBytes(c[56..64], LeBytes(8, size));
    JoinStream(c);
  }

  lemma JoinStream(c: bytes)
    requires |c| >= 64
    ensures c[32..64] == c[32..36] + c[36..40] + c[40..48] + c[48..52] + c[52..56] + c[56..64]
  {
    Cut(c, 32, 36, 40);
    Cut(c, 32, 40, 48);
    Cut(c, 32, 48, 52);
    Cut(c, 32, 52, 56);
    Cut(c, 32, 56, 64);
  }

  /** One name entry. */
  method BuildName(es: array<byte>, base: nat, name: bytes, start: nat, i: nat) returns (p: nat)
    requires base + 32 <= es.Length && start == if 15 * i < |name| then 15 * i else |name|
    modifies es
    ensures es[base..base + 32] == NameEntry(name, i)
    ensures forall k | 0 <= k < es.Length && !(base <= k < base + 32) :: es[k] == old(es[k])
    ensures p == if 15 * (i + 1) < |name| then 15 * (i + 1) else |name|
  {
    hide Units;
    ghost var was := es[..];
    es[base] := ENTRY_NAME;
    es[base + 1] := 0;
    p := start;
    UnitsNone(name, 15 * i);
    var c := 0;
    while c < 15
      invariant 0 <= c <= 15 && p == if 15 * i + c < |name| then 15 * i + c else |name|
      invariant es[base..base + 2] == [ENTRY_NAME, 0] && es[base + 2..base + 2 + 2 * c] == Units(name, 15 * i, c)
      invariant forall k | 0 <= k < es.Length && !(base <= k < base + 32) :: es[k] == was[k]
    {
      var ch := 0;
      if p < |name| {
        ch := name[p];
        p := p + 1;
      }
      StoreUnit(es, base, base + 2 + 2 * c, ch);
      UnitsMore(name, 15 * i, c);
      c := c + 1;
    }
    Cut(es[..], base, base + 2, base + 32);
  }

  lemma UnitsNone(name: bytes, i: nat)
    ensures Units(name, i, 0) == []
  {
  }

  lemma UnitsMore(name: bytes, i: nat, n: nat)
    ensures Units(name, i, n + 1) == Units(name, i, n) + [CharAt(name, i + n), 0]
  {
  }

  /** One 16-bit unit behind those stored already. */
  method StoreUnit(es: array<byte>, base: nat, q: nat, ch: byte)
    requires base + 2 <= q && q + 2 <= es.Length
    modifies es
    ensures es[base..base + 2] == old(es[base..base + 2]) && es[base + 2..q + 2] == old(es[base + 2..q]) + [ch, 0]
    ensures forall k | 0 <= k < es.Length && !(q <= k < q + 2) :: es[k] == old(es[k])
  {
    ghost var was := es[..];
    es[q] := ch;
    es[q + 1] := 0;
    SameBytes(es[base..base + 2], was[base..base + 2]);
    SameBytes(es[base + 2..q], was[base + 2..q]);
    Cut(es[..], base + 2, q, q + 2);
  }

  lemma {:induction false} ShortUnits(name: bytes, i: nat, n: nat)
    requires i + n <= 255
    ensures Units(Shortened(name), i, n) == Units(name, i, n)
  {
    if n > 0 { ShortUnits(name, i, n - 1); }
  }

  lemma ShortEntry(name: bytes, i: nat)
    requires i < 17
    ensures NameEntry(Shortened(name), i) == NameEntry(name, i)
  {
    hide Units;
    ShortUnits(name, 15 * i, 15);
  }

  method FillZero(buf: array<byte>, n: nat)
    requires n <= buf.Length
    modifies buf
    ensures forall k | 0 <= k < n :: buf[k] == 0
  {
    var k := 0;
    while k < n
      invariant 0 <= k <= n && forall j | 0 <= j < k :: buf[j] == 0
    {
      buf[k] := 0;
      k := k + 1;
    }
  }

  // ---------------------------------------------------------------- parsing

  /** What a reader takes from a set. */
  datatype Info = Info(name: bytes, cluster: nat, size: nat, isDir: bool)

  /** The characters collected from the name entries `i` onwards, up to `want` of them. */
  function Collect(es: bytes, secondary: nat, i: nat, want: nat, got: bytes): (name: bytes)
    requires |es| >= 32 * (secondary + 1)
    decreases secondary + 1 - i
  {
    if i > secondary || |got| >= want then got
    else if es[32 * i] != ENTRY_NAME then Collect(es, secondary, i + 1, want, got)
    else
      var n := if want - |got| < 15 then want - |got| else 15;
      Collect(es, secondary, i + 1, want, got + Chars(es[32 * i..32 * i + 32], n))
  }

  /** The first `n` characters of a name entry: the low bytes of its units. */
  function Chars(e: bytes, n: nat): (cs: bytes)
    requires |e| == 32 && n <= 15
    ensures |cs| == n
  {
    if n == 0 then [] else Chars(e, n - 1) + [e[2 * n]]
  }

  /** `exfat_parse_file_set`, with a name buffer of `size` bytes. */
  function Parse(es: bytes, secondary: nat, size: nat): (r: (int, Info))
    requires |es| >= 32 * (secondary + 1) && 0 < size <= 256
  {
    var none := Info([], 0, 0, false);
    if secondary == 0 then (-1, none) else
    if es[32] != ENTRY_STREAM then (-1, none) else
    var nameLen := if es[35] as int >= size then size - 1 else es[35] as int;
    (0, Info(Collect(es, secondary, 2, nameLen, []), Le(es[52..56]), Le(es[56..64]),
             Le(es[4..6]) / ATTR_DIR % 2 == 1))
  }

  /** `exfat_parse_file_set`. */
  method ParseFileSet(es: bytes, secondary: nat, size: nat) returns (r: int, info: Info)
    requires |es| >= 32 * (secondary + 1) && 0 < size <= 256
    ensures (r, info) == Parse(es, secondary, size)
  {
    hide Le;
    info := Info([], 0, 0, false);
    if secondary == 0 {
      return -1, info;
    }
    if es[32] != ENTRY_STREAM {
      return -1, info;
    }
    var nameLen := es[35] as int;
    if nameLen >= size {
      nameLen := size - 1;
    }
    var name: bytes := [];
    var i := 2;
    while i <= secondary && |name| < nameLen
      invariant 2 <= i && |name| <= nameLen
      invariant Collect(es, secondary, 2, nameLen, []) == Collect(es, secondary, i, nameLen, name)
      decreases secondary + 1 - i
    {
      if es[32 * i] == ENTRY_NAME {
        ghost var got := name;
        ghost var e := es[32 * i..32 * i + 32];
        var c := 0;
        while c < 15 && |name| < nameLen
          invariant 0 <= c <= 15 && |got| + c <= nameLen && name == got + Chars(e, c)
        {
          assert es[32 * i + 2 + 2 * c] == e[2 * (c + 1)];
          name := name + [es[32 * i + 2 + 2 * c]];
          c := c + 1;
        }
      }
      i := i + 1;
    }
    var attr := Le(es[4..6]);
    info := Info(name, Le(es[52..56]), Le(es[56..64]), attr / ATTR_DIR % 2 == 1);
    r := 0;
  }

  // ---------------------------------------------------------------- the round trip

  /** `es` is the set for `name`, up to the checksum in bytes 2 and 3. */
  ghost predicate IsSet(es: bytes, name: bytes, cluster: nat, size: nat, isDir: bool)
  {
    && |name| <= 255 && |es| == 32 * (2 + NameEntries(|name|))
    && es[..2] == EntrySet(name, cluster, size, isDir)[..2] && es[4..] == EntrySet(name, cluster, size, isDir)[4..]
  }

  /** The fields of a set. */
  lemma SetFields(es: bytes, name: bytes, cluster: nat, size: nat, isDir: bool)
    requires IsSet(es, name, cluster, size, isDir)
    ensures es[0] == ENTRY_FILE && es[1] as int == 1 + NameEntries(|name|)
    ensures es[4..6] == LeBytes(2, if isDir then ATTR_DIR else ATTR_ARCHIVE)
    ensures es[32] == ENTRY_STREAM && es[35] as int == |name| && es[52..56] == LeBytes(4, cluster)
    ensures es[56..64] == LeBytes(8, size)
  {
    hide LeBytes, NamePart;
    var s := EntrySet(name, cluster, size, isDir);
    var f, t := FileEntry(2 + NameEntries(|name|), isDir), StreamEntry(|name|, cluster, size);
    assert es[0] == es[..2][0] == s[0] == f[0];
    assert es[1] == es[..2][1] == s[1] == f[1];
    Tail(es, s, 4, 6);
    Tail(es, s, 32, 36);
    Tail(es, s, 52, 56);
    Tail(es, s, 56, 64);
    assert s[4..6] == f[4..6];
    assert s[32..36] == t[..4];
    assert s[52..56] == t[20..24];
    assert s[56..64] == t[24..32];
    assert es[32] == es[32..36][0] && es[35] == es[32..36][3];
  }

  lemma Tail(x: bytes, y: bytes, i: nat, j: nat)
    requires |x| == |y| && 4 <= i <= j <= |x| && x[4..] == y[4..]
    ensures x[i..j] == y[i..j]
  {
    assert x[i..j] == x[4..][i - 4..j - 4];
    assert y[i..j] == y[4..][i - 4..j - 4];
  }

  lemma {:induction false} PartAt(name: bytes, n: nat, j: nat)
    requires j < n
    ensures NamePart(name, n)[32 * j..32 * j + 32] == NameEntry(name, j)
  {
    hide NameEntry;
    var x, y := NamePart(name, n - 1), NameEntry(name, n - 1);
    SliceOfSecond(x, y);
    if j < n - 1 {
      PartAt(name, n - 1, j);
      SliceOfFirst(x, y, 32 * j, 32 * j + 32);
    }
  }

  /** Name entry `j` of a set. */
  lemma NameAt(es: bytes, name: bytes, cluster: nat, size: nat, isDir: bool, j: nat)
    requires IsSet(es, name, cluster, size, isDir) && j < NameEntries(|name|)
    ensures 32 * (2 + j) + 32 <= |es| && es[32 * (2 + j)..32 * (2 + j) + 32] == NameEntry(name, j)
  {
    hide NameEntry, FileEntry, StreamEntry;
    var s := EntrySet(name, cluster, size, isDir);
    var h := FileEntry(2 + NameEntries(|name|), isDir) + StreamEntry(|name|, cluster, size);
    var t := NamePart(name, NameEntries(|name|));
    PartAt(name, NameEntries(|name|), j);
    Tail(es, s, 64 + 32 * j, 64 + 32 * j + 32);
    assert s == h + t;
    assert (h + t)[64 + 32 * j..64 + 32 * j + 32] == t[32 * j..32 * j + 32];
  }

  lemma {:induction false} UnitsAt(name: bytes, i: nat, n: nat, k: nat)
    requires k < n
    ensures Units(name, i, n)[2 * k] == CharAt(name, i + k)
  {
    if k < n - 1 { UnitsAt(name, i, n - 1, k); }
  }

  lemma {:induction false} CharsAre(name: bytes, j: nat, n: nat)
    requires n <= 15 && 15 * j + n <= |name|
    ensures Chars(NameEntry(name, j), n) == name[15 * j..15 * j + n]
  {
    hide Units;
    if n > 0 {
      CharsAre(name, j, n - 1);
      UnitsAt(name, 15 * j, 15, n - 1);
      assert NameEntry(name, j)[2 * n] == Units(name, 15 * j, 15)[2 * (n - 1)];
      assert name[15 * j..15 * j + n] == name[15 * j..15 * j + n - 1] + [name[15 * j + n - 1]];
    }
  }

  /** Collecting the name entries gives the name back. */
  lemma {:induction false} CollectIs(es: bytes, name: bytes, cluster: nat, size: nat, isDir: bool, j: nat)
    requires IsSet(es, name, cluster, size, isDir) && j <= NameEntries(|name|)
    ensures var got := if 15 * j < |name| then name[..15 * j] else name;
      Collect(es, 1 + NameEntries(|name|), 2 + j, |name|, got) == name
    decreases NameEntries(|name|) - j
  {
    hide IsSet, Chars, NameEntry;
    SetLen(es, name, cluster, size, isDir);
    if 15 * j < |name| {
      NameAt(es, name, cluster, size, isDir, j);
      var e := es[32 * (2 + j)..32 * (2 + j) + 32];
      EntryTag(name, j);
      assert es[32 * (2 + j)] == e[0];
      var n := if |name| - 15 * j < 15 then |name| - 15 * j else 15;
      CharsAre(name, j, n);
      assert name[..15 * j] + name[15 * j..15 * j + n] == name[..15 * j + n];
      assert name[..|name|] == name;
      CollectIs(es, name, cluster, size, isDir, j + 1);
    }
  }

  lemma EntryTag(name: bytes, j: nat)
    ensures NameEntry(name, j)[0] == ENTRY_NAME
  {
  }

  lemma SetLen(es: bytes, name: bytes, cluster: nat, size: nat, isDir: bool)
    requires IsSet(es, name, cluster, size, isDir)
    ensures |name| <= 255 && |es| == 32 * (2 + NameEntries(|name|))
  {
  }

  /** Parsing a built set gives back the name, the first cluster, the size and the kind. */
  lemma ParseBuilt(es: bytes, name: bytes, cluster: nat, size: nat, isDir: bool)
    requires IsSet(es, name, cluster, size, isDir) && cluster < TWO32 && size < TWO32 * TWO32
    ensures |es| >= 32 * (1 + NameEntries(|name|) + 1)
    ensures Parse(es, 1 + NameEntries(|name|), 256) == (0, Info(name, cluster, size, isDir))
  {
    hide IsSet, Le, LeBytes, Collect;
    SetLen(es, name, cluster, size, isDir);
    SetFields(es, name, cluster, size, isDir);
    CollectIs(es, name, cluster, size, isDir, 0);
    assert name[..0] == [];
    Radix4();
    assert Radix(8) == TWO32 * TWO32;
    assert Radix(2) == 65536;
    LeOfBytes(4, cluster);
    LeOfBytes(8, size);
    LeOfBytes(2, if isDir then ATTR_DIR else ATTR_ARCHIVE);
  }
}
