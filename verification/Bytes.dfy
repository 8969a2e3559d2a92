/** Bytes, big-endian words, NUL-terminated strings and overlapping copies: what every block of a
    flattened device tree is made of.  C's `uint32_t` is modelled by the integers below 2^32 and every
    wrap-around is written out with `% TWO32`. */
module Bytes {
  newtype byte = x: int | 0 <= x < 256
  type bytes = seq<byte>

  const TWO31: int := 0x8000_0000
  const TWO32: int := 0x1_0000_0000

  // ---------------------------------------------------------------- big-endian words

  /** The value of `b` read as one big-endian number. */
  function Be(b: bytes): (v: nat)
  {
    if |b| == 0 then 0 else Be(b[..|b| - 1]) * 256 + b[|b| - 1] as nat
  }

  /** The `n` low bytes of `v`, most significant first. */
  function BeBytes(n: nat, v: nat): (b: bytes)
    ensures |b| == n
  {
    if n == 0 then [] else BeBytes(n - 1, v / 256) + [(v % 256) as byte]
  }

  function Radix(n: nat): (r: nat)
    ensures r > 0
  {
    if n == 0 then 1 else 256 * Radix(n - 1)
  }

  lemma {:induction false} BeOfBytes(n: nat, v: nat)
    requires v < Radix(n)
    ensures Be(BeBytes(n, v)) == v
  {
    if n > 0 {
      BeOfBytes(n - 1, v / 256);
      assert BeBytes(n, v)[..n - 1] == BeBytes(n - 1, v / 256);
    }
  }

  lemma {:induction false} BytesOfBe(b: bytes)
    ensures Be(b) < Radix(|b|) && BeBytes(|b|, Be(b)) == b
  {
    if |b| > 0 {
      BytesOfBe(b[..|b| - 1]);
      assert Be(b) / 256 == Be(b[..|b| - 1]);
      assert b == b[..|b| - 1] + [b[|b| - 1]];
    }
  }

  lemma Radix4()
    ensures Radix(4) == TWO32
  {
    assert Radix(2) == 0x1_0000;
  }

  /** `cpu_to_fdt32`: the four bytes of a 32-bit word. */
  function Word(v: int): (w: bytes)
    requires 0 <= v < TWO32
    ensures |w| == 4 && Unword(w) == v
  {
    Radix4();
    BeOfBytes(4, v);
    BeBytes(4, v)
  }

  /** `fdt32_to_cpu`. */
  function Unword(w: bytes): (v: int)
    requires |w| == 4
    ensures 0 <= v < TWO32
  {
    Radix4();
    BytesOfBe(w);
    Be(w)
  }

  lemma WordOfUnword(w: bytes)
    requires |w| == 4
    ensures Word(Unword(w)) == w
  {
    BytesOfBe(w);
  }

  predicate Aligned(n: int) { n % 4 == 0 }

  lemma AlignedAdd(a: int, b: int)
    requires Aligned(a)
    ensures Aligned(a + b) <==> Aligned(b)
  {
  }

  lemma AlignedSmall()
    ensures Aligned(0) && Aligned(4)
  {
  }

  /** `FDT_TAGALIGN`: the next multiple of the tag size. */
  function Align4(n: int): (m: int)
    ensures n <= m < n + 4 && Aligned(m)
  {
    n + (4 - n % 4) % 4
  }

  lemma AlignShift(base: int, n: int)
    requires Aligned(base)
    ensures Align4(base + n) == base + Align4(n)
  {
  }

  // ---------------------------------------------------------------- splicing sequences

  /** `b` with the `gone` bytes at `p` replaced by `x`. */
  function Splice(b: bytes, p: nat, gone: nat, x: bytes): (r: bytes)
    requires p + gone <= |b|
    ensures |r| == |b| - gone + |x|
  {
    b[..p] + x + b[p + gone..]
  }

  /** `b` overwritten with `x` at `p`. */
  function Put(b: bytes, p: nat, x: bytes): (r: bytes)
    requires p + |x| <= |b|
    ensures |r| == |b|
  {
    b[..p] + x + b[p + |x|..]
  }

  lemma PutIsSplice(b: bytes, p: nat, x: bytes)
    requires p + |x| <= |b|
    ensures Put(b, p, x) == Splice(b, p, |x|, x)
  {
  }

  function Zeros(n: nat): (z: bytes)
    ensures |z| == n && forall i | 0 <= i < n :: z[i] == 0
  {
    seq(n, _ => 0)
  }

  lemma PutOutside(b: bytes, p: nat, x: bytes, i: nat, j: nat)
    requires p + |x| <= |b| && i <= j <= |b| && (j <= p || p + |x| <= i)
    ensures Put(b, p, x)[i..j] == b[i..j]
  {
  }

  lemma PutInside(b: bytes, p: nat, x: bytes)
    requires p + |x| <= |b|
    ensures Put(b, p, x)[p..p + |x|] == x
  {
  }

  /** Overwriting the middle of three parts. */
  lemma PutMiddle(h: bytes, x: bytes, z: bytes, y: bytes)
    requires |x| == |y|
    ensures Put(h + x + z, |h|, y) == h + y + z
  {
    SameBytes(Put(h + x + z, |h|, y), h + y + z);
  }

  lemma PutInSlice(b: bytes, p: nat, x: bytes, lo: nat, hi: nat)
    requires lo <= p && p + |x| <= hi <= |b|
    ensures Put(b, p, x)[lo..hi] == Put(b[lo..hi], p - lo, x)
  {
    SameBytes(Put(b, p, x)[lo..hi], Put(b[lo..hi], p - lo, x));
  }

  lemma PutBehind(a: bytes, b: bytes, q: nat, x: bytes)
    requires q + |x| <= |b|
    ensures Put(a + b, |a| + q, x) == a + Put(b, q, x)
  {
    SameBytes(Put(a + b, |a| + q, x), a + Put(b, q, x));
  }

  lemma PutBefore(a: bytes, b: bytes, q: nat, x: bytes)
    requires q + |x| <= |a|
    ensures Put(a + b, q, x) == Put(a, q, x) + b
  {
    SameBytes(Put(a + b, q, x), Put(a, q, x) + b);
  }

  lemma Cut(s: bytes, a: nat, b: nat, c: nat)
    requires a <= b <= c <= |s|
    ensures s[a..c] == s[a..b] + s[b..c]
  {
    SameBytes(s[a..c], s[a..b] + s[b..c]);
  }

  /** Equality byte by byte. */
  lemma SameBytes(x: bytes, y: bytes)
    requires |x| == |y| && forall i | 0 <= i < |x| :: x[i] == y[i]
    ensures x == y
  {
  }

  lemma SliceOfSlice(b: bytes, o: nat, n: nat, i: nat, j: nat)
    requires o + n <= |b| && i <= j <= n
    ensures b[o..o + n][i..j] == b[o + i..o + j]
  {
    var x, y := b[o..o + n][i..j], b[o + i..o + j];
    assert |x| == |y|;
    forall k | 0 <= k < |x| ensures x[k] == y[k] {
      assert x[k] == b[o..o + n][i + k] == b[o + i + k];
    }
  }

  lemma SliceOfFirst(x: bytes, y: bytes, i: nat, j: nat)
    requires i <= j <= |x|
    ensures (x + y)[i..j] == x[i..j]
  {
  }

  lemma SliceOfSecond(x: bytes, y: bytes)
    ensures (x + y)[|x|..|x| + |y|] == y
  {
  }

  lemma Assoc(a: bytes, b: bytes, c: bytes)
    ensures (a + b) + c == a + (b + c)
  {
  }

  lemma Assoc5(a: bytes, b: bytes, c: bytes, d: bytes, e: bytes)
    ensures a + (b + c + d) + e == (a + b) + c + (d + e)
  {
    Assoc(a + b, c, d + e);
    Assoc(a, b + c + d, e);
    Assoc(b + c, d, e);
    Assoc(b, c, d + e);
    Assoc(a, b, c + (d + e));
  }

  // ---------------------------------------------------------------- NUL-terminated strings

  predicate NoNul(s: bytes) { 0 !in s }

  /** The position of the first NUL of `b` at or after `i`, or `|b|` when there is none. */
  function NulAt(b: bytes, i: nat): (k: nat)
    requires i <= |b|
    ensures i <= k <= |b|
    ensures NoNul(b[i..k])
    ensures k < |b| ==> b[k] == 0
    decreases |b| - i
  {
    if i == |b| || b[i] == 0 then i else
      var k := NulAt(b, i + 1);
      assert b[i..k] == [b[i]] + b[i + 1..k];
      k
  }

  lemma {:induction false} NulAtIs(b: bytes, i: nat, k: nat)
    requires i <= k < |b| && NoNul(b[i..k]) && b[k] == 0
    ensures NulAt(b, i) == k
  {
  }

  /** The string with its terminator, as C stores it. */
  function CStr(s: bytes): (r: bytes)
    ensures |r| == |s| + 1
  {
    s + [0]
  }

  // ---------------------------------------------------------------- copies

  /** `memmove` (the copy direction depends on which region comes first, so overlap loses nothing). */
  method MemMove(mem: array<byte>, dst: nat, src: nat, n: nat)
    requires dst + n <= mem.Length && src + n <= mem.Length
    modifies mem
    ensures mem[..] == Put(old(mem[..]), dst, old(mem[src..src + n]))
    ensures forall i :: 0 <= i < dst || dst + n <= i < mem.Length ==> mem[i] == old(mem[i])
    ensures forall i :: dst <= i < dst + n ==> mem[i] == old(mem[..])[i - dst + src]
  {
    ghost var was := mem[..];
    if dst == src || n == 0 {
      assert mem[..] == Put(old(mem[..]), dst, old(mem[src..src + n]));
      return;
    }
    if dst < src {
      var k := 0;
      while k < n
        invariant 0 <= k <= n
        invariant forall i :: 0 <= i < dst || dst + k <= i < mem.Length ==> mem[i] == old(mem[i])
        invariant forall i :: dst <= i < dst + k ==> mem[i] == was[i - dst + src]
      {
        mem[dst + k] := mem[src + k];
        k := k + 1;
      }
    } else {
      var k := n;
      while k > 0
        invariant 0 <= k <= n
        invariant forall i :: 0 <= i < dst + k || dst + n <= i < mem.Length ==> mem[i] == old(mem[i])
        invariant forall i :: dst + k <= i < dst + n ==> mem[i] == was[i - dst + src]
      {
        k := k - 1;
        mem[dst + k] := mem[src + k];
      }
    }
    assert mem[..] == Put(old(mem[..]), dst, old(mem[src..src + n]));
  }

  /** `memcpy` from a caller's buffer that does not overlap the blob. */
  method MemCpy(mem: array<byte>, dst: nat, x: bytes)
    requires dst + |x| <= mem.Length
    modifies mem
    ensures mem[..] == Put(old(mem[..]), dst, x)
    ensures forall i :: 0 <= i < dst || dst + |x| <= i < mem.Length ==> mem[i] == old(mem[i])
    ensures forall i :: dst <= i < dst + |x| ==> mem[i] == x[i - dst]
  {
    var k := 0;
    while k < |x|
      invariant 0 <= k <= |x|
      invariant forall i :: 0 <= i < dst || dst + k <= i < mem.Length ==> mem[i] == old(mem[i])
      invariant forall i :: dst <= i < dst + k ==> mem[i] == x[i - dst]
    {
      mem[dst + k] := x[k];
      k := k + 1;
    }
    assert mem[..] == Put(old(mem[..]), dst, x);
  }
}
