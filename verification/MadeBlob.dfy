/** Blobs put together from a structure block and a strings block, with an empty reserve map: the inputs on which some
    operations fail. */
module MadeBlob {
  import opened Bytes
  import opened Format
  import opened Tree
  import opened Blob
  import opened Splicing
  import opened Editor

  function Words(ws: seq<int>): (b: bytes)
    requires forall i | 0 <= i < |ws| :: 0 <= ws[i] < TWO32
    ensures |b| == 4 * |ws|
  {
    if ws == [] then [] else Word(ws[0]) + Words(ws[1..])
  }

  lemma {:induction false} WordsAt(ws: seq<int>, k: nat)
    requires (forall i | 0 <= i < |ws| :: 0 <= ws[i] < TWO32) && k < |ws|
    ensures Words(ws)[4 * k..4 * k + 4] == Word(ws[k])
  {
    hide Word;
    if k > 0 {
      WordsAt(ws[1..], k - 1);
      assert Words(ws)[4 * k..4 * k + 4] == Words(ws[1..])[4 * (k - 1)..4 * (k - 1) + 4];
    }
  }

  lemma HeaderFields(ws: seq<int>, x: bytes)
    requires |ws| == 10 && forall i | 0 <= i < 10 :: 0 <= ws[i] < TWO32
    ensures forall k: nat | k < 10 :: Field(Words(ws) + x, k) == ws[k]
  {
    hide Word, Unword, Words;
    forall k: nat | k < 10
      ensures Field(Words(ws) + x, k) == ws[k]
    {
      WordsAt(ws, k);
      assert (Words(ws) + x)[4 * k..4 * k + 4] == Words(ws)[4 * k..4 * k + 4];
    }
  }

  /** Blocks that fit into a blob. */
  predicate Small(s: bytes, t: bytes) { |s| + |t| < 0x1_0000 }

  function Header(s: bytes, t: bytes): (ws: seq<int>)
    requires Small(s, t)
    ensures |ws| == 10 && forall i | 0 <= i < 10 :: 0 <= ws[i] < TWO32
  {
    [FDT_MAGIC, 56 + |s| + |t|, 56, 56 + |s|, 40, 17, 16, 0, |t|, |s|]
  }

  /** Header, the end of the reserve map, structure, strings. */
  function Made(s: bytes, t: bytes): (b: bytes)
    requires Small(s, t)
    ensures |b| == 56 + |s| + |t|
  {
    Words(Header(s, t)) + (Zeros(16) + s + t)
  }

  lemma MadeFields(s: bytes, t: bytes)
    requires Small(s, t)
    ensures Editable(Made(s, t)) && Field(Made(s, t), OFF_STRUCT) == 56 && Field(Made(s, t), SIZE_STRUCT) == |s|
    ensures Field(Made(s, t), OFF_STRINGS) == 56 + |s| && Field(Made(s, t), SIZE_STRINGS) == |t|
  {
    hide Field, Words;
    HeaderFields(Header(s, t), Zeros(16) + s + t);
  }

  /** It can be edited, and its blocks are those. */
  lemma MadeIs(s: bytes, t: bytes)
    requires Small(s, t)
    ensures Editable(Made(s, t)) && Struct(Made(s, t)) == s && Strings(Made(s, t)) == t
  {
    hide Field, Words, Editable;
    MadeFields(s, t);
    var b, h := Made(s, t), Words(Header(s, t)) + Zeros(16);
    assert b == h + s + t;
    assert b[56..56 + |s|] == s && b[56 + |s|..56 + |s| + |t|] == t;
  }

  /** A client reads the tree of the forest that the block holds. */
  lemma MadeTree(s: bytes, t: bytes, f: Forest)
    requires Small(s, t) && Holds(s, f) && Named(f, t)
    ensures Sane(Made(s, t)) && TreeOf(Made(s, t)) == Some(Abs(f, t))
  {
    hide Field, Holds, ForestOf, Named, Abs, Made, Struct, Strings;
    MadeIs(s, t);
    HoldsParses(s, f);
  }
}
