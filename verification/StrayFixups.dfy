/** An overlay whose fixups store outside the value they are for. */
module StrayFixups {
  import opened Bytes
  import opened Format
  import opened Tree
  import opened Blob
  import opened Walk
  import opened Splicing
  import opened Editor
  import opened Merging
  import opened FixupLaws
  import opened FixupStores
  import opened LocalFixups
  import opened MadeBlob

  /** The property "p". */
  const P: bytes := [112]

  /** A root node with a property of one cell, and fixups that list the place behind it. */
  function StrayTree(): (a: Tree) { Attr(P, Zeros(4), Sub(FIXUPS, Attr(P, Word(4), Done), Done)) }

  function StrayForest(): (f: Forest)
  {
    Node([], Zeros(3), Item(Prop(0, Zeros(4), []),
      Node(FIXUPS, Zeros(3), Item(Prop(0, Word(4), []), Nil), Nil)), Nil)
  }

  /** The structure block of the overlay. */
  function StrayBlock(): (s: bytes)
    ensures |s| == 76
  {
    hide Word;
    Word(BEGIN_NODE) + Zeros(4) + (Word(PROP) + Word(4) + Zeros(4) + Zeros(4)) + (Word(BEGIN_NODE) + FIXUPS + Zeros(4))
    + (Word(PROP) + Word(4) + Zeros(4) + Word(4)) + Word(END_NODE) + Word(END_NODE) + Word(END)
  }

  lemma ZeroWord()
    ensures Word(0) == Zeros(4)
  {
    assert BeBytes(1, 0) == [0] && BeBytes(2, 0) == [0, 0] && BeBytes(3, 0) == [0, 0, 0];
  }

  lemma StrayEnc()
    ensures Wf(StrayForest()) && StrayBlock() == Enc(StrayForest()) + Word(END)
  {
    hide Word;
    ZeroWord();
    var fx := Item(Prop(0, Word(4), []), Nil);
    assert Enc(Nil) == [];
    assert Enc(fx) == Word(PROP) + Word(4) + Word(0) + Word(4);
    var sub := Node(FIXUPS, Zeros(3), fx, Nil);
    assert [0] + Zeros(3) == Zeros(4);
    assert Enc(sub) == Word(BEGIN_NODE) + FIXUPS + Zeros(4) + Enc(fx) + Word(END_NODE);
    var body := Item(Prop(0, Zeros(4), []), sub);
    assert Enc(body) == Word(PROP) + Word(4) + Word(0) + Zeros(4) + Enc(sub);
    assert Enc(StrayForest()) == Word(BEGIN_NODE) + Zeros(4) + Enc(body) + Word(END_NODE);
  }

  lemma StrayHolds()
    ensures Holds(StrayBlock(), StrayForest()) && Named(StrayForest(), P + [0])
    ensures Abs(StrayForest(), P + [0]) == Sub([], StrayTree(), Done)
  {
    hide Word, Enc;
    StrayEnc();
    var t := P + [0];
    NulAtIs(t, 0, 1);
    assert t[0..1] == P;
    assert NameAt(t, 0) == Some(P);
    var fx := Item(Prop(0, Word(4), []), Nil);
    assert Named(fx, t) && Abs(fx, t) == Attr(P, Word(4), Done);
    var sub := Node(FIXUPS, Zeros(3), fx, Nil);
    assert Named(sub, t) && Abs(sub, t) == Sub(FIXUPS, Attr(P, Word(4), Done), Done);
    var body := Item(Prop(0, Zeros(4), []), sub);
    assert Named(body, t) && Abs(body, t) == StrayTree();
  }

  lemma StrayRun()
    ensures FindSubT(StrayTree(), FIXUPS) == Some(Attr(P, Word(4), Done))
    ensures FixRun(StrayTree(), Attr(P, Word(4), Done)) == Run([Store(4, 4)], true)
  {
    hide Word, Unword;
    assert FindSubT(StrayTree().rest, FIXUPS) == Some(Attr(P, Word(4), Done)) by { assert NameMatches(FIXUPS, FIXUPS); }
    assert Word(4)[0..4] == Word(4);
    assert Cells(4, Word(4)) == [Store(4, 4)];
  }

  /** Where a tag of the block stands. */
  lemma StrayTags()
    ensures At(StrayBlock(), 0, EncTok(Begin([], Zeros(3)))) && At(StrayBlock(), 8, EncTok(Prop(0, Zeros(4), [])))
    ensures StrayBlock()[20..24] == Zeros(4) && StrayBlock()[24..28] == Word(BEGIN_NODE)
    ensures StrayBlock()[28..32] == FIXUPS[..4]
  {
    hide Word;
    ZeroWord();
    assert [0] + Zeros(3) == Zeros(4);
    assert StrayBlock()[0..8] == Word(BEGIN_NODE) + [0] + Zeros(3);
    assert StrayBlock()[8..24] == Word(PROP) + Word(4) + Word(0) + Zeros(4);
  }

  /** A word that is no tag, and no length of anything in the block. */
  lemma NoTag()
    ensures Unword(FIXUPS[..4]) == 0x5f5f_6c6f
  {
    var w := FIXUPS[..4];
    assert w == [95, 95, 108, 111];
    assert w[..3] == [95, 95, 108] && w[..2] == [95, 95] && w[..1] == [95] && w[..0] == [];
    assert w[..3][..2] == w[..2] && w[..2][..1] == w[..1] && w[..1][..0] == [];
    assert Be(w[..1]) == 95 && Be(w[..2]) == 95 * 256 + 95 && Be(w[..3]) == (95 * 256 + 95) * 256 + 108;
  }

  /** With another tag at 24 the block does not parse. */
  lemma CutShort(s: bytes)
    requires |s| == 76 && At(s, 0, EncTok(Begin([], Zeros(3)))) && At(s, 8, EncTok(Prop(0, Zeros(4), [])))
    requires Unword(s[24..28]) != BEGIN_NODE && s[28..32] == FIXUPS[..4]
    ensures ForestOf(s).None?
  {
    hide Word, Unword, TokAt, Be;
    NoTag();
    assert TagAt(s, 0) == TagResult(BEGIN_NODE, 8) by {
      hide Unword;
      TagAtTok(s, 0, Begin([], Zeros(3)));
    }
    assert TagAt(s, 8) == TagResult(PROP, 24) by {
      TagAtTok(s, 8, Prop(0, Zeros(4), []));
    }
    assert TagAt(s, 28).next < 0;
    assert TagAt(s, 24).tag != BEGIN_NODE && TagAt(s, 24).tag != PROP;
    hide TagAt, EncTok, At;
    assert Parse(s, 28).Bad?;
    assert Parse(s, 24) == Good(Nil, 24) || Parse(s, 24).Bad?;
    assert Parse(s, 8).Bad? || Parse(s, 8).stop == 24;
    assert Parse(s, 0).Bad?;
  }

  /** On this overlay, which can be edited, the listed place lies behind its value, and moving the cell there, as the
      source does, leaves a block that cannot be read any more. */
  lemma StrayDamages(delta: nat) returns (b: bytes, p: nat)
    requires delta % TWO32 != 0
    ensures Editable(b) && TreeOf(b) == Some(Sub([], StrayTree(), Done))
    ensures FindSubT(StrayTree(), FIXUPS).Some? && !Fixable(StrayTree())
    ensures Fix(StrayTree(), FindSubT(StrayTree(), FIXUPS).value, delta) == Stray
    ensures p + 8 <= |b| && b[p..p + 4] == Zeros(4) && p == Field(b, OFF_STRUCT) + 20
    ensures Editable(MoveCell(b, p + 4, delta)) && TreeOf(MoveCell(b, p + 4, delta)).None?
  {
    hide Word, Unword, Holds, Field, Struct, Strings, Editable, TreeOf, StrayBlock, StrayForest, FixRun, Fix, Made;
    var s, t := StrayBlock(), P + [0];
    b, p := Made(s, t), 76;
    StrayHolds();
    MadeTree(s, t, StrayForest());
    MadeIs(s, t);
    MadeFields(s, t);
    StrayRun();
    StrayIs(StrayTree(), Attr(P, Word(4), Done), delta);
    assert Store(4, 4) in [Store(4, 4)];
    StrayTags();
    MadeMoved(s, t, 24, delta);
    var s' := MoveCell(s, 24, delta);
    MoveCellIs(s, 24, delta, 24);
    Unmoved(s, delta);
    CutShort(s');
    TreeNone(Made(s', t));
    StructSlice(b, 20, 4);
  }

  lemma TreeNone(b: bytes)
    requires Editable(b) && ForestOf(Struct(b)).None?
    ensures TreeOf(b).None?
  {
    hide Field, Struct, ForestOf;
  }

  /** A cell of the structure block, moved in the blob. */
  lemma MadeMoved(s: bytes, t: bytes, off: nat, delta: nat)
    requires Small(s, t) && off + 4 <= |s|
    ensures MoveCell(Made(s, t), 56 + off, delta) == Made(MoveCell(s, off, delta), t)
    ensures Editable(Made(MoveCell(s, off, delta), t))
    ensures Struct(Made(MoveCell(s, off, delta), t)) == MoveCell(s, off, delta)
  {
    hide Word, Unword, Words, Put, Editable, Struct;
    var h := Words(Header(s, t)) + Zeros(16);
    assert Made(s, t) == h + s + t;
    assert Made(s, t)[56 + off..56 + off + 4] == s[off..off + 4];
    var x := Word((Unword(s[off..off + 4]) + delta) % TWO32);
    PutBehind(h, s, off, x);
    PutBefore(h + s, t, 56 + off, x);
    assert Made(MoveCell(s, off, delta), t) == h + MoveCell(s, off, delta) + t;
    MadeIs(MoveCell(s, off, delta), t);
  }

  lemma Unmoved(s: bytes, delta: nat)
    requires |s| == 76 && At(s, 0, EncTok(Begin([], Zeros(3)))) && At(s, 8, EncTok(Prop(0, Zeros(4), [])))
    requires s[28..32] == FIXUPS[..4]
    ensures var s' := MoveCell(s, 24, delta);
      At(s', 0, EncTok(Begin([], Zeros(3)))) && At(s', 8, EncTok(Prop(0, Zeros(4), []))) && s'[28..32] == FIXUPS[..4]
  {
    hide Word, Unword, Put;
    var x := Word((Unword(s[24..28]) + delta) % TWO32);
    PutOutside(s, 24, x, 0, 8);
    PutOutside(s, 24, x, 8, 24);
    PutOutside(s, 24, x, 28, 32);
  }
}
