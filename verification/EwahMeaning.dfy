// What the EWAH code means: the bits its blocks denote, the chain of its markers, its
// complement, and its words as they lie in memory.
module EwahMeaning {
  import opened Words
  import opened EwahCode

  // -- the bits of blocks -----------------------------------------------------------

  function BlockBits(b: Block): seq<bool> {
    match b
    case Literal(w) => w
    case Marker(bit, clean, _) => Repeat(bit, WIDTH * clean)
  }

  /** The bits that all blocks but the last stand for, read in order. */
  function BlocksBits(bs: seq<Block>): seq<bool> {
    if bs == [] then [] else BlocksBits(bs[..|bs| - 1]) + BlockBits(bs[|bs| - 1])
  }

  lemma {:induction false} BlocksBitsAppend(bs: seq<Block>, cs: seq<Block>)
    ensures BlocksBits(bs + cs) == BlocksBits(bs) + BlocksBits(cs)
  {
    if cs == [] {
      assert bs + cs == bs;
    } else {
      var last := |cs| - 1;
      BlocksBitsAppend(bs, cs[..last]);
      assert (bs + cs)[..|bs + cs| - 1] == bs + cs[..last];
      AppendAssociative(BlocksBits(bs), BlocksBits(cs[..last]), BlockBits(cs[last]));
    }
  }

  lemma {:induction false} LiteralsBits(ws: seq<Word>)
    ensures BlocksBits(Literals(ws)) == Concat(ws)
  {
    if ws != [] {
      LiteralsBits(ws[..|ws| - 1]);
      assert Literals(ws)[..|ws| - 1] == Literals(ws[..|ws| - 1]);
    }
  }

  lemma {:induction false} FlattenBits(gs: seq<Segment>)
    ensures BlocksBits(Flatten(gs)) == Bits(gs)
  {
    if gs != [] {
      var last := |gs| - 1;
      var g := gs[last];
      var m := [Marker(g.bit, g.clean, |g.dirty|)];
      FlattenBits(gs[..last]);
      BlocksBitsAppend(Flatten(gs[..last]), FlattenSegment(g));
      BlocksBitsAppend(m, Literals(g.dirty));
      LiteralsBits(g.dirty);
      assert BlocksBits(m) == BlocksBits([]) + Repeat(g.bit, WIDTH * g.clean);
    }
  }

  lemma ReplaceLastBits(gs: seq<Segment>, g: Segment)
    requires gs != []
    ensures Bits(gs[|gs| - 1 := g]) == Bits(gs[..|gs| - 1]) + SegmentBits(g)
    ensures Bits(gs + [g]) == Bits(gs) + SegmentBits(g)
  {
    assert gs[|gs| - 1 := g][..|gs| - 1] == gs[..|gs| - 1];
    assert (gs + [g])[..|gs|] == gs;
  }

  lemma CleanBits(bit: bool, clean: nat)
    ensures SegmentBits(Segment(bit, clean + 1, [])) == Repeat(bit, WIDTH * clean) + Fill(bit)
  {
    assert Repeat(bit, WIDTH * (clean + 1)) == Repeat(bit, WIDTH * clean) + Fill(bit);
  }

  lemma AddCleanBits(gs: seq<Segment>, bit: bool)
    requires gs != []
    ensures Bits(AddClean(gs, bit)) == Bits(gs) + Fill(bit)
  {
    var g := gs[|gs| - 1];
    var n := if g.dirty == [] && g.clean != 0 && g.bit == bit && g.clean != CLEAN_MAX then g.clean else 0;
    CleanBits(bit, n);
    ReplaceLastBits(gs, Segment(bit, n + 1, []));
  }

  lemma AddDirtyBits(gs: seq<Segment>, w: Word)
    requires gs != []
    ensures Bits(AddDirty(gs, w)) == Bits(gs) + w
  {
    var g := gs[|gs| - 1];
    if |g.dirty| == DIRTY_MAX {
      ReplaceLastBits(gs, Segment(false, 0, [w]));
      ConcatAppend([], w);
      assert SegmentBits(Segment(false, 0, [w])) == w;
    } else {
      ReplaceLastBits(gs, Segment(g.bit, g.clean, g.dirty + [w]));
      ConcatAppend(g.dirty, w);
      AppendAssociative(Repeat(g.bit, WIDTH * g.clean), Concat(g.dirty), w);
      AppendAssociative(Bits(gs[..|gs| - 1]), SegmentBits(g), w);
    }
  }

  lemma ConcatAppend(ws: seq<Word>, w: Word)
    ensures Concat(ws + [w]) == Concat(ws) + w
  {
    assert (ws + [w])[..|ws|] == ws;
  }

  /** Every word integrated is a word more to read. */
  lemma IntegrateBits(gs: seq<Segment>, w: Word)
    requires gs != []
    ensures Bits(Integrate(gs, w)) == Bits(gs) + w
  {
    if AllOrNone(w) {
      FillType(w == ALL);
      AddCleanBits(gs, w == ALL);
    } else {
      AddDirtyBits(gs, w);
    }
  }

  lemma {:induction false} EncodeBits(ws: seq<Word>)
    ensures Bits(Encode(ws)) == Concat(ws)
  {
    if ws == [] {
      assert Bits([EMPTY_SEGMENT]) == Bits([]) + SegmentBits(EMPTY_SEGMENT);
    } else {
      EncodeBits(ws[..|ws| - 1]);
      IntegrateBits(Encode(ws[..|ws| - 1]), ws[|ws| - 1]);
    }
  }

  lemma {:induction false} ConcatFirstWords(s: seq<bool>, k: nat)
    requires WIDTH * k <= |s|
    ensures Concat(FirstWords(s, k)) == s[..WIDTH * k]
  {
    if k > 0 {
      ConcatFirstWords(s, k - 1);
      assert FirstWords(s, k)[..k - 1] == FirstWords(s, k - 1);
    }
  }

  /** Reading the blocks of a bit sequence gives the bit sequence back. */
  lemma Meaning(s: seq<bool>)
    requires s != []
    ensures Blocks(s) != []
    ensures var last := |Blocks(s)| - 1;
            && Blocks(s)[last] == Literal(Pad(Tail(s)))
            && s == BlocksBits(Blocks(s)[..last]) + Tail(s)
  {
    hide Encode, Flatten, FirstWords, NumFull, Pad, BlocksBits, Bits;
    var k := NumFull(|s|);
    FlattenBits(Segments(s));
    EncodeBits(FirstWords(s, k));
    ConcatFirstWords(s, k);
    assert Blocks(s)[..|Blocks(s)| - 1] == Flatten(Segments(s));
  }

  // -- the chain of markers -----------------------------------------------------------

  /**
   * From block i, markers announce exactly the literals behind them, with counters that
   * fit, and the steps from marker to marker end on the final literal.
   */
  predicate ChainFrom(bs: seq<Block>, i: nat)
    decreases |bs| - i
  {
    if i + 1 >= |bs| then
      i + 1 == |bs| && bs[i].Literal?
    else
      && bs[i].Marker?
      && bs[i].clean <= CLEAN_MAX && bs[i].dirty <= DIRTY_MAX
      && i + 1 + bs[i].dirty < |bs|
      && (forall j :: i < j <= i + bs[i].dirty ==> bs[j].Literal?)
      && ChainFrom(bs, i + 1 + bs[i].dirty)
  }

  lemma SegmentAt(gs: seq<Segment>, k: nat)
    requires k < |gs|
    ensures var i, bs := |Flatten(gs[..k])|, Flatten(gs);
            && |Flatten(gs[..k + 1])| == i + 1 + |gs[k].dirty| <= |bs|
            && bs[i] == Marker(gs[k].bit, gs[k].clean, |gs[k].dirty|)
            && forall j :: i < j <= i + |gs[k].dirty| ==> bs[j].Literal?
  {
    hide Flatten;
    NewSegment(gs[..k], gs[k]);
    assert gs[..k] + [gs[k]] == gs[..k + 1];
    FlattenAppend(gs[..k + 1], gs[k + 1..]);
    assert gs[..k + 1] + gs[k + 1..] == gs;
    var i, bs := |Flatten(gs[..k])|, Flatten(gs);
    forall j | i <= j <= i + |gs[k].dirty|
      ensures bs[j] == FlattenSegment(gs[k])[j - i]
    {
    }
  }

  lemma {:induction false} ChainAt(gs: seq<Segment>, w: Word, k: nat)
    requires InRange(gs) && k <= |gs|
    ensures ChainFrom(Flatten(gs) + [Literal(w)], |Flatten(gs[..k])|)
    decreases |gs| - k
  {
    hide Flatten;
    if k == |gs| {
      assert gs[..k] == gs;
    } else {
      ChainAt(gs, w, k + 1);
      SegmentAt(gs, k);
      assert SegmentInRange(gs[k]);
    }
  }

  /** The marker chain of every bitmap is well formed. */
  lemma Chain(s: seq<bool>)
    requires s != []
    ensures ChainFrom(Blocks(s), 0)
  {
    hide Encode, FirstWords, NumFull, Pad;
    assert Flatten([]) == [];
    assert Segments(s)[..0] == [];
    EncodeInRange(FirstWords(s, NumFull(|s|)));
    ChainAt(Segments(s), Pad(Tail(s)), 0);
  }

  // -- complement -----------------------------------------------------------------------

  function FlipBlock(b: Block): Block {
    match b
    case Literal(w) => Literal(Not(w))
    case Marker(bit, clean, dirty) => Marker(if clean > 0 then !bit else bit, clean, dirty)
  }

  function NotAll(ws: seq<Word>): (vs: seq<Word>)
    ensures |vs| == |ws|
  {
    seq(|ws|, i requires 0 <= i < |ws| => Not(ws[i]))
  }

  function FlipSegment(g: Segment): Segment {
    Segment(if g.clean > 0 then !g.bit else g.bit, g.clean, NotAll(g.dirty))
  }

  function FlipSegments(gs: seq<Segment>): (hs: seq<Segment>)
    ensures |hs| == |gs|
  {
    seq(|gs|, i requires 0 <= i < |gs| => FlipSegment(gs[i]))
  }

  function FlipBlocks(bs: seq<Block>): (cs: seq<Block>)
    ensures |cs| == |bs|
  {
    seq(|bs|, i requires 0 <= i < |bs| => FlipBlock(bs[i]))
  }

  lemma NotFill(w: Word)
    ensures AllOrNone(Not(w)) == AllOrNone(w)
    ensures AllOrNone(w) ==> (Not(w) == ALL) == (w != ALL)
  {
    assert Not(NONE) == ALL;
    assert Not(ALL) == NONE;
    assert Not(Not(w)) == w;
    assert NONE[0] != ALL[0];
  }

  lemma IntegrateFlip(gs: seq<Segment>, w: Word)
    requires gs != []
    ensures Integrate(FlipSegments(gs), Not(w)) == FlipSegments(Integrate(gs, w))
  {
    NotFill(w);
    var last := |gs| - 1;
    var g, hs := gs[last], FlipSegments(gs);
    assert hs[last] == FlipSegment(g);
    if AllOrNone(w) {
      assert AddClean(hs, w != ALL) == FlipSegments(AddClean(gs, w == ALL));
    } else {
      assert NotAll(g.dirty + [w]) == NotAll(g.dirty) + [Not(w)];
      assert NotAll([w]) == [Not(w)];
      assert AddDirty(hs, Not(w)) == FlipSegments(AddDirty(gs, w));
    }
  }

  lemma {:induction false} EncodeFlip(ws: seq<Word>)
    ensures Encode(NotAll(ws)) == FlipSegments(Encode(ws))
  {
    if ws == [] {
      assert FlipSegments([EMPTY_SEGMENT]) == [EMPTY_SEGMENT];
    } else {
      var last := |ws| - 1;
      EncodeFlip(ws[..last]);
      IntegrateFlip(Encode(ws[..last]), ws[last]);
      EncodeAppend(NotAll(ws[..last]), Not(ws[last]));
      assert NotAll(ws) == NotAll(ws[..last]) + [Not(ws[last])];
    }
  }

  lemma FlattenFlipSegment(g: Segment)
    ensures FlattenSegment(FlipSegment(g)) == FlipBlocks(FlattenSegment(g))
  {
  }

  lemma FlipBlocksAppend(bs: seq<Block>, cs: seq<Block>)
    ensures FlipBlocks(bs + cs) == FlipBlocks(bs) + FlipBlocks(cs)
  {
  }

  lemma {:induction false} FlattenFlip(gs: seq<Segment>)
    ensures Flatten(FlipSegments(gs)) == FlipBlocks(Flatten(gs))
  {
    hide FlattenSegment, FlipSegment, FlipBlock;
    if gs != [] {
      var last := |gs| - 1;
      FlattenFlip(gs[..last]);
      NewSegment(FlipSegments(gs[..last]), FlipSegment(gs[last]));
      assert FlipSegments(gs) == FlipSegments(gs[..last]) + [FlipSegment(gs[last])];
      FlattenFlipSegment(gs[last]);
      FlipBlocksAppend(Flatten(gs[..last]), FlattenSegment(gs[last]));
    }
  }

  lemma FirstWordsFlip(s: seq<bool>, k: nat)
    requires WIDTH * k <= |s|
    ensures FirstWords(Complement(s), k) == NotAll(FirstWords(s, k))
  {
    forall i | 0 <= i < k
      ensures FirstWords(Complement(s), k)[i] == NotAll(FirstWords(s, k))[i]
    {
      assert Complement(s)[WIDTH * i..WIDTH * (i + 1)] == Not(s[WIDTH * i..WIDTH * (i + 1)]);
    }
  }

  /** Complementing the bits flips every block, except for the unused bits of the last one. */
  lemma BlocksFlip(s: seq<bool>)
    requires s != []
    ensures |Blocks(s)| == |Blocks(Complement(s))| > 0
    ensures LastMarker(Complement(s)) == LastMarker(s)
    ensures var last := |Blocks(s)| - 1;
            && (forall j :: 0 <= j < last ==> Blocks(Complement(s))[j] == FlipBlock(Blocks(s)[j]))
            && Blocks(s)[last] == Literal(Pad(Tail(s)))
            && Blocks(Complement(s))[last] == Literal(Pad(Complement(Tail(s))))
  {
    hide Encode, FirstWords, NumFull, Pad;
    var gs, k := Segments(s), NumFull(|s|);
    FirstWordsFlip(s, k);
    EncodeFlip(FirstWords(s, k));
    FlattenFlip(gs);
    FlattenFlip(gs[..|gs| - 1]);
    assert FlipSegments(gs)[..|gs| - 1] == FlipSegments(gs[..|gs| - 1]);
    assert Tail(Complement(s)) == Complement(Tail(s));
  }
}
