// EWAH blocks as machine words. A word does not say whether it is a marker or a literal;
// the chain of dirty counts does.
module EwahWords {
  import opened Words
  import opened EwahCode
  import opened EwahMeaning

  const DIRTY_BITS: nat := 31
  const CLEAN_BITS: nat := 32

  function MarkerType(w: Word): bool { w[WIDTH - 1] }
  function NumClean(w: Word): nat { ToNat(w[DIRTY_BITS..WIDTH - 1]) }
  function NumDirty(w: Word): nat { ToNat(w[..DIRTY_BITS]) }

  function MarkerWord(bit: bool, clean: nat, dirty: nat): Word {
    FromNat(dirty, DIRTY_BITS) + FromNat(clean, CLEAN_BITS) + [bit]
  }

  function Raw(b: Block): Word {
    match b
    case Literal(w) => w
    case Marker(bit, clean, dirty) => MarkerWord(bit, clean, dirty)
  }

  function RawAll(bs: seq<Block>): (ws: seq<Word>)
    ensures |ws| == |bs|
  {
    seq(|bs|, i requires 0 <= i < |bs| => Raw(bs[i]))
  }

  lemma Maxima()
    ensures Pow2(DIRTY_BITS) == DIRTY_MAX + 1
    ensures Pow2(CLEAN_BITS) == CLEAN_MAX + 1
  {
    assert Pow2(8) == 256;
    assert Pow2(16) == 65536;
    assert Pow2(24) == 0x100_0000;
  }

  /** The three fields of a marker word can be read back, up to their maxima. */
  lemma MarkerFields(bit: bool, clean: nat, dirty: nat)
    requires clean <= CLEAN_MAX && dirty <= DIRTY_MAX
    ensures var m := MarkerWord(bit, clean, dirty);
            && MarkerType(m) == bit && NumClean(m) == clean && NumDirty(m) == dirty
  {
    Maxima();
    var m := MarkerWord(bit, clean, dirty);
    assert m[..DIRTY_BITS] == FromNat(dirty, DIRTY_BITS);
    assert m[DIRTY_BITS..WIDTH - 1] == FromNat(clean, CLEAN_BITS);
    ToNatFromNat(dirty, DIRTY_BITS);
    ToNatFromNat(clean, CLEAN_BITS);
  }

  lemma RawMarker(b: Block, c: Block)
    requires b.Marker? && b.clean <= CLEAN_MAX && b.dirty <= DIRTY_MAX
    requires c.Marker? && c.clean <= CLEAN_MAX && c.dirty <= DIRTY_MAX
    requires Raw(b) == Raw(c)
    ensures b == c
  {
    MarkerFields(b.bit, b.clean, b.dirty);
    MarkerFields(c.bit, c.clean, c.dirty);
  }

  /** Two well-formed chains made of the same words are the same blocks. */
  lemma {:induction false} RawInjective(bs: seq<Block>, cs: seq<Block>, i: nat)
    requires |bs| == |cs| && ChainFrom(bs, i) && ChainFrom(cs, i)
    requires forall j :: 0 <= j < |bs| ==> Raw(bs[j]) == Raw(cs[j])
    ensures forall j :: i <= j < |bs| ==> bs[j] == cs[j]
    decreases |bs| - i
  {
    hide MarkerWord;
    if i + 1 < |bs| {
      RawMarker(bs[i], cs[i]);
      RawInjective(bs, cs, i + 1 + bs[i].dirty);
    }
  }

  /**
   * Comparing words and lengths decides equality of the bit sequences, and equal words
   * put the last marker at the same place.
   */
  lemma EqualityIsLogical(s: seq<bool>, t: seq<bool>)
    ensures RawAll(Blocks(s)) == RawAll(Blocks(t)) && |s| == |t| <==> s == t
    ensures RawAll(Blocks(s)) == RawAll(Blocks(t)) && |s| == |t| ==> LastMarker(s) == LastMarker(t)
  {
    if RawAll(Blocks(s)) == RawAll(Blocks(t)) && |s| == |t| && s != [] {
      hide Blocks, BlocksBits, MarkerWord;
      var bs, cs := Blocks(s), Blocks(t);
      Chain(s);
      Chain(t);
      forall j | 0 <= j < |bs|
        ensures Raw(bs[j]) == Raw(cs[j])
      {
        assert RawAll(bs)[j] == RawAll(cs)[j];
      }
      RawInjective(bs, cs, 0);
      assert bs == cs;
      Meaning(s);
      Meaning(t);
      SameTail(Tail(s), Tail(t));
    }
  }

  lemma SameTail(t: seq<bool>, u: seq<bool>)
    requires |t| == |u| <= WIDTH && Pad(t) == Pad(u)
    ensures t == u
  {
    assert Pad(t)[..|t|] == t;
  }
}
