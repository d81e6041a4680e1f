// Whole runs of operations on EWAH bitmaps.
module EwahHistories {
  import opened BitmapOps
  import opened EwahCode
  import opened EwahWords
  import opened Ewah

  /** Every operation keeps the bitmap valid and does to its bits what it says. */
  method Perform(bm: EwahBitmap, op: Op)
    requires bm.Valid() && Allowed(op)
    modifies bm
    ensures bm.Valid() && bm.bits == Apply(op, old(bm.bits))
  {
    hide Blocks, LastMarker;
    match op {
      case AppendBit(bit) => bm.AppendBit(bit);
      case AppendBits(bit, n) => bm.AppendBits(bit, n);
      case AppendBlock(value, k) => bm.AppendBlock(value, k);
      case Flip => bm.Flip();
    }
  }

  /** Any run of operations on a fresh bitmap refines the same run on a bit sequence. */
  method Replay(ops: seq<Op>) returns (bm: EwahBitmap)
    requires AllAllowed(ops)
    ensures bm.Valid() && bm.bits == ApplyAll(ops)
  {
    bm := new EwahBitmap();
    for i := 0 to |ops|
      invariant fresh(bm) && bm.Valid() && bm.bits == ApplyAll(ops[..i])
    {
      hide Blocks, LastMarker, Apply, ApplyAll;
      Perform(bm, ops[i]);
      ApplyNext(ops, i);
    }
    assert ops[..|ops|] == ops;
  }

  /**
   * However a bitmap came about, its words, its length and the place of its last marker
   * are those of a bitmap that got the same bits one by one, and two bitmaps hold the
   * same words and length exactly if their histories give the same bits.
   */
  lemma Canonical(ops: seq<Op>, others: seq<Op>)
    requires AllAllowed(ops) && AllAllowed(others)
    ensures var s, t := ApplyAll(ops), ApplyAll(others);
            && (RawAll(Blocks(s)) == RawAll(Blocks(t)) && |s| == |t| <==> s == t)
            && (RawAll(Blocks(s)) == RawAll(Blocks(t)) && |s| == |t| ==> LastMarker(s) == LastMarker(t))
            && Blocks(s) == Blocks(ApplyAll(SingleBits(s)))
            && LastMarker(s) == LastMarker(ApplyAll(SingleBits(s)))
  {
    hide Blocks, LastMarker, ApplyAll, RawAll;
    EqualityIsLogical(ApplyAll(ops), ApplyAll(others));
    ApplySingleBits(ApplyAll(ops));
  }
}
