// Whole runs of operations on WAH bitmaps.
module WahHistories {
  import opened Words
  import opened BitmapOps
  import opened WahCode
  import opened WahGroups
  import opened Wah

  /** How many bits a run of operations leaves in the last word. */
  function LastUse(ops: seq<Op>): (k: nat)
    requires AllAllowed(ops)
  {
    if ops == [] then 0
    else
      var before, op := ops[..|ops| - 1], ops[|ops| - 1];
      UseAfter(op, |ApplyAll(before)|, LastUse(before))
  }

  /** The same for one operation behind m bits, k of them in the last word. */
  function UseAfter(op: Op, m: nat, k: nat): nat {
    match op
    case AppendBit(_) => InUse(m + 1)
    case AppendBits(_, n) => if n == 0 then k else InUseAfterRun(m, n)
    case AppendBlock(_, n) => InUse(m + n)
    case Flip => k
  }

  method Perform(bm: WahBitmap, op: Op)
    requires bm.Valid() && Allowed(op)
    modifies bm
    ensures bm.Valid() && bm.bits == Apply(op, old(bm.bits))
    ensures bm.numLast == UseAfter(op, old(|bm.bits|), old(bm.numLast))
  {
    hide Pad, WordsBits, Packed, InUse, InUseAfterRun;
    match op {
      case AppendBit(bit) => bm.AppendBit(bit);
      case AppendBits(bit, n) => bm.AppendBits(bit, n);
      case AppendBlock(value, k) => bm.AppendBlock(value, k);
      case Flip => bm.Flip();
    }
  }

  /** Any run of operations on a fresh bitmap refines the same run on a bit sequence, and its
      words are the code of the bits, split as the operations say. */
  method Replay(ops: seq<Op>) returns (bm: WahBitmap)
    requires AllAllowed(ops)
    ensures bm.Valid() && bm.bits == ApplyAll(ops) && bm.numLast == LastUse(ops)
    ensures Splits(bm.bits, bm.numLast)
    ensures |bm.bits| <= LIMIT ==> bm.blocks == Code(bm.bits, bm.numLast)
  {
    bm := new WahBitmap();
    for i := 0 to |ops|
      invariant fresh(bm) && bm.Valid() && bm.bits == ApplyAll(ops[..i]) && bm.numLast == LastUse(ops[..i])
    {
      hide Pad, WordsBits, Packed, Apply, ApplyAll, UseAfter;
      Perform(bm, ops[i]);
      ApplyNext(ops, i);
      assert ops[..i + 1][..i] == ops[..i];
    }
    hide Pad, WordsBits, Packed, Code;
    assert ops[..|ops|] == ops;
    bm.Split();
    if |bm.bits| <= LIMIT {
      bm.Words();
    }
  }

  /** The last operation that appends anything is a run that outgrows the last word and ends
      on a word boundary. */
  predicate LeavesEmpty(ops: seq<Op>)
    requires AllAllowed(ops)
  {
    && ops != []
    && var before, op := ops[..|ops| - 1], ops[|ops| - 1];
       var m := |ApplyAll(before)|;
       match op
       case AppendBits(_, n) =>
         if n == 0 then LeavesEmpty(before) else (m + n) % LITERAL == 0 && n > LITERAL - m % LITERAL
       case Flip => LeavesEmpty(before)
       case _ => false
  }

  lemma {:induction false} UseKnown(ops: seq<Op>)
    requires AllAllowed(ops)
    ensures LastUse(ops) == if LeavesEmpty(ops) then 0 else InUse(|ApplyAll(ops)|)
    ensures Splits(ApplyAll(ops), LastUse(ops))
    ensures LeavesEmpty(ops) ==> |ApplyAll(ops)| % LITERAL == 0 && |ApplyAll(ops)| >= 2 * LITERAL
  {
    if ops != [] {
      var before, op := ops[..|ops| - 1], ops[|ops| - 1];
      UseKnown(before);
      assert Allowed(op);
      var s := ApplyAll(before);
      assert ApplyAll(ops) == Apply(op, s);
      hide InUse, ApplyAll, LengthSplits;
      InUseSplits(|s| + 1);
      match op
      case AppendBit(_) =>
      case AppendBits(_, n) =>
        if n > 0 {
          RunSplits(|s|, n);
        } else {
          assert Apply(op, s) == s;
        }
      case AppendBlock(_, n) => InUseSplits(|s| + n);
      case Flip =>
    }
  }

  /**
   * Two bitmaps have equal words and lengths exactly if their histories give the same bits
   * and both or neither of them ends in an empty word.
   */
  lemma EqualExactly(ops: seq<Op>, others: seq<Op>)
    requires AllAllowed(ops) && AllAllowed(others)
    ensures var s, t := ApplyAll(ops), ApplyAll(others);
            && Splits(s, LastUse(ops)) && Splits(t, LastUse(others))
            && (Code(s, LastUse(ops)) == Code(t, LastUse(others)) && |s| == |t|
                <==> s == t && LeavesEmpty(ops) == LeavesEmpty(others))
  {
    hide Code, ApplyAll, LastUse, LeavesEmpty;
    UseKnown(ops);
    UseKnown(others);
    CodeInjective(ApplyAll(ops), LastUse(ops), ApplyAll(others), LastUse(others));
  }

  /** With a number of bits that does not end on a word boundary, or with less than two words
      of bits, the words alone decide. */
  lemma EqualMostly(ops: seq<Op>, others: seq<Op>)
    requires AllAllowed(ops) && AllAllowed(others)
    requires |ApplyAll(ops)| % LITERAL != 0 || |ApplyAll(ops)| < 2 * LITERAL
    ensures var s, t := ApplyAll(ops), ApplyAll(others);
            && Splits(s, LastUse(ops)) && Splits(t, LastUse(others))
            && (Code(s, LastUse(ops)) == Code(t, LastUse(others)) && |s| == |t| <==> s == t)
  {
    hide Code, ApplyAll, LastUse, LeavesEmpty;
    UseKnown(ops);
    UseKnown(others);
    EqualExactly(ops, others);
  }

  /** 126 zeros appended at once, and one by one: the same bits in different words. */
  lemma ZerosDiffer()
    ensures var zeros := Repeat(false, 126);
            var ops, others := [AppendBits(false, 126)], SingleBits(zeros);
            && AllAllowed(ops) && ApplyAll(ops) == ApplyAll(others) == zeros
            && LastUse(ops) == 0 && LastUse(others) == 63
            && Code(zeros, 0) == [MakeFill(false, 2), NONE] && Code(zeros, 63) == [MakeFill(false, 1), NONE]
            && MakeFill(false, 1) != MakeFill(false, 2)
  {
    hide MakeFill, Code;
    ZerosAtOnce();
    ZerosOneByOne();
    ZerosWords(Repeat(false, 126));
  }

  lemma ZerosAtOnce()
    ensures var ops := [AppendBits(false, 126)];
            AllAllowed(ops) && ApplyAll(ops) == Repeat(false, 126) && LastUse(ops) == 0
  {
    var ops := [AppendBits(false, 126)];
    assert ops[..0] == [];
    assert ApplyAll(ops) == [] + Repeat(false, 126);
  }

  lemma ZerosOneByOne()
    ensures var others := SingleBits(Repeat(false, 126));
            ApplyAll(others) == Repeat(false, 126) && LastUse(others) == 63
  {
    var others := SingleBits(Repeat(false, 126));
    ApplySingleBits(Repeat(false, 126));
    hide ApplyAll;
    UseKnown(others);
    assert !LeavesEmpty(others);
  }

  lemma ZerosWords(zeros: seq<bool>)
    requires zeros == Repeat(false, 126)
    ensures Code(zeros, 0) == [MakeFill(false, 2), NONE] && Code(zeros, 63) == [MakeFill(false, 1), NONE]
    ensures MakeFill(false, 1) != MakeFill(false, 2)
  {
    hide MakeFill, FillCount, FillBit, Groups, Pad, IsFillOf;
    TwoZeroGroups(zeros);
    FillFields(false, 1);
    FillFields(false, 2);
    PadNothing();
    ZeroWord();
    assert zeros[126..] == [] && zeros[63..] == Repeat(false, 63);
  }

  lemma ZeroWord()
    ensures Pad(Repeat(false, LITERAL)) == NONE
  {
  }

  lemma TwoZeroGroups(zeros: seq<bool>)
    requires zeros == Repeat(false, 126)
    ensures Groups(zeros, 1) == [MakeFill(false, 1)] && Groups(zeros, 2) == [MakeFill(false, 2)]
  {
    var t := Repeat(false, LITERAL);
    assert zeros[0..63] == t && zeros[63..126] == t;
    FillFields(false, 1);
    hide MakeFill, FillCount, FillBit;
    assert Groups(zeros, 0) == [];
    assert Groups(zeros, 1) == AddGroup([], t);
    assert Groups(zeros, 2) == AddGroup(Groups(zeros, 1), t);
  }
}
