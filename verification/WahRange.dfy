// Iteration over a WAH bitmap, run by run.
module WahRange {
  import opened Words
  import opened Runs
  import opened WahCode
  import opened WahGroups
  import opened Wah

  class WahBitmapRange {
    const bm: WahBitmap
    var begin: nat
    var run: Run

    /** The bits of the first i words; all bits of the bitmap when there are no more words. */
    ghost function Prefix(i: nat): seq<bool>
      requires i <= |bm.blocks|
      reads bm
    {
      if i == |bm.blocks| then bm.bits else WordsBits(bm.blocks[..i])
    }

    /** The current run ends behind word begin. */
    ghost predicate Valid(seen: seq<bool>)
      reads this, bm
    {
      && bm.Valid()
      && begin <= |bm.blocks|
      && (begin == |bm.blocks| ==> seen == bm.bits)
      && (begin < |bm.blocks| ==> seen + RunBits(run) == Prefix(begin + 1))
    }

    constructor (bitmap: WahBitmap)
      requires bitmap.Valid()
      ensures bm == bitmap && Valid([])
    {
      bm, begin, run := bitmap, 0, Run(NONE, 0);
      new;
      if begin != |bm.blocks| {
        Scan();
      }
    }

    predicate Done()
      reads this, bm
    {
      begin == |bm.blocks|
    }

    method Next(ghost seen: seq<bool>)
      requires Valid(seen) && !Done()
      modifies this
      ensures Valid(seen + old(RunBits(run)))
      ensures begin > old(begin)
    {
      begin := begin + 1;
      if begin != |bm.blocks| {
        Scan();
      }
    }

    lemma PrefixStep(i: nat)
      requires bm.Valid() && i < |bm.blocks|
      ensures i + 1 < |bm.blocks| ==> Prefix(i + 1) == Prefix(i) + WordBits(bm.blocks[i])
      ensures i + 1 == |bm.blocks| ==> Prefix(i + 1) == Prefix(i) + bm.blocks[i][..bm.numLast]
      ensures i + 1 == |bm.blocks| ==> !IsFill(bm.blocks[i])
    {
      assert bm.blocks[..i + 1][..i] == bm.blocks[..i];
    }

    method Scan()
      requires bm.Valid() && begin < |bm.blocks|
      modifies this
      ensures old(begin) <= begin < |bm.blocks| && Valid(Prefix(old(begin)))
    {
      hide Prefix, RunBits, FillCount, FillBit;
      PrefixStep(begin);
      var word := bm.blocks[begin];
      if IsFill(word) {
        ScanFills();
      } else if begin + 1 != |bm.blocks| {
        LiteralRun(word, LITERAL);
        run := Run(word, LITERAL);
      } else {
        LiteralRun(word, bm.numLast);
        run := Run(word, bm.numLast);
      }
    }

    lemma LiteralRun(w: Word, k: nat)
      requires k <= LITERAL
      ensures RunBits(Run(w, k)) == w[..k]
    {
    }

    lemma LongerRun(start: seq<bool>, bit: bool, m: nat, n: nat, sum: nat)
      requires sum == m + n
      ensures start + Repeat(bit, m) + Repeat(bit, n) == start + Repeat(bit, sum)
    {
    }

    method ScanFills()
      requires bm.Valid() && begin < |bm.blocks| && IsFill(bm.blocks[begin])
      modifies this
      ensures old(begin) <= begin < |bm.blocks| && Valid(Prefix(old(begin)))
    {
      hide Prefix, RunBits, FillCount, FillBit, WordsBits, Packed, Pad;
      var value := FillBit(bm.blocks[begin]);
      var n: nat := FillCount(bm.blocks[begin]) * LITERAL;
      PrefixStep(begin);
      ghost var start := Prefix(begin);
      begin := begin + 1;
      while begin != |bm.blocks| && IsFillOf(bm.blocks[begin], value)
        invariant old(begin) < begin < |bm.blocks|
        invariant start + Repeat(value, n) == Prefix(begin)
        decreases |bm.blocks| - begin
      {
        PrefixStep(begin);
        var more: nat := FillCount(bm.blocks[begin]) * LITERAL;
        LongerRun(start, value, n, more, n + more);
        n := n + more;
        begin := begin + 1;
      }
      FillRunBits(value, n);
      run := Run(Fill(value), n);
      begin := begin - 1;
    }
  }

  /** Iterating a bitmap ends, and its runs are the bitmap. */
  method Iterate(bm: WahBitmap) returns (runs: seq<Run>)
    requires bm.Valid()
    ensures AllBits(runs) == bm.bits
  {
    var range := new WahBitmapRange(bm);
    runs := [];
    while !range.Done()
      invariant range.bm == bm && bm.Valid()
      invariant range.Valid(AllBits(runs))
      decreases |bm.blocks| - range.begin
    {
      var run := range.run;
      range.Next(AllBits(runs));
      runs := runs + [run];
      assert runs[..|runs| - 1] + [run] == runs;
    }
  }
}
