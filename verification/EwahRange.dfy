// Iteration over an EWAH bitmap, run by run.
module EwahRange {
  import opened Words
  import opened Runs
  import opened EwahCode
  import opened EwahMeaning
  import opened Ewah

  /** Block i is next, d literals are left of the current marker, and then the chain goes on. */
  ghost predicate At(bs: seq<Block>, i: nat, d: nat) {
    && i + d < |bs|
    && (forall j :: i <= j < i + d ==> bs[j].Literal?)
    && ChainFrom(bs, i + d)
  }

  /** The bits of the first i blocks; all bits of the bitmap when there are no more blocks. */
  ghost function Prefix(s: seq<bool>, i: nat): seq<bool>
    requires i <= |Blocks(s)|
  {
    if i == |Blocks(s)| then s else BlocksBits(Blocks(s)[..i])
  }

  lemma PrefixStep(s: seq<bool>, i: nat)
    requires i < |Blocks(s)|
    ensures i + 1 < |Blocks(s)| ==> Prefix(s, i + 1) == Prefix(s, i) + BlockBits(Blocks(s)[i])
    ensures i + 1 == |Blocks(s)| ==> s != [] && Prefix(s, i + 1) == Prefix(s, i) + Tail(s)
  {
    var bs := Blocks(s);
    if i + 1 == |bs| {
      Meaning(s);
    } else {
      assert bs[..i + 1][..i] == bs[..i];
    }
  }

  class EwahBitmapRange {
    const bm: EwahBitmap
    var next: nat
    var numDirty: nat
    var run: Run

    /** The current run ends behind block next. */
    ghost predicate Valid(seen: seq<bool>)
      reads this, bm
    {
      && bm.Valid()
      && next <= |bm.blocks|
      && (next == |bm.blocks| ==> seen == bm.bits)
      && (next < |bm.blocks| ==> seen + RunBits(run) == Prefix(bm.bits, next + 1))
      && (next + 1 < |bm.blocks| ==> At(bm.blocks, next + 1, numDirty))
    }

    constructor (bitmap: EwahBitmap)
      requires bitmap.Valid()
      ensures bm == bitmap && Valid([])
    {
      bm, next, numDirty, run := bitmap, 0, 0, Run(NONE, 0);
      new;
      if bm.numBits != 0 {
        Chain(bm.bits);
        Scan();
      }
    }

    predicate Done()
      reads this, bm
    {
      next == |bm.blocks|
    }

    method Next(ghost seen: seq<bool>)
      requires Valid(seen) && !Done()
      modifies this
      ensures Valid(seen + old(RunBits(run)))
      ensures next > old(next)
    {
      hide Blocks, LastMarker, Tail, Pad, RunBits;
      next := next + 1;
      if next != |bm.blocks| {
        Scan();
      }
    }

    method Scan()
      requires bm.Valid() && At(bm.blocks, next, numDirty)
      modifies this
      ensures old(next) <= next && Valid(Prefix(bm.bits, old(next)))
      ensures next < |bm.blocks|
      decreases |bm.blocks| - next
    {
      hide Blocks, LastMarker, Tail, Pad, Prefix;
      PrefixStep(bm.bits, next);
      var block := bm.blocks[next];
      if next + 1 == |bm.blocks| {
        Meaning(bm.bits);
        TailSize(bm.bits);
        var partial := bm.numBits % WIDTH;
        run := Run(block.word, if partial == 0 then WIDTH else partial);
      } else if numDirty > 0 {
        numDirty := numDirty - 1;
        run := Run(block.word, WIDTH);
      } else {
        numDirty := block.dirty;
        if block.clean == 0 {
          assert Prefix(bm.bits, next) + [] == Prefix(bm.bits, next);
          next := next + 1;
          Scan();
        } else {
          ScanClean(block);
        }
      }
    }

    method ScanClean(block: Block)
      requires bm.Valid() && next + 1 < |bm.blocks| && block == bm.blocks[next]
      requires block.Marker? && block.clean > 0 && numDirty == block.dirty
      requires At(bm.blocks, next + 1, numDirty)
      modifies this
      ensures old(next) <= next && Valid(Prefix(bm.bits, old(next)))
      ensures next < |bm.blocks|
    {
      hide Blocks, LastMarker, Tail, Pad, Prefix, RunBits;
      ghost var start := Prefix(bm.bits, next);
      PrefixStep(bm.bits, next);
      var bit, length: nat := block.bit, WIDTH * block.clean;
      while numDirty == 0 && next + 2 < |bm.blocks|
        invariant old(next) <= next && next + 1 < |bm.blocks|
        invariant At(bm.blocks, next + 1, numDirty)
        invariant start + Repeat(bit, length) == Prefix(bm.bits, next + 1)
        decreases |bm.blocks| - next
      {
        var nextMarker := bm.blocks[next + 1];
        if nextMarker.bit != bit {
          break;
        }
        PrefixStep(bm.bits, next + 1);
        assert Repeat(bit, length + WIDTH * nextMarker.clean) == Repeat(bit, length) + BlockBits(nextMarker);
        length := length + WIDTH * nextMarker.clean;
        numDirty := nextMarker.dirty;
        next := next + 1;
      }
      FillRunBits(bit, length);
      run := Run(Fill(bit), length);
    }
  }

  /** Iterating a bitmap ends, and its runs are the bitmap. */
  method Iterate(bm: EwahBitmap) returns (runs: seq<Run>)
    requires bm.Valid()
    ensures AllBits(runs) == bm.bits
  {
    var range := new EwahBitmapRange(bm);
    runs := [];
    while !range.Done()
      invariant range.bm == bm && bm.Valid()
      invariant range.Valid(AllBits(runs))
      decreases |bm.blocks| - range.next
    {
      var run := range.run;
      range.Next(AllBits(runs));
      runs := runs + [run];
      assert runs[..|runs| - 1] + [run] == runs;
    }
  }
}
