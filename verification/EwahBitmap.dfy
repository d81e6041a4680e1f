// The EWAH bitmap as it is updated in place.
module Ewah {
  import opened Words
  import opened EwahCode
  import opened EwahMeaning
  import opened EwahWords

  const LSB1: Word := LsbFill(1)

  class EwahBitmap {
    var blocks: seq<Block>
    var lastMarker: nat
    var numBits: nat

    // The bit sequence that the bitmap stands for.
    ghost var bits: seq<bool>

    /** The blocks are a function of the bits: no history is left in the representation. */
    ghost predicate Valid()
      reads this
    {
      && numBits == |bits|
      && blocks == Blocks(bits)
      && lastMarker == LastMarker(bits)
    }

    constructor ()
      ensures Valid() && bits == []
    {
      blocks, lastMarker, numBits, bits := [], 0, 0, [];
    }

    constructor Filled(n: nat, bit: bool)
      ensures Valid() && bits == Repeat(bit, n)
    {
      blocks, lastMarker, numBits, bits := [], 0, 0, [];
      new;
      AppendBits(bit, n);
    }

    method BumpDirtyCount(ghost gs: seq<Segment>, ghost w: Word)
      requires gs != [] && InRange(gs) && lastMarker == MarkerIndex(gs)
      requires blocks == Flatten(gs) + [Literal(w)]
      requires !AllOrNone(w)
      modifies this`blocks, this`lastMarker
      ensures blocks == Flatten(Integrate(gs, w))
      ensures lastMarker == MarkerIndex(Integrate(gs, w))
    {
      LastSegment(gs);
      var marker := blocks[lastMarker];
      assert marker == LastMarkerBlock(gs);
      if marker.dirty == DIRTY_MAX {
        NewSegment(gs, Segment(false, 0, [w]));
        var dirtyBlock := blocks[|blocks| - 1];
        blocks := blocks[|blocks| - 1 := Marker(false, 0, 1)];
        lastMarker := |blocks| - 1;
        blocks := blocks + [dirtyBlock];
      } else {
        BumpBlock(gs, w);
        blocks := blocks[lastMarker := marker.(dirty := marker.dirty + 1)];
      }
    }

    method IntegrateLastBlock(ghost gs: seq<Segment>, ghost w: Word)
      requires gs != [] && InRange(gs) && lastMarker == MarkerIndex(gs)
      requires blocks == Flatten(gs) + [Literal(w)]
      modifies this`blocks, this`lastMarker
      ensures blocks == Flatten(Integrate(gs, w))
      ensures lastMarker == MarkerIndex(Integrate(gs, w))
    {
      LastSegment(gs);
      var lastBlock := blocks[|blocks| - 1];
      var blocksAfterMarker := |blocks| - lastMarker - 1;
      if AllOrNone(lastBlock.word) {
        FillType(false);
        var marker := blocks[lastMarker];
        assert marker == LastMarkerBlock(gs);
        var lastBlockType := lastBlock.word != NONE;
        if blocksAfterMarker == 1 && marker.clean == 0 {
          AbsorbBlock(gs, lastBlockType, 1);
          blocks := blocks[lastMarker := marker.(bit := lastBlockType, clean := 1)];
          blocks := blocks[..|blocks| - 1];
        } else if blocksAfterMarker == 1 && lastBlockType == marker.bit && marker.clean != CLEAN_MAX {
          AbsorbBlock(gs, lastBlockType, marker.clean + 1);
          blocks := blocks[lastMarker := marker.(clean := marker.clean + 1)];
          blocks := blocks[..|blocks| - 1];
        } else {
          NewSegment(gs, Segment(lastBlockType, 1, []));
          blocks := blocks[|blocks| - 1 := Marker(lastBlockType, 1, 0)];
          lastMarker := |blocks| - 1;
          assert blocks == Flatten(gs) + FlattenSegment(Segment(lastBlockType, 1, []));
        }
      } else {
        BumpDirtyCount(gs, w);
      }
    }

    /** Brings a bitmap of whole words to the point where a new last block can be pushed. */
    method CloseLastBlock()
      requires Valid() && |bits| % WIDTH == 0
      modifies this`blocks, this`lastMarker
      ensures blocks == Flatten(Whole(bits)) && lastMarker == MarkerIndex(Whole(bits))
    {
      if blocks == [] {
        WholeEmpty();
        blocks := [Marker(false, 0, 0)]; // The first block is a marker that announces nothing yet.
      } else {
        WholeStep(bits);
        EncodeInRange(FirstWords(bits, NumFull(|bits|)));
        IntegrateLastBlock(Segments(bits), Tail(bits));
      }
    }

    method AppendBit(bit: bool)
      requires Valid()
      modifies this
      ensures Valid() && bits == old(bits) + [bit]
    {
      hide Blocks, LastMarker, Segments, Whole, Tail, Flatten, Pad, Or, ShiftLeft, LsbFill;
      var partial := numBits % WIDTH;
      ghost var used, front := [], [];
      if partial == 0 {
        CloseLastBlock();
        BlocksAtBoundary(bits, [bit]);
        front := blocks;
        PadNothing();
        assert [] + [bit] == [bit];
        blocks := blocks + [Literal(NONE)];
      } else {
        TailSize(bits);
        used := Tail(bits);
        BlocksWithin(bits, [bit]);
        front := Flatten(Segments(bits));
      }
      assert blocks == front + [Literal(Pad(used))];
      SetBit(used, bit);
      if bit {
        var last := blocks[|blocks| - 1].word;
        blocks := blocks[|blocks| - 1 := Literal(Or(last, ShiftLeft(LSB1, partial)))];
      }
      numBits := numBits + 1;
      bits := bits + [bit];
    }

    lemma SetBit(used: seq<bool>, bit: bool)
      requires |used| < WIDTH
      ensures (if bit then Or(Pad(used), ShiftLeft(LSB1, |used|)) else Pad(used)) == Pad(used + [bit])
    {
      OrRun(used, bit, 1);
      assert Repeat(bit, 1) == [bit];
    }

    /** Pushes a new last block behind whole words. */
    method PushBlock(ghost t: seq<bool>, word: Word)
      requires |bits| % WIDTH == 0 && numBits == |bits|
      requires blocks == Flatten(Whole(bits)) && lastMarker == MarkerIndex(Whole(bits))
      requires 0 < |t| <= WIDTH && word == Pad(t)
      modifies this`blocks
      ensures blocks == Blocks(bits + t) && lastMarker == LastMarker(bits + t)
    {
      hide Flatten, Whole, Pad;
      BlocksAtBoundary(bits, t);
      blocks := blocks + [Literal(word)];
    }

    /** Or-s bits into the last, still incomplete, block. */
    method FillBlock(ghost t: seq<bool>, word: Word)
      requires Valid() && bits != [] && |Tail(bits)| + |t| <= WIDTH
      requires Or(Pad(Tail(bits)), word) == Pad(Tail(bits) + t)
      modifies this`blocks
      ensures blocks == Blocks(bits + t) && lastMarker == LastMarker(bits + t)
    {
      hide Flatten, Segments, Pad, Or;
      BlocksWithin(bits, t);
      var last := blocks[|blocks| - 1].word;
      blocks := blocks[|blocks| - 1 := Literal(Or(last, word))];
    }

    method AppendBlock(value: Word, k: nat)
      requires Valid() && 0 < k <= WIDTH
      modifies this
      ensures Valid() && bits == old(bits) + value[..k]
    {
      hide Blocks, LastMarker, Flatten, Whole, Pad, Or, ShiftLeft, LsbFill, And, ShiftRight;
      if numBits % WIDTH == 0 {
        CloseLastBlock();
      }
      var partial := numBits % WIDTH;
      if partial == 0 {
        AndFill(value, k);
        PushBlock(value[..k], And(value, LsbFill(k)));
        numBits, bits := numBits + k, bits + value[..k];
      } else {
        TailSize(bits);
        var unused := WIDTH - partial;
        if k <= unused {
          OrShifted(Tail(bits), value, k);
          FillBlock(value[..k], ShiftLeft(And(value, LsbFill(k)), partial));
          numBits, bits := numBits + k, bits + value[..k];
        } else {
          OrShifted(Tail(bits), value, unused);
          FillBlock(value[..unused], ShiftLeft(And(value, LsbFill(unused)), partial));
          numBits, bits := numBits + unused, bits + value[..unused];
          CloseLastBlock();
          var remaining := k - unused;
          AndShifted(value, unused, remaining);
          PushBlock(value[unused..k], And(ShiftRight(value, unused), LsbFill(remaining)));
          numBits, bits := numBits + remaining, bits + value[unused..k];
          assert value[..k] == value[..unused] + value[unused..k];
        }
      }
    }

    /** Stuffs clean words into the last marker and into new markers behind it. */
    method AppendCleanBlocks(ghost gs: seq<Segment>, bit: bool, count: nat)
      requires gs != [] && count > 0 && InRange(gs) && OnlyFirstEmpty(gs)
      requires blocks == Flatten(gs) && lastMarker == MarkerIndex(gs)
      modifies this`blocks, this`lastMarker
      ensures blocks == Flatten(AddRun(gs, bit, count))
      ensures lastMarker == MarkerIndex(AddRun(gs, bit, count))
    {
      hide Flatten, AddRun;
      ghost var last := |gs| - 1;
      ghost var hs := gs;
      var cleanBlocks := count;
      LastSegment(gs);
      var marker := blocks[lastMarker];
      assert marker == LastMarkerBlock(gs) && SegmentInRange(gs[last]);
      // Reuse the last marker if it is of the same type, and the very first one if it is still empty.
      if (lastMarker == |blocks| - 1 && marker.bit == bit) || (lastMarker == 0 && marker == Marker(false, 0, 0)) {
        var available := CLEAN_MAX - marker.clean;
        var newBlocks := if available < cleanBlocks then available else cleanBlocks;
        blocks := blocks[lastMarker := Marker(bit, marker.clean + newBlocks, marker.dirty)];
        cleanBlocks := cleanBlocks - newBlocks;
        AbsorbBlock(gs, bit, marker.clean + newBlocks);
        AbsorbSome(gs, bit, newBlocks, cleanBlocks, count);
        hs := gs[last := Segment(bit, marker.clean + newBlocks, [])];
      }
      if cleanBlocks > 0 {
        var markers, rest := cleanBlocks / CLEAN_MAX, cleanBlocks % CLEAN_MAX;
        LongRunBlocks(hs, bit, cleanBlocks);
        blocks := blocks + seq(markers, _ => Marker(bit, CLEAN_MAX, 0));
        if rest > 0 {
          blocks := blocks + [Marker(bit, rest, 0)];
        }
        lastMarker := |blocks| - 1;
      }
    }

    method AppendBits(bit: bool, n: nat)
      requires Valid()
      modifies this
      ensures Valid() && bits == old(bits) + Repeat(bit, n)
    {
      hide Blocks, LastMarker, Flatten, Whole, Encode, FirstWords, Pad, Or, ShiftLeft, LsbFill;
      if n == 0 {
        return;
      }
      var m := n;
      var partial := numBits % WIDTH;
      if partial > 0 {
        // First use up the room in the last block.
        TailSize(bits);
        var fill := if m < WIDTH - partial then m else WIDTH - partial;
        FillRun(bit, fill, partial);
        numBits, bits := numBits + fill, bits + Repeat(bit, fill);
        m := m - fill;
        assert Repeat(bit, n) == Repeat(bit, fill) + Repeat(bit, m);
        if m == 0 {
          return;
        }
      }
      CloseLastBlock();
      if m <= WIDTH {
        RunWord(bit, m);
        PushBlock(Repeat(bit, m), if bit then LsbFill(m) else NONE);
        numBits, bits := numBits + m, bits + Repeat(bit, m);
        return;
      }
      AppendRun(bit, m);
    }

    method FillRun(bit: bool, fill: nat, partial: nat)
      requires Valid() && bits != [] && partial == |Tail(bits)| && partial + fill <= WIDTH
      modifies this`blocks
      ensures blocks == Blocks(bits + Repeat(bit, fill)) && lastMarker == LastMarker(bits + Repeat(bit, fill))
    {
      hide Flatten, Segments, Pad, Or, ShiftLeft;
      OrRun(Tail(bits), bit, fill);
      BlocksWithin(bits, Repeat(bit, fill));
      if bit {
        var last := blocks[|blocks| - 1].word;
        blocks := blocks[|blocks| - 1 := Literal(Or(last, ShiftLeft(LsbFill(fill), partial)))];
      }
    }

    /** Appends a run behind whole words. */
    method AppendRun(bit: bool, m: nat)
      requires m > WIDTH && |bits| % WIDTH == 0 && numBits == |bits|
      requires blocks == Flatten(Whole(bits)) && lastMarker == MarkerIndex(Whole(bits))
      modifies this
      ensures Valid() && bits == old(bits) + Repeat(bit, m)
    {
      hide Flatten, Encode, FirstWords, AddRun;
      ghost var gs := Whole(bits);
      // The last block is always dirty, so it takes at least one bit of the run.
      var cleanBlocks, remaining := m / WIDTH, m % WIDTH;
      if remaining == 0 {
        cleanBlocks, remaining := cleanBlocks - 1, WIDTH;
      }
      ExtendByRun(bits, bit, m, cleanBlocks);
      EncodeInRange(FirstWords(bits, |bits| / WIDTH));
      EncodeOnlyFirstEmpty(FirstWords(bits, |bits| / WIDTH));
      AppendCleanBlocks(gs, bit, cleanBlocks);
      RunWord(bit, remaining);
      blocks := blocks + [Literal(if bit then LsbFill(remaining) else NONE)];
      numBits, bits := numBits + m, bits + Repeat(bit, m);
    }

    /** Flips all blocks but the last, telling markers from literals by their dirty counts. */
    method FlipFront()
      requires blocks != [] && ChainFrom(blocks, 0)
      modifies this`blocks
      ensures |blocks| == |old(blocks)|
      ensures forall j :: 0 <= j < |blocks| - 1 ==> blocks[j] == FlipBlock(old(blocks)[j])
      ensures blocks[|blocks| - 1] == old(blocks)[|blocks| - 1]
    {
      hide Not;
      ghost var was := blocks;
      var nextMarker, i := 0, 0;
      while i < |blocks| - 1
        modifies this`blocks
        invariant |blocks| == |was|
        invariant 0 <= i <= nextMarker < |was| && ChainFrom(was, nextMarker)
        invariant forall j :: i <= j < nextMarker ==> was[j].Literal?
        invariant forall j :: 0 <= j < i ==> blocks[j] == FlipBlock(was[j])
        invariant forall j :: i <= j < |was| ==> blocks[j] == was[j]
      {
        var block := blocks[i];
        if i == nextMarker {
          if block.clean > 0 {
            blocks := blocks[i := block.(bit := !block.bit)];
          }
          nextMarker := nextMarker + block.dirty + 1;
        } else {
          blocks := blocks[i := Literal(Not(block.word))];
        }
        i := i + 1;
      }
    }

    method Flip()
      requires Valid()
      modifies this
      ensures Valid() && bits == Complement(old(bits))
    {
      hide Tail, Pad, Segments, Flatten, MarkerIndex, And, Not, ChainFrom, FlipBlock;
      if numBits == 0 {
        assert Complement(bits) == bits;
        return;
      }
      Chain(bits);
      BlocksFlip(bits);
      FlipFront();
      // Flip the last block by hand and do not leave unused bits set in it.
      var last := blocks[|blocks| - 1].word;
      var partial := numBits % WIDTH;
      TailSize(bits);
      NotPadded(Tail(bits));
      blocks := blocks[|blocks| - 1 := Literal(if partial > 0 then And(Not(last), LsbFill(partial)) else Not(last))];
      assert blocks == Blocks(Complement(bits));
      bits := Complement(bits);
    }

    /** Comparison of words and lengths, as the bitmap has it, decides equality of the bits. */
    method Equals(other: EwahBitmap) returns (r: bool)
      requires Valid() && other.Valid()
      ensures r <==> bits == other.bits
    {
      EqualityIsLogical(bits, other.bits);
      r := RawAll(blocks) == RawAll(other.blocks) && numBits == other.numBits;
    }
  }
}
