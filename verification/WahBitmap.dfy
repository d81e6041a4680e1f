// The WAH bitmap as it is updated in place.
module Wah {
  import opened Words
  import opened WahCode
  import opened WahGroups

  class WahBitmap {
    var blocks: seq<Word>
    var numLast: nat
    var numBits: nat

    // The bit sequence that the bitmap stands for.
    ghost var bits: seq<bool>

    /** The last word is an incomplete literal: numLast bits in use, the others zero. The words
        before it are packed. */
    ghost predicate Shape()
      reads this`blocks, this`numLast
    {
      && blocks != [] && numLast <= LITERAL
      && blocks[|blocks| - 1] == Pad(blocks[|blocks| - 1][..numLast])
      && Packed(blocks[..|blocks| - 1])
    }

    /** The bits of the complete words. */
    ghost function Front(): seq<bool>
      requires blocks != []
      reads this`blocks
    {
      WordsBits(blocks[..|blocks| - 1])
    }

    /** The bits in the active word. */
    ghost function Active(): seq<bool>
      requires blocks != [] && numLast <= LITERAL
      reads this`blocks, this`numLast
    {
      blocks[|blocks| - 1][..numLast]
    }

    ghost predicate Valid()
      reads this
    {
      && numBits == |bits|
      && (blocks == [] <==> bits == [])
      && (numLast == 0 && bits != [] ==> |bits| >= 2 * LITERAL)
      && if blocks == [] then numLast == 0
         else Shape() && bits == Front() + Active()
    }

    lemma Split()
      requires Valid()
      ensures Splits(bits, numLast)
    {
      hide WordsBits, Groups;
    }

    /** The words are determined by the bits and by how many of them are in the last word. */
    lemma Words()
      requires Valid() && |bits| <= LIMIT
      ensures Splits(bits, numLast) && blocks == Code(bits, numLast)
    {
      if blocks != [] {
        hide WordsBits, Pad, Groups, Packed, Code;
        PackedCode(blocks[..|blocks| - 1], Front(), Active());
        assert blocks == blocks[..|blocks| - 1] + [blocks[|blocks| - 1]];
      }
    }

    constructor ()
      ensures Valid() && bits == []
    {
      blocks, numLast, numBits, bits := [], 0, 0, [];
    }

    method MergeActiveWord()
      requires Shape() && blocks != [] && numLast == LITERAL
      modifies this`blocks, this`numLast
      ensures Shape() && numLast == 0
      ensures Front() == old(Front() + Active())
      ensures |blocks| >= 2
    {
      hide MakeFill, FillCount, FillBit, WordsBits, WordBits, Pad, AllOrNoneLiteral, Packed;
      var w := blocks[|blocks| - 1];
      ghost var front, t := blocks[..|blocks| - 1], w[..LITERAL];
      CleanLiteral(t);
      assert blocks == front + [w];
      if AllOrNoneLiteral(w) {
        if |blocks| == 1 {
          blocks := [MakeFill(w != NONE, 1)];
        } else {
          var fillType := w != NONE;
          var prev := blocks[|blocks| - 2];
          if IsFillOf(prev, fillType) && FillCount(prev) < MAX_FILL {
            blocks := blocks[|blocks| - 2 := MakeFill(fillType, FillCount(prev) + 1)];
            blocks := blocks[..|blocks| - 1];
          } else {
            blocks := blocks[|blocks| - 1 := MakeFill(fillType, 1)];
          }
        }
      }
      assert blocks == AddGroup(front, t);
      AddGroupBits(front, t);
      PackedAdd(front, t);
      PadNothing();
      blocks := blocks + [NONE];
      numLast := 0;
      assert blocks[..|blocks| - 1] + [NONE] == blocks;
      assert blocks[..|blocks| - 1] == AddGroup(front, t);
    }

    constructor Filled(n: nat, bit: bool)
      ensures Valid() && bits == Repeat(bit, n)
    {
      blocks, numLast, numBits, bits := [], 0, 0, [];
      new;
      AppendBits(bit, n);
    }

    /** Makes sure there is an active word with room for a bit. */
    method OpenActiveWord()
      requires Valid()
      modifies this`blocks, this`numLast
      ensures Shape() && blocks != [] && numLast < LITERAL
      ensures bits == Front() + Active()
    {
      if blocks == [] {
        PadNothing();
        PackedNone();
        blocks := [NONE];
      } else if numLast == LITERAL {
        MergeActiveWord();
      }
    }

    lemma FrontWhole()
      requires Shape()
      ensures |Front()| % LITERAL == 0
    {
    }

    /** Or-s bits into the active word. */
    method FillActiveWord(ghost t: seq<bool>, k: nat, word: Word)
      requires Shape() && k == |t| && numLast + k <= LITERAL
      requires Or(Pad(Active()), word) == Pad(Active() + t)
      modifies this`blocks, this`numLast
      ensures Shape() && blocks != [] && numLast == old(numLast) + k
      ensures Front() + Active() == old(Front() + Active()) + t
    {
      hide Pad, Or, WordsBits, Packed;
      blocks := blocks[|blocks| - 1 := Or(blocks[|blocks| - 1], word)];
      numLast := numLast + k;
      assert blocks[..|blocks| - 1] == old(blocks)[..|blocks| - 1];
      AppendAssociative(Front(), old(Active()), t);
    }

    method AppendBit(bit: bool)
      requires Valid()
      modifies this
      ensures Valid() && bits == old(bits) + [bit]
      ensures numLast == InUse(|bits|)
    {
      hide Pad, Or, ShiftLeft, WordsBits, Packed, InUse;
      OpenActiveWord();
      OrRun(Active(), bit, 1);
      assert Repeat(bit, 1) == [bit];
      OrNone(Pad(Active()), numLast);
      FillActiveWord([bit], 1, ShiftLeft(if bit then LsbFill(1) else NONE, numLast));
      numBits, bits := numBits + 1, bits + [bit];
      FrontWhole();
      UseBehind(|Front()|, numLast);
    }

    method AppendBlock(value: Word, k: nat)
      requires Valid() && 0 < k <= WIDTH
      modifies this
      ensures Valid() && bits == old(bits) + value[..k]
      ensures numLast == InUse(|bits|)
    {
      hide Pad, Or, ShiftLeft, And, LsbFill, ShiftRight, WordsBits, Shape, Packed, InUse;
      OpenActiveWord();
      var unused := LITERAL - numLast;
      var inject := if unused < k then unused else k;
      OrShifted(Active(), value, inject);
      FillActiveWord(value[..inject], inject, ShiftLeft(And(value, LsbFill(inject)), numLast));
      numBits, bits := numBits + inject, bits + value[..inject];
      FrontWhole();
      UseBehind(|Front()|, numLast);
      if k <= inject {
        return;
      }
      MergeActiveWord();
      var remaining := k - inject;
      AndShifted(value, inject, remaining);
      SetActiveWord(value[inject..k], remaining, And(ShiftRight(value, inject), LsbFill(remaining)));
      numBits, bits := numBits + remaining, bits + value[inject..k];
      SplitPrefix(value, inject, k);
      AppendAssociative(old(bits), value[..inject], value[inject..k]);
      FrontWhole();
      UseBehind(|Front()|, numLast);
    }

    lemma SplitPrefix(value: Word, i: nat, k: nat)
      requires i <= k <= WIDTH
      ensures value[..i] + value[i..k] == value[..k]
    {
    }

    /** Overwrites an empty active word. */
    method SetActiveWord(ghost t: seq<bool>, k: nat, word: Word)
      requires Shape() && numLast == 0 && k == |t| <= LITERAL && word == Pad(t)
      modifies this`blocks, this`numLast
      ensures Shape() && blocks != [] && numLast == k
      ensures Front() + Active() == old(Front()) + t
    {
      blocks := blocks[|blocks| - 1 := word];
      numLast := k;
      assert blocks[..|blocks| - 1] == old(blocks)[..|blocks| - 1];
    }

    /** Appends fill words behind the complete words. */
    method AppendFills(bit: bool, count: nat)
      requires blocks != [] && Packed(blocks)
      modifies this`blocks
      ensures blocks != [] && Packed(blocks)
      ensures WordsBits(blocks) == WordsBits(old(blocks)) + Repeat(bit, LITERAL * count)
    {
      hide MakeFill, FillCount, FillBit, WordsBits, Packed;
      ghost var was, start, done: nat := blocks, WordsBits(blocks), 0;
      ghost var fits := |start| + LITERAL * count <= LIMIT;
      assert start + Repeat(bit, 0) == start;
      var fills: nat := count;
      var last := |blocks| - 1;
      if IsFillOf(blocks[last], bit) && FillCount(blocks[last]) + fills <= MAX_FILL {
        GrowFill(blocks, bit, fills);
        RunIntoFill(blocks, bit, fills);
        blocks := blocks[last := MakeFill(bit, FillCount(blocks[last]) + fills)];
        fills, done := 0, count;
      } else if IsFillOf(blocks[last], bit) {
        FillWithin(blocks);
      }
      while fills > MAX_FILL
        modifies this`blocks
        invariant blocks != [] && done + fills == count
        invariant WordsBits(blocks) == start + Repeat(bit, LITERAL * done)
        invariant fits && done == count ==> blocks == AddRun(was, bit, count)
        invariant fits && done < count ==> blocks == was && done == 0 && !IsFillOf(was[last], bit)
        decreases fills
      {
        AddFills(start, bit, done, MAX_FILL, done + MAX_FILL);
        PushFill(blocks, bit, MAX_FILL);
        blocks := blocks + [MakeFill(bit, MAX_FILL)];
        fills, done := fills - MAX_FILL, done + MAX_FILL;
      }
      if fills > 0 {
        AddFills(start, bit, done, fills, count);
        PushFill(blocks, bit, fills);
        if fits {
          RunBehind(blocks, bit, fills);
        }
        blocks := blocks + [MakeFill(bit, fills)];
      }
      PackedRun(was, bit, count, blocks);
    }

    lemma AddFills(start: seq<bool>, bit: bool, c: nat, d: nat, n: nat)
      requires n == c + d
      ensures start + Repeat(bit, LITERAL * c) + Repeat(bit, LITERAL * d) == start + Repeat(bit, LITERAL * n)
    {
    }

    method AppendBits(bit: bool, n: nat)
      requires Valid()
      modifies this
      ensures Valid() && bits == old(bits) + Repeat(bit, n)
      ensures numLast == if n == 0 then old(numLast) else InUseAfterRun(old(|bits|), n)
    {
      hide Pad, Or, ShiftLeft, LsbFill, WordsBits, Shape, Packed, InUseAfterRun;
      if n == 0 {
        return;
      }
      OpenActiveWord();
      FrontWhole();
      UseOfRun(|Front()|, numLast, n);
      // As many bits as the active word has room for.
      var unused := LITERAL - numLast;
      var inject := if unused < n then unused else n;
      OrRun(Active(), bit, inject);
      OrNone(Pad(Active()), numLast);
      FillActiveWord(Repeat(bit, inject), inject, ShiftLeft(if bit then LsbFill(inject) else NONE, numLast));
      numBits, bits := numBits + inject, bits + Repeat(bit, inject);
      if n <= inject {
        return;
      }
      MergeActiveWord();
      AppendRun(bit, n - inject);
      assert Repeat(bit, inject) + Repeat(bit, n - inject) == Repeat(bit, n);
      AppendAssociative(old(bits), Repeat(bit, inject), Repeat(bit, n - inject));
    }

    /** Appends a run behind an empty active word. */
    method AppendRun(bit: bool, m: nat)
      requires Shape() && bits == Front() + Active() && numBits == |bits| && |bits| >= LITERAL
      requires |blocks| >= 2 && numLast == 0 && m > 0
      modifies this
      ensures Valid() && bits == old(bits) + Repeat(bit, m)
      ensures numLast == m % LITERAL
    {
      hide Pad, LsbFill, WordsBits, Packed;
      FrontWhole();
      blocks := blocks[..|blocks| - 1];
      var fills, partial := m / LITERAL, m % LITERAL;
      AppendFills(bit, fills);
      RunWord(bit, partial);
      PadNothing();
      ghost var front := blocks;
      blocks := blocks + [if partial > 0 && bit then LsbFill(partial) else NONE];
      numLast := partial;
      numBits, bits := numBits + m, bits + Repeat(bit, m);
      assert blocks[..|blocks| - 1] == front;
      assert Repeat(bit, m) == Repeat(bit, LITERAL * fills) + Repeat(bit, partial);
      assert partial == 0 ==> Repeat(bit, partial) == [];
      assert blocks[|blocks| - 1] == Pad(Repeat(bit, partial));
    }

    method Flip()
      requires Valid()
      modifies this
      ensures Valid() && bits == Complement(old(bits))
      ensures numLast == old(numLast)
    {
      hide Pad, WordsBits, FlipWord, UnusedMask, Packed;
      if blocks == [] {
        assert Complement(bits) == bits;
        return;
      }
      ghost var was, t := blocks, Active();
      var i := 0;
      while i < |blocks|
        modifies this`blocks
        invariant 0 <= i <= |blocks| == |was|
        invariant forall j :: 0 <= j < i ==> blocks[j] == FlipWord(was[j])
        invariant forall j :: i <= j < |was| ==> blocks[j] == was[j]
      {
        blocks := blocks[i := FlipWord(blocks[i])];
        i := i + 1;
      }
      // The unused bits of the active word must stay zero.
      blocks := blocks[|blocks| - 1 := Xor(blocks[|blocks| - 1], UnusedMask(numLast))];
      FlipActive(t);
      FlipWordsBits(was[..|was| - 1], blocks[..|blocks| - 1]);
      PackedFlip(was[..|was| - 1]);
      assert blocks[..|blocks| - 1] == FlipWords(was[..|was| - 1]);
      bits := Complement(bits);
      assert bits == Complement(WordsBits(was[..|was| - 1])) + Complement(t);
    }

    /**
     * Equal words and lengths mean equal bits. The converse holds for bitmaps that split
     * their bits in the same way, and there is only one way for most lengths.
     */
    method Equals(other: WahBitmap) returns (r: bool)
      requires Valid() && other.Valid()
      ensures r ==> bits == other.bits
      ensures |bits| <= LIMIT ==> (r <==> bits == other.bits && numLast == other.numLast)
      ensures |bits| <= LIMIT && (|bits| % LITERAL != 0 || |bits| < 2 * LITERAL) ==> (r <==> bits == other.bits)
    {
      r := blocks == other.blocks && numBits == other.numBits;
      hide WordsBits, Pad, Groups, Packed;
      if |bits| <= LIMIT && |other.bits| == |bits| {
        Words();
        other.Words();
        CodeInjective(bits, numLast, other.bits, other.numLast);
        SplitsInTwoWays(bits, numLast);
        SplitsInTwoWays(other.bits, other.numLast);
      }
    }
  }
}
