// WAH words: literals of 63 bits, and fills that stand for many equal literals.
module WahCode {
  import opened Words

  const LITERAL: nat := 63
  const COUNT_BITS: nat := 62
  const MAX_FILL: nat := 0x3fff_ffff_ffff_ffff

  predicate IsFill(w: Word) { w[WIDTH - 1] }
  function FillBit(w: Word): bool { w[WIDTH - 2] }
  function FillCount(w: Word): nat { ToNat(w[..COUNT_BITS]) }

  predicate IsFillOf(w: Word, bit: bool) {
    IsFill(w) && FillBit(w) == bit
  }

  function MakeFill(bit: bool, n: nat): Word {
    FromNat(n, COUNT_BITS) + [bit, true]
  }

  predicate AllOrNoneLiteral(w: Word) {
    w[..LITERAL] == NONE[..LITERAL] || w[..LITERAL] == ALL[..LITERAL]
  }

  /** The bits a word stands for. */
  function WordBits(w: Word): seq<bool> {
    if IsFill(w) then Repeat(FillBit(w), LITERAL * FillCount(w)) else w[..LITERAL]
  }

  function WordsBits(ws: seq<Word>): seq<bool> {
    if ws == [] then [] else WordsBits(ws[..|ws| - 1]) + WordBits(ws[|ws| - 1])
  }

  lemma MaxFill()
    ensures Pow2(COUNT_BITS) == MAX_FILL + 1
  {
    assert Pow2(8) == 256;
    assert Pow2(16) == 0x1_0000;
    assert Pow2(24) == 0x100_0000;
    assert Pow2(32) == 0x1_0000_0000;
    assert Pow2(40) == 0x100_0000_0000;
    assert Pow2(48) == 0x1_0000_0000_0000;
    assert Pow2(56) == 0x100_0000_0000_0000;
  }

  lemma FillFields(bit: bool, n: nat)
    requires n <= MAX_FILL
    ensures var w := MakeFill(bit, n);
            && IsFillOf(w, bit) && FillCount(w) == n
            && WordBits(w) == Repeat(bit, LITERAL * n)
  {
    MaxFill();
    assert MakeFill(bit, n)[..COUNT_BITS] == FromNat(n, COUNT_BITS);
    ToNatFromNat(n, COUNT_BITS);
  }

  lemma WordsBitsPush(ws: seq<Word>, w: Word)
    ensures WordsBits(ws + [w]) == WordsBits(ws) + WordBits(w)
  {
    assert (ws + [w])[..|ws|] == ws;
  }

  lemma LiteralWord(t: seq<bool>)
    requires |t| <= LITERAL
    ensures !IsFill(Pad(t))
    ensures |t| == LITERAL ==> WordBits(Pad(t)) == t
  {
  }

  lemma CleanLiteral(t: seq<bool>)
    requires |t| == LITERAL
    ensures AllOrNoneLiteral(Pad(t)) <==> exists bit :: t == Repeat(bit, LITERAL)
    ensures AllOrNoneLiteral(Pad(t)) ==> t == Repeat(Pad(t) != NONE, LITERAL)
  {
    assert Pad(t)[..LITERAL] == t;
    assert NONE[..LITERAL] == Repeat(false, LITERAL);
    assert ALL[..LITERAL] == Repeat(true, LITERAL);
    assert Pad(t) == NONE <==> t == Repeat(false, LITERAL) by {
      if t == Repeat(false, LITERAL) {
        assert Pad(t) == NONE;
      }
    }
    if AllOrNoneLiteral(Pad(t)) && t != Repeat(false, LITERAL) {
      assert t == Repeat(true, LITERAL);
    }
    if bit :| t == Repeat(bit, LITERAL) {
      assert t == Repeat(false, LITERAL) || t == Repeat(true, LITERAL);
    }
  }

  lemma RepeatSum(bit: bool, c: nat, d: nat, n: nat)
    requires n == c + d
    ensures Repeat(bit, LITERAL * n) == Repeat(bit, LITERAL * c) + Repeat(bit, LITERAL * d)
  {
  }

  /** A fill that takes c more words of its type. */
  lemma GrowFill(ws: seq<Word>, bit: bool, c: nat)
    requires ws != [] && IsFillOf(ws[|ws| - 1], bit)
    requires FillCount(ws[|ws| - 1]) + c <= MAX_FILL
    ensures var last := |ws| - 1;
            WordsBits(ws[last := MakeFill(bit, FillCount(ws[last]) + c)]) == WordsBits(ws) + Repeat(bit, LITERAL * c)
  {
    hide MakeFill, FillCount;
    var last := |ws| - 1;
    var n := FillCount(ws[last]);
    FillFields(bit, n + c);
    WordsBitsPush(ws[..last], MakeFill(bit, n + c));
    WordsBitsPush(ws[..last], ws[last]);
    assert ws == ws[..last] + [ws[last]];
    assert ws[..last] + [MakeFill(bit, n + c)] == ws[last := MakeFill(bit, n + c)];
    hide WordsBits, WordBits;
    RepeatSum(bit, n, c, n + c);
    AppendAssociative(WordsBits(ws[..last]), Repeat(bit, LITERAL * n), Repeat(bit, LITERAL * c));
  }

  lemma PushFill(ws: seq<Word>, bit: bool, c: nat)
    requires c <= MAX_FILL
    ensures WordsBits(ws + [MakeFill(bit, c)]) == WordsBits(ws) + Repeat(bit, LITERAL * c)
  {
    FillFields(bit, c);
    WordsBitsPush(ws, MakeFill(bit, c));
  }

  // -- complement -----------------------------------------------------------------

  const MSB1: Word := Not(LsbFill(WIDTH - 1))

  /** Flips the type of a fill, or the 63 bits of a literal. */
  function FlipWord(w: Word): Word {
    Xor(w, ShiftRight(if IsFill(w) then MSB1 else ALL, 1))
  }

  lemma FlipWordBits(w: Word)
    ensures IsFill(FlipWord(w)) == IsFill(w)
    ensures WordBits(FlipWord(w)) == Complement(WordBits(w))
  {
    if IsFill(w) {
      assert FlipWord(w)[..COUNT_BITS] == w[..COUNT_BITS];
    }
  }

  /** The mask over the unused bits of an active word with k bits in use. */
  function UnusedMask(k: nat): Word
    requires k <= LITERAL
  {
    ShiftLeft(LsbFill(LITERAL - k), k)
  }

  lemma FlipActive(t: seq<bool>)
    requires |t| <= LITERAL
    ensures Xor(FlipWord(Pad(t)), UnusedMask(|t|)) == Pad(Complement(t))
  {
    var a, b := Xor(FlipWord(Pad(t)), UnusedMask(|t|)), Pad(Complement(t));
    LiteralWord(t);
    forall i | 0 <= i < WIDTH
      ensures a[i] == b[i]
    {
      if i < |t| {
        assert Pad(t)[..|t|][i] == t[i] == Pad(t)[i];
        assert Pad(Complement(t))[..|t|][i] == Pad(Complement(t))[i];
      }
    }
  }

  lemma {:induction false} FlipWordsBits(ws: seq<Word>, vs: seq<Word>)
    requires |ws| == |vs| && forall i :: 0 <= i < |ws| ==> vs[i] == FlipWord(ws[i])
    ensures WordsBits(vs) == Complement(WordsBits(ws))
  {
    hide FlipWord, WordBits;
    if ws != [] {
      var last := |ws| - 1;
      FlipWordsBits(ws[..last], vs[..last]);
      FlipWordBits(ws[last]);
    }
  }
}
