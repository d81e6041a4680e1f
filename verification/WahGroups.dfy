// The WAH words of a bit sequence: what the complete words of a WAH bitmap have to be.
module WahGroups {
  import opened Words
  import opened WahCode

  // A bitmap counts its bits with a 64-bit number, so no fill ever gets full: one fill word
  // can stand for more bits than there can be.
  const LIMIT: nat := LITERAL * MAX_FILL

  /** Adds a group of 63 bits behind the words: it extends a fill, becomes a fill or a literal. */
  function AddGroup(ws: seq<Word>, t: seq<bool>): (r: seq<Word>)
    requires |t| == LITERAL
    ensures r != []
  {
    if t != Repeat(t[0], LITERAL) then ws + [Pad(t)]
    else if ws != [] && IsFillOf(ws[|ws| - 1], t[0]) && FillCount(ws[|ws| - 1]) < MAX_FILL then
      ws[|ws| - 1 := MakeFill(t[0], FillCount(ws[|ws| - 1]) + 1)]
    else ws + [MakeFill(t[0], 1)]
  }

  /** The words of the first n groups. */
  function Groups(s: seq<bool>, n: nat): seq<Word>
    requires LITERAL * n <= |s|
  {
    if n == 0 then [] else AddGroup(Groups(s, n - 1), s[LITERAL * (n - 1)..LITERAL * n])
  }

  /** All words of a bit sequence whose last word has k bits in use. */
  function Code(s: seq<bool>, k: nat): seq<Word>
    requires Splits(s, k)
  {
    if s == [] then [] else Groups(s, (|s| - k) / LITERAL) + [Pad(s[|s| - k..])]
  }

  // -- the bits in use of the last word ----------------------------------------------------------

  /** After a single bit or a block, the last word holds at least one bit. */
  function InUse(n: nat): nat {
    if n > 0 && n % LITERAL == 0 then LITERAL else n % LITERAL
  }

  /** After a run of n bits behind m bits: a run that outgrows the last word and ends on a
      word boundary leaves an empty word. */
  function InUseAfterRun(m: nat, n: nat): nat {
    if (m + n) % LITERAL == 0 && n > LITERAL - m % LITERAL then 0 else InUse(m + n)
  }

  lemma UseBehind(f: nat, k: nat)
    requires f % LITERAL == 0 && 0 < k <= LITERAL
    ensures InUse(f + k) == k
  {
  }

  lemma UseOfRun(f: nat, u: nat, n: nat)
    requires f % LITERAL == 0 && u < LITERAL && n > 0
    ensures InUseAfterRun(f + u, n) == if u + n <= LITERAL then u + n else (u + n - LITERAL) % LITERAL
  {
    assert (f + u) % LITERAL == u;
    assert (f + u + n) % LITERAL == (u + n) % LITERAL;
  }

  /** The last word may hold k of n bits. */
  predicate LengthSplits(n: nat, k: nat) {
    && k <= LITERAL && k <= n && (n - k) % LITERAL == 0
    && (k == 0 && n > 0 ==> n >= 2 * LITERAL)
  }

  predicate Splits(s: seq<bool>, k: nat) {
    LengthSplits(|s|, k)
  }

  lemma InUseSplits(n: nat)
    ensures LengthSplits(n, InUse(n))
  {
  }

  lemma RunSplits(m: nat, n: nat)
    requires n > 0
    ensures LengthSplits(m + n, InUseAfterRun(m, n))
    ensures (m + n) % LITERAL == 0 && n > LITERAL - m % LITERAL ==> m + n >= 2 * LITERAL
  {
    InUseSplits(m + n);
    if (m + n) % LITERAL == 0 && n > LITERAL - m % LITERAL {
      TwoWords(m, n);
    }
  }

  lemma TwoWords(m: nat, n: nat)
    requires (m + n) % LITERAL == 0 && n > LITERAL - m % LITERAL
    ensures m + n >= 2 * LITERAL
  {
    assert m == LITERAL * (m / LITERAL) + m % LITERAL;
  }

  lemma SplitsInTwoWays(s: seq<bool>, k: nat)
    requires Splits(s, k)
    ensures k == InUse(|s|) || (k == 0 && |s| % LITERAL == 0 && |s| >= 2 * LITERAL)
  {
  }

  // -- adding groups ----------------------------------------------------------------------------

  lemma AddGroupBits(ws: seq<Word>, t: seq<bool>)
    requires |t| == LITERAL
    ensures WordsBits(AddGroup(ws, t)) == WordsBits(ws) + t
  {
    hide MakeFill, FillCount, WordsBits, Pad, FillBit;
    if t != Repeat(t[0], LITERAL) {
      LiteralWord(t);
      WordsBitsPush(ws, Pad(t));
    } else if ws != [] && IsFillOf(ws[|ws| - 1], t[0]) && FillCount(ws[|ws| - 1]) < MAX_FILL {
      GrowFill(ws, t[0], 1);
    } else {
      PushFill(ws, t[0], 1);
    }
  }

  lemma {:induction false} GroupsBits(s: seq<bool>, n: nat)
    requires LITERAL * n <= |s|
    ensures WordsBits(Groups(s, n)) == s[..LITERAL * n]
  {
    hide AddGroup, WordsBits;
    if n == 0 {
      assert WordsBits([]) == [] by { NoBits(); }
    } else {
      GroupsBits(s, n - 1);
      AddGroupBits(Groups(s, n - 1), s[LITERAL * (n - 1)..LITERAL * n]);
    }
  }

  lemma NoBits()
    ensures WordsBits([]) == []
  {
  }

  lemma {:induction false} GroupsPrefix(s: seq<bool>, t: seq<bool>, n: nat)
    requires LITERAL * n <= |s|
    ensures Groups(s + t, n) == Groups(s, n)
  {
    hide AddGroup;
    if n > 0 {
      GroupsPrefix(s, t, n - 1);
      assert (s + t)[LITERAL * (n - 1)..LITERAL * n] == s[LITERAL * (n - 1)..LITERAL * n];
    }
  }

  // -- runs of clean groups ---------------------------------------------------------------------

  /** Adds c groups of equal bits. */
  ghost function AddRun(ws: seq<Word>, bit: bool, c: nat): seq<Word> {
    if c == 0 then ws else AddGroup(AddRun(ws, bit, c - 1), Repeat(bit, LITERAL))
  }

  lemma {:induction false} GroupsRun(s: seq<bool>, bit: bool, n: nat, c: nat, m: nat)
    requires |s| == LITERAL * n && m == n + c
    ensures Groups(s + Repeat(bit, LITERAL * c), m) == AddRun(Groups(s, n), bit, c)
    decreases c
  {
    hide AddGroup;
    var t := s + Repeat(bit, LITERAL * c);
    if c == 0 {
      assert t == s;
    } else {
      var t' := s + Repeat(bit, LITERAL * (c - 1));
      GroupsRun(s, bit, n, c - 1, m - 1);
      assert t == t' + Repeat(bit, LITERAL);
      GroupsPrefix(t', Repeat(bit, LITERAL), m - 1);
      assert t[LITERAL * (m - 1)..LITERAL * m] == Repeat(bit, LITERAL);
    }
  }

  /** A fill of this type absorbs the run. */
  lemma {:induction false} RunIntoFill(ws: seq<Word>, bit: bool, c: nat)
    requires ws != [] && IsFillOf(ws[|ws| - 1], bit) && FillCount(ws[|ws| - 1]) + c <= MAX_FILL
    ensures AddRun(ws, bit, c) == ws[|ws| - 1 := MakeFill(bit, FillCount(ws[|ws| - 1]) + c)]
  {
    hide MakeFill, FillCount, FillBit;
    var last := |ws| - 1;
    if c == 0 {
      FillIsMade(ws[last]);
    } else {
      RunIntoFill(ws, bit, c - 1);
      FillFields(bit, FillCount(ws[last]) + c - 1);
    }
  }

  /** Behind anything else the run becomes a fill of its own. */
  lemma {:induction false} RunBehind(ws: seq<Word>, bit: bool, c: nat)
    requires 0 < c <= MAX_FILL && (ws != [] ==> !IsFillOf(ws[|ws| - 1], bit))
    ensures AddRun(ws, bit, c) == ws + [MakeFill(bit, c)]
    decreases c
  {
    hide MakeFill, FillCount, FillBit;
    if c == 1 {
      assert AddRun(ws, bit, 0) == ws;
    } else {
      RunBehind(ws, bit, c - 1);
      FillFields(bit, c - 1);
    }
  }

  lemma FillIsMade(w: Word)
    requires IsFill(w)
    ensures MakeFill(FillBit(w), FillCount(w)) == w
  {
    FromNatToNat(w[..COUNT_BITS]);
  }

  // -- packed words -----------------------------------------------------------------------------

  /** The words are those of the bits they stand for, as long as no fill is full. */
  ghost predicate Packed(ws: seq<Word>) {
    var s := WordsBits(ws);
    |s| % LITERAL == 0 && (|s| <= LIMIT ==> ws == Groups(s, |s| / LITERAL))
  }

  lemma PackedNone()
    ensures Packed([])
  {
  }

  lemma PackedAdd(ws: seq<Word>, t: seq<bool>)
    requires Packed(ws) && |t| == LITERAL
    ensures Packed(AddGroup(ws, t))
  {
    hide AddGroup, WordsBits;
    AddGroupBits(ws, t);
    var s := WordsBits(ws);
    var n := |s| / LITERAL;
    assert (s + t)[LITERAL * n..LITERAL * (n + 1)] == t;
    GroupsPrefix(s, t, n);
    assert |s + t| / LITERAL == n + 1;
  }

  /** The number of words a fill stands for is no more than there are. */
  lemma FillWithin(ws: seq<Word>)
    requires ws != [] && IsFill(ws[|ws| - 1])
    ensures LITERAL * FillCount(ws[|ws| - 1]) <= |WordsBits(ws)|
  {
  }

  lemma PackedRun(ws: seq<Word>, bit: bool, c: nat, vs: seq<Word>)
    requires Packed(ws) && WordsBits(vs) == WordsBits(ws) + Repeat(bit, LITERAL * c)
    requires |WordsBits(vs)| <= LIMIT ==> vs == AddRun(ws, bit, c)
    ensures Packed(vs)
  {
    hide WordsBits, AddRun, Groups;
    var s, t := WordsBits(ws), WordsBits(vs);
    var n := |s| / LITERAL;
    assert |t| == LITERAL * (n + c);
    assert |t| % LITERAL == 0 && |t| / LITERAL == n + c;
    if |t| <= LIMIT {
      GroupsRun(s, bit, n, c, n + c);
      assert vs == AddRun(Groups(s, n), bit, c);
      assert Groups(t, n + c) == vs;
    }
  }

  /** Packed words and a last word are the code of their bits. */
  lemma PackedCode(ws: seq<Word>, f: seq<bool>, t: seq<bool>)
    requires Packed(ws) && f == WordsBits(ws) && |f + t| <= LIMIT && f + t != [] && |t| <= LITERAL
    requires t == [] ==> |f| >= 2 * LITERAL
    ensures Splits(f + t, |t|) && Code(f + t, |t|) == ws + [Pad(t)]
  {
    hide WordsBits, Pad, Groups;
    var s, n := f + t, |f| / LITERAL;
    GroupsPrefix(f, t, n);
    assert s[|s| - |t|..] == t;
    assert |s| - |t| == |f|;
  }

  // -- equality -----------------------------------------------------------------------------------

  /** Equal words and lengths mean equal bits, equally split, and conversely. */
  lemma CodeInjective(s: seq<bool>, k: nat, t: seq<bool>, l: nat)
    requires Splits(s, k) && Splits(t, l)
    ensures Code(s, k) == Code(t, l) && |s| == |t| <==> s == t && k == l
  {
    hide Groups, Pad, WordsBits;
    if Code(s, k) == Code(t, l) && |s| == |t| && s != [] {
      var n, m := (|s| - k) / LITERAL, (|t| - l) / LITERAL;
      assert Code(s, k)[..|Code(s, k)| - 1] == Groups(s, n);
      assert Code(t, l)[..|Code(t, l)| - 1] == Groups(t, m);
      GroupsBits(s, n);
      GroupsBits(t, m);
      assert LITERAL * n == LITERAL * m;
      assert Pad(s[|s| - k..]) == Pad(t[|t| - l..]);
      assert Pad(s[|s| - k..])[..k] == s[|s| - k..];
      assert s == s[..LITERAL * n] + s[|s| - k..] && t == t[..LITERAL * m] + t[|t| - l..];
    }
  }

  // -- complement -------------------------------------------------------------------------------

  function FlipWords(ws: seq<Word>): (vs: seq<Word>)
    ensures |vs| == |ws| && forall i :: 0 <= i < |ws| ==> vs[i] == FlipWord(ws[i])
  {
    seq(|ws|, i requires 0 <= i < |ws| => FlipWord(ws[i]))
  }

  lemma FlipFill(w: Word, bit: bool)
    ensures IsFillOf(FlipWord(w), !bit) == IsFillOf(w, bit)
    ensures IsFill(w) ==> FillCount(FlipWord(w)) == FillCount(w)
  {
    if IsFill(w) {
      assert FlipWord(w)[..COUNT_BITS] == w[..COUNT_BITS];
    }
  }

  lemma FlipMadeFill(bit: bool, n: nat)
    ensures FlipWord(MakeFill(bit, n)) == MakeFill(!bit, n)
  {
    var w, v := MakeFill(bit, n), MakeFill(!bit, n);
    assert w[..COUNT_BITS] == v[..COUNT_BITS];
    assert forall i :: 0 <= i < COUNT_BITS ==> w[i] == w[..COUNT_BITS][i] && v[i] == v[..COUNT_BITS][i];
  }

  lemma FlipLiteral(t: seq<bool>)
    requires |t| == LITERAL
    ensures FlipWord(Pad(t)) == Pad(Complement(t))
  {
    FlipActive(t);
    assert UnusedMask(LITERAL) == NONE;
  }

  lemma FlipGroup(ws: seq<Word>, t: seq<bool>)
    requires |t| == LITERAL
    ensures AddGroup(FlipWords(ws), Complement(t)) == FlipWords(AddGroup(ws, t))
  {
    hide MakeFill, FillCount, FlipWord, IsFillOf, Pad;
    var u, bit := Complement(t), t[0];
    assert u == Repeat(!bit, LITERAL) <==> t == Repeat(bit, LITERAL) by { CleanFlips(t); }
    if t != Repeat(bit, LITERAL) {
      FlipLiteral(t);
    } else {
      FlipMadeFill(bit, 1);
      if ws != [] {
        var w := ws[|ws| - 1];
        FlipFill(w, bit);
        FlipMadeFill(bit, FillCount(w) + 1);
        if IsFillOf(w, bit) {
          OfIsFill(w, bit);
        }
      }
    }
  }

  lemma OfIsFill(w: Word, bit: bool)
    requires IsFillOf(w, bit)
    ensures IsFill(w)
  {
  }

  lemma CleanFlips(t: seq<bool>)
    requires |t| == LITERAL
    ensures Complement(t) == Repeat(!t[0], LITERAL) <==> t == Repeat(t[0], LITERAL)
  {
    if Complement(t) == Repeat(!t[0], LITERAL) {
      forall i | 0 <= i < LITERAL
        ensures t[i] == t[0]
      {
        assert Complement(t)[i] == !t[0];
      }
    }
  }

  lemma {:induction false} GroupsFlip(s: seq<bool>, n: nat)
    requires LITERAL * n <= |s|
    ensures Groups(Complement(s), n) == FlipWords(Groups(s, n))
  {
    hide AddGroup, FlipWord;
    if n > 0 {
      GroupsFlip(s, n - 1);
      var t := s[LITERAL * (n - 1)..LITERAL * n];
      assert Complement(s)[LITERAL * (n - 1)..LITERAL * n] == Complement(t);
      FlipGroup(Groups(s, n - 1), t);
    }
  }

  lemma PackedFlip(ws: seq<Word>)
    requires Packed(ws)
    ensures Packed(FlipWords(ws))
  {
    hide WordsBits, FlipWord, Groups;
    FlipWordsBits(ws, FlipWords(ws));
    if |WordsBits(ws)| <= LIMIT {
      GroupsFlip(WordsBits(ws), |WordsBits(ws)| / LITERAL);
    }
  }
}
