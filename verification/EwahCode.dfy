// The EWAH code of a bit sequence: what the block vector of an EWAH bitmap has to be.
//
// A code is a list of segments. A segment is a marker (the type and number of its
// clean words and the number of its dirty words) followed by the dirty words it
// announces. A bitmap stores the segments of all complete words but the last, and then
// the last word as a plain literal.
module EwahCode {
  import opened Words

  const DIRTY_MAX: nat := 0x7fff_ffff
  const CLEAN_MAX: nat := 0xffff_ffff

  datatype Block = Literal(word: Word) | Marker(bit: bool, clean: nat, dirty: nat)

  // -- segments -----------------------------------------------------------------

  datatype Segment = Segment(bit: bool, clean: nat, dirty: seq<Word>)

  function Literals(ws: seq<Word>): (bs: seq<Block>)
    ensures |bs| == |ws|
  {
    seq(|ws|, i requires 0 <= i < |ws| => Literal(ws[i]))
  }

  function FlattenSegment(g: Segment): (bs: seq<Block>)
    ensures |bs| == 1 + |g.dirty|
  {
    [Marker(g.bit, g.clean, |g.dirty|)] + Literals(g.dirty)
  }

  function Flatten(gs: seq<Segment>): seq<Block> {
    if gs == [] then [] else Flatten(gs[..|gs| - 1]) + FlattenSegment(gs[|gs| - 1])
  }

  /** The position of the last marker among the flattened segments. */
  function MarkerIndex(gs: seq<Segment>): nat {
    if gs == [] then 0 else |Flatten(gs[..|gs| - 1])|
  }

  function Concat(ws: seq<Word>): (s: seq<bool>)
    ensures |s| == WIDTH * |ws|
  {
    if ws == [] then [] else Concat(ws[..|ws| - 1]) + ws[|ws| - 1]
  }

  function SegmentBits(g: Segment): seq<bool> {
    Repeat(g.bit, WIDTH * g.clean) + Concat(g.dirty)
  }

  /** The bits that a list of segments stands for. */
  function Bits(gs: seq<Segment>): seq<bool> {
    if gs == [] then [] else Bits(gs[..|gs| - 1]) + SegmentBits(gs[|gs| - 1])
  }

  ghost predicate SegmentInRange(g: Segment) {
    g.clean <= CLEAN_MAX && |g.dirty| <= DIRTY_MAX
  }

  ghost predicate InRange(gs: seq<Segment>) {
    forall k :: 0 <= k < |gs| ==> SegmentInRange(gs[k])
  }

  const EMPTY_SEGMENT := Segment(false, 0, [])

  /** Adds one word of equal bits behind the segments. */
  function AddClean(gs: seq<Segment>, bit: bool): (r: seq<Segment>)
    requires gs != []
    ensures r != []
  {
    var last := |gs| - 1;
    var g := gs[last];
    if g.dirty == [] && g.clean == 0 then
      gs[last := Segment(bit, 1, [])]
    else if g.dirty == [] && g.bit == bit && g.clean != CLEAN_MAX then
      gs[last := Segment(bit, g.clean + 1, [])]
    else
      gs + [Segment(bit, 1, [])]
  }

  /** Adds one word of mixed bits behind the segments. */
  function AddDirty(gs: seq<Segment>, w: Word): (r: seq<Segment>)
    requires gs != []
    ensures r != []
  {
    var last := |gs| - 1;
    var g := gs[last];
    if |g.dirty| == DIRTY_MAX then
      gs + [Segment(false, 0, [w])]
    else
      gs[last := Segment(g.bit, g.clean, g.dirty + [w])]
  }

  /** Adds one complete word behind the segments. */
  function Integrate(gs: seq<Segment>, w: Word): (r: seq<Segment>)
    requires gs != []
    ensures r != []
  {
    if AllOrNone(w) then AddClean(gs, w == ALL) else AddDirty(gs, w)
  }

  /** The segments of a list of words. */
  function Encode(ws: seq<Word>): (gs: seq<Segment>)
    ensures gs != []
  {
    if ws == [] then [EMPTY_SEGMENT] else Integrate(Encode(ws[..|ws| - 1]), ws[|ws| - 1])
  }

  lemma EncodeAppend(ws: seq<Word>, w: Word)
    ensures Encode(ws + [w]) == Integrate(Encode(ws), w)
  {
    assert (ws + [w])[..|ws|] == ws;
  }

  // -- the blocks of a bitmap -----------------------------------------------------

  /** The number of complete words that precede the last word. */
  function NumFull(n: nat): (k: nat)
    requires n > 0
    ensures 0 < n - WIDTH * k <= WIDTH
  {
    (n - 1) / WIDTH
  }

  /** The first k words of a bit sequence. */
  function FirstWords(s: seq<bool>, k: nat): (ws: seq<Word>)
    requires WIDTH * k <= |s|
    ensures |ws| == k
  {
    seq(k, i requires 0 <= i < k => s[WIDTH * i..WIDTH * (i + 1)])
  }

  function Segments(s: seq<bool>): (gs: seq<Segment>)
    requires s != []
    ensures gs != []
  {
    Encode(FirstWords(s, NumFull(|s|)))
  }

  function Tail(s: seq<bool>): (t: seq<bool>)
    requires s != []
    ensures 0 < |t| <= WIDTH
  {
    s[WIDTH * NumFull(|s|)..]
  }

  /** The one block vector that represents a bit sequence. */
  function Blocks(s: seq<bool>): seq<Block> {
    if s == [] then [] else Flatten(Segments(s)) + [Literal(Pad(Tail(s)))]
  }

  function LastMarker(s: seq<bool>): nat {
    if s == [] then 0 else MarkerIndex(Segments(s))
  }

  // -- appending -------------------------------------------------------------------

  lemma FirstWordsPrefix(s: seq<bool>, t: seq<bool>, k: nat)
    requires WIDTH * k <= |s|
    ensures FirstWords(s + t, k) == FirstWords(s, k)
  {
    forall i | 0 <= i < k
      ensures FirstWords(s + t, k)[i] == FirstWords(s, k)[i]
    {
      assert (s + t)[WIDTH * i..WIDTH * (i + 1)] == s[WIDTH * i..WIDTH * (i + 1)];
    }
  }

  /** Bits that still fit into the last word leave the segments alone. */
  lemma ExtendWithin(s: seq<bool>, t: seq<bool>)
    requires s != [] && |Tail(s)| + |t| <= WIDTH
    ensures Segments(s + t) == Segments(s)
    ensures Tail(s + t) == Tail(s) + t
  {
    assert NumFull(|s + t|) == NumFull(|s|);
    FirstWordsPrefix(s, t, NumFull(|s|));
  }

  /** The segments of a sequence of whole words, the last word included. */
  function Whole(s: seq<bool>): (gs: seq<Segment>)
    ensures gs != []
  {
    Encode(FirstWords(s, |s| / WIDTH))
  }

  lemma WholeEmpty()
    ensures Whole([]) == [EMPTY_SEGMENT]
    ensures Flatten(Whole([])) == [Marker(false, 0, 0)] && MarkerIndex(Whole([])) == 0
  {
    assert Flatten([EMPTY_SEGMENT]) == Flatten([]) + FlattenSegment(EMPTY_SEGMENT);
  }

  lemma WholeStep(s: seq<bool>)
    requires s != [] && |s| % WIDTH == 0
    ensures |Tail(s)| == WIDTH && Pad(Tail(s)) == Tail(s)
    ensures Whole(s) == Integrate(Segments(s), Tail(s))
  {
    var k := NumFull(|s|);
    assert WIDTH * (k + 1) == |s|;
    assert FirstWords(s, k + 1)[k] == Tail(s);
    assert FirstWords(s, k + 1) == FirstWords(s, k) + [Tail(s)];
    EncodeAppend(FirstWords(s, k), Tail(s));
  }

  /** Behind whole words, up to a word of bits becomes the new last word. */
  lemma ExtendAtBoundary(s: seq<bool>, t: seq<bool>)
    requires |s| % WIDTH == 0 && 0 < |t| <= WIDTH
    ensures Segments(s + t) == Whole(s)
    ensures Tail(s + t) == t
  {
    var k := |s| / WIDTH;
    assert NumFull(|s + t|) == k;
    FirstWordsPrefix(s, t, k);
  }

  lemma BlocksWithin(s: seq<bool>, t: seq<bool>)
    requires s != [] && |Tail(s)| + |t| <= WIDTH
    ensures Blocks(s) == Flatten(Segments(s)) + [Literal(Pad(Tail(s)))]
    ensures Blocks(s + t) == Flatten(Segments(s)) + [Literal(Pad(Tail(s) + t))]
    ensures LastMarker(s + t) == LastMarker(s)
  {
    ExtendWithin(s, t);
  }

  lemma BlocksAtBoundary(s: seq<bool>, t: seq<bool>)
    requires |s| % WIDTH == 0 && 0 < |t| <= WIDTH
    ensures Blocks(s + t) == Flatten(Whole(s)) + [Literal(Pad(t))]
    ensures LastMarker(s + t) == MarkerIndex(Whole(s))
  {
    ExtendAtBoundary(s, t);
  }

  lemma TailSize(s: seq<bool>)
    requires s != []
    ensures |Tail(s)| == if |s| % WIDTH == 0 then WIDTH else |s| % WIDTH
  {
  }

  /** The segments after c more clean words. */
  ghost function AddRun(gs: seq<Segment>, bit: bool, c: nat): (r: seq<Segment>)
    requires gs != []
    ensures r != []
  {
    if c == 0 then gs else AddClean(AddRun(gs, bit, c - 1), bit)
  }

  lemma FillType(bit: bool)
    ensures AllOrNone(Fill(bit)) && (Fill(bit) == ALL) == bit
  {
    assert Fill(bit)[0] == bit;
  }

  lemma EncodeFill(ws: seq<Word>, bit: bool)
    ensures Encode(ws + [Fill(bit)]) == AddClean(Encode(ws), bit)
  {
    EncodeAppend(ws, Fill(bit));
    FillType(bit);
  }

  lemma {:induction false} EncodeRun(ws: seq<Word>, bit: bool, c: nat)
    ensures Encode(ws + seq(c, _ => Fill(bit))) == AddRun(Encode(ws), bit, c)
  {
    hide Encode, Fill, AddClean;
    var run := seq(c, _ => Fill(bit));
    if c == 0 {
      assert ws + run == ws;
    } else {
      var run' := seq(c - 1, _ => Fill(bit));
      EncodeRun(ws, bit, c - 1);
      EncodeFill(ws + run', bit);
      assert ws + run == (ws + run') + [Fill(bit)];
    }
  }

  lemma FirstWordsRun(s: seq<bool>, bit: bool, n: nat, c: nat)
    requires |s| % WIDTH == 0 && WIDTH * c <= n
    ensures FirstWords(s + Repeat(bit, n), |s| / WIDTH + c)
            == FirstWords(s, |s| / WIDTH) + seq(c, _ => Fill(bit))
  {
    var k, t := |s| / WIDTH, s + Repeat(bit, n);
    var ws, vs := FirstWords(t, k + c), FirstWords(s, k) + seq(c, _ => Fill(bit));
    FirstWordsPrefix(s, Repeat(bit, n), k);
    forall i | 0 <= i < k + c
      ensures ws[i] == vs[i]
    {
      if i < k {
        assert ws[i] == FirstWords(t, k)[i];
      } else {
        assert t[WIDTH * i..WIDTH * (i + 1)] == Fill(bit);
      }
    }
  }

  lemma FullBehindWhole(m: nat, n: nat, c: nat)
    requires m % WIDTH == 0 && n > 0 && c == NumFull(n)
    ensures NumFull(m + n) == m / WIDTH + c
    ensures WIDTH * (m / WIDTH + c) == m + WIDTH * c
  {
  }

  /** Behind whole words, a long run adds clean words and leaves one word of it at the end. */
  lemma ExtendByRun(s: seq<bool>, bit: bool, n: nat, c: nat)
    requires |s| % WIDTH == 0 && n > 0 && c == NumFull(n)
    ensures Segments(s + Repeat(bit, n)) == AddRun(Whole(s), bit, c)
    ensures Tail(s + Repeat(bit, n)) == Repeat(bit, n - WIDTH * c)
  {
    hide NumFull, FirstWords, Encode, AddRun, Fill;
    var k, t := |s| / WIDTH, s + Repeat(bit, n);
    FullBehindWhole(|s|, n, c);
    assert |t| == |s| + n;
    FirstWordsRun(s, bit, n, c);
    EncodeRun(FirstWords(s, k), bit, c);
  }

  lemma {:induction false} AddRunAdd(gs: seq<Segment>, bit: bool, c: nat, d: nat, n: nat)
    requires gs != [] && n == c + d
    ensures AddRun(gs, bit, n) == AddRun(AddRun(gs, bit, c), bit, d)
    decreases d
  {
    if d > 0 {
      AddRunAdd(gs, bit, c, d - 1, n - 1);
    }
  }

  /** A last marker without dirty words, of the right type or empty, absorbs clean words. */
  ghost predicate Absorbs(g: Segment, bit: bool) {
    g.dirty == [] && (g.clean == 0 || g.bit == bit)
  }

  lemma {:induction false} AbsorbRun(gs: seq<Segment>, bit: bool, c: nat)
    requires gs != [] && c > 0
    requires var g := gs[|gs| - 1]; Absorbs(g, bit) && g.clean + c <= CLEAN_MAX
    ensures var last := |gs| - 1;
            AddRun(gs, bit, c) == gs[last := Segment(bit, gs[last].clean + c, [])]
  {
    if c == 1 {
      assert AddRun(gs, bit, 0) == gs;
    } else {
      AbsorbRun(gs, bit, c - 1);
    }
  }

  /** A last marker that takes no more clean words of this type. */
  ghost predicate Closed(g: Segment, bit: bool) {
    g.dirty != [] || (g.clean > 0 && g.bit != bit) || g.clean == CLEAN_MAX
  }

  lemma {:induction false} ShortRun(gs: seq<Segment>, bit: bool, c: nat)
    requires gs != [] && Closed(gs[|gs| - 1], bit) && 0 < c <= CLEAN_MAX
    ensures AddRun(gs, bit, c) == gs + [Segment(bit, c, [])]
    decreases c
  {
    if c == 1 {
      assert AddRun(gs, bit, c - 1) == gs;
    } else {
      ShortRun(gs, bit, c - 1);
    }
  }

  function FullMarkers(bit: bool, q: nat): (gs: seq<Segment>)
    ensures |gs| == q
    ensures forall i :: 0 <= i < q ==> gs[i] == Segment(bit, CLEAN_MAX, [])
  {
    seq(q, _ => Segment(bit, CLEAN_MAX, []))
  }

  lemma {:induction false} FullRun(gs: seq<Segment>, bit: bool, q: nat, n: nat)
    requires gs != [] && Closed(gs[|gs| - 1], bit) && n == q * CLEAN_MAX
    ensures AddRun(gs, bit, n) == gs + FullMarkers(bit, q)
    decreases q
  {
    if q == 0 {
      assert gs + FullMarkers(bit, q) == gs;
    } else {
      var hs, m := gs + FullMarkers(bit, q - 1), n - CLEAN_MAX;
      FullRun(gs, bit, q - 1, m);
      AddRunAdd(gs, bit, m, CLEAN_MAX, n);
      ShortRun(hs, bit, CLEAN_MAX);
      assert hs + [Segment(bit, CLEAN_MAX, [])] == gs + FullMarkers(bit, q);
    }
  }

  /** Clean words behind a closed marker: full markers first, then one for the rest. */
  lemma LongRun(gs: seq<Segment>, bit: bool, n: nat)
    requires gs != [] && Closed(gs[|gs| - 1], bit)
    ensures var q, r := n / CLEAN_MAX, n % CLEAN_MAX;
            AddRun(gs, bit, n) == gs + FullMarkers(bit, q) + (if r > 0 then [Segment(bit, r, [])] else [])
  {
    var q, r := n / CLEAN_MAX, n % CLEAN_MAX;
    var hs, m := gs + FullMarkers(bit, q), n - r;
    FullRun(gs, bit, q, m);
    AddRunAdd(gs, bit, m, r, n);
    if r > 0 {
      ShortRun(hs, bit, r);
    }
  }

  lemma {:induction false} FlattenAppend(gs: seq<Segment>, hs: seq<Segment>)
    ensures Flatten(gs + hs) == Flatten(gs) + Flatten(hs)
  {
    if hs == [] {
      assert gs + hs == gs;
    } else {
      var last := |hs| - 1;
      FlattenAppend(gs, hs[..last]);
      NewSegment(gs + hs[..last], hs[last]);
      assert gs + hs[..last] + [hs[last]] == gs + hs;
      AppendAssociative(Flatten(gs), Flatten(hs[..last]), FlattenSegment(hs[last]));
    }
  }

  lemma {:induction false} FlattenFullMarkers(bit: bool, q: nat)
    ensures Flatten(FullMarkers(bit, q)) == seq(q, _ => Marker(bit, CLEAN_MAX, 0))
  {
    if q > 0 {
      FlattenFullMarkers(bit, q - 1);
      assert FullMarkers(bit, q)[..q - 1] == FullMarkers(bit, q - 1);
    }
  }

  // -- the last segment in the block vector -----------------------------------------

  /** The last marker, as a block. */
  function LastMarkerBlock(gs: seq<Segment>): Block
    requires gs != []
  {
    var g := gs[|gs| - 1];
    Marker(g.bit, g.clean, |g.dirty|)
  }

  lemma LastSegment(gs: seq<Segment>)
    requires gs != []
    ensures var p := MarkerIndex(gs);
            && |Flatten(gs)| == p + 1 + |gs[|gs| - 1].dirty|
            && Flatten(gs)[p] == LastMarkerBlock(gs)
  {
  }

  lemma BumpBlock(gs: seq<Segment>, w: Word)
    requires gs != []
    ensures var last := |gs| - 1;
            var g := gs[last];
            var r := gs[last := Segment(g.bit, g.clean, g.dirty + [w])];
            && MarkerIndex(r) == MarkerIndex(gs) < |Flatten(gs)|
            && Flatten(r) == (Flatten(gs) + [Literal(w)])[MarkerIndex(gs) := Marker(g.bit, g.clean, |g.dirty| + 1)]
  {
    var last := |gs| - 1;
    var g := gs[last];
    var r := gs[last := Segment(g.bit, g.clean, g.dirty + [w])];
    assert r[..last] == gs[..last];
    assert Literals(g.dirty + [w]) == Literals(g.dirty) + [Literal(w)];
  }

  lemma AbsorbBlock(gs: seq<Segment>, bit: bool, clean: nat)
    requires gs != [] && gs[|gs| - 1].dirty == []
    ensures var last := |gs| - 1;
            var r := gs[last := Segment(bit, clean, [])];
            && MarkerIndex(r) == MarkerIndex(gs) == |Flatten(gs)| - 1
            && Flatten(r) == Flatten(gs)[MarkerIndex(gs) := Marker(bit, clean, 0)]
  {
    var last := |gs| - 1;
    var r := gs[last := Segment(bit, clean, [])];
    assert r[..last] == gs[..last];
  }

  lemma NewSegment(gs: seq<Segment>, h: Segment)
    ensures Flatten(gs + [h]) == Flatten(gs) + FlattenSegment(h)
    ensures MarkerIndex(gs + [h]) == |Flatten(gs)|
  {
    assert (gs + [h])[..|gs|] == gs;
  }

  // -- counters stay in range ----------------------------------------------------

  lemma IntegrateInRange(gs: seq<Segment>, w: Word)
    requires gs != [] && InRange(gs)
    ensures InRange(Integrate(gs, w))
  {
  }

  lemma {:induction false} EncodeInRange(ws: seq<Word>)
    ensures InRange(Encode(ws))
  {
    if ws != [] {
      EncodeInRange(ws[..|ws| - 1]);
      IntegrateInRange(Encode(ws[..|ws| - 1]), ws[|ws| - 1]);
    }
  }

  /** Only the very first marker, before any word is integrated, is empty. */
  ghost predicate OnlyFirstEmpty(gs: seq<Segment>)
    requires gs != []
  {
    var g := gs[|gs| - 1];
    g.clean == 0 && g.dirty == [] ==> gs == [EMPTY_SEGMENT] && MarkerIndex(gs) == 0
  }

  lemma EncodeOnlyFirstEmpty(ws: seq<Word>)
    ensures OnlyFirstEmpty(Encode(ws))
  {
  }

  /** A marker that absorbs clean words takes what still fits and leaves the rest. */
  lemma AbsorbSome(gs: seq<Segment>, bit: bool, c: nat, d: nat, n: nat)
    requires gs != [] && n == c + d
    requires var g := gs[|gs| - 1]; Absorbs(g, bit) && g.clean + c <= CLEAN_MAX
    requires c == 0 ==> gs[|gs| - 1].bit == bit
    ensures var last := |gs| - 1;
            var hs := gs[last := Segment(bit, gs[last].clean + c, [])];
            && AddRun(gs, bit, n) == AddRun(hs, bit, d)
            && (d == 0 ==> AddRun(gs, bit, n) == hs)
  {
    AddRunAdd(gs, bit, c, d, n);
    if c > 0 {
      AbsorbRun(gs, bit, c);
    } else {
      var last := |gs| - 1;
      assert gs[last := Segment(bit, gs[last].clean + c, [])] == gs;
    }
  }

  /** The blocks behind a run of clean words that starts with a new marker. */
  lemma LongRunBlocks(gs: seq<Segment>, bit: bool, n: nat)
    requires gs != [] && Closed(gs[|gs| - 1], bit) && n > 0
    ensures var q, r := n / CLEAN_MAX, n % CLEAN_MAX;
            var bs := Flatten(gs) + seq(q, _ => Marker(bit, CLEAN_MAX, 0))
                      + (if r > 0 then [Marker(bit, r, 0)] else []);
            && Flatten(AddRun(gs, bit, n)) == bs
            && MarkerIndex(AddRun(gs, bit, n)) == |bs| - 1
  {
    hide Flatten, AddRun;
    var q, r := n / CLEAN_MAX, n % CLEAN_MAX;
    var hs := gs + FullMarkers(bit, q);
    LongRun(gs, bit, n);
    FlattenAppend(gs, FullMarkers(bit, q));
    FlattenFullMarkers(bit, q);
    if r > 0 {
      NewSegment(hs, Segment(bit, r, []));
    } else {
      assert hs + [] == hs;
      LastSegment(hs);
      assert hs[|hs| - 1] == Segment(bit, CLEAN_MAX, []);
    }
  }
}
