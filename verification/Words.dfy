// Fixed-width machine words, seen as the sequence of their bits with the
// least significant bit first, and the word operations the bitmaps are built from.
module Words {

  const WIDTH: nat := 64

  type Word = w: seq<bool> | |w| == WIDTH witness seq(WIDTH, _ => false)

  function Repeat(b: bool, n: nat): (s: seq<bool>)
    ensures |s| == n && forall i :: 0 <= i < n ==> s[i] == b
  {
    seq(n, _ => b)
  }

  /** The bits of a sequence, each one complemented. */
  function Complement(s: seq<bool>): (r: seq<bool>)
    ensures |r| == |s| && forall i :: 0 <= i < |s| ==> r[i] == !s[i]
  {
    seq(|s|, i requires 0 <= i < |s| => !s[i])
  }

  function And(a: seq<bool>, b: seq<bool>): (r: seq<bool>)
    requires |a| == |b|
    ensures |r| == |a| && forall i :: 0 <= i < |a| ==> r[i] == (a[i] && b[i])
  {
    seq(|a|, i requires 0 <= i < |a| => a[i] && b[i])
  }

  function Or(a: seq<bool>, b: seq<bool>): (r: seq<bool>)
    requires |a| == |b|
    ensures |r| == |a| && forall i :: 0 <= i < |a| ==> r[i] == (a[i] || b[i])
  {
    seq(|a|, i requires 0 <= i < |a| => a[i] || b[i])
  }

  function Xor(a: seq<bool>, b: seq<bool>): (r: seq<bool>)
    requires |a| == |b|
    ensures |r| == |a| && forall i :: 0 <= i < |a| ==> r[i] == (a[i] != b[i])
  {
    seq(|a|, i requires 0 <= i < |a| => a[i] != b[i])
  }

  function Fill(b: bool): (w: Word)
    ensures forall i :: 0 <= i < WIDTH ==> w[i] == b
  {
    Repeat(b, WIDTH)
  }

  const NONE: Word := Fill(false)
  const ALL: Word := Fill(true)

  predicate AllOrNone(w: Word) {
    w == NONE || w == ALL
  }

  /** At most WIDTH bits in the low end of a word, the unused high bits zero. */
  function Pad(s: seq<bool>): (w: Word)
    requires |s| <= WIDTH
    ensures w[..|s|] == s
    ensures forall i :: |s| <= i < WIDTH ==> !w[i]
  {
    s + Repeat(false, WIDTH - |s|)
  }

  lemma PadNothing()
    ensures Pad([]) == NONE
  {
  }

  function LsbFill(k: nat): (w: Word)
    requires k <= WIDTH
    ensures forall i :: 0 <= i < WIDTH ==> w[i] == (i < k)
  {
    seq(WIDTH, i => i < k)
  }

  function Not(a: Word): (w: Word)
    ensures forall i :: 0 <= i < WIDTH ==> w[i] == !a[i]
  {
    Complement(a)
  }

  function ShiftLeft(a: Word, k: nat): (w: Word)
    ensures forall i :: 0 <= i < WIDTH ==> w[i] == (i >= k && a[i - k])
  {
    seq(WIDTH, i requires 0 <= i < WIDTH => i >= k && a[i - k])
  }

  function ShiftRight(a: Word, k: nat): (w: Word)
    ensures forall i :: 0 <= i < WIDTH ==> w[i] == (i + k < WIDTH && a[i + k])
  {
    seq(WIDTH, i requires 0 <= i < WIDTH => i + k < WIDTH && a[i + k])
  }

  /** Or-ing the low k bits of v, shifted past the |u| bits in use, appends them. */
  lemma OrShifted(u: seq<bool>, v: Word, k: nat)
    requires |u| + k <= WIDTH
    ensures Or(Pad(u), ShiftLeft(And(v, LsbFill(k)), |u|)) == Pad(u + v[..k])
  {
    var a, b := Or(Pad(u), ShiftLeft(And(v, LsbFill(k)), |u|)), Pad(u + v[..k]);
    forall i | 0 <= i < WIDTH
      ensures a[i] == b[i]
    {
      if i < |u| {
        assert Pad(u)[..|u|][i] == Pad(u)[i];
      }
    }
  }

  lemma AndFill(v: Word, k: nat)
    requires k <= WIDTH
    ensures And(v, LsbFill(k)) == Pad(v[..k])
  {
  }

  lemma AndShifted(v: Word, i: nat, k: nat)
    requires i + k <= WIDTH
    ensures And(ShiftRight(v, i), LsbFill(k)) == Pad(v[i..i + k])
  {
  }

  /** Or-ing in a run of k set bits appends that run; leaving the word alone appends zeros. */
  lemma OrRun(u: seq<bool>, bit: bool, k: nat)
    requires |u| + k <= WIDTH
    ensures (if bit then Or(Pad(u), ShiftLeft(LsbFill(k), |u|)) else Pad(u)) == Pad(u + Repeat(bit, k))
  {
    var b := Pad(u + Repeat(bit, k));
    var a := if bit then Or(Pad(u), ShiftLeft(LsbFill(k), |u|)) else Pad(u);
    forall i | 0 <= i < WIDTH
      ensures a[i] == b[i]
    {
      if i < |u| {
        assert Pad(u)[..|u|][i] == Pad(u)[i];
      }
    }
  }

  lemma RunWord(bit: bool, k: nat)
    requires k <= WIDTH
    ensures (if bit then LsbFill(k) else NONE) == Pad(Repeat(bit, k))
  {
  }

  lemma NotPadded(t: seq<bool>)
    requires |t| <= WIDTH
    ensures And(Not(Pad(t)), LsbFill(|t|)) == Pad(Complement(t))
    ensures |t| == WIDTH ==> Not(Pad(t)) == Pad(Complement(t))
  {
    forall i | 0 <= i < |t|
      ensures Pad(t)[i] == t[i]
    {
      assert Pad(t)[..|t|][i] == t[i];
    }
    assert |t| == WIDTH ==> Not(Pad(t)) == And(Not(Pad(t)), LsbFill(|t|));
  }

  lemma OrNone(w: Word, k: nat)
    ensures Or(w, ShiftLeft(NONE, k)) == w
  {
  }

  lemma AppendAssociative<T>(a: seq<T>, b: seq<T>, c: seq<T>)
    ensures a + b + c == a + (b + c)
  {
  }

  // -- unsigned numbers in a field of bits ------------------------------------

  function Pow2(k: nat): (p: nat)
    ensures p >= 1
  {
    if k == 0 then 1 else 2 * Pow2(k - 1)
  }

  function ToNat(s: seq<bool>): nat {
    if s == [] then 0 else (if s[0] then 1 else 0) + 2 * ToNat(s[1..])
  }

  function FromNat(n: nat, k: nat): (s: seq<bool>)
    ensures |s| == k
  {
    if k == 0 then [] else [n % 2 == 1] + FromNat(n / 2, k - 1)
  }

  lemma {:induction false} ToNatFromNat(n: nat, k: nat)
    requires n < Pow2(k)
    ensures ToNat(FromNat(n, k)) == n
  {
    if k > 0 {
      ToNatFromNat(n / 2, k - 1);
      assert FromNat(n, k)[1..] == FromNat(n / 2, k - 1);
    }
  }

  lemma {:induction false} FromNatToNat(s: seq<bool>)
    ensures FromNat(ToNat(s), |s|) == s
  {
    if s != [] {
      FromNatToNat(s[1..]);
      assert s == [s[0]] + s[1..];
    }
  }
}
