// The bitmap operations on plain bit sequences: what every bitmap implementation refines.
module BitmapOps {
  import opened Words

  datatype Op =
    | AppendBit(bit: bool)
    | AppendBits(bit: bool, n: nat)
    | AppendBlock(value: Word, k: nat)
    | Flip

  /** Blocks are appended with between one bit and a full word of bits. */
  predicate Allowed(op: Op) {
    op.AppendBlock? ==> 0 < op.k <= WIDTH
  }

  predicate AllAllowed(ops: seq<Op>) {
    forall i :: 0 <= i < |ops| ==> Allowed(ops[i])
  }

  function Apply(op: Op, s: seq<bool>): seq<bool>
    requires Allowed(op)
  {
    match op
    case AppendBit(bit) => s + [bit]
    case AppendBits(bit, n) => s + Repeat(bit, n)
    case AppendBlock(value, k) => s + value[..k]
    case Flip => Complement(s)
  }

  function ApplyAll(ops: seq<Op>): seq<bool>
    requires AllAllowed(ops)
  {
    if ops == [] then [] else Apply(ops[|ops| - 1], ApplyAll(ops[..|ops| - 1]))
  }

  lemma ApplyNext(ops: seq<Op>, i: nat)
    requires AllAllowed(ops) && i < |ops|
    ensures ApplyAll(ops[..i + 1]) == Apply(ops[i], ApplyAll(ops[..i]))
  {
    assert ops[..i + 1][..i] == ops[..i];
  }

  /** A run of bits is so many single bits. */
  function SingleBits(s: seq<bool>): (ops: seq<Op>)
    ensures AllAllowed(ops)
  {
    seq(|s|, i requires 0 <= i < |s| => AppendBit(s[i]))
  }

  lemma {:induction false} ApplySingleBits(s: seq<bool>)
    ensures ApplyAll(SingleBits(s)) == s
  {
    if s != [] {
      var t := s[..|s| - 1];
      ApplySingleBits(t);
      assert SingleBits(s)[..|s| - 1] == SingleBits(t);
    }
  }
}
