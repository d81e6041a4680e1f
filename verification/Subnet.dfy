// Masking and comparing addresses, and subnets as address prefixes (section 3.1 of RFC 4632).
module Subnets {
  import opened Addresses
  import opened Words

  const WORD: nat := 32

  /** The first k bits of an address, all others cleared. */
  function Masked(a: Address, k: nat): Address
    requires k <= BITS
  {
    a[..k] + Repeat(false, BITS - k)
  }

  class Ip {
    var bits: Address

    constructor (a: Address)
      ensures bits == a
    {
      bits := a;
    }

    /** Clears all but the top bits, a 32-bit word at a time; refuses to keep more than 128. */
    method Mask(topBitsToKeep: nat) returns (ok: bool)
      modifies this
      ensures ok <==> topBitsToKeep <= BITS
      ensures bits == if ok then Masked(old(bits), topBitsToKeep) else old(bits)
    {
      if topBitsToKeep > BITS {
        return false;
      }
      ghost var target := Masked(bits, topBitsToKeep);
      var ones := Repeat(true, WORD);
      var m := [ones, ones, ones, ones];
      var quot, rem := topBitsToKeep / WORD, topBitsToKeep % WORD;
      if quot < 4 {
        m := m[quot := And(m[quot], Complement(BottomMask(WORD, WORD - rem)))];
      }
      var i := quot + 1;
      while i < 4
        invariant quot < i && |m| == 4
        invariant forall w :: 0 <= w < 4 ==> |m[w]| == WORD
        invariant forall w :: 0 <= w < quot && w < 4 ==> m[w] == ones
        invariant quot < 4 ==> m[quot] == TopMask(WORD, rem)
        invariant forall w :: quot < w < i && w < 4 ==> m[w] == Repeat(false, WORD)
      {
        m := m[i := Repeat(false, WORD)];
        i := i + 1;
      }
      i := 0;
      ghost var was := bits;
      while i < 4
        invariant 0 <= i <= 4
        invariant bits[..WORD * i] == target[..WORD * i] && bits[WORD * i..] == was[WORD * i..]
      {
        var word := And(bits[WORD * i..WORD * (i + 1)], m[i]);
        MaskedWord(was, topBitsToKeep, i, m[i]);
        assert bits[WORD * i..WORD * (i + 1)] == was[WORD * i..WORD * (i + 1)];
        assert target[..WORD * (i + 1)] == target[..WORD * i] + target[WORD * i..WORD * (i + 1)];
        bits := bits[..WORD * i] + word + bits[WORD * (i + 1)..];
        i := i + 1;
      }
      ok := true;
    }

    lemma MaskedWord(a: Address, k: nat, i: nat, m: seq<bool>)
      requires k <= BITS && i < 4 && |m| == WORD
      requires forall t :: 0 <= t < WORD ==> m[t] == (WORD * i + t < k)
      ensures And(a[WORD * i..WORD * (i + 1)], m) == Masked(a, k)[WORD * i..WORD * (i + 1)]
    {
    }

    /** Compares the first k bits byte by byte, the last byte under a mask. */
    method Compare(other: Ip, k: nat) returns (r: bool)
      requires 0 < k <= BITS
      ensures r <==> bits[..k] == other.bits[..k]
    {
      var left, x := k, 0;
      while left > BYTE
        invariant 0 < left && BYTE * x + left == k
        invariant bits[..BYTE * x] == other.bits[..BYTE * x]
        decreases left
      {
        if GetByte(bits, x) != GetByte(other.bits, x) {
          NextByte(bits, other.bits, x, BYTE, k);
          return false;
        }
        NextByte(bits, other.bits, x, BYTE, k);
        left, x := left - BYTE, x + 1;
      }
      var mask := TopMask(BYTE, left);
      MaskedByte(GetByte(bits, x), GetByte(other.bits, x), left);
      NextByte(bits, other.bits, x, left, k);
      r := And(GetByte(bits, x), mask) == And(GetByte(other.bits, x), mask);
    }

    lemma MaskedByte(a: Byte, b: Byte, t: nat)
      requires t <= BYTE
      ensures And(a, TopMask(BYTE, t)) == And(b, TopMask(BYTE, t)) <==> a[..t] == b[..t]
    {
      var x, y := And(a, TopMask(BYTE, t)), And(b, TopMask(BYTE, t));
      if x == y {
        forall i | 0 <= i < t
          ensures a[i] == b[i]
        {
          assert x[i] == a[i] && y[i] == b[i];
        }
      }
      if a[..t] == b[..t] {
        forall i | 0 <= i < BYTE
          ensures x[i] == y[i]
        {
          assert i < t ==> a[i] == a[..t][i] == b[..t][i] == b[i];
        }
      }
    }

    /** Having agreed on x bytes, two addresses agree t bits further if the next byte does. */
    lemma NextByte(a: Address, b: Address, x: nat, t: nat, k: nat)
      requires t <= BYTE && BYTE * (x + 1) <= BITS && a[..BYTE * x] == b[..BYTE * x]
      requires BYTE * x + t <= k <= BITS
      ensures a[..BYTE * x + t] == b[..BYTE * x + t] <==> GetByte(a, x)[..t] == GetByte(b, x)[..t]
      ensures GetByte(a, x)[..t] != GetByte(b, x)[..t] ==> a[..k] != b[..k]
    {
      var n := BYTE * x;
      assert GetByte(a, x)[..t] == a[n..n + t] && GetByte(b, x)[..t] == b[n..n + t];
      assert a[..n + t] == a[..n] + a[n..n + t] && b[..n + t] == b[..n] + b[n..n + t];
      assert a[..k][..n + t] == a[..n + t] && b[..k][..n + t] == b[..n + t];
      assert a[..n + t][n..] == a[n..n + t] && b[..n + t][n..] == b[n..n + t];
    }
  }

  // -- subnets ---------------------------------------------------------------------------

  datatype Prefix = Prefix(network: Address, length: nat)

  const NOWHERE := Prefix(ZERO, 0)

  /** The prefix of an address and a length given relative to its family. */
  function MakePrefix(a: Address, length: nat): Prefix {
    if IsV4(a) then
      if length <= 32 then Prefix(Masked(a, length + 96), length + 96) else NOWHERE
    else
      if length <= BITS then Prefix(Masked(a, length), length) else NOWHERE
  }

  /** The length of a prefix relative to its family. */
  function FamilyLength(p: Prefix): int {
    if IsV4(p.network) then p.length - 96 else p.length
  }

  /** Nothing set behind the prefix, and an IPv4 prefix includes the IPv4-mapped part. */
  ghost predicate Proper(p: Prefix) {
    p.length <= BITS && p.network == Masked(p.network, p.length) && (IsV4(p.network) ==> p.length >= 96)
  }

  predicate In(p: Prefix, a: Address)
    requires p.length <= BITS
  {
    a[..p.length] == p.network[..p.length]
  }

  lemma MaskedFamily(a: Address, k: nat)
    requires k <= BITS && (IsV4(a) ==> k >= 96)
    ensures IsV4(Masked(a, k)) <==> IsV4(a)
  {
    var m := Masked(a, k);
    if k >= 96 {
      assert m[..96] == a[..96];
    } else {
      assert V4_PREFIX[95];
      assert !m[95] && m[..96][95] == m[95];
    }
  }

  lemma MaskedTwice(a: Address, k: nat)
    requires k <= BITS
    ensures Masked(Masked(a, k), k) == Masked(a, k)
  {
    assert Masked(a, k)[..k] == a[..k];
  }

  lemma MakeProper(a: Address, length: nat)
    ensures Proper(MakePrefix(a, length))
    ensures MakePrefix(a, length).length == 0 <==> length > (if IsV4(a) then 32 else BITS) || (!IsV4(a) && length == 0)
  {
    var k := MakePrefix(a, length).length;
    if MakePrefix(a, length) != NOWHERE {
      MaskedTwice(a, k);
      MaskedFamily(a, k);
    } else {
      assert V4_PREFIX[95] && !ZERO[..96][95];
      assert Masked(ZERO, 0) == ZERO;
    }
  }

  /** A subnet can be rebuilt from its network address and its length. */
  lemma Rebuild(p: Prefix)
    requires Proper(p)
    ensures FamilyLength(p) >= 0 && MakePrefix(p.network, FamilyLength(p)) == p
  {
  }

  /** An address lies in a subnet exactly if masking it gives the network address. */
  lemma InIffMasked(p: Prefix, a: Address)
    requires Proper(p)
    ensures In(p, a) <==> Masked(a, p.length) == p.network
  {
    var k := p.length;
    assert Masked(a, k)[..k] == a[..k] && p.network[..k] == Masked(p.network, k)[..k];
  }

  /** A shorter prefix holds addresses that a longer one does not. */
  lemma Escape(p: Prefix, o: Prefix) returns (a: Address)
    requires Proper(p) && Proper(o) && o.length < p.length
    ensures In(o, a) && !In(p, a)
  {
    var n := o.length;
    a := o.network[n := !p.network[n]];
    assert a[..n] == o.network[..n];
    assert a[..p.length][n] != p.network[..p.length][n];
  }

  /** One prefix includes another exactly if it is no longer and includes its network address. */
  lemma Inclusion(p: Prefix, o: Prefix)
    requires Proper(p) && Proper(o)
    ensures p.length <= o.length && In(p, o.network) <==> forall a: Address :: In(o, a) ==> In(p, a)
  {
    if o.length < p.length {
      var a := Escape(p, o);
    } else if In(p, o.network) {
      forall a: Address | In(o, a)
        ensures In(p, a)
      {
        assert a[..p.length] == a[..o.length][..p.length] == o.network[..o.length][..p.length];
        assert o.network[..o.length][..p.length] == o.network[..p.length];
      }
    } else {
      assert In(o, o.network);
    }
  }

  class Subnet {
    var network: Address
    var length: nat

    ghost function Value(): Prefix
      reads this
    {
      Prefix(network, length)
    }

    constructor (addr: Address, prefixLength: nat)
      requires prefixLength < 256
      ensures Value() == MakePrefix(addr, prefixLength) && Proper(Value())
    {
      network, length := addr, prefixLength;
      new;
      MakeProper(addr, prefixLength);
      var ok := Initialize();
      if !ok {
        network, length := ZERO, 0;
      }
    }

    /** Makes the length relative to IPv6 and clears the bits behind it, if the length fits the family. */
    method Initialize() returns (ok: bool)
      modifies this
      ensures ok <==> old(length) <= if IsV4(old(network)) then 32 else BITS
      ensures ok ==> Value() == MakePrefix(old(network), old(length))
    {
      if IsV4(network) {
        if length > 32 {
          return false;
        }
        length := length + 96;
      } else if length > BITS {
        return false;
      }
      var ip := new Ip(network);
      var _ := ip.Mask(length);
      network := ip.bits;
      ok := true;
    }

    /** Comparing zero bits is not allowed, so the subnet must have a prefix. */
    method Contains(addr: Address) returns (r: bool)
      requires Proper(Value()) && length > 0
      ensures r <==> Masked(addr, length) == network
    {
      InIffMasked(Value(), addr);
      var x := new Ip(addr);
      var y := new Ip(network);
      r := x.Compare(y, length);
    }

    method ContainsSubnet(other: Subnet) returns (r: bool)
      requires Proper(Value()) && length > 0 && Proper(other.Value())
      ensures r <==> forall a: Address :: In(other.Value(), a) ==> In(Value(), a)
    {
      ghost var p, o := Value(), other.Value();
      Inclusion(p, o);
      InIffMasked(p, other.network);
      r := length <= other.length;
      if r {
        r := Contains(other.network);
      }
      assert Value() == p && other.Value() == o;
    }

    method Length() returns (r: nat)
      requires Proper(Value())
      ensures r == FamilyLength(Value()) && MakePrefix(network, r) == Value()
    {
      Rebuild(Value());
      r := if IsV4(network) then length - 96 else length;
    }
  }
}
