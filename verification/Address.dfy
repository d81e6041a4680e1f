// IP addresses: 128 bits in network order; IPv4 addresses are stored IPv4-mapped
// (section 2.5.5.2 of RFC 4291).
module Addresses {
  import opened CryptoPan
  import opened Words

  const BITS: nat := 128
  const BYTE: nat := 8

  type Address = a: seq<bool> | |a| == BITS witness seq(BITS, _ => false)
  type Byte = b: seq<bool> | |b| == BYTE witness seq(BYTE, _ => false)

  const V4_PREFIX: seq<bool> := Repeat(false, 80) + Repeat(true, 16)
  const ZERO: Address := Repeat(false, BITS)

  predicate IsV4(a: Address) {
    a[..96] == V4_PREFIX
  }

  function GetByte(s: seq<bool>, i: nat): Byte
    requires BYTE * (i + 1) <= |s|
  {
    s[BYTE * i..BYTE * (i + 1)]
  }

  function SetByte(s: seq<bool>, i: nat, b: Byte): (r: seq<bool>)
    requires BYTE * (i + 1) <= |s|
    ensures |r| == |s|
    ensures forall j :: 0 <= j < |s| ==>
              r[j] == if BYTE * i <= j < BYTE * (i + 1) then b[j - BYTE * i] else s[j]
  {
    s[..BYTE * i] + b + s[BYTE * (i + 1)..]
  }

  /** The k most significant of n bits set. */
  function TopMask(n: nat, k: nat): (r: seq<bool>)
    ensures |r| == n && forall i :: 0 <= i < n ==> r[i] == (i < k)
  {
    seq(n, i => i < k)
  }

  /** The k least significant of n bits set. */
  function BottomMask(n: nat, k: nat): (r: seq<bool>)
    ensures |r| == n && forall i :: 0 <= i < n ==> r[i] == (i + k >= n)
  {
    seq(n, i => i + k >= n)
  }

  // -- pseudonymization -----------------------------------------------------------------

  /** A block cipher under a fixed key: any function on blocks. */
  type Cipher = Address -> Address

  /** The most significant bit of the first byte of the cipher output. */
  function FirstBit(cipher: Cipher): Oracle {
    s => if |s| == BITS then cipher(s)[0] else false
  }

  /** The one-time pad, one bit per original bit. */
  function OneTimePad(cipher: Cipher, pad: Address, x: seq<bool>): (p: seq<bool>)
    requires |x| <= BITS
    ensures |p| == |x|
  {
    seq(|x|, j requires 0 <= j < |x| => PadBit(FirstBit(cipher), pad, x, j))
  }

  lemma MixedByte(x: seq<bool>, pad: Address, i: nat, byte: Byte)
    requires |x| <= BITS && i < |x| && |x| % BYTE == 0
    requires var b, t := i / BYTE, i % BYTE;
             && BYTE * (b + 1) <= |x|
             && byte == Or(And(GetByte(x, b), Complement(BottomMask(BYTE, BYTE - (t + 1)))),
                               And(GetByte(pad, b), BottomMask(BYTE, BYTE - (t + 1))))
    ensures SetByte(Mixed(x, pad, i), i / BYTE, byte) == Mixed(x, pad, i + 1)
  {
    var b, t := i / BYTE, i % BYTE;
    var l, r := SetByte(Mixed(x, pad, i), b, byte), Mixed(x, pad, i + 1);
    forall j | 0 <= j < BITS
      ensures l[j] == r[j]
    {
      if BYTE * b <= j < BYTE * (b + 1) {
        assert byte[j - BYTE * b] == if j <= i then x[j] else pad[j];
      }
    }
  }

  /** Computes the one-time pad bit by bit, feeding the cipher one more original bit each time. */
  method GenerateOneTimePad(cipher: Cipher, pad: Address, x: seq<bool>) returns (otp: seq<bool>)
    requires 0 < |x| <= BITS && |x| % BYTE == 0
    ensures otp == OneTimePad(cipher, pad, x)
    ensures |otp| == |x| && forall j :: 0 <= j < |x| ==> otp[j] == cipher(x[..j] + pad[j..])[0]
  {
    var input := pad;
    otp := Repeat(false, |x|);
    assert Mixed(x, pad, 0) == pad;
    otp := otp[0 := cipher(input)[0]];
    var i := 0;
    while i < |x| - 1
      invariant 0 <= i <= |x| - 1 && |otp| == |x| && |input| == BITS
      invariant input == Mixed(x, pad, i)
      invariant forall j :: 0 <= j <= i ==> otp[j] == PadBit(FirstBit(cipher), pad, x, j)
      invariant forall j :: i < j < |x| ==> !otp[j]
    {
      var byteIndex, bitIndex := i / BYTE, i % BYTE;
      var paddingMask := BottomMask(BYTE, BYTE - (bitIndex + 1));
      var byte := Or(And(GetByte(x, byteIndex), Complement(paddingMask)),
                         And(GetByte(pad, byteIndex), paddingMask));
      MixedByte(x, pad, i, byte);
      input := SetByte(input, byteIndex, byte);
      i := i + 1;
      otp := otp[i := otp[i] || cipher(input)[0]];
    }
  }

  function ByteOffset(a: Address): nat {
    if IsV4(a) then 12 else 0
  }

  /** The pseudonym: the part of the address behind the IPv4 prefix, if any, encrypted. */
  function Pseudonym(cipher: Cipher, pad: Address, a: Address): Address {
    var n := BYTE * ByteOffset(a);
    a[..n] + Encrypt(FirstBit(cipher), pad, a[n..])
  }

  /**
   * The padding is the second half of the seed, encrypted under the first. Behind the IPv4
   * prefix, if any, a bit is flipped exactly if the cipher output for the bits before it,
   * followed by padding, starts with a set bit.
   */
  method Pseudonymize(cipher: Cipher, secondHalf: Address, original: Address) returns (result: Address)
    ensures result == Pseudonym(cipher, cipher(secondHalf), original)
    ensures var n, pad := if IsV4(original) then 96 else 0, cipher(secondHalf);
            && result[..n] == original[..n]
            && forall j :: 0 <= j < BITS - n ==>
                 result[n + j] == (original[n + j] != cipher(original[n..n + j] + pad[j..])[0])
  {
    var n := BYTE * ByteOffset(original);
    var otp := GenerateOneTimePad(cipher, cipher(secondHalf), original[n..]);
    result := original[..n] + Xor(original[n..], otp);
    PseudonymBits(cipher, cipher(secondHalf), original);
  }

  lemma PseudonymBits(cipher: Cipher, pad: Address, a: Address)
    ensures var n, r := if IsV4(a) then 96 else 0, Pseudonym(cipher, pad, a);
            && r[..n] == a[..n]
            && forall j :: 0 <= j < BITS - n ==> r[n + j] == (a[n + j] != cipher(a[n..n + j] + pad[j..])[0])
  {
    var n, r := if IsV4(a) then 96 else 0, Pseudonym(cipher, pad, a);
    forall j | 0 <= j < BITS - n
      ensures r[n + j] == (a[n + j] != cipher(a[n..n + j] + pad[j..])[0])
    {
      assert r[n + j] == Encrypt(FirstBit(cipher), pad, a[n..])[j];
      assert Mixed(a[n..], pad, j) == a[n..n + j] + pad[j..];
    }
  }

  lemma KeepsV4(cipher: Cipher, pad: Address, a: Address)
    requires IsV4(a)
    ensures IsV4(Pseudonym(cipher, pad, a))
  {
  }

  /**
   * Two addresses of one family share their first k bits exactly if their pseudonyms do,
   * whatever the cipher.
   */
  lemma SharedPrefix(cipher: Cipher, pad: Address, a: Address, b: Address, k: nat)
    requires IsV4(a) == IsV4(b) && k <= BITS
    ensures a[..k] == b[..k] <==> Pseudonym(cipher, pad, a)[..k] == Pseudonym(cipher, pad, b)[..k]
  {
    var n := BYTE * ByteOffset(a);
    var x, y := Pseudonym(cipher, pad, a), Pseudonym(cipher, pad, b);
    if k <= n {
      assert a[..k] == a[..n][..k] == b[..n][..k] == b[..k];
      assert x[..k] == x[..n][..k] == y[..n][..k] == y[..k];
    } else {
      PrefixPreserving(FirstBit(cipher), pad, a[n..], b[n..], k - n);
      assert x[n..] == Encrypt(FirstBit(cipher), pad, a[n..]);
      assert y[n..] == Encrypt(FirstBit(cipher), pad, b[n..]);
      SameFrom(a, b, n, k);
      SameFrom(x, y, n, k);
    }
  }

  lemma SameFrom(a: Address, b: Address, n: nat, k: nat)
    requires n <= k <= BITS && a[..n] == b[..n]
    ensures a[..k] == b[..k] <==> a[n..][..k - n] == b[n..][..k - n]
  {
    assert a[..k] == a[..n] + a[n..][..k - n];
    assert b[..k] == b[..n] + b[n..][..k - n];
    assert a[..k][n..] == a[n..][..k - n];
    assert b[..k][n..] == b[n..][..k - n];
  }

  /** Within a family, different addresses have different pseudonyms. */
  lemma InjectivePerFamily(cipher: Cipher, pad: Address, a: Address, b: Address)
    requires IsV4(a) == IsV4(b) && Pseudonym(cipher, pad, a) == Pseudonym(cipher, pad, b)
    ensures a == b
  {
    SharedPrefix(cipher, pad, a, b, BITS);
    assert a[..BITS] == a && b[..BITS] == b;
  }

  /** Every IPv4 address is the pseudonym of an IPv4 address. */
  lemma OntoV4(cipher: Cipher, pad: Address, b: Address) returns (a: Address)
    requires IsV4(b)
    ensures IsV4(a) && Pseudonym(cipher, pad, a) == b
  {
    a := V4_PREFIX + Decrypt(FirstBit(cipher), pad, b[96..]);
    assert a[..96] == V4_PREFIX && a[96..] == Decrypt(FirstBit(cipher), pad, b[96..]);
    EncryptDecrypt(FirstBit(cipher), pad, b[96..]);
    assert b == b[..96] + b[96..];
  }

  /** The prefix whose IPv6 addresses the cipher sends into the IPv4-mapped range. */
  function LeakyPrefix(cipher: Cipher, pad: Address): seq<bool> {
    Decrypt(FirstBit(cipher), pad, V4_PREFIX)
  }

  /** IPv6 addresses stay IPv6 except under exactly one 96-bit prefix. */
  lemma V6BecomesV4(cipher: Cipher, pad: Address, a: Address)
    requires !IsV4(a)
    ensures IsV4(Pseudonym(cipher, pad, a)) <==> a[..96] == LeakyPrefix(cipher, pad)
  {
    var f := FirstBit(cipher);
    assert a[0..] == a && a[..0] + Encrypt(f, pad, a) == Encrypt(f, pad, a);
    EncryptPrefix(f, pad, a, 96);
    EncryptDecrypt(f, pad, V4_PREFIX);
    DecryptEncrypt(f, pad, a[..96]);
  }

  /** With any other leaky prefix, an IPv6 and an IPv4 address share a pseudonym. */
  lemma Collision(cipher: Cipher, pad: Address) returns (a: Address, b: Address)
    requires LeakyPrefix(cipher, pad) != V4_PREFIX
    ensures !IsV4(a) && IsV4(b) && Pseudonym(cipher, pad, a) == Pseudonym(cipher, pad, b)
  {
    var leaky := LeakyPrefix(cipher, pad);
    a := leaky + Repeat(false, 32);
    assert a[..96] == leaky;
    V6BecomesV4(cipher, pad, a);
    b := OntoV4(cipher, pad, Pseudonym(cipher, pad, a));
  }

  /** Different addresses of either family have different pseudonyms. */
  ghost predicate InjectiveOverall(cipher: Cipher, pad: Address) {
    forall a: Address, b: Address :: Pseudonym(cipher, pad, a) == Pseudonym(cipher, pad, b) ==> a == b
  }

  /** Pseudonyms tell all addresses apart exactly if the IPv4 prefix itself is the leaky one. */
  lemma InjectiveExactly(cipher: Cipher, pad: Address)
    ensures InjectiveOverall(cipher, pad) <==> LeakyPrefix(cipher, pad) == V4_PREFIX
  {
    hide Pseudonym, LeakyPrefix;
    if LeakyPrefix(cipher, pad) == V4_PREFIX {
      forall a: Address, b: Address | Pseudonym(cipher, pad, a) == Pseudonym(cipher, pad, b)
        ensures a == b
      {
        SameFamily(cipher, pad, a, b);
        SameFamily(cipher, pad, b, a);
        InjectivePerFamily(cipher, pad, a, b);
      }
    } else {
      var a, b := Collision(cipher, pad);
      assert a != b;
    }
  }

  lemma SameFamily(cipher: Cipher, pad: Address, a: Address, b: Address)
    requires LeakyPrefix(cipher, pad) == V4_PREFIX
    requires Pseudonym(cipher, pad, a) == Pseudonym(cipher, pad, b)
    ensures IsV4(a) ==> IsV4(b)
  {
    if IsV4(a) {
      KeepsV4(cipher, pad, a);
      if !IsV4(b) {
        V6BecomesV4(cipher, pad, b);
      }
    }
  }
}
