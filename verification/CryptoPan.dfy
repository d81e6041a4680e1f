// Prefix-preserving encryption of bit sequences: each bit is flipped depending on the bits
// before it.
module CryptoPan {

  /** The keyed cipher, seen as the one output bit that is used of it. */
  type Oracle = seq<bool> -> bool

  /** What the cipher is applied to for bit j: the first j original bits, then the padding. */
  function Mixed(x: seq<bool>, pad: seq<bool>, j: nat): seq<bool>
    requires j <= |x| <= |pad|
  {
    x[..j] + pad[j..]
  }

  function PadBit(f: Oracle, pad: seq<bool>, x: seq<bool>, j: nat): bool
    requires j < |x| <= |pad|
  {
    f(Mixed(x, pad, j))
  }

  function Encrypt(f: Oracle, pad: seq<bool>, x: seq<bool>): (y: seq<bool>)
    requires |x| <= |pad|
    ensures |y| == |x|
  {
    seq(|x|, j requires 0 <= j < |x| => x[j] != PadBit(f, pad, x, j))
  }

  /** Undoes the encryption from the first bit on. */
  function Decrypt(f: Oracle, pad: seq<bool>, y: seq<bool>): (x: seq<bool>)
    requires |y| <= |pad|
    ensures |x| == |y|
  {
    if y == [] then []
    else
      var k := |y| - 1;
      var x := Decrypt(f, pad, y[..k]);
      x + [y[k] != f(x + pad[k..])]
  }

  /** The encryption of a prefix is the prefix of the encryption. */
  lemma EncryptPrefix(f: Oracle, pad: seq<bool>, x: seq<bool>, k: nat)
    requires k <= |x| <= |pad|
    ensures Encrypt(f, pad, x)[..k] == Encrypt(f, pad, x[..k])
  {
    forall j | 0 <= j < k
      ensures Encrypt(f, pad, x)[j] == Encrypt(f, pad, x[..k])[j]
    {
      assert Mixed(x, pad, j) == Mixed(x[..k], pad, j);
    }
  }

  lemma {:induction false} DecryptEncrypt(f: Oracle, pad: seq<bool>, x: seq<bool>)
    requires |x| <= |pad|
    ensures Decrypt(f, pad, Encrypt(f, pad, x)) == x
  {
    if x != [] {
      var k := |x| - 1;
      EncryptPrefix(f, pad, x, k);
      DecryptEncrypt(f, pad, x[..k]);
      assert Mixed(x, pad, k) == x[..k] + pad[k..];
      assert x == x[..k] + [x[k]];
    }
  }

  lemma {:induction false} EncryptDecrypt(f: Oracle, pad: seq<bool>, y: seq<bool>)
    requires |y| <= |pad|
    ensures Encrypt(f, pad, Decrypt(f, pad, y)) == y
  {
    if y != [] {
      var k := |y| - 1;
      var x := Decrypt(f, pad, y);
      EncryptDecrypt(f, pad, y[..k]);
      EncryptPrefix(f, pad, x, k);
      assert x[..k] == Decrypt(f, pad, y[..k]);
      assert Mixed(x, pad, k) == x[..k] + pad[k..];
      assert Encrypt(f, pad, x)[k] == y[k];
      assert y == y[..k] + [y[k]];
    }
  }

  /** Two sequences share their first k bits exactly if their encryptions do. */
  lemma PrefixPreserving(f: Oracle, pad: seq<bool>, x: seq<bool>, y: seq<bool>, k: nat)
    requires k <= |x| <= |pad| && k <= |y| <= |pad|
    ensures x[..k] == y[..k] <==> Encrypt(f, pad, x)[..k] == Encrypt(f, pad, y)[..k]
  {
    EncryptPrefix(f, pad, x, k);
    EncryptPrefix(f, pad, y, k);
    DecryptEncrypt(f, pad, x[..k]);
    DecryptEncrypt(f, pad, y[..k]);
  }
}
