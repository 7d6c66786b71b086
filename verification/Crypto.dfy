/** The block-cipher interface and the constructions the repository builds on it. */
module Crypto {
  import opened Bytes

  /** AES-128 as an uninterpreted pair of keyed maps: `e` is `aes_128e`, `d` is `aes_128d`.
      Everything below holds for every pair; what needs the two to be inverse says so. */
  datatype Cipher = Cipher(e: (Block, Block) -> Block, d: (Block, Block) -> Block) {
    ghost predicate IsPermutation() {
      && (forall k: Block, x: Block {:trigger d(k, e(k, x))} :: d(k, e(k, x)) == x)
      && (forall k: Block, x: Block {:trigger e(k, d(k, x))} :: e(k, d(k, x)) == x)
    }
  }

  function XorBlock(a: Block, b: Block): (r: Block)
    ensures forall i :: 0 <= i < 16 ==> r[i] == a[i] ^ b[i]
  {
    seq(16, i requires 0 <= i < 16 => a[i] ^ b[i])
  }

  lemma XorCancel(a: Block, b: Block)
    ensures XorBlock(XorBlock(a, b), b) == a
    ensures XorBlock(b, XorBlock(b, a)) == a
  {
    forall i | 0 <= i < 16
      ensures XorBlock(XorBlock(a, b), b)[i] == a[i] && XorBlock(b, XorBlock(b, a))[i] == a[i]
    {
      XorByte(a[i], b[i]);
    }
  }

  lemma XorByte(a: byte, b: byte)
    ensures a ^ b ^ b == a && b ^ (b ^ a) == a && a ^ b == b ^ a
  {
  }

  method Xor16(a: Block, b: Block) returns (r: Block)
    ensures r == XorBlock(a, b)
  {
    var o := new byte[16];
    for i := 0 to 16
      invariant forall k :: 0 <= k < i ==> o[k] == a[k] ^ b[k]
    {
      o[i] := a[i] ^ b[i];
    }
    r := o[..];
    assert r == XorBlock(a, b);
  }

  /** AES-G: the one-way function `D(k, d) xor d`. */
  function AesG(c: Cipher, key: Block, data: Block): Block {
    XorBlock(c.d(key, data), data)
  }

  /** Under one key, both directions are injective. */
  lemma DecryptInjective(c: Cipher, k: Block, x: Block, y: Block)
    requires c.IsPermutation()
    ensures c.d(k, x) == c.d(k, y) <==> x == y
    ensures c.e(k, x) == c.e(k, y) <==> x == y
  {
    assert c.e(k, c.d(k, x)) == x && c.e(k, c.d(k, y)) == y;
    assert c.d(k, c.e(k, x)) == x && c.d(k, c.e(k, y)) == y;
  }

  /** A concrete keyed permutation: the hypothesis `IsPermutation` can be met. */
  const XOR_CIPHER := Cipher((k: Block, x: Block) => XorBlock(x, k), (k: Block, x: Block) => XorBlock(x, k))

  lemma PermutationsExist()
    ensures XOR_CIPHER.IsPermutation()
  {
    forall k: Block, x: Block
      ensures XorBlock(XorBlock(x, k), k) == x
    {
      XorCancel(x, k);
    }
  }
}
