/** Cipher block chaining over whole 16-byte blocks, section 6.2 of NIST SP 800-38A. */
module Cbc {
  import opened Bytes
  import opened Crypto

  function CbcDecrypt(c: Cipher, key: Block, iv: Block, ct: seq<byte>): (pt: seq<byte>)
    requires |ct| % 16 == 0
    ensures |pt| == |ct|
    decreases |ct|
  {
    if ct == [] then [] else
      XorBlock(c.d(key, ct[..16]), iv) + CbcDecrypt(c, key, ct[..16], ct[16..])
  }

  function CbcEncrypt(c: Cipher, key: Block, iv: Block, pt: seq<byte>): (ct: seq<byte>)
    requires |pt| % 16 == 0
    ensures |ct| == |pt|
    decreases |pt|
  {
    if pt == [] then [] else
      var first := c.e(key, XorBlock(pt[..16], iv));
      first + CbcEncrypt(c, key, first, pt[16..])
  }

  lemma {:induction false} DecryptEncrypt(c: Cipher, key: Block, iv: Block, pt: seq<byte>)
    requires c.IsPermutation() && |pt| % 16 == 0
    ensures CbcDecrypt(c, key, iv, CbcEncrypt(c, key, iv, pt)) == pt
    decreases |pt|
  {
    if pt != [] {
      var first := c.e(key, XorBlock(pt[..16], iv));
      var ct := CbcEncrypt(c, key, iv, pt);
      assert ct[..16] == first && ct[16..] == CbcEncrypt(c, key, first, pt[16..]);
      assert c.d(key, c.e(key, XorBlock(pt[..16], iv))) == XorBlock(pt[..16], iv);
      XorCancel(pt[..16], iv);
      DecryptEncrypt(c, key, first, pt[16..]);
      assert pt == pt[..16] + pt[16..];
    }
  }

  lemma {:induction false} EncryptDecrypt(c: Cipher, key: Block, iv: Block, ct: seq<byte>)
    requires c.IsPermutation() && |ct| % 16 == 0
    ensures CbcEncrypt(c, key, iv, CbcDecrypt(c, key, iv, ct)) == ct
    decreases |ct|
  {
    if ct != [] {
      var first := XorBlock(c.d(key, ct[..16]), iv);
      var pt := CbcDecrypt(c, key, iv, ct);
      assert pt[..16] == first && pt[16..] == CbcDecrypt(c, key, ct[..16], ct[16..]);
      XorCancel(c.d(key, ct[..16]), iv);
      assert c.e(key, c.d(key, ct[..16])) == ct[..16];
      EncryptDecrypt(c, key, ct[..16], ct[16..]);
      assert ct == ct[..16] + ct[16..];
    }
  }

  /** The block that is xored into plaintext block `j`. */
  function Chained(iv: Block, ct: seq<byte>, j: nat): Block
    requires 16 * j <= |ct|
  {
    if j == 0 then iv else BlockAt(ct, j - 1)
  }

  lemma BlockAfterFirst(s: seq<byte>, j: nat)
    requires 0 < j && 16 * j + 16 <= |s|
    ensures BlockAt(s, j) == BlockAt(s[16..], j - 1)
  {
  }

  /** Block by block, plaintext `j` is `D(C_j) xor C_(j-1)`, with `C_(-1)` the IV. */
  lemma {:induction false} DecryptedBlock(c: Cipher, key: Block, iv: Block, ct: seq<byte>, j: nat)
    requires |ct| % 16 == 0 && 16 * j + 16 <= |ct|
    ensures BlockAt(CbcDecrypt(c, key, iv, ct), j)
         == XorBlock(c.d(key, BlockAt(ct, j)), Chained(iv, ct, j))
    decreases |ct|
  {
    var pt := CbcDecrypt(c, key, iv, ct);
    var rest := CbcDecrypt(c, key, ct[..16], ct[16..]);
    if j == 0 {
      assert BlockAt(pt, 0) == pt[..16] && BlockAt(ct, 0) == ct[..16];
    } else {
      DecryptedBlock(c, key, ct[..16], ct[16..], j - 1);
      assert pt[16..] == rest;
      BlockAfterFirst(pt, j);
      BlockAfterFirst(ct, j);
      if j > 1 { BlockAfterFirst(ct, j - 1); }
    }
  }

  /** Two ciphertexts that differ in block `j` at most. */
  ghost predicate DifferOnlyAt(ct: seq<byte>, ct': seq<byte>, j: nat) {
    && |ct| == |ct'| && |ct| % 16 == 0 && 16 * j + 16 <= |ct|
    && forall m: nat {:trigger BlockAt(ct, m)} | 16 * m + 16 <= |ct| && m != j :: BlockAt(ct, m) == BlockAt(ct', m)
  }

  /** Error propagation, Appendix D of NIST SP 800-38A: a change of ciphertext block `j`
      changes plaintext block `j`, shifts block `j + 1` by exactly the ciphertext
      difference, and reaches nothing else. */
  lemma ErrorLocality(c: Cipher, key: Block, iv: Block, ct: seq<byte>, ct': seq<byte>, j: nat, m: nat)
    requires c.IsPermutation() && DifferOnlyAt(ct, ct', j) && 16 * m + 16 <= |ct|
    ensures
      var p, p' := BlockAt(CbcDecrypt(c, key, iv, ct), m), BlockAt(CbcDecrypt(c, key, iv, ct'), m);
      if m == j then p == p' <==> BlockAt(ct, j) == BlockAt(ct', j)
      else if m == j + 1 then p' == XorBlock(p, XorBlock(BlockAt(ct, j), BlockAt(ct', j)))
      else p == p'
  {
    DecryptedBlock(c, key, iv, ct, m);
    DecryptedBlock(c, key, iv, ct', m);
    var x, x' := Chained(iv, ct, m), Chained(iv, ct', m);
    var d, d' := c.d(key, BlockAt(ct, m)), c.d(key, BlockAt(ct', m));
    if m == j {
      assert x == x' by { if j > 0 { assert BlockAt(ct, j - 1) == BlockAt(ct', j - 1); } }
      XorCancel(d, x);
      XorCancel(d', x);
      DecryptInjective(c, key, BlockAt(ct, j), BlockAt(ct', j));
    } else if m == j + 1 {
      assert BlockAt(ct, m) == BlockAt(ct', m);
      XorShift(d, x, x');
    } else {
      assert x == x' by { if m > 0 { assert BlockAt(ct, m - 1) == BlockAt(ct', m - 1); } }
    }
  }

  lemma XorShift(d: Block, x: Block, x': Block)
    ensures XorBlock(d, x') == XorBlock(XorBlock(d, x), XorBlock(x, x'))
  {
    forall i | 0 <= i < 16
      ensures d[i] ^ x'[i] == (d[i] ^ x[i]) ^ (x[i] ^ x'[i])
    {
      XorShiftByte(d[i], x[i], x'[i]);
    }
    assert XorBlock(d, x') == XorBlock(XorBlock(d, x), XorBlock(x, x'));
  }

  lemma XorShiftByte(d: byte, x: byte, y: byte)
    ensures d ^ y == (d ^ x) ^ (x ^ y)
  {
  }
}
