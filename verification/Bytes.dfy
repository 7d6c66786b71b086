/** The cast from small integers to 8-bit vectors and back. */
module ByteCast {
  lemma RoundTrip(m: nat)
    requires m < 256
    ensures (m as bv8) as int == m
  {
    var b := Build(m);
    BackAndForth(b);
  }

  lemma BackAndForth(b: bv8)
    ensures (b as int) as bv8 == b
  {
  }

  /** The bit vector with value `m`, one binary digit at a time. */
  lemma Build(m: nat) returns (b: bv8)
    requires m < 256
    ensures b as int == m
  {
    if m == 0 {
      b := 0;
    } else {
      var high := Build(m / 2);
      var digit: bv8 := if m % 2 == 1 then 1 else 0;
      Shift(high, digit);
      b := (high << 1) | digit;
    }
  }

  lemma Shift(b: bv8, digit: bv8)
    requires b as int < 128 && digit <= 1
    ensures ((b << 1) | digit) as int == 2 * (b as int) + digit as int
  {
    assert b < 128;
  }
}

/** Bytes, 16-byte blocks, and the big-endian integers the on-disc formats use. */
module Bytes {
  import ByteCast

  type byte = bv8

  const ZERO: byte := 0

  /** A 128-bit key or block. */
  type Block = b: seq<byte> | |b| == 16 witness seq(16, _ => ZERO)

  /** The 16-byte block number `j` of a byte string. */
  function BlockAt(s: seq<byte>, j: nat): (b: Block)
    requires 16 * j + 16 <= |s|
  {
    s[16 * j..16 * j + 16]
  }

  /** A fresh buffer holding `s`. */
  method ToArray(s: seq<byte>) returns (a: array<byte>)
    ensures fresh(a) && a[..] == s
  {
    a := new byte[|s|](i requires 0 <= i < |s| => s[i]);
  }

  /** Truncating cast to one byte. */
  function Low8(n: nat): byte {
    (n % 256) as byte
  }

  lemma Low8Value(n: nat)
    ensures Low8(n) as int == n % 256
  {
    ByteCast.RoundTrip(n % 256);
  }

  lemma Low8OfByte(n: nat, b: byte)
    requires n % 256 == b as int
    ensures Low8(n) == b
  {
    assert (b as int) as byte == b;
  }

  /** Big-endian value of a byte string. */
  function BigEndian(s: seq<byte>): nat {
    if s == [] then 0 else BigEndian(s[..|s| - 1]) * 256 + s[|s| - 1] as int
  }

  /** Most significant byte first: the fields of two, three and four bytes written out. */
  lemma BigEndianFields(a: byte, b: byte, c: byte, d: byte)
    ensures BigEndian([a, b]) == 0x100 * (a as int) + b as int
    ensures BigEndian([a, b, c]) == 0x1_0000 * (a as int) + 0x100 * (b as int) + c as int
    ensures BigEndian([a, b, c, d])
            == 0x100_0000 * (a as int) + 0x1_0000 * (b as int) + 0x100 * (c as int) + d as int
  {
    var one, two, three, four := [a], [a, b], [a, b, c], [a, b, c, d];
    assert four[..3] == three && three[..2] == two && two[..1] == one && one[..0] == [];
    assert BigEndian(one) == BigEndian([]) * 256 + a as int == a as int;
    assert BigEndian(two) == BigEndian(one) * 256 + b as int;
    assert BigEndian(three) == BigEndian(two) * 256 + c as int;
  }

  /** The `n` low-order bytes of `v`, most significant first. */
  function ToBigEndian(v: nat, n: nat): (s: seq<byte>)
    ensures |s| == n
  {
    if n == 0 then [] else ToBigEndian(v / 256, n - 1) + [Low8(v)]
  }

  function Pow256(n: nat): nat {
    if n == 0 then 1 else 256 * Pow256(n - 1)
  }

  lemma {:induction false} BigEndianInverse(v: nat, n: nat)
    requires v < Pow256(n)
    ensures BigEndian(ToBigEndian(v, n)) == v
  {
    if n > 0 {
      BigEndianInverse(v / 256, n - 1);
      Low8Value(v);
      var s := ToBigEndian(v, n);
      assert s[..n - 1] == ToBigEndian(v / 256, n - 1);
    }
  }

  lemma Split256(v: nat, l: nat)
    requires l < 256
    ensures (v * 256 + l) / 256 == v && (v * 256 + l) % 256 == l
  {
  }

  lemma {:induction false} BigEndianBound(s: seq<byte>)
    ensures BigEndian(s) < Pow256(|s|)
  {
    if s != [] {
      BigEndianBound(s[..|s| - 1]);
      var hi: nat, lo: nat := BigEndian(s[..|s| - 1]), s[|s| - 1] as int;
      assert BigEndian(s) == hi * 256 + lo && lo < 256;
    }
  }

  lemma {:induction false} ToBigEndianInverse(s: seq<byte>)
    ensures ToBigEndian(BigEndian(s), |s|) == s
  {
    if s != [] {
      var init, last := s[..|s| - 1], s[|s| - 1];
      var v, l: nat := BigEndian(init), last as int;
      ToBigEndianInverse(init);
      Split256(v, l);
      Low8OfByte(v * 256 + l, last);
      assert BigEndian(s) == v * 256 + l;
      assert s == init + [last];
    }
  }
}
