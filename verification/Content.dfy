/** Aligned-Unit decryption and the bus-encryption layer of crates/freeblue-content. */
module Content {
  import opened Wrappers
  import opened Bytes
  import opened Crypto
  import opened Cbc

  const ALIGNED_UNIT_LEN := 6144
  const SEED_LEN := 16
  const SECTOR_LEN := 2048

  const CONTENT_IV: Block :=
    [0x0B, 0xA0, 0xF8, 0xDD, 0xFE, 0xA6, 0x1F, 0xB3, 0xD8, 0xDF, 0x9F, 0x56, 0x6A, 0x05, 0x0F, 0x78]

  type Unit = u: seq<byte> | |u| == 6144 witness seq(6144, _ => ZERO)
  type Sector = s: seq<byte> | |s| == 2048 witness seq(2048, _ => ZERO)

  datatype ContentError = BadUnitLength(len: nat)

  // ---------- content layer ----------

  function BlockKey(c: Cipher, unitKey: Block, seed: Block): Block {
    XorBlock(c.e(unitKey, seed), seed)
  }

  /** The key `k` is the one that, with the seed xored on, decrypts to the seed. */
  lemma BlockKeyExact(c: Cipher, unitKey: Block, seed: Block, k: Block)
    requires c.IsPermutation()
    ensures k == BlockKey(c, unitKey, seed) <==> c.d(unitKey, XorBlock(k, seed)) == seed
  {
    var e := c.e(unitKey, seed);
    assert c.d(unitKey, e) == seed;
    XorCancel(e, seed);
    XorCancel(k, seed);
    DecryptInjective(c, unitKey, XorBlock(k, seed), e);
  }

  method ComputeBlockKey(c: Cipher, unitKey: Block, seed: Block) returns (r: Block)
    ensures r == BlockKey(c, unitKey, seed)
    ensures forall i :: 0 <= i < 16 ==> r[i] == c.e(unitKey, seed)[i] ^ seed[i]
  {
    var e := c.e(unitKey, seed);
    var out := new byte[16];
    for i := 0 to 16
      invariant forall k :: 0 <= k < i ==> out[k] == e[k] ^ seed[k]
    {
      out[i] := e[i] ^ seed[i];
    }
    r := out[..];
    assert r == BlockKey(c, unitKey, seed);
  }

  /** The clear seed, then the CBC decryption of the rest under the key the seed selects. */
  function DecryptUnit(c: Cipher, unitKey: Block, unit: Unit): (pt: Unit) {
    unit[..16] + CbcDecrypt(c, BlockKey(c, unitKey, unit[..16]), CONTENT_IV, unit[16..])
  }

  /** What a disc author computes: the inverse of `DecryptUnit`. */
  function EncryptUnit(c: Cipher, unitKey: Block, pt: Unit): (unit: Unit) {
    pt[..16] + CbcEncrypt(c, BlockKey(c, unitKey, pt[..16]), CONTENT_IV, pt[16..])
  }

  /** `decrypt_aligned_unit` on a byte string of any length. */
  function DecryptAligned(c: Cipher, unitKey: Block, unit: seq<byte>): Result<Unit, ContentError> {
    if |unit| != ALIGNED_UNIT_LEN then Err(BadUnitLength(|unit|)) else Ok(DecryptUnit(c, unitKey, unit))
  }

  lemma NothingLeft(c: Cipher, key: Block, prev: Block, out: seq<byte>)
    ensures out + CbcDecrypt(c, key, prev, []) == out
  {
  }

  /** Whole blocks less one are whole blocks; likewise whole sectors. */
  lemma StillWhole(n: nat, unit: nat)
    requires unit == 16 || unit == 2048
    ensures n % unit == 0 && n >= unit ==> (n - unit) % unit == 0
  {
    if n % unit == 0 && n >= unit {
      var q := n / unit;
      assert n - unit == (q - 1) * unit;
    }
  }

  /** One turn of a decryption loop: the head of `rest` moves into the output. */
  lemma CbcDecryptStep(c: Cipher, key: Block, prev: Block, done: seq<byte>, rest: seq<byte>)
    requires 16 <= |rest| && |rest| % 16 == 0
    ensures done + CbcDecrypt(c, key, prev, rest)
         == done + XorBlock(c.d(key, rest[..16]), prev) + CbcDecrypt(c, key, rest[..16], rest[16..])
  {
    Assoc(done, XorBlock(c.d(key, rest[..16]), prev), CbcDecrypt(c, key, rest[..16], rest[16..]));
  }

  lemma CbcEncryptStep(c: Cipher, key: Block, prev: Block, done: seq<byte>, rest: seq<byte>)
    requires 16 <= |rest| && |rest| % 16 == 0
    ensures var ct := c.e(key, XorBlock(rest[..16], prev));
      done + CbcEncrypt(c, key, prev, rest) == done + ct + CbcEncrypt(c, key, ct, rest[16..])
  {
    var ct := c.e(key, XorBlock(rest[..16], prev));
    Assoc(done, ct, CbcEncrypt(c, key, ct, rest[16..]));
  }

  lemma Assoc(a: seq<byte>, b: seq<byte>, d: seq<byte>)
    ensures a + b + d == a + (b + d)
  {
  }

  /** `for j in 0..16 { out.push(dec[j] ^ prev[j]) }`. */
  method PushXor(before: seq<byte>, dec: Block, prev: Block) returns (out: seq<byte>)
    ensures out == before + XorBlock(dec, prev)
  {
    out := before;
    for j := 0 to 16
      invariant out == before + XorBlock(dec, prev)[..j]
    {
      out := out + [dec[j] ^ prev[j]];
    }
    assert XorBlock(dec, prev)[..16] == XorBlock(dec, prev);
  }

  method DecryptAlignedUnit(c: Cipher, unitKey: Block, unit: seq<byte>) returns (r: Result<seq<byte>, ContentError>)
    ensures |unit| != ALIGNED_UNIT_LEN ==> r == Err(BadUnitLength(|unit|))
    ensures |unit| == ALIGNED_UNIT_LEN ==> r == Ok(DecryptUnit(c, unitKey, unit))
    ensures r == DecryptAligned(c, unitKey, unit)
  {
    if |unit| != ALIGNED_UNIT_LEN {
      return Err(BadUnitLength(|unit|));
    }
    var seed: Block := unit[..SEED_LEN];
    var bk := ComputeBlockKey(c, unitKey, seed);
    ghost var goal := DecryptUnit(c, unitKey, unit);
    hide CbcDecrypt, DecryptUnit, BlockKey;
    var out: seq<byte> := seed;
    var prev := CONTENT_IV;
    var i := SEED_LEN;
    while i < ALIGNED_UNIT_LEN
      invariant 16 <= i <= ALIGNED_UNIT_LEN && (ALIGNED_UNIT_LEN - i) % 16 == 0
      invariant out + CbcDecrypt(c, bk, prev, unit[i..]) == goal
    {
      var ct: Block := unit[i..i + 16];
      var dec := c.d(bk, ct);
      ghost var before, rest := out, unit[i..];
      out := PushXor(out, dec, prev);
      assert rest[..16] == ct && rest[16..] == unit[i + 16..];
      CbcDecryptStep(c, bk, prev, before, rest);
      StillWhole(|rest|, 16);
      prev := ct;
      i := i + 16;
    }
    assert unit[i..] == [];
    NothingLeft(c, bk, prev, out);
    r := Ok(out);
  }

  /** For each unit key, decryption is a bijection on units, and keeps the seed. */
  lemma UnitBijection(c: Cipher, unitKey: Block, u: Unit)
    requires c.IsPermutation()
    ensures DecryptUnit(c, unitKey, EncryptUnit(c, unitKey, u)) == u
    ensures EncryptUnit(c, unitKey, DecryptUnit(c, unitKey, u)) == u
    ensures DecryptUnit(c, unitKey, u)[..16] == u[..16]
  {
    var bk := BlockKey(c, unitKey, u[..16]);
    var enc, dec := EncryptUnit(c, unitKey, u), DecryptUnit(c, unitKey, u);
    assert enc[..16] == u[..16] && enc[16..] == CbcEncrypt(c, bk, CONTENT_IV, u[16..]);
    assert dec[..16] == u[..16] && dec[16..] == CbcDecrypt(c, bk, CONTENT_IV, u[16..]);
    DecryptEncrypt(c, bk, CONTENT_IV, u[16..]);
    EncryptDecrypt(c, bk, CONTENT_IV, u[16..]);
    assert u == u[..16] + u[16..];
  }

  /** Block `j` of `pt` is that block of `ct` decrypted under `k` and xored with the block
      before it, the first one after the clear block with the content IV. */
  ghost predicate ChainedBlock(c: Cipher, k: Block, ct: seq<byte>, pt: seq<byte>, j: nat)
    requires 0 < j && 16 * j + 16 <= |ct| == |pt|
  {
    BlockAt(pt, j) == XorBlock(c.d(k, BlockAt(ct, j)),
      if j == 1 then
        [0x0B, 0xA0, 0xF8, 0xDD, 0xFE, 0xA6, 0x1F, 0xB3, 0xD8, 0xDF, 0x9F, 0x56, 0x6A, 0x05, 0x0F, 0x78]
      else BlockAt(ct, j - 1))
  }

  /** A clear block followed by a chained body, in units and in sectors alike. */
  lemma BodyBlocks(c: Cipher, k: Block, s: seq<byte>, j: nat)
    requires |s| % 16 == 0 && 16 * j + 16 <= |s|
    ensures (|s| - 16) % 16 == 0
    ensures var pt := s[..16] + CbcDecrypt(c, k, CONTENT_IV, s[16..]);
      if j == 0 then BlockAt(pt, 0) == BlockAt(s, 0) else ChainedBlock(c, k, s, pt, j)
  {
    StillWhole(|s|, 16);
    var body := CbcDecrypt(c, k, CONTENT_IV, s[16..]);
    var pt := s[..16] + body;
    assert pt[16..] == body;
    if j > 0 {
      DecryptedBlock(c, k, CONTENT_IV, s[16..], j - 1);
      BlockAfterFirst(pt, j);
      BlockAfterFirst(s, j);
      if j > 1 { BlockAfterFirst(s, j - 1); }
    }
  }

  /** All 384 blocks of a unit, each from at most two ciphertext blocks, with the key the seed
      selects: the one that, the seed xored on, decrypts to the seed. */
  lemma UnitBlocks(c: Cipher, unitKey: Block, u: Unit, k: Block, j: nat)
    requires c.IsPermutation() && c.d(unitKey, XorBlock(k, u[..16])) == u[..16] && j < 384
    ensures var pt := DecryptUnit(c, unitKey, u);
      if j == 0 then BlockAt(pt, 0) == BlockAt(u, 0) else ChainedBlock(c, k, u, pt, j)
  {
    BlockKeyExact(c, unitKey, u[..16], k);
    BodyBlocks(c, k, u, j);
  }

  /** `ct` is an encrypted form of `pt`: same seed, and every block of the body chained under
      a key that, the seed xored on, decrypts to the seed. */
  ghost predicate Enciphers(c: Cipher, unitKey: Block, ct: Unit, pt: Unit) {
    && ct[..16] == pt[..16]
    && exists k: Block :: c.d(unitKey, XorBlock(k, ct[..16])) == ct[..16]
                          && forall j: nat :: 0 < j < 384 ==> ChainedBlock(c, k, ct, pt, j)
  }

  /** Decryption undoes exactly that. */
  lemma DecryptsExactly(c: Cipher, unitKey: Block, ct: Unit, pt: Unit)
    requires c.IsPermutation()
    ensures DecryptUnit(c, unitKey, ct) == pt <==> Enciphers(c, unitKey, ct, pt)
    ensures EncryptUnit(c, unitKey, pt) == ct <==> Enciphers(c, unitKey, ct, pt)
  {
    hide DecryptUnit, EncryptUnit, ChainedBlock;
    UnitBijection(c, unitKey, ct);
    UnitBijection(c, unitKey, pt);
    var dec, bk := DecryptUnit(c, unitKey, ct), BlockKey(c, unitKey, ct[..16]);
    BlockKeyExact(c, unitKey, ct[..16], bk);
    forall j: nat | 0 < j < 384
      ensures ChainedBlock(c, bk, ct, dec, j)
    {
      UnitBlocks(c, unitKey, ct, bk, j);
    }
    assert Enciphers(c, unitKey, ct, dec);
    if Enciphers(c, unitKey, ct, pt) {
      var k: Block :| c.d(unitKey, XorBlock(k, ct[..16])) == ct[..16]
                      && forall j: nat :: 0 < j < 384 ==> ChainedBlock(c, k, ct, pt, j);
      BlockKeyExact(c, unitKey, ct[..16], k);
      OnePlaintext(c, k, ct, dec, pt);
    }
  }

  lemma OnePlaintext(c: Cipher, k: Block, ct: Unit, a: Unit, b: Unit)
    requires a[..16] == b[..16]
    requires forall j: nat :: 0 < j < 384 ==> ChainedBlock(c, k, ct, a, j) && ChainedBlock(c, k, ct, b, j)
    ensures a == b
  {
    forall i | 0 <= i < 6144
      ensures a[i] == b[i]
    {
      var j := i / 16;
      if j == 0 {
        assert a[i] == a[..16][i] && b[i] == b[..16][i];
      } else {
        assert ChainedBlock(c, k, ct, a, j) && ChainedBlock(c, k, ct, b, j);
        assert a[i] == BlockAt(a, j)[i - 16 * j] && b[i] == BlockAt(b, j)[i - 16 * j];
      }
    }
  }

  /** Damage to one body block of a unit stays in that block and the next. */
  lemma UnitErrorLocality(c: Cipher, unitKey: Block, u: Unit, u': Unit, j: nat, m: nat)
    requires c.IsPermutation() && DifferOnlyAt(u, u', j) && 0 < j < 384 && m < 384
    ensures
      var p, p' := BlockAt(DecryptUnit(c, unitKey, u), m), BlockAt(DecryptUnit(c, unitKey, u'), m);
      if m == j then p == p' <==> BlockAt(u, j) == BlockAt(u', j)
      else if m == j + 1 then p' == XorBlock(p, XorBlock(BlockAt(u, j), BlockAt(u', j)))
      else p == p'
  {
    assert BlockAt(u, 0) == BlockAt(u', 0);
    var bk := BlockKey(c, unitKey, BlockAt(u, 0));
    BlockKeyExact(c, unitKey, u[..16], bk);
    UnitBlocks(c, unitKey, u, bk, m);
    UnitBlocks(c, unitKey, u', bk, m);
    if m > 0 {
      var x := if m == 1 then CONTENT_IV else BlockAt(u, m - 1);
      var x' := if m == 1 then CONTENT_IV else BlockAt(u', m - 1);
      var d, d' := c.d(bk, BlockAt(u, m)), c.d(bk, BlockAt(u', m));
      if m == j {
        if m > 1 { assert BlockAt(u, m - 1) == BlockAt(u', m - 1); }
        XorCancel(d, x);
        XorCancel(d', x);
        DecryptInjective(c, bk, BlockAt(u, j), BlockAt(u', j));
      } else {
        assert BlockAt(u, m) == BlockAt(u', m);
        if m == j + 1 {
          XorShift(d, x, x');
        } else if m > 1 {
          assert BlockAt(u, m - 1) == BlockAt(u', m - 1);
        }
      }
    }
  }

  // ---------- bus layer ----------

  function BusDecryptSector(c: Cipher, key: Block, s: Sector): (r: Sector) {
    s[..16] + CbcDecrypt(c, key, CONTENT_IV, s[16..])
  }

  function BusEncryptSector(c: Cipher, key: Block, s: Sector): (r: Sector) {
    s[..16] + CbcEncrypt(c, key, CONTENT_IV, s[16..])
  }

  datatype BusOp = Strip | Add

  function BusSector(op: BusOp, c: Cipher, key: Block, s: Sector): (r: Sector) {
    match op
    case Strip => BusDecryptSector(c, key, s)
    case Add => BusEncryptSector(c, key, s)
  }

  /** The bus layer over a run of whole sectors. */
  function BusSectors(op: BusOp, c: Cipher, key: Block, u: seq<byte>): (r: seq<byte>)
    requires |u| % 2048 == 0
    ensures |r| == |u|
    decreases |u|
  {
    if u == [] then [] else BusSector(op, c, key, u[..2048]) + BusSectors(op, c, key, u[2048..])
  }

  function BusDecrypt(c: Cipher, key: Block, u: Unit): (r: Unit) {
    BusSectors(Strip, c, key, u)
  }

  function BusEncrypt(c: Cipher, key: Block, u: Unit): (r: Unit) {
    BusSectors(Add, c, key, u)
  }

  function SectorOf(u: seq<byte>, k: nat): (s: Sector)
    requires 2048 * k + 2048 <= |u|
  {
    u[2048 * k..2048 * k + 2048]
  }

  /** `s` with the bytes from `i` on replaced by those of `x`. */
  function Splice(s: seq<byte>, i: nat, x: seq<byte>): (r: seq<byte>)
    requires i + |x| <= |s|
    ensures |r| == |s|
  {
    s[..i] + x + s[i + |x|..]
  }

  /** `for j in 0..16 { out[i + j] = dec[j] ^ prev[j] }`. */
  method XorInto(out: array<byte>, i: nat, dec: Block, prev: Block)
    requires i + 16 <= out.Length
    modifies out
    ensures out[..] == Splice(old(out[..]), i, XorBlock(dec, prev))
  {
    ghost var was := out[..];
    for j := 0 to 16
      invariant forall k :: 0 <= k < out.Length ==>
        out[k] == if i <= k < i + j then dec[k - i] ^ prev[k - i] else was[k]
    {
      out[i + j] := dec[j] ^ prev[j];
    }
  }

  /** `copy_from_slice` of one block. */
  method CopyInto(out: array<byte>, i: nat, x: Block)
    requires i + 16 <= out.Length
    modifies out
    ensures out[..] == Splice(old(out[..]), i, x)
  {
    forall j | 0 <= j < 16 { out[i + j] := x[j]; }
  }

  /** Overwriting the head of `todo`. */
  lemma Overwrite(done: seq<byte>, todo: seq<byte>, after: seq<byte>, x: seq<byte>)
    requires |x| <= |todo|
    ensures (done + todo + after)[|done|..|done| + |x|] == todo[..|x|]
    ensures Splice(done + todo + after, |done|, x) == (done + x) + todo[|x|..] + after
  {
  }

  /** Decrypt the block at `i` in place, keeping a copy of the ciphertext to chain on. */
  method BusDecryptBlock(c: Cipher, key: Block, out: array<byte>, i: nat, prev: Block) returns (ct: Block)
    requires i + 16 <= out.Length
    modifies out
    ensures ct == old(out[..])[i..i + 16]
    ensures out[..] == Splice(old(out[..]), i, XorBlock(c.d(key, ct), prev))
  {
    ct := out[..][i..i + 16];
    var dec := c.d(key, ct);
    XorInto(out, i, dec, prev);
  }

  /** The loop invariant of the sector loop survives one block. */
  lemma BusDecryptStep(c: Cipher, key: Block, prev: Block, done: seq<byte>, todo: seq<byte>, after: seq<byte>)
    requires 16 <= |todo| && |todo| % 16 == 0
    ensures var x := XorBlock(c.d(key, todo[..16]), prev);
      && (done + todo + after)[|done|..|done| + 16] == todo[..16]
      && Splice(done + todo + after, |done|, x) == (done + x) + todo[16..] + after
      && (done + x) + CbcDecrypt(c, key, todo[..16], todo[16..]) == done + CbcDecrypt(c, key, prev, todo)
  {
    Overwrite(done, todo, after, XorBlock(c.d(key, todo[..16]), prev));
    CbcDecryptStep(c, key, prev, done, todo);
  }

  /** The in-place loop over one sector: it reads each ciphertext block just before
      overwriting it, and chains on the saved copy. */
  method BusDecryptSectorInPlace(c: Cipher, key: Block, out: array<byte>, s: nat,
                                 ghost before: seq<byte>, ghost rest: seq<byte>)
    requires |before| == s && SECTOR_LEN <= |rest| && out[..] == before + rest
    modifies out
    ensures out[..] == before + BusDecryptSector(c, key, rest[..2048]) + rest[2048..]
  {
    ghost var sector, after := rest[..2048], rest[2048..];
    ghost var done, todo := before + sector[..16], sector[16..];
    assert out[..] == done + todo + after;
    assert done + CbcDecrypt(c, key, CONTENT_IV, todo) == before + BusDecryptSector(c, key, sector);
    var prev: Block := CONTENT_IV;
    var i := s + SEED_LEN;
    while i < s + SECTOR_LEN
      invariant |done| == i <= s + 2048 && |todo| == s + 2048 - i && |todo| % 16 == 0
      invariant out[..] == done + todo + after
      invariant done + CbcDecrypt(c, key, prev, todo) == before + BusDecryptSector(c, key, sector)
    {
      ghost var x := XorBlock(c.d(key, todo[..16]), prev);
      BusDecryptStep(c, key, prev, done, todo, after);
      StillWhole(|todo|, 16);
      prev := BusDecryptBlock(c, key, out, i, prev);
      done, todo := done + x, todo[16..];
      i := i + 16;
    }
    assert todo == [];
  }

  /** The invariant of the loop over sectors survives one sector. */
  lemma BusSectorsStep(op: BusOp, c: Cipher, key: Block, done: seq<byte>, todo: seq<byte>)
    requires todo != [] && |todo| % 2048 == 0
    ensures done + BusSector(op, c, key, todo[..2048]) + BusSectors(op, c, key, todo[2048..])
         == done + BusSectors(op, c, key, todo)
  {
    Assoc(done, BusSector(op, c, key, todo[..2048]), BusSectors(op, c, key, todo[2048..]));
  }

  /** One turn of the outer loop, with `done` and `todo` the ghost view of the buffer. */
  method BusDecryptNextSector(c: Cipher, key: Block, out: array<byte>, s: nat,
                              ghost done: seq<byte>, ghost todo: seq<byte>)
    returns (ghost done': seq<byte>, ghost todo': seq<byte>)
    requires |done| == s && todo != [] && |todo| % SECTOR_LEN == 0 && out[..] == done + todo
    modifies out
    ensures out[..] == done' + todo' && |done'| == s + SECTOR_LEN && |todo'| + SECTOR_LEN == |todo|
    ensures done' + BusSectors(Strip, c, key, todo') == done + BusSectors(Strip, c, key, todo)
  {
    BusSectorsStep(Strip, c, key, done, todo);
    BusDecryptSectorInPlace(c, key, out, s, done, todo);
    done', todo' := done + BusDecryptSector(c, key, todo[..2048]), todo[2048..];
  }

  /** The outer loop, in place on a buffer of whole sectors. */
  method BusDecryptSectors(c: Cipher, readDataKey: Block, out: array<byte>)
    requires out.Length % SECTOR_LEN == 0
    modifies out
    ensures out[..] == BusSectors(Strip, c, readDataKey, old(out[..]))
  {
    ghost var done, todo: seq<byte> := [], out[..];
    ghost var goal := BusSectors(Strip, c, readDataKey, out[..]);
    var s := 0;
    while s < out.Length
      invariant |done| == s <= out.Length && |todo| == out.Length - s && |todo| % SECTOR_LEN == 0
      invariant out[..] == done + todo
      invariant done + BusSectors(Strip, c, readDataKey, todo) == goal
    {
      StillWhole(|todo|, 2048);
      done, todo := BusDecryptNextSector(c, readDataKey, out, s, done, todo);
      s := s + SECTOR_LEN;
    }
  }

  method BusDecryptUnit(c: Cipher, readDataKey: Block, unit: seq<byte>) returns (r: Result<seq<byte>, ContentError>)
    ensures |unit| != ALIGNED_UNIT_LEN ==> r == Err(BadUnitLength(|unit|))
    ensures |unit| == ALIGNED_UNIT_LEN ==> r == Ok(BusDecrypt(c, readDataKey, unit))
  {
    if |unit| != ALIGNED_UNIT_LEN {
      return Err(BadUnitLength(|unit|));
    }
    var out := ToArray(unit);
    BusDecryptSectors(c, readDataKey, out);
    r := Ok(out[..]);
  }

  method BusEncryptBlock(c: Cipher, key: Block, out: array<byte>, i: nat, prev: Block) returns (ct: Block)
    requires i + 16 <= out.Length
    modifies out
    ensures ct == c.e(key, XorBlock(old(out[..])[i..i + 16], prev))
    ensures out[..] == Splice(old(out[..]), i, ct)
  {
    var x := Xor16(out[..][i..i + 16], prev);
    ct := c.e(key, x);
    CopyInto(out, i, ct);
  }

  /** The loop invariant of the sector loop survives one block. */
  lemma BusEncryptStep(c: Cipher, key: Block, prev: Block, done: seq<byte>, todo: seq<byte>, after: seq<byte>)
    requires 16 <= |todo| && |todo| % 16 == 0
    ensures var x := c.e(key, XorBlock(todo[..16], prev));
      && (done + todo + after)[|done|..|done| + 16] == todo[..16]
      && Splice(done + todo + after, |done|, x) == (done + x) + todo[16..] + after
      && (done + x) + CbcEncrypt(c, key, x, todo[16..]) == done + CbcEncrypt(c, key, prev, todo)
  {
    Overwrite(done, todo, after, c.e(key, XorBlock(todo[..16], prev)));
    CbcEncryptStep(c, key, prev, done, todo);
  }

  /** The sector loop of `bus_encrypt_unit`, the encryptor the repository's tests use. */
  method BusEncryptSectorInPlace(c: Cipher, key: Block, out: array<byte>, s: nat,
                                 ghost before: seq<byte>, ghost rest: seq<byte>)
    requires |before| == s && SECTOR_LEN <= |rest| && out[..] == before + rest
    modifies out
    ensures out[..] == before + BusEncryptSector(c, key, rest[..2048]) + rest[2048..]
  {
    ghost var sector, after := rest[..2048], rest[2048..];
    ghost var done, todo := before + sector[..16], sector[16..];
    assert out[..] == done + todo + after;
    assert done + CbcEncrypt(c, key, CONTENT_IV, todo) == before + BusEncryptSector(c, key, sector);
    var prev: Block := CONTENT_IV;
    var i := s + SEED_LEN;
    while i < s + SECTOR_LEN
      invariant |done| == i <= s + 2048 && |todo| == s + 2048 - i && |todo| % 16 == 0
      invariant out[..] == done + todo + after
      invariant done + CbcEncrypt(c, key, prev, todo) == before + BusEncryptSector(c, key, sector)
    {
      ghost var x := c.e(key, XorBlock(todo[..16], prev));
      BusEncryptStep(c, key, prev, done, todo, after);
      StillWhole(|todo|, 16);
      prev := BusEncryptBlock(c, key, out, i, prev);
      done, todo := done + x, todo[16..];
      i := i + 16;
    }
    assert todo == [];
  }

  /** One turn of the outer loop, with `done` and `todo` the ghost view of the buffer. */
  method BusEncryptNextSector(c: Cipher, key: Block, out: array<byte>, s: nat,
                              ghost done: seq<byte>, ghost todo: seq<byte>)
    returns (ghost done': seq<byte>, ghost todo': seq<byte>)
    requires |done| == s && todo != [] && |todo| % SECTOR_LEN == 0 && out[..] == done + todo
    modifies out
    ensures out[..] == done' + todo' && |done'| == s + SECTOR_LEN && |todo'| + SECTOR_LEN == |todo|
    ensures done' + BusSectors(Add, c, key, todo') == done + BusSectors(Add, c, key, todo)
  {
    BusSectorsStep(Add, c, key, done, todo);
    BusEncryptSectorInPlace(c, key, out, s, done, todo);
    done', todo' := done + BusEncryptSector(c, key, todo[..2048]), todo[2048..];
  }

  /** The outer loop, in place on a buffer of whole sectors. */
  method BusEncryptSectors(c: Cipher, readDataKey: Block, out: array<byte>)
    requires out.Length % SECTOR_LEN == 0
    modifies out
    ensures out[..] == BusSectors(Add, c, readDataKey, old(out[..]))
  {
    ghost var done, todo: seq<byte> := [], out[..];
    ghost var goal := BusSectors(Add, c, readDataKey, out[..]);
    var s := 0;
    while s < out.Length
      invariant |done| == s <= out.Length && |todo| == out.Length - s && |todo| % SECTOR_LEN == 0
      invariant out[..] == done + todo
      invariant done + BusSectors(Add, c, readDataKey, todo) == goal
    {
      StillWhole(|todo|, 2048);
      done, todo := BusEncryptNextSector(c, readDataKey, out, s, done, todo);
      s := s + SECTOR_LEN;
    }
  }

  method BusEncryptUnit(c: Cipher, readDataKey: Block, unit: Unit) returns (r: seq<byte>)
    ensures r == BusEncrypt(c, readDataKey, unit)
  {
    var out := ToArray(unit);
    BusEncryptSectors(c, readDataKey, out);
    r := out[..];
  }

  lemma SectorBijection(c: Cipher, key: Block, s: Sector)
    requires c.IsPermutation()
    ensures BusDecryptSector(c, key, BusEncryptSector(c, key, s)) == s
    ensures BusEncryptSector(c, key, BusDecryptSector(c, key, s)) == s
  {
    var enc, dec := BusEncryptSector(c, key, s), BusDecryptSector(c, key, s);
    assert enc[..16] == s[..16] && enc[16..] == CbcEncrypt(c, key, CONTENT_IV, s[16..]);
    assert dec[..16] == s[..16] && dec[16..] == CbcDecrypt(c, key, CONTENT_IV, s[16..]);
    DecryptEncrypt(c, key, CONTENT_IV, s[16..]);
    EncryptDecrypt(c, key, CONTENT_IV, s[16..]);
    assert s == s[..16] + s[16..];
  }

  /** All 128 blocks of a sector, with the drive's key for the whole sector and the same IV. */
  lemma SectorBlocks(c: Cipher, key: Block, s: Sector, j: nat)
    requires j < 128
    ensures var pt := BusDecryptSector(c, key, s);
      if j == 0 then BlockAt(pt, 0) == BlockAt(s, 0) else ChainedBlock(c, key, s, pt, j)
  {
    BodyBlocks(c, key, s, j);
  }

  lemma {:induction false} BusSectorAt(op: BusOp, c: Cipher, key: Block, u: seq<byte>, k: nat)
    requires |u| % 2048 == 0 && 2048 * k + 2048 <= |u|
    ensures SectorOf(BusSectors(op, c, key, u), k) == BusSector(op, c, key, SectorOf(u, k))
    decreases k
  {
    StillWhole(|u|, 2048);
    var u0: Sector, us := u[..2048], u[2048..];
    assert u == u0 + us && u != [];
    assert BusSectors(op, c, key, u) == BusSector(op, c, key, u0) + BusSectors(op, c, key, us);
    SectorOfConcat(BusSector(op, c, key, u0), BusSectors(op, c, key, us), k);
    SectorOfConcat(u0, us, k);
    if k > 0 {
      BusSectorAt(op, c, key, us, k - 1);
    }
  }

  lemma SectorOfConcat(first: Sector, rest: seq<byte>, k: nat)
    requires 2048 * k <= |rest|
    ensures SectorOf(first + rest, k) == if k == 0 then first else SectorOf(rest, k - 1)
  {
  }

  lemma UnitOfSectors(u: Unit)
    ensures u == SectorOf(u, 0) + SectorOf(u, 1) + SectorOf(u, 2)
  {
  }

  /** Each sector of the result depends on the same sector of the input only, and its
      first 16 bytes pass through. */
  lemma BusSectorsIndependent(c: Cipher, key: Block, u: Unit, k: nat)
    requires k < 3
    ensures SectorOf(BusDecrypt(c, key, u), k) == BusDecryptSector(c, key, SectorOf(u, k))
    ensures BusDecrypt(c, key, u)[2048 * k..2048 * k + 16] == u[2048 * k..2048 * k + 16]
    ensures SectorOf(BusEncrypt(c, key, u), k) == BusEncryptSector(c, key, SectorOf(u, k))
    ensures BusEncrypt(c, key, u)[2048 * k..2048 * k + 16] == u[2048 * k..2048 * k + 16]
  {
    BusSectorAt(Strip, c, key, u, k);
    BusSectorAt(Add, c, key, u, k);
    var d, e := BusDecrypt(c, key, u), BusEncrypt(c, key, u);
    assert d[2048 * k..2048 * k + 16] == SectorOf(d, k)[..16];
    assert e[2048 * k..2048 * k + 16] == SectorOf(e, k)[..16];
    assert u[2048 * k..2048 * k + 16] == SectorOf(u, k)[..16];
  }

  /** Decryption of the bus layer is a two-sided inverse of `bus_encrypt_unit`. */
  lemma BusBijection(c: Cipher, key: Block, u: Unit)
    requires c.IsPermutation()
    ensures BusDecrypt(c, key, BusEncrypt(c, key, u)) == u
    ensures BusEncrypt(c, key, BusDecrypt(c, key, u)) == u
  {
    var e, d := BusEncrypt(c, key, u), BusDecrypt(c, key, u);
    forall k: nat | k < 3
      ensures SectorOf(BusDecrypt(c, key, e), k) == SectorOf(u, k)
      ensures SectorOf(BusEncrypt(c, key, d), k) == SectorOf(u, k)
    {
      BusSectorsIndependent(c, key, u, k);
      BusSectorsIndependent(c, key, e, k);
      BusSectorsIndependent(c, key, d, k);
      SectorBijection(c, key, SectorOf(u, k));
    }
    UnitOfSectors(u);
    UnitOfSectors(BusDecrypt(c, key, e));
    UnitOfSectors(BusEncrypt(c, key, d));
  }

  /** Stripping the bus layer and then the content layer recovers what was put under
      both: the bus layer does not touch the seed that selects the content key. */
  lemma LayerStacking(c: Cipher, unitKey: Block, busKey: Block, pt: Unit)
    requires c.IsPermutation()
    ensures DecryptUnit(c, unitKey, BusDecrypt(c, busKey, BusEncrypt(c, busKey, EncryptUnit(c, unitKey, pt)))) == pt
    ensures BlockKey(c, unitKey, BusEncrypt(c, busKey, EncryptUnit(c, unitKey, pt))[..16])
            == BlockKey(c, unitKey, pt[..16])
  {
    var u := EncryptUnit(c, unitKey, pt);
    BusBijection(c, busKey, u);
    UnitBijection(c, unitKey, pt);
    BusSectorsIndependent(c, busKey, u, 0);
    assert u[..16] == pt[..16];
    assert BusEncrypt(c, busKey, u)[..16] == BusEncrypt(c, busKey, u)[0..16];
  }

  /** Bus-layer damage to block `j` of the body of sector `k` never leaves the sector. */
  lemma BusErrorLocality(c: Cipher, key: Block, u: Unit, u': Unit, k: nat, j: nat, k': nat, m: nat)
    requires c.IsPermutation() && k < 3 && k' < 3 && j < 127 && m < 127
    requires forall i: nat :: i < 3 && i != k ==> SectorOf(u, i) == SectorOf(u', i)
    requires DifferOnlyAt(SectorOf(u, k)[16..], SectorOf(u', k)[16..], j)
    ensures
      var p := BlockAt(SectorOf(BusDecrypt(c, key, u), k')[16..], m);
      var p' := BlockAt(SectorOf(BusDecrypt(c, key, u'), k')[16..], m);
      var ct, ct' := BlockAt(SectorOf(u, k)[16..], j), BlockAt(SectorOf(u', k)[16..], j);
      if k' != k then p == p'
      else if m == j then p == p' <==> ct == ct'
      else if m == j + 1 then p' == XorBlock(p, XorBlock(ct, ct'))
      else p == p'
  {
    BusSectorsIndependent(c, key, u, k');
    BusSectorsIndependent(c, key, u', k');
    var s, s' := SectorOf(u, k'), SectorOf(u', k');
    assert BusDecryptSector(c, key, s)[16..] == CbcDecrypt(c, key, CONTENT_IV, s[16..]);
    assert BusDecryptSector(c, key, s')[16..] == CbcDecrypt(c, key, CONTENT_IV, s'[16..]);
    if k' == k {
      ErrorLocality(c, key, CONTENT_IV, s[16..], s'[16..], j, m);
    }
  }

  // ---------- sync score ----------

  /** How many of the offsets `o, o + 192, ...` hold a sync byte. */
  function SyncCount(u: seq<byte>, o: nat): nat
    decreases |u| - o
  {
    if o >= |u| then 0 else (if u[o] == 0x47 then 1 else 0) + SyncCount(u, o + 192)
  }

  method TsSyncScore(u: seq<byte>) returns (n: nat)
    ensures n == SyncCount(u, 4)
  {
    n := 0;
    var o := 4;
    while o < |u|
      invariant n + SyncCount(u, o) == SyncCount(u, 4)
      decreases |u| - o
    {
      if u[o] == 0x47 {
        n := n + 1;
      }
      o := o + 192;
    }
  }

  /** The score is the number of packet boundaries that carry the sync byte. */
  lemma {:induction false} SyncCountIsCardinality(u: seq<byte>, o: nat)
    requires o >= 4 && (o - 4) % 192 == 0
    ensures SyncCount(u, o) == |SyncFrom(u, o)|
    decreases |u| - o
  {
    if o >= |u| {
      assert SyncFrom(u, o) == {};
    } else {
      SyncCountIsCardinality(u, o + 192);
      var rest := SyncFrom(u, o + 192);
      forall p
        ensures p in SyncFrom(u, o) <==> p in rest || (p == o && u[o] == 0x47)
      {
        NextBoundary(o, p);
      }
      assert SyncFrom(u, o) == rest + (if u[o] == 0x47 then {o} else {});
    }
  }

  function SyncFrom(u: seq<byte>, o: nat): set<int> {
    set p | 4 <= p < |u| && p >= o && (p - 4) % 192 == 0 && u[p] == 0x47
  }

  lemma NextBoundary(o: int, p: int)
    ensures (o - 4) % 192 == 0 && (p - 4) % 192 == 0 && p > o ==> p >= o + 192
  {
  }

  /** Packet boundaries at `o`, `o + 192`, ... below `len`. */
  function Boundaries(len: nat, o: nat): nat {
    if o >= len then 0 else (len - o + 191) / 192
  }

  /** The score never exceeds the number of boundaries (32 for a whole unit), and reaches it
      exactly when every boundary carries the sync byte. */
  lemma {:induction false} PerfectScore(u: seq<byte>, o: nat)
    ensures SyncCount(u, o) <= Boundaries(|u|, o)
    ensures SyncCount(u, o) == Boundaries(|u|, o) <==> forall k: nat :: o + 192 * k < |u| ==> u[o + 192 * k] == 0x47
    ensures Boundaries(6144, 4) == 32
    decreases |u| - o
  {
    if o < |u| {
      PerfectScore(u, o + 192);
      assert Boundaries(|u|, o) == 1 + Boundaries(|u|, o + 192);
      if u[o] == 0x47 && SyncCount(u, o + 192) == Boundaries(|u|, o + 192) {
        forall k: nat | o + 192 * k < |u|
          ensures u[o + 192 * k] == 0x47
        {
          if k > 0 { assert o + 192 * k == o + 192 + 192 * (k - 1); }
        }
      }
      if forall k: nat :: o + 192 * k < |u| ==> u[o + 192 * k] == 0x47 {
        assert u[o + 192 * 0] == 0x47;
        forall k: nat | o + 192 + 192 * k < |u|
          ensures u[o + 192 + 192 * k] == 0x47
        {
          assert u[o + 192 * (k + 1)] == 0x47;
        }
      }
    }
  }
}
