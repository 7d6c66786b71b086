/** Media Key Block parsing and the media-key search of crates/freeblue-mkb. */
module Mkb {
  import opened Wrappers
  import opened Bytes
  import opened Crypto

  const END_OF_MKB: byte := 0x00
  const EXPLICIT_SUBSET_DIFFERENCE: byte := 0x04
  const MEDIA_KEY_DATA: byte := 0x05
  const TYPE_AND_VERSION: byte := 0x10
  const VERIFY_MEDIA_KEY_V1: byte := 0x81
  const VERIFY_MEDIA_KEY_V2: byte := 0x86

  const VERIFY_CONST: seq<byte> := [0x01, 0x23, 0x45, 0x67, 0x89, 0xAB, 0xCD, 0xEF]

  datatype Record = Record(ty: byte, body: seq<byte>)

  datatype MkbError = Truncated | MissingRecord(ty: byte) | NoValidProcessingKey

  // ---------- parsing ----------

  /** The 24-bit length field, which counts the whole record. */
  function RecordLen(data: seq<byte>): nat
    requires 4 <= |data|
  {
    BigEndian(data[1..4])
  }

  predicate IsTerminator(data: seq<byte>)
    requires 4 <= |data|
  {
    data[0] == END_OF_MKB || RecordLen(data) == 0
  }

  function ParseRecords(data: seq<byte>): Result<seq<Record>, MkbError>
    decreases |data|
  {
    if |data| < 4 then Ok([])
    else if IsTerminator(data) then Ok([Record(data[0], [])])
    else
      var len := RecordLen(data);
      if len > |data| || len < 4 then Err(Truncated)
      else Prepend([Record(data[0], data[4..len])], ParseRecords(data[len..]))
  }

  function Prepend(rs: seq<Record>, r: Result<seq<Record>, MkbError>): Result<seq<Record>, MkbError> {
    if r.Ok? then Ok(rs + r.value) else r
  }

  lemma PrependTwice(a: seq<Record>, b: seq<Record>, r: Result<seq<Record>, MkbError>)
    ensures Prepend(a, Prepend(b, r)) == Prepend(a + b, r)
  {
    if r.Ok? { assert a + (b + r.value) == a + b + r.value; }
  }

  lemma PrependNothing(r: Result<seq<Record>, MkbError>)
    ensures Prepend([], r) == r
  {
    if r.Ok? { assert [] + r.value == r.value; }
  }

  method Parse(data: seq<byte>) returns (r: Result<seq<Record>, MkbError>)
    ensures r == ParseRecords(data)
  {
    hide ParseRecords, Prepend, BigEndian;
    var records: seq<Record> := [];
    var off := 0;
    ghost var goal := ParseRecords(data);
    PrependNothing(goal);
    assert data[0..] == data;
    while off + 4 <= |data|
      invariant off <= |data|
      invariant goal == Prepend(records, ParseRecords(data[off..]))
    {
      ParseStep(records, data, off);
      var t := data[off];
      var len := BigEndian(data[off + 1..off + 4]);
      if t == END_OF_MKB || len == 0 {
        records := records + [Record(t, [])];
        return Ok(records);
      }
      if off + len > |data| || len < 4 {
        return Err(Truncated);
      }
      records := records + [Record(t, data[off + 4..off + len])];
      off := off + len;
    }
    ParseEnd(records, data[off..]);
    r := Ok(records);
  }

  lemma ParseEnd(records: seq<Record>, rest: seq<byte>)
    requires |rest| < 4
    ensures Prepend(records, ParseRecords(rest)) == Ok(records)
  {
    assert records + [] == records;
  }

  /** One turn of the parsing loop. */
  lemma ParseStep(records: seq<Record>, data: seq<byte>, off: nat)
    requires off + 4 <= |data|
    ensures
      var t, len := data[off], BigEndian(data[off + 1..off + 4]);
      var r := Prepend(records, ParseRecords(data[off..]));
      if t == END_OF_MKB || len == 0 then r == Ok(records + [Record(t, [])])
      else if off + len > |data| || len < 4 then r == Err(Truncated)
      else r == Prepend(records + [Record(t, data[off + 4..off + len])], ParseRecords(data[off + len..]))
  {
    var rest := data[off..];
    var len := BigEndian(data[off + 1..off + 4]);
    assert rest[1..4] == data[off + 1..off + 4];
    if 4 <= len <= |rest| && !IsTerminator(rest) {
      assert rest[4..len] == data[off + 4..off + len] && rest[len..] == data[off + len..];
      PrependTwice(records, [Record(rest[0], rest[4..len])], ParseRecords(rest[len..]));
    }
  }

  // ---------- the serialised form ----------

  /** What the 24-bit length field can carry, and the terminator does not shadow. */
  ghost predicate Encodable(r: Record) {
    r.ty != END_OF_MKB && 4 + |r.body| < 0x100_0000
  }

  function EncodeRecord(r: Record): seq<byte> {
    [r.ty] + ToBigEndian(4 + |r.body|, 3) + r.body
  }

  function Encode(rs: seq<Record>): seq<byte> {
    if rs == [] then [] else EncodeRecord(rs[0]) + Encode(rs[1..])
  }

  lemma Pow256Three()
    ensures Pow256(3) == 0x100_0000
  {
    assert Pow256(1) == 256 && Pow256(2) == 0x1_0000;
  }

  lemma EncodedHeader(r: Record, rest: seq<byte>)
    requires Encodable(r)
    ensures var d := EncodeRecord(r) + rest;
      && |EncodeRecord(r)| == 4 + |r.body| == RecordLen(d) && d[0] == r.ty
      && d[4..4 + |r.body|] == r.body && d[4 + |r.body|..] == rest
  {
    var d := EncodeRecord(r) + rest;
    var len := ToBigEndian(4 + |r.body|, 3);
    assert d[1..4] == len;
    Pow256Three();
    BigEndianInverse(4 + |r.body|, 3);
  }

  lemma {:induction false} ParsePrefix(rs: seq<Record>, rest: seq<byte>)
    requires forall r <- rs :: Encodable(r)
    ensures ParseRecords(Encode(rs) + rest) == Prepend(rs, ParseRecords(rest))
  {
    if rs == [] {
      assert Encode(rs) + rest == rest;
      assert ParseRecords(rest).Ok? ==> [] + ParseRecords(rest).value == ParseRecords(rest).value;
    } else {
      var tail := Encode(rs[1..]) + rest;
      assert Encode(rs) + rest == EncodeRecord(rs[0]) + tail;
      EncodedHeader(rs[0], tail);
      ParsePrefix(rs[1..], rest);
      PrependTwice([rs[0]], rs[1..], ParseRecords(rest));
      assert rs == [rs[0]] + rs[1..];
    }
  }

  /** Parsing what was serialised, up to any terminator and whatever padding follows it. */
  lemma ParseEncoded(rs: seq<Record>, terminator: seq<byte>, padding: seq<byte>)
    requires forall r <- rs :: Encodable(r)
    requires |terminator| == 4 && IsTerminator(terminator)
    ensures ParseRecords(Encode(rs) + terminator + padding) == Ok(rs + [Record(terminator[0], [])])
    ensures ParseRecords(Encode(rs)) == Ok(rs)
  {
    var rest := terminator + padding;
    assert Encode(rs) + terminator + padding == Encode(rs) + rest;
    assert rest[1..4] == terminator[1..4];
    ParsePrefix(rs, rest);
    ParsePrefix(rs, []);
    assert Encode(rs) + [] == Encode(rs) && rs + [] == rs;
  }

  /** Where the record walk ends: too few bytes, a terminator, or a bad length. */
  ghost predicate Stops(rest: seq<byte>) {
    |rest| < 4 || IsTerminator(rest) || RecordLen(rest) > |rest| || RecordLen(rest) < 4
  }

  /** What a walk over `pre` that stops at `rest` reports. */
  ghost function OutcomeAt(pre: seq<Record>, rest: seq<byte>): Result<seq<Record>, MkbError>
    requires Stops(rest)
  {
    if |rest| < 4 then Ok(pre)
    else if IsTerminator(rest) then Ok(pre + [Record(rest[0], [])])
    else Err(Truncated)
  }

  lemma {:induction false} WalkExists(data: seq<byte>) returns (pre: seq<Record>, rest: seq<byte>)
    ensures forall r <- pre :: Encodable(r)
    ensures data == Encode(pre) + rest && Stops(rest)
    decreases |data|
  {
    if Stops(data) {
      pre, rest := [], data;
    } else {
      var len := RecordLen(data);
      var r := Record(data[0], data[4..len]);
      BigEndianBound(data[1..4]);
      Pow256Three();
      ToBigEndianInverse(data[1..4]);
      assert data == EncodeRecord(r) + data[len..];
      var pre', rest' := WalkExists(data[len..]);
      pre, rest := [r] + pre', rest';
      assert pre[1..] == pre';
      assert data == EncodeRecord(r) + (Encode(pre') + rest') == (EncodeRecord(r) + Encode(pre')) + rest';
    }
  }

  /** Parsing is exact: the result is `r` precisely when the data is the serialised form of
      some records followed by a remainder at which the walk stops with outcome `r`. */
  lemma ParseExact(data: seq<byte>, r: Result<seq<Record>, MkbError>)
    ensures ParseRecords(data) == r <==>
            exists pre: seq<Record>, rest: seq<byte> ::
              (forall x <- pre :: Encodable(x)) && data == Encode(pre) + rest
              && Stops(rest) && r == OutcomeAt(pre, rest)
  {
    var pre, rest := WalkExists(data);
    ParsePrefix(pre, rest);
    assert ParseRecords(data) == OutcomeAt(pre, rest) by { assert pre + [] == pre; }
    forall pre': seq<Record>, rest': seq<byte>
      | (forall x <- pre' :: Encodable(x)) && data == Encode(pre') + rest' && Stops(rest')
      ensures ParseRecords(data) == OutcomeAt(pre', rest')
    {
      ParsePrefix(pre', rest');
      assert pre' + [] == pre';
    }
  }

  /** The length field: 24 bits, most significant byte first. */
  /** One record of the walk; its length counts the four header bytes too. */
  lemma ParseByLength(data: seq<byte>)
    requires 4 <= |data|
    ensures var len := RecordLen(data);
      ParseRecords(data) ==
      if data[0] == 0x00 || len == 0 then Ok([Record(data[0], [])])
      else if len < 4 || len > |data| then Err(Truncated)
      else Prepend([Record(data[0], data[4..len])], ParseRecords(data[len..]))
  {
    hide RecordLen, Prepend;
  }

  lemma RecordLenBytes(data: seq<byte>)
    requires 4 <= |data|
    ensures RecordLen(data) == 0x1_0000 * (data[1] as int) + 0x100 * (data[2] as int) + data[3] as int
  {
    BigEndianFields(data[1], data[2], data[3], 0);
    assert data[1..4] == [data[1], data[2], data[3]];
  }

  // ---------- record lookup ----------

  function Body(rs: seq<Record>, ty: byte): Option<seq<byte>> {
    if rs == [] then None else if rs[0].ty == ty then Some(rs[0].body) else Body(rs[1..], ty)
  }

  lemma {:induction false} BodyIsFirst(rs: seq<Record>, ty: byte, i: nat)
    requires i < |rs| && rs[i].ty == ty && forall j :: 0 <= j < i ==> rs[j].ty != ty
    ensures Body(rs, ty) == Some(rs[i].body)
  {
    if i > 0 { BodyIsFirst(rs[1..], ty, i - 1); }
  }

  lemma {:induction false} BodyMissing(rs: seq<Record>, ty: byte)
    ensures Body(rs, ty).None? <==> forall r <- rs :: r.ty != ty
  {
    if rs != [] {
      BodyMissing(rs[1..], ty);
      assert rs == [rs[0]] + rs[1..];
    }
  }

  function Version(rs: seq<Record>): Option<nat> {
    match Body(rs, TYPE_AND_VERSION)
    case None => None
    case Some(b) => if |b| < 8 then None else Some(BigEndian(b[4..8]))
  }

  function VerifyData(rs: seq<Record>): Option<Block> {
    var v1 := Body(rs, VERIFY_MEDIA_KEY_V1);
    match if v1.Some? then v1 else Body(rs, VERIFY_MEDIA_KEY_V2)
    case None => None
    case Some(b) => if |b| < 16 then None else Some(b[..16])
  }

  /** `[D(mk, dv)]` begins with the verification constant. */
  predicate Verifies(c: Cipher, mk: Block, dv: Block) {
    c.d(mk, dv)[..8] == VERIFY_CONST
  }

  predicate VerifyMediaKey(c: Cipher, rs: seq<Record>, mk: Block) {
    match VerifyData(rs)
    case Some(dv) => Verifies(c, mk, dv)
    case None => false
  }

  // ---------- media-key search ----------

  datatype Tables = Tables(subdiff: seq<byte>, cvalues: seq<byte>, dv: Block)

  /** Leading 5-byte entries whose first byte has neither of its two top bits set. */
  function NumUvs(s: seq<byte>): (n: nat)
    ensures 5 * n <= |s|
  {
    if |s| < 5 || s[0] & 0xC0 != 0 then 0 else 1 + NumUvs(s[5..])
  }

  method CountUvs(subdiff: seq<byte>) returns (n: nat)
    ensures n == NumUvs(subdiff)
  {
    n := 0;
    var r := 0;
    while r + 5 <= |subdiff|
      invariant r == 5 * n <= |subdiff|
      invariant n + NumUvs(subdiff[r..]) == NumUvs(subdiff)
    {
      if subdiff[r] & 0xC0 != 0 { break; }
      assert subdiff[r..][5..] == subdiff[r + 5..];
      n := n + 1;
      r := r + 5;
    }
  }

  /** Entry `k` is there and its top bits are clear. */
  predicate UvEntry(s: seq<byte>, k: nat) {
    5 * k + 5 <= |s| && s[5 * k] & 0xC0 == 0
  }

  /** The count is the least `k` that is not an entry. */
  lemma {:induction false} NumUvsExact(s: seq<byte>, k: nat)
    ensures k < NumUvs(s) ==> UvEntry(s, k)
    ensures k == NumUvs(s) ==> !UvEntry(s, k)
  {
    if UvEntry(s, 0) && k > 0 {
      NumUvsExact(s[5..], k - 1);
    }
  }

  /** How many subsets are tried per processing key. */
  function Limit(t: Tables): nat {
    if NumUvs(t.subdiff) <= |t.cvalues| / 16 then NumUvs(t.subdiff) else |t.cvalues| / 16
  }

  function Uv(t: Tables, a: nat): (uv: seq<byte>)
    requires a < Limit(t)
    ensures |uv| == 4
  {
    t.subdiff[1 + 5 * a..5 + 5 * a]
  }

  const ZERO12: seq<byte> := [0, 0, 0, 0, 0, 0, 0, 0, 0, 0, 0, 0]

  /** The media key proposed by processing key `pk` and subset `a`. */
  function Candidate(c: Cipher, t: Tables, pk: Block, a: nat): Block
    requires a < Limit(t)
  {
    XorBlock(c.d(pk, BlockAt(t.cvalues, a)), ZERO12 + Uv(t, a))
  }

  predicate Hit(c: Cipher, t: Tables, pk: Block, a: nat) {
    a < Limit(t) && Verifies(c, Candidate(c, t, pk, a), t.dv)
  }

  function SearchSubsets(c: Cipher, t: Tables, pk: Block, a: nat): Option<Block>
    decreases Limit(t) - a
  {
    if a >= Limit(t) then None
    else if Hit(c, t, pk, a) then Some(Candidate(c, t, pk, a))
    else SearchSubsets(c, t, pk, a + 1)
  }

  function SearchKeys(c: Cipher, t: Tables, pks: seq<Block>): Option<Block> {
    if pks == [] then None
    else
      var r := SearchSubsets(c, t, pks[0], 0);
      if r.Some? then r else SearchKeys(c, t, pks[1..])
  }

  function FindTables(rs: seq<Record>): Result<Tables, MkbError> {
    var subdiff := Body(rs, EXPLICIT_SUBSET_DIFFERENCE);
    var cvalues := Body(rs, MEDIA_KEY_DATA);
    var dv := VerifyData(rs);
    if subdiff.None? then Err(MissingRecord(EXPLICIT_SUBSET_DIFFERENCE))
    else if cvalues.None? then Err(MissingRecord(MEDIA_KEY_DATA))
    else if dv.None? then Err(MissingRecord(VERIFY_MEDIA_KEY_V1))
    else Ok(Tables(subdiff.value, cvalues.value, dv.value))
  }

  function MediaKey(c: Cipher, rs: seq<Record>, pks: seq<Block>): Result<Block, MkbError> {
    match FindTables(rs)
    case Err(e) => Err(e)
    case Ok(t) =>
      match SearchKeys(c, t, pks)
      case Some(mk) => Ok(mk)
      case None => Err(NoValidProcessingKey)
  }

  /** One candidate, computed as the source does: decrypt, then xor four bytes in place. */
  method ComputeCandidate(c: Cipher, t: Tables, pk: Block, a: nat) returns (mk: Block)
    requires a < Limit(t)
    ensures mk == Candidate(c, t, pk, a)
  {
    hide Candidate;
    var dec := c.d(pk, t.cvalues[16 * a..16 * a + 16]);
    var m := ToArray(dec);
    var uvOff := 1 + a * 5;
    for k := 0 to 4
      invariant forall i :: 0 <= i < 16 ==>
        m[i] == if 12 <= i < 12 + k then dec[i] ^ t.subdiff[uvOff + (i - 12)] else dec[i]
    {
      m[12 + k] := m[12 + k] ^ t.subdiff[uvOff + k];
    }
    mk := m[..];
    CandidateBytes(c, t, pk, a, mk);
  }

  lemma XorZeros(x: Block, uv: seq<byte>, r: Block)
    requires |uv| == 4
    requires forall i :: 0 <= i < 16 ==> r[i] == if 12 <= i then x[i] ^ uv[i - 12] else x[i]
    ensures r == XorBlock(x, ZERO12 + uv)
  {
    forall i | 0 <= i < 16
      ensures r[i] == x[i] ^ (ZERO12 + uv)[i]
    {
      if i < 12 { assert (ZERO12 + uv)[i] == 0; XorZero(x[i]); }
    }
  }

  lemma XorZero(b: byte)
    ensures b ^ 0 == b
  {
  }

  method TrySubsets(c: Cipher, t: Tables, numUvs: nat, pk: Block) returns (r: Option<Block>)
    requires numUvs == NumUvs(t.subdiff)
    ensures r == SearchSubsets(c, t, pk, 0)
  {
    var a := 0;
    while a < numUvs
      invariant a <= Limit(t)
      invariant SearchSubsets(c, t, pk, a) == SearchSubsets(c, t, pk, 0)
    {
      if a * 16 + 16 > |t.cvalues| || 1 + a * 5 + 4 > |t.subdiff| {
        break;
      }
      var mk := ComputeCandidate(c, t, pk, a);
      if c.d(mk, t.dv)[..8] == VERIFY_CONST {
        return Some(mk);
      }
      a := a + 1;
    }
    r := None;
  }

  method DeriveMediaKey(c: Cipher, rs: seq<Record>, pks: seq<Block>) returns (r: Result<Block, MkbError>)
    ensures r == MediaKey(c, rs, pks)
  {
    var subdiff := Body(rs, EXPLICIT_SUBSET_DIFFERENCE);
    if subdiff.None? { return Err(MissingRecord(EXPLICIT_SUBSET_DIFFERENCE)); }
    var cvalues := Body(rs, MEDIA_KEY_DATA);
    if cvalues.None? { return Err(MissingRecord(MEDIA_KEY_DATA)); }
    var dv := VerifyData(rs);
    if dv.None? { return Err(MissingRecord(VERIFY_MEDIA_KEY_V1)); }
    var t := Tables(subdiff.value, cvalues.value, dv.value);
    var numUvs := CountUvs(t.subdiff);
    for i := 0 to |pks|
      invariant SearchKeys(c, t, pks[i..]) == SearchKeys(c, t, pks)
    {
      var hit := TrySubsets(c, t, numUvs, pks[i]);
      assert pks[i..][0] == pks[i] && pks[i..][1..] == pks[i + 1..];
      if hit.Some? {
        return Ok(hit.value);
      }
    }
    r := Err(NoValidProcessingKey);
  }

  /** The pair `(i, a)` verifies, and no pair before it in lexicographic order does. */
  ghost predicate FirstHit(c: Cipher, t: Tables, pks: seq<Block>, i: nat, a: nat) {
    && i < |pks| && Hit(c, t, pks[i], a)
    && (forall b: nat :: b < a ==> !Hit(c, t, pks[i], b))
    && (forall j: nat, b: nat :: j < i ==> !Hit(c, t, pks[j], b))
  }

  lemma {:induction false} SubsetsExact(c: Cipher, t: Tables, pk: Block, a: nat) returns (hit: nat)
    ensures var r := SearchSubsets(c, t, pk, a);
      if r.None? then forall b: nat :: a <= b ==> !Hit(c, t, pk, b)
      else a <= hit && Hit(c, t, pk, hit) && r == Some(Candidate(c, t, pk, hit))
           && forall b: nat :: a <= b < hit ==> !Hit(c, t, pk, b)
    decreases Limit(t) - a
  {
    hit := a;
    if a < Limit(t) && !Hit(c, t, pk, a) {
      hit := SubsetsExact(c, t, pk, a + 1);
    }
  }

  lemma {:induction false} KeysExact(c: Cipher, t: Tables, pks: seq<Block>) returns (i: nat, a: nat)
    ensures var r := SearchKeys(c, t, pks);
      if r.None? then forall j: nat, b: nat :: j < |pks| ==> !Hit(c, t, pks[j], b)
      else FirstHit(c, t, pks, i, a) && r == Some(Candidate(c, t, pks[i], a))
  {
    i, a := 0, 0;
    if pks != [] {
      a := SubsetsExact(c, t, pks[0], 0);
      if SearchSubsets(c, t, pks[0], 0).None? {
        i, a := KeysExact(c, t, pks[1..]);
        assert forall j: nat :: 0 < j < |pks| ==> pks[j] == pks[1..][j - 1];
        i := i + 1;
      }
    }
  }

  /** The search is exact: the key returned is the candidate at the lexicographically first
      pair that verifies, and the search fails if and only if no pair verifies. */
  lemma SearchExact(c: Cipher, rs: seq<Record>, pks: seq<Block>, t: Tables)
    requires FindTables(rs) == Ok(t)
    ensures forall mk :: MediaKey(c, rs, pks) == Ok(mk) <==>
      exists i: nat, a: nat :: FirstHit(c, t, pks, i, a) && mk == Candidate(c, t, pks[i], a)
    ensures MediaKey(c, rs, pks) == Err(NoValidProcessingKey) <==>
      forall i: nat, a: nat :: i < |pks| ==> !Hit(c, t, pks[i], a)
  {
    var i, a := KeysExact(c, t, pks);
    forall i': nat, a': nat | FirstHit(c, t, pks, i', a')
      ensures MediaKey(c, rs, pks).Ok? && i' == i && a' == a
    {
    }
  }

  /** What the search looks for, byte by byte: `mk` is the cvalue of subset `a` decrypted under
      `pk`, its last four bytes xored with the subset's uv; entries 0 to `a` of the
      subset-difference record are whole and have clear top bits; and `dv` decrypted under `mk`
      begins with the eight bytes 01 23 45 67 89 AB CD EF. */
  ghost predicate Passes(c: Cipher, sd: seq<byte>, cv: seq<byte>, dv: Block, pk: Block, a: nat, mk: Block) {
    && (forall b: nat :: b <= a ==> 5 * b + 5 <= |sd| && sd[5 * b] & 0xC0 == 0)
    && 16 * a + 16 <= |cv|
    && (var dec := c.d(pk, cv[16 * a..16 * a + 16]);
        forall i :: 0 <= i < 16 ==> mk[i] == if i < 12 then dec[i] else dec[i] ^ sd[5 * a + 1 + (i - 12)])
    && c.d(mk, dv)[..8] == [0x01, 0x23, 0x45, 0x67, 0x89, 0xAB, 0xCD, 0xEF]
  }

  lemma {:induction false} LeadingEntries(sd: seq<byte>, a: nat)
    ensures a < NumUvs(sd) <==> forall b: nat :: b <= a ==> 5 * b + 5 <= |sd| && sd[5 * b] & 0xC0 == 0
  {
    if a < NumUvs(sd) {
      forall b: nat | b <= a
        ensures 5 * b + 5 <= |sd| && sd[5 * b] & 0xC0 == 0
      {
        NumUvsExact(sd, b);
        assert UvEntry(sd, b);
      }
    } else {
      NumUvsExact(sd, NumUvs(sd));
      assert !UvEntry(sd, NumUvs(sd));
    }
  }

  lemma CandidateBytes(c: Cipher, t: Tables, pk: Block, a: nat, mk: Block)
    requires a < Limit(t)
    ensures mk == Candidate(c, t, pk, a) <==>
      var dec := c.d(pk, t.cvalues[16 * a..16 * a + 16]);
      forall i :: 0 <= i < 16 ==> mk[i] == if i < 12 then dec[i] else dec[i] ^ t.subdiff[5 * a + 1 + (i - 12)]
  {
    var dec, uv := c.d(pk, t.cvalues[16 * a..16 * a + 16]), Uv(t, a);
    var r: Block := seq(16, i requires 0 <= i < 16 => if i < 12 then dec[i] else dec[i] ^ uv[i - 12]);
    XorZeros(dec, uv, r);
    assert mk == r <==> forall i :: 0 <= i < 16 ==> mk[i] == r[i];
  }

  lemma PassesExact(c: Cipher, t: Tables, pk: Block, a: nat, mk: Block)
    ensures Passes(c, t.subdiff, t.cvalues, t.dv, pk, a, mk) <==>
            Hit(c, t, pk, a) && mk == Candidate(c, t, pk, a)
  {
    LeadingEntries(t.subdiff, a);
    assert 16 * a + 16 <= |t.cvalues| <==> a < |t.cvalues| / 16;
    if a < Limit(t) { CandidateBytes(c, t, pk, a, mk); }
  }

  /** `b` is the verify record the source goes by: the first of type 81h, and the first of type
      86h only if there is none. */
  ghost predicate VerifyBody(rs: seq<Record>, b: seq<byte>) {
    Body(rs, 0x81) == Some(b) || (Body(rs, 0x81) == None && Body(rs, 0x86) == Some(b))
  }

  /** `t` is what the first records of the three kinds hold. */
  ghost predicate HasTables(rs: seq<Record>, t: Tables) {
    && Body(rs, 0x04) == Some(t.subdiff) && Body(rs, 0x05) == Some(t.cvalues)
    && exists b: seq<byte> :: VerifyBody(rs, b) && |b| >= 16 && t.dv == b[..16]
  }

  lemma TablesExact(rs: seq<Record>, t: Tables)
    ensures HasTables(rs, t) <==> FindTables(rs) == Ok(t)
  {
    if FindTables(rs) == Ok(t) {
      var v1 := Body(rs, VERIFY_MEDIA_KEY_V1);
      assert VerifyBody(rs, if v1.Some? then v1.value else Body(rs, VERIFY_MEDIA_KEY_V2).value);
    }
  }

  /** `mk` passes for the key and subset `(i, a)`, and nothing passes for an earlier pair. */
  ghost predicate PassesFirst(c: Cipher, sd: seq<byte>, cv: seq<byte>, dv: Block, pks: seq<Block>,
                              i: nat, a: nat, mk: Block)
  {
    && i < |pks| && Passes(c, sd, cv, dv, pks[i], a, mk)
    && forall j: nat, b: nat, x: Block :: j < |pks| && (j < i || (j == i && b < a)) ==>
         !Passes(c, sd, cv, dv, pks[j], b, x)
  }

  lemma FirstIsFound(c: Cipher, t: Tables, pks: seq<Block>, i: nat, a: nat, mk: Block)
    requires PassesFirst(c, t.subdiff, t.cvalues, t.dv, pks, i, a, mk)
    ensures SearchKeys(c, t, pks) == Some(mk)
  {
    hide Passes, Hit, Candidate;
    var i', a' := KeysExact(c, t, pks);
    PassesExact(c, t, pks[i], a, mk);
    PassesExact(c, t, pks[i'], a', SearchKeys(c, t, pks).value);
    assert i' == i && a' == a;
  }

  /** Derivation from the record bodies alone: the key returned passes for the
      lexicographically first pair for which any does, and derivation fails if and only if no
      pair passes. */
  lemma DerivationExact(c: Cipher, rs: seq<Record>, pks: seq<Block>, sd: seq<byte>, cv: seq<byte>, vb: seq<byte>)
    requires Body(rs, 0x04) == Some(sd) && Body(rs, 0x05) == Some(cv) && VerifyBody(rs, vb) && |vb| >= 16
    ensures forall mk: Block :: MediaKey(c, rs, pks) == Ok(mk) <==>
      exists i: nat, a: nat :: PassesFirst(c, sd, cv, vb[..16], pks, i, a, mk)
    ensures MediaKey(c, rs, pks) == Err(NoValidProcessingKey) <==>
      forall i: nat, a: nat, mk: Block :: i < |pks| ==> !Passes(c, sd, cv, vb[..16], pks[i], a, mk)
  {
    var t := Tables(sd, cv, vb[..16]);
    assert FindTables(rs) == Ok(t);
    hide Passes, PassesFirst, Hit, Candidate, FindTables, VerifyBody, VerifyData;
    var i, a := KeysExact(c, t, pks);
    forall j: nat, b: nat, x: Block | j < |pks|
      ensures Passes(c, sd, cv, vb[..16], pks[j], b, x) ==> Hit(c, t, pks[j], b)
    {
      PassesExact(c, t, pks[j], b, x);
    }
    if SearchKeys(c, t, pks).Some? {
      var found := SearchKeys(c, t, pks).value;
      PassesExact(c, t, pks[i], a, found);
      FoundPassesFirst(c, t, pks, i, a, found);
    }
    forall i': nat, a': nat, mk: Block | PassesFirst(c, sd, cv, vb[..16], pks, i', a', mk)
      ensures SearchKeys(c, t, pks) == Some(mk)
    {
      FirstIsFound(c, t, pks, i', a', mk);
    }
  }

  lemma FoundPassesFirst(c: Cipher, t: Tables, pks: seq<Block>, i: nat, a: nat, mk: Block)
    requires FirstHit(c, t, pks, i, a) && mk == Candidate(c, t, pks[i], a)
    ensures PassesFirst(c, t.subdiff, t.cvalues, t.dv, pks, i, a, mk)
  {
    hide Passes, Hit, Candidate;
    PassesExact(c, t, pks[i], a, mk);
    forall j: nat, b: nat, x: Block | j < |pks| && (j < i || (j == i && b < a))
      ensures !Passes(c, t.subdiff, t.cvalues, t.dv, pks[j], b, x)
    {
      PassesExact(c, t, pks[j], b, x);
    }
  }

  /** `verify_media_key` by the bytes: the verify record has a whole block, which decrypted
      under the key begins with the constant. */
  lemma VerifyExact(c: Cipher, rs: seq<Record>, mk: Block)
    ensures VerifyMediaKey(c, rs, mk) <==>
      exists b: seq<byte> :: VerifyBody(rs, b) && |b| >= 16
                             && c.d(mk, b[..16])[..8] == [0x01, 0x23, 0x45, 0x67, 0x89, 0xAB, 0xCD, 0xEF]
  {
    if VerifyMediaKey(c, rs, mk) {
      var v1 := Body(rs, VERIFY_MEDIA_KEY_V1);
      assert VerifyBody(rs, if v1.Some? then v1.value else Body(rs, VERIFY_MEDIA_KEY_V2).value);
    }
  }

  /** Success depends on the set of keys only, never on their order, and any key returned
      passes `verify_media_key`. */
  lemma OrderNeverDecidesSuccess(c: Cipher, rs: seq<Record>, pks: seq<Block>, pks': seq<Block>)
    requires forall k :: k in pks <==> k in pks'
    ensures MediaKey(c, rs, pks).Ok? <==> MediaKey(c, rs, pks').Ok?
    ensures MediaKey(c, rs, pks).Ok? ==> VerifyMediaKey(c, rs, MediaKey(c, rs, pks).value)
  {
    if FindTables(rs).Ok? {
      var t := FindTables(rs).value;
      var i, a := KeysExact(c, t, pks);
      var i', a' := KeysExact(c, t, pks');
      if SearchKeys(c, t, pks).Some? { assert pks[i] in pks'; }
      if SearchKeys(c, t, pks').Some? { assert pks'[i'] in pks; }
    }
  }

  /** In the inner loop the subset-difference bound never stops the search by itself. */
  lemma UvBoundNeverFiresAlone(t: Tables, a: nat)
    requires a < NumUvs(t.subdiff)
    ensures 1 + a * 5 + 4 <= |t.subdiff|
    ensures a * 16 + 16 > |t.cvalues| <==> a >= Limit(t)
  {
  }

  /** A v1 verify record that is too short hides a usable v2 one. */
  lemma ShortV1HidesV2(rs: seq<Record>, b1: seq<byte>)
    requires Body(rs, VERIFY_MEDIA_KEY_V1) == Some(b1) && |b1| < 16
    ensures VerifyData(rs).None?
    ensures forall c: Cipher, pks: seq<Block> :: MediaKey(c, rs, pks).Err?
  {
  }

  ghost predicate Absent(rs: seq<Record>, ty: byte) {
    forall r <- rs :: r.ty != ty
  }

  /** The first record of the type holds less than a block. */
  ghost predicate FirstIsShort(rs: seq<Record>, ty: byte) {
    exists i: nat :: i < |rs| && FirstAt(rs, ty, i) && |rs[i].body| < 16
  }

  ghost predicate FirstAt(rs: seq<Record>, ty: byte, i: nat)
    requires i < |rs|
  {
    rs[i].ty == ty && forall j :: 0 <= j < i ==> rs[j].ty != ty
  }

  lemma {:induction false} BodyHasIndex(rs: seq<Record>, ty: byte) returns (i: nat)
    requires Body(rs, ty).Some?
    ensures i < |rs| && FirstAt(rs, ty, i) && rs[i].body == Body(rs, ty).value
  {
    if rs[0].ty == ty {
      i := 0;
    } else {
      i := BodyHasIndex(rs[1..], ty);
      i := i + 1;
    }
  }

  lemma ShortBody(rs: seq<Record>, ty: byte)
    ensures FirstIsShort(rs, ty) <==> Body(rs, ty).Some? && |Body(rs, ty).value| < 16
  {
    if FirstIsShort(rs, ty) {
      var i: nat :| i < |rs| && FirstAt(rs, ty, i) && |rs[i].body| < 16;
      BodyIsFirst(rs, ty, i);
    } else if Body(rs, ty).Some? {
      var i := BodyHasIndex(rs, ty);
    }
  }

  /** Which missing record is reported, exactly, by the records present. The last of the three
      also stands for verify data that is there but short, and a short v1 record counts even
      beside a whole v2 record. */
  lemma MissingRecordsExact(c: Cipher, rs: seq<Record>, pks: seq<Block>)
    ensures
      var r := MediaKey(c, rs, pks);
      && (r == Err(MissingRecord(EXPLICIT_SUBSET_DIFFERENCE)) <==> Absent(rs, EXPLICIT_SUBSET_DIFFERENCE))
      && (r == Err(MissingRecord(MEDIA_KEY_DATA)) <==>
            !Absent(rs, EXPLICIT_SUBSET_DIFFERENCE) && Absent(rs, MEDIA_KEY_DATA))
      && (r == Err(MissingRecord(VERIFY_MEDIA_KEY_V1)) <==>
            && !Absent(rs, EXPLICIT_SUBSET_DIFFERENCE) && !Absent(rs, MEDIA_KEY_DATA)
            && (FirstIsShort(rs, VERIFY_MEDIA_KEY_V1)
                || (Absent(rs, VERIFY_MEDIA_KEY_V1)
                    && (Absent(rs, VERIFY_MEDIA_KEY_V2) || FirstIsShort(rs, VERIFY_MEDIA_KEY_V2)))))
      && r != Err(Truncated)
  {
    hide FirstIsShort, Absent;
    forall ty: byte
      ensures Body(rs, ty).None? <==> Absent(rs, ty)
      ensures FirstIsShort(rs, ty) <==> Body(rs, ty).Some? && |Body(rs, ty).value| < 16
    {
      AbsentBody(rs, ty);
      ShortBody(rs, ty);
    }
  }

  lemma AbsentBody(rs: seq<Record>, ty: byte)
    ensures Body(rs, ty).None? <==> Absent(rs, ty)
  {
    BodyMissing(rs, ty);
  }

  /** The comment on `version` says "last 4 bytes of its body". For a record long enough to
      have four, code and comment agree if and only if bytes 4 to 8 are there and repeat at
      the end. */
  lemma VersionCommentExact(rs: seq<Record>, b: seq<byte>)
    requires Body(rs, TYPE_AND_VERSION) == Some(b) && 4 <= |b|
    ensures Version(rs) == Some(BigEndian(b[|b| - 4..])) <==> |b| >= 8 && b[4..8] == b[|b| - 4..]
  {
    if |b| >= 8 {
      ToBigEndianInverse(b[4..8]);
      ToBigEndianInverse(b[|b| - 4..]);
    }
  }

  /** The comment holds of all bodies of one length exactly when that length is 8. */
  lemma VersionCommentLength(len: nat)
    requires 4 <= len
    ensures len == 8 <==>
      forall rs: seq<Record>, b: seq<byte> :: Body(rs, TYPE_AND_VERSION) == Some(b) && |b| == len ==>
        Version(rs) == Some(BigEndian(b[len - 4..]))
  {
    if len == 8 {
      forall rs: seq<Record>, b: seq<byte> | Body(rs, TYPE_AND_VERSION) == Some(b) && |b| == len
        ensures Version(rs) == Some(BigEndian(b[len - 4..]))
      {
        VersionCommentExact(rs, b);
        assert b[4..8] == b[4..];
      }
    } else {
      var b: seq<byte> := seq(len - 1, _ => 0) + [1];
      var rs := [Record(TYPE_AND_VERSION, b)];
      assert Body(rs, TYPE_AND_VERSION) == Some(b);
      VersionCommentExact(rs, b);
      if len > 8 { assert b[4..8][3] == 0 && b[len - 4..][3] == 1; }
    }
  }

  /** A body of twelve bytes: the code answers 2 where the comment promises 3. */
  lemma VersionCommentExample(rs: seq<Record>)
    requires Body(rs, 0x10) == Some([0, 0, 0, 1, 0, 0, 0, 2, 0, 0, 0, 3])
    ensures Version(rs) == Some(2)
    ensures BigEndian(Body(rs, 0x10).value[8..]) == 3
  {
    var b: seq<byte> := [0, 0, 0, 1, 0, 0, 0, 2, 0, 0, 0, 3];
    assert b[4..8] == [0, 0, 0, 2] && b[8..] == [0, 0, 0, 3];
    BigEndianFields(0, 0, 0, 2);
    BigEndianFields(0, 0, 0, 3);
  }

  /** The version by its bytes. */
  lemma VersionBytes(rs: seq<Record>, b: seq<byte>)
    requires Body(rs, 0x10) == Some(b)
    ensures |b| < 8 ==> Version(rs) == None
    ensures |b| >= 8 ==>
      Version(rs) == Some(0x100_0000 * (b[4] as int) + 0x1_0000 * (b[5] as int) + 0x100 * (b[6] as int) + b[7] as int)
  {
    if |b| >= 8 {
      BigEndianFields(b[4], b[5], b[6], b[7]);
      assert b[4..8] == [b[4], b[5], b[6], b[7]];
    }
  }

  /** The version number written in the first Type-and-Version record is the one read back. */
  lemma VersionReadsBack(before: seq<Record>, head: seq<byte>, v: nat, more: seq<byte>, after: seq<Record>)
    requires |head| == 4 && v < Pow256(4)
    requires forall r <- before :: r.ty != TYPE_AND_VERSION
    ensures Version(before + [Record(TYPE_AND_VERSION, head + ToBigEndian(v, 4) + more)] + after) == Some(v)
  {
    var body := head + ToBigEndian(v, 4) + more;
    var rs := before + [Record(TYPE_AND_VERSION, body)] + after;
    forall j | 0 <= j < |before|
      ensures rs[j].ty != TYPE_AND_VERSION
    {
      assert rs[j] == before[j] && before[j] in before;
    }
    BodyIsFirst(rs, TYPE_AND_VERSION, |before|);
    assert body[4..8] == ToBigEndian(v, 4);
    BigEndianInverse(v, 4);
  }

  // ---------- a block built for a given media key ----------

  /** Subset `a` carries `km` for processing key `pk`, and `dv` is the matching check value. */
  ghost predicate Carries(c: Cipher, t: Tables, km: Block, pk: Block, a: nat) {
    && (forall b: nat :: b <= a ==> 5 * b + 5 <= |t.subdiff| && t.subdiff[5 * b] & 0xC0 == 0)
    && 16 * a + 16 <= |t.cvalues|
    && t.cvalues[16 * a..16 * a + 16]
       == c.e(pk, XorBlock(km, [0, 0, 0, 0, 0, 0, 0, 0, 0, 0, 0, 0] + t.subdiff[5 * a + 1..5 * a + 5]))
    && exists x: seq<byte> :: |x| == 8
                              && t.dv == c.e(km, [0x01, 0x23, 0x45, 0x67, 0x89, 0xAB, 0xCD, 0xEF] + x)
  }

  lemma CarriedKeyHits(c: Cipher, t: Tables, km: Block, pk: Block, a: nat)
    requires c.IsPermutation() && Carries(c, t, km, pk, a)
    ensures Hit(c, t, pk, a) && km == Candidate(c, t, pk, a)
    ensures Passes(c, t.subdiff, t.cvalues, t.dv, pk, a, km)
  {
    LeadingEntries(t.subdiff, a);
    assert a < Limit(t);
    var pad: Block := ZERO12 + Uv(t, a);
    assert c.d(pk, c.e(pk, XorBlock(km, pad))) == XorBlock(km, pad);
    XorCancel(km, pad);
    var x: seq<byte> :| |x| == 8 && t.dv == c.e(km, VERIFY_CONST + x);
    assert c.d(km, c.e(km, VERIFY_CONST + x)) == VERIFY_CONST + x;
    assert (VERIFY_CONST + x)[..8] == VERIFY_CONST;
    PassesExact(c, t, pk, a, km);
  }

  /** A block that carries `km` always yields some verifying key, and yields `km` itself
      when no earlier pair passes the 64-bit check. */
  lemma CarriedKeyIsFound(c: Cipher, rs: seq<Record>, t: Tables, pks: seq<Block>, km: Block, i: nat, a: nat)
    requires c.IsPermutation() && HasTables(rs, t)
    requires i < |pks| && Carries(c, t, km, pks[i], a)
    ensures MediaKey(c, rs, pks).Ok? && VerifyMediaKey(c, rs, MediaKey(c, rs, pks).value)
    ensures PassesFirst(c, t.subdiff, t.cvalues, t.dv, pks, i, a, km) ==> MediaKey(c, rs, pks) == Ok(km)
  {
    TablesExact(rs, t);
    CarriedKeyHits(c, t, km, pks[i], a);
    var i', a' := KeysExact(c, t, pks);
    if PassesFirst(c, t.subdiff, t.cvalues, t.dv, pks, i, a, km) {
      FirstIsFound(c, t, pks, i, a, km);
    }
  }
}
