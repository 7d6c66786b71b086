/** Volume and unit keys: crates/freeblue-core and the unit-key file of crates/freeblue-disc. */
module UnitKeys {
  import opened Wrappers
  import opened Bytes
  import opened Crypto
  import opened Content

  const USIZE_LIMIT := 0x1_0000_0000_0000_0000

  /** A 64-bit `usize`. */
  type usize = n: nat | n < USIZE_LIMIT

  const FIRST_UNIT_KEY_OFFSET := 112

  datatype DiscError = Malformed
  datatype CoreError = NoVolumeUniqueKey | Disc(error: DiscError)

  function VolumeUniqueKey(c: Cipher, mediaKey: Block, volumeId: Block): Block {
    AesG(c, mediaKey, volumeId)
  }

  /** The volume unique key is the one block that, with the volume id xored on byte by byte,
      encrypts under the media key to the volume id. */
  lemma VolumeUniqueKeyExact(c: Cipher, mediaKey: Block, volumeId: Block, v: Block, masked: Block)
    requires c.IsPermutation()
    requires forall i :: 0 <= i < 16 ==> masked[i] == v[i] ^ volumeId[i]
    ensures v == VolumeUniqueKey(c, mediaKey, volumeId) <==> c.e(mediaKey, masked) == volumeId
  {
    assert masked == XorBlock(v, volumeId);
    var d := c.d(mediaKey, volumeId);
    assert c.e(mediaKey, d) == volumeId;
    XorCancel(d, volumeId);
    XorCancel(v, volumeId);
    DecryptInjective(c, mediaKey, masked, d);
  }

  function UnwrapUnitKey(c: Cipher, vuk: Block, enc: Block): Block {
    c.d(vuk, enc)
  }

  /** `112 + index * 16` in 64-bit arithmetic that wraps, as in a release build. */
  function SlotStart(index: usize): usize {
    (FIRST_UNIT_KEY_OFFSET + index * 16 % USIZE_LIMIT) % USIZE_LIMIT
  }

  function EncryptedUnitKey(file: seq<byte>, index: usize): Result<Block, DiscError> {
    var start := SlotStart(index);
    var end := (start + 16) % USIZE_LIMIT;
    if start <= end <= |file| then Ok(file[start..end]) else Err(Malformed)
  }

  /** The documented contract: slot `index` is the 16 bytes at `112 + 16 * index`, and the
      call fails exactly when the file does not reach that far. */
  ghost predicate SlotContract(file: seq<byte>, index: usize) {
    EncryptedUnitKey(file, index) ==
      if FIRST_UNIT_KEY_OFFSET + 16 * (index + 1) <= |file|
      then Ok(file[FIRST_UNIT_KEY_OFFSET + 16 * index..FIRST_UNIT_KEY_OFFSET + 16 * index + 16])
      else Err(Malformed)
  }

  /** No real buffer exceeds `isize::MAX`; within that, the contract holds if and only if the
      offset does not overflow or the wrapped slot lies outside the file too. */
  lemma SlotContractExact(file: seq<byte>, index: usize)
    requires |file| < USIZE_LIMIT / 2
    ensures SlotContract(file, index) <==>
            (FIRST_UNIT_KEY_OFFSET + 16 * index < USIZE_LIMIT || SlotStart(index) + 16 > |file|)
  {
    if FIRST_UNIT_KEY_OFFSET + 16 * index < USIZE_LIMIT {
      assert SlotStart(index) == FIRST_UNIT_KEY_OFFSET + 16 * index;
    } else {
      assert FIRST_UNIT_KEY_OFFSET + 16 * (index + 1) > |file|;
    }
  }

  /** Where it fails: a huge index reads the header of the file instead of being refused. */
  lemma WrappedSlotExample(file: seq<byte>)
    requires 16 <= |file| < USIZE_LIMIT / 2
    ensures EncryptedUnitKey(file, 0x0FFF_FFFF_FFFF_FFF9) == Ok(file[0..16])
    ensures !SlotContract(file, 0x0FFF_FFFF_FFFF_FFF9)
  {
  }

  function Concat(blocks: seq<Block>): (s: seq<byte>)
    ensures |s| == 16 * |blocks|
  {
    if blocks == [] then [] else blocks[0] + Concat(blocks[1..])
  }

  lemma {:induction false} ConcatAt(blocks: seq<Block>, i: nat)
    requires i < |blocks|
    ensures BlockAt(Concat(blocks), i) == blocks[i]
  {
    if i > 0 {
      ConcatAt(blocks[1..], i - 1);
      assert BlockAt(Concat(blocks), i) == BlockAt(Concat(blocks[1..]), i - 1);
    }
  }

  /** In a file of a header, whole slots and a rest, slot `i` is the `i`-th encrypted key,
      whatever the other slots hold, and less than a slot of rest is no slot. */
  lemma SlotsOfFile(header: seq<byte>, encs: seq<Block>, rest: seq<byte>, index: usize)
    requires |header| == FIRST_UNIT_KEY_OFFSET
    requires FIRST_UNIT_KEY_OFFSET + 16 * index + 16 < USIZE_LIMIT
    ensures index < |encs| ==> EncryptedUnitKey(header + Concat(encs) + rest, index) == Ok(encs[index])
    ensures index >= |encs| && |rest| < 16 ==> EncryptedUnitKey(header + Concat(encs) + rest, index) == Err(Malformed)
  {
    var file := header + Concat(encs) + rest;
    SlotInRange(file, index);
    if index < |encs| {
      ConcatAt(encs, index);
      SliceAfterHeader(header, Concat(encs), rest, index);
    }
  }

  lemma SlotInRange(file: seq<byte>, index: usize)
    requires FIRST_UNIT_KEY_OFFSET + 16 * index + 16 < USIZE_LIMIT
    ensures SlotContract(file, index)
  {
    NoWrap(16 * index);
    NoWrap(FIRST_UNIT_KEY_OFFSET + 16 * index);
    NoWrap(FIRST_UNIT_KEY_OFFSET + 16 * index + 16);
  }

  lemma NoWrap(n: nat)
    requires n < USIZE_LIMIT
    ensures n % USIZE_LIMIT == n
  {
  }

  lemma SliceAfterHeader(header: seq<byte>, body: seq<byte>, rest: seq<byte>, index: nat)
    requires |header| == FIRST_UNIT_KEY_OFFSET && 16 * index + 16 <= |body|
    ensures (header + body + rest)[FIRST_UNIT_KEY_OFFSET + 16 * index..FIRST_UNIT_KEY_OFFSET + 16 * index + 16]
            == BlockAt(body, index)
  {
  }

  function ResolveUnitKey(c: Cipher, keydbUnitKey: Option<Block>, vuk: Option<Block>, file: seq<byte>, index: usize)
    : Result<Block, CoreError>
  {
    if keydbUnitKey.Some? then Ok(keydbUnitKey.value)
    else if vuk.None? then Err(NoVolumeUniqueKey)
    else match EncryptedUnitKey(file, index)
      case Err(e) => Err(Disc(e))
      case Ok(enc) => Ok(UnwrapUnitKey(c, vuk.value, enc))
  }

  /** The keydb's own unit key of an index, where it has one. */
  function KeydbKey(unitKeys: seq<Block>, index: usize): Option<Block> {
    if index < |unitKeys| then Some(unitKeys[index]) else None
  }

  /** A keydb entry whose unit keys are the unwrapped slots of the disc's file resolves to the
      same key from either source; so for no index at all does it matter whether the keydb is
      consulted first. Past the last slot the file is refused as too short. */
  lemma KeySourcesAgree(c: Cipher, vuk: Block, unitKeys: seq<Block>, header: seq<byte>, encs: seq<Block>,
                        rest: seq<byte>, index: usize)
    requires c.IsPermutation()
    requires |header| == FIRST_UNIT_KEY_OFFSET
    requires |encs| == |unitKeys| && FIRST_UNIT_KEY_OFFSET + 16 * |encs| < USIZE_LIMIT
    requires forall i :: 0 <= i < |encs| ==> encs[i] == c.e(vuk, unitKeys[i])
    ensures var file := header + Concat(encs) + rest;
      var viaV := ResolveUnitKey(c, None, Some(vuk), file, index);
      && ResolveUnitKey(c, KeydbKey(unitKeys, index), Some(vuk), file, index) == viaV
      && (index < |encs| ==>
            viaV == Ok(unitKeys[index]) && ResolveUnitKey(c, KeydbKey(unitKeys, index), None, file, index) == viaV)
      && (index >= |encs| && |rest| < 16 && FIRST_UNIT_KEY_OFFSET + 16 * index + 16 < USIZE_LIMIT ==>
            viaV == Err(Disc(Malformed)))
  {
    if FIRST_UNIT_KEY_OFFSET + 16 * index + 16 < USIZE_LIMIT {
      SlotsOfFile(header, encs, rest, index);
    }
    if index < |encs| {
      assert c.d(vuk, c.e(vuk, unitKeys[index])) == unitKeys[index];
    }
  }

  /** Which source decides: the keydb's key whenever there is one, whatever the others hold;
      otherwise the slot at `112 + 16 * index`, decrypted under the volume unique key. */
  lemma ResolveOrder(c: Cipher, k: Option<Block>, vuk: Option<Block>, file: seq<byte>, index: usize)
    requires |file| < USIZE_LIMIT / 2
    ensures k.Some? ==> ResolveUnitKey(c, k, vuk, file, index) == Ok(k.value)
    ensures k.None? && vuk.Some? && 112 + 16 * index + 16 <= |file| ==>
      ResolveUnitKey(c, k, vuk, file, index) == Ok(c.d(vuk.value, file[112 + 16 * index..112 + 16 * index + 16]))
  {
    SlotContractExact(file, index);
  }

  /** The errors of resolution, exactly. */
  lemma ResolveErrors(c: Cipher, k: Option<Block>, vuk: Option<Block>, file: seq<byte>, index: usize)
    requires |file| < USIZE_LIMIT / 2 && FIRST_UNIT_KEY_OFFSET + 16 * index < USIZE_LIMIT
    ensures ResolveUnitKey(c, k, vuk, file, index) == Err(NoVolumeUniqueKey) <==> k.None? && vuk.None?
    ensures ResolveUnitKey(c, k, vuk, file, index) == Err(Disc(Malformed)) <==>
            k.None? && vuk.Some? && |file| < FIRST_UNIT_KEY_OFFSET + 16 * (index + 1)
  {
    SlotContractExact(file, index);
  }

  /** `decrypt_units`: each item on its own. */
  function DecryptUnits(c: Cipher, unitKey: Block, units: seq<seq<byte>>): seq<Result<Unit, ContentError>> {
    seq(|units|, i requires 0 <= i < |units| => DecryptAligned(c, unitKey, units[i]))
  }

  lemma DecryptUnitsInverts(c: Cipher, unitKey: Block, pts: seq<Unit>)
    requires c.IsPermutation()
    ensures var units: seq<seq<byte>> := seq(|pts|, i requires 0 <= i < |pts| => EncryptUnit(c, unitKey, pts[i]));
      DecryptUnits(c, unitKey, units) == seq(|pts|, i requires 0 <= i < |pts| => Ok(pts[i]))
  {
    forall i | 0 <= i < |pts|
      ensures DecryptAligned(c, unitKey, EncryptUnit(c, unitKey, pts[i])) == Ok(pts[i])
    {
      UnitBijection(c, unitKey, pts[i]);
    }
  }
}
