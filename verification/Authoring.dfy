/** Discs made by the inverse equations exist for every cipher, and both key sources, the media
    key block and a key database entry, open them. */
module Authoring {
  import opened Wrappers
  import opened Bytes
  import opened Crypto
  import opened Content
  import opened UnitStream
  import opened Scsi
  import opened UnitKeys
  import opened Pipeline
  import opened EndToEnd
  import KeyDb
  import KeyDbFormat
  import Mkb
  import FileReader
  import LibreDrive

  function Wrapped(c: Cipher, vuk: Block, keys: seq<Block>): (encs: seq<Block>)
    ensures |encs| == |keys| && forall i :: 0 <= i < |keys| ==> encs[i] == c.e(vuk, keys[i])
  {
    if keys == [] then [] else [c.e(vuk, keys[0])] + Wrapped(c, vuk, keys[1..])
  }

  /** A disc with one subset: the media key `km` for processing key `pk`. */
  function Author(c: Cipher, pk: Block, km: Block, uv: seq<byte>, filler: seq<byte>, volumeId: Block,
                  header: seq<byte>, unitKeys: seq<Block>, plaintext: seq<Unit>): Disc
    requires |uv| == 4 && |filler| == 8
  {
    var t := Mkb.Tables([0] + uv, c.e(pk, XorBlock(km, Mkb.ZERO12 + uv)), c.e(km, Mkb.VERIFY_CONST + filler));
    Disc.Disc([Mkb.Record(Mkb.VERIFY_MEDIA_KEY_V1, t.dv),
                           Mkb.Record(Mkb.EXPLICIT_SUBSET_DIFFERENCE, t.subdiff),
          Mkb.Record(Mkb.MEDIA_KEY_DATA, t.cvalues)],
         [0, 0, 0, 0], [], t, km, volumeId, VolumeUniqueKey(c, km, volumeId),
         header, Wrapped(c, VolumeUniqueKey(c, km, volumeId), unitKeys), unitKeys, [], plaintext)
  }

  lemma AuthoredTables(c: Cipher, x: Disc, t: Mkb.Tables)
    requires x.records == [Mkb.Record(Mkb.VERIFY_MEDIA_KEY_V1, t.dv),
                           Mkb.Record(Mkb.EXPLICIT_SUBSET_DIFFERENCE, t.subdiff),
                           Mkb.Record(Mkb.MEDIA_KEY_DATA, t.cvalues)]
    requires x.terminator == [0, 0, 0, 0]
    ensures Mkb.HasTables(x.records + [Mkb.Record(x.terminator[0], [])], t)
  {
    var rs := x.records + [Mkb.Record(x.terminator[0], [])];
    Mkb.BodyIsFirst(rs, Mkb.VERIFY_MEDIA_KEY_V1, 0);
    Mkb.BodyIsFirst(rs, Mkb.EXPLICIT_SUBSET_DIFFERENCE, 1);
    Mkb.BodyIsFirst(rs, Mkb.MEDIA_KEY_DATA, 2);
    assert t.dv[..16] == t.dv;
  }

  lemma OneSubset(t: Mkb.Tables, uv: seq<byte>)
    requires |uv| == 4 && t.subdiff == [0] + uv && |t.cvalues| == 16
    ensures Mkb.Limit(t) == 1 && Mkb.Uv(t, 0) == uv && BlockAt(t.cvalues, 0) == t.cvalues
  {
    assert t.subdiff[0] & 0xC0 == 0;
    Mkb.NumUvsExact(t.subdiff, 0);
    assert t.subdiff[5..] == [];
  }

  /** The hypotheses of recovery are met by an actual disc, for every choice of keys, and with
      its one key and one subset the proviso on earlier candidates holds by itself. */
  lemma AuthoredDiscIsMastered(c: Cipher, pk: Block, km: Block, uv: seq<byte>, filler: seq<byte>, volumeId: Block,
                               header: seq<byte>, unitKeys: seq<Block>, plaintext: seq<Unit>, index: usize)
    requires c.IsPermutation() && |uv| == 4 && |filler| == 8 && |header| == FIRST_UNIT_KEY_OFFSET
    requires index < |unitKeys| && FIRST_UNIT_KEY_OFFSET + 16 * |unitKeys| < USIZE_LIMIT
    ensures var x := Author(c, pk, km, uv, filler, volumeId, header, unitKeys, plaintext);
      && Mastered(c, x, index) && Mkb.Carries(c, x.tables, km, pk, 0)
      && Mkb.PassesFirst(c, x.tables.subdiff, x.tables.cvalues, x.tables.dv, [pk], 0, 0, km)
  {
    var x := Author(c, pk, km, uv, filler, volumeId, header, unitKeys, plaintext);
    AuthoredTables(c, x, x.tables);
    OneSubset(x.tables, uv);
    assert x.tables.dv == c.e(km, Mkb.VERIFY_CONST + filler);
    Mkb.CarriedKeyHits(c, x.tables, km, pk, 0);
    VolumeUniqueKeyExact(c, km, volumeId, x.vuk, XorBlock(x.vuk, volumeId));
  }

  /** Sector `x` of a medium that holds the encrypted units from `start` and is blank elsewhere. */
  function AuthoredSector(c: Cipher, key: Block, start: nat, plaintext: seq<Unit>, x: nat): Sector {
    if start <= x < start + 3 * |plaintext| then
      var i, r := (x - start) / 3, (x - start) % 3;
      EncryptUnit(c, key, plaintext[i])[2048 * r..2048 * r + 2048]
    else seq(2048, _ => 0)
  }

  function AuthorDrive(c: Cipher, key: Block, start: nat, plaintext: seq<Unit>): Drive {
    Drive(x => AuthoredSector(c, key, start, plaintext, x), _ => Done(0))
  }

  lemma AuthoredSectorOfUnit(c: Cipher, key: Block, start: nat, plaintext: seq<Unit>, i: nat, r: nat)
    requires i < |plaintext| && r < 3
    ensures AuthoredSector(c, key, start, plaintext, start + 3 * i + r)
            == EncryptUnit(c, key, plaintext[i])[2048 * r..2048 * r + 2048]
  {
    hide EncryptUnit;
    assert (3 * i + r) / 3 == i && (3 * i + r) % 3 == r;
  }

  lemma ThreeSectors(d: Drive, a: nat, u: Unit)
    requires d.sector(a) == u[0..2048] && d.sector(a + 1) == u[2048..4096] && d.sector(a + 2) == u[4096..6144]
    ensures Extent(d, a, 3) == u
  {
    assert Extent(d, a, 1) == [] + d.sector(a);
    assert Extent(d, a, 2) == Extent(d, a, 1) + d.sector(a + 1);
    assert Extent(d, a, 3) == Extent(d, a, 2) + d.sector(a + 2);
  }

  /** That medium holds the disc's units and is read without faults. */
  lemma AuthoredDriveHolds(c: Cipher, key: Block, start: nat, plaintext: seq<Unit>)
    requires c.IsPermutation()
    ensures var d := AuthorDrive(c, key, start, plaintext);
      Holds(c, d, start, key, plaintext) && LibreDrive.AllFull(d)
  {
    hide AuthoredSector, EncryptUnit, DecryptUnit, Enciphers;
    var d := AuthorDrive(c, key, start, plaintext);
    forall i: nat | i < |plaintext|
      ensures Enciphers(c, key, Extent(d, start + 3 * i, 3), plaintext[i])
    {
      AuthoredSectorOfUnit(c, key, start, plaintext, i, 0);
      AuthoredSectorOfUnit(c, key, start, plaintext, i, 1);
      AuthoredSectorOfUnit(c, key, start, plaintext, i, 2);
      ThreeSectors(d, start + 3 * i, EncryptUnit(c, key, plaintext[i]));
      DecryptsExactly(c, key, Extent(d, start + 3 * i, 3), plaintext[i]);
    }
  }

  /** So such a disc is recovered outright. */
  lemma AuthoredDiscIsRecovered(c: Cipher, pk: Block, km: Block, uv: seq<byte>, filler: seq<byte>, volumeId: Block,
                                header: seq<byte>, unitKeys: seq<Block>, plaintext: seq<Unit>, index: usize,
                                d: Drive, start: LibreDrive.u64)
    requires c.IsPermutation() && |uv| == 4 && |filler| == 8 && |header| == FIRST_UNIT_KEY_OFFSET
    requires index < |unitKeys| && FIRST_UNIT_KEY_OFFSET + 16 * |unitKeys| < USIZE_LIMIT
    requires LibreDrive.AllFull(d) && |plaintext| < LibreDrive.U64_LIMIT && LibreDrive.Addressable(start, |plaintext|)
    requires Holds(c, d, start, unitKeys[index], plaintext)
    ensures var x := Author(c, pk, km, uv, filler, volumeId, header, unitKeys, plaintext);
      var r := DecryptDisc(c, MkbBytes(x), [pk], volumeId, UnitKeyFile(x), index,
                           DriveReader(d), ClipId(None, Some((start, |plaintext|))));
      r.Ok? && r.value.0 == Join(plaintext) && r.value.1.Finished?
  {
    AuthoredDiscIsMastered(c, pk, km, uv, filler, volumeId, header, unitKeys, plaintext, index);
    var x := Author(c, pk, km, uv, filler, volumeId, header, unitKeys, plaintext);
    DiscIsRecovered(c, x, index, [pk], 0, 0, d, start);
  }

  /** No hypothesis on a drive or on tables is left: the round trip for all keys and content. */
  lemma AuthoringRoundTrip(c: Cipher, pk: Block, km: Block, uv: seq<byte>, filler: seq<byte>, volumeId: Block,
                           header: seq<byte>, unitKeys: seq<Block>, plaintext: seq<Unit>, index: usize,
                           start: LibreDrive.u64)
    requires c.IsPermutation() && |uv| == 4 && |filler| == 8 && |header| == FIRST_UNIT_KEY_OFFSET
    requires index < |unitKeys| && FIRST_UNIT_KEY_OFFSET + 16 * |unitKeys| < USIZE_LIMIT
    requires |plaintext| < LibreDrive.U64_LIMIT && LibreDrive.Addressable(start, |plaintext|)
    ensures var x := Author(c, pk, km, uv, filler, volumeId, header, unitKeys, plaintext);
      var r := DecryptDisc(c, MkbBytes(x), [pk], volumeId, UnitKeyFile(x), index,
                           DriveReader(AuthorDrive(c, unitKeys[index], start, plaintext)),
                           ClipId(None, Some((start, |plaintext|))));
      r.Ok? && r.value.0 == Join(plaintext) && r.value.1.Finished?
  {
    hide Author, DecryptDisc, AuthorDrive, Holds, LibreDrive.AllFull;
    AuthoredDriveHolds(c, unitKeys[index], start, plaintext);
    AuthoredDiscIsRecovered(c, pk, km, uv, filler, volumeId, header, unitKeys, plaintext, index,
                            AuthorDrive(c, unitKeys[index], start, plaintext), start);
  }

  /** The entry of `id` in a parsed database opens the disc: both its keys for the clip's index
      resolve to one unit key, under which the clip is the plaintext. */
  ghost predicate EntryOpens(c: Cipher, parsed: Result<KeyDb.Db, KeyDb.KeyError>, id: KeyDb.DiscId, x: Disc,
                             index: usize, d: Drive, start: LibreDrive.u64)
    requires |x.plaintext| < LibreDrive.U64_LIMIT
  {
    && parsed.Ok? && id in parsed.value.discs
    && var keys := parsed.value.discs[id];
    && index < |keys.unitKeys|
    && var viaU := ResolveUnitKey(c, Some(keys.unitKeys[index]), None, [], index);
       var viaV := ResolveUnitKey(c, None, keys.volumeUniqueKey, UnitKeyFile(x), index);
    && viaU == viaV && viaU.Ok?
    && ClipResult(c, viaU.value, DriveReader(d), ClipId(None, Some((start, |x.plaintext|))), None).0
       == Join(x.plaintext)
  }

  /** The other key source: print an entry with this disc's volume unique key and unit keys
      among any other printable records, parse the text, look the disc up. Either of the two
      keys found resolves to the same unit key, and the clip comes out the same. */
  lemma KeydbEntryOpensTheDisc(c: Cipher, recs: seq<KeyDbFormat.Rec>, i: nat, x: Disc, index: usize,
                               d: Drive, start: LibreDrive.u64)
    requires c.IsPermutation() && Mastered(c, x, index)
    requires forall r <- recs :: KeyDbFormat.Printable(r)
    requires i < |recs| && recs[i].DiscRec?
    requires forall j :: i < j < |recs| && recs[j].DiscRec? ==> recs[j].id != recs[i].id
    requires recs[i].keys.unitKeys == x.unitKeys
    requires recs[i].keys.volumeUniqueKey == Some(x.vuk)
    requires LibreDrive.AllFull(d)
    requires |x.plaintext| < LibreDrive.U64_LIMIT && LibreDrive.Addressable(start, |x.plaintext|)
    requires Holds(c, d, start, x.unitKeys[index], x.plaintext)
    ensures EntryOpens(c, KeyDb.ParseText(KeyDbFormat.FormatAll(recs)), recs[i].id, x, index, d, start)
  {
    hide ClipResult, Holds, LibreDrive.AllFull, LibreDrive.Addressable, KeyDbFormat.Printable, KeyDb.ParseText;
    KeyDbFormat.ParseInvertsFormat(recs);
    KeyDbFormat.EveryDiscIsFound(KeyDb.EMPTY, recs, i);
    KeySourcesAgree(c, x.vuk, x.unitKeys, x.header, x.encs, x.tail, index);
    MasteredClip(c, d, start, x.unitKeys[index], x.plaintext);
  }
}
