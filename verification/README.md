# freeblue, modelled and proved

freeblue reads the 6144-byte Aligned Units of a clip, from a file or straight from a drive,
decrypts each under a CPS unit key and writes the plaintext. The keys come from a key database
text or from a Media Key Block. This project models that pipeline and proves what holds of it
for all inputs and over all runs:

* `Cbc`, `Content` - the content cipher and the bus layer, as the loops the source has and as
  recursive specifications; inverses, block formulas, error propagation, layer stacking.
* `Mkb` - the record parser and the media-key search.
* `UnitKeys` - volume unique key, unit-key slots, key resolution.
* `Scsi`, `LibreDrive` - READ(10), the residual, and the batched drive iterator over whole runs.
* `FileReader` - the file iterator over arbitrary short, interrupted and failing reads.
* `Text`, `KeyDb`, `KeyDbFacts`, `KeyDbFormat`, `KeyDbImage` - the `KEYDB.cfg` parser, what its
  result contains, when it fails, how texts concatenate, a printer it inverts, and exactly which
  databases it can produce.
* `Pipeline`, `EndToEnd`, `Authoring` - opening, decrypting and writing a clip; both backends
  write the same file; a disc made by the inverse equations is recovered byte for byte.

How the model stands to the source:

* AES-128 is any pair of keyed maps on 16-byte blocks (`Crypto.Cipher`). Results that need them
  to be mutually inverse require `IsPermutation`; `Crypto.PermutationsExist` gives an instance.
* What the source keeps in mutable fields, vectors or buffers is a class with fields or an array
  here, and each such method is proved equal to a specification function; the theorems are about
  those functions. `Next` of `LibreDrive` and of `FileReader` is one call of the iterator's `next`.
* The drive is a sector map and an answer for each command in turn; the file is its bytes and a
  behaviour for each `read` in turn. All statements quantify over both. A file's interruptions
  are required to stop at some point, since the source retries them without limit.
* The key derivations, byte positions, constants and spellings everything rests on are also stated
  on their own, without the functions that compute them: by the equation a key satisfies, by the
  bytes of a field, by the digits of a value.
* Integer widths are explicit where they matter: `u64` to `u32` narrowing, the wrapping `u32`
  cursor and the wrapping `usize` slot offset behave as in a release build (a debug build panics
  where they wrap).
* Characters are Unicode scalar values and white space is the Unicode property, as in `str::trim`.

Where the code and its documentation disagree, the code is followed:

* crates/freeblue-keys/src/lib.rs:112-114 says malformed hex in a recognised field is an error.
  Only the disc id can fail; every other undecodable value is skipped or, for the host fields,
  stored as absent (`KeyDbFacts.ErrorsExact`, `KeyDbFacts.ContentsExact`).
* crates/freeblue-mkb/src/lib.rs:65 says the version is the last four bytes of the body; the code
  reads bytes 4 to 8. The two agree exactly when those bytes repeat at the end
  (`Mkb.VersionCommentExact`), for all bodies of a length only if it is 8
  (`Mkb.VersionCommentLength`); a body of twelve bytes shows it (`Mkb.VersionCommentExample`).
* specs/05-content-decryption-pipeline.md:84 derives the block key with AES-G; the code and
  section 5.3 of that file use the encryption direction.
* crates/freeblue-core/src/lib.rs:61-62 promises an error when the unit-key file is too short. In
  64-bit wrapping arithmetic an index near 2^60 reads the file's header instead
  (`UnitKeys.WrappedSlotExample`; `UnitKeys.SlotContractExact` says exactly when).

Some promises fail on some inputs. Each has its exact condition, and a witness:

| promise | exact condition | witness |
|---|---|---|
| drive reads leave no gap | `LibreDrive.LostExact`, `LibreDrive.DeliveredAddress` | `LibreDrive.PartialBatchSkips` |
| every extent can be addressed | `LibreDrive.AddressableExact` | `LibreDrive.NarrowingExamples`, `EndToEnd.UncountedUnitsLookLikeSuccess` |
| a file read resumes on a unit boundary | `FileReader.HardErrorAlignment` | `FileReader.MisalignedExample` |
| a finished drive run has all its units | `EndToEnd.FinishedShortExact` | `EndToEnd.EmptyReadLooksLikeSuccess` |
| the version is the last four bytes of its record | `Mkb.VersionCommentExact` | `Mkb.VersionCommentExample` |
| a short unit-key file is refused | `UnitKeys.SlotContractExact` | `UnitKeys.WrappedSlotExample` |
| a good host key survives a later bad one | `KeyDbFacts.PreferPresentExact` | `KeyDbFormat.ErasingText` |

## Model

| member | source | states |
|---|---|---|
| Crypto.Xor16 | crates/freeblue-crypto/src/lib.rs:42-48 | the loop yields the bytewise exclusive or of two blocks |
| Crypto.XorCancel | crates/freeblue-crypto/src/lib.rs:42-48 | xoring twice with the same block, on either side, restores a block |
| Crypto.DecryptInjective | crates/freeblue-crypto/src/lib.rs:22-39 | under one key, equal ciphertexts mean equal plaintexts and conversely |
| Crypto.PermutationsExist | crates/freeblue-crypto/src/lib.rs:22-39 | the hypothesis on the cipher can be met |
| Cbc.DecryptEncrypt | crates/freeblue-content/src/lib.rs:60-72 | CBC decryption undoes CBC encryption for every key, IV and length |
| Cbc.EncryptDecrypt | crates/freeblue-content/src/lib.rs:60-72 | CBC encryption undoes CBC decryption |
| Cbc.DecryptedBlock | crates/freeblue-content/src/lib.rs:63-72 | plaintext block j is D(C_j) xor C_(j-1), with the IV before the first: section 6.2 of NIST SP 800-38A |
| Cbc.ErrorLocality | crates/freeblue-content/src/lib.rs:60-72 | changing ciphertext block j changes block j, shifts block j+1 by exactly the difference, and reaches no other: Appendix D of NIST SP 800-38A |
| Content.ComputeBlockKey | crates/freeblue-content/src/lib.rs:28-35 | every byte of the block key is that of E(unit key, seed) xored with the seed's |
| Content.BlockKeyExact | crates/freeblue-content/src/lib.rs:26-35 | the block key is the one block that, the seed xored on, decrypts under the unit key to the seed: the encryption direction, not AES-G |
| Content.DecryptAlignedUnit | crates/freeblue-content/src/lib.rs:49-74 | the loop equals seed plus CBC decryption under the seed's block key; any other length is refused with that length |
| Content.UnitBijection | crates/freeblue-content/src/lib.rs:49-74 | for each unit key decryption is a bijection on units with a two-sided inverse, and the seed passes through |
| Content.UnitBlocks | crates/freeblue-content/src/lib.rs:49-74 | each of the 384 blocks of the result as a formula in at most two input blocks, the seed, the IV's bytes and the key that the seed selects, which is given by its equation |
| Content.DecryptsExactly | crates/freeblue-content/src/lib.rs:49-74 | a unit decrypts to a plaintext if and only if it is an encrypted form of it by those block formulas |
| Content.UnitErrorLocality | crates/freeblue-content/src/lib.rs:60-72 | damage to one body block stays in that block and the next |
| Content.SectorBijection | crates/freeblue-content/src/lib.rs:96-110 | on one sector the two directions undo each other |
| Content.SectorBlocks | crates/freeblue-content/src/lib.rs:96-110 | each of the 128 blocks of a sector by formula, with the IV's bytes written out |
| Content.BusDecryptSectorInPlace | crates/freeblue-content/src/lib.rs:96-110 | the loop that overwrites the ciphertext it chains on equals the out-of-place sector decryption and leaves the rest of the buffer alone |
| Content.BusDecryptUnit | crates/freeblue-content/src/lib.rs:90-113 | the nested loops equal sector-wise decryption; any other length is refused with that length |
| Content.BusEncryptUnit | crates/freeblue-content/src/lib.rs:177-196 | the test encryptor's loops equal sector-wise encryption |
| Content.BusSectorsIndependent | crates/freeblue-content/src/lib.rs:95-111 | each output sector depends on the same input sector alone, and its first 16 bytes pass through |
| Content.BusBijection | crates/freeblue-content/src/lib.rs:90-113 | bus decryption and `bus_encrypt_unit` are two-sided inverses for every key and unit |
| Content.LayerStacking | crates/freeblue-content/src/lib.rs:79-83 | stripping the bus layer, then the content layer, recovers what was put under both, since the seed survives the bus layer |
| Content.BusErrorLocality | crates/freeblue-content/src/lib.rs:96-110 | bus-layer damage never leaves its sector, and within it follows the CBC pattern |
| Content.TsSyncScore | crates/freeblue-content/src/lib.rs:118-128 | the loop counts the sync bytes at 4, 196, 388, ... |
| Content.SyncCountIsCardinality | crates/freeblue-content/src/lib.rs:115-117 | the score is the number of packet boundaries holding the sync byte |
| Content.PerfectScore | crates/freeblue-content/src/lib.rs:115-117 | the score is at most the number of boundaries (32 in a unit) and equals it exactly when all carry the sync byte |
| Mkb.Parse | crates/freeblue-mkb/src/lib.rs:42-59 | the offset loop returns the records of the recursive walk, or the error |
| Mkb.ParseEncoded | crates/freeblue-mkb/src/lib.rs:42-59 | parsing serialised records, any terminator and any padding gives those records and one empty end record |
| Mkb.WalkExists | crates/freeblue-mkb/src/lib.rs:45-57 | every input is serialised records followed by a remainder at which the walk stops |
| Mkb.ParseExact | crates/freeblue-mkb/src/lib.rs:42-59 | the result is r exactly when the data is serialised records plus a remainder at which the walk stops with outcome r: success and truncation both ways |
| Mkb.RecordLenBytes | crates/freeblue-mkb/src/lib.rs:47 | the length field is three bytes, most significant first |
| Mkb.ParseByLength | crates/freeblue-mkb/src/lib.rs:45-57 | one record of the walk in terms of its type byte and length |
| Mkb.BodyIsFirst | crates/freeblue-mkb/src/lib.rs:61-63 | lookup returns the first record of the type |
| Mkb.BodyMissing | crates/freeblue-mkb/src/lib.rs:61-63 | lookup fails exactly when no record has the type |
| Mkb.VersionReadsBack | crates/freeblue-mkb/src/lib.rs:66-72 | a version written big-endian after four bytes of the first version record is read back |
| Mkb.VersionBytes | crates/freeblue-mkb/src/lib.rs:66-72 | the version as a number made of bytes 4 to 7, and none for a body of fewer than eight bytes |
| Mkb.VersionCommentExact | crates/freeblue-mkb/src/lib.rs:65-72 | the version is the last four bytes of the body, as the comment says, if and only if the body has eight bytes and bytes 4 to 8 repeat at its end |
| Mkb.VersionCommentLength | crates/freeblue-mkb/src/lib.rs:65-72 | the comment holds of all bodies of one length if and only if the length is 8 |
| Mkb.VersionCommentExample | crates/freeblue-mkb/src/lib.rs:65-72 | a body of twelve bytes for which the comment fails |
| Mkb.ShortV1HidesV2 | crates/freeblue-mkb/src/lib.rs:75-85 | a too short v1 verify record makes derivation fail even when a v2 record is usable |
| Mkb.CountUvs | crates/freeblue-mkb/src/lib.rs:112-120 | the loop counts the leading subset-difference entries |
| Mkb.NumUvsExact | crates/freeblue-mkb/src/lib.rs:111-120 | the count is the least index that is not a whole entry with clear top bits |
| Mkb.ComputeCandidate | crates/freeblue-mkb/src/lib.rs:129-134 | the in-place xor of four bytes gives the candidate D(pk, cvalue) xor (zeros, uv) |
| Mkb.TrySubsets | crates/freeblue-mkb/src/lib.rs:123-138 | the inner loop, with its early exits, is the ordered search over the usable subsets |
| Mkb.DeriveMediaKey | crates/freeblue-mkb/src/lib.rs:100-141 | the nested loops are the search over keys and subsets, with the missing-record errors |
| Mkb.SearchExact | crates/freeblue-mkb/src/lib.rs:122-140 | the key returned is the candidate at the lexicographically first verifying pair; failure if and only if no pair verifies |
| Mkb.DerivationExact | crates/freeblue-mkb/src/lib.rs:75-141 | the same from the record bodies, byte by byte: which entries are tried, how a candidate is made, and that D(candidate, Dv) begins 01 23 45 67 89 AB CD EF |
| Mkb.VerifyExact | crates/freeblue-mkb/src/lib.rs:75-93 | a media key verifies if and only if the first v1 record, or without one the first v2 record, holds a block that decrypts to those eight bytes |
| Mkb.OrderNeverDecidesSuccess | crates/freeblue-mkb/src/lib.rs:122-140 | success depends only on the set of processing keys, and a returned key passes `verify_media_key` |
| Mkb.UvBoundNeverFiresAlone | crates/freeblue-mkb/src/lib.rs:126-128 | within the counted entries only the cvalue bound can stop the inner loop, exactly at min(num_uvs, cvalues/16) |
| Mkb.MissingRecordsExact | crates/freeblue-mkb/src/lib.rs:75-109 | which missing record is reported, if and only if, in order, by the records present; the verify error also covers first records that are too short |
| Mkb.CarriedKeyIsFound | crates/freeblue-mkb/src/lib.rs:95-141 | a block built for a media key always yields a verifying key, and that very key when no earlier pair passes the 64-bit check |
| UnitKeys.SlotContractExact | crates/freeblue-disc/src/lib.rs:124-134 | slot i is the 16 bytes at 112+16i and exists exactly when the file reaches 112+16(i+1), if and only if the offset does not overflow or the wrapped slot is outside too |
| UnitKeys.VolumeUniqueKeyExact | crates/freeblue-core/src/lib.rs:27-29 | the volume unique key is the one block that, the volume id xored on, encrypts under the media key to the volume id |
| UnitKeys.WrappedSlotExample | crates/freeblue-disc/src/lib.rs:125-130 | an index for which the contract fails |
| UnitKeys.SlotsOfFile | crates/freeblue-disc/src/lib.rs:110-134 | in a header followed by whole slots, slot i is the i-th key whatever the others hold, and none lies beyond |
| UnitKeys.KeySourcesAgree | crates/freeblue-core/src/lib.rs:52-75 | keydb unit keys that unwrap from the file resolve to the same key from either source; for no index at all does it matter whether the keydb is asked first, and past the last slot the file is refused |
| UnitKeys.ResolveOrder | crates/freeblue-core/src/lib.rs:52-75 | the keydb's key decides whenever there is one; otherwise the slot's 16 bytes decrypted under the volume unique key |
| UnitKeys.ResolveErrors | crates/freeblue-core/src/lib.rs:61-75 | the two errors of resolution, each if and only if |
| UnitKeys.DecryptUnitsInverts | crates/freeblue-core/src/lib.rs:87-97 | decrypting a list of encrypted units gives back the list, item by item |
| Scsi.CdbDecodes | crates/freeblue-read/src/scsi.rs:135-147 | the 10-byte command decodes to the LBA and sector count it was made from, for all of both |
| Scsi.CdbLayout | crates/freeblue-read/src/scsi.rs:135-147 | the ten bytes of the command, each by its place and value |
| Scsi.TransferExact | crates/freeblue-read/src/scsi.rs:95-108 | a failed command is its error; a residual of r leaves exactly the first len - r bytes, a negative one all, a larger one none |
| Scsi.ScsiDev.FromDev | crates/freeblue-read/src/scsi.rs:69-108 | a failed command is an error; otherwise the transferred bytes less the residual, saturating, negative residuals ignored |
| Scsi.ScsiDev.Read10 | crates/freeblue-read/src/scsi.rs:135-149 | the result is the drive's answer for exactly the sectors asked for, and one command is logged |
| LibreDrive.RawUnitIter.constructor | crates/freeblue-read/src/libredrive.rs:58-66 | the initial state, with the start narrowed to 32 bits |
| LibreDrive.RawUnitIter.RefillBatch | crates/freeblue-read/src/libredrive.rs:68-81 | the whole new state of a refill in each of its four outcomes |
| LibreDrive.RawUnitIter.NextUnit | crates/freeblue-read/src/libredrive.rs:86-102 | the whole new state and the item of one call |
| LibreDrive.InvNext | crates/freeblue-read/src/libredrive.rs:68-102 | one call keeps the invariant tying cursor, batch, position and count together; a call that delivers nothing moves neither count nor cursor |
| LibreDrive.AlignedNext | crates/freeblue-read/src/libredrive.rs:68-102 | a call that does not replace a batch still owing units keeps requests at multiples of 16 units with nothing lost, and delivers from the batch in hand |
| LibreDrive.SourcesExact | crates/freeblue-read/src/libredrive.rs:68-102 | over every run and every drive a delivered unit is three consecutive sectors at an explicit address, wrapping included |
| LibreDrive.LostExact | crates/freeblue-read/src/libredrive.rs:74-79 | nothing has been lost if and only if no partial batch was followed by a further successful read; until then the batch in hand is short exactly when there was a partial one |
| LibreDrive.DeliveredAddress | crates/freeblue-read/src/libredrive.rs:68-102 | unit y of any run, handed out by call k with `start + 48 * k` below 2^32 so that nothing can wrap, comes from an address no lower than `start + 3 * y`, and from exactly there if and only if no partial batch so far was followed by a further successful read |
| LibreDrive.PartialBatchSkips | crates/freeblue-read/src/libredrive.rs:76-79 | a run in which a partial batch makes the reader skip a unit and leave the extent |
| LibreDrive.RunSafety | crates/freeblue-read/src/libredrive.rs:68-102 | over every run in which no partial batch is followed by a further successful read, through any faults and empty reads, the units delivered are the first ones of the extent in order, none lost or repeated |
| LibreDrive.AddressableExact | crates/freeblue-read/src/libredrive.rs:61-79 | the extent and its last batch start below 2^32 if and only if every medium, read without faults, yields unit k at call k from `start + 3 * k`, and then None |
| LibreDrive.NarrowingExamples | crates/freeblue-read/src/libredrive.rs:61-72 | of 2^32 units none is delivered, and a start of 2^32 reads sector 0 |
| LibreDrive.FullEnd | crates/freeblue-read/src/libredrive.rs:68-92 | with full reads, once the units the 32-bit count can reach are out every further call returns None, units left or not |
| LibreDrive.EndIsFinal | crates/freeblue-read/src/libredrive.rs:87-89 | over any drive, once no units are left no call changes anything and every call returns None |
| LibreDrive.FullReads | crates/freeblue-read/src/libredrive.rs:68-102 | with full reads, call k delivers unit k and then None for ever; up to there ceil(k/16) fully determined commands have been sent |
| LibreDrive.FullRunCommands | crates/freeblue-read/src/libredrive.rs:68-102 | a full run over n < 2^32 units sends exactly ceil(n/16) commands, however often `next` is called after its end |
| LibreDrive.RequestsTile | crates/freeblue-read/src/libredrive.rs:72-79 | those commands tile the extent: each sector in exactly one, none outside, each encodable and decodable |
| FileReader.File.Read | crates/freeblue-read/src/lib.rs:109-113 | one `read` call into the rest of the buffer |
| FileReader.FileUnitIter.NextUnit | crates/freeblue-read/src/lib.rs:105-121 | the filling loop equals its specification and ends under every schedule |
| FileReader.FillConsumes | crates/freeblue-read/src/lib.rs:108-115 | the filling loop takes consecutive bytes and stops early only at the end of the file or on an error |
| FileReader.NextConsumes | crates/freeblue-read/src/lib.rs:105-121 | for every schedule a unit is the next 6144 bytes, None means less than a unit was left, an error consumed less than a unit |
| FileReader.HardErrorAlignment | crates/freeblue-read/src/lib.rs:108-115 | read off the schedule: a failed call leaves the reader on a unit boundary if and only if its reads were interruptions and then a hard error, before any byte |
| FileReader.MisalignedExample | crates/freeblue-read/src/lib.rs:108-115 | a schedule after which a unit starts at byte 1 |
| FileReader.Assembly | crates/freeblue-read/src/lib.rs:105-121 | up to the first hard error, call k hands out whole unit k of the file and then None for ever |
| FileReader.NoHardNoError | crates/freeblue-read/src/lib.rs:109-114 | short and interrupted reads alone never surface as errors |
| FileReader.UnitsArePrefix | crates/freeblue-read/src/lib.rs:116-120 | the units put together are the longest whole-unit prefix of the file |
| Text.TrimExact | crates/freeblue-keys/src/lib.rs:118 | trimming removes exactly the white space at both ends |
| Text.SpaceExact | crates/freeblue-keys/src/lib.rs:118 | white space is the 25 code points that have the Unicode property |
| Text.SplitExact | crates/freeblue-keys/src/lib.rs:144 | segments hold no separator and join back to the text |
| Text.WordsExact | crates/freeblue-keys/src/lib.rs:156 | the words are the maximal runs without white space, in order |
| Text.WordsUnique | crates/freeblue-keys/src/lib.rs:156 | and no other sequence of words is |
| Text.HexDecodeExact | crates/freeblue-keys/src/lib.rs:96-98 | decoding succeeds exactly on an even number of hex digits, and byte by byte |
| Text.HexSpelling | crates/freeblue-keys/src/lib.rs:96-98 | a text decodes to a byte string if and only if it spells it, two digits to a byte, each in either case |
| Text.HexVecExact | crates/freeblue-keys/src/lib.rs:88-111 | the same through white space and an optional prefix `0x` or `0X`; a block is a value of 16 bytes |
| Text.HexInverse | crates/freeblue-keys/src/lib.rs:96-98 | decoding undoes encoding for every byte string and every choice of case digit by digit |
| Text.LinesAppend | crates/freeblue-keys/src/lib.rs:117 | the lines of two texts around a newline |
| Text.LineEndings | crates/freeblue-keys/src/lib.rs:117 | a line ends at a newline, with or without a carriage return, or at the end of the text |
| Text.AfterLastExact | crates/freeblue-keys/src/lib.rs:158 | what follows the last separator, all of the text if there is none |
| KeyDb.KeyStore.ParseDiscEntry | crates/freeblue-keys/src/lib.rs:132-171 | the error and no change, or exactly one entry replaced |
| KeyDb.KeyStore.ReadFields | crates/freeblue-keys/src/lib.rs:145-168 | the tag and value loop |
| KeyDb.KeyStore.CollectUnitKeys | crates/freeblue-keys/src/lib.rs:155-163 | the unit-key loop appends the decodable keys in order |
| KeyDb.KeyStore.ParseGlobalRecord | crates/freeblue-keys/src/lib.rs:173-228 | the whole new database after a PK, DK, HC or unknown record |
| KeyDb.KeyStore.ReadDeviceKey | crates/freeblue-keys/src/lib.rs:191-211 | each DK field is the last one of its name, decodable or not |
| KeyDb.KeyStore.ReadHost | crates/freeblue-keys/src/lib.rs:214-223 | each host field is its last assignment, decodable or not |
| KeyDb.KeyStore.Parse | crates/freeblue-keys/src/lib.rs:115-130 | a new database equal to the fold over the lines, or its error |
| KeyDb.KeyStore.Load | crates/freeblue-keys/src/lib.rs:115-130 | the line loop equals the fold over lines, error included |
| KeyDbFacts.ErrorsExact | crates/freeblue-keys/src/lib.rs:115-141 | parsing fails if and only if some line is a disc line with no '=', an undecodable id or an id not of 20 bytes; the error names the first such line |
| KeyDbFacts.FieldsExact | crates/freeblue-keys/src/lib.rs:145-168 | M, I and V are the last decodable value of their tag, unit keys accumulate in order |
| KeyDbFacts.UnitKeysExact | crates/freeblue-keys/src/lib.rs:155-163 | a U field word by word: a decodable word adds its key, any other is skipped and the rest still read |
| KeyDbFacts.WordExact | crates/freeblue-keys/src/lib.rs:193-195 | name and value of a segment are its first two words, whatever follows them |
| KeyDbFacts.LastValueExact | crates/freeblue-keys/src/lib.rs:191-203 | a field's value is that of the last segment of its name, and absent if and only if no segment has the name |
| KeyDbFacts.DeviceKeyExact | crates/freeblue-keys/src/lib.rs:190-212 | no device key without a decodable DEVICE_KEY; any other absent or undecodable field is stored as empty |
| KeyDbFacts.ProcessingKeyExact | crates/freeblue-keys/src/lib.rs:177-189 | key and note around the first semicolon of the third segment, or no record |
| KeyDbFacts.ContentsExact | crates/freeblue-keys/src/lib.rs:115-233 | each disc's entry is its last line's, as a whole; PK and DK records in order; host fields by their last assignment |
| KeyDbFacts.ConcatParses | crates/freeblue-keys/src/lib.rs:115-130 | the database of two texts joined by a newline, in terms of the two databases |
| KeyDbFacts.ConcatErrors | crates/freeblue-keys/src/lib.rs:115-130 | the error of two joined texts is that of the first, else that of the second moved down by the lines before it |
| KeyDbFacts.PreferPresentExact | crates/freeblue-keys/src/lib.rs:213-224 | merging host fields by preferring a present value is right if and only if no undecodable later assignment erases a good earlier one |
| KeyDbFormat.ErasingText | crates/freeblue-keys/src/lib.rs:213-224 | texts that erase, for every undecodable token |
| KeyDbFormat.ParseInvertsFormat | crates/freeblue-keys/src/lib.rs:115-228 | parsing the printed form of any printable records, in any case and prefix of their hex values, gives exactly the database they describe |
| KeyDbFormat.EveryDiscIsFound | crates/freeblue-keys/src/lib.rs:231-233 | with distinct ids each disc's own keys are found under its id |
| KeyDbFormat.LookupExact | crates/freeblue-keys/src/lib.rs:231-233 | looking up an id in a parsed database gives the keys of the last entry printed for it, and nothing for an id no entry has |
| KeyDbImage.ImageExact | crates/freeblue-keys/src/lib.rs:115-228 | a database is the parse of some text if and only if its notes have no bar, no line break and no outer blanks |
| KeyDbImage.ReprintReparse | crates/freeblue-keys/src/lib.rs:115-228 | whatever text was parsed, some printable records describe the result, and parsing their printed form gives it again |
| KeyDbFormat.DiscLineReadsBack | crates/freeblue-keys/src/lib.rs:132-171 | a printed entry reads back: titles with '=', notes, key order |
| KeyDbFormat.PkLineReadsBack | crates/freeblue-keys/src/lib.rs:177-189 | a printed processing key reads back with its note |
| KeyDbFormat.DkLineReadsBack | crates/freeblue-keys/src/lib.rs:190-212 | a printed device key reads back, with empty fields left out or not, and with a trailing note |
| KeyDbFormat.HcLineReadsBack | crates/freeblue-keys/src/lib.rs:213-224 | printed host fields read back, absent ones leave what was there |
| Pipeline.ReadUnits | crates/freeblue-read/src/lib.rs:92-163 | which reader opens what, and which error comes first |
| Pipeline.OpenExact | crates/freeblue-read/src/lib.rs:92-163 | each opening error if and only if, on the reader's and the clip's own fields, and in which order |
| Pipeline.LockedDriveWritesNothing | crates/freeblue-read/src/lib.rs:144-155 | without an extent, an open device and a successful unlock the output stays empty, and the outcome names the first that failed |
| Pipeline.Backend.Pull | crates/freeblue-read/src/lib.rs:66-69 | one call through the reader interface is one call of the backend's iterator |
| Pipeline.ClipItemExact | crates/freeblue-core/src/lib.rs:125-129 | each item is the decryption of the reader's item or its read error; a length error never arises |
| Pipeline.WriteClip | crates/freeblue-cli/src/main.rs:120-145 | the output file and outcome of the whole call, a failed creation included |
| Pipeline.WriteAllUnits | crates/freeblue-cli/src/main.rs:129-138 | the write loop over whatever the backend yields |
| Pipeline.WrittenExactly | crates/freeblue-cli/src/main.rs:126-138 | the bytes written are the decrypted units up to the first error, cut where the disk fills, and the outcome says which |
| Pipeline.WriteClipExact | crates/freeblue-cli/src/main.rs:120-145 | from an opened reader the output is all the plaintext up to the first read error, or as much of it as the disk takes, and the outcome says which |
| Pipeline.OpenFailureLeavesEmptyFile | crates/freeblue-cli/src/main.rs:126-128 | when opening fails the output has already been emptied, and no other outcome says so |
| Pipeline.SyncScoresAgree | crates/freeblue-cli/src/main.rs:147-154 | the command line's score equals the library's |
| EndToEnd.DrainFile | crates/freeblue-read/src/lib.rs:105-121 | a consumer of the file reader gets its whole units in order, all of them unless a read fails |
| EndToEnd.DrainStops | crates/freeblue-cli/src/main.rs:131-138 | over every drive a consumer gets what the first j calls deliver, unit by unit, and call j alone decides whether it sees an error or the end |
| EndToEnd.SameUnits | crates/freeblue-read/src/libredrive.rs:18-21 | a file holding an addressable extent consists of the units the drive reader looks for |
| EndToEnd.DriveWrites | crates/freeblue-cli/src/main.rs:99-145 | the drive path on an addressable extent, through any faults, onto any disk: with j the first call that delivers nothing, output and outcome are exactly those of the first j units and that call, unless a partial batch was followed by a further successful read; full reads reach the end |
| EndToEnd.FileWrites | crates/freeblue-cli/src/main.rs:86-96 | the file path writes the plaintext of every whole unit as far as the disk takes it, for all short-read schedules |
| EndToEnd.FinishedShortExact | crates/freeblue-read/src/libredrive.rs:76-78 | over any drive, a run over n units reported as finished is short of units if and only if one of the first n calls got a transfer of less than a unit |
| EndToEnd.EmptyReadLooksLikeSuccess | crates/freeblue-cli/src/main.rs:131-144 | an empty first read ends the run as finished with nothing written |
| EndToEnd.UncountedUnitsLookLikeSuccess | crates/freeblue-read/src/libredrive.rs:72 | a full read of 2^32 units is reported as finished with nothing written |
| EndToEnd.BackendsAgree | crates/freeblue-cli/src/main.rs:120-145 | file and drive with the same bytes give the same output and outcome on any disk; a failing drive that abandons no partial batch gives a prefix, all of it if the disk filled first |
| EndToEnd.DiscIsRecovered | crates/freeblue-core/src/lib.rs:8-16 | from the bytes of a disc whose volume unique key, wrapped keys and units satisfy the standard's equations the chain writes exactly the original units, unless an earlier candidate passes the 64-bit check |
| EndToEnd.SomeKeyIsFound | crates/freeblue-core/src/lib.rs:8-16 | without that proviso the chain still finds a key that verifies |
| Authoring.AuthoredDiscIsMastered | crates/freeblue-core/src/lib.rs:8-16 | tables and wrapped keys that recovery asks for exist for every cipher and every choice of keys |
| Authoring.AuthoredDriveHolds | crates/freeblue-core/src/lib.rs:8-16 | so does a medium that holds the encrypted units, for all content and every start |
| Authoring.AuthoredDiscIsRecovered | crates/freeblue-core/src/lib.rs:8-16 | with one key and one subset recovery needs no proviso |
| Authoring.AuthoringRoundTrip | crates/freeblue-core/src/lib.rs:8-16 | making disc and medium and running the chain on them gives back the plaintext, for all keys and content, with no hypothesis on either |
| Authoring.KeydbEntryOpensTheDisc | crates/freeblue-core/src/lib.rs:18-19 | a printed and parsed key database entry opens the same disc through its U and through its V field |

## Left out

- AES-128 itself is not part of this model; nothing is claimed about its strength or about chance collisions of the 64-bit check.
- `aes_g3` has no caller, and the walk from device keys down the subset-difference tree has no code.
- The unlock replay, drive certificates, volume-id reads and the `AacsAuthReader` stub talk to hardware; opening a drive is an answer given from outside.
- Pipeline.ReadUnits: takes the result of opening a path, a device and of the unlock sequence as given, because they are I/O.
- Pipeline.WriteClip: does not model the progress message at its end.
- Scsi.ScsiDev.FromDev: takes READ(10) command blocks only, the one kind the drive reader sends; the other commands belong to the unlock. Sense data, timeouts and the ioctl structure are reduced to one error value, because nothing reads them.
- FileReader.FileUnitIter.NextUnit: an endless run of interrupted reads is excluded, because the source then never returns.
- `external_vid.rs`, the filesystem side of `Disc`, the placeholder `read_clip_units` and command-line parsing add only easy members.
- Erasing key material on drop has no observable result here.
- The trait object behind the readers is a datatype of the two iterators that exist.
