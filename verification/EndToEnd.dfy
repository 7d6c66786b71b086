/** Results that span the whole pipeline: both backends write the same file, and a disc made
    by the inverse equations is recovered byte for byte. */
module EndToEnd {
  import opened Wrappers
  import opened Bytes
  import opened Crypto
  import opened Content
  import opened UnitStream
  import opened Scsi
  import opened Pipeline
  import opened UnitKeys
  import Mkb
  import FileReader
  import LibreDrive

  // ---------- what each backend yields ----------

  /** A file, under any schedule: its whole units in order, all of them unless a read fails. */
  lemma {:induction false} DrainFile(f: FileReader.FileEnv, k: nat)
    requires FileReader.NoErrorBefore(f, k) && k <= |f.content| / ALIGNED_UNIT_LEN
    ensures var items := Drain(FileSource(f, FileReader.After(f, k)));
      var rest := FileReader.FileUnits(f.content)[k..];
      && Good(items) <= rest
      && (FirstError(items).None? ==> Good(items) == rest)
    decreases |f.content| / ALIGNED_UNIT_LEN - k
  {
    hide FileReader.Next, FileReader.FileUnits;
    var s := FileReader.After(f, k);
    var item := FileReader.ItemAt(f, k);
    FileReader.PositionAfter(f, k);
    FileReader.IdealStep(f, s, k);
    var rest := FileReader.FileUnits(f.content)[k..];
    if item.Some? && item.value.Ok? {
      assert FileReader.NoErrorBefore(f, k + 1);
      DrainFile(f, k + 1);
      assert rest == [item.value.value] + FileReader.FileUnits(f.content)[k + 1..];
    }
  }

  lemma {:induction false} AfterShift(d: Drive, s: LibreDrive.State, k: nat)
    ensures LibreDrive.After(d, LibreDrive.Next(d, s).0, k) == LibreDrive.After(d, s, k + 1)
  {
    hide LibreDrive.Next;
    if k > 0 { AfterShift(d, s, k - 1); }
  }

  predicate Delivers(item: Item) {
    item.Some? && item.value.Ok?
  }

  /** The error a call reports, if it reports one. */
  function ErrorOf(item: Item): Option<IoError> {
    if item.Some? && item.value.Err? then Some(item.value.error) else None
  }

  lemma OneFewer(d: Drive, s: LibreDrive.State)
    ensures var (s', item) := LibreDrive.Next(d, s);
      s'.unitsLeft + |Units(item)| == s.unitsLeft
  {
  }

  /** The first thing drained, and the rest. */
  lemma DrainHead(d: Drive, s: LibreDrive.State)
    ensures var (s', item) := LibreDrive.Next(d, s);
      var items := Drain(DriveSource(d, s));
      if Delivers(item) then
        && Good(items) == [item.value.value] + Good(Drain(DriveSource(d, s')))
        && FirstError(items) == FirstError(Drain(DriveSource(d, s')))
      else Good(items) == [] && FirstError(items) == ErrorOf(item)
  {
    hide LibreDrive.Next;
    var (s', item) := LibreDrive.Next(d, s);
    if Delivers(item) {
      var items := Drain(DriveSource(d, s));
      assert items[1..] == Drain(DriveSource(d, s'));
    }
  }

  /** A consumer makes the calls that deliver, up to the first that does not, and learns from
      that one call whether it was an error; over every drive. */
  lemma {:induction false} DrainStops(d: Drive, s: LibreDrive.State) returns (j: nat)
    ensures var items := Drain(DriveSource(d, s));
      && |Good(items)| == j && LibreDrive.After(d, s, j).unitsLeft + j == s.unitsLeft
      && (forall i: nat :: i < j ==> LibreDrive.ItemAt(d, s, i) == Some(Ok(Good(items)[i])))
      && !Delivers(LibreDrive.ItemAt(d, s, j)) && FirstError(items) == ErrorOf(LibreDrive.ItemAt(d, s, j))
    decreases s.unitsLeft
  {
    hide LibreDrive.Next, Good, FirstError, Drain;
    var (s', item) := LibreDrive.Next(d, s);
    DrainHead(d, s);
    OneFewer(d, s);
    assert LibreDrive.After(d, s, 0) == s;
    if Delivers(item) {
      j := DrainStops(d, s');
      AfterShift(d, s, j);
      var items := Drain(DriveSource(d, s));
      forall i: nat | i < j + 1
        ensures LibreDrive.ItemAt(d, s, i) == Some(Ok(Good(items)[i]))
      {
        if i > 0 { AfterShift(d, s, i - 1); }
      }
      j := j + 1;
    } else {
      j := 0;
    }
  }

  lemma {:induction false} UnitsAtIndex(d: Drive, start: nat, y: nat, i: nat)
    requires i < y
    ensures LibreDrive.UnitsAt(d, start, y)[i] == Extent(d, LibreDrive.BatchedSource(start, i), 3)
  {
    if i < y - 1 { UnitsAtIndex(d, start, y - 1, i); }
  }

  /** A file holding an addressable extent has the units the drive reader looks for. */
  lemma SameUnits(d: Drive, start: nat, n: nat)
    requires LibreDrive.Addressable(start, n)
    ensures FileReader.FileUnits(Extent(d, start, 3 * n)) == LibreDrive.UnitsAt(d, start, n)
  {
    var all := Extent(d, start, 3 * n);
    LibreDrive.AddressableSources(start, n);
    forall i: nat | i < n
      ensures FileReader.FileUnits(all)[i] == LibreDrive.UnitsAt(d, start, n)[i]
    {
      UnitsAtIndex(d, start, n, i);
      ExtentSlice(d, start, 3 * n, 3 * i, 3);
      assert all[6144 * i..6144 * i + 6144] == all[2048 * (3 * i)..2048 * (3 * i + 3)];
    }
  }

  lemma {:induction false} UnitsAtPrefix(d: Drive, start: nat, j: nat, n: nat)
    requires j <= n
    ensures LibreDrive.UnitsAt(d, start, j) == LibreDrive.UnitsAt(d, start, n)[..j]
  {
    if j < n { UnitsAtPrefix(d, start, j, n - 1); }
  }

  function DriveReader(d: Drive): Reader {
    LibreDriveReader(Ok(d), Ok(true))
  }

  function FileBackedReader(f: FileReader.FileEnv): Reader {
    PlainUdfReader(_ => Ok(f))
  }

  /** The first `j` calls deliver, and no later one is made but the next, which does not. */
  ghost predicate StopsAfter(d: Drive, s: LibreDrive.State, j: nat) {
    && (forall i: nat :: i < j ==> Delivers(LibreDrive.ItemAt(d, s, i)))
    && !Delivers(LibreDrive.ItemAt(d, s, j))
  }

  /** What a drive run hands over is what its calls delivered. */
  lemma {:induction false} DrainedIsDelivered(d: Drive, s: LibreDrive.State, good: seq<Unit>)
    requires forall i: nat :: i < |good| ==> LibreDrive.ItemAt(d, s, i) == Some(Ok(good[i]))
    ensures LibreDrive.Delivered(d, s, |good|) == good
  {
    hide LibreDrive.ItemAt;
    if good != [] {
      var init := good[..|good| - 1];
      DrainedIsDelivered(d, s, init);
      assert good == init + [good[|good| - 1]];
    }
  }

  /** And, on an addressable extent with no batch abandoned, the beginning of its units. */
  lemma DrainedUnits(d: Drive, start: LibreDrive.u64, n: LibreDrive.u64, good: seq<Unit>)
    requires LibreDrive.Addressable(start, n)
    requires var s0 := LibreDrive.Fresh(start, n, []);
      && LibreDrive.NoneAbandoned(d, s0, |good|)
      && (forall i: nat :: i < |good| ==> LibreDrive.ItemAt(d, s0, i) == Some(Ok(good[i])))
      && LibreDrive.After(d, s0, |good|).unitsLeft + |good| == n
    ensures |good| <= n && good == FileReader.FileUnits(Extent(d, start, 3 * n))[..|good|]
  {
    hide LibreDrive.ItemAt, LibreDrive.NoneAbandoned, LibreDrive.After, LibreDrive.UnitsAt;
    DrainedIsDelivered(d, LibreDrive.Fresh(start, n, []), good);
    LibreDrive.RunSafety(d, start, n, [], |good|);
    UnitsAtPrefix(d, start, |good|, n);
    SameUnits(d, start, n);
  }

  /** The drive path on an addressable extent, through any faults and empty reads and onto any
      disk. With `j` the first call that delivers nothing, what is written is the plaintext of
      the first `j` units as far as it fits, and the outcome is that call's error, the end of
      the clip or the full disk; provided no partial batch so far was followed by a further
      successful read. Full reads reach the end. */
  lemma DriveWrites(c: Cipher, key: Block, d: Drive, start: LibreDrive.u64, n: LibreDrive.u64, path: Option<string>,
                    capacity: Option<nat>) returns (j: nat)
    requires LibreDrive.Addressable(start, n)
    ensures var s0, units := LibreDrive.Fresh(start, n, []), FileReader.FileUnits(Extent(d, start, 3 * n));
      && j <= n && StopsAfter(d, s0, j)
      && (LibreDrive.NoneAbandoned(d, s0, j) ==>
            ClipResult(c, key, DriveReader(d), ClipId(path, Some((start, n))), capacity)
            == (Cut(capacity, Plain(c, key, units[..j])),
                OutcomeOf(c, key, units[..j], ErrorOf(LibreDrive.ItemAt(d, s0, j)), capacity)))
      && (LibreDrive.AllFull(d) ==>
            j == n && LibreDrive.NoneAbandoned(d, s0, j) && LibreDrive.ItemAt(d, s0, j) == None)
  {
    hide LibreDrive.ItemAt, LibreDrive.AllFull, LibreDrive.NoneAbandoned, LibreDrive.After, LibreDrive.BatchedSource,
      Cut, OutcomeOf, Drain, Good, FirstError, Plain;
    var clip := ClipId(path, Some((start, n)));
    var s0 := LibreDrive.Fresh(start, n, []);
    var src: Source := DriveSource(d, s0);
    assert Open(DriveReader(d), clip) == Ok(src);
    WriteClipExact(c, key, DriveReader(d), clip, src, capacity);
    j := DrainStops(d, s0);
    if LibreDrive.NoneAbandoned(d, s0, j) { DrainedUnits(d, start, n, Good(Drain(src))); }
    if LibreDrive.AllFull(d) {
      LibreDrive.AddressableSources(start, n);
      LibreDrive.FullOwesNothing(d, start, n, [], j);
      LibreDrive.FullReads(d, start, n, [], j);
      LibreDrive.FullReads(d, start, n, [], n);
    }
  }

  /** The file path, for every schedule of short and interrupted reads without a hard error. */
  lemma FileWrites(c: Cipher, key: Block, f: FileReader.FileEnv, path: string,
                   extent: Option<(LibreDrive.u64, LibreDrive.u64)>, capacity: Option<nat>)
    requires FileReader.NoHard(f)
    ensures var units := FileReader.FileUnits(f.content);
      ClipResult(c, key, FileBackedReader(f), ClipId(Some(path), extent), capacity)
      == (Cut(capacity, Plain(c, key, units)), OutcomeOf(c, key, units, None, capacity))
  {
    var clip := ClipId(Some(path), extent);
    var src: Source := FileSource(f, FileReader.State(0, 0));
    assert Open(FileBackedReader(f), clip) == Ok(src);
    FileReader.NoHardNoError(f, 0);
    DrainFile(f, 0);
    NoErrorDrained(f, 0);
    assert FileReader.After(f, 0) == FileReader.State(0, 0);
    var units := FileReader.FileUnits(f.content);
    assert units[0..] == units;
    WriteClipExact(c, key, FileBackedReader(f), clip, src, capacity);
  }

  lemma {:induction false} NoErrorDrained(f: FileReader.FileEnv, k: nat)
    requires FileReader.NoHard(f)
    ensures FirstError(Drain(FileSource(f, FileReader.After(f, k)))).None?
    decreases |f.content| - FileReader.After(f, k).pos
  {
    hide FileReader.Next, FileReader.NoHard;
    FileReader.NoHardNoError(f, k + 1);
    FileReader.NextConsumes(f, FileReader.After(f, k));
    var item := FileReader.ItemAt(f, k);
    assert !(item.Some? && item.value.Err?);
    if item.Some? {
      NoErrorDrained(f, k + 1);
    }
  }

  /** Backend equivalence: a file with the bytes of an addressable extent and a drive that
      reads it fully lead to the same output and outcome, whatever the file's read schedule and
      the room on the disk. A drive that fails on the way, without having abandoned a batch,
      writes a prefix of that output, the whole of it if the disk filled first. */
  lemma BackendsAgree(c: Cipher, key: Block, f: FileReader.FileEnv, d: Drive, start: LibreDrive.u64, n: LibreDrive.u64,
                      path: string, capacity: Option<nat>) returns (j: nat)
    requires LibreDrive.Addressable(start, n)
    requires FileReader.NoHard(f) && f.content == Extent(d, start, 3 * n)
    ensures var clip, s0 := ClipId(Some(path), Some((start, n))), LibreDrive.Fresh(start, n, []);
      var viaFile := ClipResult(c, key, FileBackedReader(f), clip, capacity);
      var viaDrive := ClipResult(c, key, DriveReader(d), clip, capacity);
      && StopsAfter(d, s0, j)
      && (LibreDrive.AllFull(d) ==> viaDrive == viaFile)
      && (LibreDrive.NoneAbandoned(d, s0, j) ==>
            viaDrive.0 <= viaFile.0 && (viaDrive.1.WriteFailed? ==> viaDrive == viaFile))
  {
    hide ClipResult, Plain, LibreDrive.NoneAbandoned, StopsAfter, LibreDrive.AllFull;
    FileWrites(c, key, f, path, Some((start, n)), capacity);
    j := DriveWrites(c, key, d, start, n, Some(path), capacity);
    var units := FileReader.FileUnits(f.content);
    PlainSplit(c, key, units[..j], units[j..]);
    assert units == units[..j] + units[j..];
    assert |units| == n;
    assert units[..n] == units;
    CutPrefix(capacity, Plain(c, key, units[..j]), Plain(c, key, units));
  }

  lemma CutPrefix(capacity: Option<nat>, p: seq<byte>, s: seq<byte>)
    requires p <= s
    ensures Cut(capacity, p) <= Cut(capacity, s)
    ensures !Fits(capacity, p, []) ==> !Fits(capacity, s, []) && Cut(capacity, p) == Cut(capacity, s)
  {
  }

  lemma {:induction false} PlainSplit(c: Cipher, key: Block, a: seq<Unit>, b: seq<Unit>)
    ensures Plain(c, key, a + b) == Plain(c, key, a) + Plain(c, key, b)
  {
    if a == [] {
      assert a + b == b;
    } else {
      assert (a + b)[1..] == a[1..] + b;
      PlainSplit(c, key, a[1..], b);
    }
  }

  /** The next call's transfer holds less than a unit. */
  predicate ShortRead(d: Drive, s: LibreDrive.State) {
    LibreDrive.Replaces(d, s) && |LibreDrive.Answer(d, s).value| < ALIGNED_UNIT_LEN
  }

  lemma ShortReadEnds(d: Drive, s: LibreDrive.State)
    ensures LibreDrive.Next(d, s).1 == None <==> s.unitsLeft == 0 || ShortRead(d, s)
  {
  }

  /** A run over any drive that is reported as finished is short of units if and only if one of
      its first `n` calls got a transfer of less than a unit: the end of the medium looks like
      the end of the clip. */
  lemma FinishedShortExact(c: Cipher, key: Block, d: Drive, start: LibreDrive.u64, n: LibreDrive.u64,
                           capacity: Option<nat>)
    requires ClipResult(c, key, DriveReader(d), ClipId(None, Some((start, n))), capacity).1.Finished?
    ensures var units := ClipResult(c, key, DriveReader(d), ClipId(None, Some((start, n))), capacity).1.units;
      && units <= n
      && (units < n <==>
            exists i: nat :: i < n && ShortRead(d, LibreDrive.After(d, LibreDrive.Fresh(start, n, []), i)))
  {
    hide LibreDrive.Next, ShortRead, Drain, Good, FirstError;
    var clip := ClipId(None, Some((start, n)));
    var s0 := LibreDrive.Fresh(start, n, []);
    var src: Source := DriveSource(d, s0);
    assert Open(DriveReader(d), clip) == Ok(src);
    WriteClipExact(c, key, DriveReader(d), clip, src, capacity);
    var j := DrainStops(d, s0);
    ShortReadEnds(d, LibreDrive.After(d, s0, j));
    forall i: nat | i < n && ShortRead(d, LibreDrive.After(d, s0, i))
      ensures j <= i
    {
      ShortReadEnds(d, LibreDrive.After(d, s0, i));
      assert LibreDrive.ItemAt(d, s0, i) == None;
    }
  }

  /** A caution the types hide: a read that returns nothing ends the loop like the end of the
      clip does, and the run is reported as finished although units are missing. */
  lemma EmptyReadLooksLikeSuccess(c: Cipher, key: Block, d: Drive, start: LibreDrive.u64, n: LibreDrive.u64, resid: int)
    requires n > 0 && d.reply(0) == Done(resid) && resid >= 98304
    ensures ClipResult(c, key, DriveReader(d), ClipId(None, Some((start, n))), None) == ([], Finished(0, 0))
  {
    var src: Source := DriveSource(d, LibreDrive.Fresh(start, n, []));
    assert Kept(2048 * (LibreDrive.Want(n) * 3), resid) == 0;
    assert NextItem(src).1 == None;
  }

  /** Nor does the narrowed count show: over 2^32 units every drive that reads fully is reported
      as finished with nothing written. */
  lemma UncountedUnitsLookLikeSuccess(c: Cipher, key: Block, d: Drive, start: LibreDrive.u64)
    requires LibreDrive.AllFull(d)
    ensures ClipResult(c, key, DriveReader(d), ClipId(None, Some((start, 0x1_0000_0000))), None) == ([], Finished(0, 0))
  {
    var s0 := LibreDrive.Fresh(start, 0x1_0000_0000, []);
    LibreDrive.FullReads(d, start, 0x1_0000_0000, [], 0);
    assert LibreDrive.After(d, s0, 0) == s0;
    assert NextItem(DriveSource(d, s0)).1 == None;
  }

  // ---------- from the disc to the plaintext ----------

  datatype PipelineError = BadMkb(error: Mkb.MkbError) | BadKey(cause: CoreError)

  /** The whole chain: MKB and processing keys to media key, volume unique key, unit key, and
      the clip under it. */
  function DecryptDisc(c: Cipher, mkb: seq<byte>, pks: seq<Block>, volumeId: Block,
                       unitKeyFile: seq<byte>, index: usize, reader: Reader, clip: ClipId)
    : Result<(seq<byte>, Outcome), PipelineError>
  {
    match Mkb.ParseRecords(mkb)
    case Err(e) => Err(BadMkb(e))
    case Ok(rs) =>
      match Mkb.MediaKey(c, rs, pks)
      case Err(e) => Err(BadMkb(e))
      case Ok(km) =>
        match ResolveUnitKey(c, None, Some(VolumeUniqueKey(c, km, volumeId)), unitKeyFile, index)
        case Err(e) => Err(BadKey(e))
        case Ok(kcu) => Ok(ClipResult(c, kcu, reader, clip, None))
  }

  /** A disc made by the inverse equations: a media key block that carries `km` for one of the
      processing keys, unit keys wrapped under the volume unique key, encrypted units. */
  datatype Disc = Disc(
    records: seq<Mkb.Record>, terminator: seq<byte>, padding: seq<byte>, tables: Mkb.Tables,
    km: Block, volumeId: Block, vuk: Block,
    header: seq<byte>, encs: seq<Block>, unitKeys: seq<Block>, tail: seq<byte>,
    plaintext: seq<Unit>)

  function MkbBytes(x: Disc): seq<byte> {
    Mkb.Encode(x.records) + x.terminator + x.padding
  }

  function UnitKeyFile(x: Disc): seq<byte> {
    x.header + Concat(x.encs) + x.tail
  }

  /** The hypotheses on a disc, none of them in terms of the pipeline's own key derivation: the
      volume unique key, the volume id xored on, encrypts under the media key to the volume id,
      and each slot of the unit-key file is a unit key encrypted under it. */
  ghost predicate Mastered(c: Cipher, x: Disc, index: usize) {
    && (forall r <- x.records :: Mkb.Encodable(r))
    && |x.terminator| == 4 && Mkb.IsTerminator(x.terminator)
    && Mkb.HasTables(x.records + [Mkb.Record(x.terminator[0], [])], x.tables)
    && |x.header| == FIRST_UNIT_KEY_OFFSET
    && index < |x.encs| == |x.unitKeys| && FIRST_UNIT_KEY_OFFSET + 16 * |x.encs| < USIZE_LIMIT
    && c.e(x.km, XorBlock(x.vuk, x.volumeId)) == x.volumeId
    && (forall i :: 0 <= i < |x.encs| ==> x.encs[i] == c.e(x.vuk, x.unitKeys[i]))
  }

  lemma MasteredVuk(c: Cipher, x: Disc, index: usize)
    requires c.IsPermutation() && Mastered(c, x, index)
    ensures x.vuk == VolumeUniqueKey(c, x.km, x.volumeId)
  {
    VolumeUniqueKeyExact(c, x.km, x.volumeId, x.vuk, XorBlock(x.vuk, x.volumeId));
  }

  /** The drive holds an encrypted form of the plaintext at `start`. */
  ghost predicate Holds(c: Cipher, d: Drive, start: nat, key: Block, plaintext: seq<Unit>) {
    forall i: nat :: i < |plaintext| ==> Enciphers(c, key, Extent(d, start + 3 * i, 3), plaintext[i])
  }

  lemma MasteredUnit(c: Cipher, d: Drive, start: nat, key: Block, plaintext: seq<Unit>, i: nat)
    requires c.IsPermutation() && Holds(c, d, start, key, plaintext) && i < |plaintext|
    requires LibreDrive.Addressable(start, |plaintext|)
    ensures DecryptUnit(c, key, LibreDrive.UnitsAt(d, start, |plaintext|)[i]) == plaintext[i]
  {
    hide Cipher.IsPermutation, DecryptUnit, Enciphers, LibreDrive.UnitsAt, Extent;
    LibreDrive.AddressableSources(start, |plaintext|);
    UnitsAtIndex(d, start, |plaintext|, i);
    DecryptsExactly(c, key, Extent(d, start + 3 * i, 3), plaintext[i]);
  }

  lemma MasteredUnits(c: Cipher, d: Drive, start: nat, key: Block, plaintext: seq<Unit>)
    requires c.IsPermutation() && Holds(c, d, start, key, plaintext)
    requires LibreDrive.Addressable(start, |plaintext|)
    ensures Plain(c, key, FileReader.FileUnits(Extent(d, start, 3 * |plaintext|))) == Join(plaintext)
  {
    hide Holds, Cipher.IsPermutation, LibreDrive.Addressable, FileReader.FileUnits, DecryptUnit, Plain;
    var n := |plaintext|;
    var units := FileReader.FileUnits(Extent(d, start, 3 * n));
    SameUnits(d, start, n);
    forall i: nat | i < n
      ensures DecryptUnit(c, key, units[i]) == plaintext[i]
    {
      MasteredUnit(c, d, start, key, plaintext, i);
    }
    PlainIsJoin(c, key, units, plaintext);
  }

  lemma {:induction false} PlainIsJoin(c: Cipher, key: Block, us: seq<Unit>, pts: seq<Unit>)
    requires |us| == |pts| && forall i :: 0 <= i < |us| ==> DecryptUnit(c, key, us[i]) == pts[i]
    ensures Plain(c, key, us) == Join(pts)
  {
    if us != [] { PlainIsJoin(c, key, us[1..], pts[1..]); }
  }

  /** The clip of a medium that holds encrypted units, read without faults. */
  lemma MasteredClip(c: Cipher, d: Drive, start: LibreDrive.u64, key: Block, plaintext: seq<Unit>)
    requires c.IsPermutation() && Holds(c, d, start, key, plaintext) && LibreDrive.AllFull(d)
    requires |plaintext| < LibreDrive.U64_LIMIT && LibreDrive.Addressable(start, |plaintext|)
    ensures var (written, o) := ClipResult(c, key, DriveReader(d), ClipId(None, Some((start, |plaintext|))), None);
      written == Join(plaintext) && o.Finished? && o.units == |plaintext|
  {
    hide Holds, LibreDrive.AllFull, LibreDrive.Addressable, ClipResult, Plain;
    var j := DriveWrites(c, key, d, start, |plaintext|, None, None);
    MasteredUnits(c, d, start, key, plaintext);
    var units := FileReader.FileUnits(Extent(d, start, 3 * |plaintext|));
    assert units[..|plaintext|] == units;
  }

  /** End to end: from the bytes of the media key block, the unit-key file and the raw sectors,
      the pipeline writes exactly the original plaintext, provided no lexicographically earlier
      candidate passes the 64-bit check. */
  lemma DiscIsRecovered(c: Cipher, x: Disc, index: usize, pks: seq<Block>, i: nat, a: nat,
                        d: Drive, start: LibreDrive.u64)
    requires c.IsPermutation() && Mastered(c, x, index)
    requires i < |pks| && Mkb.Carries(c, x.tables, x.km, pks[i], a)
    requires Mkb.PassesFirst(c, x.tables.subdiff, x.tables.cvalues, x.tables.dv, pks, i, a, x.km)
    requires LibreDrive.AllFull(d)
    requires |x.plaintext| < LibreDrive.U64_LIMIT && LibreDrive.Addressable(start, |x.plaintext|)
    requires Holds(c, d, start, x.unitKeys[index], x.plaintext)
    ensures var r := DecryptDisc(c, MkbBytes(x), pks, x.volumeId, UnitKeyFile(x), index,
                                 DriveReader(d), ClipId(None, Some((start, |x.plaintext|))));
      r.Ok? && r.value.0 == Join(x.plaintext) && r.value.1.Finished? && r.value.1.units == |x.plaintext|
  {
    hide ClipResult, Holds, LibreDrive.AllFull, LibreDrive.Addressable;
    var rs := x.records + [Mkb.Record(x.terminator[0], [])];
    Mkb.ParseEncoded(x.records, x.terminator, x.padding);
    Mkb.CarriedKeyIsFound(c, rs, x.tables, pks, x.km, i, a);
    MasteredVuk(c, x, index);
    KeySourcesAgree(c, x.vuk, x.unitKeys, x.header, x.encs, x.tail, index);
    MasteredClip(c, d, start, x.unitKeys[index], x.plaintext);
  }

  /** Without that proviso the chain still finds a media key that passes `verify_media_key`. */
  lemma SomeKeyIsFound(c: Cipher, x: Disc, index: usize, pks: seq<Block>, i: nat, a: nat)
    requires c.IsPermutation() && Mastered(c, x, index)
    requires i < |pks| && Mkb.Carries(c, x.tables, x.km, pks[i], a)
    ensures Mkb.ParseRecords(MkbBytes(x)).Ok?
    ensures var rs := Mkb.ParseRecords(MkbBytes(x)).value;
      Mkb.MediaKey(c, rs, pks).Ok? && Mkb.VerifyMediaKey(c, rs, Mkb.MediaKey(c, rs, pks).value)
  {
    var rs := x.records + [Mkb.Record(x.terminator[0], [])];
    Mkb.ParseEncoded(x.records, x.terminator, x.padding);
    Mkb.CarriedKeyIsFound(c, rs, x.tables, pks, x.km, i, a);
  }
}
