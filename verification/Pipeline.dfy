/** From a read backend to the output file: `decrypt_clip` and `write_clip`. */
module Pipeline {
  import opened Wrappers
  import opened Bytes
  import opened Crypto
  import opened Content
  import opened UnitStream
  import opened Scsi
  import FileReader
  import LibreDrive

  // ---------- read backends ----------

  datatype ReadError = Io(error: IoError) | Unimplemented | NoPath | NoExtent | NotLibreDrive

  datatype ClipId = ClipId(path: Option<string>, discExtent: Option<(LibreDrive.u64, LibreDrive.u64)>)

  /** The three readers, with what the world answers when they open their input. */
  datatype Reader =
    | PlainUdfReader(open: string -> Result<FileReader.FileEnv, IoError>)
    | LibreDriveReader(device: Result<Drive, IoError>, unlock: Result<bool, IoError>)
    | AacsAuthReader

  /** The state of an opened unit iterator. */
  datatype SourceState =
    | FileSource(f: FileReader.FileEnv, fs: FileReader.State)
    | DriveSource(d: Drive, ds: LibreDrive.State)

  type Source = s: SourceState | s.FileSource? ==> s.fs.pos <= |s.f.content|
    witness FileSource(FileReader.FileData([], _ => FileReader.Chunk(1), 0), FileReader.State(0, 0))

  function Open(reader: Reader, clip: ClipId): Result<Source, ReadError> {
    match reader
    case PlainUdfReader(open) =>
      if clip.path.None? then Err(NoPath)
      else (match open(clip.path.value)
            case Err(e) => Err(Io(e))
            case Ok(f) => Ok(FileSource(f, FileReader.State(0, 0))))
    case LibreDriveReader(device, unlock) =>
      if clip.discExtent.None? then Err(NoExtent)
      else if device.Err? then Err(Io(device.error))
      else if unlock.Err? then Err(Io(unlock.error))
      else if !unlock.value then Err(NotLibreDrive)
      else Ok(DriveSource(device.value, LibreDrive.Fresh(clip.discExtent.value.0, clip.discExtent.value.1, [])))
    case AacsAuthReader => Err(Unimplemented)
  }

  /** Opening, by the reader's and the clip's own fields: the file reader asks for a path, then
      for the file; the drive reader for an extent, the device, the unlock sequence and its
      verdict, in that order; what is opened starts at the beginning. */
  lemma OpenExact(reader: Reader, clip: ClipId, e: ReadError)
    ensures Open(reader, clip) == Err(e) <==>
      match reader
      case AacsAuthReader => e == Unimplemented
      case PlainUdfReader(open) =>
        || (clip.path == None && e == NoPath)
        || (clip.path.Some? && open(clip.path.value).Err? && e == Io(open(clip.path.value).error))
      case LibreDriveReader(device, unlock) =>
        || (clip.discExtent == None && e == NoExtent)
        || (clip.discExtent.Some? && device.Err? && e == Io(device.error))
        || (clip.discExtent.Some? && device.Ok? && unlock.Err? && e == Io(unlock.error))
        || (clip.discExtent.Some? && device.Ok? && unlock == Ok(false) && e == NotLibreDrive)
    ensures Open(reader, clip).Ok? ==>
      match reader
      case AacsAuthReader => false
      case PlainUdfReader(open) =>
        clip.path.Some? && Open(reader, clip).value == FileSource(open(clip.path.value).value, FileReader.State(0, 0))
      case LibreDriveReader(device, unlock) =>
        && device.Ok? && unlock == Ok(true) && clip.discExtent.Some?
        && Open(reader, clip).value
           == DriveSource(device.value, LibreDrive.Fresh(clip.discExtent.value.0, clip.discExtent.value.1, []))
  {
  }

  function NextItem(src: Source): (Source, Item) {
    match src
    case FileSource(f, fs) => var (fs', item) := FileReader.Next(f, fs); (FileSource(f, fs'), item)
    case DriveSource(d, ds) => var (ds', item) := LibreDrive.Next(d, ds); (DriveSource(d, ds'), item)
  }

  function Left(src: Source): nat {
    match src
    case FileSource(f, fs) => |f.content| - fs.pos
    case DriveSource(d, ds) => ds.unitsLeft
  }

  lemma UnitsRunOut(src: Source)
    ensures NextItem(src).1.Some? && NextItem(src).1.value.Ok? ==> Left(NextItem(src).0) < Left(src)
  {
    if src.FileSource? { FileReader.NextConsumes(src.f, src.fs); }
  }

  /** What a consumer that stops at the first error or at `None` pulls from the iterator. */
  function Drain(src: Source): seq<Result<Unit, IoError>>
    decreases Left(src)
  {
    UnitsRunOut(src);
    var (src', item) := NextItem(src);
    match item
    case None => []
    case Some(Err(e)) => [Err(e)]
    case Some(Ok(u)) => [Ok(u)] + Drain(src')
  }

  /** `&mut dyn UnitReader` after opening: one of the two iterators. */
  datatype Backend = FileBackend(fit: FileReader.FileUnitIter) | DriveBackend(dit: LibreDrive.RawUnitIter) {
    function Frame(): set<object> {
      match this
      case FileBackend(it) => {it.file}
      case DriveBackend(it) => {it, it.dev}
    }

    ghost predicate Valid()
      reads Frame()
    {
      FileBackend? ==> fit.file.Valid()
    }

    function View(): Source
      reads Frame()
      requires Valid()
    {
      match this
      case FileBackend(it) => FileSource(it.file.env, it.View())
      case DriveBackend(it) => DriveSource(it.dev.drive, it.View())
    }

    method Pull() returns (item: Item)
      requires Valid()
      modifies Frame()
      ensures Valid()
      ensures (View(), item) == NextItem(old(View()))
    {
      match this {
        case FileBackend(it) => item := it.NextUnit();
        case DriveBackend(it) => item := it.NextUnit();
      }
    }
  }

  method ReadUnits(reader: Reader, clip: ClipId) returns (r: Result<Backend, ReadError>)
    ensures r.Err? <==> Open(reader, clip).Err?
    ensures r.Err? ==> r.error == Open(reader, clip).error
    ensures r.Ok? ==> fresh(r.value.Frame()) && r.value.Valid() && Open(reader, clip) == Ok(r.value.View())
  {
    match reader {
      case PlainUdfReader(open) =>
        if clip.path.None? { return Err(NoPath); }
        var handle := open(clip.path.value);
        if handle.Err? { return Err(Io(handle.error)); }
        var file := new FileReader.File(handle.value);
        var it := new FileReader.FileUnitIter(file);
        return Ok(FileBackend(it));
      case LibreDriveReader(device, unlock) =>
        if clip.discExtent.None? { return Err(NoExtent); }
        if device.Err? { return Err(Io(device.error)); }
        if unlock.Err? { return Err(Io(unlock.error)); }
        if !unlock.value { return Err(NotLibreDrive); }
        var dev := new ScsiDev(device.value);
        var it := new LibreDrive.RawUnitIter(dev, clip.discExtent.value.0, clip.discExtent.value.1);
        return Ok(DriveBackend(it));
      case AacsAuthReader =>
        return Err(Unimplemented);
    }
  }

  // ---------- decrypt_clip ----------

  datatype ClipError = Read(error: IoError) | Decrypt(cause: ContentError)

  /** The closure `decrypt_clip` maps over the reader's items. */
  function ClipItem(c: Cipher, key: Block, r: Result<Unit, IoError>): Result<Unit, ClipError> {
    match r
    case Err(e) => Err(Read(e))
    case Ok(u) =>
      match DecryptAligned(c, key, u)
      case Err(e) => Err(Decrypt(e))
      case Ok(pt) => Ok(pt)
  }

  /** Each item is the decryption of the reader's item or its read error; a content error
      never arises on this path. */
  lemma ClipItemExact(c: Cipher, key: Block, r: Result<Unit, IoError>)
    ensures ClipItem(c, key, r) == if r.Ok? then Ok(DecryptUnit(c, key, r.value)) else Err(Read(r.error))
    ensures !(ClipItem(c, key, r).Err? && ClipItem(c, key, r).error.Decrypt?)
  {
  }

  // ---------- write_clip ----------

  /** The file named for output: what creating it answers, where a write starts to fail, if
      anywhere, and what it holds. */
  class OutFile {
    const createError: Option<IoError>
    const capacity: Option<nat>
    var bytes: seq<byte>

    constructor (createError: Option<IoError>, capacity: Option<nat>, bytes: seq<byte>)
      ensures this.createError == createError && this.capacity == capacity && this.bytes == bytes
    {
      this.createError := createError;
      this.capacity := capacity;
      this.bytes := bytes;
    }

    /** `File::create`: an empty file, or an error and no change. */
    method Create() returns (error: Option<IoError>)
      modifies this
      ensures error == createError
      ensures bytes == if error.Some? then old(bytes) else []
    {
      error := createError;
      if error.None? {
        bytes := [];
      }
    }

    /** `write_all`: everything, or as much as fits and a failure. */
    method WriteAll(data: seq<byte>) returns (ok: bool)
      modifies this
      ensures ok == Fits(capacity, old(bytes), data)
      ensures bytes == Appended(capacity, old(bytes), data)
    {
      ok := Fits(capacity, bytes, data);
      bytes := Appended(capacity, bytes, data);
    }
  }

  predicate Fits(capacity: Option<nat>, bytes: seq<byte>, data: seq<byte>) {
    capacity.None? || |bytes| + |data| <= capacity.value
  }

  function Appended(capacity: Option<nat>, bytes: seq<byte>, data: seq<byte>): seq<byte> {
    if Fits(capacity, bytes, data) then bytes + data
    else if |bytes| <= capacity.value then (bytes + data)[..capacity.value]
    else bytes
  }

  datatype Outcome =
    | CreateFailed(reason: IoError)
    | OpenFailed(cause: ReadError)
    | UnitFailed(unit: nat, error: ClipError)
    | WriteFailed(unit: nat)
    | Finished(units: nat, firstSync: nat)

  /** The write loop over what the reader yields. */
  function WriteUnits(c: Cipher, key: Block, items: seq<Result<Unit, IoError>>, capacity: Option<nat>,
                      bytes: seq<byte>, n: nat, sync: Option<nat>): (seq<byte>, Outcome)
  {
    if items == [] then (bytes, Finished(n, if sync.Some? then sync.value else 0))
    else
      match ClipItem(c, key, items[0])
      case Err(e) => (bytes, UnitFailed(n, e))
      case Ok(pt) =>
        var sync' := if sync.None? then Some(TsSync(pt)) else sync;
        if Fits(capacity, bytes, pt) then WriteUnits(c, key, items[1..], capacity, bytes + pt, n + 1, sync')
        else (Appended(capacity, bytes, pt), WriteFailed(n))
  }

  function ClipResult(c: Cipher, key: Block, reader: Reader, clip: ClipId, capacity: Option<nat>)
    : (seq<byte>, Outcome)
  {
    match Open(reader, clip)
    case Err(e) => ([], OpenFailed(e))
    case Ok(src) => WriteUnits(c, key, Drain(src), capacity, [], 0, None)
  }

  /** `write_clip`. The reader is not touched when the output cannot be created. */
  method WriteClip(c: Cipher, reader: Reader, clip: ClipId, key: Block, out: OutFile) returns (o: Outcome)
    modifies out
    ensures (out.bytes, o) ==
            if out.createError.Some? then (old(out.bytes), CreateFailed(out.createError.value))
            else ClipResult(c, key, reader, clip, out.capacity)
  {
    var failure := out.Create();
    if failure.Some? {
      return CreateFailed(failure.value);
    }
    var handle := ReadUnits(reader, clip);
    if handle.Err? {
      return OpenFailed(handle.error);
    }
    o := WriteAllUnits(c, handle.value, key, out);
  }

  method WriteAllUnits(c: Cipher, units: Backend, key: Block, out: OutFile) returns (o: Outcome)
    requires units.Valid() && out !in units.Frame()
    modifies units.Frame(), out
    ensures (out.bytes, o) == WriteUnits(c, key, Drain(old(units.View())), out.capacity, old(out.bytes), 0, None)
  {
    var n := 0;
    var firstSync: Option<nat> := None;
    ghost var goal := WriteUnits(c, key, Drain(units.View()), out.capacity, out.bytes, 0, None);
    while true
      invariant units.Valid()
      invariant WriteUnits(c, key, Drain(units.View()), out.capacity, out.bytes, n, firstSync) == goal
      decreases Left(units.View())
    {
      ghost var src, items := units.View(), Drain(units.View());
      UnitsRunOut(src);
      var item := units.Pull();
      if item.None? {
        return Finished(n, if firstSync.Some? then firstSync.value else 0);
      }
      var unit := ClipItem(c, key, item.value);
      if unit.Err? {
        return UnitFailed(n, unit.error);
      }
      assert items[0] == item.value && items[1..] == Drain(units.View());
      var pt := unit.value;
      if firstSync.None? {
        firstSync := Some(TsSync(pt));
      }
      var ok := out.WriteAll(pt);
      if !ok {
        return WriteFailed(n);
      }
      n := n + 1;
    }
  }

  /** `ts_sync`, the command line's own copy of the score: how many of the offsets
      4, 196, 388, ... hold a sync byte. */
  function TsSync(unit: seq<byte>): nat {
    |SyncFrom(unit, 4)|
  }

  lemma SyncScoresAgree(unit: seq<byte>)
    ensures TsSync(unit) == SyncCount(unit, 4)
  {
    SyncCountIsCardinality(unit, 4);
  }

  // ---------- what is written ----------

  /** The units before the first read error. */
  function Good(items: seq<Result<Unit, IoError>>): seq<Unit> {
    if items == [] || items[0].Err? then [] else [items[0].value] + Good(items[1..])
  }

  function FirstError(items: seq<Result<Unit, IoError>>): Option<IoError> {
    if items == [] then None else if items[0].Err? then Some(items[0].error) else FirstError(items[1..])
  }

  function Plain(c: Cipher, key: Block, us: seq<Unit>): (s: seq<byte>)
    ensures |s| == ALIGNED_UNIT_LEN * |us|
  {
    if us == [] then [] else DecryptUnit(c, key, us[0]) + Plain(c, key, us[1..])
  }

  function Sync(c: Cipher, key: Block, us: seq<Unit>, sync: Option<nat>): nat {
    if sync.Some? then sync.value else if us == [] then 0 else TsSync(DecryptUnit(c, key, us[0]))
  }

  /** The output is exactly the decrypted concatenation up to the first error, cut where the
      disk fills; without a write failure it is a whole number of units. */
  lemma {:induction false} WrittenExactly(c: Cipher, key: Block, items: seq<Result<Unit, IoError>>,
                                          capacity: Option<nat>, bytes: seq<byte>, n: nat, sync: Option<nat>)
    requires Fits(capacity, bytes, [])
    ensures
      var (written, o) := WriteUnits(c, key, items, capacity, bytes, n, sync);
      var good := Good(items);
      var full := bytes + Plain(c, key, good);
      if Fits(capacity, full, []) then
        && written == full
        && o == match FirstError(items)
                case Some(e) => UnitFailed(n + |good|, Read(e))
                case None => Finished(n + |good|, Sync(c, key, good, sync))
      else
        && written == full[..capacity.value]
        && o.WriteFailed? && n <= o.unit < n + |good|
        && |bytes| + ALIGNED_UNIT_LEN * (o.unit - n) <= capacity.value < |bytes| + ALIGNED_UNIT_LEN * (o.unit - n + 1)
  {
    hide ClipItem, DecryptUnit, TsSync;
    var good := Good(items);
    if items != [] { ClipItemExact(c, key, items[0]); }
    if good == [] {
      assert bytes + [] == bytes;
    } else {
      var pt := DecryptUnit(c, key, good[0]);
      assert bytes + Plain(c, key, good) == bytes + pt + Plain(c, key, good[1..]);
      var full := bytes + Plain(c, key, good);
      if Fits(capacity, bytes, pt) {
        WrittenExactly(c, key, items[1..], capacity, bytes + pt, n + 1, if sync.None? then Some(TsSync(pt)) else sync);
      } else {
        assert full[..capacity.value] == (bytes + pt)[..capacity.value];
      }
    }
  }

  /** As much of `s` as the disk takes. */
  function Cut(capacity: Option<nat>, s: seq<byte>): seq<byte> {
    if Fits(capacity, s, []) then s else s[..capacity.value]
  }

  /** The outcome of a run whose reader hands out the units `good` and then an error or its end. */
  function OutcomeOf(c: Cipher, key: Block, good: seq<Unit>, error: Option<IoError>, capacity: Option<nat>): Outcome {
    if !Fits(capacity, Plain(c, key, good), []) then WriteFailed(capacity.value / ALIGNED_UNIT_LEN)
    else if error.Some? then UnitFailed(|good|, Read(error.value))
    else Finished(|good|, Sync(c, key, good, None))
  }

  /** From the start: all the plaintext up to the first error, or as much as the disk takes; a
      full disk is reported at the unit that did not fit, before any read error after it. */
  lemma WriteClipExact(c: Cipher, key: Block, reader: Reader, clip: ClipId, src: Source, capacity: Option<nat>)
    requires Open(reader, clip) == Ok(src)
    ensures var items := Drain(src);
      ClipResult(c, key, reader, clip, capacity)
      == (Cut(capacity, Plain(c, key, Good(items))),
          OutcomeOf(c, key, Good(items), FirstError(items), capacity))
  {
    hide ClipItem, WriteUnits, Plain, Good, FirstError, Drain;
    var items := Drain(src);
    WrittenExactly(c, key, items, capacity, [], 0, None);
    var full := Plain(c, key, Good(items));
    assert [] + full == full;
    if !Fits(capacity, full, []) {
      UnitThatFilled(capacity.value, WriteUnits(c, key, items, capacity, [], 0, None).1.unit);
    }
  }

  lemma UnitThatFilled(capacity: nat, unit: nat)
    requires ALIGNED_UNIT_LEN * unit <= capacity < ALIGNED_UNIT_LEN * (unit + 1)
    ensures unit == capacity / ALIGNED_UNIT_LEN
  {
  }

  /** When the reader cannot be opened the output file has already been emptied. */
  lemma OpenFailureLeavesEmptyFile(c: Cipher, key: Block, reader: Reader, clip: ClipId, capacity: Option<nat>)
    ensures Open(reader, clip).Err? <==> ClipResult(c, key, reader, clip, capacity).1.OpenFailed?
    ensures Open(reader, clip).Err? ==> ClipResult(c, key, reader, clip, capacity).0 == []
    ensures reader.LibreDriveReader? && clip.discExtent.None? ==> Open(reader, clip) == Err(NoExtent)
  {
    if Open(reader, clip).Ok? {
      NeverOpenFailed(c, key, Drain(Open(reader, clip).value), capacity, [], 0, None);
    }
  }

  /** No byte of a drive that did not answer the unlock sequence reaches the output: unless the
      extent is known, the device opened and the sequence succeeded, the file stays empty, and
      the outcome names the first of these that failed. */
  lemma LockedDriveWritesNothing(c: Cipher, key: Block, device: Result<Drive, IoError>, unlock: Result<bool, IoError>,
                                 clip: ClipId, capacity: Option<nat>)
    requires !(clip.discExtent.Some? && device.Ok? && unlock == Ok(true))
    ensures ClipResult(c, key, LibreDriveReader(device, unlock), clip, capacity)
            == ([], OpenFailed(if clip.discExtent.None? then NoExtent
                               else if device.Err? then Io(device.error)
                               else if unlock.Err? then Io(unlock.error)
                               else NotLibreDrive))
  {
    OpenExact(LibreDriveReader(device, unlock), clip, NoExtent);
  }

  lemma {:induction false} NeverOpenFailed(c: Cipher, key: Block, items: seq<Result<Unit, IoError>>,
                                           capacity: Option<nat>, bytes: seq<byte>, n: nat, sync: Option<nat>)
    ensures !WriteUnits(c, key, items, capacity, bytes, n, sync).1.OpenFailed?
  {
    if items != [] && items[0].Ok? {
      var pt := DecryptUnit(c, key, items[0].value);
      NeverOpenFailed(c, key, items[1..], capacity, bytes + pt, n + 1, if sync.None? then Some(TsSync(pt)) else sync);
    }
  }
}
