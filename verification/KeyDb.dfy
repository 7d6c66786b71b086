/** The `KEYDB.cfg` parser of crates/freeblue-keys. */
module KeyDb {
  import opened Wrappers
  import opened Bytes
  import opened Text

  type DiscId = s: seq<byte> | |s| == 20 witness seq(20, _ => ZERO)

  datatype DiscKeys = DiscKeys(
    mediaKey: Option<Block>, volumeId: Option<Block>, volumeUniqueKey: Option<Block>, unitKeys: seq<Block>)

  const NO_KEYS := DiscKeys(None, None, None, [])

  datatype ProcessingKey = ProcessingKey(key: Block, mkbVersions: string)

  datatype DeviceKey = DeviceKey(deviceKey: Block, deviceNode: seq<byte>, keyUv: seq<byte>, keyUMaskShift: seq<byte>)

  /** The database as a value: what the class below holds. */
  datatype Db = Db(discs: map<DiscId, DiscKeys>, processingKeys: seq<ProcessingKey>, deviceKeys: seq<DeviceKey>,
                   hostPrivKey: Option<seq<byte>>, hostCert: Option<seq<byte>>)

  const EMPTY := Db(map[], [], [], None, None)

  datatype Reason = MissingEquals | IdNotTwentyBytes

  datatype KeyError = Parse(line: nat, reason: Reason) | Hex(line: nat)

  function Or<T>(a: Option<T>, b: Option<T>): Option<T> {
    if a.Some? then a else b
  }

  // ---------- per-disc entries ----------

  function UnitKeys(words: seq<string>): seq<Block> {
    if words == [] then []
    else
      var b := HexBlock(AfterLast(words[0], '-'));
      (if b.Some? then [b.value] else []) + UnitKeys(words[1..])
  }

  /** One (tag, value) field: the last decodable M, I and V stand; U values accumulate. */
  function ApplyField(dk: DiscKeys, tag: string, val: string): DiscKeys {
    if tag == "M" then dk.(mediaKey := Or(HexBlock(val), dk.mediaKey))
    else if tag == "I" then dk.(volumeId := Or(HexBlock(val), dk.volumeId))
    else if tag == "V" then dk.(volumeUniqueKey := Or(HexBlock(val), dk.volumeUniqueKey))
    else if tag == "U" then dk.(unitKeys := dk.unitKeys + UnitKeys(Words(val)))
    else dk
  }

  /** A value without its trailing `; note`. */
  function FieldValue(seg: string): string {
    Trim(Before(seg, ';'))
  }

  /** Alternating tags and values; an odd one out is ignored. */
  function ApplyFields(dk: DiscKeys, segs: seq<string>): DiscKeys
    decreases |segs|
  {
    if |segs| < 2 then dk else ApplyFields(ApplyField(dk, segs[0], FieldValue(segs[1])), segs[2..])
  }

  lemma FieldsStep(dk: DiscKeys, segs: seq<string>, i: nat)
    requires i + 1 < |segs|
    ensures ApplyFields(dk, segs[i..]) == ApplyFields(ApplyField(dk, segs[i], FieldValue(segs[i + 1])), segs[i + 2..])
  {
    assert segs[i..][2..] == segs[i + 2..];
  }

  function DiscEntry(line: string, n: nat): Result<(DiscId, DiscKeys), KeyError> {
    var eq := Find(line, '=');
    if eq == |line| then Err(Parse(n, MissingEquals))
    else
      var id := HexVec(line[..eq]);
      if id.None? then Err(Hex(n))
      else if |id.value| != 20 then Err(Parse(n, IdNotTwentyBytes))
      else Ok((id.value, ApplyFields(NO_KEYS, TrimAll(Split(line[eq + 1..], '|'))[1..])))
  }

  // ---------- global records ----------

  function Word(seg: string, i: nat): string {
    if i < |Words(seg)| then Words(seg)[i] else ""
  }

  /** The value word of the last segment whose first word is `name`. */
  function LastValue(segs: seq<string>, name: string): Option<string> {
    if segs == [] then None
    else
      var last := segs[|segs| - 1];
      if Word(last, 0) == name then Some(Word(last, 1)) else LastValue(segs[..|segs| - 1], name)
  }

  function PkRecord(segs: seq<string>): seq<ProcessingKey> {
    var seg := if 2 < |segs| then segs[2] else "";
    var semi := Find(seg, ';');
    var val := if semi < |seg| then Trim(seg[..semi]) else seg;
    var note := if semi < |seg| then Trim(seg[semi + 1..]) else "";
    if HexBlock(val).Some? then [ProcessingKey(HexBlock(val).value, note)] else []
  }

  function Decoded(v: Option<string>): Option<seq<byte>> {
    if v.Some? then HexVec(v.value) else None
  }

  function OrEmpty(v: Option<seq<byte>>): seq<byte> {
    if v.Some? then v.value else []
  }

  function DkRecord(fields: seq<string>): seq<DeviceKey> {
    var k := LastValue(fields, "DEVICE_KEY");
    if k.Some? && HexBlock(k.value).Some? then
      [DeviceKey(HexBlock(k.value).value,
                 OrEmpty(Decoded(LastValue(fields, "DEVICE_NODE"))),
                 OrEmpty(Decoded(LastValue(fields, "KEY_UV"))),
                 OrEmpty(Decoded(LastValue(fields, "KEY_U_MASK_SHIFT"))))]
    else []
  }

  /** A host field after a record: the last assignment in it, decodable or not, replaces it. */
  function Assigned(was: Option<seq<byte>>, fields: seq<string>, name: string): Option<seq<byte>> {
    var v := LastValue(fields, name);
    if v.Some? then HexVec(v.value) else was
  }

  function ApplyGlobal(db: Db, line: string): Db {
    var segs := TrimAll(Split(line, '|'));
    var tag := if 1 < |segs| then segs[1] else "";
    if tag == "PK" then db.(processingKeys := db.processingKeys + PkRecord(segs))
    else if tag == "DK" then db.(deviceKeys := db.deviceKeys + DkRecord(segs[2..]))
    else if tag == "HC" then
      db.(hostPrivKey := Assigned(db.hostPrivKey, segs[2..], "HOST_PRIV_KEY"),
          hostCert := Assigned(db.hostCert, segs[2..], "HOST_CERT"))
    else db
  }

  // ---------- whole texts ----------

  predicate IsDiscLine(line: string) {
    StartsWith(line, "0x") || StartsWith(line, "0X")
  }

  predicate IsGlobalLine(line: string) {
    StartsWith(line, "|")
  }

  /** One raw line. Blank lines, comments and unknown shapes change nothing. */
  function ApplyLine(db: Db, raw: string, n: nat): Result<Db, KeyError> {
    var line := Trim(raw);
    if line == "" || StartsWith(line, "#") || StartsWith(line, ";") then Ok(db)
    else if IsDiscLine(line) then
      (match DiscEntry(line, n)
       case Err(e) => Err(e)
       case Ok(entry) => Ok(db.(discs := db.discs[entry.0 := entry.1])))
    else if IsGlobalLine(line) then Ok(ApplyGlobal(db, line))
    else Ok(db)
  }

  function ApplyLines(db: Db, lines: seq<string>, n: nat): Result<Db, KeyError>
    decreases |lines|
  {
    if lines == [] then Ok(db)
    else match ApplyLine(db, lines[0], n)
      case Err(e) => Err(e)
      case Ok(db') => ApplyLines(db', lines[1..], n + 1)
  }

  function ParseText(text: string): Result<Db, KeyError> {
    ApplyLines(EMPTY, Lines(text), 0)
  }

  // ---------- the mutable database ----------

  class KeyStore {
    var discs: map<DiscId, DiscKeys>
    var processingKeys: seq<ProcessingKey>
    var deviceKeys: seq<DeviceKey>
    var hostPrivKey: Option<seq<byte>>
    var hostCert: Option<seq<byte>>

    function View(): Db
      reads this
    {
      Db(discs, processingKeys, deviceKeys, hostPrivKey, hostCert)
    }

    constructor ()
      ensures View() == EMPTY
    {
      discs, processingKeys, deviceKeys, hostPrivKey, hostCert := map[], [], [], None, None;
    }

    method ParseDiscEntry(line: string, n: nat) returns (e: Option<KeyError>)
      modifies this
      ensures match DiscEntry(line, n)
              case Err(x) => e == Some(x) && View() == old(View())
              case Ok(entry) => e == None && View() == old(View()).(discs := old(discs)[entry.0 := entry.1])
    {
      var eq := Find(line, '=');
      if eq == |line| { return Some(KeyError.Parse(n, MissingEquals)); }
      var idv := HexVec(line[..eq]);
      if idv.None? { return Some(Hex(n)); }
      if |idv.value| != 20 { return Some(KeyError.Parse(n, IdNotTwentyBytes)); }
      var segs := TrimAll(Split(line[eq + 1..], '|'));
      var dk := ReadFields(segs);
      discs := discs[idv.value := dk];
      e := None;
    }

    /** The loop over alternating tags and values; `segs[0]` is the title. */
    static method ReadFields(segs: seq<string>) returns (dk: DiscKeys)
      requires segs != []
      ensures dk == ApplyFields(NO_KEYS, segs[1..])
    {
      dk := NO_KEYS;
      ghost var goal := ApplyFields(NO_KEYS, segs[1..]);
      var i := 1;
      while i + 1 < |segs|
        invariant 1 <= i <= |segs|
        invariant ApplyFields(dk, segs[i..]) == goal
      {
        FieldsStep(dk, segs, i);
        var tag := segs[i];
        var val := FieldValue(segs[i + 1]);
        ghost var before := dk;
        match tag {
          case "M" => dk := dk.(mediaKey := Or(HexBlock(val), dk.mediaKey));
          case "I" => dk := dk.(volumeId := Or(HexBlock(val), dk.volumeId));
          case "V" => dk := dk.(volumeUniqueKey := Or(HexBlock(val), dk.volumeUniqueKey));
          case "U" =>
            var keys := CollectUnitKeys(Words(val), dk.unitKeys);
            dk := dk.(unitKeys := keys);
          case _ =>
        }
        assert dk == ApplyField(before, tag, val);
        i := i + 2;
      }
    }

    /** The inner loop over the words of a U value. */
    static method CollectUnitKeys(words: seq<string>, had: seq<Block>) returns (keys: seq<Block>)
      ensures keys == had + UnitKeys(words)
    {
      keys := had;
      assert words[0..] == words;
      for j := 0 to |words|
        invariant keys + UnitKeys(words[j..]) == had + UnitKeys(words)
      {
        var rest := words[j..];
        assert rest[0] == words[j] && rest[1..] == words[j + 1..];
        var b := HexBlock(AfterLast(words[j], '-'));
        if b.Some? {
          assert keys + ([b.value] + UnitKeys(rest[1..])) == keys + [b.value] + UnitKeys(rest[1..]);
          keys := keys + [b.value];
        } else {
          assert [] + UnitKeys(rest[1..]) == UnitKeys(rest[1..]);
        }
      }
      assert keys + [] == keys;
    }

    method ParseGlobalRecord(line: string)
      modifies this
      ensures View() == ApplyGlobal(old(View()), line)
    {
      var segs := TrimAll(Split(line, '|'));
      var tag := if 1 < |segs| then segs[1] else "";
      match tag {
        case "PK" =>
          var seg := if 2 < |segs| then segs[2] else "";
          var semi := Find(seg, ';');
          var val, note := seg, "";
          if semi < |seg| {
            val, note := Trim(seg[..semi]), Trim(seg[semi + 1..]);
          }
          var key := HexBlock(val);
          if key.Some? {
            processingKeys := processingKeys + [ProcessingKey(key.value, note)];
          } else {
            assert processingKeys + [] == processingKeys;
          }
        case "DK" =>
          var dk := ReadDeviceKey(segs[2..]);
          if dk.Some? {
            deviceKeys := deviceKeys + [dk.value];
          } else {
            assert deviceKeys + [] == deviceKeys;
          }
        case "HC" =>
          ReadHost(segs[2..]);
        case _ =>
      }
    }

    static method ReadDeviceKey(fields: seq<string>) returns (r: Option<DeviceKey>)
      ensures DkRecord(fields) == if r.Some? then [r.value] else []
    {
      var k: Option<Block> := None;
      var node: Option<seq<byte>>, uv: Option<seq<byte>>, mask: Option<seq<byte>> := None, None, None;
      for i := 0 to |fields|
        invariant var seen := fields[..i];
          && k == (var v := LastValue(seen, "DEVICE_KEY"); if v.Some? then HexBlock(v.value) else None)
          && node == Decoded(LastValue(seen, "DEVICE_NODE"))
          && uv == Decoded(LastValue(seen, "KEY_UV"))
          && mask == Decoded(LastValue(seen, "KEY_U_MASK_SHIFT"))
      {
        assert fields[..i + 1][..i] == fields[..i];
        var name, v := Word(fields[i], 0), Word(fields[i], 1);
        match name {
          case "DEVICE_KEY" => k := HexBlock(v);
          case "DEVICE_NODE" => node := HexVec(v);
          case "KEY_UV" => uv := HexVec(v);
          case "KEY_U_MASK_SHIFT" => mask := HexVec(v);
          case _ =>
        }
      }
      assert fields[..|fields|] == fields;
      if k.None? { return None; }
      r := Some(DeviceKey(k.value, OrEmpty(node), OrEmpty(uv), OrEmpty(mask)));
    }

    method ReadHost(fields: seq<string>)
      modifies this`hostPrivKey, this`hostCert
      ensures hostPrivKey == Assigned(old(hostPrivKey), fields, "HOST_PRIV_KEY")
      ensures hostCert == Assigned(old(hostCert), fields, "HOST_CERT")
    {
      for i := 0 to |fields|
        invariant hostPrivKey == Assigned(old(hostPrivKey), fields[..i], "HOST_PRIV_KEY")
        invariant hostCert == Assigned(old(hostCert), fields[..i], "HOST_CERT")
      {
        assert fields[..i + 1][..i] == fields[..i];
        var name, v := Word(fields[i], 0), Word(fields[i], 1);
        match name {
          case "HOST_PRIV_KEY" => hostPrivKey := HexVec(v);
          case "HOST_CERT" => hostCert := HexVec(v);
          case _ =>
        }
      }
      assert fields[..|fields|] == fields;
    }

    /** `parse`: a new database, or the error. */
    static method Parse(text: string) returns (r: Result<KeyStore, KeyError>)
      ensures match ParseText(text)
              case Err(x) => r == Err(x)
              case Ok(db) => r.Ok? && fresh(r.value) && r.value.View() == db
    {
      var db := new KeyStore();
      var e := db.Load(text);
      r := if e.Some? then Err(e.value) else Ok(db);
    }

    /** The line loop of `parse`, filling an empty database. */
    method Load(text: string) returns (e: Option<KeyError>)
      requires View() == EMPTY
      modifies this
      ensures match ParseText(text)
              case Err(x) => e == Some(x)
              case Ok(db) => e == None && View() == db
    {
      var lines := Lines(text);
      assert lines[0..] == lines;
      for n := 0 to |lines|
        invariant ApplyLines(View(), lines[n..], n) == ParseText(text)
      {
        assert lines[n..][0] == lines[n] && lines[n..][1..] == lines[n + 1..];
        var line := Trim(lines[n]);
        if line == "" || StartsWith(line, "#") || StartsWith(line, ";") {
          continue;
        }
        if StartsWith(line, "0x") || StartsWith(line, "0X") {
          e := ParseDiscEntry(line, n);
          if e.Some? { return; }
        } else if StartsWith(line, "|") {
          ParseGlobalRecord(line);
        }
      }
      e := None;
    }

    function Disc(id: DiscId): Option<DiscKeys>
      reads this
    {
      if id in discs then Some(discs[id]) else None
    }
  }
}
