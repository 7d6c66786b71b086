/** What a parsed key database contains, when parsing fails, and how texts concatenate. */
module KeyDbFacts {
  import opened Wrappers
  import opened Bytes
  import opened Text
  import opened KeyDb

  // ---------- errors ----------

  /** The only lines that make parsing fail: a disc line whose id part is not there, not
      hexadecimal, or not 20 bytes long. Bad hex anywhere else never does. */
  predicate Malformed(raw: string) {
    var line := Trim(raw);
    IsDiscLine(line) &&
    ('=' !in line
     || HexVec(Before(line, '=')).None?
     || |HexVec(Before(line, '=')).value| != 20)
  }

  function ErrorAt(raw: string, n: nat): KeyError
    requires Malformed(raw)
  {
    var line := Trim(raw);
    if '=' !in line then Parse(n, MissingEquals)
    else if HexVec(Before(line, '=')).None? then Hex(n)
    else Parse(n, IdNotTwentyBytes)
  }

  lemma LineFails(db: Db, raw: string, n: nat)
    ensures ApplyLine(db, raw, n).Err? <==> Malformed(raw)
    ensures Malformed(raw) ==> ApplyLine(db, raw, n) == Err(ErrorAt(raw, n))
  {
    var line := Trim(raw);
    if '=' !in line {
      FindAt(line, '=', "");
    }
  }

  lemma {:induction false} LinesFail(db: Db, lines: seq<string>, n: nat, k: nat)
    requires k <= |lines| && forall i :: 0 <= i < k ==> !Malformed(lines[i])
    requires k < |lines| ==> Malformed(lines[k])
    ensures k < |lines| ==> ApplyLines(db, lines, n) == Err(ErrorAt(lines[k], n + k))
    ensures k == |lines| ==> ApplyLines(db, lines, n).Ok?
    decreases |lines|
  {
    hide Malformed, ErrorAt, ApplyLine;
    if lines != [] {
      LineFails(db, lines[0], n);
      if k > 0 {
        LinesFail(ApplyLine(db, lines[0], n).value, lines[1..], n + 1, k - 1);
      }
    }
  }

  lemma {:induction false} FirstMalformed(lines: seq<string>) returns (k: nat)
    ensures k <= |lines| && forall i :: 0 <= i < k ==> !Malformed(lines[i])
    ensures k < |lines| ==> Malformed(lines[k])
  {
    if lines == [] || Malformed(lines[0]) {
      k := 0;
    } else {
      k := FirstMalformed(lines[1..]);
      k := k + 1;
    }
  }

  /** Parsing fails if and only if some line is malformed, and it reports the first such line
      by its zero-based index. */
  lemma ErrorsExact(text: string, e: KeyError)
    ensures ParseText(text) == Err(e) <==>
      exists k: nat :: k < |Lines(text)| && Malformed(Lines(text)[k])
        && (forall i :: 0 <= i < k ==> !Malformed(Lines(text)[i]))
        && e == ErrorAt(Lines(text)[k], k)
  {
    hide Malformed, ErrorAt, ApplyLine;
    var lines := Lines(text);
    var k := FirstMalformed(lines);
    LinesFail(EMPTY, lines, 0, k);
  }

  // ---------- contents ----------

  /** The key a word of a U field stands for, if it decodes. */
  function OneKey(w: string): seq<Block> {
    match HexBlock(AfterLast(w, '-'))
    case Some(k) => [k]
    case None => []
  }

  lemma UnitKeysCons(w: string, rest: seq<string>)
    ensures UnitKeys([w] + rest) == OneKey(w) + UnitKeys(rest)
  {
    hide HexBlock, AfterLast;
    assert ([w] + rest)[1..] == rest;
  }

  /** Unit keys word by word: each decodable one adds its key, any other is skipped. */
  lemma {:induction false} UnitKeysExact(a: seq<string>, w: string, b: seq<string>)
    ensures UnitKeys(a + [w] + b) == UnitKeys(a) + OneKey(w) + UnitKeys(b)
    ensures OneKey(w) == match HexBlock(AfterLast(w, '-')) case Some(k) => [k] case None => []
  {
    hide HexBlock, AfterLast, UnitKeys;
    if a == [] {
      NoUnitKeys();
      assert a + [w] + b == [w] + b;
      UnitKeysCons(w, b);
      assert [] + OneKey(w) == OneKey(w);
    } else {
      var t := a[1..];
      UnitKeysExact(t, w, b);
      assert a + [w] + b == [a[0]] + (t + [w] + b) && a == [a[0]] + t;
      UnitKeysCons(a[0], t + [w] + b);
      UnitKeysCons(a[0], t);
      Regrouped(OneKey(a[0]), UnitKeys(t), OneKey(w), UnitKeys(b));
    }
  }

  lemma NoUnitKeys()
    ensures UnitKeys([]) == []
  {
  }

  lemma Regrouped(a: seq<Block>, b: seq<Block>, c: seq<Block>, d: seq<Block>)
    ensures a + (b + c + d) == (a + b) + c + d
  {
  }

  /** A segment's words by position, a missing one counting as empty: whatever follows the
      second, a comment for one, changes neither name nor value. */
  lemma WordExact(seg: string, ws: seq<string>, i: nat)
    requires SpreadOut(seg, ws)
    ensures Word(seg, i) == if i < |ws| then ws[i] else ""
  {
    WordsUnique(seg, ws);
  }

  /** A record's field, exactly: the value of the last segment whose first word is its name. */
  lemma {:induction false} LastValueExact(segs: seq<string>, name: string, v: string)
    requires name != ""
    ensures LastValue(segs, name) == Some(v) <==>
      exists i: nat :: i < |segs| && Word(segs[i], 0) == name && Word(segs[i], 1) == v
                       && forall j :: i < j < |segs| ==> Word(segs[j], 0) != name
    ensures LastValue(segs, name) == None <==> forall j :: 0 <= j < |segs| ==> Word(segs[j], 0) != name
  {
    hide Word;
    if segs != [] {
      var init, last := segs[..|segs| - 1], |segs| - 1;
      LastValueExact(init, name, v);
      if Word(segs[last], 0) == name {
        if Word(segs[last], 1) == v { assert last < |segs|; }
      } else {
        if LastValue(init, name) == Some(v) {
          var i: nat :| i < |init| && Word(init[i], 0) == name && Word(init[i], 1) == v
                        && forall j :: i < j < |init| ==> Word(init[j], 0) != name;
          assert Word(segs[i], 0) == name && forall j :: i < j < |segs| ==> Word(segs[j], 0) != name;
        }
        forall i: nat | i < |segs| && Word(segs[i], 0) == name && Word(segs[i], 1) == v
                        && forall j :: i < j < |segs| ==> Word(segs[j], 0) != name
          ensures LastValue(init, name) == Some(v)
        {
          assert i < |init| && Word(init[i], 0) == name && Word(init[i], 1) == v;
        }
        forall j | 0 <= j < |init| && LastValue(segs, name) == None
          ensures Word(init[j], 0) != name
        {
          assert init[j] == segs[j];
        }
      }
    }
  }

  /** A DK record, field by field: without a decodable key there is no device key; each other
      field that is absent or undecodable is stored as empty. */
  lemma DeviceKeyExact(fields: seq<string>)
    ensures var k := LastValue(fields, "DEVICE_KEY");
      if k.Some? && HexBlock(k.value).Some? then
        && |DkRecord(fields)| == 1
        && var dk := DkRecord(fields)[0];
        && Some(dk.deviceKey) == HexBlock(k.value)
        && FieldIs(fields, "DEVICE_NODE", dk.deviceNode)
        && FieldIs(fields, "KEY_UV", dk.keyUv)
        && FieldIs(fields, "KEY_U_MASK_SHIFT", dk.keyUMaskShift)
      else DkRecord(fields) == []
  {
  }

  /** `v` is what the last value of `name` decodes to, or nothing if there is none that does. */
  predicate FieldIs(fields: seq<string>, name: string, v: seq<byte>) {
    var text := LastValue(fields, name);
    if text.Some? && HexVec(text.value).Some? then HexVec(text.value) == Some(v) else v == []
  }

  /** A PK record: its third segment is the key, and whatever follows the first semicolon in
      it, trimmed, is the note; an undecodable or missing key gives no record. */
  lemma ProcessingKeyExact(segs: seq<string>, val: string, note: string)
    requires ';' !in val && 2 < |segs|
    ensures segs[2] == val ==> PkRecord(segs) == OnePk(HexBlock(val), "")
    ensures segs[2] == val + [';'] + note ==> PkRecord(segs) == OnePk(HexBlock(val), Trim(note))
    ensures HexBlock("") == None && forall few: seq<string> :: |few| <= 2 ==> PkRecord(few) == []
  {
    hide HexDecode;
    NoKey();
    FindAt(val, ';', note);
    if segs[2] == val + [';'] + note {
      assert segs[2][..|val|] == val && segs[2][|val| + 1..] == note;
      TrimIsTight(val);
    }
  }

  lemma NoKey()
    ensures HexBlock("") == None
  {
    TrimTight("");
    assert HexDecode("") == Some([]);
  }

  function OnePk(key: Option<Block>, note: string): seq<ProcessingKey> {
    if key.Some? then [ProcessingKey(key.value, note)] else []
  }

  /** The last decodable value among the fields tagged `tag`. */
  function LastBlock(segs: seq<string>, tag: string): Option<Block>
    decreases |segs|
  {
    if |segs| < 2 then None
    else Or(LastBlock(segs[2..], tag), if segs[0] == tag then HexBlock(FieldValue(segs[1])) else None)
  }

  /** The keys of all U fields, in order. */
  function AllUnitKeys(segs: seq<string>): seq<Block>
    decreases |segs|
  {
    if |segs| < 2 then []
    else (if segs[0] == "U" then UnitKeys(Words(FieldValue(segs[1]))) else []) + AllUnitKeys(segs[2..])
  }

  /** Field by field: the last decodable M, I and V win; unit keys accumulate in order. */
  lemma {:induction false} FieldsExact(dk: DiscKeys, segs: seq<string>)
    ensures ApplyFields(dk, segs) == DiscKeys(
      Or(LastBlock(segs, "M"), dk.mediaKey), Or(LastBlock(segs, "I"), dk.volumeId),
      Or(LastBlock(segs, "V"), dk.volumeUniqueKey), dk.unitKeys + AllUnitKeys(segs))
    decreases |segs|
  {
    hide HexBlock, Words, FieldValue, UnitKeys;
    if |segs| >= 2 {
      var dk' := ApplyField(dk, segs[0], FieldValue(segs[1]));
      FieldsExact(dk', segs[2..]);
      var more := if segs[0] == "U" then UnitKeys(Words(FieldValue(segs[1]))) else [];
      assert dk'.unitKeys == dk.unitKeys + more;
      assert dk.unitKeys + more + AllUnitKeys(segs[2..]) == dk.unitKeys + (more + AllUnitKeys(segs[2..]));
    }
  }

  /** The entry a line defines, if it is a well-formed disc line. */
  function DiscOf(raw: string): Option<(DiscId, DiscKeys)> {
    if IsDiscLine(Trim(raw)) && DiscEntry(Trim(raw), 0).Ok? then Some(DiscEntry(Trim(raw), 0).value) else None
  }

  /** The segments of a line that is a global record of kind `tag`. */
  function RecordOf(raw: string, tag: string): Option<seq<string>> {
    var segs := TrimAll(Split(Trim(raw), '|'));
    if IsGlobalLine(Trim(raw)) && 1 < |segs| && segs[1] == tag then Some(segs) else None
  }

  function LastDisc(lines: seq<string>, id: DiscId): Option<DiscKeys> {
    if lines == [] then None
    else
      var later := LastDisc(lines[1..], id);
      if later.Some? then later
      else if DiscOf(lines[0]).Some? && DiscOf(lines[0]).value.0 == id then Some(DiscOf(lines[0]).value.1)
      else None
  }

  function AllPks(lines: seq<string>): seq<ProcessingKey> {
    if lines == [] then []
    else (match RecordOf(lines[0], "PK") case Some(segs) => PkRecord(segs) case None => []) + AllPks(lines[1..])
  }

  function AllDks(lines: seq<string>): seq<DeviceKey> {
    if lines == [] then []
    else (match RecordOf(lines[0], "DK") case Some(segs) => DkRecord(segs[2..]) case None => []) + AllDks(lines[1..])
  }

  /** The last assignment of a host field, decodable or not. */
  function LastHost(lines: seq<string>, name: string): Option<string> {
    if lines == [] then None
    else
      var later := LastHost(lines[1..], name);
      if later.Some? then later
      else match RecordOf(lines[0], "HC") case Some(segs) => LastValue(segs[2..], name) case None => None
  }

  function Over(was: Option<seq<byte>>, v: Option<string>): Option<seq<byte>> {
    if v.Some? then HexVec(v.value) else was
  }

  function Lookup(db: Db, id: DiscId): Option<DiscKeys> {
    if id in db.discs then Some(db.discs[id]) else None
  }

  /** `db` follows from `was` by the lines `lines`. */
  ghost predicate Follows(was: Db, lines: seq<string>, db: Db) {
    && (forall id: DiscId :: Lookup(db, id) == Or(LastDisc(lines, id), Lookup(was, id)))
    && db.processingKeys == was.processingKeys + AllPks(lines)
    && db.deviceKeys == was.deviceKeys + AllDks(lines)
    && db.hostPrivKey == Over(was.hostPrivKey, LastHost(lines, "HOST_PRIV_KEY"))
    && db.hostCert == Over(was.hostCert, LastHost(lines, "HOST_CERT"))
  }

  /** What a single global line contributes to each list and host field. */
  lemma OneRecord(raw: string, segs: seq<string>)
    requires IsGlobalLine(Trim(raw)) && segs == TrimAll(Split(Trim(raw), '|'))
    ensures |segs| >= 2
    ensures AllPks([raw]) == if segs[1] == "PK" then PkRecord(segs) else []
    ensures AllDks([raw]) == if segs[1] == "DK" then DkRecord(segs[2..]) else []
    ensures forall name :: LastHost([raw], name) == if segs[1] == "HC" then LastValue(segs[2..], name) else None
  {
    hide HexBlock, PkRecord, DkRecord, LastValue;
    var line := Trim(raw);
    assert line == "" + ['|'] + line[1..];
    SplitAt("", '|', line[1..]);
    assert [raw][1..] == [];
    assert PkRecord(segs) + [] == PkRecord(segs);
    assert DkRecord(segs[2..]) + [] == DkRecord(segs[2..]);
  }

  lemma GlobalFollows(db: Db, raw: string)
    requires IsGlobalLine(Trim(raw))
    ensures Follows(db, [raw], ApplyGlobal(db, Trim(raw)))
  {
    hide PkRecord, DkRecord, AllPks, AllDks, LastHost, LastValue, HexVec, Split, DiscEntry;
    OneRecord(raw, TrimAll(Split(Trim(raw), '|')));
    assert db.processingKeys + [] == db.processingKeys && db.deviceKeys + [] == db.deviceKeys;
    assert !IsDiscLine(Trim(raw)) by { assert Trim(raw)[0] == '|'; }
    forall id: DiscId
      ensures LastDisc([raw], id) == None
    {
      OneDisc(raw, id);
    }
  }

  lemma LineFollows(db: Db, raw: string, n: nat)
    requires ApplyLine(db, raw, n).Ok?
    ensures Follows(db, [raw], ApplyLine(db, raw, n).value)
  {
    hide ApplyGlobal, AllPks, AllDks, LastHost, LastDisc, DiscEntry, Split, HexVec, Trim, RecordOf;
    var line := Trim(raw);
    if IsGlobalLine(line) {
      NotDisc(line);
      GlobalFollows(db, raw);
    } else {
      NotGlobal(raw);
      assert db.processingKeys + [] == db.processingKeys && db.deviceKeys + [] == db.deviceKeys;
      var db' := ApplyLine(db, raw, n).value;
      forall id: DiscId
        ensures Lookup(db', id) == Or(LastDisc([raw], id), Lookup(db, id))
      {
        OneDisc(raw, id);
        IndexOnlyInErrors(line, n);
      }
    }
  }

  /** The first characters tell the kinds of line apart. */
  lemma NotDisc(line: string)
    requires IsGlobalLine(line)
    ensures !IsDiscLine(line) && !StartsWith(line, "#") && !StartsWith(line, ";") && line != ""
  {
    assert line[0] == '|';
  }

  lemma OneDisc(raw: string, id: DiscId)
    ensures LastDisc([raw], id) ==
            if DiscOf(raw).Some? && DiscOf(raw).value.0 == id then Some(DiscOf(raw).value.1) else None
  {
    assert [raw][1..] == [];
  }

  lemma NotGlobal(raw: string)
    requires !IsGlobalLine(Trim(raw))
    ensures AllPks([raw]) == [] && AllDks([raw]) == []
    ensures LastHost([raw], "HOST_PRIV_KEY") == None && LastHost([raw], "HOST_CERT") == None
  {
  }

  lemma IndexOnlyInErrors(line: string, n: nat)
    ensures DiscEntry(line, n).Ok? ==> DiscEntry(line, n) == DiscEntry(line, 0)
  {
  }

  lemma ConsLines(raw: string, rest: seq<string>)
    ensures AllPks([raw] + rest) == AllPks([raw]) + AllPks(rest)
    ensures AllDks([raw] + rest) == AllDks([raw]) + AllDks(rest)
  {
    hide RecordOf, PkRecord, DkRecord;
    var lines := [raw] + rest;
    assert lines[1..] == rest && [raw][1..] == [];
    assert AllPks([raw]) + [] == AllPks([raw]) && AllDks([raw]) + [] == AllDks([raw]);
  }

  lemma ConsHost(raw: string, rest: seq<string>, name: string)
    ensures LastHost([raw] + rest, name) == Or(LastHost(rest, name), LastHost([raw], name))
  {
    var lines := [raw] + rest;
    assert lines[1..] == rest && [raw][1..] == [];
    assert LastHost([], name) == None;
  }

  lemma ConsDisc(raw: string, rest: seq<string>, id: DiscId)
    ensures LastDisc([raw] + rest, id) == Or(LastDisc(rest, id), LastDisc([raw], id))
  {
    var lines := [raw] + rest;
    assert lines[1..] == rest && [raw][1..] == [];
    assert LastDisc([], id) == None;
  }

  lemma FollowsTrans(a: Db, b: Db, d: Db, raw: string, rest: seq<string>)
    requires Follows(a, [raw], b) && Follows(b, rest, d)
    ensures Follows(a, [raw] + rest, d)
  {
    hide AllPks, AllDks, LastHost, LastDisc, Lookup;
    ConsLines(raw, rest);
    ConsHost(raw, rest, "HOST_PRIV_KEY");
    ConsHost(raw, rest, "HOST_CERT");
    assert a.processingKeys + AllPks([raw]) + AllPks(rest) == a.processingKeys + (AllPks([raw]) + AllPks(rest));
    assert a.deviceKeys + AllDks([raw]) + AllDks(rest) == a.deviceKeys + (AllDks([raw]) + AllDks(rest));
    forall id: DiscId
      ensures Lookup(d, id) == Or(LastDisc([raw] + rest, id), Lookup(a, id))
    {
      ConsDisc(raw, rest, id);
    }
  }

  lemma {:induction false} LinesFollow(db: Db, lines: seq<string>, n: nat)
    requires ApplyLines(db, lines, n).Ok?
    ensures Follows(db, lines, ApplyLines(db, lines, n).value)
    decreases |lines|
  {
    hide ApplyLine, Follows;
    if lines != [] {
      var db' := ApplyLine(db, lines[0], n).value;
      LineFollows(db, lines[0], n);
      LinesFollow(db', lines[1..], n + 1);
      assert lines == [lines[0]] + lines[1..];
      FollowsTrans(db, db', ApplyLines(db, lines, n).value, lines[0], lines[1..]);
    } else {
      FollowsNothing(db);
    }
  }

  lemma FollowsNothing(db: Db)
    ensures Follows(db, [], db)
  {
    assert db.processingKeys + [] == db.processingKeys && db.deviceKeys + [] == db.deviceKeys;
  }

  /** Contents of a parsed database: the last entry of each disc, as a whole; all PK and DK
      records in order; the last assignment of each host field, even an undecodable one. */
  lemma ContentsExact(text: string, db: Db)
    requires ParseText(text) == Ok(db)
    ensures forall id: DiscId :: Lookup(db, id) == LastDisc(Lines(text), id)
    ensures db.processingKeys == AllPks(Lines(text)) && db.deviceKeys == AllDks(Lines(text))
    ensures db.hostPrivKey == Over(None, LastHost(Lines(text), "HOST_PRIV_KEY"))
    ensures db.hostCert == Over(None, LastHost(Lines(text), "HOST_CERT"))
  {
    LinesFollow(EMPTY, Lines(text), 0);
  }

  // ---------- concatenation ----------

  lemma {:induction false} ApplyAppend(db: Db, a: seq<string>, b: seq<string>, n: nat)
    ensures ApplyLines(db, a + b, n) ==
            match ApplyLines(db, a, n) case Err(e) => Err(e) case Ok(db') => ApplyLines(db', b, n + |a|)
    decreases |a|
  {
    hide ApplyLine;
    if a == [] {
      assert a + b == b;
    } else {
      assert (a + b)[1..] == a[1..] + b;
      var r := ApplyLine(db, a[0], n);
      if r.Ok? { ApplyAppend(r.value, a[1..], b, n + 1); }
    }
  }

  lemma SameTrimSameLine(db: Db, x: string, y: string, n: nat)
    requires Trim(x) == Trim(y)
    ensures ApplyLine(db, x, n) == ApplyLine(db, y, n)
  {
  }

  /** A final newline changes nothing. */
  lemma {:induction false} FinalNewline(db: Db, a: string, n: nat)
    ensures ApplyLines(db, Lines(a + "\n"), n) == ApplyLines(db, Lines(a), n)
    decreases |a|
  {
    hide ApplyLine;
    var i := Find(a, '\n');
    if i == |a| {
      assert a[..i] == a;
      LinesAt(a, "");
      assert a + "\n" + "" == a + "\n";
      assert Lines(a + "\n") == [DropCr(a)] + [];
      TrimDropCr(a);
      SameTrimSameLine(db, DropCr(a), a, n);
      if a == "" { BlankLine(db, n); }
    } else {
      var head, tail := a[..i], a[i + 1..];
      assert a == head + "\n" + tail && a + "\n" == head + "\n" + (tail + "\n");
      LinesAt(head, tail);
      LinesAt(head, tail + "\n");
      var r := ApplyLine(db, DropCr(head), n);
      if r.Ok? { FinalNewline(r.value, tail, n + 1); }
    }
  }

  lemma BlankLine(db: Db, n: nat)
    ensures ApplyLine(db, "", n) == Ok(db)
  {
  }

  /** Concatenation: entries of `b` override those of `a` as wholes, PK and DK lists are
      appended, and a host field of `a` survives exactly when `b` never assigns it. */
  lemma ConcatParses(a: string, b: string, dbA: Db, dbB: Db)
    requires ParseText(a) == Ok(dbA) && ParseText(b) == Ok(dbB)
    ensures ParseText(a + "\n" + b) == Ok(Db(
      dbA.discs + dbB.discs,
      dbA.processingKeys + dbB.processingKeys,
      dbA.deviceKeys + dbB.deviceKeys,
      if LastHost(Lines(b), "HOST_PRIV_KEY").Some? then dbB.hostPrivKey else dbA.hostPrivKey,
      if LastHost(Lines(b), "HOST_CERT").Some? then dbB.hostCert else dbA.hostCert))
  {
    hide ApplyLines, ApplyLine, LastHost, LastDisc, AllPks, AllDks, Lookup, Lines;
    var la := Lines(a + "\n");
    LinesAppend(a, b);
    ApplyAppend(EMPTY, la, Lines(b), 0);
    FinalNewline(EMPTY, a, 0);
    var db := ConcatFollows(dbA, Lines(b), |la|, dbB);
    ContentsExact(b, dbB);
    DiscsMerge(dbA, dbB, db, Lines(b));
  }

  /** The same lines parsed on top of another database, at another line number. */
  lemma ConcatFollows(dbA: Db, lines: seq<string>, n: nat, dbB: Db) returns (db: Db)
    requires ApplyLines(EMPTY, lines, 0) == Ok(dbB)
    ensures ApplyLines(dbA, lines, n) == Ok(db) && Follows(dbA, lines, db)
  {
    hide ApplyLine, Malformed, Follows;
    var k := FirstMalformed(lines);
    LinesFail(EMPTY, lines, 0, k);
    LinesFail(dbA, lines, n, k);
    db := ApplyLines(dbA, lines, n).value;
    LinesFollow(dbA, lines, n);
  }

  lemma DiscsMerge(dbA: Db, dbB: Db, db: Db, lines: seq<string>)
    requires Follows(dbA, lines, db)
    requires forall id: DiscId :: Lookup(dbB, id) == LastDisc(lines, id)
    ensures db.discs == dbA.discs + dbB.discs
  {
    hide LastDisc, AllPks, AllDks, LastHost;
    forall id: DiscId
      ensures id in db.discs <==> id in dbA.discs || id in dbB.discs
      ensures id in db.discs ==> db.discs[id] == (dbA.discs + dbB.discs)[id]
    {
      assert Lookup(db, id) == Or(LastDisc(lines, id), Lookup(dbA, id));
      assert Lookup(dbB, id) == LastDisc(lines, id);
    }
  }

  function Shift(e: KeyError, lines: nat): KeyError {
    match e
    case Parse(n, reason) => Parse(n + lines, reason)
    case Hex(n) => Hex(n + lines)
  }

  /** Which line fails does not depend on what came before; only its number does. */
  lemma SameFailure(db: Db, lines: seq<string>, n: nat)
    ensures ApplyLines(db, lines, n).Err? <==> ApplyLines(EMPTY, lines, 0).Err?
    ensures ApplyLines(db, lines, n).Err? ==>
              ApplyLines(db, lines, n).error == Shift(ApplyLines(EMPTY, lines, 0).error, n)
  {
    hide ApplyLine, ApplyLines, Malformed;
    var k := FirstMalformed(lines);
    LinesFail(EMPTY, lines, 0, k);
    LinesFail(db, lines, n, k);
  }

  /** Errors of a concatenation: those of `a` as they are, else those of `b` moved down. */
  lemma ConcatErrors(a: string, b: string)
    ensures ParseText(a).Err? ==> ParseText(a + "\n" + b) == ParseText(a)
    ensures ParseText(a).Ok? && ParseText(b).Err? ==>
      ParseText(a + "\n" + b) == Err(Shift(ParseText(b).error, |Lines(a + "\n")|))
  {
    hide ApplyLines, ApplyLine, Lines;
    var la := Lines(a + "\n");
    LinesAppend(a, b);
    ApplyAppend(EMPTY, la, Lines(b), 0);
    FinalNewline(EMPTY, a, 0);
    if ParseText(a).Ok? {
      SameFailure(ParseText(a).value, Lines(b), |la|);
    }
  }

  /** `b` assigns the field last to something undecodable while `a` has a good value. */
  predicate Erases(was: Option<seq<byte>>, lines: seq<string>, name: string) {
    was.Some? && LastHost(lines, name).Some? && HexVec(LastHost(lines, name).value).None?
  }

  /** Merging two databases by preferring a present host value matches parsing the joined text
      if and only if no undecodable assignment in `b` erases a good value of `a`. */
  lemma PreferPresentExact(a: string, b: string, dbA: Db, dbB: Db)
    requires ParseText(a) == Ok(dbA) && ParseText(b) == Ok(dbB)
    ensures ParseText(a + "\n" + b).Ok?
    ensures var db := ParseText(a + "\n" + b).value;
      && (db.hostPrivKey == Or(dbB.hostPrivKey, dbA.hostPrivKey) <==>
            !Erases(dbA.hostPrivKey, Lines(b), "HOST_PRIV_KEY"))
      && (db.hostCert == Or(dbB.hostCert, dbA.hostCert) <==> !Erases(dbA.hostCert, Lines(b), "HOST_CERT"))
  {
    hide ApplyLines, Lines, LastHost, HexVec;
    ConcatParses(a, b, dbA, dbB);
    ContentsExact(b, dbB);
  }
}
