/** A printer for key databases in the layout the repository documents, and the proof that the
    parser inverts it. */
module KeyDbFormat {
  import opened Wrappers
  import opened Bytes
  import opened Text
  import opened KeyDb
  import KeyDbFacts

  /** A record and how it is written: the case and prefix of its hexadecimal values, a trailing
      note, and for a device key whether empty fields are left out. */
  datatype Rec =
    | DiscRec(id: DiscId, title: string, date: string, keys: DiscKeys, note: string, style: HexStyle)
    | PkRec(pk: ProcessingKey, style: HexStyle)
    | DkRec(dk: DeviceKey, omitEmpty: bool, note: string, style: HexStyle)
    | HcRec(privKey: Option<seq<byte>>, cert: Option<seq<byte>>, note: string, style: HexStyle)

  /** No bar and no line break. */
  predicate IsCell(s: string) {
    '|' !in s && '\n' !in s
  }

  /** What the layout can carry: any title (an equals sign included) without bars or line
      breaks, a date without separators, notes without outer blanks. */
  predicate Printable(r: Rec) {
    match r
    case DiscRec(_, title, date, _, note, _) =>
      IsCell(title) && IsCell(date) && Tight(date) && date != "" && ';' !in date && IsCell(note) && Tight(note)
    case PkRec(pk, _) => IsCell(pk.mkbVersions) && Tight(pk.mkbVersions)
    case DkRec(_, _, note, _) => IsCell(note) && Tight(note)
    case HcRec(_, _, note, _) => IsCell(note) && Tight(note)
  }

  function Digits(n: nat): string {
    if n < 10 then ["0123456789"[n]] else Digits(n / 10) + ["0123456789"[n % 10]]
  }

  /** `"n-0xHEX"`, or another spelling of the key. */
  function UnitWord(n: nat, key: Block, style: HexStyle): string {
    Digits(n) + ['-'] + HexText(key, style)
  }

  function UnitWords(keys: seq<Block>, from: nat, style: HexStyle): (ws: seq<string>)
    ensures |ws| == |keys|
  {
    if keys == [] then [] else [UnitWord(from, keys[0], style)] + UnitWords(keys[1..], from + 1, style)
  }

  function Noted(v: string, note: string): string {
    if note == "" then v else v + " ; " + note
  }

  datatype Field = Field(tag: string, val: string)

  function OptField(tag: string, b: Option<Block>, style: HexStyle): seq<Field> {
    if b.Some? then [Field(tag, HexText(b.value, style))] else []
  }

  function UnitField(keys: seq<Block>, style: HexStyle): seq<Field> {
    if keys == [] then [] else [Field("U", Spaced(UnitWords(keys, 1, style)))]
  }

  function KeyFields(k: DiscKeys, style: HexStyle): seq<Field> {
    OptField("M", k.mediaKey, style) + OptField("I", k.volumeId, style) + OptField("V", k.volumeUniqueKey, style)
    + UnitField(k.unitKeys, style)
  }

  /** Tags and values in turn, the note after the last value. */
  function Cells(fields: seq<Field>, note: string): (cells: seq<string>)
    requires fields != []
    ensures |cells| == 2 * |fields|
  {
    if |fields| == 1 then [fields[0].tag, Noted(fields[0].val, note)]
    else [fields[0].tag, fields[0].val] + Cells(fields[1..], note)
  }

  datatype Named = Named(name: string, val: seq<byte>)

  function NamedCell(x: Named, style: HexStyle): string {
    x.name + " " + HexText(x.val, style)
  }

  /** `NAME HEX` for each, the note after the last. */
  function NamedCells(xs: seq<Named>, note: string, style: HexStyle): (cells: seq<string>)
    ensures |cells| == |xs|
  {
    seq(|xs|, i requires 0 <= i < |xs| =>
      if i == |xs| - 1 then Noted(NamedCell(xs[i], style), note) else NamedCell(xs[i], style))
  }

  function OptNamed(name: string, val: seq<byte>, omitEmpty: bool): seq<Named> {
    if omitEmpty && val == [] then [] else [Named(name, val)]
  }

  function DeviceFields(dk: DeviceKey, omitEmpty: bool): seq<Named> {
    [Named("DEVICE_KEY", dk.deviceKey)] + OptNamed("DEVICE_NODE", dk.deviceNode, omitEmpty)
    + OptNamed("KEY_UV", dk.keyUv, omitEmpty) + OptNamed("KEY_U_MASK_SHIFT", dk.keyUMaskShift, omitEmpty)
  }

  function HostFields(privKey: Option<seq<byte>>, cert: Option<seq<byte>>): seq<Named> {
    (if privKey.Some? then [Named("HOST_PRIV_KEY", privKey.value)] else [])
    + (if cert.Some? then [Named("HOST_CERT", cert.value)] else [])
  }

  /** A disc line is told by its prefix, so the id always has one. */
  function IdText(id: DiscId, style: HexStyle): string {
    HexText(id, if style.prefix.Bare? then style.(prefix := Lower0x) else style)
  }

  function Format(r: Rec): string {
    match r
    case DiscRec(id, title, date, keys, note, style) =>
      IdText(id, style) + " " + "=" + Bar([title] + Cells([Field("D", date)] + KeyFields(keys, style), note))
    case PkRec(pk, style) => "|" + Bar(["PK", Noted(HexText(pk.key, style), pk.mkbVersions)])
    case DkRec(dk, omitEmpty, note, style) =>
      "|" + Bar(["DK"] + NamedCells(DeviceFields(dk, omitEmpty), note, style))
    case HcRec(privKey, cert, note, style) => "|" + Bar(["HC"] + NamedCells(HostFields(privKey, cert), note, style))
  }

  function FormatAll(recs: seq<Rec>): string {
    if recs == [] then "" else Format(recs[0]) + "\n" + FormatAll(recs[1..])
  }

  /** What a record means. */
  function ApplyRec(db: Db, r: Rec): Db {
    match r
    case DiscRec(id, _, _, keys, _, _) => db.(discs := db.discs[id := keys])
    case PkRec(pk, _) => db.(processingKeys := db.processingKeys + [pk])
    case DkRec(dk, _, _, _) => db.(deviceKeys := db.deviceKeys + [dk])
    case HcRec(privKey, cert, _, _) =>
      db.(hostPrivKey := Or(privKey, db.hostPrivKey), hostCert := Or(cert, db.hostCert))
  }

  function DbOf(db: Db, recs: seq<Rec>): Db
    decreases |recs|
  {
    if recs == [] then db else DbOf(ApplyRec(db, recs[0]), recs[1..])
  }

  // ---------- cells ----------

  /** A value the parser reads back unchanged. */
  predicate IsValue(s: string) {
    s != "" && Tight(s) && IsCell(s) && ';' !in s
  }

  lemma HexValue(v: seq<byte>, style: HexStyle)
    ensures IsValue(HexText(v, style)) && '=' !in HexText(v, style)
  {
    HexToken(v, style);
    hide HexText;
    forall c | c in HexText(v, style)
      ensures c != '|' && c != '\n' && c != ';' && c != '='
    {
      assert !IsSpace(c);
    }
  }

  lemma NotedReadsBack(v: string, note: string)
    requires IsValue(v) && IsCell(note) && Tight(note)
    ensures var s := Noted(v, note);
      s != "" && Tight(s) && IsCell(s) && FieldValue(s) == v
  {
    var s := Noted(v, note);
    TrimTight(v);
    if note == "" {
      FindAt(v, ';', "");
      assert s[..|s|] == s;
    } else {
      var a, rest := v + " ", " " + note;
      assert s == a + [';'] + rest;
      FindAt(a, ';', rest);
      assert s[..|a|] == a;
      TrimStartEnd(v, ' ');
    }
  }

  // ---------- unit keys ----------

  lemma {:induction false} DigitsPlain(n: nat)
    ensures Digits(n) != "" && forall c <- Digits(n) :: '0' <= c <= '9'
  {
    if n >= 10 { DigitsPlain(n / 10); }
  }

  lemma UnitWordReadsBack(n: nat, key: Block, style: HexStyle)
    ensures var w := UnitWord(n, key, style);
      IsToken(w) && HexBlock(AfterLast(w, '-')) == Some(key)
  {
    hide HexText, HexBlock, AfterLast;
    DigitsPlain(n);
    HexToken(key, style);
    AfterLastAt(Digits(n), HexText(key, style), '-');
    forall c | c in UnitWord(n, key, style)
      ensures !IsSpace(c) && c != '|' && c != ';' && c != '='
    {
      assert c in Digits(n) || c == '-' || c in HexText(key, style);
    }
  }

  lemma {:induction false} UnitWordsReadBack(keys: seq<Block>, from: nat, style: HexStyle)
    ensures var ws := UnitWords(keys, from, style);
      (forall w <- ws :: IsToken(w)) && UnitKeys(ws) == keys
  {
    if keys != [] {
      hide UnitWord, HexBlock, AfterLast, IsToken;
      UnitWordReadsBack(from, keys[0], style);
      UnitWordsReadBack(keys[1..], from + 1, style);
      var ws := UnitWords(keys, from, style);
      assert ws[1..] == UnitWords(keys[1..], from + 1, style);
      assert keys == [keys[0]] + keys[1..];
    }
  }

  lemma {:induction false} SpacedIsValue(ws: seq<string>)
    requires ws != [] && forall w <- ws :: IsToken(w)
    ensures IsValue(Spaced(ws))
  {
    assert ws[0] in ws;
    TokenIsValue(ws[0]);
    if |ws| > 1 {
      SpacedIsValue(ws[1..]);
      var s, rest := Spaced(ws), Spaced(ws[1..]);
      assert s[0] == ws[0][0] && s[|s| - 1] == rest[|rest| - 1];
      assert forall c :: c in s ==> c in ws[0] || c == ' ' || c in rest;
    }
  }

  lemma TokenIsValue(w: string)
    requires IsToken(w)
    ensures IsValue(w)
  {
    assert IsSpace('\n');
    assert forall c :: c in w ==> !IsSpace(c);
    assert w[0] in w && w[|w| - 1] in w;
  }

  // ---------- disc entries ----------

  function Fold(dk: DiscKeys, fields: seq<Field>): DiscKeys
    decreases |fields|
  {
    if fields == [] then dk else Fold(ApplyField(dk, fields[0].tag, fields[0].val), fields[1..])
  }

  predicate Readable(fields: seq<Field>) {
    forall f <- fields :: IsValue(f.val) && IsValue(f.tag)
  }

  lemma {:induction false} CellsReadBack(dk: DiscKeys, fields: seq<Field>, note: string)
    requires fields != [] && Readable(fields) && IsCell(note) && Tight(note)
    ensures ApplyFields(dk, TrimAll(Cells(fields, note))) == Fold(dk, fields)
    ensures forall x <- Cells(fields, note) :: x != "" && Tight(x) && IsCell(x)
    decreases |fields|
  {
    hide ApplyField, IsValue, FieldValue, HexBlock;
    var f := fields[0];
    assert f in fields;
    ValueFacts(f.tag);
    ValueFacts(f.val);
    var cells := Cells(fields, note);
    var v := if |fields| == 1 then Noted(f.val, note) else f.val;
    NotedReadsBack(f.val, note);
    NotedReadsBack(f.val, "");
    TrimTight(f.tag);
    TrimTight(v);
    var rest := if |fields| == 1 then [] else Cells(fields[1..], note);
    assert cells == [f.tag, v] + rest;
    TrimTwo(f.tag, v, rest);
    var trimmed := TrimAll(cells);
    assert trimmed[0] == f.tag && trimmed[1] == v && trimmed[2..] == TrimAll(rest);
    if |fields| == 1 {
      assert fields[1..] == [];
    } else {
      CellsReadBack(ApplyField(dk, f.tag, f.val), fields[1..], note);
    }
  }

  lemma ValueFacts(s: string)
    requires IsValue(s)
    ensures s != "" && Tight(s) && IsCell(s)
  {
  }

  lemma TrimTwo(a: string, b: string, rest: seq<string>)
    ensures TrimAll([a, b] + rest) == [Trim(a), Trim(b)] + TrimAll(rest)
  {
  }

  lemma FoldOpt(dk: DiscKeys, tag: string, b: Option<Block>, style: HexStyle, rest: seq<Field>)
    requires tag == "M" || tag == "I" || tag == "V"
    ensures Fold(dk, OptField(tag, b, style) + rest) ==
      Fold(if tag == "M" then dk.(mediaKey := Or(b, dk.mediaKey))
           else if tag == "I" then dk.(volumeId := Or(b, dk.volumeId))
           else dk.(volumeUniqueKey := Or(b, dk.volumeUniqueKey)), rest)
    ensures Readable(OptField(tag, b, style))
  {
    hide HexBlock, HexText, IsToken;
    TagsAreValues();
    hide IsValue;
    if b.Some? {
      HexToken(b.value, style);
      HexValue(b.value, style);
      var fs := OptField(tag, b, style) + rest;
      assert fs[0] == Field(tag, HexText(b.value, style)) && fs[1..] == rest;
    } else {
      assert [] + rest == rest;
    }
  }

  lemma FoldUnits(dk: DiscKeys, keys: seq<Block>, style: HexStyle)
    ensures Fold(dk, UnitField(keys, style)) == dk.(unitKeys := dk.unitKeys + keys)
    ensures Readable(UnitField(keys, style))
  {
    TagsAreValues();
    hide HexBlock, IsValue, IsToken, Words, UnitKeys, UnitWords;
    if keys != [] {
      UnitWordsReadBack(keys, 1, style);
      WordsSpaced(UnitWords(keys, 1, style));
      SpacedIsValue(UnitWords(keys, 1, style));
      assert UnitField(keys, style)[1..] == [];
    } else {
      assert dk.unitKeys + [] == dk.unitKeys;
    }
  }

  /** The fields of an entry rebuild its keys, unit keys in order. */
  lemma KeyFieldsReadBack(date: string, k: DiscKeys, style: HexStyle)
    requires IsValue(date)
    ensures Fold(NO_KEYS, [Field("D", date)] + KeyFields(k, style)) == k
    ensures Readable([Field("D", date)] + KeyFields(k, style))
  {
    hide HexBlock, IsValue, Fold, UnitField, OptField;
    var u := UnitField(k.unitKeys, style);
    var v := OptField("V", k.volumeUniqueKey, style) + u;
    var i := OptField("I", k.volumeId, style) + v;
    var m := OptField("M", k.mediaKey, style) + i;
    assert KeyFields(k, style) == m;
    TagsAreValues();
    FoldDate(date, m);
    FoldOpt(NO_KEYS, "M", k.mediaKey, style, i);
    var k1 := NO_KEYS.(mediaKey := k.mediaKey);
    FoldOpt(k1, "I", k.volumeId, style, v);
    var k2 := k1.(volumeId := k.volumeId);
    FoldOpt(k2, "V", k.volumeUniqueKey, style, u);
    var k3 := k2.(volumeUniqueKey := k.volumeUniqueKey);
    FoldUnits(k3, k.unitKeys, style);
    assert [] + k.unitKeys == k.unitKeys;
  }

  lemma TagsAreValues()
    ensures IsValue("D") && IsValue("M") && IsValue("I") && IsValue("V") && IsValue("U")
  {
  }

  lemma FoldDate(date: string, rest: seq<Field>)
    ensures Fold(NO_KEYS, [Field("D", date)] + rest) == Fold(NO_KEYS, rest)
  {
    var fs := [Field("D", date)] + rest;
    assert fs[0] == Field("D", date) && fs[1..] == rest;
  }

  // ---------- lines ----------

  /** Joining cells ends where the last cell ends, and adds no line break. */
  lemma {:induction false} BarShape(xs: seq<string>)
    requires xs != [] && (forall x <- xs :: '\n' !in x) && xs[|xs| - 1] != ""
    ensures '\n' !in Bar(xs) && Bar(xs) != ""
    ensures var last := xs[|xs| - 1]; Bar(xs)[|Bar(xs)| - 1] == last[|last| - 1]
  {
    assert xs[0] in xs;
    if |xs| > 1 {
      BarShape(xs[1..]);
      var head := " " + xs[0] + " " + "|";
      assert Bar(xs) == head + Bar(xs[1..]);
    }
  }

  /** A line that the text level hands to the parser unchanged. */
  predicate IsLine(s: string) {
    s != "" && Tight(s) && '\n' !in s
  }

  lemma CellsPlain(xs: seq<string>)
    requires forall x <- xs :: IsCell(x)
    ensures (forall x <- xs :: '\n' !in x) && (forall x <- xs :: '|' !in x)
  {
    forall x | x in xs ensures '\n' !in x && '|' !in x { assert IsCell(x); }
  }

  lemma JoinTight(head: string, tail: string)
    requires head != "" && !IsSpace(head[0]) && '\n' !in head
    requires tail != "" && !IsSpace(tail[|tail| - 1]) && '\n' !in tail
    ensures IsLine(head + tail)
  {
    var s := head + tail;
    assert s[0] == head[0] && s[|s| - 1] == tail[|tail| - 1];
  }

  lemma BarLine(head: string, xs: seq<string>)
    requires head != "" && !IsSpace(head[0]) && '\n' !in head
    requires xs != [] && (forall x <- xs :: IsCell(x)) && Tight(xs[|xs| - 1]) && xs[|xs| - 1] != ""
    ensures IsLine(head + Bar(xs)) && TrimAll(Split(Bar(xs), '|')) == TrimAll(xs)
  {
    hide Bar, Split, TrimAll, IsSpace, IsLine, IsCell;
    CellsPlain(xs);
    BarShape(xs);
    SplitBar(xs);
    JoinTight(head, Bar(xs));
  }

  lemma DiscLineReadsBack(db: Db, r: Rec, n: nat)
    requires r.DiscRec? && Printable(r)
    ensures IsLine(Format(r)) && ApplyLine(db, Format(r), n) == Ok(ApplyRec(db, r))
  {
    hide Cells, ApplyFields, Fold, KeyFields, Bar, HexVec, ApplyLine, DiscEntry, Split, Tight, IsSpace;
    var fields := [Field("D", r.date)] + KeyFields(r.keys, r.style);
    var cells := Cells(fields, r.note);
    var xs := [r.title] + cells;
    KeyFieldsReadBack(r.date, r.keys, r.style);
    CellsReadBack(NO_KEYS, fields, r.note);
    assert xs[|xs| - 1] == cells[|cells| - 1] && cells[|cells| - 1] in cells;
    forall x | x in xs ensures IsCell(x) { assert x == r.title || x in cells; }
    var head := IdText(r.id, r.style) + " ";
    IdHead(r.id, r.style);
    BarLine(head + "=", xs);
    var line := Format(r);
    assert line == head + ['='] + Bar(xs);
    TrimAllCons(r.title, cells);
    assert TrimAll(xs)[1..] == TrimAll(cells);
    EntryOf(line, head, Bar(xs), r.id, n);
    assert IsDiscLine(line) by { assert line[..2] == head[..2]; }
    DiscLineApplies(db, line, n);
  }

  lemma IdHead(id: DiscId, style: HexStyle)
    ensures var head := IdText(id, style) + " ";
      && |head| > 2 && (head[..2] == "0x" || head[..2] == "0X")
      && !IsSpace(head[0]) && '\n' !in head && '=' !in head
      && HexVec(head) == Some(id)
  {
    var st := if style.prefix.Bare? then style.(prefix := Lower0x) else style;
    HexToken(id, st);
    HexValue(id, st);
    hide HexVec, HexEncode;
    PaddedHex(IdText(id, style));
    var text := IdText(id, style);
    assert text[..2] == "0x" || text[..2] == "0X";
  }

  lemma PaddedHex(text: string)
    ensures HexVec(text + " ") == HexVec(text)
  {
    TrimStartEnd(text, ' ');
  }

  lemma EntryOf(line: string, head: string, rest: string, id: DiscId, n: nat)
    requires line == head + ['='] + rest && '=' !in head && HexVec(head) == Some(id)
    ensures DiscEntry(line, n) == Ok((id, ApplyFields(NO_KEYS, TrimAll(Split(rest, '|'))[1..])))
  {
    hide HexVec, ApplyFields, Split;
    FindAt(head, '=', rest);
    assert line[..|head|] == head && line[|head| + 1..] == rest;
  }

  lemma DiscLineApplies(db: Db, line: string, n: nat)
    requires IsLine(line) && IsDiscLine(line) && DiscEntry(line, n).Ok?
    ensures var entry := DiscEntry(line, n).value;
      ApplyLine(db, line, n) == Ok(db.(discs := db.discs[entry.0 := entry.1]))
  {
    hide DiscEntry;
    TrimTight(line);
    assert line[0] == '0';
  }

  lemma GlobalLineApplies(db: Db, line: string, n: nat)
    requires IsLine(line) && line[0] == '|'
    ensures ApplyLine(db, line, n) == Ok(ApplyGlobal(db, line))
  {
    hide DiscEntry, ApplyGlobal;
    TrimTight(line);
  }

  /** A line `| x | y | ...` splits into an empty cell and the trimmed `x`, `y`, ... */
  lemma GlobalLine(db: Db, xs: seq<string>, n: nat)
    requires xs != [] && (forall x <- xs :: IsCell(x) && Tight(x) && x != "")
    ensures var line := "|" + Bar(xs);
      && IsLine(line)
      && TrimAll(Split(line, '|')) == [""] + xs
      && ApplyLine(db, line, n) == Ok(ApplyGlobal(db, line))
  {
    hide ApplyLine, ApplyGlobal, Bar, Split, Trim;
    var line := "|" + Bar(xs);
    assert xs[|xs| - 1] in xs;
    BarIsSpaceFree();
    BarLine("|", xs);
    EmptyTight();
    assert line == "" + ['|'] + Bar(xs);
    SplitAt("", '|', Bar(xs));
    TrimAllCons("", Split(Bar(xs), '|'));
    AllTight(xs);
    GlobalLineApplies(db, line, n);
  }

  lemma BarIsSpaceFree()
    ensures !IsSpace('|')
  {
  }

  lemma EmptyTight()
    ensures Trim("") == ""
  {
  }

  lemma AllTight(xs: seq<string>)
    requires forall x <- xs :: Tight(x)
    ensures TrimAll(xs) == xs
  {
    forall i | 0 <= i < |xs| ensures Trim(xs[i]) == xs[i] {
      assert xs[i] in xs;
      TrimTight(xs[i]);
    }
  }

  lemma PkLineReadsBack(db: Db, r: Rec, n: nat)
    requires r.PkRec? && Printable(r)
    ensures IsLine(Format(r)) && ApplyLine(db, Format(r), n) == Ok(ApplyRec(db, r))
  {
    hide Bar, HexBlock, HexVec, HexText, Noted, Tight, IsSpace, PkRecord, ApplyLine, Split;
    PkTight();
    var v, note := HexText(r.pk.key, r.style), r.pk.mkbVersions;
    HexToken(r.pk.key, r.style);
    HexValue(r.pk.key, r.style);
    NotedReadsBack(v, note);
    var xs := ["PK", Noted(v, note)];
    GlobalLine(db, xs, n);
    var segs := [""] + xs;
    assert segs[1] == "PK" && segs[2] == Noted(v, note);
    PkRecordReadsBack(segs, r.pk, r.style);
  }

  lemma PkTight()
    ensures Tight("PK") && IsCell("PK")
  {
  }

  lemma PkRecordReadsBack(segs: seq<string>, pk: ProcessingKey, style: HexStyle)
    requires |segs| > 2 && segs[2] == Noted(HexText(pk.key, style), pk.mkbVersions)
    requires IsCell(pk.mkbVersions) && Tight(pk.mkbVersions)
    ensures PkRecord(segs) == [pk]
  {
    hide HexText, HexVec, PkRecord;
    var v, note := HexText(pk.key, style), pk.mkbVersions;
    HexToken(pk.key, style);
    HexValue(pk.key, style);
    if note == "" {
      KeyDbFacts.ProcessingKeyExact(segs, v, "");
    } else {
      assert segs[2] == (v + " ") + [';'] + (" " + note);
      KeyDbFacts.ProcessingKeyExact(segs, v + " ", " " + note);
      PaddedHex(v);
      TrimPadded(note);
      TrimTight(note);
    }
  }

  /** `NAME HEX`, with or without a note, reads back as its two words. */
  lemma NamedReadsBack(x: Named, note: string, style: HexStyle)
    requires IsToken(x.name) && IsCell(note) && Tight(note)
    ensures var s := Noted(NamedCell(x, style), note);
      && IsCell(s) && Tight(s) && s != ""
      && Word(s, 0) == x.name && Word(s, 1) == HexText(x.val, style)
  {
    hide HexText, HexVec, HexBlock, IsSpace, IsToken;
    var hex := HexText(x.val, style);
    HexToken(x.val, style);
    NamedToken(x.name, hex);
    if note != "" {
      NotedReadsBack(NamedCell(x, style), note);
      NotedWords(x.name, hex, note);
    }
  }

  lemma NotedWords(name: string, v: string, note: string)
    requires IsToken(name) && IsToken(v)
    ensures var s := name + " " + v + " ; " + note;
      Word(s, 0) == name && Word(s, 1) == v
  {
    hide IsSpace, IsToken, Words;
    TokenWord(name);
    TokenWord(v);
    WordsCons(name, v + " " + ("; " + note));
    WordsCons(v, "; " + note);
    assert name + " " + v + " ; " + note == name + " " + (v + " " + ("; " + note));
  }

  lemma TokenWord(w: string)
    requires IsToken(w)
    ensures w != [] && forall c <- w :: !IsSpace(c)
  {
  }

  /** The last value of a name. */
  function LastNamed(xs: seq<Named>, name: string): Option<seq<byte>> {
    if xs == [] then None
    else
      var last := xs[|xs| - 1];
      if last.name == name then Some(last.val) else LastNamed(xs[..|xs| - 1], name)
  }

  lemma {:induction false} LastNamedAppend(a: seq<Named>, b: seq<Named>, name: string)
    ensures LastNamed(a + b, name) == Or(LastNamed(b, name), LastNamed(a, name))
  {
    if b == [] {
      assert a + b == a;
    } else {
      assert (a + b)[..|a + b| - 1] == a + b[..|b| - 1];
      LastNamedAppend(a, b[..|b| - 1], name);
    }
  }

  lemma LastNamedOne(x: Named, name: string)
    ensures LastNamed([x], name) == if x.name == name then Some(x.val) else None
    ensures LastNamed([], name) == None
  {
  }

  function Spelled(v: Option<seq<byte>>, style: HexStyle): Option<string> {
    if v.Some? then Some(HexText(v.value, style)) else None
  }

  lemma {:induction false} LastNamedValue(cells: seq<string>, xs: seq<Named>, style: HexStyle, name: string)
    requires |cells| == |xs|
    requires forall i :: 0 <= i < |xs| ==>
      Word(cells[i], 0) == xs[i].name && Word(cells[i], 1) == HexText(xs[i].val, style)
    ensures LastValue(cells, name) == Spelled(LastNamed(xs, name), style)
  {
    hide Word, HexText;
    if xs != [] { LastNamedValue(cells[..|cells| - 1], xs[..|xs| - 1], style, name); }
  }

  /** The cells of named values read back: each name's last value. */
  lemma NamedCellsReadBack(xs: seq<Named>, note: string, style: HexStyle, name: string)
    requires (forall x <- xs :: IsToken(x.name)) && IsCell(note) && Tight(note)
    ensures forall s <- NamedCells(xs, note, style) :: IsCell(s) && Tight(s) && s != ""
    ensures LastValue(NamedCells(xs, note, style), name) == Spelled(LastNamed(xs, name), style)
    ensures Decoded(LastValue(NamedCells(xs, note, style), name)) == LastNamed(xs, name)
  {
    hide Word, HexText, HexVec, IsToken, Tight, IsCell, NamedCell, Noted, LastValue, LastNamed;
    var cells := NamedCells(xs, note, style);
    NoNote();
    forall i | 0 <= i < |xs|
      ensures IsCell(cells[i]) && Tight(cells[i]) && cells[i] != ""
      ensures Word(cells[i], 0) == xs[i].name && Word(cells[i], 1) == HexText(xs[i].val, style)
    {
      assert xs[i] in xs;
      NamedReadsBack(xs[i], note, style);
      NamedReadsBack(xs[i], "", style);
      NotedNothing(NamedCell(xs[i], style));
    }
    LastNamedValue(cells, xs, style, name);
    if LastNamed(xs, name).Some? { HexToken(LastNamed(xs, name).value, style); }
  }

  lemma NoNote()
    ensures IsCell("") && Tight("")
  {
  }

  lemma NotedNothing(v: string)
    ensures Noted(v, "") == v
  {
  }

  lemma DeviceNamesAreTokens()
    ensures IsToken("DEVICE_KEY") && IsToken("DEVICE_NODE")
    ensures IsToken("KEY_UV") && IsToken("KEY_U_MASK_SHIFT")
  {
  }

  lemma HostNamesAreTokens()
    ensures IsToken("HOST_PRIV_KEY") && IsToken("HOST_CERT")
  {
  }

  lemma NamesAreTokens()
    ensures IsToken("DEVICE_KEY") && IsToken("DEVICE_NODE") && IsToken("KEY_UV") && IsToken("KEY_U_MASK_SHIFT")
    ensures IsToken("HOST_PRIV_KEY") && IsToken("HOST_CERT")
  {
    hide IsToken;
    DeviceNamesAreTokens();
    HostNamesAreTokens();
  }

  lemma LastValueSnoc(fields: seq<string>, seg: string, name: string)
    ensures LastValue(fields + [seg], name) ==
      if Word(seg, 0) == name then Some(Word(seg, 1)) else LastValue(fields, name)
  {
    assert (fields + [seg])[..|fields|] == fields;
  }

  lemma DkLineReadsBack(db: Db, r: Rec, n: nat)
    requires r.DkRec? && Printable(r)
    ensures IsLine(Format(r)) && ApplyLine(db, Format(r), n) == Ok(ApplyRec(db, r))
  {
    hide Bar, HexBlock, HexVec, Word, IsToken, Tight, IsCell, NamedCells, DeviceFields, DkRecord, LastValue;
    var fields := DeviceFields(r.dk, r.omitEmpty);
    var cells := NamedCells(fields, r.note, r.style);
    var xs := ["DK"] + cells;
    DeviceNames(r.dk, r.omitEmpty);
    NamedCellsReadBack(fields, r.note, r.style, "");
    TightTags();
    forall x | x in xs ensures IsCell(x) && Tight(x) && x != "" { assert x == "DK" || x in cells; }
    GlobalLine(db, xs, n);
    var segs := [""] + xs;
    assert segs[2..] == cells && segs[1] == "DK";
    DkRecordReadsBack(r.dk, r.omitEmpty, r.note, r.style);
  }

  lemma TightTags()
    ensures Tight("DK") && IsCell("DK") && Tight("HC") && IsCell("HC")
  {
  }

  lemma DeviceNames(dk: DeviceKey, omitEmpty: bool)
    ensures forall x <- DeviceFields(dk, omitEmpty) :: IsToken(x.name)
  {
    NamesAreTokens();
    hide IsToken;
    forall x | x in DeviceFields(dk, omitEmpty)
      ensures x.name in {"DEVICE_KEY", "DEVICE_NODE", "KEY_UV", "KEY_U_MASK_SHIFT"}
    {
    }
  }

  lemma OptNamedLast(name: string, val: seq<byte>, omitEmpty: bool, other: string)
    ensures LastNamed(OptNamed(name, val, omitEmpty), other)
            == if other == name && !(omitEmpty && val == []) then Some(val) else None
  {
    LastNamedOne(Named(name, val), other);
  }

  /** Among the fields of a device key each name has its own value, unless left out. */
  lemma DeviceFieldsLast(dk: DeviceKey, omitEmpty: bool, name: string)
    ensures LastNamed(DeviceFields(dk, omitEmpty), name) ==
      if name == "DEVICE_KEY" then Some(dk.deviceKey)
      else
        var v := if name == "DEVICE_NODE" then dk.deviceNode
                 else if name == "KEY_UV" then dk.keyUv else dk.keyUMaskShift;
        if name in {"DEVICE_NODE", "KEY_UV", "KEY_U_MASK_SHIFT"} && !(omitEmpty && v == []) then Some(v) else None
  {
    hide LastNamed, OptNamed;
    var a := [Named("DEVICE_KEY", dk.deviceKey)];
    var b, c := OptNamed("DEVICE_NODE", dk.deviceNode, omitEmpty), OptNamed("KEY_UV", dk.keyUv, omitEmpty);
    var d := OptNamed("KEY_U_MASK_SHIFT", dk.keyUMaskShift, omitEmpty);
    LastNamedAppend(a + b + c, d, name);
    LastNamedAppend(a + b, c, name);
    LastNamedAppend(a, b, name);
    LastNamedOne(a[0], name);
    OptNamedLast("DEVICE_NODE", dk.deviceNode, omitEmpty, name);
    OptNamedLast("KEY_UV", dk.keyUv, omitEmpty, name);
    OptNamedLast("KEY_U_MASK_SHIFT", dk.keyUMaskShift, omitEmpty, name);
  }

  lemma DkRecordReadsBack(dk: DeviceKey, omitEmpty: bool, note: string, style: HexStyle)
    requires IsCell(note) && Tight(note)
    ensures KeyDb.DkRecord(NamedCells(DeviceFields(dk, omitEmpty), note, style)) == [dk]
  {
    hide HexBlock, HexVec, HexText, IsToken, Tight, IsCell, NamedCells, DeviceFields, LastNamed, LastValue;
    var fields := DeviceFields(dk, omitEmpty);
    DeviceNames(dk, omitEmpty);
    NamedCellsReadBack(fields, note, style, "DEVICE_KEY");
    NamedCellsReadBack(fields, note, style, "DEVICE_NODE");
    NamedCellsReadBack(fields, note, style, "KEY_UV");
    NamedCellsReadBack(fields, note, style, "KEY_U_MASK_SHIFT");
    DeviceFieldsLast(dk, omitEmpty, "DEVICE_KEY");
    DeviceFieldsLast(dk, omitEmpty, "DEVICE_NODE");
    DeviceFieldsLast(dk, omitEmpty, "KEY_UV");
    DeviceFieldsLast(dk, omitEmpty, "KEY_U_MASK_SHIFT");
    HexToken(dk.deviceKey, style);
  }

  lemma HcLineReadsBack(db: Db, r: Rec, n: nat)
    requires r.HcRec? && Printable(r)
    ensures IsLine(Format(r)) && ApplyLine(db, Format(r), n) == Ok(ApplyRec(db, r))
  {
    hide Bar, HexVec, Word, IsToken, Tight, IsCell, Assigned, NamedCells, HostFields, LastValue;
    var fields := HostFields(r.privKey, r.cert);
    var cells := NamedCells(fields, r.note, r.style);
    var xs := ["HC"] + cells;
    HostNames(r.privKey, r.cert);
    NamedCellsReadBack(fields, r.note, r.style, "");
    TightTags();
    forall x | x in xs ensures IsCell(x) && Tight(x) && x != "" { assert x == "HC" || x in cells; }
    GlobalLine(db, xs, n);
    var segs := [""] + xs;
    assert segs[2..] == cells && segs[1] == "HC";
    HostReadsBack(db.hostPrivKey, r, "HOST_PRIV_KEY", r.privKey);
    HostReadsBack(db.hostCert, r, "HOST_CERT", r.cert);
  }

  lemma HostNames(privKey: Option<seq<byte>>, cert: Option<seq<byte>>)
    ensures forall x <- HostFields(privKey, cert) :: IsToken(x.name)
  {
    NamesAreTokens();
    hide IsToken;
  }

  lemma HostReadsBack(was: Option<seq<byte>>, r: Rec, name: string, v: Option<seq<byte>>)
    requires r.HcRec? && Printable(r)
    requires (name == "HOST_PRIV_KEY" && v == r.privKey) || (name == "HOST_CERT" && v == r.cert)
    ensures Assigned(was, NamedCells(HostFields(r.privKey, r.cert), r.note, r.style), name) == Or(v, was)
  {
    hide HexVec, HexText, IsToken, Tight, IsCell, NamedCells, LastNamed, LastValue;
    var p := if r.privKey.Some? then [Named("HOST_PRIV_KEY", r.privKey.value)] else [];
    var q := if r.cert.Some? then [Named("HOST_CERT", r.cert.value)] else [];
    HostNames(r.privKey, r.cert);
    NamedCellsReadBack(HostFields(r.privKey, r.cert), r.note, r.style, name);
    LastNamedAppend(p, q, name);
    if r.privKey.Some? { LastNamedOne(p[0], name); }
    if r.cert.Some? { LastNamedOne(q[0], name); }
    LastNamedOne(Named("", []), name);
  }

  // ---------- whole texts ----------

  lemma LineReadsBack(db: Db, r: Rec, n: nat)
    requires Printable(r)
    ensures IsLine(Format(r)) && ApplyLine(db, Format(r), n) == Ok(ApplyRec(db, r))
  {
    match r
    case DiscRec(_, _, _, _, _, _) => DiscLineReadsBack(db, r, n);
    case PkRec(_, _) => PkLineReadsBack(db, r, n);
    case DkRec(_, _, _, _) => DkLineReadsBack(db, r, n);
    case HcRec(_, _, _, _) => HcLineReadsBack(db, r, n);
  }

  lemma NoCr(s: string)
    requires IsLine(s)
    ensures DropCr(s) == s
  {
  }

  lemma {:induction false} LinesReadBack(db: Db, recs: seq<Rec>, n: nat)
    requires forall r <- recs :: Printable(r)
    ensures ApplyLines(db, Lines(FormatAll(recs)), n) == Ok(DbOf(db, recs))
    decreases |recs|
  {
    hide Format, ApplyLine, ApplyRec, Printable;
    if recs != [] {
      var r := recs[0];
      assert r in recs;
      LineReadsBack(db, r, n);
      NoCr(Format(r));
      LinesAt(Format(r), FormatAll(recs[1..]));
      LinesReadBack(ApplyRec(db, r), recs[1..], n + 1);
    }
  }

  /** Round trip: printing any printable records and parsing the text gives back exactly the
      database they describe: every key, the order of unit keys and of records, note texts,
      later entries over earlier ones. */
  lemma ParseInvertsFormat(recs: seq<Rec>)
    requires forall r <- recs :: Printable(r)
    ensures ParseText(FormatAll(recs)) == Ok(DbOf(EMPTY, recs))
  {
    LinesReadBack(EMPTY, recs, 0);
  }

  /** With distinct ids, each disc's own keys are found under its id. */
  lemma {:induction false} EveryDiscIsFound(db: Db, recs: seq<Rec>, i: nat)
    requires i < |recs| && recs[i].DiscRec?
    requires forall j :: i < j < |recs| && recs[j].DiscRec? ==> recs[j].id != recs[i].id
    ensures recs[i].id in DbOf(db, recs).discs && DbOf(db, recs).discs[recs[i].id] == recs[i].keys
    decreases |recs|
  {
    if i > 0 {
      EveryDiscIsFound(ApplyRec(db, recs[0]), recs[1..], i - 1);
    } else {
      KeptByOthers(ApplyRec(db, recs[0]), recs[1..], recs[0].id);
    }
  }

  lemma {:induction false} KeptByOthers(db: Db, recs: seq<Rec>, id: DiscId)
    requires id in db.discs && forall r <- recs :: r.DiscRec? ==> r.id != id
    ensures id in DbOf(db, recs).discs && DbOf(db, recs).discs[id] == db.discs[id]
    decreases |recs|
  {
    if recs != [] {
      assert recs[0] in recs;
      KeptByOthers(ApplyRec(db, recs[0]), recs[1..], id);
    }
  }

  lemma {:induction false} NeverAdded(db: Db, recs: seq<Rec>, id: DiscId)
    requires id !in db.discs && forall r <- recs :: r.DiscRec? ==> r.id != id
    ensures id !in DbOf(db, recs).discs
    decreases |recs|
  {
    if recs != [] {
      assert recs[0] in recs;
      NeverAdded(ApplyRec(db, recs[0]), recs[1..], id);
    }
  }

  /** Lookup in a parsed database: under each id the keys of the last entry printed for it, and
      nothing under an id no entry has. */
  lemma LookupExact(store: KeyStore, recs: seq<Rec>, id: DiscId)
    requires forall r <- recs :: Printable(r)
    requires ParseText(FormatAll(recs)) == Ok(store.View())
    ensures forall i: nat ::
      i < |recs| && recs[i].DiscRec? && recs[i].id == id
      && (forall j :: i < j < |recs| && recs[j].DiscRec? ==> recs[j].id != id) ==>
        store.Disc(id) == Some(recs[i].keys)
    ensures (forall r <- recs :: r.DiscRec? ==> r.id != id) ==> store.Disc(id) == None
  {
    hide Printable, ParseText, FormatAll, DbOf;
    ParseInvertsFormat(recs);
    forall i: nat
      | i < |recs| && recs[i].DiscRec? && recs[i].id == id
        && (forall j :: i < j < |recs| && recs[j].DiscRec? ==> recs[j].id != id)
      ensures store.Disc(id) == Some(recs[i].keys)
    {
      EveryDiscIsFound(EMPTY, recs, i);
    }
    if forall r <- recs :: r.DiscRec? ==> r.id != id { NeverAdded(EMPTY, recs, id); }
  }

  /** The erasing texts of `KeyDbFacts.Erases` exist: one HC record with any undecodable token,
      `"z"` for one. */
  lemma ErasingText(v: string)
    requires IsToken(v) && HexVec(v).None?
    ensures var text := "|" + Bar(["HC", "HOST_CERT" + " " + v]);
      ParseText(text).Ok? && KeyDbFacts.LastHost(Lines(text), "HOST_CERT") == Some(v)
    ensures IsToken("z") && HexVec("z").None?
  {
    hide Bar, HexVec, Word, IsToken, Tight, IsSpace, ApplyGlobal, Split, IsCell, TrimAll;
    var cell := "HOST_CERT" + " " + v;
    var xs := ["HC", cell];
    var text := "|" + Bar(xs);
    NamesAreTokens();
    TightTags();
    NamedToken("HOST_CERT", v);
    GlobalLine(EMPTY, xs, 0);
    OneLine(text);
    assert ([""] + xs)[2..] == [cell];
    KeyDbFacts.OneRecord(text, [""] + xs);
    LastValueSnoc([], cell, "HOST_CERT");
    assert [] + [cell] == [cell];
    OneLineParses(text, ApplyGlobal(EMPTY, text));
    NotHex();
  }

  lemma OneLineParses(text: string, db: Db)
    requires Lines(text) == [text] && ApplyLine(EMPTY, text, 0) == Ok(db)
    ensures ParseText(text) == Ok(db)
  {
    hide ApplyLine, Lines;
    var lines := [text];
    assert lines[1..] == [] && ApplyLines(db, [], 1) == Ok(db);
    assert ApplyLines(EMPTY, lines, 0) == Ok(db);
  }

  lemma NotHex()
    ensures IsToken("z") && HexVec("z").None?
  {
    TrimTight("z");
  }

  lemma OneLine(s: string)
    requires IsLine(s)
    ensures Lines(s) == [s] && Trim(s) == s
  {
    FindAt(s, '\n', "");
    TrimTight(s);
  }

  lemma NamedToken(name: string, v: string)
    requires IsToken(name) && IsToken(v)
    ensures var s := name + " " + v;
      IsValue(s) && IsCell(s) && Tight(s) && s != "" && Word(s, 0) == name && Word(s, 1) == v
  {
    var ws := [name, v];
    assert ws[1..] == [v];
    WordsSpaced(ws);
    SpacedIsValue(ws);
    assert Spaced(ws) == name + " " + v;
  }
}
