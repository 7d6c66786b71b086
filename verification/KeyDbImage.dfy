/** Which databases the parser can produce at all: the converse of its round trip with the
    printer. */
module KeyDbImage {
  import opened Wrappers
  import opened Text
  import opened KeyDb
  import opened KeyDbFormat

  /** What no text can get around: a note has no bar, no line break and no outer blanks. */
  predicate Carriable(db: Db) {
    forall pk <- db.processingKeys :: IsCell(pk.mkbVersions) && Tight(pk.mkbVersions)
  }

  // ---------- every parsed database is carriable ----------

  lemma TrimKeepsOut(s: string, c: char)
    requires c !in s
    ensures c !in Trim(s)
  {
    var pre, post := TrimExact(s);
    assert forall x <- Trim(s) :: x in pre + Trim(s) + post;
  }

  lemma {:induction false} SplitKeepsOut(s: string, sep: char, c: char)
    requires c !in s
    ensures forall seg <- Split(s, sep) :: c !in seg
    decreases |s|
  {
    var i := Find(s, sep);
    if i < |s| { SplitKeepsOut(s[i + 1..], sep, c); }
  }

  lemma {:induction false} LinesAreUnbroken(s: string)
    ensures forall line <- Lines(s) :: '\n' !in line
    decreases |s|
  {
    var i := Find(s, '\n');
    if s != "" {
      if i < |s| {
        LinesAreUnbroken(s[i + 1..]);
        assert '\n' !in DropCr(s[..i]);
      } else {
        assert s[..i] == s;
      }
    }
  }

  /** The cells of a line hold no bar and no line break. */
  lemma CellsOfLine(line: string)
    requires '\n' !in line
    ensures forall seg <- TrimAll(Split(line, '|')) :: IsCell(seg)
  {
    hide Trim, Split;
    SplitExact(line, '|');
    SplitKeepsOut(line, '|', '\n');
    var segs := Split(line, '|');
    forall i | 0 <= i < |segs|
      ensures IsCell(Trim(segs[i]))
    {
      assert segs[i] in segs;
      TrimKeepsOut(segs[i], '|');
      TrimKeepsOut(segs[i], '\n');
    }
  }

  lemma NoteIsTightCell(segs: seq<string>)
    requires forall seg <- segs :: IsCell(seg)
    ensures forall pk <- PkRecord(segs) :: IsCell(pk.mkbVersions) && Tight(pk.mkbVersions)
  {
    hide Trim, HexBlock;
    var seg := if 2 < |segs| then segs[2] else "";
    assert IsCell(seg);
    var semi := Find(seg, ';');
    if semi < |seg| {
      var note := seg[semi + 1..];
      TrimKeepsOut(note, '|');
      TrimKeepsOut(note, '\n');
      TrimIsTight(note);
    }
  }

  lemma GlobalStaysCarriable(db: Db, line: string)
    requires Carriable(db) && '\n' !in line
    ensures Carriable(ApplyGlobal(db, line))
  {
    hide PkRecord, DkRecord, Assigned, IsCell, Tight;
    CellsOfLine(line);
    NoteIsTightCell(TrimAll(Split(line, '|')));
  }

  lemma LineStaysCarriable(db: Db, raw: string, n: nat)
    requires Carriable(db) && '\n' !in raw && ApplyLine(db, raw, n).Ok?
    ensures Carriable(ApplyLine(db, raw, n).value)
  {
    hide Trim, ApplyGlobal, DiscEntry, IsCell, Tight;
    TrimKeepsOut(raw, '\n');
    GlobalStaysCarriable(db, Trim(raw));
  }

  lemma {:induction false} LinesStayCarriable(db: Db, lines: seq<string>, n: nat)
    requires Carriable(db) && (forall line <- lines :: '\n' !in line) && ApplyLines(db, lines, n).Ok?
    ensures Carriable(ApplyLines(db, lines, n).value)
    decreases |lines|
  {
    hide ApplyLine, Carriable;
    if lines != [] {
      assert lines[0] in lines;
      LineStaysCarriable(db, lines[0], n);
      LinesStayCarriable(ApplyLine(db, lines[0], n).value, lines[1..], n + 1);
    }
  }

  // ---------- every carriable database is printed by some records ----------

  lemma {:induction false} DbOfAppend(db: Db, a: seq<Rec>, b: seq<Rec>)
    ensures DbOf(db, a + b) == DbOf(DbOf(db, a), b)
    decreases |a|
  {
    hide ApplyRec;
    if a == [] {
      assert a + b == b;
    } else {
      assert (a + b)[1..] == a[1..] + b;
      DbOfAppend(ApplyRec(db, a[0]), a[1..], b);
    }
  }

  /** The plainest entry that carries an id and its keys. */
  function PlainEntry(id: DiscId, keys: DiscKeys): (r: Rec)
    ensures Printable(r)
  {
    assert !IsSpace('-');
    DiscRec(id, "", "-", keys, "", PLAIN)
  }

  lemma MergeOne<K, V>(a: map<K, V>, m: map<K, V>, k: K)
    requires k in m
    ensures a[k := m[k]] + (m - {k}) == a + m && |m - {k}| < |m|
  {
    var rest := m - {k};
    assert rest.Keys == m.Keys - {k};
    assert m == rest[k := m[k]];
  }

  lemma DbOfCons(db: Db, r: Rec, rest: seq<Rec>)
    ensures DbOf(db, [r] + rest) == DbOf(ApplyRec(db, r), rest)
  {
    hide ApplyRec;
    assert ([r] + rest)[1..] == rest;
  }

  lemma {:induction false} DiscRecords(db: Db, discs: map<DiscId, DiscKeys>) returns (recs: seq<Rec>)
    ensures forall r <- recs :: Printable(r)
    ensures DbOf(db, recs) == db.(discs := db.discs + discs)
    decreases |discs|
  {
    hide Printable;
    if discs == map[] {
      recs := [];
      assert db.discs + discs == db.discs;
    } else {
      hide DbOf;
      var id :| id in discs;
      var r := PlainEntry(id, discs[id]);
      MergeOne(db.discs, discs, id);
      var more := DiscRecords(ApplyRec(db, r), discs - {id});
      DbOfCons(db, r, more);
      recs := [r] + more;
    }
  }

  function PkRecords(pks: seq<ProcessingKey>): seq<Rec> {
    if pks == [] then [] else [PkRec(pks[0], PLAIN)] + PkRecords(pks[1..])
  }

  lemma {:induction false} PkRecordsCarry(db: Db, pks: seq<ProcessingKey>)
    requires forall pk <- pks :: IsCell(pk.mkbVersions) && Tight(pk.mkbVersions)
    ensures forall r <- PkRecords(pks) :: Printable(r)
    ensures DbOf(db, PkRecords(pks)) == db.(processingKeys := db.processingKeys + pks)
    decreases |pks|
  {
    hide IsCell, Tight;
    if pks == [] {
      assert db.processingKeys + pks == db.processingKeys;
    } else {
      var db' := ApplyRec(db, PkRec(pks[0], PLAIN));
      assert pks[0] in pks;
      PkRecordsCarry(db', pks[1..]);
      assert db'.processingKeys + pks[1..] == db.processingKeys + pks;
    }
  }

  function DkRecords(dks: seq<DeviceKey>): seq<Rec> {
    if dks == [] then [] else [DkRec(dks[0], false, "", PLAIN)] + DkRecords(dks[1..])
  }

  lemma {:induction false} DkRecordsCarry(db: Db, dks: seq<DeviceKey>)
    ensures forall r <- DkRecords(dks) :: Printable(r)
    ensures DbOf(db, DkRecords(dks)) == db.(deviceKeys := db.deviceKeys + dks)
    decreases |dks|
  {
    if dks == [] {
      assert db.deviceKeys + dks == db.deviceKeys;
    } else {
      var db' := ApplyRec(db, DkRec(dks[0], false, "", PLAIN));
      DkRecordsCarry(db', dks[1..]);
      assert db'.deviceKeys + dks[1..] == db.deviceKeys + dks;
    }
  }

  lemma RecordsOf(db: Db) returns (recs: seq<Rec>)
    requires Carriable(db)
    ensures (forall r <- recs :: Printable(r)) && DbOf(EMPTY, recs) == db
  {
    hide Printable, DbOf;
    var discs := DiscRecords(EMPTY, db.discs);
    var a := DbOf(EMPTY, discs);
    assert EMPTY.discs + db.discs == db.discs;
    var pks := PkRecords(db.processingKeys);
    PkRecordsCarry(a, db.processingKeys);
    assert a.processingKeys + db.processingKeys == db.processingKeys;
    var b := DbOf(a, pks);
    var dks := DkRecords(db.deviceKeys);
    DkRecordsCarry(b, db.deviceKeys);
    assert b.deviceKeys + db.deviceKeys == db.deviceKeys;
    var c := DbOf(b, dks);
    var host := HcRec(db.hostPrivKey, db.hostCert, "", PLAIN);
    HostCarries(c, host);
    DbOfAppend(b, dks, [host]);
    DbOfAppend(a, pks, dks + [host]);
    DbOfAppend(EMPTY, discs, pks + (dks + [host]));
    recs := discs + (pks + (dks + [host]));
  }

  lemma HostCarries(db: Db, r: Rec)
    requires r.HcRec? && r.note == ""
    ensures Printable(r) && DbOf(db, [r]) == ApplyRec(db, r)
  {
    assert [r][1..] == [];
  }

  // ---------- exactly ----------

  lemma EmptyIsCarriable()
    ensures Carriable(EMPTY)
  {
  }

  lemma ParsedIsCarriable(text: string)
    requires ParseText(text).Ok?
    ensures Carriable(ParseText(text).value)
  {
    hide Carriable;
    LinesAreUnbroken(text);
    EmptyIsCarriable();
    LinesStayCarriable(EMPTY, Lines(text), 0);
  }

  /** Every parsed database is what some printable records describe, so printing those and
      parsing again changes nothing: nothing that was read is beyond the printer. */
  lemma ReprintReparse(text: string) returns (recs: seq<Rec>)
    requires ParseText(text).Ok?
    ensures forall r <- recs :: Printable(r)
    ensures ParseText(text) == Ok(DbOf(EMPTY, recs)) == ParseText(FormatAll(recs))
  {
    hide Printable, DbOf, Carriable;
    ParsedIsCarriable(text);
    recs := RecordsOf(ParseText(text).value);
    ParseInvertsFormat(recs);
  }

  /** A database is the parse of some text if and only if its notes have no bar, no line break
      and no outer blanks. */
  lemma ImageExact(db: Db)
    ensures (exists text: string :: ParseText(text) == Ok(db)) <==> Carriable(db)
  {
    hide ParseText, Printable, DbOf, Carriable;
    forall text: string | ParseText(text) == Ok(db)
      ensures Carriable(db)
    {
      ParsedIsCarriable(text);
    }
    if Carriable(db) {
      var recs := RecordsOf(db);
      ParseInvertsFormat(recs);
    }
  }
}
