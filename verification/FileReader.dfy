/** `FileUnitIter` of crates/freeblue-read/src/lib.rs: whole units out of arbitrary short reads. */
module FileReader {
  import opened Wrappers
  import opened Bytes
  import opened Content
  import opened UnitStream

  /** How one `read` call behaves: it moves at most `max` bytes (at least one before the end of
      the file), it is interrupted, or it fails for good. */
  datatype ReadOutcome = Chunk(max: nat) | Interrupted | Hard(error: IoError)

  datatype FileData = FileData(content: seq<byte>, outcome: nat -> ReadOutcome, quiet: nat)

  /** A file, and a schedule for the reads of it in which interruptions stop at some point
      (under endless interruptions the source retries for ever). */
  type FileEnv = f: FileData | forall i: nat :: f.quiet <= i ==> !f.outcome(i).Interrupted?
    witness FileData([], _ => Chunk(1), 0)

  datatype State = State(pos: nat, calls: nat)

  /** Bytes moved by a `Chunk` read into a buffer with room for `room` bytes. */
  function Moved(f: FileEnv, pos: nat, max: nat, room: nat): (n: nat)
    requires pos <= |f.content|
    ensures n <= room && pos + n <= |f.content|
    ensures n == 0 <==> room == 0 || pos == |f.content|
  {
    var want := if max == 0 then 1 else max;
    var left := |f.content| - pos;
    var n := if want < room then want else room;
    if n < left then n else left
  }

  class File {
    const env: FileEnv
    var pos: nat
    var calls: nat

    ghost predicate Valid()
      reads this
    {
      pos <= |env.content|
    }

    constructor (env: FileEnv)
      ensures Valid() && this.env == env && pos == 0 && calls == 0
    {
      this.env := env;
      pos, calls := 0, 0;
    }

    /** `read(&mut buf[filled..])`. */
    method Read(buf: array<byte>, filled: nat) returns (out: ReadOutcome, n: nat)
      requires Valid() && filled <= buf.Length
      modifies this, buf
      ensures Valid() && calls == old(calls) + 1 && out == env.outcome(old(calls))
      ensures n == (if out.Chunk? then Moved(env, old(pos), out.max, buf.Length - filled) else 0)
      ensures pos == old(pos) + n && filled + n <= buf.Length
      ensures buf[..filled + n] == old(buf[..filled]) + env.content[old(pos)..pos]
    {
      out := env.outcome(calls);
      calls := calls + 1;
      n := 0;
      if out.Chunk? {
        n := Moved(env, pos, out.max, buf.Length - filled);
        forall i | 0 <= i < n { buf[filled + i] := env.content[pos + i]; }
        pos := pos + n;
      }
    }
  }

  /** The filling loop goes on, or leaves with an outcome. */
  datatype Progress = GoOn(acc: seq<byte>) | Leave(out: Result<seq<byte>, IoError>)

  /** One turn of the loop, with `acc` bytes in the buffer. */
  function Turn(f: FileEnv, s: State, acc: seq<byte>): (r: (State, Progress))
    requires s.pos <= |f.content| && |acc| < ALIGNED_UNIT_LEN
    ensures s.pos <= r.0.pos <= |f.content| && r.0.calls == s.calls + 1
    ensures r.1.GoOn? ==> |acc| <= |r.1.acc| <= ALIGNED_UNIT_LEN
    ensures r.1.GoOn? && |r.1.acc| == |acc| ==> f.outcome(s.calls).Interrupted?
  {
    match f.outcome(s.calls)
    case Interrupted => (State(s.pos, s.calls + 1), GoOn(acc))
    case Hard(e) => (State(s.pos, s.calls + 1), Leave(Err(e)))
    case Chunk(max) =>
      var n := Moved(f, s.pos, max, ALIGNED_UNIT_LEN - |acc|);
      (State(s.pos + n, s.calls + 1), if n == 0 then Leave(Ok(acc)) else GoOn(acc + f.content[s.pos..s.pos + n]))
  }

  /** The filling loop of `next`. */
  function Fill(f: FileEnv, s: State, acc: seq<byte>): (r: (State, Result<seq<byte>, IoError>))
    requires s.pos <= |f.content| && |acc| <= ALIGNED_UNIT_LEN
    ensures r.0.pos <= |f.content|
    decreases ALIGNED_UNIT_LEN - |acc|, if s.calls < f.quiet then f.quiet - s.calls else 0
  {
    if |acc| == ALIGNED_UNIT_LEN then (s, Ok(acc))
    else
      var (s', progress) := Turn(f, s, acc);
      match progress
      case GoOn(acc') => Fill(f, s', acc')
      case Leave(out) => (s', out)
  }

  lemma FillTurn(f: FileEnv, s: State, acc: seq<byte>)
    requires s.pos <= |f.content| && |acc| <= ALIGNED_UNIT_LEN
    ensures Fill(f, s, acc) ==
      if |acc| == ALIGNED_UNIT_LEN then (s, Ok(acc))
      else
        var (s', progress) := Turn(f, s, acc);
        match progress
        case GoOn(acc') => Fill(f, s', acc')
        case Leave(out) => (s', out)
  {
    hide Turn;
  }

  /** One call of `next`. */
  function Next(f: FileEnv, s: State): (r: (State, Item))
    requires s.pos <= |f.content|
    ensures r.0.pos <= |f.content|
  {
    var (s', filled) := Fill(f, s, []);
    match filled
    case Err(e) => (s', Some(Err(e)))
    case Ok(buf) => (s', if |buf| == ALIGNED_UNIT_LEN then Some(Ok(buf)) else None)
  }

  /** The same in terms of a read that answered `out` and moved `n` bytes. */
  lemma FillRead(f: FileEnv, s: State, acc: seq<byte>, out: ReadOutcome, n: nat)
    requires s.pos <= |f.content| && |acc| < ALIGNED_UNIT_LEN && out == f.outcome(s.calls)
    requires n == if out.Chunk? then Moved(f, s.pos, out.max, ALIGNED_UNIT_LEN - |acc|) else 0
    ensures |acc| + n <= ALIGNED_UNIT_LEN && s.pos + n <= |f.content|
    ensures var s' := State(s.pos + n, s.calls + 1);
      Fill(f, s, acc) ==
      if out.Hard? then (s', Err(out.error))
      else if out.Chunk? && n == 0 then (s', Ok(acc))
      else Fill(f, s', acc + f.content[s.pos..s.pos + n])
  {
    hide Fill, Moved;
    FillTurn(f, s, acc);
    if out.Interrupted? { assert acc + f.content[s.pos..s.pos] == acc; }
  }

  class FileUnitIter {
    const file: File

    constructor (file: File)
      ensures this.file == file
    {
      this.file := file;
    }

    function View(): State
      reads file
    {
      State(file.pos, file.calls)
    }

    method NextUnit() returns (item: Item)
      requires file.Valid()
      modifies file
      ensures file.Valid()
      ensures (View(), item) == Next(file.env, old(View()))
    {
      var buf := new byte[ALIGNED_UNIT_LEN](_ => 0);
      var filled := 0;
      ghost var got: seq<byte> := [];
      ghost var goal := Fill(file.env, View(), []);
      while filled < ALIGNED_UNIT_LEN
        invariant filled <= ALIGNED_UNIT_LEN == buf.Length && file.Valid() && fresh(buf)
        invariant buf[..filled] == got
        invariant Fill(file.env, View(), got) == goal
        decreases ALIGNED_UNIT_LEN - filled, if file.calls < file.env.quiet then file.env.quiet - file.calls else 0
      {
        hide Fill, Moved;
        ghost var s := View();
        var out, n := file.Read(buf, filled);
        FillRead(file.env, s, got, out, n);
        assert View() == State(s.pos + n, s.calls + 1);
        ghost var more := got + file.env.content[s.pos..s.pos + n];
        assert buf[..filled + n] == more;
        assert n == 0 ==> more == got;
        match out {
          case Chunk(_) =>
            if n == 0 { break; }
            filled, got := filled + n, more;
          case Interrupted =>
            continue;
          case Hard(e) =>
            return Some(Err(e));
        }
      }
      if filled == ALIGNED_UNIT_LEN {
        assert buf[..filled] == buf[..];
        return Some(Ok(buf[..]));
      }
      item := None;
    }
  }

  /** A turn takes the next bytes; it leaves only at the end of the file or on a hard error. */
  lemma TurnConsumes(f: FileEnv, s: State, acc: seq<byte>)
    requires s.pos <= |f.content| && |acc| < ALIGNED_UNIT_LEN
    ensures var (s', progress) := Turn(f, s, acc);
      match progress
      case GoOn(acc') => acc' == acc + f.content[s.pos..s'.pos]
      case Leave(Ok(got)) => got == acc && s'.pos == s.pos == |f.content|
      case Leave(Err(_)) => s'.pos == s.pos
  {
    assert acc + f.content[s.pos..s.pos] == acc;
  }

  /** Whatever the schedule, the loop appends consecutive file bytes; it stops early only at
      the end of the file or on a hard error, and an error leaves less than a unit consumed. */
  lemma {:induction false} FillConsumes(f: FileEnv, s: State, acc: seq<byte>)
    requires s.pos <= |f.content| && |acc| <= ALIGNED_UNIT_LEN
    ensures var (s', r) := Fill(f, s, acc);
      && s.pos <= s'.pos <= |f.content|
      && (r.Ok? ==> r.value == acc + f.content[s.pos..s'.pos] && |r.value| <= ALIGNED_UNIT_LEN
                    && (|r.value| == ALIGNED_UNIT_LEN || s'.pos == |f.content|))
      && (r.Err? ==> s'.pos - s.pos + |acc| < ALIGNED_UNIT_LEN)
    decreases ALIGNED_UNIT_LEN - |acc|, if s.calls < f.quiet then f.quiet - s.calls else 0
  {
    hide Fill, Turn;
    FillTurn(f, s, acc);
    assert acc + f.content[s.pos..s.pos] == acc;
    if |acc| < ALIGNED_UNIT_LEN {
      TurnConsumes(f, s, acc);
      var (s1, progress) := Turn(f, s, acc);
      if progress.GoOn? {
        FillConsumes(f, s1, progress.acc);
        ChunkConsumes(f, s, acc, s1, progress.acc, Fill(f, s1, progress.acc));
      }
    }
  }

  /** A further chunk in front of what the rest of the loop consumes. */
  lemma ChunkConsumes(f: FileEnv, s: State, acc: seq<byte>, s2: State, acc': seq<byte>,
                      r: (State, Result<seq<byte>, IoError>))
    requires s.pos <= s2.pos <= r.0.pos <= |f.content| && acc' == acc + f.content[s.pos..s2.pos]
    ensures acc' + f.content[s2.pos..r.0.pos] == acc + f.content[s.pos..r.0.pos]
    ensures |acc'| - |acc| == s2.pos - s.pos
  {
  }

  /** One call, for every schedule: a unit is the next 6144 bytes of the file; `None` means
      less than a unit is left, and it is skipped. */
  lemma NextConsumes(f: FileEnv, s: State)
    requires s.pos <= |f.content|
    ensures var (s', item) := Next(f, s);
      match item
      case Some(Ok(u)) => s'.pos == s.pos + ALIGNED_UNIT_LEN && u == f.content[s.pos..s'.pos]
      case None => s'.pos == |f.content| < s.pos + ALIGNED_UNIT_LEN
      case Some(Err(_)) => s.pos <= s'.pos < s.pos + ALIGNED_UNIT_LEN
  {
    FillConsumes(f, s, []);
    var s' := Fill(f, s, []).0;
    assert [] + f.content[s.pos..s'.pos] == f.content[s.pos..s'.pos];
  }

  /** From call `i` on, the reads fail before one of them moves a byte or finds the end. */
  predicate HardFirst(f: FileEnv, i: nat)
    decreases if i < f.quiet then f.quiet - i else 0
  {
    f.outcome(i).Hard? || (f.outcome(i).Interrupted? && HardFirst(f, i + 1))
  }

  lemma {:induction false} FillStaysPut(f: FileEnv, s: State, acc: seq<byte>)
    requires s.pos <= |f.content| && |acc| < ALIGNED_UNIT_LEN
    ensures var (s', r) := Fill(f, s, acc);
      if HardFirst(f, s.calls) then r.Err? && s'.pos == s.pos else r.Err? ==> s.pos < s'.pos
    decreases if s.calls < f.quiet then f.quiet - s.calls else 0
  {
    hide Fill;
    FillTurn(f, s, acc);
    var (s1, progress) := Turn(f, s, acc);
    if progress.GoOn? {
      if f.outcome(s.calls).Interrupted? {
        FillStaysPut(f, s1, acc);
      } else {
        FillConsumes(f, s1, progress.acc);
      }
    }
  }

  /** Where a failed call leaves the reader, read off the schedule alone: it resumes on a unit
      boundary if and only if the hard error came before the first byte. */
  lemma HardErrorAlignment(f: FileEnv, s: State)
    requires s.pos <= |f.content| && s.pos % ALIGNED_UNIT_LEN == 0
    ensures var (s', item) := Next(f, s);
      && (HardFirst(f, s.calls) ==> item.Some? && item.value.Err? && s'.pos == s.pos)
      && (item.Some? && item.value.Err? ==> (s'.pos % ALIGNED_UNIT_LEN == 0 <==> HardFirst(f, s.calls)))
  {
    FillStaysPut(f, s, []);
    NextConsumes(f, s);
    var s' := Next(f, s).0;
    if s.pos < s'.pos < s.pos + ALIGNED_UNIT_LEN { BetweenBoundaries(s.pos, s'.pos); }
  }

  lemma BetweenBoundaries(p: nat, q: nat)
    requires p % ALIGNED_UNIT_LEN == 0 && p < q < p + ALIGNED_UNIT_LEN
    ensures q % ALIGNED_UNIT_LEN != 0
  {
    assert q == ALIGNED_UNIT_LEN * (p / ALIGNED_UNIT_LEN) + (q - p);
  }

  /** Where it fails: one byte, then an error; the next unit handed out starts at byte 1. */
  lemma MisalignedExample(f: FileEnv)
    requires |f.content| > ALIGNED_UNIT_LEN
    requires f.outcome(0) == Chunk(1) && f.outcome(1).Hard? && f.outcome(2) == Chunk(ALIGNED_UNIT_LEN)
    ensures Next(f, State(0, 0)) == (State(1, 2), Some(Err(f.outcome(1).error)))
    ensures Next(f, State(1, 2)).1 == Some(Ok(f.content[1..6145]))
  {
    assert Fill(f, State(1, 1), [] + f.content[0..1]) == (State(1, 2), Err(f.outcome(1).error));
    var u := [] + f.content[1..6145];
    assert u == f.content[1..6145];
    assert Fill(f, State(6145, 3), u) == (State(6145, 3), Ok(u));
  }

  // ---------- runs ----------

  function After(f: FileEnv, k: nat): (s: State)
    ensures s.pos <= |f.content|
  {
    if k == 0 then State(0, 0) else Next(f, After(f, k - 1)).0
  }

  function ItemAt(f: FileEnv, k: nat): Item {
    Next(f, After(f, k)).1
  }

  function FileUnits(content: seq<byte>): (us: seq<Unit>)
    ensures |us| == |content| / ALIGNED_UNIT_LEN
  {
    seq(|content| / ALIGNED_UNIT_LEN, i requires 0 <= i < |content| / ALIGNED_UNIT_LEN =>
      content[ALIGNED_UNIT_LEN * i..ALIGNED_UNIT_LEN * i + ALIGNED_UNIT_LEN])
  }

  ghost predicate NoErrorBefore(f: FileEnv, k: nat) {
    forall i: nat :: i < k ==> !(ItemAt(f, i).Some? && ItemAt(f, i).value.Err?)
  }

  function Ideal(content: seq<byte>, k: nat): Item {
    if k < |content| / ALIGNED_UNIT_LEN then Some(Ok(FileUnits(content)[k])) else None
  }

  lemma IdealStep(f: FileEnv, s: State, k: nat)
    requires s.pos == if ALIGNED_UNIT_LEN * k < |f.content| then ALIGNED_UNIT_LEN * k else |f.content|
    ensures var (s', item) := Next(f, s);
      item.None? || item.value.Ok? ==>
        && item == Ideal(f.content, k)
        && s'.pos == if ALIGNED_UNIT_LEN * (k + 1) < |f.content| then ALIGNED_UNIT_LEN * (k + 1) else |f.content|
  {
    NextConsumes(f, s);
    var q := |f.content| / ALIGNED_UNIT_LEN;
    assert ALIGNED_UNIT_LEN * q <= |f.content| < ALIGNED_UNIT_LEN * q + ALIGNED_UNIT_LEN;
  }

  lemma {:induction false} PositionAfter(f: FileEnv, k: nat)
    requires NoErrorBefore(f, k)
    ensures After(f, k).pos == if ALIGNED_UNIT_LEN * k < |f.content| then ALIGNED_UNIT_LEN * k else |f.content|
  {
    hide Next;
    if k > 0 {
      PositionAfter(f, k - 1);
      IdealStep(f, After(f, k - 1), k - 1);
      assert !(ItemAt(f, k - 1).Some? && ItemAt(f, k - 1).value.Err?);
    }
  }

  /** Assembly: up to the first hard error, call `k` hands out unit `k` of the file's whole
      units, then `None` for ever, for every schedule of short and interrupted reads. */
  lemma Assembly(f: FileEnv, k: nat)
    requires NoErrorBefore(f, k + 1)
    ensures ItemAt(f, k) == Ideal(f.content, k)
  {
    hide Next;
    PositionAfter(f, k);
    IdealStep(f, After(f, k), k);
    assert !(ItemAt(f, k).Some? && ItemAt(f, k).value.Err?);
  }

  /** A schedule without hard errors produces none. */
  ghost predicate NoHard(f: FileEnv) {
    forall i: nat :: !f.outcome(i).Hard?
  }

  lemma {:induction false} FillNoHard(f: FileEnv, s: State, acc: seq<byte>)
    requires NoHard(f) && s.pos <= |f.content| && |acc| <= ALIGNED_UNIT_LEN
    ensures Fill(f, s, acc).1.Ok?
    decreases ALIGNED_UNIT_LEN - |acc|, if s.calls < f.quiet then f.quiet - s.calls else 0
  {
    hide Fill;
    FillTurn(f, s, acc);
    if |acc| < ALIGNED_UNIT_LEN {
      var (s1, progress) := Turn(f, s, acc);
      if progress.GoOn? { FillNoHard(f, s1, progress.acc); }
    }
  }

  lemma NoHardNoError(f: FileEnv, k: nat)
    requires NoHard(f)
    ensures NoErrorBefore(f, k)
  {
    forall i: nat | i < k
      ensures !(ItemAt(f, i).Some? && ItemAt(f, i).value.Err?)
    {
      FillNoHard(f, After(f, i), []);
    }
  }

  /** The units put together are the longest whole-unit prefix of the file. */
  lemma {:induction false} UnitsArePrefix(content: seq<byte>)
    ensures Join(FileUnits(content)) == content[..ALIGNED_UNIT_LEN * (|content| / ALIGNED_UNIT_LEN)]
    ensures |content| - |Join(FileUnits(content))| < ALIGNED_UNIT_LEN
  {
    if |content| >= ALIGNED_UNIT_LEN {
      var rest := content[ALIGNED_UNIT_LEN..];
      UnitsArePrefix(rest);
      FirstUnit(content);
      assert FileUnits(content)[1..] == FileUnits(rest);
      var q := |rest| / ALIGNED_UNIT_LEN;
      assert content[..ALIGNED_UNIT_LEN * (q + 1)] == content[..ALIGNED_UNIT_LEN] + rest[..ALIGNED_UNIT_LEN * q];
    }
  }

  lemma SliceOfRest(content: seq<byte>, k: nat)
    requires k + 2 * ALIGNED_UNIT_LEN <= |content|
    ensures content[ALIGNED_UNIT_LEN + k..ALIGNED_UNIT_LEN + k + ALIGNED_UNIT_LEN]
            == content[ALIGNED_UNIT_LEN..][k..k + ALIGNED_UNIT_LEN]
  {
  }

  lemma FirstUnit(content: seq<byte>)
    requires |content| >= ALIGNED_UNIT_LEN
    ensures var rest := content[ALIGNED_UNIT_LEN..];
      && |content| / ALIGNED_UNIT_LEN == |rest| / ALIGNED_UNIT_LEN + 1
      && FileUnits(content) == [content[..ALIGNED_UNIT_LEN]] + FileUnits(rest)
  {
    var rest := content[ALIGNED_UNIT_LEN..];
    assert |content| / ALIGNED_UNIT_LEN == |rest| / ALIGNED_UNIT_LEN + 1;
    forall i | 0 <= i < |rest| / ALIGNED_UNIT_LEN
      ensures FileUnits(content)[i + 1] == FileUnits(rest)[i]
    {
      SliceOfRest(content, ALIGNED_UNIT_LEN * i);
    }
  }
}
