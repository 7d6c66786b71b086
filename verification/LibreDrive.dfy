/** The batched drive reader `RawUnitIter` of crates/freeblue-read/src/libredrive.rs. */
module LibreDrive {
  import opened Wrappers
  import opened Bytes
  import opened Content
  import opened Scsi
  import opened UnitStream

  const SECTORS_PER_UNIT := 3
  const BATCH_UNITS := 16
  const U64_LIMIT := 0x1_0000_0000_0000_0000

  type u64 = n: nat | n < U64_LIMIT

  /** The iterator's fields, with the log of commands its device has received. */
  datatype State = State(nextLba: u32, unitsLeft: u64, batch: seq<byte>, batchPos: nat, log: seq<Request>)

  /** A new iterator on a device that has already received `log`. */
  function Fresh(start: u64, n: u64, log: seq<Request>): State {
    State(start % U32_LIMIT, n, [], 0, log)
  }

  /** Units asked for by a refill; the remaining count is truncated to 32 bits first. */
  function Want(unitsLeft: nat): (w: nat)
    ensures w <= BATCH_UNITS
  {
    var low := unitsLeft % U32_LIMIT;
    if low < BATCH_UNITS then low else BATCH_UNITS
  }

  /** `refill`: a failed read changes nothing but the log; a short one replaces the batch and
      leaves the position on the medium alone. */
  function Refill(d: Drive, s: State): (State, Result<bool, IoError>) {
    if s.unitsLeft == 0 then (s, Ok(false))
    else
      var sectors := Want(s.unitsLeft) * SECTORS_PER_UNIT;
      var logged := s.(log := s.log + [Request(s.nextLba, sectors)]);
      match Transfer(d, |s.log|, s.nextLba, sectors)
      case Err(e) => (logged, Err(e))
      case Ok(data) =>
        var loaded := logged.(batch := data, batchPos := 0);
        if |data| < ALIGNED_UNIT_LEN then (loaded, Ok(false))
        else (loaded.(nextLba := (s.nextLba + sectors) % U32_LIMIT), Ok(true))
  }

  predicate NeedsRefill(s: State) {
    s.batchPos + ALIGNED_UNIT_LEN > |s.batch|
  }

  function Take(s: State): (State, Item)
    requires !NeedsRefill(s) && s.unitsLeft > 0
  {
    (s.(batchPos := s.batchPos + ALIGNED_UNIT_LEN, unitsLeft := s.unitsLeft - 1),
     Some(Ok(s.batch[s.batchPos..s.batchPos + ALIGNED_UNIT_LEN])))
  }

  /** One call of `next`. */
  function Next(d: Drive, s: State): (State, Item) {
    if s.unitsLeft == 0 then (s, None)
    else if !NeedsRefill(s) then Take(s)
    else
      var (s', r) := Refill(d, s);
      match r
      case Err(e) => (s', Some(Err(e)))
      case Ok(false) => (s', None)
      case Ok(true) => Take(s')
  }

  class RawUnitIter {
    const dev: ScsiDev
    var nextLba: u32
    var unitsLeft: u64
    var batch: seq<byte>
    var batchPos: nat

    function View(): State
      reads this, dev
    {
      State(nextLba, unitsLeft, batch, batchPos, dev.log)
    }

    constructor (dev: ScsiDev, start: u64, n: u64)
      ensures this.dev == dev && View() == Fresh(start, n, dev.log)
    {
      this.dev := dev;
      nextLba := start % U32_LIMIT;
      unitsLeft := n;
      batch := [];
      batchPos := 0;
    }

    method RefillBatch() returns (r: Result<bool, IoError>)
      modifies this, dev
      ensures (View(), r) == Refill(dev.drive, old(View()))
    {
      if unitsLeft == 0 {
        return Ok(false);
      }
      var low: u32 := unitsLeft % U32_LIMIT;
      var want := if low < BATCH_UNITS then low else BATCH_UNITS;
      var sectors: u16 := want * SECTORS_PER_UNIT;
      var data := dev.Read10(nextLba, sectors);
      if data.Err? {
        return Err(data.error);
      }
      batch := data.value;
      batchPos := 0;
      if |batch| < ALIGNED_UNIT_LEN {
        return Ok(false);
      }
      nextLba := (nextLba + want * SECTORS_PER_UNIT) % U32_LIMIT;
      r := Ok(true);
    }

    method NextUnit() returns (item: Item)
      modifies this, dev
      ensures (View(), item) == Next(dev.drive, old(View()))
    {
      if unitsLeft == 0 {
        return None;
      }
      if batchPos + ALIGNED_UNIT_LEN > |batch| {
        var r := RefillBatch();
        match r {
          case Ok(true) =>
          case Ok(false) => return None;
          case Err(e) => return Some(Err(e));
        }
      }
      var u: Unit := batch[batchPos..batchPos + ALIGNED_UNIT_LEN];
      batchPos := batchPos + ALIGNED_UNIT_LEN;
      unitsLeft := unitsLeft - 1;
      item := Some(Ok(u));
    }
  }

  // ---------- runs ----------

  /** The state after `k` calls of `next`. */
  function After(d: Drive, s: State, k: nat): State {
    if k == 0 then s else Next(d, After(d, s, k - 1)).0
  }

  /** What call number `k` (from 0) hands out. */
  function ItemAt(d: Drive, s: State, k: nat): Item {
    Next(d, After(d, s, k)).1
  }

  /** Ghost history of the current batch: it was read after `base` units had been delivered
      and `lost` had been dropped, by a request for `want` units. */
  datatype Trace = Trace(base: nat, lost: nat, want: nat)

  /** A refill that replaces the batch writes off what the old one did not deliver. */
  function NextTrace(d: Drive, s: State, delivered: nat, t: Trace): Trace
    requires t.base <= delivered <= t.base + t.want
  {
    if s.unitsLeft == 0 || !NeedsRefill(s) then t
    else
      var (s', r) := Refill(d, s);
      if r.Err? then t
      else Trace(delivered, t.lost + (t.base + t.want - delivered), if r.value then Want(s.unitsLeft) else 0)
  }

  /** First sector of the batch in hand. */
  function BatchLba(start: nat, t: Trace): nat {
    (start + 3 * (t.base + t.lost)) % U32_LIMIT
  }

  /** Sector at which the next unit of the batch in hand begins. */
  function Source(start: nat, t: Trace, delivered: nat): nat
    requires t.base <= delivered
  {
    BatchLba(start, t) + 3 * (delivered - t.base)
  }

  /** What every reachable state satisfies. */
  ghost predicate Inv(d: Drive, start: nat, n: nat, s: State, t: Trace) {
    && s.unitsLeft <= n
    && var delivered := n - s.unitsLeft;
    && t.base <= delivered <= t.base + t.want
    && s.batchPos == ALIGNED_UNIT_LEN * (delivered - t.base)
    && |s.batch| <= ALIGNED_UNIT_LEN * t.want + (ALIGNED_UNIT_LEN - 1)
    && s.batchPos <= |s.batch|
    && s.nextLba == (start + 3 * (t.base + t.lost + t.want)) % U32_LIMIT
    && (t.want > 0 ==> s.batch <= Extent(d, BatchLba(start, t), 3 * t.want))
  }

  lemma AddMod(x: nat, y: nat)
    ensures (x % U32_LIMIT + y) % U32_LIMIT == (x + y) % U32_LIMIT
  {
    var q := x / U32_LIMIT;
    var z := x % U32_LIMIT + y;
    assert x + y == q * U32_LIMIT + z;
    var p := z / U32_LIMIT;
    assert x + y == (q + p) * U32_LIMIT + z % U32_LIMIT;
  }

  lemma InvRefill(d: Drive, start: nat, n: nat, s: State, t: Trace)
    requires Inv(d, start, n, s, t) && s.unitsLeft > 0 && NeedsRefill(s)
    ensures var (s', r) := Refill(d, s);
      && s'.unitsLeft == s.unitsLeft
      && Inv(d, start, n, s', NextTrace(d, s, n - s.unitsLeft, t))
      && (r == Ok(true) ==> !NeedsRefill(s') && NextTrace(d, s, n - s.unitsLeft, t).want > 0)
  {
    var w := Want(s.unitsLeft);
    AddMod(start + 3 * (t.base + t.lost + t.want), 3 * w);
    assert t.base + t.lost + t.want == (n - s.unitsLeft) + (t.lost + (t.base + t.want - (n - s.unitsLeft)));
  }

  /** Every call keeps the invariant, and every unit it delivers is the three sectors at
      `Source` of the state it was delivered from. */
  lemma InvNext(d: Drive, start: nat, n: nat, s: State, t: Trace)
    requires Inv(d, start, n, s, t)
    ensures
      var (s', item) := Next(d, s);
      var t' := NextTrace(d, s, n - s.unitsLeft, t);
      && Inv(d, start, n, s', t')
      && (item.Some? && item.value.Ok? ==>
            && s'.unitsLeft == s.unitsLeft - 1 && t'.base <= n - s.unitsLeft
            && item.value.value == Extent(d, Source(start, t', n - s.unitsLeft), 3))
      && (!(item.Some? && item.value.Ok?) ==> s'.unitsLeft == s.unitsLeft && s'.nextLba == s.nextLba)
  {
    if s.unitsLeft > 0 {
      var t' := NextTrace(d, s, n - s.unitsLeft, t);
      if NeedsRefill(s) {
        InvRefill(d, start, n, s, t);
        var (s', r) := Refill(d, s);
        if r == Ok(true) { TakeFromBatch(d, start, n, s', t'); }
      } else {
        TakeFromBatch(d, start, n, s, t);
      }
    }
  }

  lemma TakeFromBatch(d: Drive, start: nat, n: nat, s: State, t: Trace)
    requires Inv(d, start, n, s, t) && s.unitsLeft > 0 && !NeedsRefill(s)
    ensures Inv(d, start, n, Take(s).0, t)
    ensures Take(s).1 == Some(Ok(Extent(d, Source(start, t, n - s.unitsLeft), 3)))
  {
    var k := n - s.unitsLeft - t.base;
    assert t.want > k;
    var all := Extent(d, BatchLba(start, t), 3 * t.want);
    ExtentSlice(d, BatchLba(start, t), 3 * t.want, 3 * k, 3);
    assert s.batch[s.batchPos..s.batchPos + 6144] == all[2048 * (3 * k)..2048 * (3 * k + 3)];
  }

  /** The trace after `k` calls. */
  function TraceAfter(d: Drive, start: u64, n: u64, log: seq<Request>, k: nat): (t: Trace)
    ensures var s := After(d, Fresh(start, n, log), k);
      Inv(d, start, n, s, t) && s.unitsLeft <= n && t.base <= n - s.unitsLeft <= t.base + t.want
  {
    if k == 0 then Trace(0, 0, 0)
    else
      var t := TraceAfter(d, start, n, log, k - 1);
      var s := After(d, Fresh(start, n, log), k - 1);
      InvNext(d, start, n, s, t);
      NextTrace(d, s, n - s.unitsLeft, t)
  }

  /** Units delivered by the first `k` calls. */
  function Delivered(d: Drive, s: State, k: nat): seq<Unit> {
    if k == 0 then [] else Delivered(d, s, k - 1) + Units(ItemAt(d, s, k - 1))
  }

  /** Unconditionally, over every run and every drive: a delivered unit is the three sectors at
      its source; a call that delivers nothing moves neither the count nor the position. As
      long as addresses do not wrap, the source of unit `y` is `start + 3 * (y + lost)`: it is
      the right one if and only if no earlier batch was written off undelivered. */
  lemma SourcesExact(d: Drive, start: u64, n: u64, log: seq<Request>, k: nat)
    ensures
      var s0 := Fresh(start, n, log);
      var s, s' := After(d, s0, k), After(d, s0, k + 1);
      var t' := TraceAfter(d, start, n, log, k + 1);
      var item, y := ItemAt(d, s0, k), n - s.unitsLeft;
      if item.Some? && item.value.Ok? then
        && s'.unitsLeft == s.unitsLeft - 1 && t'.base <= y
        && item.value.value == Extent(d, Source(start, t', y), 3)
        && (start + 3 * (t'.base + t'.lost) < U32_LIMIT ==>
              Source(start, t', y) == start + 3 * y + 3 * t'.lost)
      else s'.unitsLeft == s.unitsLeft && s'.nextLba == s.nextLba
  {
    hide Next, NextTrace, Inv;
    InvNext(d, start, n, After(d, Fresh(start, n, log), k), TraceAfter(d, start, n, log, k));
  }

  /** What the drive answers if the next call refills. */
  function Answer(d: Drive, s: State): Result<seq<byte>, IoError> {
    Transfer(d, |s.log|, s.nextLba, Want(s.unitsLeft) * SECTORS_PER_UNIT)
  }

  /** The next call reads successfully, which replaces the batch in hand. */
  predicate Replaces(d: Drive, s: State) {
    s.unitsLeft > 0 && NeedsRefill(s) && Answer(d, s).Ok?
  }

  /** The next call reads a partial batch: at least one unit, but not all it asked for. */
  predicate Partial(d: Drive, s: State) {
    Replaces(d, s) && ALIGNED_UNIT_LEN <= |Answer(d, s).value| < ALIGNED_UNIT_LEN * Want(s.unitsLeft)
  }

  /** No partial batch among the first `k` calls is followed there by a further successful read. */
  ghost predicate NoneAbandoned(d: Drive, s: State, k: nat) {
    forall i: nat, j: nat :: i < j < k && Partial(d, After(d, s, i)) ==> !Replaces(d, After(d, s, j))
  }

  ghost predicate SomePartial(d: Drive, s: State, k: nat) {
    exists i: nat :: i < k && Partial(d, After(d, s, i))
  }

  /** Both conditions, one call further. */
  lemma AbandonedStep(d: Drive, s: State, k: nat)
    ensures SomePartial(d, s, k + 1) <==> SomePartial(d, s, k) || Partial(d, After(d, s, k))
    ensures NoneAbandoned(d, s, k + 1) <==>
            NoneAbandoned(d, s, k) && !(SomePartial(d, s, k) && Replaces(d, After(d, s, k)))
  {
    hide Partial, Replaces, After;
    if SomePartial(d, s, k) && Replaces(d, After(d, s, k)) {
      var i: nat :| i < k && Partial(d, After(d, s, i));
      assert i < k < k + 1;
    }
  }

  /** The batch in hand is shorter than the request it answers. */
  predicate Owing(s: State, t: Trace) {
    |s.batch| < ALIGNED_UNIT_LEN * t.want
  }

  /** One call: something is lost when a batch that owes units is replaced, and only a partial
      batch comes to owe any. */
  lemma OwingStep(d: Drive, start: nat, n: nat, s: State, t: Trace)
    requires Inv(d, start, n, s, t)
    ensures var t' := NextTrace(d, s, n - s.unitsLeft, t);
      && (t'.lost == 0 <==> t.lost == 0 && !(Replaces(d, s) && Owing(s, t)))
      && (Owing(Next(d, s).0, t') <==> if Replaces(d, s) then Partial(d, s) else Owing(s, t))
      && t'.base + t'.lost <= t.base + t.lost + t.want
      && t'.base + t'.lost + t'.want <= t.base + t.lost + t.want + BATCH_UNITS
  {
  }

  /** Nothing has been lost if and only if no partial batch was followed by another successful
      read; and until then the batch in hand owes units exactly when there was a partial one. */
  lemma {:induction false} LostExact(d: Drive, start: u64, n: u64, log: seq<Request>, k: nat)
    ensures var s0, t := Fresh(start, n, log), TraceAfter(d, start, n, log, k);
      && (t.lost == 0 <==> NoneAbandoned(d, s0, k))
      && (t.lost == 0 ==> (Owing(After(d, s0, k), t) <==> SomePartial(d, s0, k)))
  {
    hide Next, NextTrace, Inv, Owing, Replaces, Partial, NoneAbandoned, SomePartial;
    if k > 0 {
      LostExact(d, start, n, log, k - 1);
      var s0, t := Fresh(start, n, log), TraceAfter(d, start, n, log, k - 1);
      var s := After(d, s0, k - 1);
      OwingStep(d, start, n, s, t);
      PartialReplaces(d, s);
      AbandonedStep(d, s0, k - 1);
    } else {
      NothingOwed(d, start, n, log);
    }
  }

  lemma PartialReplaces(d: Drive, s: State)
    ensures Partial(d, s) ==> Replaces(d, s)
  {
  }

  lemma NothingOwed(d: Drive, start: u64, n: u64, log: seq<Request>)
    ensures !Owing(Fresh(start, n, log), Trace(0, 0, 0))
    ensures NoneAbandoned(d, Fresh(start, n, log), 0) && !SomePartial(d, Fresh(start, n, log), 0)
  {
  }

  /** Each call moves the position on the medium by at most one batch. */
  lemma {:induction false} SpanBound(d: Drive, start: u64, n: u64, log: seq<Request>, k: nat)
    ensures var t := TraceAfter(d, start, n, log, k);
      t.base + t.lost + t.want <= BATCH_UNITS * k
  {
    hide Next, NextTrace, Inv;
    if k > 0 {
      SpanBound(d, start, n, log, k - 1);
      OwingStep(d, start, n, After(d, Fresh(start, n, log), k - 1), TraceAfter(d, start, n, log, k - 1));
    }
  }

  /** Delivered addresses, over every run and every drive: unit `y`, handed out by call `k`, is
      the three sectors at an address no lower than `start + 3 * y`; and that is its own place
      if and only if no partial batch so far was followed by a further successful read. */
  lemma DeliveredAddress(d: Drive, start: u64, n: u64, log: seq<Request>, k: nat)
    requires ItemAt(d, Fresh(start, n, log), k).Some? && ItemAt(d, Fresh(start, n, log), k).value.Ok?
    requires start + 48 * k < U32_LIMIT
    ensures var s0 := Fresh(start, n, log);
      var y := n - After(d, s0, k).unitsLeft;
      var t := TraceAfter(d, start, n, log, k + 1);
      && 0 <= y && t.base <= y
      && ItemAt(d, s0, k) == Some(Ok(Extent(d, Source(start, t, y), 3)))
      && start + 3 * y <= Source(start, t, y)
      && (Source(start, t, y) == start + 3 * y <==> NoneAbandoned(d, s0, k + 1))
  {
    hide Next, NextTrace, Inv, Source, NoneAbandoned;
    SourcesExact(d, start, n, log, k);
    LostExact(d, start, n, log, k + 1);
    SpanBound(d, start, n, log, k);
    OwingStep(d, start, n, After(d, Fresh(start, n, log), k), TraceAfter(d, start, n, log, k));
  }

  /** The smallest losing run: two units asked for, the first transfer stops after one. The
      second unit then comes from beyond the extent. */
  lemma PartialBatchSkips(d: Drive, start: u64, log: seq<Request>)
    requires start + 9 <= U32_LIMIT
    requires d.reply(|log|) == Done(6144) && d.reply(|log| + 1) == Done(0)
    ensures ItemAt(d, Fresh(start, 2, log), 0) == Some(Ok(Extent(d, start, 3)))
    ensures ItemAt(d, Fresh(start, 2, log), 1) == Some(Ok(Extent(d, start + 6, 3)))
  {
    var s0 := Fresh(start, 2, log);
    ExtentSlice(d, start, 6, 0, 3);
    var first: Unit := Extent(d, start, 3);
    assert Extent(d, start, 6)[..6144] == first;
    assert first[0..6144] == first;
    var logged := log + [Request(start, 6)];
    assert Refill(d, s0) == (State(start + 6, 2, first, 0, logged), Ok(true));
    var s1 := State(start + 6, 1, first, 6144, logged);
    assert After(d, s0, 0) == s0 && Next(d, s0) == (s1, Some(Ok(first)));
    assert After(d, s0, 1) == s1;
    var second: Unit := Extent(d, start + 6, 3);
    assert second[..6144] == second && second[0..6144] == second;
    assert Refill(d, s1) == (State((start + 9) % U32_LIMIT, 1, second, 0, logged + [Request(start + 6, 3)]), Ok(true));
  }

  // ---------- runs in which no partial batch is abandoned ----------

  /** Units the 32-bit count can reach. */
  function Reachable(n: nat): nat {
    n % U32_LIMIT
  }

  function Least(a: nat, b: nat): nat {
    if a < b then a else b
  }

  /** Nothing is lost, and requests start at multiples of 16 units. */
  ghost predicate Aligned(n: nat, t: Trace) {
    && t.lost == 0
    && t.base + t.want <= Reachable(n)
    && (t.base % 16 == 0 || t.base == Reachable(n))
    && (t.want > 0 ==> t.want == Least(16, Reachable(n) - t.base))
  }

  lemma WantIs(n: nat, delivered: nat)
    requires delivered <= Reachable(n)
    ensures delivered <= n && Want(n - delivered) == Least(16, Reachable(n) - delivered)
  {
    var q := n / U32_LIMIT;
    assert n - delivered == q * U32_LIMIT + (Reachable(n) - delivered);
    assert (n - delivered) % U32_LIMIT == Reachable(n) - delivered;
  }

  /** A batch that owes nothing is replaced only when it is drained. */
  lemma DrainedFirst(d: Drive, start: nat, n: nat, s: State, t: Trace)
    requires Inv(d, start, n, s, t) && NeedsRefill(s) && !Owing(s, t)
    ensures n - s.unitsLeft == t.base + t.want
  {
  }

  /** The next request starts where an aligned batch ends. */
  lemma AlignedEnd(n: nat, t: Trace, w: nat)
    requires Aligned(n, t) && (w == 0 || w == Least(16, Reachable(n) - (t.base + t.want)))
    ensures Aligned(n, Trace(t.base + t.want, 0, w))
  {
  }

  lemma AlignedNext(d: Drive, start: nat, n: nat, s: State, t: Trace)
    requires Inv(d, start, n, s, t) && Aligned(n, t) && !(Replaces(d, s) && Owing(s, t))
    ensures var (s', item) := Next(d, s);
      var y, t' := n - s.unitsLeft, NextTrace(d, s, n - s.unitsLeft, t);
      Aligned(n, t') && (item.Some? && item.value.Ok? ==> t'.base <= y < t'.base + t'.want)
  {
    var y := n - s.unitsLeft;
    var t' := NextTrace(d, s, y, t);
    if Replaces(d, s) {
      DrainedFirst(d, start, n, s, t);
      WantIs(n, y);
      AlignedEnd(n, t, t'.want);
    }
    hide Aligned, Reachable;
    InvNext(d, start, n, s, t);
  }

  /** Where unit `i` comes from when all requests but the last are for 16 units. */
  function BatchedSource(start: nat, i: nat): nat {
    (start + 48 * (i / 16)) % U32_LIMIT + 3 * (i % 16)
  }

  lemma AlignedInit(n: u64)
    ensures Aligned(n, Trace(0, 0, 0))
  {
  }

  /** Before the last of `k` calls nothing is abandoned either, and that call loses nothing. */
  lemma KeptSoFar(d: Drive, start: u64, n: u64, log: seq<Request>, k: nat)
    requires k > 0 && NoneAbandoned(d, Fresh(start, n, log), k)
    ensures var s0 := Fresh(start, n, log);
      var s, t := After(d, s0, k - 1), TraceAfter(d, start, n, log, k - 1);
      NoneAbandoned(d, s0, k - 1) && !(Replaces(d, s) && Owing(s, t))
  {
    hide Next, NextTrace, Inv, Owing, Replaces, NoneAbandoned;
    var s0 := Fresh(start, n, log);
    AbandonedStep(d, s0, k - 1);
    LostExact(d, start, n, log, k);
    LostExact(d, start, n, log, k - 1);
    OwingStep(d, start, n, After(d, s0, k - 1), TraceAfter(d, start, n, log, k - 1));
  }

  lemma {:induction false} AlignedReach(d: Drive, start: u64, n: u64, log: seq<Request>, k: nat)
    requires NoneAbandoned(d, Fresh(start, n, log), k)
    ensures Aligned(n, TraceAfter(d, start, n, log, k))
  {
    hide Next, NextTrace, Inv, Aligned, Owing, Replaces, NoneAbandoned;
    AlignedInit(n);
    if k > 0 {
      KeptSoFar(d, start, n, log, k);
      AlignedReach(d, start, n, log, k - 1);
      AlignedNext(d, start, n, After(d, Fresh(start, n, log), k - 1), TraceAfter(d, start, n, log, k - 1));
    }
  }

  lemma SourceInBatch(start: nat, t: Trace, y: nat)
    requires t.lost == 0 && t.base % 16 == 0 && t.base <= y < t.base + 16
    ensures Source(start, t, y) == BatchedSource(start, y)
  {
    assert y / 16 == t.base / 16 && y % 16 == y - t.base;
  }

  /** The first `y` units of an extent read in batches of 16. */
  function UnitsAt(d: Drive, start: nat, y: nat): (us: seq<Unit>)
    ensures |us| == y
  {
    if y == 0 then [] else UnitsAt(d, start, y - 1) + [Extent(d, BatchedSource(start, y - 1), 3)]
  }

  lemma AlignedDelivery(d: Drive, start: nat, n: nat, s: State, t: Trace, got: seq<Unit>)
    requires Inv(d, start, n, s, t) && Aligned(n, t) && !(Replaces(d, s) && Owing(s, t))
    requires got == UnitsAt(d, start, n - s.unitsLeft)
    ensures var (s', item) := Next(d, s);
      got + Units(item) == UnitsAt(d, start, n - s'.unitsLeft)
  {
    InvNext(d, start, n, s, t);
    AlignedNext(d, start, n, s, t);
    hide Inv, NextTrace, Next, Source, BatchedSource;
    var (s', item) := Next(d, s);
    var t' := NextTrace(d, s, n - s.unitsLeft, t);
    if item.Some? && item.value.Ok? {
      SourceInBatch(start, t', n - s.unitsLeft);
    } else {
      assert got + [] == got;
    }
  }

  /** Run safety: whatever faults, empty reads and partial batches occur, and whenever, as long
      as no partial batch is followed by a further successful read the units delivered so far
      are the first ones in order, each from its own place, none lost or repeated. */
  lemma {:induction false} RunSafety(d: Drive, start: u64, n: u64, log: seq<Request>, k: nat)
    requires NoneAbandoned(d, Fresh(start, n, log), k)
    ensures var s := After(d, Fresh(start, n, log), k);
      && 0 <= n - s.unitsLeft <= Reachable(n)
      && Delivered(d, Fresh(start, n, log), k) == UnitsAt(d, start, n - s.unitsLeft)
  {
    hide Next, NextTrace, Inv, Owing, Replaces, NoneAbandoned;
    AlignedReach(d, start, n, log, k);
    if k > 0 {
      hide Aligned;
      KeptSoFar(d, start, n, log, k);
      RunSafety(d, start, n, log, k - 1);
      AlignedReach(d, start, n, log, k - 1);
      var s0 := Fresh(start, n, log);
      AlignedDelivery(d, start, n, After(d, s0, k - 1), TraceAfter(d, start, n, log, k - 1), Delivered(d, s0, k - 1));
    }
  }

  /** The extent starts below 2^32 and so does its last batch. */
  predicate Addressable(start: nat, n: nat) {
    n == 0 || start + 48 * ((n - 1) / 16) < U32_LIMIT
  }

  /** Only in an addressable extent are all `n` units reachable, each at `start + 3 * i`. */
  lemma AddressableSources(start: nat, n: nat)
    ensures Addressable(start, n) <==>
      Reachable(n) == n && forall i: nat :: i < n ==> BatchedSource(start, i) == start + 3 * i
  {
    if Addressable(start, n) {
      forall i: nat | i < n
        ensures BatchedSource(start, i) == start + 3 * i
      {
        assert i / 16 <= (n - 1) / 16;
        assert i == 16 * (i / 16) + i % 16;
      }
    } else {
      var i := 16 * ((n - 1) / 16);
      assert i / 16 == (n - 1) / 16 && i % 16 == 0;
      assert start + 3 * i >= U32_LIMIT;
      assert BatchedSource(start, i) < U32_LIMIT;
    }
  }

  // ---------- runs in which every read is full ----------

  ghost predicate AllFull(d: Drive) {
    forall i: nat :: d.reply(i).Done? && d.reply(i).resid <= 0
  }

  lemma FullAnswer(d: Drive, s: State)
    requires AllFull(d)
    ensures !Partial(d, s)
    ensures s.unitsLeft > 0 && NeedsRefill(s) && Want(s.unitsLeft) > 0 ==> Refill(d, s).1 == Ok(true)
    ensures s.unitsLeft > 0 && NeedsRefill(s) && Want(s.unitsLeft) == 0 ==>
      Refill(d, s).1 == Ok(false) && Refill(d, s).0.batch == []
  {
    var sectors := Want(s.unitsLeft) * SECTORS_PER_UNIT;
    var all := Extent(d, s.nextLba, sectors);
    assert d.reply(|s.log|).Done?;
    assert all[..|all|] == all;
  }

  /** Full reads leave no batch partial, so none is abandoned or owes anything. */
  lemma FullOwesNothing(d: Drive, start: u64, n: u64, log: seq<Request>, k: nat)
    requires AllFull(d)
    ensures NoneAbandoned(d, Fresh(start, n, log), k)
    ensures !Owing(After(d, Fresh(start, n, log), k), TraceAfter(d, start, n, log, k))
  {
    hide Next, NextTrace, Inv, Owing, Replaces, Partial, AllFull;
    var s0 := Fresh(start, n, log);
    forall i: nat ensures !Partial(d, After(d, s0, i)) { FullAnswer(d, After(d, s0, i)); }
    LostExact(d, start, n, log, k);
  }

  /** The first `j` commands of a run over `m` reachable units. */
  function Requests(start: nat, m: nat, j: nat): seq<Request>
    requires 16 * j < m + 16
  {
    seq(j, i requires 0 <= i < j => Request((start + 48 * i) % U32_LIMIT, 3 * Least(16, m - 16 * i)))
  }

  lemma NoRequests(start: nat, m: nat)
    ensures Requests(start, m, 0) == []
  {
  }

  function Batches(k: nat): nat {
    (k + 15) / 16
  }

  /** Command `Batches(k)` of a full run, sent when the first `k` units are out. */
  lemma FullRequest(d: Drive, start: nat, n: nat, log: seq<Request>, s: State, t: Trace, k: nat)
    requires AllFull(d) && k < Reachable(n) && NeedsRefill(s)
    requires Inv(d, start, n, s, t) && Aligned(n, t) && !Owing(s, t) && n - s.unitsLeft == k
    requires t.base + t.want == Least(16 * Batches(k), Reachable(n))
    requires s.log == log + Requests(start, Reachable(n), Batches(k))
    ensures k == 16 * Batches(k) && Batches(k + 1) == Batches(k) + 1
    ensures Want(s.unitsLeft) == Least(16, Reachable(n) - k)
    ensures Refill(d, s).0.log == log + Requests(start, Reachable(n), Batches(k + 1))
    ensures Refill(d, s).1 == Ok(true)
  {
    var m, j := Reachable(n), Batches(k);
    FullAnswer(d, s);
    WantIs(n, k);
    DrainedFirst(d, start, n, s, t);
    assert k == 16 * j;
    var r := Request((start + 48 * j) % U32_LIMIT, 3 * Least(16, m - 16 * j));
    assert r == Request(s.nextLba, 3 * Want(s.unitsLeft));
    assert Requests(start, m, j + 1) == Requests(start, m, j) + [r];
    assert log + Requests(start, m, j + 1) == log + Requests(start, m, j) + [r];
  }

  lemma FullCommands(d: Drive, start: nat, n: nat, log: seq<Request>, s: State, t: Trace, k: nat)
    requires AllFull(d) && k < Reachable(n)
    requires Inv(d, start, n, s, t) && Aligned(n, t) && !Owing(s, t) && n - s.unitsLeft == k
    requires t.base + t.want == Least(16 * Batches(k), Reachable(n))
    requires s.log == log + Requests(start, Reachable(n), Batches(k))
    ensures var (s', item) := Next(d, s);
      var t' := NextTrace(d, s, k, t);
      && item.Some? && item.value.Ok?
      && t'.base + t'.want == Least(16 * Batches(k + 1), Reachable(n))
      && s'.log == log + Requests(start, Reachable(n), Batches(k + 1))
  {
    hide Requests;
    if NeedsRefill(s) {
      FullRequest(d, start, n, log, s, t, k);
      DrainedFirst(d, start, n, s, t);
    } else {
      assert Batches(k + 1) == Batches(k);
    }
  }

  lemma FullStep(d: Drive, start: nat, n: nat, log: seq<Request>, s: State, t: Trace, k: nat)
    requires AllFull(d) && k < Reachable(n)
    requires Inv(d, start, n, s, t) && Aligned(n, t) && !Owing(s, t) && n - s.unitsLeft == k
    requires t.base + t.want == Least(16 * Batches(k), Reachable(n))
    requires s.log == log + Requests(start, Reachable(n), Batches(k))
    ensures var (s', item) := Next(d, s);
      var t' := NextTrace(d, s, k, t);
      && item == Some(Ok(Extent(d, BatchedSource(start, k), 3)))
      && n - s'.unitsLeft == k + 1
      && t'.base + t'.want == Least(16 * Batches(k + 1), Reachable(n))
      && s'.log == log + Requests(start, Reachable(n), Batches(k + 1))
  {
    hide Requests, Next, NextTrace, Owing, AllFull, Batches, Source, BatchedSource;
    FullCommands(d, start, n, log, s, t, k);
    InvNext(d, start, n, s, t);
    AlignedNext(d, start, n, s, t);
    SourceInBatch(start, NextTrace(d, s, k, t), k);
  }

  lemma {:induction false} FullReach(d: Drive, start: u64, n: u64, log: seq<Request>, k: nat)
    requires AllFull(d) && k <= Reachable(n)
    ensures var s, t := After(d, Fresh(start, n, log), k), TraceAfter(d, start, n, log, k);
      && Aligned(n, t) && !Owing(s, t) && n - s.unitsLeft == k
      && t.base + t.want == Least(16 * Batches(k), Reachable(n))
      && s.log == log + Requests(start, Reachable(n), Batches(k))
  {
    hide Next, NextTrace, Inv, Owing, NoneAbandoned, Requests, AllFull;
    FullOwesNothing(d, start, n, log, k);
    AlignedReach(d, start, n, log, k);
    if k == 0 {
      NoRequests(start, Reachable(n));
      assert log + Requests(start, Reachable(n), 0) == log;
    } else {
      hide Aligned;
      FullReach(d, start, n, log, k - 1);
      var s, t := After(d, Fresh(start, n, log), k - 1), TraceAfter(d, start, n, log, k - 1);
      FullStep(d, start, n, log, s, t, k - 1);
    }
  }

  lemma EndStep(d: Drive, n: nat, s: State)
    requires AllFull(d) && s.unitsLeft <= n && n - s.unitsLeft == Reachable(n) && NeedsRefill(s)
    ensures var (s', item) := Next(d, s);
      item == None && s'.unitsLeft == s.unitsLeft && NeedsRefill(s')
  {
    WantIs(n, Reachable(n));
    FullAnswer(d, s);
  }

  /** Exhaustion is permanent: once the reachable units are out, every call returns `None`. */
  lemma {:induction false} FullEnd(d: Drive, start: u64, n: u64, log: seq<Request>, k: nat)
    requires AllFull(d) && Reachable(n) <= k
    ensures var s := After(d, Fresh(start, n, log), k);
      n - s.unitsLeft == Reachable(n) && NeedsRefill(s) && Next(d, s).1 == None
  {
    hide Next, NextTrace, Inv;
    var s := After(d, Fresh(start, n, log), k);
    if k == Reachable(n) {
      FullReach(d, start, n, log, k);
      AllTaken(d, start, n, s, TraceAfter(d, start, n, log, k));
    } else {
      FullEnd(d, start, n, log, k - 1);
      EndStep(d, n, After(d, Fresh(start, n, log), k - 1));
    }
    EndStep(d, n, s);
  }

  lemma AllTaken(d: Drive, start: nat, n: nat, s: State, t: Trace)
    requires Inv(d, start, n, s, t) && Aligned(n, t) && n - s.unitsLeft == Reachable(n)
    ensures NeedsRefill(s)
  {
  }

  /** With full reads, call `k` delivers unit `k` while units are reachable, then `None`
      forever, and by then `ceil(k / 16)` commands have been sent, each fully determined. */
  lemma FullReads(d: Drive, start: u64, n: u64, log: seq<Request>, k: nat)
    requires AllFull(d)
    ensures ItemAt(d, Fresh(start, n, log), k) ==
            if k < Reachable(n) then Some(Ok(Extent(d, BatchedSource(start, k), 3))) else None
    ensures k <= Reachable(n) ==>
            After(d, Fresh(start, n, log), k).log == log + Requests(start, Reachable(n), Batches(k))
  {
    var s := After(d, Fresh(start, n, log), k);
    if k < Reachable(n) {
      FullReach(d, start, n, log, k);
      FullStep(d, start, n, log, s, TraceAfter(d, start, n, log, k), k);
    } else {
      FullEnd(d, start, n, log, k);
      if k == Reachable(n) { FullReach(d, start, n, log, k); }
    }
  }

  /** Once no units are left no call changes anything, whatever the drive would answer. */
  lemma {:induction false} EndIsFinal(d: Drive, s: State, m: nat, k: nat)
    requires After(d, s, m).unitsLeft == 0 && m <= k
    ensures After(d, s, k) == After(d, s, m) && ItemAt(d, s, k) == None
  {
    if m < k { EndIsFinal(d, s, m, k - 1); }
  }

  /** So a full run over fewer than 2^32 units sends `ceil(n / 16)` commands in all, however
      long its caller goes on asking. */
  lemma FullRunCommands(d: Drive, start: u64, n: u64, log: seq<Request>, k: nat)
    requires AllFull(d) && n < U32_LIMIT && n <= k
    ensures After(d, Fresh(start, n, log), k).log == log + Requests(start, n, Batches(n))
  {
    hide Next, Requests, AllFull, Batches;
    FullReads(d, start, n, log, n);
    FullEnd(d, start, n, log, n);
    EndIsFinal(d, Fresh(start, n, log), n, k);
  }

  /** The call the documentation describes: unit `k` of the extent, then `None`. */
  function Promised(d: Drive, start: nat, n: nat, k: nat): Item {
    if k < n then Some(Ok(Extent(d, start + 3 * k, 3))) else None
  }

  /** A medium that is blank but for one sector. */
  function Marked(x: nat): Drive {
    Drive(a => if a == x then seq(2048, _ => 1) else seq(2048, _ => 0), _ => Done(0))
  }

  lemma MarkedDiffers(x: nat, a: nat)
    requires a != x
    ensures Extent(Marked(x), a, 3) != Extent(Marked(x), x, 3)
  {
    var d := Marked(x);
    FirstSector(d, a);
    FirstSector(d, x);
    assert d.sector(a)[0] == 0 && d.sector(x)[0] == 1;
  }

  lemma FirstSector(d: Drive, a: nat)
    ensures Extent(d, a, 3)[..2048] == d.sector(a)
  {
    ExtentSlice(d, a, 3, 0, 1);
    assert Extent(d, a, 1) == Extent(d, a, 0) + d.sector(a);
  }

  /** The narrowing casts are harmless exactly for addressable extents: those are the ones
      that every medium, read without faults, delivers as promised. */
  lemma AddressableExact(start: u64, n: u64, log: seq<Request>)
    ensures Addressable(start, n) <==>
      forall d: Drive, k: nat :: AllFull(d) ==> ItemAt(d, Fresh(start, n, log), k) == Promised(d, start, n, k)
  {
    hide ItemAt;
    AddressableSources(start, n);
    if Addressable(start, n) {
      forall d: Drive, k: nat | AllFull(d)
        ensures ItemAt(d, Fresh(start, n, log), k) == Promised(d, start, n, k)
      {
        FullReads(d, start, n, log, k);
      }
    } else {
      var d, k := BrokenPromise(start, n, log);
      assert AllFull(d);
    }
  }

  lemma MarkedIsFull(x: nat)
    ensures AllFull(Marked(x))
  {
  }

  /** Outside, some medium and some call show it. */
  lemma BrokenPromise(start: u64, n: u64, log: seq<Request>) returns (d: Drive, k: nat)
    requires !Addressable(start, n)
    ensures AllFull(d) && ItemAt(d, Fresh(start, n, log), k) != Promised(d, start, n, k)
  {
    hide ItemAt, After, AllFull, Extent, BatchedSource, Marked, Addressable;
    AddressableSources(start, n);
    if Reachable(n) == n {
      k :| k < n && BatchedSource(start, k) != start + 3 * k;
      d := Marked(start + 3 * k);
      MarkedIsFull(start + 3 * k);
      MarkedDiffers(start + 3 * k, BatchedSource(start, k));
    } else {
      k := Reachable(n);
      d := Marked(0);
      MarkedIsFull(0);
    }
    FullReads(d, start, n, log, k);
  }

  /** Two such extents: 2^32 units, of which none is delivered, and a start of 2^32, from
      which sector 0 is read. */
  lemma NarrowingExamples(d: Drive, start: u64, n: u64, log: seq<Request>)
    requires AllFull(d) && Reachable(n) > 0
    ensures ItemAt(d, Fresh(start, 0x1_0000_0000, log), 0) == None
    ensures ItemAt(d, Fresh(0x1_0000_0000, n, log), 0) == Some(Ok(Extent(d, 0, 3)))
  {
    FullReads(d, start, 0x1_0000_0000, log, 0);
    FullReads(d, 0x1_0000_0000, n, log, 0);
  }

  /** For an addressable extent those commands tile it: every sector of the extent lies in
      exactly one of them, and they reach nothing outside it. */
  lemma RequestsTile(start: nat, n: nat, x: nat, i: nat)
    requires Addressable(start, n) && i < Batches(n)
    ensures var r := Requests(start, n, Batches(n))[i];
      && (r.lba <= x < r.lba + r.sectors <==> start <= x < start + 3 * n && i == (x - start) / 48)
      && r.lba < U32_LIMIT && r.sectors <= 48
      && CdbRequest(Read10Cdb(r.lba, r.sectors)) == r
  {
    var r := Requests(start, n, Batches(n))[i];
    assert i <= (n - 1) / 16;
    assert r.lba == start + 48 * i;
    CdbDecodes(r.lba, r.sectors);
    if r.lba <= x < r.lba + r.sectors {
      assert 48 * i <= x - start < 48 * i + 48;
    }
  }
}
