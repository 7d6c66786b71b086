/** The stream of Aligned Units every read backend produces. */
module UnitStream {
  import opened Wrappers
  import opened Bytes
  import opened Content

  type IoError = int

  /** What one call of `next` hands out: `None` ends a `for` loop over the iterator. */
  type Item = Option<Result<Unit, IoError>>

  function Units(item: Item): seq<Unit> {
    if item.Some? && item.value.Ok? then [item.value.value] else []
  }

  /** The bytes of a run of units. */
  function Join(us: seq<Unit>): (s: seq<byte>)
    ensures |s| == ALIGNED_UNIT_LEN * |us|
  {
    if us == [] then [] else us[0] + Join(us[1..])
  }
}
