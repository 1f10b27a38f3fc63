/** The single latest-frame slot of the stream service and its freshness
    rule. The wall clock is an integer count of 100-nanosecond ticks, the
    unit of a .NET `DateTime`. */
module FrameSlot {
  import opened Opt
  import Scanner

  const TicksPerSecond: int := 10_000_000
  /** A frame older than this many seconds is not handed out. */
  const FreshnessSeconds: int := 5
  /** `DateTime.MinValue`, the time stamp before any frame has arrived. */
  const MinTime: int := 0

  /** The stored frame (absent until the first one arrives) and when it arrived. */
  datatype Slot = Slot(current: Option<Scanner.Bytes>, lastFrameTime: int)

  const Empty: Slot := Slot(None, MinTime)

  /** `(now - lastFrameTime).TotalSeconds > 5`, on whole ticks. */
  predicate IsStale(slot: Slot, now: int)
  {
    now - slot.lastFrameTime > FreshnessSeconds * TicksPerSecond
  }

  /** Replace the stored frame and stamp it with the current time. */
  function Publish(slot: Slot, frame: Scanner.Bytes, now: int): (r: Slot)
    ensures r.current == Some(frame) && !IsStale(r, now)
  {
    Slot(Some(frame), now)
  }

  /** The stored frame, unless there is none or it is more than five seconds old. */
  function Get(slot: Slot, now: int): (r: Option<Scanner.Bytes>)
    ensures r.Some? <==> slot.current.Some? && now - slot.lastFrameTime <= 5 * TicksPerSecond
    ensures r.Some? ==> r == slot.current
  {
    if slot.current.None? || IsStale(slot, now) then None else slot.current
  }

  /** Before any frame is published nothing is handed out, whatever the time. */
  lemma NothingBeforeFirstFrame(now: int)
    ensures Get(Empty, now) == None
  {
  }

  /** A published frame is handed out for exactly five seconds after it
      arrived, the fifth second included, and never after. */
  lemma FreshForFiveSeconds(slot: Slot, frame: Scanner.Bytes, at: int, now: int)
    ensures Get(Publish(slot, frame, at), now) == Some(frame) <==> now - at <= 5 * TicksPerSecond
    ensures Get(Publish(slot, frame, at), now) == None <==> now - at > 5 * TicksPerSecond
  {
  }

  /** Publishing several frames at one instant leaves the last of them. */
  function PublishAll(slot: Slot, frames: seq<Scanner.Bytes>, now: int): (r: Slot)
    ensures |frames| == 0 ==> r == slot
    ensures |frames| > 0 ==> r == Slot(Some(frames[|frames| - 1]), now)
    decreases |frames|
  {
    if |frames| == 0 then slot
    else PublishAll(Publish(slot, frames[0], now), frames[1..], now)
  }
}
