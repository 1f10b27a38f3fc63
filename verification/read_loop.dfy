/** The background read loop of the stream service. The decoder's standard
    output is a given sequence of read events; each carries the clock value
    at which its frames are stamped. */
module ReadLoop {
  import opened Opt
  import opened Scanner
  import opened FrameSlot
  import opened StreamService
  import Chunking

  /** The loop gives up after more than this many consecutive empty reads. */
  const MaxEmptyReads: nat := 30

  /** What one iteration of the loop observes: a read returning `bytes`
      (empty at end of stream) at time `now`, a read that throws, or the
      decoder found to have exited when the loop condition is tested. */
  datatype ReadEvent = Chunk(bytes: Bytes, now: int) | ReadFault | ProcessExited

  /** The loop's own variables: the accumulation buffer, the count of
      consecutive empty reads and every frame published so far. */
  datatype LoopState = LoopState(buffer: Bytes, emptyReads: nat, delivered: seq<Bytes>)

  const Initial: LoopState := LoopState([], 0, [])

  /** Why the loop ended: stopped or decoder gone, a read threw, or the
      stream stayed silent too long. */
  datatype ExitReason = Halted | Faulted | Silence

  datatype Progress =
    | Continue(svc: Service, loop: LoopState)
    | Exit(svc: Service, loop: LoopState, reason: ExitReason)

  /** One iteration of the loop. */
  function Step(s: Service, l: LoopState, ev: ReadEvent): (p: Progress)
    ensures p.Exit? ==> p.svc == s.(isRunning := false)
    ensures p.Continue? ==> p.svc.isRunning && p.svc.(slot := s.slot) == s
    ensures (!s.isRunning || ev.ProcessExited?) ==> p == Exit(s.(isRunning := false), l, Halted)
    ensures s.isRunning && ev.ReadFault? ==> p == Exit(s.(isRunning := false), l, Faulted)
    ensures s.isRunning && ev.Chunk? && |ev.bytes| == 0 ==>
      && p.loop == l.(emptyReads := l.emptyReads + 1)
      && (p.Exit? <==> l.emptyReads + 1 > MaxEmptyReads)
      && (p.Exit? ==> p.reason == Silence)
    ensures s.isRunning && ev.Chunk? && |ev.bytes| > 0 ==>
      var d := Drain(l.buffer + ev.bytes);
      && p.Continue?
      && p.loop == LoopState(d.rest, 0, l.delivered + d.frames)
      && (|d.frames| == 0 ==> p.svc.slot == s.slot)
      && (|d.frames| > 0 ==> p.svc.slot == Slot(Some(d.frames[|d.frames| - 1]), ev.now))
  {
    if !s.isRunning || ev.ProcessExited? then Exit(s.(isRunning := false), l, Halted)
    else match ev
      case ReadFault => Exit(s.(isRunning := false), l, Faulted)
      case Chunk(bytes, now) =>
        if |bytes| == 0 then
          var counted := l.(emptyReads := l.emptyReads + 1);
          if counted.emptyReads > MaxEmptyReads then Exit(s.(isRunning := false), counted, Silence)
          else Continue(s, counted)
        else
          var d := Drain(l.buffer + bytes);
          Continue(s.(slot := PublishAll(s.slot, d.frames, now)), LoopState(d.rest, 0, l.delivered + d.frames))
  }

  datatype RunResult = RunResult(svc: Service, loop: LoopState, exit: Option<ExitReason>)

  /** Iterate until the loop exits or the events run out (`exit` is then
      `None`: the loop is still running). */
  function Run(s: Service, l: LoopState, events: seq<ReadEvent>): RunResult
    decreases |events|
  {
    if |events| == 0 then RunResult(s, l, None)
    else match Step(s, l, events[0])
      case Exit(s', l', why) => RunResult(s', l', Some(why))
      case Continue(s', l') => Run(s', l', events[1..])
  }

  /** The bytes the events deliver, in order. */
  function StreamBytes(events: seq<ReadEvent>): Bytes
    decreases |events|
  {
    if |events| == 0 then []
    else (if events[0].Chunk? then events[0].bytes else []) + StreamBytes(events[1..])
  }

  /** While the loop runs, what it has published and what it still buffers
      are exactly what draining all the bytes read so far in one piece would
      give: frames come out once each, in stream order, however the reads
      split the stream. */
  lemma {:induction false} RunDeliversDrainOfStream(s: Service, l: LoopState, events: seq<ReadEvent>)
    requires !HasCompleteFrame(l.buffer)
    requires Run(s, l, events).exit.None?
    ensures Run(s, l, events).loop.delivered == l.delivered + Drain(l.buffer + StreamBytes(events)).frames
    ensures Run(s, l, events).loop.buffer == Drain(l.buffer + StreamBytes(events)).rest
    decreases |events|
  {
    if |events| == 0 {
      DrainOfDrainedIsIdentity(l.buffer);
      assert l.buffer + StreamBytes(events) == l.buffer;
    } else {
      var tail := events[1..];
      var p := Step(s, l, events[0]);
      var bytes := events[0].bytes;
      assert p.Continue?;
      assert StreamBytes(events) == bytes + StreamBytes(tail);
      Chunking.AppendAssoc(l.buffer, bytes, StreamBytes(tail));
      if |bytes| == 0 {
        assert l.buffer + bytes == l.buffer;
        RunDeliversDrainOfStream(p.svc, p.loop, tail);
      } else {
        var d := Drain(l.buffer + bytes);
        DrainLeavesNoFrame(l.buffer + bytes);
        RunDeliversDrainOfStream(p.svc, p.loop, tail);
        Chunking.DrainAppend(l.buffer + bytes, StreamBytes(tail));
        Chunking.AppendAssoc(l.delivered, d.frames, Drain(d.rest + StreamBytes(tail)).frames);
      }
    }
  }

  /** Every event is an empty read. */
  predicate AllEmpty(events: seq<ReadEvent>)
  {
    forall k :: 0 <= k < |events| ==> events[k].Chunk? && |events[k].bytes| == 0
  }

  /** A run of empty reads ends the loop exactly when the count of
      consecutive empty reads passes thirty; until then the count grows by
      one per read. */
  lemma {:induction false} EmptyReadsEndLoop(s: Service, l: LoopState, events: seq<ReadEvent>)
    requires s.isRunning && l.emptyReads <= MaxEmptyReads
    requires AllEmpty(events)
    ensures Run(s, l, events).exit.Some? <==> l.emptyReads + |events| > MaxEmptyReads
    ensures Run(s, l, events).exit.Some? ==> Run(s, l, events).exit == Some(Silence)
    ensures Run(s, l, events).exit.None? ==>
      Run(s, l, events).loop == l.(emptyReads := l.emptyReads + |events|)
    decreases |events|
  {
    if |events| > 0 {
      var p := Step(s, l, events[0]);
      if p.Continue? {
        assert AllEmpty(events[1..]) by {
          forall k | 0 <= k < |events| - 1 ensures events[1..][k] == events[k + 1] { }
        }
        EmptyReadsEndLoop(p.svc, p.loop, events[1..]);
      }
    }
  }

  /** After a non-empty read, thirty empty reads leave the loop running and
      the thirty-first ends it. */
  lemma ThirtyFirstEmptyReadEndsLoop(s: Service, l: LoopState, events: seq<ReadEvent>)
    requires s.isRunning && l.emptyReads == 0
    requires AllEmpty(events)
    ensures |events| == 30 ==> Run(s, l, events).exit.None?
    ensures |events| == 31 ==> Run(s, l, events).exit == Some(Silence)
  {
    EmptyReadsEndLoop(s, l, events);
  }

  /** Once the service is disposed the loop ends at its next iteration,
      without reading. */
  lemma DisposeHaltsLoop(s: Service, l: LoopState, ev: ReadEvent)
    ensures Step(Dispose(s), l, ev) == Exit(Dispose(s), l, Halted)
  {
  }
}
