/** Chunking invariance of the frame scanner: the reader appends each read
    to its buffer and drains it, and the frames it publishes do not depend
    on where the reads happened to split the stream, not even when a marker
    straddles two reads. */
module Chunking {
  import opened Scanner

  /** Stated generically so that the solver does not compare frames byte by byte. */
  lemma AppendAssoc<T>(a: seq<T>, b: seq<T>, c: seq<T>)
    ensures a + (b + c) == (a + b) + c
  {
  }

  /** All the reads, joined. */
  function Concat(chunks: seq<Bytes>): Bytes
    decreases |chunks|
  {
    if |chunks| == 0 then [] else chunks[0] + Concat(chunks[1..])
  }

  /** Append each chunk to the buffer and drain it, as the reader does after
      every non-empty read; collects the frames in publication order. */
  function Feed(buffer: Bytes, chunks: seq<Bytes>): (d: Drained)
    decreases |chunks|
  {
    if |chunks| == 0 then Drained([], buffer)
    else
      var first := Drain(buffer + chunks[0]);
      var later := Feed(first.rest, chunks[1..]);
      Drained(first.frames + later.frames, later.rest)
  }

  /** A marker found in a prefix is found at the same place once more bytes arrive. */
  lemma {:induction false} FindMarkerExtend(x: Bytes, y: Bytes, m: Marker, from: nat)
    requires FindMarker(x, m, from) >= 0
    ensures FindMarker(x + y, m, from) == FindMarker(x, m, from)
    decreases |x| - from
  {
    assert (x + y)[from] == x[from] && (x + y)[from + 1] == x[from + 1];
    if !(x[from] == m.first && x[from + 1] == m.second) {
      FindMarkerExtend(x, y, m, from + 1);
    }
  }

  /** Appending bytes to a buffer that holds a complete frame cuts out the
      same frame and appends the bytes to its remainder. */
  lemma ExtractExtend(x: Bytes, y: Bytes)
    requires ExtractFrame(x).Extracted?
    ensures ExtractFrame(x + y) == Extracted(ExtractFrame(x).frame, ExtractFrame(x).rest + y)
  {
    var start := FindMarker(x, SOI, 0);
    FindMarkerExtend(x, y, SOI, 0);
    var end := FindMarker(x, EOI, start + 2);
    FindMarkerExtend(x, y, EOI, start + 2);
    assert (x + y)[start..end + 2] == x[start..end + 2];
    assert (x + y)[end + 2..] == x[end + 2..] + y;
  }

  /** Draining `x + y` is draining `x`, then draining its remainder followed by `y`. */
  lemma {:induction false} DrainAppend(x: Bytes, y: Bytes)
    ensures Drain(x + y) ==
      Drained(Drain(x).frames + Drain(Drain(x).rest + y).frames, Drain(Drain(x).rest + y).rest)
    decreases |x|
  {
    match ExtractFrame(x)
    case Incomplete =>
      assert Drain(x) == Drained([], x);
      assert [] + Drain(x + y).frames == Drain(x + y).frames;
    case Extracted(frame, rest) =>
      ExtractExtend(x, y);
      DrainAppend(rest, y);
      var inner := Drain(rest);
      var outer := Drain(inner.rest + y);
      assert Drain(rest + y) == Drained(inner.frames + outer.frames, outer.rest);
      assert Drain(x) == Drained([frame] + inner.frames, inner.rest);
      assert Drain(x + y) == Drained([frame] + Drain(rest + y).frames, Drain(rest + y).rest);
      AppendAssoc([frame], inner.frames, outer.frames);
  }

  /** Chunking invariance: feeding the reads one by one, draining after each,
      yields the same frames and the same remainder as draining all of them
      at once, from any buffer the scanner has nothing left to take from. */
  lemma {:induction false} ChunkingInvariance(buffer: Bytes, chunks: seq<Bytes>)
    requires !HasCompleteFrame(buffer)
    ensures Feed(buffer, chunks) == Drain(buffer + Concat(chunks))
    decreases |chunks|
  {
    if |chunks| == 0 {
      assert buffer + Concat(chunks) == buffer;
      DrainOfDrainedIsIdentity(buffer);
    } else {
      var first := Drain(buffer + chunks[0]);
      var later := Feed(first.rest, chunks[1..]);
      DrainLeavesNoFrame(buffer + chunks[0]);
      ChunkingInvariance(first.rest, chunks[1..]);
      DrainAppend(buffer + chunks[0], Concat(chunks[1..]));
      AppendAssoc(buffer, chunks[0], Concat(chunks[1..]));
      assert Feed(buffer, chunks) == Drained(first.frames + later.frames, later.rest);
    }
  }

  /** The reader starts with an empty buffer. */
  lemma StreamFramesIgnoreReadBoundaries(chunks: seq<Bytes>)
    ensures Feed([], chunks) == Drain(Concat(chunks))
  {
    assert !HasCompleteFrame([]);
    ChunkingInvariance([], chunks);
    assert [] + Concat(chunks) == Concat(chunks);
  }

  /** An SOI split between two reads: FF | D8 00 FF | D9 yields the one frame. */
  lemma SplitMarkersExample()
    ensures Feed([], [[0xFF], [0xD8, 0x00, 0xFF], [0xD9]]).frames == [[0xFF, 0xD8, 0x00, 0xFF, 0xD9]]
  {
    var chunks: seq<Bytes> := [[0xFF], [0xD8, 0x00, 0xFF], [0xD9]];
    StreamFramesIgnoreReadBoundaries(chunks);
    var all: Bytes := [0xFF, 0xD8, 0x00, 0xFF, 0xD9];
    assert Concat(chunks) == all;
    assert FindMarker(all, SOI, 0) == 0;
    assert FindMarker(all, EOI, 2) == 3;
    assert ExtractFrame(all) == Extracted(all, []);
    assert ExtractFrame([]) == Incomplete;
    assert Drain(all).frames == [all];
  }

  /** Two back-to-back frames in one read are both published, in order. */
  lemma BackToBackFramesExample()
    ensures Drain([0xFF, 0xD8, 0x01, 0xFF, 0xD9, 0xFF, 0xD8, 0x02, 0xFF, 0xD9]).frames
         == [[0xFF, 0xD8, 0x01, 0xFF, 0xD9], [0xFF, 0xD8, 0x02, 0xFF, 0xD9]]
  {
    var all: Bytes := [0xFF, 0xD8, 0x01, 0xFF, 0xD9, 0xFF, 0xD8, 0x02, 0xFF, 0xD9];
    var second: Bytes := [0xFF, 0xD8, 0x02, 0xFF, 0xD9];
    assert FindMarker(all, SOI, 0) == 0;
    assert FindMarker(all, EOI, 2) == 3;
    var first: Bytes := [0xFF, 0xD8, 0x01, 0xFF, 0xD9];
    assert all[..5] == first && all[5..] == second;
    assert ExtractFrame(all) == Extracted(first, second);
    assert FindMarker(second, SOI, 0) == 0;
    assert FindMarker(second, EOI, 2) == 3;
    assert ExtractFrame(second) == Extracted(second, []);
    assert ExtractFrame([]) == Incomplete;
    assert Drain(second).frames == [second];
    assert Drain(all).frames == [first] + [second];
  }
}
