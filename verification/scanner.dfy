/** The JPEG frame boundary scanner of the stream service: it cuts complete
    images out of the unframed byte stream that the decoder writes.

    A frame runs from the first start-of-image marker (SOI, FF D8) to the
    first end-of-image marker (EOI, FF D9) found at least two bytes after it;
    both markers are those of ITU-T T.81 (JPEG), Table B.1. */
module Scanner {

  type Bytes = seq<bv8>

  /** A two-byte marker. */
  datatype Marker = Marker(first: bv8, second: bv8)

  const SOI: Marker := Marker(0xFF, 0xD8)
  const EOI: Marker := Marker(0xFF, 0xD9)

  /** `m` occurs in `data` at index `i`. */
  predicate MarkerAt(data: Bytes, m: Marker, i: int)
  {
    0 <= i && i + 1 < |data| && data[i] == m.first && data[i + 1] == m.second
  }

  /** Linear search for `m` from `startIndex` on: the index of the first
      occurrence, or -1 when there is none (also when `startIndex` lies past
      the last position a marker can start at). */
  function FindMarker(data: Bytes, m: Marker, startIndex: nat): (r: int)
    ensures r == -1 || (startIndex <= r && MarkerAt(data, m, r))
    ensures forall i :: startIndex <= i && (r == -1 || i < r) ==> !MarkerAt(data, m, i)
    decreases |data| - startIndex
  {
    if startIndex + 2 > |data| then -1
    else if data[startIndex] == m.first && data[startIndex + 1] == m.second then startIndex
    else FindMarker(data, m, startIndex + 1)
  }

  /** The buffer holds some SOI with some EOI at least two bytes after it. */
  ghost predicate HasCompleteFrame(data: Bytes)
  {
    exists s, e :: MarkerAt(data, SOI, s) && MarkerAt(data, EOI, e) && s + 2 <= e
  }

  /** `s` is the first SOI of `data` and `e` the first EOI at or after `s + 2`. */
  ghost predicate FirstFrameAt(data: Bytes, s: int, e: int)
  {
    && MarkerAt(data, SOI, s)
    && (forall i :: 0 <= i < s ==> !MarkerAt(data, SOI, i))
    && s + 2 <= e
    && MarkerAt(data, EOI, e)
    && (forall i :: s + 2 <= i < e ==> !MarkerAt(data, EOI, i))
  }

  /** A complete encoded image: SOI first, EOI last, at least four bytes. */
  predicate IsJpegShaped(f: Bytes)
  {
    |f| >= 4 && f[0] == 0xFF && f[1] == 0xD8 && f[|f| - 2] == 0xFF && f[|f| - 1] == 0xD9
  }

  /** The result of one pass of the scanner over the buffer. */
  datatype Extraction = Extracted(frame: Bytes, rest: Bytes) | Incomplete

  /** One pass of the scanner: cut out the first complete frame and keep
      what follows its EOI, or report that no complete frame is there yet
      (the buffer is then kept whole by the caller). */
  function ExtractFrame(data: Bytes): (x: Extraction)
    ensures x.Extracted? ==> IsJpegShaped(x.frame) && |x.frame| + |x.rest| <= |data|
  {
    var start := FindMarker(data, SOI, 0);
    if start < 0 then Incomplete
    else
      var end := FindMarker(data, EOI, start + 2);
      if end < 0 then Incomplete
      else Extracted(data[start..end + 2], data[end + 2..])
  }

  /** The scanner reports "no frame yet" exactly when the buffer holds no
      SOI followed, two bytes or more later, by an EOI; otherwise it cuts
      from the first SOI to the first EOI after it, drops what precedes the
      SOI and keeps exactly what follows the EOI. */
  lemma ExtractFrameSpec(data: Bytes)
    ensures ExtractFrame(data).Incomplete? <==> !HasCompleteFrame(data)
    ensures ExtractFrame(data).Extracted? ==>
      exists s, e :: && FirstFrameAt(data, s, e)
                     && ExtractFrame(data).frame == data[s..e + 2]
                     && ExtractFrame(data).rest == data[e + 2..]
  {
    var start := FindMarker(data, SOI, 0);
    if start >= 0 {
      var end := FindMarker(data, EOI, start + 2);
      if end >= 0 {
        assert FirstFrameAt(data, start, end);
      }
    }
  }

  /** `f` occurs in `data` starting at index `k`. */
  ghost predicate PlacedAt(data: Bytes, f: Bytes, k: int)
  {
    0 <= k && k + |f| <= |data| && data[k..k + |f|] == f
  }

  /** `data` is made of (garbage, frames[0]), (garbage, frames[1]), ... in
      this order, followed by exactly `rest`: no byte is reordered and
      nothing after the last frame is lost. */
  ghost predicate Layout(data: Bytes, frames: seq<Bytes>, rest: Bytes)
    decreases |frames|
  {
    if |frames| == 0 then data == rest
    else exists k :: PlacedAt(data, frames[0], k) && Layout(data[k + |frames[0]|..], frames[1..], rest)
  }

  /** Extending a layout of the remainder by the frame just extracted. */
  lemma LayoutCons(data: Bytes, frame: Bytes, rest: Bytes, frames: seq<Bytes>, tail: Bytes)
    requires ExtractFrame(data) == Extracted(frame, rest)
    requires Layout(rest, frames, tail)
    ensures Layout(data, [frame] + frames, tail)
  {
    var s := FindMarker(data, SOI, 0);
    var e := FindMarker(data, EOI, s + 2);
    assert frame == data[s..e + 2] && rest == data[e + 2..];
    var all := [frame] + frames;
    ConsParts(frame, frames);
    assert PlacedAt(data, all[0], s);
    assert data[s + |all[0]|..] == rest;
    assert Layout(data[s + |all[0]|..], all[1..], tail);
  }

  /** Stated generically so that the solver does not compare frames byte by byte. */
  lemma ConsParts<T>(x: T, xs: seq<T>)
    ensures ([x] + xs)[0] == x && ([x] + xs)[1..] == xs
  {
  }

  /** The frames cut out of a buffer, in order, and what is left of it. */
  datatype Drained = Drained(frames: seq<Bytes>, rest: Bytes)

  /** Apply the scanner until it finds no complete frame. */
  function Drain(data: Bytes): (d: Drained)
    ensures forall f :: f in d.frames ==> IsJpegShaped(f)
    ensures ExtractFrame(d.rest).Incomplete?
    decreases |data|
  {
    match ExtractFrame(data)
    case Incomplete => Drained([], data)
    case Extracted(frame, rest) =>
      var d := Drain(rest);
      Drained([frame] + d.frames, d.rest)
  }

  /** Frames come out in stream order, separated only by skipped bytes, and
      the remainder is exactly the tail of the buffer; each frame takes at
      least four bytes. */
  lemma {:induction false} DrainLayout(data: Bytes)
    ensures Layout(data, Drain(data).frames, Drain(data).rest)
    ensures |Drain(data).rest| + 4 * |Drain(data).frames| <= |data|
    decreases |data|
  {
    match ExtractFrame(data)
    case Incomplete =>
    case Extracted(frame, rest) =>
      DrainLayout(rest);
      LayoutCons(data, frame, rest, Drain(rest).frames, Drain(rest).rest);
  }

  /** After draining, no complete frame is left in the buffer. */
  lemma DrainLeavesNoFrame(data: Bytes)
    ensures !HasCompleteFrame(Drain(data).rest)
  {
    ExtractFrameSpec(Drain(data).rest);
  }

  /** A buffer with no complete frame is left untouched by draining. */
  lemma DrainOfDrainedIsIdentity(data: Bytes)
    requires !HasCompleteFrame(data)
    ensures Drain(data) == Drained([], data)
  {
    ExtractFrameSpec(data);
  }

  /** The scanner's two early exits leave the buffer as it is. */
  lemma DrainWhenIncomplete(data: Bytes)
    requires FindMarker(data, SOI, 0) < 0 || FindMarker(data, EOI, FindMarker(data, SOI, 0) + 2) < 0
    ensures Drain(data) == Drained([], data)
  {
  }

  /** Draining publishes the frame from the first SOI to the first EOI two
      or more bytes after it, then drains exactly what follows that EOI. */
  lemma DrainWhenExtracted(data: Bytes, s: int, e: int)
    requires FirstFrameAt(data, s, e)
    ensures Drain(data) == Drained([data[s..e + 2]] + Drain(data[e + 2..]).frames, Drain(data[e + 2..]).rest)
  {
    assert FindMarker(data, SOI, 0) == s;
    assert FindMarker(data, EOI, s + 2) == e;
    assert ExtractFrame(data) == Extracted(data[s..e + 2], data[e + 2..]);
  }

  /** The inner `while (true)` loop of the reader, step by step as the
      program runs it: search SOI, then EOI after it, publish the slice,
      keep the tail. */
  method DrainBuffer(buffer: Bytes) returns (frames: seq<Bytes>, rest: Bytes)
    ensures Drained(frames, rest) == Drain(buffer)
    ensures !HasCompleteFrame(rest)
  {
    DrainLeavesNoFrame(buffer);
    frames := [];
    rest := buffer;
    while true
      invariant Drain(buffer) == Drained(frames + Drain(rest).frames, Drain(rest).rest)
      decreases |rest|
    {
      var start := FindMarker(rest, SOI, 0);
      if start < 0 {
        DrainWhenIncomplete(rest);
        break;
      }
      var end := FindMarker(rest, EOI, start + 2);
      if end < 0 {
        DrainWhenIncomplete(rest);
        break;
      }
      var jpeg := rest[start..end + 2];
      DrainWhenExtracted(rest, start, end);
      assert frames + Drain(rest).frames == (frames + [jpeg]) + Drain(rest[end + 2..]).frames;
      frames := frames + [jpeg];
      rest := rest[end + 2..];
    }
  }
}
