# RtspViewer frame extraction, modelled in Dafny

RtspViewer shows a live RTSP camera in the browser as a series of still
images. The `RtspStreamService` has an external decoder (ffmpeg) write
JPEG images back to back on its standard output. A background loop reads
that unframed byte stream and cuts complete images out of it. It keeps
only the most recent image, and hands it out while it is at most five
seconds old. The `VideoController` builds the stream URL with escaped
credentials and starts the service. It then polls until the first image
arrives, an error is reported, or ten seconds pass. It also serves the
latest image and stops the service.

The model is functional. Byte streams are `seq<bv8>`. The scanner and the
drain loop are pure functions. The service, the read loop and the
controller are immutable records driven by explicit events. The clock is
an integer count of 100 ns ticks, the unit of a .NET `DateTime`.

Modules, one per component:

- `Scanner` (scanner.dfy): `FindMarker`, one extraction pass (`ExtractFrame`), the drain loop (`Drain`, and `DrainBuffer` written as the program's `while (true)` loop). A frame runs from the first SOI marker `FF D8` to the first EOI marker `FF D9` at least two bytes later. These are the SOI and EOI markers of ITU-T T.81, Table B.1.
- `Chunking` (chunking.dfy): feeding reads one at a time, and the chunking-invariance theorem.
- `FrameSlot` (frame_slot.dfy): the latest-frame slot and its five-second freshness rule.
- `Diagnostics` (diagnostics.dfy): classification of the decoder's standard-error lines.
- `StreamService` (service.dfy): `Start` with its running guard, the stderr handler, `GetFrame` and `Dispose`.
- `ReadLoop` (read_loop.dfy): the read loop over a sequence of read events, with the consecutive-empty-read counter.
- `UriEscape` (uri_escape.dfy): `Uri.EscapeDataString`. Unreserved characters of RFC 3986 section 2.3 are kept. Every other character becomes its UTF-8 bytes (RFC 3629), each percent-encoded as in RFC 3986 section 2.1.
- `Credentials` (credentials.dfy): splicing the escaped credentials into the URL.
- `Video` (video.dfy): the controller's `Start`, `Stop` and `Frame` actions.
- `Opt` (opt.dfy): `Option` for C# `null`, and `Result` for a caught exception.

The loop ends on the 31st consecutive empty read, not the 30th. The code
tests `emptyReads > 30` after incrementing the counter, and the model
follows the code.

## Model

| member | source | states |
|---|---|---|
| Scanner.FindMarker | Services/RtspStreamService.cs:139-145 | The result is either -1 or the smallest index `i >= startIndex` at which the two marker bytes occur. It is -1 exactly when no such index exists, which includes a start index past the last place a marker fits. |
| Scanner.ExtractFrame | Services/RtspStreamService.cs:106-113 | An extracted frame starts with `FF D8`, ends with `FF D9` and is at least 4 bytes long. The frame and the remainder together are no longer than the buffer, so every extraction shrinks the buffer by at least 4 bytes. |
| Scanner.ExtractFrameSpec | Services/RtspStreamService.cs:106-113 | A pass finds no frame exactly when no SOI has an EOI two or more bytes after it. Otherwise the frame is `data[s..e+2]`, where `s` is the first SOI and `e` the first EOI at or after `s+2`. The remainder is exactly `data[e+2..]`: bytes before the SOI are dropped and nothing after the EOI is lost. |
| Scanner.Drain | Services/RtspStreamService.cs:104-126 | Every drained frame is JPEG-shaped (SOI first, EOI last, at least 4 bytes). After draining, no complete frame is left in the buffer. Termination follows from the 4-byte shrink. |
| Scanner.DrainLayout | Services/RtspStreamService.cs:104-126 | The buffer is made of skipped bytes and frames in publication order, followed by exactly the remainder. No byte is reordered or duplicated, and the remainder plus 4 bytes per frame fits in the buffer. |
| Scanner.DrainLeavesNoFrame | Services/RtspStreamService.cs:104-111 | The final buffer holds no SOI with an EOI two or more bytes after it. |
| Scanner.DrainOfDrainedIsIdentity | Services/RtspStreamService.cs:107-111 | With no complete frame, the loop publishes nothing and leaves the buffer unchanged. |
| Scanner.DrainWhenExtracted | Services/RtspStreamService.cs:107-125 | If s is the first SOI and e is the first EOI at least two bytes after it, draining publishes exactly `data[s..e+2]` first. It then drains exactly the bytes after that EOI. |
| Scanner.DrainBuffer | Services/RtspStreamService.cs:104-126 | The program's imperative `while (true)` loop publishes the same frames and keeps the same remainder as `Drain`. The remainder holds no complete frame. |
| Chunking.FindMarkerExtend | Services/RtspStreamService.cs:139-145 | A marker found in a buffer is found at the same index after more bytes are appended. |
| Chunking.ExtractExtend | Services/RtspStreamService.cs:101-113 | Appending bytes to a buffer that holds a complete frame yields the same frame, with the new bytes added after the old remainder. |
| Chunking.DrainAppend | Services/RtspStreamService.cs:101-126 | Draining `x + y` gives the frames of draining `x`, then the frames of draining its remainder followed by `y`. |
| Chunking.ChunkingInvariance | Services/RtspStreamService.cs:101-126 | Start from a buffer with no complete frame. Appending the reads one at a time and draining after each gives the same frames and remainder as draining all the reads joined. This holds for every split, including one between the two bytes of a marker. |
| Chunking.StreamFramesIgnoreReadBoundaries | Services/RtspStreamService.cs:82-126 | From the initial empty buffer, the frames published depend only on the concatenated stream. |
| Chunking.SplitMarkersExample | Services/RtspStreamService.cs:101-126 | The reads `FF`, `D8 00 FF`, `D9` split both markers and still yield exactly the one frame `FF D8 00 FF D9`. |
| Chunking.BackToBackFramesExample | Services/RtspStreamService.cs:104-126 | Two frames back to back in one read are both published, in stream order. |
| FrameSlot.Publish | Services/RtspStreamService.cs:115-119 | Publishing stores the frame, and the frame is fresh at the instant of publication. |
| FrameSlot.Get | Services/RtspStreamService.cs:147-157 | A frame is returned exactly when one is stored and at most 5 seconds (50,000,000 ticks) have passed since it arrived. The frame returned is the stored one. |
| FrameSlot.NothingBeforeFirstFrame | Services/RtspStreamService.cs:8-11 | Before the first frame, `GetFrame` returns null at any time. |
| FrameSlot.FreshForFiveSeconds | Services/RtspStreamService.cs:152-155 | A frame published at time `t` is returned exactly while `now - t <= 5 s`, so at exactly 5 s it is still returned. After that the result is null. |
| FrameSlot.PublishAll | Services/RtspStreamService.cs:115-119 | Publishing several frames in turn leaves the last of them in the slot. With no frames, the slot is unchanged. |
| Diagnostics.ContainsFrom | Services/RtspStreamService.cs:63-64 | The search succeeds exactly when the needle occurs at some index from `from` on, comparing ASCII letters case-insensitively. |
| Diagnostics.NonMatchingLinesKeepLastError | Services/RtspStreamService.cs:58-66 | Lines that are null, empty, or mention neither "error" nor "failed" leave the last error as it was. |
| Diagnostics.LatestErrorLineWins | Services/RtspStreamService.cs:58-66 | After a run of lines, the last error is the latest line that mentions "error" or "failed". A later matching line overwrites an earlier one. |
| Diagnostics.ConnectionFailedIsRecorded | Services/RtspStreamService.cs:63-65 | "Connection FAILED" is recorded as the last error, whatever its letter case. |
| StreamService.Start | Services/RtspStreamService.cs:16-72 | `Start` is a no-op while the service runs. Otherwise it clears the last error and keeps the stored frame. An empty URL makes the masking `Replace` throw an `ArgumentException`; no decoder process is created and nothing else changes. For any other URL, the service runs with its decoder alive and that URL exactly when the launch succeeds. If the launch throws, the exception escapes with the service not running and its process created. |
| StreamService.OnErrorData | Services/RtspStreamService.cs:58-66 | A matching stderr line becomes the last error, and any other line leaves it. Nothing else in the service changes. |
| StreamService.Dispose | Services/RtspStreamService.cs:159-165 | After disposal the service is not running and no decoder is alive. The stored frame, the last error and the URL are kept. |
| StreamService.DisposeIdempotent | Services/RtspStreamService.cs:159-165 | Disposing twice is the same as disposing once. |
| StreamService.RestartClearsLastError | Services/RtspStreamService.cs:18-20 | An error recorded from stderr is gone after the service is disposed and started again. |
| ReadLoop.Step | Services/RtspStreamService.cs:86-126 | The loop exits, with the service no longer running, in these cases: it was stopped, the decoder exited, a read threw, or a 31st consecutive empty read arrived. An empty read increments the counter. A non-empty read resets the counter to 0, drains the buffer, appends the drained frames to those published, and leaves the last of them in the slot stamped with the read's time. |
| ReadLoop.RunDeliversDrainOfStream | Services/RtspStreamService.cs:86-126 | While the loop runs, the frames published and the bytes still buffered are exactly what one drain of all the bytes read so far would give. Each frame is published once, in stream order, whatever the read sizes. |
| ReadLoop.EmptyReadsEndLoop | Services/RtspStreamService.cs:92-100 | A run of empty reads ends the loop, for reason `Silence`, exactly when the consecutive count passes 30. Until then the count grows by one per read. |
| ReadLoop.ThirtyFirstEmptyReadEndsLoop | Services/RtspStreamService.cs:92-100 | After a non-empty read, 30 empty reads leave the loop running, and the 31st ends it. |
| ReadLoop.DisposeHaltsLoop | Services/RtspStreamService.cs:159-161 | Once the service is disposed, the loop ends at its next iteration without reading. |
| UriEscape.Escape | Controllers/VideoController.cs:25-26 | Escaped text contains only unreserved characters and `%`. A string made only of unreserved characters is left unchanged. |
| UriEscape.EscapedHasNoDelimiters | Controllers/VideoController.cs:25-26 | Escaped credentials contain no `:`, `@` or `/`. |
| UriEscape.EscapeRoundTrip | Controllers/VideoController.cs:25-26 | Percent-decoding the escaped text gives back exactly the UTF-8 bytes of the original string. |
| Credentials.ReplaceWithoutOccurrence | Controllers/VideoController.cs:27 | A string without the pattern is left exactly as it is by `Replace`. |
| Credentials.ReplaceAtFirstOccurrence | Controllers/VideoController.cs:27 | `Replace` rewrites the first occurrence and continues right after it, so every occurrence is rewritten, left to right. |
| Credentials.BuildUrl | Controllers/VideoController.cs:21-32 | With a null or empty user name the URL is used exactly as given. With a user name and a null password, escaping throws an argument-null exception. |
| Credentials.UrlWithoutSeparatorUnchanged | Controllers/VideoController.cs:22-32 | A URL without "://" is used unchanged, with or without credentials. |
| Credentials.SpliceAtSeparator | Controllers/VideoController.cs:25-27 | With a user name, the first "://" becomes "://" + esc(user) + ":" + esc(password) + "@". The rest of the URL gets the same replacement. |
| Credentials.SingleSeparatorUrl | Controllers/VideoController.cs:24-27 | In a URL with one "://", the user information comes right after it. Between "://" and "@" there are only escaped characters and the one separating `:`. |
| Video.Retire | Controllers/VideoController.cs:17 | The previous service, if any, is disposed. |
| Video.PollFromFrame | Controllers/VideoController.cs:37-41 | Polling succeeds exactly when some poll sees a frame and no earlier poll saw a frame or a non-empty error. |
| Video.PollFromError | Controllers/VideoController.cs:37-44 | Polling reports an error exactly when some poll sees no frame but a non-empty error, and no earlier poll saw either. The reported text is that poll's error. |
| Video.PollFromTimeout | Controllers/VideoController.cs:37-47 | Polling times out after all 20 polls exactly when no poll sees a frame or a non-empty error. |
| Video.FrameCheckedBeforeError | Controllers/VideoController.cs:41-45 | A poll that sees both a frame and an error reports success, because the frame is checked first. |
| Video.Start | Controllers/VideoController.cs:13-54 | The old service is disposed and a new one takes its place. The reply succeeds exactly when the URL can be built and is not empty, the launch succeeds and the polls see a frame first. A failed reply carries the exception message, which includes the empty-URL `ArgumentException`. Otherwise it carries the text of the first decoder error the polls saw, or the timeout message. A started service has the spliced URL and no last error. |
| Video.Stop | Controllers/VideoController.cs:57-62 | `Stop` always replies with success, disposes the old service and leaves no service. |
| Video.Frame | Controllers/VideoController.cs:65-72 | `Frame` replies "not found" exactly when there is no service or `GetFrame` returns null. Otherwise it replies with those bytes. |
| Video.StopThenFrameIsNotFound | Controllers/VideoController.cs:57-68 | After `Stop`, `Frame` replies "not found" at any time. |
| Video.StopTwice | Controllers/VideoController.cs:57-62 | A second `Stop` leaves the controller as the first one did, replies with success, and has nothing left to dispose. |
| Video.FreshServiceHasNoFrame | Controllers/VideoController.cs:18-35 | A newly created and started service serves no frame until its read loop publishes one. |

## Left out

- Spawning ffmpeg, its argument string and the console line that masks the URL (Services/RtspStreamService.cs:28-56, 69-70). Whether the launch succeeds is a parameter (`Launch`). The only way the argument string affects behaviour is the masking `Replace`, which throws for an empty URL. `StreamService.Start` models that throw. `EmptyUrlMessage` uses the text .NET gives for a zero-length search string; other runtime versions word it differently.
- Concurrency and timing are not modelled: `Task.Run`, `await` on reads, `Task.Delay`, `Thread.Sleep`, the `lock`, the unsynchronised `_isRunning` flag and the static service slot. Reads are a given sequence of events. The controller's polls are a given sequence of observations of the service.
- `DateTime.Now` is replaced by integer ticks carried by each read event. `TotalSeconds > 5` is compared on whole ticks (more than 50,000,000).
- FrameSlot.PublishAll: all frames cut from one read are stamped with that read's clock value. The program reads the clock once per frame, so the model does not capture the clock advancing while one read is drained.
- Diagnostics.ContainsFrom: folds only the ASCII letters A to Z. Case-insensitive matching of non-ASCII characters that `OrdinalIgnoreCase` might map onto these letters is not modelled.
- UriEscape.Escape: Dafny characters are Unicode scalar values. The behaviour of `Uri.EscapeDataString` on lone UTF-16 surrogates cannot be expressed. UTF-8 decoding back to characters is not modelled: the round trip stops at the bytes.
- Video.Start: the controller keeps the service as it was right after launch. How its read loop changes it later is represented only by the observations the polls see.
- Console logging, including the progress message every 30 frames.
- The MVC result objects and the `Cache-Control: no-cache` header. Replies are the small `Reply` datatype.
- A null `rtspUrl` is not modelled, because the model takes the URL as a string.
- The early return of the read loop when the decoder has no output stream (Services/RtspStreamService.cs:78). A started decoder always has one.
- The 256 KiB read buffer (Services/RtspStreamService.cs:81). It bounds each read, but the properties hold for reads of any length, so read length is left unbounded.
- 32-bit integer overflow is not modelled. Indices are bounded by array lengths, and the empty-read counter never exceeds 31.
- The `Index` action, Program.cs (host wiring) and Models/VideoViewModel.cs (a plain data object) contain no logic to model.
