/** Classification of the decoder's diagnostic (standard error) lines: a
    line mentioning "error" or "failed", in any letter case, becomes the
    service's last error. */
module Diagnostics {
  import opened Opt

  /** ASCII lower-casing; other characters are left alone. */
  function ToLowerAscii(c: char): (r: char)
    ensures 'A' <= c <= 'Z' ==> r as int == c as int + 32
    ensures !('A' <= c <= 'Z') ==> r == c
  {
    if 'A' <= c <= 'Z' then (c as int + 32) as char else c
  }

  /** `needle` occurs in `line` at index `i`, ignoring letter case. */
  predicate MatchesAt(line: string, needle: string, i: int)
  {
    0 <= i && i + |needle| <= |line|
    && forall j :: 0 <= j < |needle| ==> ToLowerAscii(line[i + j]) == ToLowerAscii(needle[j])
  }

  /** Case-insensitive substring search from index `from` on. */
  function ContainsFrom(line: string, needle: string, from: nat): (b: bool)
    ensures b <==> exists i :: from <= i && MatchesAt(line, needle, i)
    decreases |line| - from
  {
    if from + |needle| > |line| then false
    else MatchesAt(line, needle, from) || ContainsFrom(line, needle, from + 1)
  }

  /** `line.Contains(needle, StringComparison.OrdinalIgnoreCase)` for ASCII letters. */
  function ContainsIgnoreCase(line: string, needle: string): (b: bool)
  {
    ContainsFrom(line, needle, 0)
  }

  /** A non-empty line that reports an error or a failure. */
  predicate IsErrorLine(data: Option<string>)
  {
    && data.Some?
    && |data.value| > 0
    && (ContainsIgnoreCase(data.value, "error") || ContainsIgnoreCase(data.value, "failed"))
  }

  /** The stderr handler: a matching line replaces the last error, any other
      line (and the end-of-stream `null`) leaves it. */
  function OnErrorData(lastError: Option<string>, data: Option<string>): Option<string>
  {
    if IsErrorLine(data) then data else lastError
  }

  /** The last error after a run of diagnostic lines. */
  function OnErrorLines(lastError: Option<string>, lines: seq<Option<string>>): Option<string>
    decreases |lines|
  {
    if |lines| == 0 then lastError
    else OnErrorLines(OnErrorData(lastError, lines[0]), lines[1..])
  }

  /** Lines that do not match leave the last error as it was. */
  lemma {:induction false} NonMatchingLinesKeepLastError(lastError: Option<string>, lines: seq<Option<string>>)
    requires forall k :: 0 <= k < |lines| ==> !IsErrorLine(lines[k])
    ensures OnErrorLines(lastError, lines) == lastError
    decreases |lines|
  {
    if |lines| > 0 {
      assert !IsErrorLine(lines[0]);
      assert forall k :: 0 <= k < |lines| - 1 ==> lines[1..][k] == lines[k + 1];
      NonMatchingLinesKeepLastError(lastError, lines[1..]);
    }
  }

  /** The last error after a run of lines is the latest matching line,
      whatever came before it. */
  lemma {:induction false} LatestErrorLineWins(lastError: Option<string>, lines: seq<Option<string>>, k: nat)
    requires k < |lines| && IsErrorLine(lines[k])
    requires forall j :: k < j < |lines| ==> !IsErrorLine(lines[j])
    ensures OnErrorLines(lastError, lines) == lines[k]
    decreases k
  {
    var tail := lines[1..];
    assert forall j :: 0 <= j < |tail| ==> tail[j] == lines[j + 1];
    if k == 0 {
      NonMatchingLinesKeepLastError(lines[0], tail);
    } else {
      LatestErrorLineWins(OnErrorData(lastError, lines[0]), tail, k - 1);
    }
  }

  /** A line that matches is recorded whatever its letter case. */
  lemma ConnectionFailedIsRecorded()
    ensures OnErrorData(None, Some("Connection FAILED")) == Some("Connection FAILED")
  {
    var line := "Connection FAILED";
    assert MatchesAt(line, "failed", 11);
  }
}
