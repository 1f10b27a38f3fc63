/** How the controller splices user credentials into the stream URL: both
    are escaped and every "://" of the URL becomes "://user:password@". */
module Credentials {
  import opened Opt
  import UriEscape

  const SchemeSeparator: string := "://"

  /** The message of the `ArgumentNullException` thrown when escaping a null password. */
  const NullArgumentMessage: string := "Value cannot be null. (Parameter 'stringToEscape')"

  /** `pat` occurs in `s` at index `i`. */
  predicate OccursAt(s: string, pat: string, i: int)
  {
    0 <= i && i + |pat| <= |s| && s[i..i + |pat|] == pat
  }

  /** `String.Replace`: every occurrence of `pat`, scanning left to right
      without overlaps, becomes `rep`. */
  function ReplaceAll(s: string, pat: string, rep: string): (r: string)
    requires |pat| > 0
    decreases |s|
  {
    if |s| < |pat| then s
    else if s[..|pat|] == pat then rep + ReplaceAll(s[|pat|..], pat, rep)
    else [s[0]] + ReplaceAll(s[1..], pat, rep)
  }

  /** An occurrence in the tail of `s` is an occurrence in `s`, one place later. */
  lemma OccursInTail(s: string, pat: string, i: int)
    requires |s| > 0 && OccursAt(s[1..], pat, i)
    ensures OccursAt(s, pat, i + 1)
  {
    assert s[1..][i..i + |pat|] == s[i + 1..i + 1 + |pat|];
  }

  /** A string without the pattern is left exactly as it is. */
  lemma {:induction false} ReplaceWithoutOccurrence(s: string, pat: string, rep: string)
    requires |pat| > 0
    requires forall i :: !OccursAt(s, pat, i)
    ensures ReplaceAll(s, pat, rep) == s
    decreases |s|
  {
    if |s| >= |pat| {
      assert !OccursAt(s, pat, 0);
      assert s[0..|pat|] == s[..|pat|];
      forall i ensures !OccursAt(s[1..], pat, i) {
        if OccursAt(s[1..], pat, i) {
          OccursInTail(s, pat, i);
        }
      }
      ReplaceWithoutOccurrence(s[1..], pat, rep);
      assert [s[0]] + s[1..] == s;
    }
  }

  /** The first occurrence of the pattern is replaced and the scan goes on
      right after it. */
  lemma {:induction false} ReplaceAtFirstOccurrence(a: string, b: string, pat: string, rep: string)
    requires |pat| > 0
    requires forall i :: 0 <= i < |a| ==> !OccursAt(a + pat + b, pat, i)
    ensures ReplaceAll(a + pat + b, pat, rep) == a + rep + ReplaceAll(b, pat, rep)
    decreases |a|
  {
    var s := a + pat + b;
    if |a| == 0 {
      assert s == pat + b && s[..|pat|] == pat && s[|pat|..] == b;
    } else {
      assert !OccursAt(s, pat, 0);
      assert s[0..|pat|] == s[..|pat|];
      assert s[1..] == a[1..] + pat + b;
      forall i | 0 <= i < |a[1..]| ensures !OccursAt(a[1..] + pat + b, pat, i) {
        if OccursAt(a[1..] + pat + b, pat, i) {
          OccursInTail(s, pat, i);
        }
      }
      ReplaceAtFirstOccurrence(a[1..], b, pat, rep);
      assert [s[0]] + (a[1..] + rep + ReplaceAll(b, pat, rep)) == a + rep + ReplaceAll(b, pat, rep);
    }
  }

  /** `s` contains no "://". */
  ghost predicate NoSeparator(s: string)
  {
    forall i :: !OccursAt(s, SchemeSeparator, i)
  }

  /** An occurrence starting in the last two characters of `a` would need
      the `:` that begins the separator to be a `/`. */
  lemma NoStraddle(a: string, b: string, i: int)
    requires 0 <= i < |a| < i + 3
    ensures !OccursAt(a + SchemeSeparator + b, SchemeSeparator, i)
  {
    var s := a + SchemeSeparator + b;
    var k := |a| - i;
    assert s[|a|] == ':';
    assert SchemeSeparator[k] == '/';
    assert s[i..i + 3][k] == s[|a|];
  }

  /** "://" cannot overlap itself, so a prefix without it has no occurrence
      straddling the separator that follows it either. */
  lemma SeparatorFirstAfter(a: string, b: string)
    requires NoSeparator(a)
    ensures forall i :: 0 <= i < |a| ==> !OccursAt(a + SchemeSeparator + b, SchemeSeparator, i)
  {
    var s := a + SchemeSeparator + b;
    forall i | 0 <= i < |a| ensures !OccursAt(s, SchemeSeparator, i) {
      if OccursAt(s, SchemeSeparator, i) {
        if i + 3 <= |a| {
          assert s[i..i + 3] == a[i..i + 3];
          assert OccursAt(a, SchemeSeparator, i);
        } else {
          NoStraddle(a, b, i);
        }
      }
    }
  }

  /** What replaces "://": the escaped user name and password, a colon
      between them and an `@` after them. */
  function Authority(user: string, password: string): string
  {
    SchemeSeparator + UriEscape.Escape(user) + ":" + UriEscape.Escape(password) + "@"
  }

  /** The URL handed to the stream service. Without a user name the URL is
      kept; with one, a null password makes the escaping throw. */
  function BuildUrl(url: string, user: Option<string>, password: Option<string>): (r: Result<string>)
    ensures (user.None? || user.value == "") ==> r == Ok(url)
    ensures user.Some? && user.value != "" && password.None? ==> r == Err(NullArgumentMessage)
  {
    if user.None? || user.value == "" then Ok(url)
    else if password.None? then Err(NullArgumentMessage)
    else Ok(ReplaceAll(url, SchemeSeparator, Authority(user.value, password.value)))
  }

  /** A URL without "://" is used as given, credentials or not. */
  lemma UrlWithoutSeparatorUnchanged(url: string, user: Option<string>, password: string)
    requires NoSeparator(url)
    ensures BuildUrl(url, user, Some(password)) == Ok(url)
  {
    if user.Some? && user.value != "" {
      ReplaceWithoutOccurrence(url, SchemeSeparator, Authority(user.value, password));
    }
  }

  /** With a user name, the first "://" receives the escaped credentials and
      the rest of the URL is spliced in the same way. */
  lemma SpliceAtSeparator(a: string, b: string, user: string, password: string)
    requires user != "" && NoSeparator(a)
    ensures BuildUrl(a + SchemeSeparator + b, Some(user), Some(password)) ==
      Ok(a + Authority(user, password) + ReplaceAll(b, SchemeSeparator, Authority(user, password)))
  {
    SeparatorFirstAfter(a, b);
    ReplaceAtFirstOccurrence(a, b, SchemeSeparator, Authority(user, password));
  }

  /** A URL with one "://" gets the user information right after it; between
      "://" and "@" there is only escaped text and the one `:` that separates
      user from password, so no `@` or `/` of the credentials can end the
      user information early. */
  lemma SingleSeparatorUrl(a: string, b: string, user: string, password: string)
    requires user != "" && NoSeparator(a) && NoSeparator(b)
    ensures BuildUrl(a + SchemeSeparator + b, Some(user), Some(password)) ==
      Ok(a + Authority(user, password) + b)
    ensures forall c :: c in Authority(user, password)[3..|Authority(user, password)| - 1] && c != ':' ==>
      c == '%' || UriEscape.IsUnreserved(c)
  {
    SpliceAtSeparator(a, b, user, password);
    ReplaceWithoutOccurrence(b, SchemeSeparator, Authority(user, password));
    var eu := UriEscape.Escape(user);
    var ep := UriEscape.Escape(password);
    var auth := Authority(user, password);
    assert auth[3..|auth| - 1] == eu + ":" + ep;
  }
}
