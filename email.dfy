/** `is_valid_email`: `re.match(r"^[\w\.-]+@[\w\.-]+\.\w+$", email)`.

    The regular expression is given its meaning as a language (some way of
    cutting the string into the four parts of the pattern exists); the
    executable check finds the cut directly, and the two are proved equal. */
module EmailFormat {
  import opened Wrappers

  /** `\w`, for ASCII characters: letters, digits and the underscore. */
  predicate IsWordChar(c: char) {
    'a' <= c <= 'z' || 'A' <= c <= 'Z' || '0' <= c <= '9' || c == '_'
  }

  /** The class `[\w\.-]`. */
  predicate IsAddressChar(c: char) {
    IsWordChar(c) || c == '.' || c == '-'
  }

  predicate AllWord(s: string) {
    forall k :: 0 <= k < |s| ==> IsWordChar(s[k])
  }

  predicate AllAddress(s: string) {
    forall k :: 0 <= k < |s| ==> IsAddressChar(s[k])
  }

  /** `s` is `L@D.W` with `L`, `D` non-empty over `[\w\.-]` and `W` a non-empty
      run of `\w`: the cut is given by the positions of that `@` and that `.`. */
  ghost predicate CutsAt(s: string, at: int, dot: int) {
    && 0 < at && at + 1 < dot && dot + 1 < |s|
    && s[at] == '@' && s[dot] == '.'
    && AllAddress(s[..at]) && AllAddress(s[at + 1..dot]) && AllWord(s[dot + 1..])
  }

  /** The language of `[\w\.-]+@[\w\.-]+\.\w+`. */
  ghost predicate MatchesPattern(s: string) {
    exists at, dot :: CutsAt(s, at, dot)
  }

  /** What `re.match` with `^...$` accepts: Python's `$` also matches just
      before a newline that ends the string. */
  ghost predicate RegexAccepts(s: string)
    ensures RegexAccepts(s) ==> |s| >= 5
  {
    || MatchesPattern(s)
    || (|s| > 0 && s[|s| - 1] == '\n' && MatchesPattern(s[..|s| - 1]))
  }

  /** The first index of `c` in `s`. */
  function FirstIndex(s: string, c: char): (r: Option<nat>)
    ensures r.Some? ==> r.value < |s| && s[r.value] == c
    ensures r.Some? ==> forall k :: 0 <= k < r.value ==> s[k] != c
    ensures r.None? ==> forall k :: 0 <= k < |s| ==> s[k] != c
  {
    if s == [] then None
    else if s[0] == c then Some(0)
    else match FirstIndex(s[1..], c)
      case None => None
      case Some(k) => Some(k + 1)
  }

  /** The last index of `c` in `s`. */
  function LastIndex(s: string, c: char): (r: Option<nat>)
    ensures r.Some? ==> r.value < |s| && s[r.value] == c
    ensures r.Some? ==> forall k :: r.value < k < |s| ==> s[k] != c
    ensures r.None? ==> forall k :: 0 <= k < |s| ==> s[k] != c
  {
    if s == [] then None
    else if s[|s| - 1] == c then Some(|s| - 1)
    else LastIndex(s[..|s| - 1], c)
  }

  /** The pattern without the trailing-newline allowance: the local part runs
      up to the first `@`, the domain's last `.` is at index 1 or later, and
      what follows that `.` is a non-empty run of `\w`. */
  function HasAddressShape(s: string): (ok: bool)
    ensures ok ==> |s| >= 5 && IsWordChar(s[|s| - 1])
  {
    match FirstIndex(s, '@')
    case None => false
    case Some(at) =>
      var domain := s[at + 1..];
      match LastIndex(domain, '.')
      case None => false
      case Some(d) =>
        && 0 < at && 1 <= d && d + 1 < |domain|
        && AllAddress(s[..at]) && AllAddress(domain[..d]) && AllWord(domain[d + 1..])
  }

  /** The shape test finds a cut of the pattern. */
  lemma ShapeSound(s: string)
    requires HasAddressShape(s)
    ensures MatchesPattern(s)
  {
    var at := FirstIndex(s, '@').value;
    var domain := s[at + 1..];
    var d := LastIndex(domain, '.').value;
    assert domain[..d] == s[at + 1..at + 1 + d];
    assert domain[d + 1..] == s[at + 1 + d + 1..];
    assert CutsAt(s, at, at + 1 + d);
  }

  /** Every cut of the pattern is the one the shape test looks at: its `@` is
      the first `@` (the local part cannot hold one) and its `.` is the last `.`
      (only `\w` follows it). */
  lemma ShapeComplete(s: string, at: int, dot: int)
    requires CutsAt(s, at, dot)
    ensures HasAddressShape(s)
  {
    CutAtIsFirstAt(s, at, dot);
    CutDotIsLastDot(s, at, dot);
    var domain := s[at + 1..];
    var d := dot - at - 1;
    assert domain[..d] == s[at + 1..dot];
    assert domain[d + 1..] == s[dot + 1..];
  }

  lemma CutAtIsFirstAt(s: string, at: int, dot: int)
    requires CutsAt(s, at, dot)
    ensures FirstIndex(s, '@') == Some(at)
  {
    forall k | 0 <= k < at ensures s[k] != '@' {
      assert IsAddressChar(s[..at][k]);
    }
  }

  lemma CutDotIsLastDot(s: string, at: int, dot: int)
    requires CutsAt(s, at, dot)
    ensures LastIndex(s[at + 1..], '.') == Some(dot - at - 1)
  {
    var domain := s[at + 1..];
    var d := dot - at - 1;
    forall k | d < k < |domain| ensures domain[k] != '.' {
      assert IsWordChar(s[dot + 1..][k - d - 1]);
    }
  }

  lemma ShapeIffPattern(s: string)
    ensures HasAddressShape(s) <==> MatchesPattern(s)
  {
    if HasAddressShape(s) {
      ShapeSound(s);
    }
    if MatchesPattern(s) {
      var at, dot :| CutsAt(s, at, dot);
      ShapeComplete(s, at, dot);
    }
  }

  /** A string in the pattern's language ends in a `\w` character. */
  lemma PatternEndsInWord(s: string)
    ensures MatchesPattern(s) ==> |s| > 0 && IsWordChar(s[|s| - 1])
  {
    if MatchesPattern(s) {
      var at, dot :| CutsAt(s, at, dot);
      assert s[dot + 1..][|s| - dot - 2] == s[|s| - 1];
    }
  }

  /** `is_valid_email(email)` used as a truth value. */
  function IsValidEmail(email: string): (ok: bool)
    ensures ok <==> RegexAccepts(email)
  {
    PatternEndsInWord(email);
    if |email| > 0 && email[|email| - 1] == '\n' then
      var body := email[..|email| - 1];
      ShapeIffPattern(body);
      HasAddressShape(body)
    else
      ShapeIffPattern(email);
      HasAddressShape(email)
  }
}
