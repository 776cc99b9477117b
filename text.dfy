/** The behaviour of the Python `str` operations the application relies on:
    `strip()`, `sub in s`, `split(sep)` and `replace`. `find` and `join` are
    the steps `in` and `replace` are defined by. */
module PyText {
  import opened Wrappers

  /** `c.isspace()` in Python 3: the characters that `strip()` with no
      argument removes from both ends. */
  predicate IsSpace(c: char) {
    || c == ' '
    || '\t' <= c <= '\r'
    || '\U{1C}' <= c <= '\U{1F}'
    || c == '\U{85}' || c == '\U{A0}' || c == '\U{1680}'
    || '\U{2000}' <= c <= '\U{200A}'
    || c == '\U{2028}' || c == '\U{2029}' || c == '\U{202F}' || c == '\U{205F}'
    || c == '\U{3000}'
  }

  // ---------------------------------------------------------------- strip

  /** Length of the run of whitespace at the start of `s`. */
  function LeadingSpaces(s: string): (n: nat)
    ensures n <= |s|
    ensures forall k :: 0 <= k < n ==> IsSpace(s[k])
    ensures n < |s| ==> !IsSpace(s[n])
  {
    if s == [] || !IsSpace(s[0]) then 0 else 1 + LeadingSpaces(s[1..])
  }

  /** Length of the run of whitespace at the end of `s`. */
  function TrailingSpaces(s: string): (n: nat)
    ensures n <= |s|
    ensures forall k :: |s| - n <= k < |s| ==> IsSpace(s[k])
    ensures n < |s| ==> !IsSpace(s[|s| - 1 - n])
  {
    if s == [] || !IsSpace(s[|s| - 1]) then 0 else 1 + TrailingSpaces(s[..|s| - 1])
  }

  /** `s.strip()`: `s` without its leading and trailing whitespace. The result
      is the slice of `s` that starts after the leading whitespace, everything
      after it is whitespace, and it neither starts nor ends with whitespace. */
  function Strip(s: string): (r: string)
    ensures LeadingSpaces(s) + |r| <= |s|
    ensures r == s[LeadingSpaces(s)..LeadingSpaces(s) + |r|]
    ensures forall k :: LeadingSpaces(s) + |r| <= k < |s| ==> IsSpace(s[k])
    ensures Stripped(r)
  {
    var t := s[LeadingSpaces(s)..];
    t[..|t| - TrailingSpaces(t)]
  }

  /** Neither end of `s` is whitespace: `s.strip() == s`. */
  predicate Stripped(s: string) {
    s == [] || (!IsSpace(s[0]) && !IsSpace(s[|s| - 1]))
  }

  /** `not s.strip()`: the string is empty or made only of whitespace. */
  lemma StripEmptyIffBlank(s: string)
    ensures Strip(s) == [] <==> forall k :: 0 <= k < |s| ==> IsSpace(s[k])
  {
    if Strip(s) != [] {
      assert !IsSpace(s[LeadingSpaces(s)]);
    }
  }

  /** Every character of `s` is whitespace. */
  predicate AllSpace(s: string) {
    forall k :: 0 <= k < |s| ==> IsSpace(s[k])
  }

  /** Whitespace in front of text that does not start with whitespace is
      exactly the leading run. */
  lemma LeadingOfPadded(p: string, t: string)
    requires AllSpace(p)
    requires t != [] && !IsSpace(t[0])
    ensures LeadingSpaces(p + t) == |p|
  {
    var x := p + t;
    assert x[|p|] == t[0];
    forall k | 0 <= k < |p| ensures IsSpace(x[k]) {
      assert x[k] == p[k];
    }
  }

  /** Whitespace after text that does not end with whitespace is exactly the
      trailing run. */
  lemma TrailingOfPadded(t: string, q: string)
    requires AllSpace(q)
    requires t != [] && !IsSpace(t[|t| - 1])
    ensures TrailingSpaces(t + q) == |q|
  {
    var x := t + q;
    assert x[|t| - 1] == t[|t| - 1];
    forall k | |t| <= k < |x| ensures IsSpace(x[k]) {
      assert x[k] == q[k - |t|];
    }
  }

  /** Stripping `p + s + q` gives `s` back when `s` is already stripped and
      the padding is whitespace. */
  lemma StripPadded(p: string, s: string, q: string)
    requires AllSpace(p) && AllSpace(q)
    requires Stripped(s)
    ensures Strip(p + s + q) == s
  {
    if s == [] {
      assert p + s + q == p + q;
      StripBlank(p, q);
    } else {
      assert p + s + q == p + (s + q);
      LeadingOfPadded(p, s + q);
      assert (p + s + q)[|p|..] == s + q;
      TrailingOfPadded(s, q);
      assert (s + q)[..|s|] == s;
    }
  }

  lemma StripBlank(p: string, q: string)
    requires AllSpace(p) && AllSpace(q)
    ensures Strip(p + q) == []
  {
    forall k | 0 <= k < |p + q| ensures IsSpace((p + q)[k]) {
      if k < |p| {
        assert (p + q)[k] == p[k];
      } else {
        assert (p + q)[k] == q[k - |p|];
      }
    }
    StripEmptyIffBlank(p + q);
  }

  /** `s.strip() == s` exactly when neither end of `s` is whitespace. */
  lemma StrippedIffUnchanged(s: string)
    ensures Stripped(s) <==> Strip(s) == s
  {
    if Stripped(s) {
      assert [] + s + [] == s;
      StripPadded([], s, []);
    }
  }

  lemma StripIdempotent(s: string)
    ensures Strip(Strip(s)) == Strip(s)
  {
    var r := Strip(s);
    assert LeadingSpaces(r) == 0;
    assert TrailingSpaces(r) == 0;
    assert r[0..] == r;
    assert r[..|r|] == r;
  }

  // ----------------------------------------------------------- occurrences

  /** `sub` occurs in `s` starting at index `i`. */
  ghost predicate OccursAt(s: string, sub: string, i: int) {
    0 <= i && i + |sub| <= |s| && s[i..i + |sub|] == sub
  }

  /** `sub not in s`. */
  ghost predicate Free(s: string, sub: string) {
    forall i :: !OccursAt(s, sub, i)
  }

  /** An occurrence inside a slice is an occurrence in the whole string. */
  lemma OccursInSlice(s: string, sub: string, a: nat, b: nat, i: int)
    requires a <= b <= |s|
    requires OccursAt(s[a..b], sub, i)
    ensures OccursAt(s, sub, a + i)
  {
    forall j | 0 <= j < |sub| ensures s[a + i + j] == sub[j] {
      assert s[a..b][i..i + |sub|][j] == sub[j];
    }
  }

  /** A slice of a string without `sub` has no `sub` either. */
  lemma FreeSlice(s: string, sub: string, a: nat, b: nat)
    requires a <= b <= |s|
    requires Free(s, sub)
    ensures Free(s[a..b], sub)
  {
    forall i | OccursAt(s[a..b], sub, i) ensures false {
      OccursInSlice(s, sub, a, b, i);
    }
  }

  /** Stripping cannot create an occurrence. */
  lemma StripKeepsFree(s: string, sub: string)
    requires Free(s, sub)
    ensures Free(Strip(s), sub)
  {
    FreeSlice(s, sub, LeadingSpaces(s), LeadingSpaces(s) + |Strip(s)|);
  }

  /** `s.find(sub)`: the leftmost index at which `sub` occurs, if any. */
  function Find(s: string, sub: string): (r: Option<nat>)
    ensures r.Some? ==> OccursAt(s, sub, r.value)
    ensures r.Some? ==> forall k :: 0 <= k < r.value ==> !OccursAt(s, sub, k)
    ensures r.None? <==> Free(s, sub)
    decreases |s|
  {
    if |s| < |sub| then None
    else if s[..|sub|] == sub then Some(0)
    else
      var rest := Find(s[1..], sub);
      ShiftOccurrence(s, sub);
      match rest
      case None => None
      case Some(k) => Some(k + 1)
  }

  /** Occurrences in `s` after index 0 are the occurrences in `s[1..]`,
      moved one to the right. */
  lemma ShiftOccurrence(s: string, sub: string)
    requires |s| > 0
    ensures forall k :: 1 <= k ==> (OccursAt(s, sub, k) <==> OccursAt(s[1..], sub, k - 1))
  {
    forall k | 1 <= k
      ensures OccursAt(s, sub, k) <==> OccursAt(s[1..], sub, k - 1)
    {
      if k + |sub| <= |s| {
        assert s[1..][k - 1..k - 1 + |sub|] == s[k..k + |sub|];
      }
    }
  }

  /** Python's `sub in s`. */
  function Contains(s: string, sub: string): (found: bool)
    ensures found <==> !Free(s, sub)
  {
    Find(s, sub).Some?
  }

  // --------------------------------------------------------- split / join

  /** `s.split(sep)` for a non-empty separator (Python raises ValueError for
      an empty one): the pieces between the successive leftmost occurrences. */
  function Split(s: string, sep: string): (parts: seq<string>)
    requires sep != []
    ensures |parts| >= 1
    ensures |parts[0]| <= |s| && parts[0] == s[..|parts[0]|]
    ensures |parts| == 1 <==> Free(s, sep)
    ensures forall j :: 0 <= j < |parts| ==> Free(parts[j], sep)
    decreases |s|
  {
    match Find(s, sep)
    case None => [s]
    case Some(i) =>
      var head := s[..i];
      assert Free(head, sep) by {
        forall k | OccursAt(head, sep, k) ensures false {
          OccursInSlice(s, sep, 0, i, k);
        }
      }
      [head] + Split(s[i + |sep|..], sep)
  }

  /** `sep.join(parts)`. */
  function Join(parts: seq<string>, sep: string): string {
    if parts == [] then []
    else if |parts| == 1 then parts[0]
    else parts[0] + sep + Join(parts[1..], sep)
  }

  /** Splitting and joining with the same separator gives the string back. */
  lemma {:induction false} JoinSplit(s: string, sep: string)
    requires sep != []
    ensures Join(Split(s, sep), sep) == s
    decreases |s|
  {
    var found := Find(s, sep);
    if found.Some? {
      var i := found.value;
      var rest := s[i + |sep|..];
      SplitFirst(s, sep, i);
      JoinCons(s[..i], Split(rest, sep), sep);
      JoinSplit(rest, sep);
      Reassemble(s, sep, i);
    }
  }

  /** Splitting at the leftmost occurrence at `i` gives the text before it,
      then the split of the rest. */
  lemma SplitFirst(s: string, sep: string, i: nat)
    requires sep != [] && Find(s, sep) == Some(i)
    ensures Split(s, sep) == [s[..i]] + Split(s[i + |sep|..], sep)
  {
  }

  lemma Reassemble(s: string, sep: string, i: nat)
    requires OccursAt(s, sep, i)
    ensures s[..i] + sep + s[i + |sep|..] == s
  {
    assert s == s[..i] + s[i..i + |sep|] + s[i + |sep|..];
  }

  lemma JoinCons(head: string, tail: seq<string>, sep: string)
    requires tail != []
    ensures Join([head] + tail, sep) == head + sep + Join(tail, sep)
  {
    assert ([head] + tail)[1..] == tail;
  }

  /** `s.replace(target, replacement)` for a non-empty `target`: every
      leftmost, non-overlapping occurrence of `target` replaced. Replacing
      something absent, or replacing a target by itself, changes nothing. */
  function Replace(s: string, target: string, replacement: string): (r: string)
    requires target != []
    ensures Free(s, target) ==> r == s
    ensures replacement == target ==> r == s
  {
    JoinSplit(s, target);
    Join(Split(s, target), replacement)
  }
}
