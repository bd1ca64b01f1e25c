/**
 * The ECMAScript string behaviour the admin form relies on: `String.prototype.trim`
 * and the truthiness of a string in `s || fallback`.
 */
module JsText {

  import opened Options

  /** ECMAScript WhiteSpace and LineTerminator code points, the set `trim` strips. */
  predicate IsWhitespace(c: char) {
    || c == '\t' || c == '\n' || c == '\U{000B}' || c == '\U{000C}' || c == '\r'
    || c == ' ' || c == '\U{00A0}' || c == '\U{1680}'
    || ('\U{2000}' <= c <= '\U{200A}')
    || c == '\U{2028}' || c == '\U{2029}' || c == '\U{202F}' || c == '\U{205F}'
    || c == '\U{3000}' || c == '\U{FEFF}'
  }

  ghost predicate AllWhitespace(s: string) {
    forall k :: 0 <= k < |s| ==> IsWhitespace(s[k])
  }

  /** A string that `trim` leaves as it is: empty, or neither end is whitespace. */
  predicate IsTrimmed(s: string) {
    s == [] || (!IsWhitespace(s[0]) && !IsWhitespace(s[|s| - 1]))
  }

  /** The suffix of `s` that starts at its first non-whitespace character. */
  function TrimStart(s: string): (r: string)
    ensures |r| <= |s| && r == s[|s| - |r|..]
    ensures AllWhitespace(s[..|s| - |r|])
    ensures r != [] ==> !IsWhitespace(r[0])
  {
    if s != [] && IsWhitespace(s[0]) then TrimStart(s[1..]) else s
  }

  /** The prefix of `s` that ends at its last non-whitespace character. */
  function TrimEnd(s: string): (r: string)
    ensures |r| <= |s| && r == s[..|r|]
    ensures AllWhitespace(s[|r|..])
    ensures r != [] ==> !IsWhitespace(r[|r| - 1])
  {
    if s != [] && IsWhitespace(s[|s| - 1]) then TrimEnd(s[..|s| - 1]) else s
  }

  /** `s.trim()`: the part of `s` between its leading and trailing whitespace. */
  function Trim(s: string): (r: string)
    ensures IsTrimmed(r)
    ensures |r| <= |s|
    ensures r == [] <==> AllWhitespace(s)
    ensures exists i :: TrimsTo(s, i, r)
  {
    var t := TrimStart(s);
    assert t == [] <==> AllWhitespace(s) by {
      if t != [] {
        assert s[|s| - |t|] == t[0];
      } else {
        assert s[..|s|] == s;
      }
    }
    var r := TrimEnd(t);
    SliceOfSuffix(s, t, r);
    assert TrimsTo(s, |s| - |t|, r);
    r
  }

  /** `r` is the slice of `s` at `i` with only whitespace before and after it. */
  ghost predicate TrimsTo(s: string, i: int, r: string) {
    && 0 <= i && i + |r| <= |s| && r == s[i..i + |r|]
    && AllWhitespace(s[..i]) && AllWhitespace(s[i + |r|..])
  }

  /** A prefix of a suffix is a slice, and what it leaves of the suffix is a suffix of the whole. */
  lemma SliceOfSuffix(s: string, t: string, r: string)
    requires |t| <= |s| && t == s[|s| - |t|..] && |r| <= |t| && r == t[..|r|]
    ensures r == s[|s| - |t|..|s| - |t| + |r|] && t[|r|..] == s[|s| - |t| + |r|..]
  {
  }

  /** `trim` is the identity on a string that is already trimmed. */
  lemma TrimOfTrimmed(s: string)
    requires IsTrimmed(s)
    ensures Trim(s) == s
  {
  }

  /** Trimming twice is trimming once. */
  lemma TrimIdempotent(s: string)
    ensures Trim(Trim(s)) == Trim(s)
  {
    TrimOfTrimmed(Trim(s));
  }

  /** `s || null`: the empty string is falsy and becomes absent. */
  function OrNull(s: string): Option<string> {
    if s == [] then None else Some(s)
  }

  /** `s || ''` for a value that is a string or null. */
  function OrEmpty(o: Option<string>): string {
    if o.Some? then o.value else []
  }

  /** `o || null` for a value that is a string or absent: an empty string is dropped. */
  function TruthyOrNull(o: Option<string>): Option<string> {
    if o.Some? && o.value != [] then o else None
  }
}
