/**
 The three Python string operations the gateway's read/write classification
 relies on: `str.strip()` with no argument, `str.upper()` and
 `str.startswith(prefix)`.
 */
module PyStr {

  /** Python's `str.isspace()` for one character: the characters `strip()`
      removes when called without an argument. */
  predicate IsSpace(c: char) {
    var n := c as int;
    || 0x09 <= n <= 0x0D
    || 0x1C <= n <= 0x20
    || n == 0x85 || n == 0xA0 || n == 0x1680
    || 0x2000 <= n <= 0x200A
    || n == 0x2028 || n == 0x2029 || n == 0x202F || n == 0x205F || n == 0x3000
  }

  /** Length of the leading run of whitespace. */
  function LeadingSpace(s: string): (i: nat)
    ensures i <= |s|
    ensures forall k :: 0 <= k < i ==> IsSpace(s[k])
    ensures i == |s| || !IsSpace(s[i])
  {
    if |s| > 0 && IsSpace(s[0]) then
      var i := 1 + LeadingSpace(s[1..]);
      assert forall k :: 1 <= k < i ==> s[k] == s[1..][k - 1];
      i
    else 0
  }

  /** Where the trailing run of whitespace begins. */
  function TrailingSpace(s: string): (j: nat)
    ensures j <= |s|
    ensures forall k :: j <= k < |s| ==> IsSpace(s[k])
    ensures j == 0 || !IsSpace(s[j - 1])
  {
    if |s| > 0 && IsSpace(s[|s| - 1]) then TrailingSpace(s[..|s| - 1]) else |s|
  }

  /** `s.lstrip()`. */
  function TrimLeft(s: string): string {
    s[LeadingSpace(s)..]
  }

  /** `s.rstrip()`. */
  function TrimRight(s: string): string {
    s[..TrailingSpace(s)]
  }

  /** `s.strip()`. */
  function Strip(s: string): string {
    TrimRight(TrimLeft(s))
  }

  /** What `strip()` leaves is the slice of `s` between its leading and its
      trailing whitespace, which neither starts nor ends with whitespace;
      everything cut off on either side is whitespace. */
  lemma StripIsTrimmedSlice(s: string)
    ensures var r, a := Strip(s), LeadingSpace(s);
            && a + |r| <= |s| && r == s[a..a + |r|]
            && (r == [] || (!IsSpace(r[0]) && !IsSpace(r[|r| - 1])))
            && (forall k :: 0 <= k < a ==> IsSpace(s[k]))
            && (forall k :: a + |r| <= k < |s| ==> IsSpace(s[k]))
  {
    var a := LeadingSpace(s);
    var b := TrailingSpace(s[a..]);
    assert Strip(s) == s[a..][..b] == s[a..a + b];
    StripEndsNotSpace(s);
    SuffixTailIsSpace(s, a);
  }

  /** The text `strip()` leaves neither starts nor ends with whitespace. */
  lemma StripEndsNotSpace(s: string)
    ensures var r := Strip(s); r == [] || (!IsSpace(r[0]) && !IsSpace(r[|r| - 1]))
  {
    var a := LeadingSpace(s);
    var t := s[a..];
    var b := TrailingSpace(t);
    var r := t[..b];
    assert Strip(s) == r;
    if r != [] {
      assert r[0] == s[a];
      assert r[|r| - 1] == t[b - 1];
    }
  }

  /** Whatever `rstrip()` cuts from a suffix `s[a..]` is whitespace of `s`. */
  lemma SuffixTailIsSpace(s: string, a: nat)
    requires a <= |s|
    ensures forall k :: a + TrailingSpace(s[a..]) <= k < |s| ==> IsSpace(s[k])
  {
    var t := s[a..];
    forall k | a + TrailingSpace(t) <= k < |s|
      ensures IsSpace(s[k])
    {
      assert s[k] == t[k - a];
    }
  }

  /** Upper case of one character, as far as `startswith('SELECT')` can
      tell. ASCII letters map to their capitals and long s maps to `S`, as in
      Python. The upper case of t with diaeresis is `T` followed by a
      combining diaeresis; it maps to `T`, which can only matter as the last
      letter of SELECT. Every other character is left as it is: no other
      character's upper case starts with S, E, L, C or T, and those that
      expand to `SS` or `ST` (sharp s and its ligatures) fail at the second
      letter. */
  function UpperChar(c: char): (u: char)
    ensures IsSpace(c) ==> u == c
  {
    if 'a' <= c <= 'z' then (c as int - 32) as char
    else if c == '\U{017F}' then 'S'
    else if c == '\U{1E97}' then 'T'
    else c
  }

  /** `s.upper()`, character by character. */
  function Upper(s: string): (r: string)
    ensures |r| == |s|
    ensures forall i :: 0 <= i < |s| ==> r[i] == UpperChar(s[i])
  {
    seq(|s|, i requires 0 <= i < |s| => UpperChar(s[i]))
  }

  /** `s.startswith(p)`. */
  predicate StartsWith(s: string, p: string) {
    |p| <= |s| && s[..|p|] == p
  }
}
