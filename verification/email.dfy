/**
 The email check of the add and edit handlers: Python's
 `re.match(r'[^@]+@[^@]+\.[^@]+', email)`. `re.match` anchors the pattern at
 the start of the string only, so the check succeeds when SOME PREFIX of the
 email matches the pattern; whatever follows that prefix is never examined.
 */
module Email {
  import opened Wrappers

  /** No `c` among `s[lo..hi]`, stated index by index. */
  predicate Avoids(s: string, c: char, lo: nat, hi: nat)
    requires lo <= hi <= |s|
  {
    forall k :: lo <= k < hi ==> s[k] != c
  }

  lemma AvoidsIffNotIn(s: string, c: char, lo: nat, hi: nat)
    requires lo <= hi <= |s|
    ensures Avoids(s, c, lo, hi) <==> c !in s[lo..hi]
  {
    if !Avoids(s, c, lo, hi) {
      var k :| lo <= k < hi && s[k] == c;
      assert s[lo..hi][k - lo] == c;
    }
  }

  /** Index of the first `c` in `s` at or after `from`, if any. */
  function IndexOf(s: string, c: char, from: nat): (r: Option<nat>)
    requires from <= |s|
    ensures r.Some? ==> from <= r.value < |s| && s[r.value] == c && Avoids(s, c, from, r.value)
    ensures r.None? ==> Avoids(s, c, from, |s|)
    decreases |s| - from
  {
    if from == |s| then None
    else if s[from] == c then Some(from)
    else IndexOf(s, c, from + 1)
  }

  /** End of the run of non-`@` characters that starts at `from`: the next
      `@` at or after `from`, or the end of the string. */
  function RunEnd(s: string, from: nat): (e: nat)
    requires from <= |s|
    ensures from <= e <= |s| && Avoids(s, '@', from, e)
    ensures e == |s| || s[e] == '@'
  {
    match IndexOf(s, '@', from)
    case Some(q) => q
    case None => |s|
  }

  /** The run contains a `.` that is neither its first nor its last character. */
  predicate HasInnerDot(run: string) {
    exists d :: 1 <= d < |run| - 1 && run[d] == '.'
  }

  /** The check at the level of characters: the text before the first `@` is
      non-empty, and the run of non-`@` characters right after that `@` has
      an inner dot. */
  predicate ValidEmail(s: string) {
    match IndexOf(s, '@', 0)
    case None => false
    case Some(p) => p >= 1 && HasInnerDot(s[p + 1..RunEnd(s, p + 1)])
  }

  /** The whole of `t` matches `[^@]+@[^@]+\.[^@]+`: three non-empty
      `@`-free parts, joined by an `@` and a `.`. */
  ghost predicate PatternMatches(t: string) {
    exists i, j ::
      && 0 < i && i + 1 < j && j + 1 < |t|
      && t[i] == '@' && t[j] == '.'
      && '@' !in t[..i] && '@' !in t[i + 1..j] && '@' !in t[j + 1..]
  }

  /** What `re.match` decides: some prefix of `s` matches the pattern. */
  ghost predicate PrefixMatches(s: string) {
    exists n :: 0 <= n <= |s| && PatternMatches(s[..n])
  }

  /** The character-level check accepts exactly the strings the anchored
      regular expression accepts. */
  lemma ValidEmailIffPrefixMatches(s: string)
    ensures ValidEmail(s) <==> PrefixMatches(s)
  {
    if ValidEmail(s) {
      ValidEmailGivesMatch(s);
    }
    if PrefixMatches(s) {
      var n :| 0 <= n <= |s| && PatternMatches(s[..n]);
      MatchGivesValidEmail(s, n);
    }
  }

  lemma ValidEmailGivesMatch(s: string)
    requires ValidEmail(s)
    ensures PrefixMatches(s)
  {
    var p := IndexOf(s, '@', 0).value;
    var e := RunEnd(s, p + 1);
    var run := s[p + 1..e];
    var d :| 1 <= d < |run| - 1 && run[d] == '.';
    var i, j, n := p, p + 1 + d, p + 3 + d;
    var t := s[..n];
    AvoidsIffNotIn(t, '@', 0, i);
    AvoidsIffNotIn(t, '@', i + 1, j);
    AvoidsIffNotIn(t, '@', j + 1, n);
    assert t[j] == run[d];
    assert 0 < i && i + 1 < j && j + 1 < |t| && t[i] == '@' && t[j] == '.'
      && '@' !in t[..i] && '@' !in t[i + 1..j] && '@' !in t[j + 1..];
  }

  lemma MatchGivesValidEmail(s: string, n: nat)
    requires n <= |s| && PatternMatches(s[..n])
    ensures ValidEmail(s)
  {
    var t := s[..n];
    var i, j :| && 0 < i && i + 1 < j && j + 1 < |t|
                && t[i] == '@' && t[j] == '.'
                && '@' !in t[..i] && '@' !in t[i + 1..j] && '@' !in t[j + 1..];
    assert s[i] == t[i] && s[j] == t[j];
    forall k | 0 <= k < i
      ensures s[k] != '@'
    {
      assert s[k] == t[..i][k];
    }
    forall k | i + 1 <= k < j + 2
      ensures s[k] != '@'
    {
      if k < j {
        assert s[k] == t[i + 1..j][k - (i + 1)];
      } else if k > j {
        assert s[k] == t[j + 1..][k - (j + 1)];
      }
    }
    SplitGivesValidEmail(s, i, j);
  }

  /** Index form of the step above: an `@` at `i` with an `@`-free prefix,
      and a dot at `j` inside the `@`-free stretch that follows. */
  lemma SplitGivesValidEmail(s: string, i: nat, j: nat)
    requires 0 < i && i + 1 < j && j + 1 < |s|
    requires s[i] == '@' && s[j] == '.'
    requires Avoids(s, '@', 0, i) && Avoids(s, '@', i + 1, j + 2)
    ensures ValidEmail(s)
  {
    // The `@` at i is the first one.
    var p := IndexOf(s, '@', 0).value;
    assert p == i;
    // The run after it reaches at least one character past the dot.
    var e := RunEnd(s, p + 1);
    assert j + 1 < e;
    var run := s[p + 1..e];
    var d := j - (p + 1);
    assert run[d] == '.';
  }

  /** Because only a prefix has to match, anything may follow an accepted
      address, including further `@`s. */
  lemma AcceptsAnyContinuation(s: string, rest: string)
    requires ValidEmail(s)
    ensures ValidEmail(s + rest)
  {
    ValidEmailIffPrefixMatches(s);
    var n :| 0 <= n <= |s| && PatternMatches(s[..n]);
    assert (s + rest)[..n] == s[..n];
    ValidEmailIffPrefixMatches(s + rest);
  }

  lemma AcceptsPlainAddress()
    ensures ValidEmail("a@b.c")
  {
    SplitGivesValidEmail("a@b.c", 1, 3);
  }

  lemma AcceptsTrailingAt()
    ensures ValidEmail("a@b.c@x")
  {
    AcceptsPlainAddress();
    AcceptsAnyContinuation("a@b.c", "@x");
    assert "a@b.c" + "@x" == "a@b.c@x";
  }

  lemma AcceptsDoubleDot()
    ensures ValidEmail("a@..c")
  {
    SplitGivesValidEmail("a@..c", 1, 3);
  }

  lemma RejectsMissingDot()
    ensures !ValidEmail("foo@bar")
  {
    var s := "foo@bar";
    assert IndexOf(s, '@', 0) == Some(3);
    assert RunEnd(s, 4) == 7;
    assert forall d :: 1 <= d < 2 ==> s[4..7][d] != '.';
  }

  lemma RejectsMissingAt()
    ensures !ValidEmail("foo")
  {
    assert IndexOf("foo", '@', 0).None?;
  }

  lemma RejectsEmptyLocalPart()
    ensures !ValidEmail("@b.c")
  {
    assert IndexOf("@b.c", '@', 0) == Some(0);
  }

  lemma RejectsDotRightAfterAt()
    ensures !ValidEmail("a@.c")
  {
    var s := "a@.c";
    assert IndexOf(s, '@', 0) == Some(1);
    assert RunEnd(s, 2) == 4;
  }
}
