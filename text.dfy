/** The string operations of Python 2 that mcrw.py relies on: `str.strip()`,
    `" " * n` and `str.capitalize()`. */
module Text {

  /** Python 2.7's `unicode.isspace()`: the characters that `strip()` removes
      from a decoded line. */
  predicate IsWhitespace(c: char) {
    var n := c as int;
    || 0x09 <= n <= 0x0D
    || 0x1C <= n <= 0x20
    || n == 0x85 || n == 0xA0 || n == 0x1680 || n == 0x180E
    || 0x2000 <= n <= 0x200A
    || n == 0x2028 || n == 0x2029 || n == 0x202F || n == 0x205F || n == 0x3000
  }

  /** `s.lstrip()`: drops the leading whitespace. */
  function StripLeft(s: string): string {
    if s != [] && IsWhitespace(s[0]) then StripLeft(s[1..]) else s
  }

  /** `lstrip` drops a prefix of whitespace, and only that. */
  lemma {:induction false} StripLeftShape(s: string)
    ensures |StripLeft(s)| <= |s| && StripLeft(s) == s[|s| - |StripLeft(s)|..]
    ensures forall m :: 0 <= m < |s| - |StripLeft(s)| ==> IsWhitespace(s[m])
    ensures StripLeft(s) != [] ==> !IsWhitespace(StripLeft(s)[0])
  {
    if s != [] && IsWhitespace(s[0]) {
      var r := StripLeft(s[1..]);
      StripLeftShape(s[1..]);
      assert StripLeft(s) == r;
      assert s[1..][|s| - 1 - |r|..] == s[|s| - |r|..];
      forall m | 0 < m < |s| - |r|
        ensures IsWhitespace(s[m])
      {
        assert s[m] == s[1..][m - 1];
      }
    }
  }

  /** `s.rstrip()`: drops the trailing whitespace. */
  function StripRight(s: string): string {
    if s != [] && IsWhitespace(s[|s| - 1]) then StripRight(s[..|s| - 1]) else s
  }

  /** `rstrip` drops a suffix of whitespace, and only that. */
  lemma {:induction false} StripRightShape(s: string)
    ensures |StripRight(s)| <= |s| && StripRight(s) == s[..|StripRight(s)|]
    ensures forall m :: |StripRight(s)| <= m < |s| ==> IsWhitespace(s[m])
    ensures StripRight(s) != [] ==> !IsWhitespace(StripRight(s)[|StripRight(s)| - 1])
  {
    if s != [] && IsWhitespace(s[|s| - 1]) {
      StripRightShape(s[..|s| - 1]);
      assert s[..|s| - 1][..|StripRight(s)|] == s[..|StripRight(s)|];
    }
  }

  /** `r` is the slice of `s` at `i`, and only whitespace stands before and
      after it. */
  predicate SurroundedByWhitespace(s: string, i: int, r: string) {
    && 0 <= i <= |s| - |r| && r == s[i..i + |r|]
    && (forall m :: 0 <= m < i ==> IsWhitespace(s[m]))
    && (forall m :: i + |r| <= m < |s| ==> IsWhitespace(s[m]))
  }

  /** `s.strip()`. */
  function Strip(s: string): string {
    StripRight(StripLeft(s))
  }

  /** `strip` gives the slice of `s` that neither starts nor ends with
      whitespace and that only whitespace surrounds. */
  lemma StripShape(s: string)
    ensures exists i :: SurroundedByWhitespace(s, i, Strip(s))
    ensures Trimmed(Strip(s))
  {
    StripSurrounded(s);
    StripEnds(s);
  }

  /** `strip` keeps the slice after the leading whitespace and before the
      trailing whitespace. */
  lemma StripSurrounded(s: string)
    ensures SurroundedByWhitespace(s, |s| - |StripLeft(s)|, Strip(s))
  {
    var left := StripLeft(s);
    var r := StripRight(left);
    StripLeftShape(s);
    StripRightShape(left);
    var i := |s| - |left|;
    assert left == s[i..];
    assert r == s[i..i + |r|] by {
      assert r == left[..|r|];
    }
    forall m | i + |r| <= m < |s|
      ensures IsWhitespace(s[m])
    {
      assert s[m] == left[m - i];
    }
  }

  /** What `strip` gives neither starts nor ends with whitespace. */
  lemma StripEnds(s: string)
    ensures Trimmed(Strip(s))
  {
    var left := StripLeft(s);
    var r := StripRight(left);
    StripLeftShape(s);
    StripRightShape(left);
    if r != [] {
      assert r[0] == left[0];
    }
  }

  /** A string that neither starts nor ends with whitespace is its own
      strip. */
  lemma StripTrimmed(s: string)
    requires s != [] ==> !IsWhitespace(s[0]) && !IsWhitespace(s[|s| - 1])
    ensures Strip(s) == s
  {
    assert StripLeft(s) == s;
    assert StripRight(s) == s;
  }

  /** Stripping twice is stripping once. */
  lemma StripIdempotent(s: string)
    ensures Strip(Strip(s)) == Strip(s)
  {
    StripShape(s);
    StripTrimmed(Strip(s));
  }

  /** Neither starts nor ends with whitespace. */
  predicate Trimmed(r: string) {
    r != [] ==> !IsWhitespace(r[0]) && !IsWhitespace(r[|r| - 1])
  }

  /** Only one trimmed slice of `s` is surrounded by whitespace alone. */
  lemma StripUnique(s: string, i: int, r: string, j: int, q: string)
    requires SurroundedByWhitespace(s, i, r) && Trimmed(r)
    requires SurroundedByWhitespace(s, j, q) && Trimmed(q)
    ensures r == q
  {
    if r != [] {
      assert s[i] == r[0] && s[i + |r| - 1] == r[|r| - 1];
    }
    if q != [] {
      assert s[j] == q[0] && s[j + |q| - 1] == q[|q| - 1];
    }
  }

  /** A trimmed slice surrounded by whitespace in `s` stays so in a prefix
      `t` of `s` that only drops whitespace. */
  lemma SurroundedInPrefix(s: string, i: int, r: string, t: string)
    requires SurroundedByWhitespace(s, i, r) && Trimmed(r)
    requires |t| <= |s| && t == s[..|t|]
    requires forall m :: |t| <= m < |s| ==> IsWhitespace(s[m])
    ensures SurroundedByWhitespace(t, if r == [] then 0 else i, r)
  {
    if r != [] {
      assert s[i + |r| - 1] == r[|r| - 1];
      assert t[i..i + |r|] == s[i..i + |r|];
    }
    assert forall m :: 0 <= m < |t| ==> t[m] == s[m];
  }

  /** `s.rstrip().strip() == s.strip()`: stripping a line that was already
      right-stripped when read gives what stripping the raw line gives. */
  lemma StripAfterStripRight(s: string)
    ensures Strip(StripRight(s)) == Strip(s)
  {
    var r := Strip(s);
    StripShape(s);
    var i :| SurroundedByWhitespace(s, i, r);
    var t := StripRight(s);
    StripRightShape(s);
    StripShape(t);
    SurroundedInPrefix(s, i, r, t);
    var j :| SurroundedByWhitespace(t, j, Strip(t));
    StripUnique(t, if r == [] then 0 else i, r, j, Strip(t));
  }

  /** A line made only of whitespace strips to the empty string. */
  lemma StripAllWhitespace(s: string)
    requires forall i :: 0 <= i < |s| ==> IsWhitespace(s[i])
    ensures Strip(s) == ""
  {
    StripShape(s);
    var i :| SurroundedByWhitespace(s, i, Strip(s));
  }

  /** `" " * k`; like Python, a negative count gives the empty string. */
  function Spaces(k: int): (r: string)
    ensures |r| == (if k < 0 then 0 else k)
    ensures forall i :: 0 <= i < |r| ==> r[i] == ' '
  {
    if k <= 0 then [] else Spaces(k - 1) + [' ']
  }

  /** The upper-case form of an ASCII letter; other characters are kept. */
  function Upper(c: char): (u: char)
    ensures 'a' <= c <= 'z' ==> 'A' <= u <= 'Z' && u as int == c as int - 32
    ensures !('a' <= c <= 'z') ==> u == c
  {
    if 'a' <= c <= 'z' then (c as int - 32) as char else c
  }

  /** The lower-case form of an ASCII letter; other characters are kept. */
  function Lower(c: char): (l: char)
    ensures 'A' <= c <= 'Z' ==> 'a' <= l <= 'z' && l as int == c as int + 32
    ensures !('A' <= c <= 'Z') ==> l == c
  {
    if 'A' <= c <= 'Z' then (c as int + 32) as char else c
  }

  /** Every character of `s` in lower case. */
  function LowerAll(s: string): (r: string)
    ensures |r| == |s|
    ensures forall i :: 0 <= i < |s| ==> r[i] == Lower(s[i])
  {
    if s == [] then [] else [Lower(s[0])] + LowerAll(s[1..])
  }

  /** Python 2's `s.capitalize()`: the first character in upper case and all
      the others in lower case; the length never changes. */
  function Capitalize(s: string): (r: string)
    ensures |r| == |s|
    ensures s != [] ==> r[0] == Upper(s[0])
    ensures forall i :: 1 <= i < |s| ==> r[i] == Lower(s[i])
  {
    if s == [] then [] else [Upper(s[0])] + LowerAll(s[1..])
  }

  /** Capitalizing twice is capitalizing once. */
  lemma CapitalizeIdempotent(s: string)
    ensures Capitalize(Capitalize(s)) == Capitalize(s)
  {
    var once := Capitalize(s);
    var twice := Capitalize(once);
    forall i | 0 <= i < |s| ensures twice[i] == once[i] {
      if i == 0 {
        assert twice[0] == Upper(Upper(s[0]));
      } else {
        assert twice[i] == Lower(Lower(s[i]));
      }
    }
  }

  /** `x` occurs in `s` starting at index `n`. */
  predicate OccursAt(x: string, s: string, n: int) {
    0 <= n <= |s| - |x| && s[n..n + |x|] == x
  }

  /** `x` occurs as a contiguous slice of `s`. */
  ghost predicate IsSubstring(x: string, s: string) {
    exists n :: OccursAt(x, s, n)
  }
}
