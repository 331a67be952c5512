/**
 * The handful of Python `str` operations the agent's control logic relies on:
 * substring test (`p in s`), `str.lower`, `str.strip` and `sep.join(parts)`.
 */
module Text {

  /** `p` occurs in `s` starting at index `i`. */
  predicate OccursAt(s: string, p: string, i: int) {
    0 <= i && i + |p| <= |s| && s[i..i + |p|] == p
  }

  /** Python's `p in s`. */
  predicate Contains(s: string, p: string) {
    exists i | 0 <= i <= |s| - |p| :: OccursAt(s, p, i)
  }

  /**
   * Python's `str.isspace` for one character: the characters `str.strip()`
   * removes when it is called without arguments.
   */
  predicate IsSpace(c: char) {
    c in Whitespace
  }

  const Whitespace: set<char> :=
    {'\t', '\n', '\U{B}', '\U{C}', '\r', '\U{1C}', '\U{1D}', '\U{1E}', '\U{1F}', ' ', '\U{85}', '\U{A0}',
     '\U{1680}', '\U{2000}', '\U{2001}', '\U{2002}', '\U{2003}', '\U{2004}', '\U{2005}', '\U{2006}',
     '\U{2007}', '\U{2008}', '\U{2009}', '\U{200A}', '\U{2028}', '\U{2029}', '\U{202F}', '\U{205F}',
     '\U{3000}'}

  /**
   * Python's `str.lower` as far as it can matter to a match against an
   * ASCII lower-case word: ASCII capitals and the KELVIN SIGN, whose lower
   * case is 'k'. Every other ASCII character lowers to itself, and every
   * other non-ASCII character lowers either to non-ASCII characters or to
   * "i" followed by a combining dot (U+0130); neither can complete a match
   * that ends in a letter other than 'i'.
   */
  function LowerChar(c: char): char {
    if 'A' <= c <= 'Z' then (c as int + 32) as char
    else if c == 'K' then 'k'
    else c
  }

  function ToLower(s: string): string {
    seq(|s|, i requires 0 <= i < |s| => LowerChar(s[i]))
  }

  /** Length of the run of whitespace that starts `s`. */
  function LeadingSpaces(s: string): (n: nat)
    ensures n <= |s|
    ensures n < |s| ==> !IsSpace(s[n])
  {
    if |s| > 0 && IsSpace(s[0]) then 1 + LeadingSpaces(s[1..]) else 0
  }

  /** Length of the run of whitespace that ends `s`. */
  function TrailingSpaces(s: string): (n: nat)
    ensures n <= |s|
    ensures n < |s| ==> !IsSpace(s[|s| - 1 - n])
  {
    if |s| > 0 && IsSpace(s[|s| - 1]) then 1 + TrailingSpaces(s[..|s| - 1]) else 0
  }

  /** Python's `s.strip()`. */
  function Strip(s: string): (r: string)
    ensures r == [] || (!IsSpace(r[0]) && !IsSpace(r[|r| - 1]))
  {
    var a := LeadingSpaces(s);
    var b := TrailingSpaces(s[a..]);
    assert a + b <= |s|;
    s[a..|s| - b]
  }

  /** Concatenation of strings is associative. */
  lemma Associative(x: string, y: string, z: string)
    ensures (x + y) + z == x + (y + z)
  {
  }

  /** An occurrence in `x` is an occurrence in any text that contains `x`. */
  lemma OccursShifted(pre: string, x: string, post: string, p: string, i: int)
    requires OccursAt(x, p, i)
    ensures OccursAt(pre + x + post, p, |pre| + i)
  {
    assert (pre + x + post)[|pre| + i..|pre| + i + |p|] == x[i..i + |p|];
  }

  /** A text containing `z` contains every prefix `x` of `z`. */
  lemma ContainsPrefix(s: string, z: string, x: string)
    requires Contains(s, z) && |x| <= |z| && z[..|x|] == x
    ensures Contains(s, x)
  {
    var i :| 0 <= i <= |s| - |z| && OccursAt(s, z, i);
    assert s[i..i + |x|] == z[..|x|];
    assert OccursAt(s, x, i);
  }

  /** Leading whitespace ends no later than the first non-space character. */
  lemma {:induction false} LeadingBound(s: string, i: int)
    requires 0 <= i < |s| && !IsSpace(s[i])
    ensures LeadingSpaces(s) <= i
  {
    if i > 0 && IsSpace(s[0]) {
      LeadingBound(s[1..], i - 1);
    }
  }

  /** Trailing whitespace starts after the last non-space character. */
  lemma {:induction false} TrailingBound(s: string, j: int)
    requires 0 <= j < |s| && !IsSpace(s[j])
    ensures j < |s| - TrailingSpaces(s)
  {
    if j < |s| - 1 && IsSpace(s[|s| - 1]) {
      TrailingBound(s[..|s| - 1], j);
    }
  }

  /** A slice of a slice is a slice of the original. */
  lemma SliceOfSlice(s: string, lo: int, hi: int, i: int, j: int)
    requires 0 <= lo <= hi <= |s| && 0 <= i <= j <= hi - lo
    ensures s[lo..hi][i..j] == s[lo + i..lo + j]
  {
    var t := s[lo..hi];
    assert forall k :: 0 <= k < j - i ==> t[i..j][k] == t[i + k] == s[lo + i + k];
  }

  /**
   * `Strip` keeps every occurrence of a pattern that begins and ends with a
   * non-whitespace character, and drops only whitespace from either end.
   */
  lemma {:induction false} StripKeepsOccurrence(s: string, p: string, i: int)
    requires OccursAt(s, p, i)
    requires p != [] && !IsSpace(p[0]) && !IsSpace(p[|p| - 1])
    ensures Contains(Strip(s), p)
  {
    var a := LeadingSpaces(s);
    assert OccursAt(Strip(s), p, i - a) by {
      var b := TrailingSpaces(s[a..]);
      OccurrenceInsideStrip(s, p, i);
      SliceOfSlice(s, a, |s| - b, i - a, i - a + |p|);
    }
  }

  /** An occurrence with non-space ends lies between the leading and trailing whitespace. */
  lemma OccurrenceInsideStrip(s: string, p: string, i: int)
    requires OccursAt(s, p, i)
    requires p != [] && !IsSpace(p[0]) && !IsSpace(p[|p| - 1])
    ensures var a := LeadingSpaces(s);
            a <= i && i + |p| <= |s| - TrailingSpaces(s[a..])
  {
    var a := LeadingSpaces(s);
    assert s[i] == p[0];
    LeadingBound(s, i);
    var t := s[a..];
    assert t[i - a + |p| - 1] == s[i + |p| - 1] == p[|p| - 1];
    TrailingBound(t, i - a + |p| - 1);
  }

  /** Whatever occurs in `Strip(s)` occurs in `s`. */
  lemma StripAddsNothing(s: string, p: string)
    requires Contains(Strip(s), p)
    ensures Contains(s, p)
  {
    var a := LeadingSpaces(s);
    var t := s[a..];
    var b := TrailingSpaces(t);
    var r := Strip(s);
    assert r == s[a..|s| - b];
    var i :| 0 <= i <= |r| - |p| && OccursAt(r, p, i);
    SliceOfSlice(s, a, |s| - b, i, i + |p|);
    assert s[a + i..a + i + |p|] == r[i..i + |p|];
    assert OccursAt(s, p, a + i);
  }

  /**
   * An occurrence of a pattern that does not contain the character `c`
   * lies wholly on one side of a `c` that separates two strings.
   */
  lemma SplitAtSeparator(a: string, c: char, b: string, p: string)
    requires c !in p
    requires Contains(a + [c] + b, p)
    ensures Contains(a, p) || Contains(b, p)
  {
    var s := a + [c] + b;
    var i :| 0 <= i <= |s| - |p| && OccursAt(s, p, i);
    assert forall k :: 0 <= k < |p| ==> p[k] == s[i + k];
    assert s[|a|] == c;
    assert i + |p| <= |a| || i > |a|;
    if i + |p| <= |a| {
      assert a[i..i + |p|] == s[i..i + |p|];
      assert OccursAt(a, p, i);
    } else {
      assert b[i - |a| - 1..i - |a| - 1 + |p|] == s[i..i + |p|];
      assert OccursAt(b, p, i - |a| - 1);
    }
  }

  /** An occurrence in a part is an occurrence in a string built around it. */
  lemma ContainsInMiddle(a: string, m: string, b: string, p: string)
    requires Contains(m, p)
    ensures Contains(a + m + b, p)
  {
    var s := a + m + b;
    var i :| 0 <= i <= |m| - |p| && OccursAt(m, p, i);
    assert s[|a| + i..|a| + i + |p|] == m[i..i + |p|];
    assert OccursAt(s, p, |a| + i);
  }

  /** A pattern holding a character that `s` lacks does not occur in `s`. */
  lemma MissingCharRulesOut(s: string, p: string, j: nat)
    requires j < |p| && p[j] !in s
    ensures !Contains(s, p)
  {
    var c := p[j];
    forall i | 0 <= i <= |s| - |p|
      ensures !OccursAt(s, p, i)
    {
      assert s[i + j] != c;
      assert s[i..i + |p|][j] == s[i + j];
    }
  }

  /** Python's `sep.join(parts)`. */
  function Join(parts: seq<string>, sep: string): string
    decreases |parts|
  {
    if |parts| == 0 then ""
    else if |parts| == 1 then parts[0]
    else Join(parts[..|parts| - 1], sep) + sep + parts[|parts| - 1]
  }

  /** Joining yields "" exactly when every part is "" and there is at most one part. */
  lemma {:induction false} JoinEmpty(parts: seq<string>, sep: string)
    requires sep != ""
    ensures Join(parts, sep) == "" <==> |parts| == 0 || (|parts| == 1 && parts[0] == "")
  {
    if |parts| > 1 {
      assert |Join(parts, sep)| >= |sep|;
    }
  }

  /** Every part occurs in the joined string. */
  lemma {:induction false} JoinHasPart(parts: seq<string>, sep: string, k: int)
    requires 0 <= k < |parts|
    ensures Contains(Join(parts, sep), parts[k])
    decreases |parts|
  {
    var j := Join(parts, sep);
    if |parts| == 1 {
      assert j == "" + parts[0] + "";
      ContainsInMiddle("", parts[0], "", parts[0]) by {
        assert OccursAt(parts[0], parts[0], 0);
      }
    } else {
      var init := parts[..|parts| - 1];
      var last := parts[|parts| - 1];
      if k == |parts| - 1 {
        assert OccursAt(last, last, 0);
        ContainsInMiddle(Join(init, sep) + sep, last, "", last);
        assert j == Join(init, sep) + sep + last + "";
      } else {
        JoinHasPart(init, sep, k);
        assert init[k] == parts[k];
        ContainsInMiddle("", Join(init, sep), sep + last, parts[k]);
        assert j == "" + Join(init, sep) + (sep + last);
      }
    }
  }
}
