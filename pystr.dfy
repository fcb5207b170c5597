/**
 * The few operations on Python `str` values that the report sink relies on:
 * `strip`, `lstrip` and `rstrip` without arguments, repetition `' ' * n`,
 * and the ordering `<` that `list.sort` uses to order module names.
 * Strings are sequences of characters.
 */
module PyStr {

  /**
   * Whitespace as the C `isspace` test sees it: space, tab, newline, carriage
   * return, vertical tab and form feed. Python's argument-less `strip` family
   * removes these and some further Unicode characters besides.
   */
  predicate IsSpace(c: char) {
    c == ' ' || c == '\t' || c == '\n' || c == '\r' || c == '\U{B}' || c == '\U{C}'
  }

  predicate AllSpace(s: string) {
    forall i :: 0 <= i < |s| ==> IsSpace(s[i])
  }

  /** `s.lstrip()`: the longest suffix of `s` that does not start with whitespace. */
  function LStrip(s: string): (r: string)
    ensures |r| <= |s| && r == s[|s| - |r|..]
    ensures AllSpace(s[..|s| - |r|])
    ensures r == [] || !IsSpace(r[0])
  {
    if s != [] && IsSpace(s[0]) then LStrip(s[1..]) else s
  }

  /** `s.rstrip()`: the longest prefix of `s` that does not end with whitespace. */
  function RStrip(s: string): (r: string)
    ensures |r| <= |s| && r == s[..|r|]
    ensures AllSpace(s[|r|..])
    ensures r == [] || !IsSpace(r[|r| - 1])
  {
    if s != [] && IsSpace(s[|s| - 1]) then RStrip(s[..|s| - 1]) else s
  }

  /** `len(t) - len(t.lstrip())`: the number of leading whitespace characters of `t`. */
  function LeadingSpaces(t: string): (n: nat)
    ensures n <= |t| && AllSpace(t[..n])
    ensures n == |t| || !IsSpace(t[n])
  {
    |t| - |LStrip(t)|
  }

  /** `s.strip()`: whitespace removed from both ends. */
  function Strip(s: string): (r: string)
    ensures var t := RStrip(s); r == t[LeadingSpaces(t)..]
    ensures r == [] || (!IsSpace(r[0]) && !IsSpace(r[|r| - 1]))
  {
    LStrip(RStrip(s))
  }

  /** `' ' * n`: `n` spaces, and the empty string when `n` is zero or negative. */
  function Spaces(n: int): (r: string)
    ensures |r| == if n < 0 then 0 else n
    ensures forall i :: 0 <= i < |r| ==> r[i] == ' '
    decreases n
  {
    if n <= 0 then [] else [' '] + Spaces(n - 1)
  }

  /** Python's `a < b` on `str`: lexicographic by code point, a proper prefix first. */
  predicate Less(a: string, b: string) {
    if a == [] then b != []
    else if b == [] then false
    else if a[0] != b[0] then a[0] < b[0]
    else Less(a[1..], b[1..])
  }

  /**
   * The order as the Python language reference defines it for sequences: `a`
   * and `b` agree on a common prefix of length `k`, after which either `a` ends
   * while `b` goes on, or `a`'s next character has the smaller code point.
   */
  ghost predicate LexBefore(a: string, b: string) {
    exists k :: DecidedAt(a, b, k)
  }

  /** `a` and `b` agree on their first `k` characters and position `k` puts `a` first. */
  predicate DecidedAt(a: string, b: string, k: int) {
    0 <= k <= |a| && k < |b| && a[..k] == b[..k] && (k == |a| || a[k] < b[k])
  }

  /** The recursive `Less` is exactly that order. */
  lemma {:induction false} LessIsLexicographic(a: string, b: string)
    ensures Less(a, b) <==> LexBefore(a, b)
  {
    if a == [] || b == [] {
      if Less(a, b) {
        assert DecidedAt(a, b, 0);
      }
    } else if a[0] != b[0] {
      if LexBefore(a, b) {
        var k :| DecidedAt(a, b, k);
        if k > 0 {
          assert false;
        }
      }
      if Less(a, b) {
        assert DecidedAt(a, b, 0);
      }
    } else {
      LessIsLexicographic(a[1..], b[1..]);
      if LexBefore(a, b) {
        var k :| DecidedAt(a, b, k);
        DecidedBehindHead(a, b, k);
      }
      if LexBefore(a[1..], b[1..]) {
        var k :| DecidedAt(a[1..], b[1..], k);
        DecidedAfterHead(a, b, k);
      }
    }
  }

  /** Behind an equal first character, a decision at `k` is a decision of the tails at `k - 1`. */
  lemma DecidedBehindHead(a: string, b: string, k: int)
    requires a != [] && b != [] && a[0] == b[0] && DecidedAt(a, b, k)
    ensures k > 0 && DecidedAt(a[1..], b[1..], k - 1)
  {
    assert a[1..][..k - 1] == a[..k][1..];
    assert b[1..][..k - 1] == b[..k][1..];
  }

  /** Prefixing an equal first character moves a decision of the tails one place on. */
  lemma DecidedAfterHead(a: string, b: string, k: int)
    requires a != [] && b != [] && a[0] == b[0] && DecidedAt(a[1..], b[1..], k)
    ensures DecidedAt(a, b, k + 1)
  {
    assert a[..k + 1] == [a[0]] + a[1..][..k];
    assert b[..k + 1] == [b[0]] + b[1..][..k];
  }

  lemma {:induction false} LessIrreflexive(a: string)
    ensures !Less(a, a)
  {
    if a != [] {
      LessIrreflexive(a[1..]);
    }
  }

  lemma {:induction false} LessTransitive(a: string, b: string, c: string)
    requires Less(a, b) && Less(b, c)
    ensures Less(a, c)
  {
    if a != [] && b != [] && c != [] && a[0] == b[0] && b[0] == c[0] {
      LessTransitive(a[1..], b[1..], c[1..]);
    }
  }

  /** Any two different names are ordered one way or the other. */
  lemma {:induction false} LessTotal(a: string, b: string)
    requires a != b
    ensures Less(a, b) || Less(b, a)
  {
    if a != [] && b != [] && a[0] == b[0] {
      assert a == [a[0]] + a[1..] && b == [b[0]] + b[1..];
      LessTotal(a[1..], b[1..]);
    }
  }

  lemma LessAsymmetric(a: string, b: string)
    requires Less(a, b)
    ensures !Less(b, a)
  {
    if Less(b, a) {
      LessTransitive(a, b, a);
      LessIrreflexive(a);
    }
  }

  /** "Not less" is transitive: `b <= a` and `c <= b` give `c <= a` in `list.sort`'s order. */
  lemma NotLessTransitive(a: string, b: string, c: string)
    requires !Less(b, a) && !Less(c, b)
    ensures !Less(c, a)
  {
    if a != b {
      LessTotal(a, b);
      if Less(c, a) {
        LessTransitive(c, a, b);
        assert false;
      }
    }
  }
}
