/** Strings as sequences of characters: substring containment, ASCII
    lower-casing and prefix truncation, the three string operations the
    result filtering relies on. */
module Text {

  /** `sub` occurs in `s` starting at position `i`. */
  predicate OccursAt(s: string, sub: string, i: int) {
    0 <= i && i + |sub| <= |s| && s[i..i + |sub|] == sub
  }

  /** Python's `sub in s` for two strings (case-sensitive). */
  predicate Contains(s: string, sub: string) {
    exists i :: 0 <= i <= |s| - |sub| && OccursAt(s, sub, i)
  }

  lemma ContainsNeedsRoom(s: string, sub: string)
    requires |s| < |sub|
    ensures !Contains(s, sub)
  {
  }

  /** `a` and `b` are the same character up to ASCII case: equal, or an
      upper-case letter and its lower-case partner, in either order. */
  predicate SameIgnoringCase(a: char, b: char) {
    || a == b
    || ('A' <= a <= 'Z' && b as int == a as int + 32)
    || ('A' <= b <= 'Z' && a as int == b as int + 32)
  }

  /** The ASCII lower-case form of `c`: the same letter up to case, and never
      an upper-case letter. */
  function LowerChar(c: char): (l: char)
    ensures SameIgnoringCase(c, l)
    ensures !('A' <= l <= 'Z')
  {
    if 'A' <= c <= 'Z' then (c as int + 32) as char else c
  }

  /** No upper-case ASCII letter occurs in `s`. */
  predicate IsLowerCase(s: string) {
    forall i :: 0 <= i < |s| ==> !('A' <= s[i] <= 'Z')
  }

  /** Python's `str.lower()`, restricted to the ASCII letters: the result has
      the same length, each character is the one of `s` up to case, no
      upper-case letter is left, and a string already in lower case is left as
      it is. The first three determine the result. */
  function Lower(s: string): (r: string)
    ensures |r| == |s|
    ensures forall i :: 0 <= i < |s| ==> SameIgnoringCase(s[i], r[i])
    ensures IsLowerCase(r)
    ensures IsLowerCase(s) ==> r == s
  {
    seq(|s|, i requires 0 <= i < |s| => LowerChar(s[i]))
  }

  /** `d` occurs in `t` up to ASCII case: a case-insensitive substring test
      defined character by character, without lower-casing. */
  predicate ContainsIgnoringCase(t: string, d: string) {
    exists i :: 0 <= i <= |t| - |d| && MatchesIgnoringCaseAt(t, d, i)
  }

  /** Each character of `d` matches the character of `t` at the same offset
      from `i`, up to ASCII case. */
  predicate MatchesIgnoringCaseAt(t: string, d: string, i: int) {
    0 <= i && i + |d| <= |t| && forall m :: 0 <= m < |d| ==> SameIgnoringCase(t[i + m], d[m])
  }

  /** Testing a lower-case `d` against the lower-cased `t` is exactly the
      case-insensitive substring test. */
  lemma {:induction false} LowerContainsIffIgnoringCase(t: string, d: string)
    requires IsLowerCase(d)
    ensures Contains(Lower(t), d) <==> ContainsIgnoringCase(t, d)
  {
    var lt := Lower(t);
    if Contains(lt, d) {
      var i :| 0 <= i <= |lt| - |d| && OccursAt(lt, d, i);
      forall m | 0 <= m < |d|
        ensures SameIgnoringCase(t[i + m], d[m])
      {
        assert lt[i..i + |d|][m] == lt[i + m];
      }
      assert MatchesIgnoringCaseAt(t, d, i);
    }
    if ContainsIgnoringCase(t, d) {
      var i :| 0 <= i <= |t| - |d| && MatchesIgnoringCaseAt(t, d, i);
      forall m | 0 <= m < |d|
        ensures lt[i + m] == d[m]
      {
        assert SameIgnoringCase(t[i + m], d[m]) && !('A' <= d[m] <= 'Z');
      }
      assert lt[i..i + |d|] == d;
      assert OccursAt(lt, d, i);
    }
  }

  function Min(a: int, b: int): int {
    if a <= b then a else b
  }

  /** Python's `s[:n]` for `n >= 0`: the first `min(n, |s|)` characters. */
  function Truncate(s: string, n: nat): (r: string)
    ensures r <= s
    ensures |r| == Min(n, |s|)
  {
    if |s| <= n then s else s[..n]
  }

  /** `suffix` is a tail of `s`. */
  predicate EndsWith(s: string, suffix: string) {
    |suffix| <= |s| && s[|s| - |suffix|..] == suffix
  }
}
