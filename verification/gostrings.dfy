/** Go's string ordering and lower-casing, as used by the decision tree.

    Go compares strings byte by byte. Only text that is valid UTF-8 is
    represented here: Dafny strings are sequences of Unicode scalar values.
    UTF-8 preserves the order of code points, so on such text Go's byte order
    is the lexicographic order on characters. Dafny's own
    `<` on sequences means "proper prefix", which is why the order is defined
    here. */
module GoStrings {

  /** Go's `a < b` on strings. */
  predicate StrLt(a: string, b: string)
    decreases |a|
  {
    if |b| == 0 then false
    else if |a| == 0 then true
    else if a[0] != b[0] then a[0] < b[0]
    else StrLt(a[1..], b[1..])
  }

  lemma {:induction false} StrLtIrreflexive(a: string)
    ensures !StrLt(a, a)
    decreases |a|
  {
    if |a| > 0 {
      StrLtIrreflexive(a[1..]);
    }
  }

  lemma {:induction false} StrLtAsymmetric(a: string, b: string)
    ensures StrLt(a, b) ==> !StrLt(b, a)
    decreases |a|
  {
    if |a| > 0 && |b| > 0 && a[0] == b[0] {
      StrLtAsymmetric(a[1..], b[1..]);
    }
  }

  lemma {:induction false} StrLtTransitive(a: string, b: string, c: string)
    requires StrLt(a, b) && StrLt(b, c)
    ensures StrLt(a, c)
    decreases |a|
  {
    if |a| > 0 && a[0] == b[0] && b[0] == c[0] {
      StrLtTransitive(a[1..], b[1..], c[1..]);
    }
  }

  /** Two different strings are always ordered one way or the other. */
  lemma {:induction false} StrLtTotal(a: string, b: string)
    ensures a == b || StrLt(a, b) || StrLt(b, a)
    decreases |a|
  {
    if |a| > 0 && |b| > 0 && a[0] == b[0] {
      StrLtTotal(a[1..], b[1..]);
      if a[1..] == b[1..] {
        assert a == [a[0]] + a[1..] && b == [b[0]] + b[1..];
      }
    }
  }

  /** `a` is below `b` at position `k`: the two agree before `k`, and there
      `a` has ended while `b` goes on, or `a` has the smaller character. */
  predicate BelowAt(a: string, b: string, k: int)
  {
    0 <= k <= |a| && k < |b| && a[..k] == b[..k] && (k == |a| || a[k] < b[k])
  }

  /** The order as Go defines it: `a < b` exactly when, at the first position
      where the strings differ or one of them ends, `a` is the smaller. */
  lemma {:induction false} StrLtFirstDifference(a: string, b: string)
    ensures StrLt(a, b) <==> exists k :: BelowAt(a, b, k)
    decreases |a|
  {
    if |b| == 0 {
    } else if |a| == 0 {
      assert BelowAt(a, b, 0);
    } else if a[0] != b[0] {
      if StrLt(a, b) {
        assert BelowAt(a, b, 0);
      }
    } else {
      StrLtFirstDifference(a[1..], b[1..]);
      if StrLt(a, b) {
        var k :| BelowAt(a[1..], b[1..], k);
        assert a[..k + 1] == [a[0]] + a[1..][..k];
        assert b[..k + 1] == [b[0]] + b[1..][..k];
        assert BelowAt(a, b, k + 1);
      }
      forall k | BelowAt(a, b, k) ensures StrLt(a, b) {
        assert k > 0;
        assert a[1..][..k - 1] == a[..k][1..];
        assert b[1..][..k - 1] == b[..k][1..];
        assert BelowAt(a[1..], b[1..], k - 1);
      }
    }
  }

  /** Go's `unicode.ToLower` on the characters that matter here: the ASCII
      capitals, and the two non-ASCII characters whose lower case is an ASCII
      letter (U+0130 lowers to 'i', the Kelvin sign U+212A to 'k'). Every
      other character is returned unchanged; the true lower case of the
      remaining non-ASCII capitals is never an ASCII letter. */
  function CharToLower(c: char): (r: char)
    ensures 'A' <= c <= 'Z' ==> r == "abcdefghijklmnopqrstuvwxyz"[c as int - 'A' as int]
    ensures 'a' <= c <= 'z' ==> r == c
    ensures c == '\U{0130}' ==> r == 'i'
    ensures c == '\U{212A}' ==> r == 'k'
    ensures ('a' <= r <= 'z') ==> ('a' <= c <= 'z' || 'A' <= c <= 'Z' || c == '\U{0130}' || c == '\U{212A}')
  {
    if 'A' <= c <= 'Z' then (c as int + 32) as char
    else if c == '\U{0130}' then 'i'
    else if c == '\U{212A}' then 'k'
    else c
  }

  /** Go's `strings.ToLower`, character by character. */
  function ToLower(s: string): (r: string)
    ensures |r| == |s|
    ensures forall i :: 0 <= i < |s| ==> r[i] == CharToLower(s[i])
  {
    seq(|s|, i requires 0 <= i < |s| => CharToLower(s[i]))
  }

  /** `s` and `t` differ at most in the letter case of ASCII letters. */
  predicate SameUpToAsciiCase(s: string, t: string)
  {
    && |s| == |t|
    && forall k :: 0 <= k < |s| ==>
         || s[k] == t[k]
         || ('A' <= s[k] <= 'Z' && t[k] as int == s[k] as int + 32)
         || ('A' <= t[k] <= 'Z' && s[k] as int == t[k] as int + 32)
  }

  /** Strings that differ only in the case of ASCII letters lower to the
      same string. */
  lemma ToLowerIgnoresAsciiCase(s: string, t: string)
    requires SameUpToAsciiCase(s, t)
    ensures ToLower(s) == ToLower(t)
  {
    forall k | 0 <= k < |s|
      ensures ToLower(s)[k] == ToLower(t)[k]
    {
      if 'A' <= s[k] <= 'Z' && t[k] != s[k] {
        assert 'a' <= t[k] <= 'z';
      } else if 'A' <= t[k] <= 'Z' && t[k] != s[k] {
        assert 'a' <= s[k] <= 'z';
      }
    }
  }

  /** Lower-casing twice is lower-casing once, so a match against a
      lower-case keyword is insensitive to case. */
  lemma ToLowerIdempotent(s: string)
    ensures ToLower(ToLower(s)) == ToLower(s)
  {
    forall i | 0 <= i < |s|
      ensures ToLower(ToLower(s))[i] == ToLower(s)[i]
    {
      var c := s[i];
      if 'A' <= c <= 'Z' {
        assert 'a' <= CharToLower(c) <= 'z';
      }
    }
  }
}
