/**
 * The three Python string operations the core relies on: `str.strip()`,
 * `str.lower()` and the substring test `t in s`.
 */
module Text {

  /** Python's `str.isspace()` for one character: the code points that
      `strip()` with no argument removes. */
  predicate IsSpace(c: char)
  {
    var n := c as int;
    (9 <= n <= 13) || (28 <= n <= 32) || n == 0x85 || n == 0xA0 || n == 0x1680
    || (0x2000 <= n <= 0x200A) || n == 0x2028 || n == 0x2029 || n == 0x202F
    || n == 0x205F || n == 0x3000
  }

  ghost predicate AllSpace(s: string)
  {
    forall i :: 0 <= i < |s| ==> IsSpace(s[i])
  }

  /** The length of the run of whitespace at the start of `s`. */
  function LeadingSpace(s: string): (k: nat)
    ensures k <= |s|
    ensures forall i :: 0 <= i < k ==> IsSpace(s[i])
    ensures k < |s| ==> !IsSpace(s[k])
  {
    if |s| > 0 && IsSpace(s[0]) then 1 + LeadingSpace(s[1..]) else 0
  }

  /** The length of the run of whitespace at the end of `s`. */
  function TrailingSpace(s: string): (k: nat)
    ensures k <= |s|
    ensures forall i :: |s| - k <= i < |s| ==> IsSpace(s[i])
    ensures k < |s| ==> !IsSpace(s[|s| - 1 - k])
  {
    if |s| > 0 && IsSpace(s[|s| - 1]) then 1 + TrailingSpace(s[..|s| - 1]) else 0
  }

  /** Python's `s.strip()`: `s` without its leading and trailing whitespace.
      The result is empty exactly when `s` is blank, and otherwise starts and
      ends with a non-whitespace character. */
  function Strip(s: string): (r: string)
    ensures |r| <= |s|
    ensures r == [] <==> AllSpace(s)
    ensures r != [] ==> !IsSpace(r[0]) && !IsSpace(r[|r| - 1])
  {
    var rest := s[LeadingSpace(s)..];
    rest[..|rest| - TrailingSpace(rest)]
  }

  /** Strip removes whitespace and nothing else: `s` is the stripped text with
      a blank prefix and a blank suffix around it. */
  lemma StripRemovesOnlyOuterSpace(s: string)
    ensures var lo := LeadingSpace(s);
            lo + |Strip(s)| <= |s|
            && s == s[..lo] + Strip(s) + s[lo + |Strip(s)|..]
            && AllSpace(s[..lo]) && AllSpace(s[lo + |Strip(s)|..])
  {
    var lo := LeadingSpace(s);
    var rest := s[lo..];
    var t := TrailingSpace(rest);
    assert Strip(s) == s[lo..lo + |rest| - t];
    assert s[lo + |Strip(s)|..] == rest[|rest| - t..];
    assert s == s[..lo] + s[lo..lo + |rest| - t] + s[lo + |rest| - t..];
  }

  /** Text that neither starts nor ends with whitespace is left as it is. */
  lemma StripKeepsTrimmed(s: string)
    requires s == [] || (!IsSpace(s[0]) && !IsSpace(s[|s| - 1]))
    ensures Strip(s) == s
  {
    assert LeadingSpace(s) == 0;
    assert s[0..] == s;
    assert TrailingSpace(s) == 0;
  }

  /** Stripping twice is stripping once. */
  lemma StripIdempotent(s: string)
    ensures Strip(Strip(s)) == Strip(s)
  {
    StripKeepsTrimmed(Strip(s));
  }

  /** Python's `c.lower()` on the ASCII capital letters; every other
      character is left as it is. */
  function LowerChar(c: char): char
  {
    if 'A' <= c <= 'Z' then (c as int + 32) as char else c
  }

  /** Python's `s.lower()`, character by character. */
  function Lower(s: string): (r: string)
    ensures |r| == |s|
    ensures forall i :: 0 <= i < |s| ==> r[i] == LowerChar(s[i])
  {
    if s == [] then [] else [LowerChar(s[0])] + Lower(s[1..])
  }

  /** Lower-casing keeps an occurrence of a word that has no capitals. */
  lemma LowerKeepsOccurrence(s: string, t: string, at: int)
    requires OccursAt(s, t, at)
    requires forall k :: 0 <= k < |t| ==> LowerChar(t[k]) == t[k]
    ensures OccursAt(Lower(s), t, at)
  {
    forall k | 0 <= k < |t|
      ensures Lower(s)[at..][k] == t[k]
    {
      assert s[at..][k] == s[at + k];
    }
  }

  /** Python's substring test `t in s`. */
  function Contains(s: string, t: string): bool
  {
    t <= s || (|s| > 0 && Contains(s[1..], t))
  }

  /** `t` occurs in `s` starting at position `i`. */
  ghost predicate OccursAt(s: string, t: string, i: int)
  {
    0 <= i <= |s| && t <= s[i..]
  }

  /** `Contains` agrees with the positional definition of a substring. */
  lemma {:induction false} ContainsIff(s: string, t: string)
    ensures Contains(s, t) <==> exists i :: OccursAt(s, t, i)
    decreases |s|
  {
    if Contains(s, t) {
      if t <= s {
        assert s[0..] == s;
        assert OccursAt(s, t, 0);
      } else {
        ContainsIff(s[1..], t);
        var i :| OccursAt(s[1..], t, i);
        assert s[1..][i..] == s[i + 1..];
        assert OccursAt(s, t, i + 1);
      }
    }
    if exists i :: OccursAt(s, t, i) {
      var i :| OccursAt(s, t, i);
      if i == 0 {
        assert s[0..] == s;
      } else {
        assert s[1..][i - 1..] == s[i..];
        assert OccursAt(s[1..], t, i - 1);
        ContainsIff(s[1..], t);
      }
    }
  }
}
