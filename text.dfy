/** The few Python `str` operations the modelled code relies on. */
module Text {

  /** Python's `str.isspace()` for one character: the ASCII separators and the
      Unicode space separators. */
  predicate IsSpace(c: char) {
    var n := c as int;
    n == 32 || 9 <= n <= 13 || 28 <= n <= 31 || n == 0x85 || n == 0xA0 || n == 0x1680
    || 0x2000 <= n <= 0x200A || n == 0x2028 || n == 0x2029 || n == 0x202F || n == 0x205F
    || n == 0x3000
  }

  /** Number of whitespace characters at the front of `s`. */
  function LeadingSpaces(s: string): (n: nat)
    ensures n <= |s|
    ensures n < |s| ==> !IsSpace(s[n])
  {
    if s == [] || !IsSpace(s[0]) then 0 else 1 + LeadingSpaces(s[1..])
  }

  /** Length of `s` once its trailing whitespace is cut off. */
  function ContentEnd(s: string): (n: nat)
    ensures n <= |s|
    ensures n > 0 ==> !IsSpace(s[n - 1])
  {
    if s == [] || !IsSpace(s[|s| - 1]) then |s| else ContentEnd(s[..|s| - 1])
  }

  /** Python's `str.strip()`: whitespace removed from both ends, the middle kept. */
  function Strip(s: string): (r: string)
    ensures r == [] || (!IsSpace(r[0]) && !IsSpace(r[|r| - 1]))
    ensures |r| <= |s|
  {
    var i := LeadingSpaces(s);
    s[i..][..ContentEnd(s[i..])]
  }

  /** `w` occurs in `s` starting at index `i`. */
  predicate OccursAt(s: string, w: string, i: int) {
    0 <= i <= |s| - |w| && s[i..i + |w|] == w
  }

  /** Python's `w in s` for strings. */
  predicate Contains(s: string, w: string) {
    exists i | 0 <= i <= |s| - |w| :: OccursAt(s, w, i)
  }

  predicate StartsWith(s: string, p: string) {
    |p| <= |s| && s[..|p|] == p
  }

  predicate NoSpace(w: string) {
    forall k :: 0 <= k < |w| ==> !IsSpace(w[k])
  }

  /** Python's `s.replace(w, "")`: occurrences found left to right, without overlap. */
  function RemoveAll(s: string, w: string): (r: string)
    requires w != []
    ensures |r| <= |s|
    decreases |s|
  {
    if |s| < |w| then s
    else
      var hit := s[..|w|] == w;
      (if hit then [] else [s[0]]) + RemoveAll(s[if hit then |w| else 1..], w)
  }

  /** Python's `sep.join(parts)`. */
  function Join(parts: seq<string>, sep: string): string {
    if parts == [] then ""
    else if |parts| == 1 then parts[0]
    else parts[0] + sep + Join(parts[1..], sep)
  }

  /** `str.upper()` and `str.lower()` on ASCII letters; every other character is kept. */
  function Upper(c: char): (u: char)
    ensures 'A' <= u <= 'Z' <==> ('a' <= c <= 'z' || 'A' <= c <= 'Z')
  {
    if 'a' <= c <= 'z' then (c as int - 32) as char else c
  }

  function Lower(c: char): (l: char)
    ensures 'a' <= l <= 'z' <==> ('a' <= c <= 'z' || 'A' <= c <= 'Z')
  {
    if 'A' <= c <= 'Z' then (c as int + 32) as char else c
  }

  function LowerAll(s: string): (r: string)
    ensures |r| == |s|
    ensures forall k :: 0 <= k < |s| ==> r[k] == Lower(s[k])
  {
    if s == [] then [] else [Lower(s[0])] + LowerAll(s[1..])
  }

  lemma LowerUpper(c: char)
    ensures Lower(Upper(c)) == Lower(c)
  {
  }

  /** Stripping never cuts into a word that has no whitespace in it, so the word
      occurs in the stripped text exactly when it occurs in the original. */
  lemma StripKeepsWord(s: string, w: string)
    requires w != [] && NoSpace(w)
    ensures Contains(Strip(s), w) <==> Contains(s, w)
  {
    if Contains(s, w) {
      var p :| 0 <= p <= |s| - |w| && OccursAt(s, w, p);
      StripKeepsOccurrence(s, w, p);
    }
    if Contains(Strip(s), w) {
      var q :| 0 <= q <= |Strip(s)| - |w| && OccursAt(Strip(s), w, q);
      StripOccurrenceIsOriginal(s, w, q);
    }
  }

  lemma StripKeepsOccurrence(s: string, w: string, p: int)
    requires w != [] && NoSpace(w) && OccursAt(s, w, p)
    ensures OccursAt(Strip(s), w, p - LeadingSpaces(s))
  {
    WordEnds(s, w, p);
    StripKeepsStretch(s, p, p + |w|);
  }

  /** A stretch that starts and ends with something other than whitespace survives
      stripping, shifted by the leading whitespace. */
  lemma StripKeepsStretch(s: string, a: int, b: int)
    requires 0 <= a < b <= |s| && !IsSpace(s[a]) && !IsSpace(s[b - 1])
    ensures LeadingSpaces(s) <= a && b - LeadingSpaces(s) <= |Strip(s)|
    ensures Strip(s)[a - LeadingSpaces(s)..b - LeadingSpaces(s)] == s[a..b]
  {
    var i := LeadingSpaces(s);
    NotBeforeLeading(s, a);
    var e := ContentEnd(s[i..]);
    EndBeforeTrailing(s, i, b);
    StripStretch(s, a, b, i, e);
  }

  lemma EndBeforeTrailing(s: string, i: int, b: int)
    requires 0 <= i < b <= |s| && !IsSpace(s[b - 1])
    ensures b - i <= ContentEnd(s[i..])
  {
    assert s[i..][b - 1 - i] == s[b - 1];
    NotAfterContent(s[i..], b - 1 - i);
  }

  lemma StripStretch(s: string, a: int, b: int, i: nat, e: nat)
    requires i == LeadingSpaces(s) && e == ContentEnd(s[i..])
    requires i <= a <= b <= i + e
    ensures b - i <= |Strip(s)| && Strip(s)[a - i..b - i] == s[a..b]
  {
    StripSlice(s, i, e);
    SliceOfSlice(s, i, i + e, a - i, b - i);
  }

  lemma WordEnds(s: string, w: string, p: int)
    requires w != [] && OccursAt(s, w, p)
    requires NoSpace(w)
    ensures !IsSpace(s[p]) && !IsSpace(s[p + |w| - 1])
  {
    assert s[p..p + |w|][0] == s[p];
    assert s[p..p + |w|][|w| - 1] == s[p + |w| - 1];
  }

  /** A character other than whitespace lies at or after the leading whitespace. */
  lemma {:induction false} NotBeforeLeading(s: string, p: int)
    requires 0 <= p < |s| && !IsSpace(s[p])
    ensures LeadingSpaces(s) <= p
  {
    if p > 0 && IsSpace(s[0]) {
      assert s[1..][p - 1] == s[p];
      NotBeforeLeading(s[1..], p - 1);
    }
  }

  /** A character other than whitespace lies before the trailing whitespace. */
  lemma {:induction false} NotAfterContent(t: string, k: int)
    requires 0 <= k < |t| && !IsSpace(t[k])
    ensures k < ContentEnd(t)
  {
    if k < |t| - 1 && IsSpace(t[|t| - 1]) {
      assert t[..|t| - 1][k] == t[k];
      NotAfterContent(t[..|t| - 1], k);
    }
  }

  lemma StripOccurrenceIsOriginal(s: string, w: string, q: int)
    requires OccursAt(Strip(s), w, q)
    ensures OccursAt(s, w, q + LeadingSpaces(s))
  {
    var i := LeadingSpaces(s);
    var e := ContentEnd(s[i..]);
    StripSlice(s, i, e);
    StripStretch(s, i + q, i + q + |w|, i, e);
  }

  /** The stripped text is the stretch between the leading and the trailing whitespace. */
  lemma StripSlice(s: string, i: nat, e: nat)
    requires i == LeadingSpaces(s) && e == ContentEnd(s[i..])
    ensures i + e <= |s| && Strip(s) == s[i..i + e]
  {
    TakeOfDrop(s, i, e);
  }

  lemma TakeOfDrop<T>(s: seq<T>, i: int, e: int)
    requires 0 <= i <= |s| && 0 <= e <= |s| - i
    ensures s[i..][..e] == s[i..i + e]
  {
    forall k | 0 <= k < e ensures s[i..][..e][k] == s[i..i + e][k] {
      assert s[i..][..e][k] == s[i + k];
    }
  }

  lemma SliceOfSlice<T>(s: seq<T>, a: int, b: int, c: int, d: int)
    requires 0 <= a <= b <= |s| && 0 <= c <= d <= b - a
    ensures s[a..b][c..d] == s[a + c..a + d]
  {
    forall k | 0 <= k < d - c ensures s[a..b][c..d][k] == s[a + c..a + d][k] {
      assert s[a..b][c..d][k] == s[a + c + k];
    }
  }

  /** A string that starts and ends with something other than whitespace strips to itself. */
  lemma StripClean(s: string)
    requires s != [] && !IsSpace(s[0]) && !IsSpace(s[|s| - 1])
    ensures Strip(s) == s
  {
    assert LeadingSpaces(s) == 0;
    assert s[0..] == s;
  }

  /** Text without an occurrence of `w` is left as it is. */
  lemma {:induction false} RemoveAllAbsent(s: string, w: string)
    requires w != [] && !Contains(s, w)
    ensures RemoveAll(s, w) == s
    decreases |s|
  {
    if |s| >= |w| {
      assert !OccursAt(s, w, 0);
      assert !Contains(s[1..], w) by {
        if Contains(s[1..], w) {
          var p :| 0 <= p <= |s[1..]| - |w| && OccursAt(s[1..], w, p);
          assert s[p + 1..p + 1 + |w|] == w;
          assert OccursAt(s, w, p + 1);
        }
      }
      RemoveAllAbsent(s[1..], w);
    }
  }

  /** A leading occurrence is removed, and the rest, free of further occurrences, stays. */
  lemma RemoveLeading(w: string, rest: string)
    requires w != [] && !Contains(rest, w)
    ensures RemoveAll(w + rest, w) == rest
  {
    assert (w + rest)[..|w|] == w;
    assert (w + rest)[|w|..] == rest;
    RemoveAllAbsent(rest, w);
  }
}
