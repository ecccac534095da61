/**
 * The PHP string built-ins the log formatter relies on, over byte strings
 * (every `char` stands for one byte): `strpos`, `str_replace` with a
 * single search string, `strtolower` and the decimal rendering of an integer.
 */
module PhpStrings {
  import opened Wrappers

  /** `pat` occurs in `s` starting at index `i`. */
  predicate OccursAt(s: string, pat: string, i: nat) {
    i + |pat| <= |s| && s[i..i + |pat|] == pat
  }

  /** `strpos($s, $pat, $i)`: the first occurrence at or after `i`. */
  function IndexOfFrom(s: string, pat: string, i: nat): (r: Option<nat>)
    requires i <= |s|
    ensures r.Some? ==> i <= r.value && OccursAt(s, pat, r.value)
    ensures r.Some? ==> forall m :: i <= m < r.value ==> !OccursAt(s, pat, m)
    ensures r.None? ==> forall m :: i <= m <= |s| ==> !OccursAt(s, pat, m)
    decreases |s| - i
  {
    if OccursAt(s, pat, i) then Some(i)
    else if i == |s| then None
    else IndexOfFrom(s, pat, i + 1)
  }

  /** `strpos($s, $pat)`; an empty needle is found at 0, as in PHP 8. */
  function IndexOf(s: string, pat: string): Option<nat> {
    IndexOfFrom(s, pat, 0)
  }

  /** `strpos($s, $pat) !== false`: the strict test. */
  predicate Contains(s: string, pat: string) {
    IndexOf(s, pat).Some?
  }

  /**
   * `strpos($s, $pat) != false`: the loose test. The index 0 compares equal
   * to `false`, so an occurrence only at the very start is not reported.
   */
  predicate LooseFound(s: string, pat: string) {
    IndexOf(s, pat).Some? && IndexOf(s, pat).value > 0
  }

  /** `strpos($s, $pat) === 0`. */
  predicate StartsWith(s: string, pat: string) {
    OccursAt(s, pat, 0)
  }

  lemma ContainsIff(s: string, pat: string)
    ensures Contains(s, pat) <==> exists m :: 0 <= m <= |s| && OccursAt(s, pat, m)
  {
    if Contains(s, pat) {
      assert OccursAt(s, pat, IndexOf(s, pat).value);
    }
  }

  /**
   * `str_replace($from, $to, $s)`: every occurrence of `from`, found left to
   * right without overlapping, is replaced by `to`; replacements are not
   * rescanned. An empty search string leaves the subject as it is.
   */
  function ReplaceAll(s: string, from: string, to: string): string
    decreases |s|
  {
    if |from| == 0 || |s| < |from| then s
    else if s[..|from|] == from then to + ReplaceAll(s[|from|..], from, to)
    else [s[0]] + ReplaceAll(s[1..], from, to)
  }

  /** An occurrence in the tail `s[1..]` is an occurrence in `s`, one index later. */
  lemma OccursAtTail(s: string, pat: string, m: nat)
    requires |s| >= 1
    ensures OccursAt(s[1..], pat, m) <==> OccursAt(s, pat, m + 1)
  {
    if m + |pat| <= |s[1..]| {
      assert s[1..][m..m + |pat|] == s[m + 1..m + 1 + |pat|];
    }
  }

  /** A loose find past the first character is a find in the rest. */
  lemma LooseFoundTail(c: char, t: string, pat: string)
    requires LooseFound([c] + t, pat)
    ensures Contains(t, pat)
  {
    var s := [c] + t;
    var k := IndexOf(s, pat).value;
    assert s[1..] == t;
    OccursAtTail(s, pat, k - 1);
    ContainsIff(t, pat);
  }

  /** When `from` does not occur, `str_replace` changes nothing. */
  lemma {:induction false} ReplaceAllAbsent(s: string, from: string, to: string)
    requires forall m :: 0 <= m <= |s| ==> !OccursAt(s, from, m)
    ensures ReplaceAll(s, from, to) == s
    decreases |s|
  {
    if |from| == 0 || |s| < |from| {
    } else {
      assert !OccursAt(s, from, 0);
      forall m | 0 <= m <= |s[1..]|
        ensures !OccursAt(s[1..], from, m)
      {
        OccursAtTail(s, from, m);
      }
      ReplaceAllAbsent(s[1..], from, to);
    }
  }

  /**
   * The leftmost occurrence is replaced and the scan resumes right after it:
   * if `from` first occurs at index `|a|` of `a + from + b`, the result is
   * `a + to` followed by the replacement of `b`.
   */
  lemma {:induction false} ReplaceAllFirst(a: string, from: string, to: string, b: string)
    requires |from| > 0
    requires forall m :: 0 <= m < |a| ==> !OccursAt(a + from + b, from, m)
    ensures ReplaceAll(a + from + b, from, to) == a + to + ReplaceAll(b, from, to)
    decreases |a|
  {
    var s := a + from + b;
    if |a| == 0 {
      assert s == from + b;
      assert s[..|from|] == from;
      assert s[|from|..] == b;
    } else {
      assert !OccursAt(s, from, 0);
      var t := a[1..] + from + b;
      assert s[1..] == t;
      forall m | 0 <= m < |a[1..]|
        ensures !OccursAt(t, from, m)
      {
        OccursAtTail(s, from, m);
      }
      ReplaceAllFirst(a[1..], from, to, b);
      assert ReplaceAll(s, from, to) == [s[0]] + ReplaceAll(t, from, to);
      assert [s[0]] + a[1..] == a;
    }
  }

  /** Replacing a byte that a prefix does not hold leaves the prefix as it is. */
  lemma {:induction false} ReplaceCharAfterPrefix(p: string, u: string, c: char, to: string)
    requires forall k :: 0 <= k < |p| ==> p[k] != c
    ensures ReplaceAll(p + u, [c], to) == p + ReplaceAll(u, [c], to)
    decreases |p|
  {
    if |p| == 0 {
      assert p + u == u;
    } else {
      var s := p + u;
      assert s[..1] == [p[0]];
      assert s[1..] == p[1..] + u;
      ReplaceCharAfterPrefix(p[1..], u, c, to);
      assert p == [p[0]] + p[1..];
    }
  }

  /** Removing every `c` (`str_replace($c, '', $s)`) leaves no `c` behind. */
  lemma {:induction false} RemoveCharGone(s: string, c: char)
    ensures forall m :: 0 <= m < |ReplaceAll(s, [c], "")| ==> ReplaceAll(s, [c], "")[m] != c
    decreases |s|
  {
    if |s| >= 1 {
      RemoveCharGone(s[1..], c);
      if s[..1] == [c] {
        assert ReplaceAll(s, [c], "") == ReplaceAll(s[1..], [c], "");
      } else {
        assert s[0] != c;
      }
    }
  }

  /** Removing every `c` introduces no character the subject lacked. */
  lemma {:induction false} RemoveCharKeeps(s: string, c: char, d: char)
    requires forall m :: 0 <= m < |s| ==> s[m] != d
    ensures forall m :: 0 <= m < |ReplaceAll(s, [c], "")| ==> ReplaceAll(s, [c], "")[m] != d
    decreases |s|
  {
    if |s| >= 1 {
      RemoveCharKeeps(s[1..], c, d);
      if s[..1] == [c] {
        assert ReplaceAll(s, [c], "") == ReplaceAll(s[1..], [c], "");
      }
    }
  }

  /** `strtolower` on one byte: only ASCII upper-case letters change. */
  function LowerChar(c: char): char {
    if 'A' <= c <= 'Z' then (c as int + 32) as char else c
  }

  /** `strtolower($s)`, byte by byte. */
  function ToLower(s: string): (r: string)
    ensures |r| == |s|
    ensures forall i :: 0 <= i < |s| ==> r[i] == LowerChar(s[i])
  {
    seq(|s|, i requires 0 <= i < |s| => LowerChar(s[i]))
  }

  /** PHP's `(string)` of a non-negative integer: its decimal digits. */
  function NatToString(n: nat): (r: string)
    ensures |r| >= 1
    ensures forall i :: 0 <= i < |r| ==> '0' <= r[i] <= '9'
    decreases n
  {
    if n < 10 then [(48 + n) as char]
    else NatToString(n / 10) + [(48 + n % 10) as char]
  }

  /** The value of a string of decimal digits. */
  function DigitsValue(s: string): nat
    requires forall i :: 0 <= i < |s| ==> '0' <= s[i] <= '9'
    decreases |s|
  {
    if |s| == 0 then 0
    else 10 * DigitsValue(s[..|s| - 1]) + (s[|s| - 1] as int - 48)
  }

  /** The decimal rendering of a line number reads back as that number. */
  lemma {:induction false} NatToStringRoundTrip(n: nat)
    ensures DigitsValue(NatToString(n)) == n
    decreases n
  {
    if n >= 10 {
      NatToStringRoundTrip(n / 10);
      var r := NatToString(n);
      assert r[..|r| - 1] == NatToString(n / 10);
    }
  }
}
