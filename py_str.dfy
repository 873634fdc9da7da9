/**
 * The Python `str` operations the core relies on: `startswith`/`endswith`,
 * prefix slicing `s[:n]`, `replace`, `str(n)` for a non-negative int, and the
 * scans a regular-expression engine performs over the text (digit runs, the
 * end of a line, the last character from a class).
 */
module PyStr {
  import opened Wrappers

  /** `s.startswith(p)`; every string starts with the empty string. */
  predicate StartsWith(s: string, p: string)
  {
    |p| <= |s| && s[..|p|] == p
  }

  /** `s.endswith(p)` */
  predicate EndsWith(s: string, p: string)
  {
    |p| <= |s| && s[|s| - |p|..] == p
  }

  /** `pat` occurs in `s` starting at index `i`. */
  predicate OccursAt(s: string, pat: string, i: int)
  {
    0 <= i && i + |pat| <= |s| && s[i..i + |pat|] == pat
  }

  /** A prefix followed by an occurrence right after it make a longer prefix. */
  lemma StartsWithThenOccurs(s: string, p: string, q: string)
    requires StartsWith(s, p) && OccursAt(s, q, |p|)
    ensures StartsWith(s, p + q)
  {
    assert s[..|p + q|] == s[..|p|] + s[|p|..|p| + |q|];
  }

  /**
   * `s[:n]`: a negative `n` counts from the end, and both directions clamp
   * to the length of `s` instead of failing.
   */
  function SlicePrefix(s: string, n: int): (r: string)
    ensures StartsWith(s, r)
    ensures 0 <= n <= |s| ==> |r| == n
    ensures |s| < n ==> r == s
    ensures -|s| <= n < 0 ==> |r| == |s| + n
    ensures n < -|s| ==> r == []
  {
    if 0 <= n then
      (if n <= |s| then s[..n] else s)
    else if -n <= |s| then s[..|s| + n]
    else []
  }

  /**
   * `s.replace(pat, rep)` for a non-empty `pat`: scans left to right and
   * replaces every non-overlapping occurrence.
   */
  function Replace(s: string, pat: string, rep: string): string
    requires pat != []
    decreases |s|
  {
    if |s| < |pat| then s
    else if s[..|pat|] == pat then rep + Replace(s[|pat|..], pat, rep)
    else [s[0]] + Replace(s[1..], pat, rep)
  }

  /** Without an occurrence of `pat`, `replace` returns its input. */
  lemma {:induction false} ReplaceNoOccurrence(s: string, pat: string, rep: string)
    requires pat != []
    requires forall i :: !OccursAt(s, pat, i)
    ensures Replace(s, pat, rep) == s
    decreases |s|
  {
    if |s| >= |pat| {
      assert !OccursAt(s, pat, 0);
      forall i ensures !OccursAt(s[1..], pat, i) {
        if OccursAt(s[1..], pat, i) {
          assert s[1..][i..i + |pat|] == s[i + 1..i + 1 + |pat|];
          assert OccursAt(s, pat, i + 1);
        }
      }
      ReplaceNoOccurrence(s[1..], pat, rep);
      assert [s[0]] + s[1..] == s;
    }
  }

  /**
   * The first occurrence of `pat` is replaced and the scan resumes right
   * after it, so every later occurrence in `y` is replaced as well.
   */
  lemma {:induction false} ReplaceFirstOccurrence(s: string, x: string, pat: string, y: string, rep: string)
    requires pat != []
    requires s == x + pat + y
    requires forall i :: 0 <= i < |x| ==> !OccursAt(s, pat, i)
    ensures Replace(s, pat, rep) == x + rep + Replace(y, pat, rep)
    decreases |x|
  {
    if x == [] {
      assert s[..|pat|] == pat;
      assert s[|pat|..] == y;
    } else {
      assert !OccursAt(s, pat, 0);
      assert s[1..] == x[1..] + pat + y;
      forall i | 0 <= i < |x[1..]| ensures !OccursAt(s[1..], pat, i) {
        if OccursAt(s[1..], pat, i) {
          assert s[1..][i..i + |pat|] == s[i + 1..i + 1 + |pat|];
          assert OccursAt(s, pat, i + 1);
        }
      }
      ReplaceFirstOccurrence(s[1..], x[1..], pat, y, rep);
      assert s[..|pat|] != pat;
      assert Replace(s, pat, rep) == [s[0]] + Replace(s[1..], pat, rep);
      assert [s[0]] + x[1..] == x;
      assert [s[0]] + (x[1..] + rep + Replace(y, pat, rep)) == x + rep + Replace(y, pat, rep);
    }
  }

  predicate IsDigit(c: char)
  {
    '0' <= c <= '9'
  }

  predicate AllDigits(s: string)
  {
    forall k :: 0 <= k < |s| ==> IsDigit(s[k])
  }

  /** The length of the longest run of digits in `s` starting at `i` (what a greedy `\d*` takes). */
  function DigitRun(s: string, i: nat): (n: nat)
    requires i <= |s|
    ensures i + n <= |s|
    decreases |s| - i
  {
    if i < |s| && IsDigit(s[i]) then 1 + DigitRun(s, i + 1) else 0
  }

  /** The run holds digits only and stops at the end of `s` or at a non-digit. */
  lemma {:induction false} DigitRunSpec(s: string, i: nat)
    requires i <= |s|
    ensures AllDigits(s[i..i + DigitRun(s, i)])
    ensures i + DigitRun(s, i) == |s| || !IsDigit(s[i + DigitRun(s, i)])
    decreases |s| - i
  {
    if i < |s| && IsDigit(s[i]) {
      DigitRunSpec(s, i + 1);
      assert s[i..i + DigitRun(s, i)] == [s[i]] + s[i + 1..i + 1 + DigitRun(s, i + 1)];
    }
  }

  /** A digit run ended by the end of `s` or by a non-digit is the one `DigitRun` finds. */
  lemma {:induction false} DigitRunIs(s: string, i: nat, n: nat)
    requires i + n <= |s| && AllDigits(s[i..i + n])
    requires i + n == |s| || !IsDigit(s[i + n])
    ensures DigitRun(s, i) == n
    decreases n
  {
    if n > 0 {
      assert IsDigit(s[i..i + n][0]);
      assert s[i + 1..i + 1 + (n - 1)] == s[i..i + n][1..];
      DigitRunIs(s, i + 1, n - 1);
    }
  }

  /** `s` cut after its leading digit run: the digits, then the rest. */
  function SplitDigits(s: string): (string, string)
  {
    var n := DigitRun(s, 0);
    (s[..n], s[n..])
  }

  /** The split is the greedy digit run and the rest, which does not start with a digit. */
  lemma SplitDigitsSpec(s: string)
    ensures var (digits, rest) := SplitDigits(s);
      digits + rest == s && AllDigits(digits) && (rest == [] || !IsDigit(rest[0]))
  {
    DigitRunSpec(s, 0);
    var n := DigitRun(s, 0);
    assert s[..n] + s[n..] == s;
    assert s[0..n] == s[..n];
  }

  /** Digits followed by text that does not start with a digit split back into the two. */
  lemma SplitDigitsOf(x: string, y: string)
    requires AllDigits(x) && (y == [] || !IsDigit(y[0]))
    ensures SplitDigits(x + y) == (x, y)
  {
    assert (x + y)[..|x|] == x && (x + y)[|x|..] == y;
    DigitRunIs(x + y, 0, |x|);
  }

  function DigitChar(d: nat): (c: char)
    requires d < 10
    ensures IsDigit(c)
  {
    ('0' as int + d) as char
  }

  function DigitValue(c: char): (d: nat)
    requires IsDigit(c)
    ensures d < 10 && DigitChar(d) == c
  {
    (c as int - '0' as int) as nat
  }

  /** `str(n)` for a non-negative int: decimal digits without leading zeros. */
  function DecimalString(n: nat): (r: string)
    ensures r != [] && AllDigits(r)
    ensures 1 < |r| ==> r[0] != '0'
  {
    if n < 10 then [DigitChar(n)] else DecimalString(n / 10) + [DigitChar(n % 10)]
  }

  /** `int(s)` for a string of decimal digits (the empty string reads as 0). */
  function DecimalValue(s: string): nat
    requires AllDigits(s)
  {
    if s == [] then 0 else 10 * DecimalValue(s[..|s| - 1]) + DigitValue(s[|s| - 1])
  }

  /** Reading back what `str` wrote gives the original number. */
  lemma {:induction false} DecimalRoundTrip(n: nat)
    ensures DecimalValue(DecimalString(n)) == n
  {
    var r := DecimalString(n);
    if n >= 10 {
      DecimalRoundTrip(n / 10);
      assert r[..|r| - 1] == DecimalString(n / 10);
    }
  }

  /**
   * The first newline at or after `p`, or `|s|` when there is none: the
   * farthest a `.` of a regular expression can reach from `p`.
   */
  function LineEnd(s: string, p: nat): (e: nat)
    requires p <= |s|
    ensures p <= e <= |s|
    ensures forall k :: p <= k < e ==> s[k] != '\n'
    ensures e < |s| ==> s[e] == '\n'
    decreases |s| - p
  {
    if p == |s| || s[p] == '\n' then p else LineEnd(s, p + 1)
  }

  /** The last index in `[lo, hi)` holding a character of `cs`. */
  function LastIn(s: string, cs: set<char>, lo: nat, hi: nat): (r: Option<nat>)
    requires lo <= hi <= |s|
    ensures r.Some? ==> lo <= r.value < hi && s[r.value] in cs
    ensures r.Some? ==> forall k :: r.value < k < hi ==> s[k] !in cs
    ensures r.None? ==> forall k :: lo <= k < hi ==> s[k] !in cs
    decreases hi - lo
  {
    if lo == hi then None
    else if s[hi - 1] in cs then Some(hi - 1)
    else LastIn(s, cs, lo, hi - 1)
  }
}
