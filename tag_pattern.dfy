/**
 * The default tag pattern of repo_details.py, `(?P<major>\d+)(?P<separator>[._-])(?P<minor>\d+)`,
 * matched with `re.match` (anchored at the start, not at the end) after a
 * literal tag prefix, and the version string `version_output_function`
 * renders from its captures.
 */
module TagPattern {
  import opened Wrappers
  import opened PyStr

  /** The character class `[._-]`. */
  const Separators: set<char> := {'.', '_', '-'}

  /** The three named groups of a match of the default tag pattern. */
  datatype TagParts = TagParts(major: string, separator: char, minor: string)

  /** Groups a match of the default pattern can capture: two digit runs around one separator. */
  predicate WellFormed(p: TagParts)
  {
    p.major != [] && AllDigits(p.major) && p.separator in Separators &&
    p.minor != [] && AllDigits(p.minor)
  }

  /**
   * `s[i..k]` matches `\d+[._-]\d+` with the separator at `j`: one way for
   * the pattern to match at `i`, not necessarily the one the engine picks.
   */
  predicate DefaultSpan(s: string, i: int, j: int, k: int)
  {
    0 <= i < j && j + 1 < k <= |s| &&
    AllDigits(s[i..j]) && s[j] in Separators && AllDigits(s[j + 1..k])
  }

  /** Every digit run from `i` is at most as long as the greedy one. */
  lemma {:induction false} DigitRunAtLeast(s: string, i: nat, n: nat)
    requires i + n <= |s| && AllDigits(s[i..i + n])
    ensures DigitRun(s, i) >= n
    decreases n
  {
    if n > 0 {
      assert IsDigit(s[i..i + n][0]);
      assert s[i + 1..i + 1 + (n - 1)] == s[i..i + n][1..];
      DigitRunAtLeast(s, i + 1, n - 1);
    }
  }

  /**
   * In any match of the pattern at `i` the major part is the greedy digit
   * run (a separator is not a digit) and the minor part is no longer than
   * the greedy run after the separator.
   */
  lemma SpanRuns(s: string, i: nat)
    requires i <= |s|
    ensures forall j, k :: DefaultSpan(s, i, j, k) ==>
              j == i + DigitRun(s, i) && k <= j + 1 + DigitRun(s, j + 1)
  {
    forall j, k | DefaultSpan(s, i, j, k)
      ensures j == i + DigitRun(s, i) && k <= j + 1 + DigitRun(s, j + 1)
    {
      DigitRunIs(s, i, j - i);
      DigitRunAtLeast(s, j + 1, k - j - 1);
    }
  }

  /**
   * The default pattern tried at index `i` of `s`: `None` exactly when no
   * match exists; otherwise well-formed groups that occur at `i`, the minor
   * part taken as long as the digits go on (the greedy `\d+`).
   */
  function MatchDefaultAt(s: string, i: nat): (r: Option<TagParts>)
    requires i <= |s|
    ensures r.None? <==> forall j, k :: !DefaultSpan(s, i, j, k)
    ensures r.Some? ==> (WellFormed(r.value) &&
                         OccursAt(s, r.value.major + [r.value.separator] + r.value.minor, i))
    ensures r.Some? ==> var k := i + |r.value.major| + 1 + |r.value.minor|;
              k == |s| || !IsDigit(s[k])
  {
    SpanRuns(s, i);
    DigitRunSpec(s, i);
    var j := i + DigitRun(s, i);
    if j == i || j >= |s| || s[j] !in Separators then None
    else
      DigitRunSpec(s, j + 1);
      var k := j + 1 + DigitRun(s, j + 1);
      if k == j + 1 then None
      else
        assert DefaultSpan(s, i, j, k);
        assert s[i..k] == s[i..j] + [s[j]] + s[j + 1..k];
        Some(TagParts(s[i..j], s[j], s[j + 1..k]))
  }

  /**
   * `re.match(tag_prefix + pattern, name)` with the prefix taken literally:
   * the name starts with the prefix and the pattern matches right after it.
   */
  function ParseTag(prefix: string, name: string): (r: Option<TagParts>)
    ensures r.Some? <==> StartsWith(name, prefix) && exists j, k :: DefaultSpan(name, |prefix|, j, k)
    ensures r.Some? ==> (WellFormed(r.value) &&
                         StartsWith(name, prefix + r.value.major + [r.value.separator] + r.value.minor))
    ensures r.Some? ==> var k := |prefix| + |r.value.major| + 1 + |r.value.minor|;
              k == |name| || !IsDigit(name[k])
  {
    if StartsWith(name, prefix) then
      var r := MatchDefaultAt(name, |prefix|);
      if r.None? then r
      else
        StartsWithThenOccurs(name, prefix, r.value.major + [r.value.separator] + r.value.minor);
        assert prefix + (r.value.major + [r.value.separator] + r.value.minor)
            == prefix + r.value.major + [r.value.separator] + r.value.minor;
        r
    else None
  }

  /** The tag is retained by the filter of `version`. */
  predicate TagMatches(prefix: string, name: string)
  {
    ParseTag(prefix, name).Some?
  }

  /**
   * The string `version_output_function` renders: major, minor, the index
   * and the modification count in decimal, joined by the tag's separator.
   */
  function VersionString(p: TagParts, index: nat, modCount: nat): string
  {
    p.major + [p.separator] + p.minor + [p.separator] + DecimalString(index) +
    [p.separator] + DecimalString(modCount)
  }

  /** What a version string is made of: the tag's groups and the decimal text of the two counts. */
  datatype VersionFields = VersionFields(tag: TagParts, index: string, modCount: string)

  /**
   * Reads a version string back: four digit runs joined by one separator
   * character that is the same all three times.
   */
  function ParseVersionString(s: string): Option<VersionFields>
  {
    var (major, rest) := SplitDigits(s);
    if major == [] || rest == [] || rest[0] !in Separators then None
    else ParseAfterMajor(major, rest[0], rest[1..])
  }

  /** The minor part, then the separator again and the two counts. */
  function ParseAfterMajor(major: string, sep: char, s: string): Option<VersionFields>
  {
    var (minor, rest) := SplitDigits(s);
    if minor == [] || rest == [] || rest[0] != sep then None
    else ParseCounts(TagParts(major, sep, minor), rest[1..])
  }

  /** The index, the separator of `tag` and the modification count, up to the end. */
  function ParseCounts(tag: TagParts, s: string): Option<VersionFields>
  {
    var (index, rest) := SplitDigits(s);
    if index == [] || rest == [] || rest[0] != tag.separator then None
    else
      var (modCount, tail) := SplitDigits(rest[1..]);
      if modCount == [] || tail != [] then None
      else Some(VersionFields(tag, index, modCount))
  }

  /** The two counts and the separator between them read back. */
  lemma ParseCountsJoined(tag: TagParts, index: string, modCount: string)
    requires index != [] && AllDigits(index) && modCount != [] && AllDigits(modCount)
    requires !IsDigit(tag.separator)
    ensures ParseCounts(tag, index + [tag.separator] + modCount) == Some(VersionFields(tag, index, modCount))
  {
    var rest := [tag.separator] + modCount;
    assert index + [tag.separator] + modCount == index + rest;
    SplitDigitsOf(index, rest);
    assert rest[1..] == modCount + [];
    SplitDigitsOf(modCount, []);
  }

  /** Minor part, separator and the two counts read back. */
  lemma ParseAfterMajorJoined(p: TagParts, index: string, modCount: string)
    requires WellFormed(p) && index != [] && AllDigits(index) && modCount != [] && AllDigits(modCount)
    ensures ParseAfterMajor(p.major, p.separator, p.minor + [p.separator] + index + [p.separator] + modCount)
         == Some(VersionFields(p, index, modCount))
  {
    var sep := p.separator;
    var rest := [sep] + index + [sep] + modCount;
    assert p.minor + [sep] + index + [sep] + modCount == p.minor + rest;
    SplitDigitsOf(p.minor, rest);
    assert rest[1..] == index + [sep] + modCount;
    ParseCountsJoined(p, index, modCount);
  }

  /** Four digit runs joined by one separator read back into their parts. */
  lemma ParseJoined(p: TagParts, index: string, modCount: string)
    requires WellFormed(p) && index != [] && AllDigits(index) && modCount != [] && AllDigits(modCount)
    ensures ParseVersionString(p.major + [p.separator] + p.minor + [p.separator] + index + [p.separator] + modCount)
         == Some(VersionFields(p, index, modCount))
  {
    var sep := p.separator;
    var rest := [sep] + p.minor + [sep] + index + [sep] + modCount;
    assert p.major + [sep] + p.minor + [sep] + index + [sep] + modCount == p.major + rest;
    SplitDigitsOf(p.major, rest);
    assert rest[1..] == p.minor + [sep] + index + [sep] + modCount;
    ParseAfterMajorJoined(p, index, modCount);
  }

  /** A text split after its first character `c` is `c` followed by the rest. */
  lemma JoinAt(x: string, rest: string, c: char, tail: string)
    requires rest != [] && rest[0] == c && rest[1..] == tail
    ensures x + rest == x + [c] + tail
  {
    assert rest == [c] + tail;
  }

  /** Regrouping the pieces of a version string. */
  lemma RegroupFields(a: string, sep: char, b: string, c: string, d: string)
    ensures a + [sep] + (b + [sep] + c + [sep] + d) == a + [sep] + b + [sep] + c + [sep] + d
  {
  }

  /** What `ParseCounts` accepts is the index, the tag's separator and the modification count. */
  lemma ParseCountsSound(tag: TagParts, s: string)
    requires ParseCounts(tag, s).Some?
    ensures var f := ParseCounts(tag, s).value;
      && f.tag == tag
      && f.index != [] && AllDigits(f.index) && f.modCount != [] && AllDigits(f.modCount)
      && s == f.index + [tag.separator] + f.modCount
  {
    SplitDigitsSpec(s);
    var (index, rest) := SplitDigits(s);
    SplitDigitsSpec(rest[1..]);
    var (modCount, tail) := SplitDigits(rest[1..]);
    assert rest[1..] == modCount;
    JoinAt(index, rest, tag.separator, modCount);
  }

  /** What `ParseAfterMajor` accepts is the minor part, then the separator and the two counts. */
  lemma ParseAfterMajorSound(major: string, sep: char, s: string)
    requires ParseAfterMajor(major, sep, s).Some?
    ensures var f := ParseAfterMajor(major, sep, s).value;
      && f.tag.major == major && f.tag.separator == sep && f.tag.minor != [] && AllDigits(f.tag.minor)
      && f.index != [] && AllDigits(f.index) && f.modCount != [] && AllDigits(f.modCount)
      && s == f.tag.minor + [sep] + f.index + [sep] + f.modCount
  {
    SplitDigitsSpec(s);
    var (minor, rest) := SplitDigits(s);
    var tag := TagParts(major, sep, minor);
    ParseCountsSound(tag, rest[1..]);
    var f := ParseCounts(tag, rest[1..]).value;
    JoinAt(minor, rest, sep, f.index + [sep] + f.modCount);
    assert minor + [sep] + (f.index + [sep] + f.modCount) == minor + [sep] + f.index + [sep] + f.modCount;
  }

  /**
   * What the reader accepts is exactly a version string: well-formed tag
   * groups and two digit runs, joined by the tag's separator.
   */
  lemma ParseVersionStringSound(s: string)
    requires ParseVersionString(s).Some?
    ensures var f := ParseVersionString(s).value;
      && WellFormed(f.tag)
      && f.index != [] && AllDigits(f.index) && f.modCount != [] && AllDigits(f.modCount)
      && s == f.tag.major + [f.tag.separator] + f.tag.minor + [f.tag.separator] + f.index +
              [f.tag.separator] + f.modCount
  {
    SplitDigitsSpec(s);
    var (major, rest) := SplitDigits(s);
    var sep := rest[0];
    ParseAfterMajorSound(major, sep, rest[1..]);
    var f := ParseAfterMajor(major, sep, rest[1..]).value;
    JoinAt(major, rest, sep, f.tag.minor + [sep] + f.index + [sep] + f.modCount);
    RegroupFields(major, sep, f.tag.minor, f.index, f.modCount);
  }

  /**
   * The version string keeps the tag's major, separator and minor and the
   * decimal text of the index and the modification count: reading it back
   * recovers all five, the two counts as numbers again.
   */
  lemma VersionStringRoundTrip(p: TagParts, index: nat, modCount: nat)
    requires WellFormed(p)
    ensures var f := ParseVersionString(VersionString(p, index, modCount));
      f == Some(VersionFields(p, DecimalString(index), DecimalString(modCount))) &&
      DecimalValue(f.value.index) == index && DecimalValue(f.value.modCount) == modCount
  {
    ParseJoined(p, DecimalString(index), DecimalString(modCount));
    DecimalRoundTrip(index);
    DecimalRoundTrip(modCount);
  }
}
