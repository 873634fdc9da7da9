/**
 * The token patterns of versionhero.py and what `re.search` does with them.
 *
 * A token is one character of `[!@#$%^&*]`, the keyword, the keyword's
 * argument pattern and again one character of `[!@#$%^&*]`; the two
 * delimiters are chosen independently. Only the three argument patterns the
 * program registers are modelled:
 *   - NoArg:          the empty pattern,
 *   - Greedy(x):      `(?P<x>.*)`,
 *   - Choice(t, f):   `\?(?P<t>.*):(?P<f>.*)`.
 * `.` stops at a newline, so a token never spans two lines.
 */
module KeywordPattern {
  import opened Wrappers
  import opened PyStr

  /** The character class `[!@#$%^&*]`. */
  const Delimiters: set<char> := {'!', '@', '#', '$', '%', '^', '&', '*'}

  datatype ArgShape = NoArg | Greedy(name: string) | Choice(trueName: string, falseName: string)

  /** A successful search: the token is `text[start..end]`, `groups` is `match.groupdict()`. */
  datatype Match = Match(start: nat, end: nat, groups: map<string, string>)

  predicate NoNewline(text: string, lo: int, hi: int)
    requires 0 <= lo <= hi <= |text|
  {
    forall k :: lo <= k < hi ==> text[k] != '\n'
  }

  /** `text[lo..hi]` matches the argument pattern of `shape`. */
  predicate ArgumentAt(text: string, lo: int, hi: int, shape: ArgShape)
    requires 0 <= lo <= hi <= |text|
  {
    match shape
    case NoArg => lo == hi
    case Greedy(_) => NoNewline(text, lo, hi)
    case Choice(_, _) =>
      lo < hi && text[lo] == '?' && NoNewline(text, lo, hi) &&
      exists k :: lo < k < hi && text[k] == ':'
  }

  /** `text[i..j]` is a token of `keyword` with argument pattern `shape`. */
  predicate TokenAt(text: string, i: int, j: int, keyword: string, shape: ArgShape)
  {
    0 <= i && i + |keyword| + 2 <= j <= |text| &&
    text[i] in Delimiters && text[i + 1..i + 1 + |keyword|] == keyword &&
    text[j - 1] in Delimiters &&
    ArgumentAt(text, i + 1 + |keyword|, j - 1, shape)
  }

  /** `re.search` finds a token of `keyword` somewhere in `text`. */
  ghost predicate HasToken(text: string, keyword: string, shape: ArgShape)
  {
    exists i, j :: TokenAt(text, i, j, keyword, shape)
  }

  /** The number of delimiter characters in `s`. */
  function DelimCount(s: string): nat
  {
    if s == [] then 0 else (if s[0] in Delimiters then 1 else 0) + DelimCount(s[1..])
  }

  predicate DelimiterFree(s: string)
  {
    forall k :: 0 <= k < |s| ==> s[k] !in Delimiters
  }

  lemma {:induction false} DelimCountAppend(a: string, b: string)
    ensures DelimCount(a + b) == DelimCount(a) + DelimCount(b)
    decreases |a|
  {
    if a != [] {
      assert (a + b)[1..] == a[1..] + b;
      DelimCountAppend(a[1..], b);
    } else {
      assert a + b == b;
    }
  }

  lemma {:induction false} DelimiterFreeCount(s: string)
    requires DelimiterFree(s)
    ensures DelimCount(s) == 0
    decreases |s|
  {
    if s != [] {
      DelimiterFreeCount(s[1..]);
    }
  }

  /** No delimiter character, no token of any keyword. */
  lemma DelimiterFreeHasNoToken(text: string, keyword: string, shape: ArgShape)
    requires DelimiterFree(text)
    ensures !HasToken(text, keyword, shape)
  {
  }

  /** Every token holds at least two delimiter characters, its first and its last. */
  lemma TokenDelimiters(text: string, i: int, j: int, keyword: string, shape: ArgShape)
    requires TokenAt(text, i, j, keyword, shape)
    ensures DelimCount(text[i..j]) >= 2
  {
    var mid := text[i + 1..j - 1];
    assert text[i..j] == [text[i]] + mid + [text[j - 1]];
    DelimCountAppend([text[i]] + mid, [text[j - 1]]);
    DelimCountAppend([text[i]], mid);
  }

  /** Replacing by a delimiter-free string never adds delimiters. */
  lemma {:induction false} ReplaceKeepsDelimCount(s: string, pat: string, rep: string)
    requires pat != [] && DelimiterFree(rep)
    ensures DelimCount(Replace(s, pat, rep)) <= DelimCount(s)
    decreases |s|
  {
    DelimiterFreeCount(rep);
    if |s| < |pat| {
    } else if s[..|pat|] == pat {
      ReplaceKeepsDelimCount(s[|pat|..], pat, rep);
      DelimCountAppend(rep, Replace(s[|pat|..], pat, rep));
      assert s == s[..|pat|] + s[|pat|..];
      DelimCountAppend(s[..|pat|], s[|pat|..]);
    } else {
      ReplaceKeepsDelimCount(s[1..], pat, rep);
      DelimCountAppend([s[0]], Replace(s[1..], pat, rep));
      assert s == [s[0]] + s[1..];
      DelimCountAppend([s[0]], s[1..]);
    }
  }

  /**
   * When `pat` occurs, `replace` by a delimiter-free string removes at least
   * the delimiters of one copy of `pat`.
   */
  lemma {:induction false} ReplaceDropsDelimiters(s: string, pat: string, rep: string, i: int)
    requires pat != [] && DelimiterFree(rep) && OccursAt(s, pat, i)
    ensures DelimCount(Replace(s, pat, rep)) + DelimCount(pat) <= DelimCount(s)
    decreases |s|
  {
    DelimiterFreeCount(rep);
    if s[..|pat|] == pat {
      ReplaceKeepsDelimCount(s[|pat|..], pat, rep);
      DelimCountAppend(rep, Replace(s[|pat|..], pat, rep));
      assert s == s[..|pat|] + s[|pat|..];
      DelimCountAppend(s[..|pat|], s[|pat|..]);
    } else {
      assert i != 0;
      assert s[1..][i - 1..i - 1 + |pat|] == s[i..i + |pat|];
      ReplaceDropsDelimiters(s[1..], pat, rep, i - 1);
      DelimCountAppend([s[0]], Replace(s[1..], pat, rep));
      assert s == [s[0]] + s[1..];
      DelimCountAppend([s[0]], s[1..]);
    }
  }

  /**
   * The end of the token `re.search` matches when it tries position `i`:
   * the regex engine backtracks from the longest candidate, so for every
   * shape this is the largest `j` with `TokenAt(text, i, j, ...)`.
   */
  function TokenEndAt(text: string, i: nat, keyword: string, shape: ArgShape): (r: Option<nat>)
    requires i <= |text|
    ensures r.Some? ==> TokenAt(text, i, r.value, keyword, shape)
    ensures r.Some? ==> forall j :: r.value < j ==> !TokenAt(text, i, j, keyword, shape)
    ensures r.None? ==> forall j :: !TokenAt(text, i, j, keyword, shape)
  {
    var p := i + 1 + |keyword|;
    if p >= |text| || text[i] !in Delimiters || text[i + 1..p] != keyword then None
    else
      match shape
      case NoArg =>
        if text[p] in Delimiters then Some(p + 1) else None
      case Greedy(_) =>
        var e := LineEnd(text, p);
        (match LastIn(text, Delimiters, p, e)
         case None => None
         case Some(q) => Some(q + 1))
      case Choice(_, _) =>
        if text[p] != '?' then None
        else
          var e := LineEnd(text, p);
          (match LastIn(text, Delimiters, p + 1, e)
           case None => None
           case Some(q) =>
             if LastIn(text, {':'}, p + 1, q).None? then None else Some(q + 1))
  }

  /** `re.search` restricted to start positions from `i` on. */
  function SearchFrom(text: string, keyword: string, shape: ArgShape, i: nat): (r: Option<Match>)
    requires i <= |text|
    ensures r.Some? ==> i <= r.value.start && TokenAt(text, r.value.start, r.value.end, keyword, shape)
    ensures r.Some? ==> forall a, b :: i <= a < r.value.start ==> !TokenAt(text, a, b, keyword, shape)
    ensures r.Some? ==> forall b :: r.value.end < b ==> !TokenAt(text, r.value.start, b, keyword, shape)
    ensures r.None? ==> forall a, b :: i <= a ==> !TokenAt(text, a, b, keyword, shape)
    decreases |text| - i
  {
    match TokenEndAt(text, i, keyword, shape)
    case Some(j) => Some(Match(i, j, Groups(text, i, j, keyword, shape)))
    case None =>
      if i == |text| then None else SearchFrom(text, keyword, shape, i + 1)
  }

  /** `re.search(pattern, text)`: the search tried from every position in turn. */
  function Search(text: string, keyword: string, shape: ArgShape): Option<Match>
  {
    SearchFrom(text, keyword, shape, 0)
  }

  /**
   * `re.search` finds the leftmost token, and at that position the longest
   * one, with its groups; `None` exactly when the text holds no token.
   */
  lemma SearchSpec(text: string, keyword: string, shape: ArgShape)
    ensures var r := Search(text, keyword, shape);
      && (r.None? <==> !HasToken(text, keyword, shape))
      && (r.Some? ==> TokenAt(text, r.value.start, r.value.end, keyword, shape))
      && (r.Some? ==> forall a, b :: a < r.value.start ==> !TokenAt(text, a, b, keyword, shape))
      && (r.Some? ==> forall b :: r.value.end < b ==> !TokenAt(text, r.value.start, b, keyword, shape))
      && (r.Some? ==> r.value.groups == Groups(text, r.value.start, r.value.end, keyword, shape))
  {
    SearchFromGroups(text, keyword, shape, 0);
  }

  lemma {:induction false} SearchFromGroups(text: string, keyword: string, shape: ArgShape, i: nat)
    requires i <= |text|
    ensures var r := SearchFrom(text, keyword, shape, i);
            r.Some? ==> r.value.groups == Groups(text, r.value.start, r.value.end, keyword, shape)
    decreases |text| - i
  {
    if TokenEndAt(text, i, keyword, shape).None? && i < |text| {
      SearchFromGroups(text, keyword, shape, i + 1);
    }
  }

  /**
   * `match.groupdict()` for the token `text[i..j]`: the argument after the
   * keyword, or for the Choice shape the parts before and after the last
   * colon (the first `.*` is tried longest first).
   */
  function Groups(text: string, i: int, j: int, keyword: string, shape: ArgShape): map<string, string>
    requires TokenAt(text, i, j, keyword, shape)
  {
    var p := i + 1 + |keyword|;
    match shape
    case NoArg => map[]
    case Greedy(x) => map[x := text[p..j - 1]]
    case Choice(t, f) =>
      var c := LastIn(text, {':'}, p + 1, j - 1).value;
      map[t := text[p + 1..c], f := text[c + 1..j - 1]]
  }

  /** A token is its two delimiters around the keyword and the argument text. */
  lemma TokenPieces(text: string, i: int, j: int, keyword: string, shape: ArgShape)
    requires TokenAt(text, i, j, keyword, shape)
    ensures text[i..j] == [text[i]] + keyword + text[i + 1 + |keyword|..j - 1] + [text[j - 1]]
  {
    var p := i + 1 + |keyword|;
    assert text[i..j] == text[i..p] + text[p..j];
    assert text[i..p] == [text[i]] + text[i + 1..p];
    assert text[p..j] == text[p..j - 1] + [text[j - 1]];
  }

  /** The argument text of a Choice token split at its last colon. */
  lemma ChoicePieces(text: string, lo: int, hi: int, shape: ArgShape)
    requires 0 <= lo <= hi <= |text| && shape.Choice? && ArgumentAt(text, lo, hi, shape)
    ensures var c := LastIn(text, {':'}, lo + 1, hi);
      && c.Some?
      && text[lo..hi] == "?" + text[lo + 1..c.value] + ":" + text[c.value + 1..hi]
      && ':' !in text[c.value + 1..hi]
  {
    var c := LastIn(text, {':'}, lo + 1, hi).value;
    assert text[lo..hi] == [text[lo]] + text[lo + 1..c] + [text[c]] + text[c + 1..hi];
  }

  /** A token without argument is its two delimiters around the keyword, and captures nothing. */
  lemma GroupsNoArg(text: string, i: int, j: int, keyword: string)
    requires TokenAt(text, i, j, keyword, NoArg)
    ensures Groups(text, i, j, keyword, NoArg) == map[]
    ensures text[i..j] == [text[i]] + keyword + [text[j - 1]]
  {
    TokenPieces(text, i, j, keyword, NoArg);
    assert text[i + 1 + |keyword|..j - 1] == [];
  }

  /** The one capture of a Greedy token, put back after the keyword, gives the token again. */
  lemma GroupsGreedy(text: string, i: int, j: int, keyword: string, x: string)
    requires TokenAt(text, i, j, keyword, Greedy(x))
    ensures var g := Groups(text, i, j, keyword, Greedy(x));
      g.Keys == {x} && text[i..j] == [text[i]] + keyword + g[x] + [text[j - 1]]
  {
    TokenPieces(text, i, j, keyword, Greedy(x));
  }

  /**
   * The two captures of a Choice token, put back around `?` and `:`, give
   * the token again; the false value holds no colon.
   */
  lemma GroupsChoice(text: string, i: int, j: int, keyword: string, t: string, f: string)
    requires TokenAt(text, i, j, keyword, Choice(t, f)) && t != f
    ensures var g := Groups(text, i, j, keyword, Choice(t, f));
      && g.Keys == {t, f}
      && text[i..j] == [text[i]] + keyword + "?" + g[t] + ":" + g[f] + [text[j - 1]]
      && ':' !in g[f]
  {
    var p := i + 1 + |keyword|;
    TokenPieces(text, i, j, keyword, Choice(t, f));
    ChoicePieces(text, p, j - 1, Choice(t, f));
    var c := LastIn(text, {':'}, p + 1, j - 1).value;
    var x := [text[i]] + keyword;
    var a, b := text[p + 1..c], text[c + 1..j - 1];
    var g := Groups(text, i, j, keyword, Choice(t, f));
    assert g == map[t := a, f := b];
    assert g[t] == a && g[f] == b;
    calc {
      text[i..j];
      x + ("?" + a + ":" + b) + [text[j - 1]];
      { RegroupChoice(x, a, b, [text[j - 1]]); }
      x + "?" + a + ":" + b + [text[j - 1]];
    }
  }

  /** Regrouping the pieces of a Choice token. */
  lemma RegroupChoice(x: string, a: string, b: string, y: string)
    ensures x + ("?" + a + ":" + b) + y == x + "?" + a + ":" + b + y
  {
  }
}
