# versionhero in Dafny

versionhero fills a text template with facts about a git repository. The
template holds keyword tokens such as `!GITHASH7!` or `$GITMODS?dirty:clean$`.
Each token is a delimiter from `!@#$%^&*`, a keyword, an optional argument,
and a second delimiter from the same class. The two delimiters are chosen
independently.

This project models two parts of the program:

- **The keyword replacer** (`KeywordReplacer` in versionhero.py).
  `simple_replacement` repeats one cycle until the search fails:
  - search for the leftmost token of one keyword;
  - call the keyword's substitution function with the token's named groups;
  - replace every copy of the token string with the result.

  `execute` runs this for eight keywords in a fixed order. The model also
  covers how `main` derives the names of the template, output and backup files.
- **The version resolver** (repo_details.py):
  - `commit_contains_sub_paths`;
  - the tag filter and the history walk of `RepoDetails.version`;
  - the version string of `version_output_function`;
  - the cached modification count, `has_modifications` and `sha`.

Modules:

- `Wrappers`: `Option`.
- `PyStr`: the Python `str` operations the program relies on:
  - `startswith` and `endswith`;
  - the slice `s[:n]`;
  - `replace`;
  - `str(n)`;
  - the scans that a regular-expression engine makes.
- `KeywordPattern`: the token patterns, and what `re.search` does with the
  three argument patterns the program registers:
  - none;
  - `(?P<x>.*)`;
  - `\?(?P<t>.*):(?P<f>.*)`.

  `.` stops at a newline. The leftmost start wins, and at that start the
  longest end wins.
- `Versionhero`:
  - the `KeywordReplacer` class, with `text` as a mutable field;
  - `Rewritten`, the function that specifies `simple_replacement`;
  - `Pipeline`, the function that specifies `execute`;
  - the derived file names.
- `TagPattern`: the default tag pattern `(?P<major>\d+)(?P<separator>[._-])(?P<minor>\d+)`.
  It is matched after a literal prefix and anchored at the start only. The
  module also holds the version string and a reader that reverses it.
- `RepoDetails`:
  - commits, tags and the sub-path filter;
  - the specification of the walk (`Resolve`, `VersionOf`);
  - the `RepoDetails` class, whose mutable field is the modification-count cache.

The repository is plain data:

- the checked-out commit;
- the tags, each with `tag.object.hexsha`, the hexsha of the object it
  references (the commit for a lightweight tag, the tag object for an
  annotated one);
- the history, newest first;
- the sizes of the two index diffs.

A substitution function is an abstract function from the merged keyword
arguments to the text that `str()` makes of its result.

Some behaviours of the code that the model keeps:

- When no tag matches, `version` returns `None`. It does not fall back to a
  default version `0.0.<distance>.<mods>`.
- The tag pattern must match right after the prefix. A tag `v1.2` with the
  empty prefix is therefore not retained. `RepoDetails.TagOnThirdCommit`
  proves that prefix `v` gives `1.2.2.0`, and `RepoDetails.TagWithoutPrefixIgnored`
  proves that the empty prefix gives `None`.
- The argument patterns are greedy (`.*`), not non-greedy. A token ends at
  the last delimiter of its line.
- The two delimiters of a token need not be equal.
- `execute` does not guarantee that no token of any keyword remains. After a
  keyword's pass, that keyword has no token left. A later pass can create a
  token of an earlier keyword again, because a replacement can join two
  pieces of text into one. `PipelineTokenFree` only promises that the last rule's
  tokens are gone, and `LaterPassRecreatesToken` gives an instance: with the
  rules `AB` then `CD`, both erasing, `!A!CD!B!` holds no token of `AB` but
  becomes `!AB!`.

## Model

| member | source | states |
|---|---|---|
| `KeywordPattern.ArgumentAt` | versionhero.py:59-66 | The three argument patterns: none, `(?P<name>.*)` (any run of characters without a newline), and `\?(?P<t>.*):(?P<f>.*)` (a `?`, then a run without a newline that holds a `:`). |
| `KeywordPattern.TokenAt` | versionhero.py:39 | `text[i..j]` is a delimiter, the keyword, a text matching the argument pattern, and a delimiter; the two delimiters are chosen independently; `.` never crosses a newline. |
| `KeywordPattern.TokenDelimiters` | versionhero.py:39 | A token begins and ends with a character of `[!@#$%^&*]`, so it holds at least two delimiter characters. |
| `KeywordPattern.DelimiterFreeHasNoToken` | versionhero.py:10 | Text without any character of the delimiter class holds no token of any keyword. |
| `KeywordPattern.TokenEndAt` | versionhero.py:39-41 | At a given start, the end the regex engine picks: a token ends there, no longer token starts there, and `None` means that no token starts there. |
| `KeywordPattern.Search` | versionhero.py:41 | `re.search` of the token pattern: the search from every start position in turn. `SearchSpec` states what it finds. |
| `KeywordPattern.SearchFrom` | versionhero.py:41 | The search from a start index finds the leftmost token at or after that index, and the longest one at its start. `None` means that no token starts at or after that index. |
| `KeywordPattern.SearchSpec` | versionhero.py:41-43 | `re.search` fails exactly when the text has no token. Otherwise it returns the leftmost token, the longest one at that start, and that token's groups. |
| `KeywordPattern.Groups` | versionhero.py:47 | `match.groupdict()` of a token: the argument after the keyword, or for the `GITMODS` form the text before and after the last colon. `GroupsNoArg`, `GroupsGreedy` and `GroupsChoice` state how the groups rebuild the token. |
| `KeywordPattern.GroupsNoArg` | versionhero.py:56-58 | A token without argument captures no group and is its two delimiters around the keyword. |
| `KeywordPattern.GroupsGreedy` | versionhero.py:59-66 | A `(?P<x>.*)` token captures exactly the group `x`. Delimiter, keyword, that group and delimiter rebuild the matched token. |
| `KeywordPattern.GroupsChoice` | versionhero.py:64-65 | A `GITMODS` token captures exactly its two groups. Delimiter, keyword, `?`, the true value, `:`, the false value and delimiter rebuild it. The false value holds no colon, because the first `.*` takes as much as it can. |
| `KeywordPattern.ReplaceDropsDelimiters` | versionhero.py:49 | Replacing every copy of a pattern that occurs in the text with delimiter-free text removes at least the pattern's own delimiters. |
| `KeywordPattern.ReplaceKeepsDelimCount` | versionhero.py:49 | Replacing with delimiter-free text never adds delimiter characters. |
| `PyStr.Replace` | versionhero.py:49 | `str.replace` with a non-empty pattern, scanning left to right. `ReplaceNoOccurrence` and `ReplaceFirstOccurrence` state that it replaces every non-overlapping occurrence. |
| `PyStr.ReplaceNoOccurrence` | versionhero.py:49 | `str.replace` returns its input when the pattern does not occur. |
| `PyStr.ReplaceFirstOccurrence` | versionhero.py:49 | `str.replace` replaces the first occurrence and continues after it, so every later non-overlapping occurrence is replaced too, not only the first. |
| `Versionhero.HandlerArgs` | versionhero.py:45-47 | The substitution arguments are the captured groups plus the additional arguments. On a name clash the additional argument wins. |
| `Versionhero.PassDropsDelimiters` | versionhero.py:48-49 | One pass of the loop, with a delimiter-free substitution, removes at least two delimiter characters from the text. |
| `Versionhero.Rewritten` | versionhero.py:40-49 | The text `simple_replacement` leaves: search, call the substitution with the merged groups, replace every copy of the token, repeat until the search fails. `SimpleReplacement` is proved equal to it and `RewrittenTokenFree` states its result. |
| `Versionhero.RewrittenTokenFree` | versionhero.py:40-49 | When the rewrite loop ends, no token of the keyword remains in the text. |
| `Versionhero.RewrittenUnchanged` | versionhero.py:40-43 | Text without a token of the keyword comes back unchanged. |
| `Versionhero.Registry` | versionhero.py:56-66 | `execute` registers eight keywords. When the substitutions are delimiter-free, every rule is. |
| `Versionhero.Apply` | versionhero.py:26-49 | One `simple_replacement` call with a rule's keyword, pattern and substitution and no additional arguments. |
| `Versionhero.Pipeline` | versionhero.py:56-67 | The rules applied one after the other, each on the text the previous ones left. `ExecutePipeline` ties it to `execute`, and `PipelineTokenFree`, `PipelineSteps`, `PipelineAppend` and `PipelineUnchanged` state its properties. |
| `Versionhero.PipelineTokenFree` | versionhero.py:56-67 | After the rules ran, each on the text the previous rules left, no token of the last rule's keyword remains. |
| `Versionhero.PipelineSteps` | versionhero.py:56-67 | Rules applied one pass at a time, each on the text the previous pass left, end in the pipeline's output. |
| `Versionhero.PipelineAppend` | versionhero.py:56-67 | Running the rules of `a + b` equals running those of `a`, then those of `b`. |
| `Versionhero.ExecutePipeline` | versionhero.py:56-66 | The eight passes of `execute`, in its order, are the registry's pipeline. |
| `Versionhero.LaterPassRecreatesToken` | versionhero.py:56-67 | With the rules `AB` then `CD`, both erasing, `!A!CD!B!` holds no token of `AB`, yet the pipeline turns it into `!AB!`, which is one. A later pass can bring back an earlier keyword's token. |
| `Versionhero.PipelineUnchanged` | versionhero.py:56-67 | Text with no token of any registered keyword passes through every rule unchanged. |
| `Versionhero.KeywordReplacer.constructor` | versionhero.py:17-24 | The replacer starts with the given text and repository details. |
| `Versionhero.KeywordReplacer.SimpleReplacement` | versionhero.py:26-49 | The new `text` is `Rewritten` of the old one, and no token of the keyword is left in it. The loop's invariant keeps the final result, and the delimiter count is its termination measure. |
| `Versionhero.KeywordReplacer.Execute` | versionhero.py:51-67 | Returns the field `text`, which is the eight-keyword pipeline applied to the old text. |
| `Versionhero.DerivedFileNames` | versionhero.py:97-99 | The input name always ends in `.git` and is the template name when that already ends in `.git`. The output name is the input without `.git`. The backup name is the output name plus `.bak`. |
| `PyStr.SlicePrefix` | repo_details.py:54 | `s[:n]` is a prefix of `s`. Its length is `n` when `0 <= n <= len(s)`. It is all of `s` when `n` is larger. A negative `n` drops characters from the end, and it gives the empty string when `n` is below `-len(s)`. |
| `PyStr.DigitRunSpec` | repo_details.py:98 | The greedy `\d+` takes digits only and stops at the end of the string or at a non-digit. |
| `PyStr.DigitRunIs` | repo_details.py:98 | A digit run that ends at the end of the string or before a non-digit is the one the greedy scan takes. |
| `PyStr.DecimalString` | repo_details.py:90-94 | `str(n)` is a non-empty run of digits without a leading zero. |
| `PyStr.DecimalRoundTrip` | repo_details.py:90-94 | Reading back the digits `str(n)` wrote gives `n`. |
| `TagPattern.MatchDefaultAt` | repo_details.py:98 | The default pattern fails exactly when no digits-separator-digits span starts at the index. Otherwise the groups are well formed and occur at that index, and the minor part stops at a non-digit or at the end. |
| `TagPattern.ParseTag` | repo_details.py:110-113 | `re.match(prefix + pattern, name)` succeeds exactly when the name starts with the prefix and the pattern matches right after it. The name then starts with prefix, major, separator and minor, and the minor part is the whole digit run there: the next character is not a digit. |
| `TagPattern.VersionString` | repo_details.py:90-94 | `'{0}{1}{2}{1}{3}{1}{4}'.format(major, separator, minor, index, count)`. `VersionStringRoundTrip` and `ParseVersionStringSound` state what it keeps. |
| `TagPattern.ParseJoined` | repo_details.py:90-94 | Four digit runs joined by one separator read back into their parts. |
| `TagPattern.ParseVersionStringSound` | repo_details.py:90-94 | The reader accepts only version strings: a result means well-formed tag groups and two digit runs that, joined by the tag's separator, are exactly the string read. |
| `TagPattern.VersionStringRoundTrip` | repo_details.py:90-94 | From the version string, the reader recovers the tag's major, separator and minor, the index and the modification count. |
| `PyStr.EndsWith` | versionhero.py:97 | `str.endswith`: the string's suffix of the pattern's length is the pattern, which decides whether `.git` is appended to the input file name. |
| `PyStr.StartsWith` | repo_details.py:23 | `str.startswith`: the string's prefix of the pattern's length is the pattern. |
| `RepoDetails.StartsWithAny` | repo_details.py:22-24 | The inner loop is true exactly when the file name starts with some sub-path. |
| `RepoDetails.AnyFileStartsWith` | repo_details.py:21-26 | The nested loops are true exactly when some changed file starts with some sub-path. |
| `RepoDetails.CommitContainsSubPaths` | repo_details.py:8-26 | True when `sub_paths` is None, empty or holds `'*'`. Otherwise true exactly when some changed file starts with some sub-path. |
| `RepoDetails.Retained` | repo_details.py:111-114 | Never more tags than given; membership (exactly the tags whose names match prefix plus pattern) is stated by `RetainedMembers`, and original order by `RetainedAppend`. |
| `RepoDetails.RetainedMembers` | repo_details.py:110-114 | A tag is kept exactly when it is a tag of the repository and its name matches prefix plus pattern. |
| `RepoDetails.FilterTags` | repo_details.py:110-114 | The loop over the tags returns `Retained`: the matching tags, in their original order. |
| `RepoDetails.RetainedAppend` | repo_details.py:111-114 | The filter keeps the original order of the tags. |
| `RepoDetails.FirstTargeting` | repo_details.py:119-121 | Finds the first tag, in list order, that points at the commit. `None` means that no tag does. |
| `RepoDetails.FirstAnchor` | repo_details.py:118-121 | Finds the first commit, newest first, that a retained tag points at. `None` means that none is. |
| `RepoDetails.CountTouching` | repo_details.py:123-124 | The count of commits that pass the sub-path test is at most the number of commits. With no sub-path restriction it equals that number. |
| `RepoDetails.Resolve` | repo_details.py:116-124 | The walk stops at the first commit a retained tag points at, and it takes the first such tag. No earlier commit is pointed at. The index counts the earlier commits that pass the sub-path test, so it is at most the anchor's position, and equal to it without a restriction. `None` means that no retained tag points at any commit. |
| `RepoDetails.ResolveAt` | repo_details.py:118-121 | A commit with a pointing tag, after commits without one, is where the walk stops. The first pointing tag is the one it uses. |
| `RepoDetails.OutputFor` | repo_details.py:88-94 | `None` exactly when the tag does not match. Otherwise the string reads back into the tag's major, separator and minor, the index and the modification count. |
| `RepoDetails.VersionOf` | repo_details.py:110-124 | What `version` returns: the output for the tag and index the walk stops at, None when it runs out. `VersionNone`, `VersionAtAnchor`, `VersionStops` and `RepoDetails.RepoDetails.Version` state its properties. |
| `RepoDetails.VersionNone` | repo_details.py:118-124 | `version` returns None exactly when no tag whose name matches points at a commit of the history. |
| `RepoDetails.VersionAtAnchor` | repo_details.py:116-124 | When the walk finds an anchor, `version` returns a string. That string reads back into the anchor tag's groups, the commit count and the modification count. |
| `RepoDetails.VersionStringExample` | repo_details.py:90-94 | Tag `1.2`, index 2 and no modifications render as `1.2.2.0`. |
| `RepoDetails.VersionStops` | repo_details.py:118-124 | Where the walk stops, at the first commit a retained tag points at and the first such tag, `version` renders that tag with the count of the commits before it. |
| `RepoDetails.ExampleTagParses` | repo_details.py:98-113 | The tag name `v1.2` matches with the prefix `v`, as major `1`, separator `.` and minor `2`, and does not match with the empty prefix. |
| `RepoDetails.TagOnThirdCommit` | repo_details.py:110-124 | Three commits with the tag `v1.2` on the oldest give `1.2.2.0` with the prefix `v`. |
| `RepoDetails.TagWithoutPrefixIgnored` | repo_details.py:110-124 | The same history gives None with the empty prefix. |
| `RepoDetails.RepoDetails.constructor` | repo_details.py:33-39 | The details start with an empty modification-count cache. |
| `RepoDetails.RepoDetails.Sha` | repo_details.py:48-54 | The abbreviated sha is a prefix of the hexsha, `num_chars` long when that fits, and all of it when `num_chars` is larger. A negative `num_chars` drops characters from the end. |
| `RepoDetails.RepoDetails.ModificationCount` | repo_details.py:63-71 | Returns the snapshot's modification count and leaves it in the cache, so every call returns the same value. |
| `RepoDetails.RepoDetails.HasModifications` | repo_details.py:73-78 | True exactly when the modification count is positive. |
| `RepoDetails.RepoDetails.VersionOutputFunction` | repo_details.py:80-94 | Returns `OutputFor` the tag with the snapshot's modification count. The cache is filled only when the tag matches. |
| `RepoDetails.RepoDetails.Version` | repo_details.py:96-124 | The nested loops return `VersionOf` the tags, the history and the modification count. The cache is filled exactly when a version string is returned. |

## Left out

- `main` of versionhero.py is not modelled beyond the name derivation at lines 97-99. It covers argument parsing, absolute paths, the upward search for the `.git` directory, and reading, renaming, removing and writing files. All of that is I/O.
- GitPython is not modelled, because it is foreign code. That covers opening the repository, the active branch, the authored date, tags, the history, index diffs and the changed files of a commit. Their results are the class's inputs: commits, tags, history and the two diff sizes.
- `branch_name` and `datetime` are not modelled. They only return what GitPython gives. The date-time handlers that `execute` names do not exist in repo_details.py.
- The substitution functions are abstract in the keyword replacer. The wrong calls from versionhero.py into `RepoDetails` are not modelled:
  - the extra constructor arguments;
  - `commit_number`, `commit_datetime` and `current_datetime`, which are missing from `RepoDetails`;
  - `separator` passed to `version`;
  - the string `num_chars` passed to `sha`;
  - `true_value` and `false_value` passed to `has_modifications`, which takes no arguments (versionhero.py:64-65 against repo_details.py:73), so Python raises a TypeError there.
- Only the three argument patterns `execute` registers are modelled, not regular expressions in general.
- `version` is modelled only with the default tag pattern and the default output function. The custom `tag_match_pattern` and `output_function` parameters are left out.
- Annotated tags are not told apart from lightweight ones. The walk compares `tag.object.hexsha` with each commit's hexsha (repo_details.py:120). For an annotated tag GitPython's `object` is the tag object, whose hexsha is never a commit's, so an annotated tag never anchors the walk, and `version` returns None when all release tags are annotated. The model takes each tag's `target` as given and does not model how GitPython computes it.
- The tag prefix is taken as literal text. The code joins it into the regular expression, so a prefix that holds regex metacharacters would behave differently.
- `\d` is modelled as the ASCII digits `0`-`9`. Python also accepts other Unicode decimal digits in a `str` pattern.
- The program applies `str()` to each substitution result. In the model every substitution already returns text.
- `Versionhero.KeywordReplacer.SimpleReplacement` requires a substitution whose output holds no delimiter character, which the program does not check. Without this, the loop can run forever, for example when a substitution returns the token it replaces.
- `Versionhero.Rewritten` carries the same delimiter-free requirement. Its delimiter count is the termination measure.
- `Versionhero.KeywordReplacer.Execute` requires all eight substitutions to be delimiter-free, for the same reason. It states the order of the passes and the final text. It does not claim that the text holds no token of any keyword, because a later pass can create one again.
- `RepoDetails.CommitContainsSubPaths` takes `sub_paths` as a list of strings. `main` passes `sub_paths` as one string, to a constructor that does not accept it (see the wrong calls above). Called with a string, `'*' in sub_paths` would be a substring test; that call is not modelled.
- The changed files of a commit are a sequence of names, the keys of `commit.stats.files`.
