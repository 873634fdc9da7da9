/**
 * repo_details.py: which commits count towards the version, the tags that
 * anchor it, the walk over the history that finds the anchor, and the
 * `RepoDetails` object with its cached modification count.
 *
 * The repository is plain data: the checked-out commit, the tags with the
 * hexsha of the object each one references, the history newest first, and
 * the lengths of the two index diffs.
 */
module RepoDetails {
  import opened Wrappers
  import opened PyStr
  import opened TagPattern

  /** A commit: its hexsha and the names in `commit.stats.files`. */
  datatype Commit = Commit(hexsha: string, files: seq<string>)

  /**
   * A tag: its name and `tag.object.hexsha`, the hexsha of the object the
   * tag references. That is the commit for a lightweight tag, but the tag
   * object itself for an annotated tag, so an annotated tag never equals a
   * commit's hexsha in the walk.
   */
  datatype Tag = Tag(name: string, target: string)

  /** `sub_paths` that let every commit count: None, empty, or holding `'*'`. */
  predicate CountsAll(subPaths: Option<seq<string>>)
  {
    subPaths.None? || subPaths.value == [] || "*" in subPaths.value
  }

  /** The inner loop of `commit_contains_sub_paths`: the file starts with one of the sub-paths. */
  function StartsWithAny(file: string, subPaths: seq<string>): (r: bool)
    ensures r <==> exists p :: p in subPaths && StartsWith(file, p)
  {
    if subPaths == [] then false
    else StartsWith(file, subPaths[0]) || StartsWithAny(file, subPaths[1..])
  }

  /** The outer loop of `commit_contains_sub_paths`: some file starts with some sub-path. */
  function AnyFileStartsWith(files: seq<string>, subPaths: seq<string>): (r: bool)
    ensures r <==> exists f, p :: f in files && p in subPaths && StartsWith(f, p)
  {
    if files == [] then false
    else StartsWithAny(files[0], subPaths) || AnyFileStartsWith(files[1..], subPaths)
  }

  /**
   * `commit_contains_sub_paths`: every commit counts when `sub_paths` is
   * None, empty or holds `'*'`; otherwise exactly the commits that change a
   * file whose name starts with one of the sub-paths.
   */
  function CommitContainsSubPaths(commit: Commit, subPaths: Option<seq<string>>): (r: bool)
    ensures CountsAll(subPaths) ==> r
    ensures !CountsAll(subPaths) ==>
              (r <==> exists f, p :: f in commit.files && p in subPaths.value && StartsWith(f, p))
  {
    if subPaths.None? || subPaths.value == [] then true
    else if "*" in subPaths.value then true
    else AnyFileStartsWith(commit.files, subPaths.value)
  }

  /** The tags the first loop of `version` keeps, in their original order. */
  function Retained(tags: seq<Tag>, prefix: string): (r: seq<Tag>)
    ensures |r| <= |tags|
  {
    if tags == [] then []
    else
      var last := tags[|tags| - 1];
      Retained(tags[..|tags| - 1], prefix) + (if TagMatches(prefix, last.name) then [last] else [])
  }

  /** The loop of `version` that appends every tag whose name matches to the retained list. */
  method FilterTags(tags: seq<Tag>, prefix: string) returns (retained: seq<Tag>)
    ensures retained == Retained(tags, prefix)
  {
    retained := [];
    for k := 0 to |tags|
      invariant retained == Retained(tags[..k], prefix)
    {
      assert tags[..k + 1][..k] == tags[..k];
      if TagMatches(prefix, tags[k].name) {
        retained := retained + [tags[k]];
      }
    }
    assert tags[..|tags|] == tags;
  }

  /** A tag is kept exactly when it is one of the tags and its name matches. */
  lemma {:induction false} RetainedMembers(tags: seq<Tag>, prefix: string)
    ensures forall t :: t in Retained(tags, prefix) <==> t in tags && TagMatches(prefix, t.name)
    decreases |tags|
  {
    if tags != [] {
      RetainedMembers(tags[..|tags| - 1], prefix);
      assert tags == tags[..|tags| - 1] + [tags[|tags| - 1]];
    }
  }

  /** Filtering keeps the order: the tags kept from `a + b` are those kept from `a`, then from `b`. */
  lemma {:induction false} RetainedAppend(a: seq<Tag>, b: seq<Tag>, prefix: string)
    ensures Retained(a + b, prefix) == Retained(a, prefix) + Retained(b, prefix)
    decreases |b|
  {
    if b == [] {
      assert a + b == a;
    } else {
      assert (a + b)[..|a + b| - 1] == a + b[..|b| - 1];
      RetainedAppend(a, b[..|b| - 1], prefix);
    }
  }

  /** Some tag of `tags` points at the commit. */
  ghost predicate IsAnchor(tags: seq<Tag>, commit: Commit)
  {
    exists t :: t in tags && t.target == commit.hexsha
  }

  /** The inner loop of the walk: the first tag, in list order, that points at `sha`. */
  function FirstTargeting(tags: seq<Tag>, sha: string, from: nat := 0): (r: Option<nat>)
    requires from <= |tags|
    ensures r.Some? ==> from <= r.value < |tags| && tags[r.value].target == sha
    ensures r.Some? ==> forall m :: from <= m < r.value ==> tags[m].target != sha
    ensures r.None? <==> forall m :: from <= m < |tags| ==> tags[m].target != sha
    decreases |tags| - from
  {
    if from == |tags| then None
    else if tags[from].target == sha then Some(from)
    else FirstTargeting(tags, sha, from + 1)
  }

  /** The first commit, newest first, that a tag of `tags` points at. */
  function FirstAnchor(commits: seq<Commit>, tags: seq<Tag>, from: nat := 0): (r: Option<nat>)
    requires from <= |commits|
    ensures r.Some? ==> from <= r.value < |commits| && IsAnchor(tags, commits[r.value])
    ensures r.Some? ==> forall q :: from <= q < r.value ==> !IsAnchor(tags, commits[q])
    ensures r.None? <==> forall q :: from <= q < |commits| ==> !IsAnchor(tags, commits[q])
    decreases |commits| - from
  {
    if from == |commits| then None
    else if FirstTargeting(tags, commits[from].hexsha).Some? then Some(from)
    else FirstAnchor(commits, tags, from + 1)
  }

  /** The number of commits `commit_contains_sub_paths` lets count. */
  function CountTouching(commits: seq<Commit>, subPaths: Option<seq<string>>): (n: nat)
    ensures n <= |commits|
    ensures CountsAll(subPaths) ==> n == |commits|
  {
    if commits == [] then 0
    else
      CountTouching(commits[..|commits| - 1], subPaths) +
      (if CommitContainsSubPaths(commits[|commits| - 1], subPaths) then 1 else 0)
  }

  /** Where the walk of `version` stops: the commit, the tag and the counter. */
  datatype Resolution = Resolution(position: nat, tagIndex: nat, index: nat)

  /**
   * The walk of `version` over the history with the retained tags: it
   * stops at the first commit a tag points at, takes the first such tag,
   * and reports how many earlier commits touched the sub-paths; there is no
   * result exactly when no tag points at any commit of the history.
   */
  function Resolve(commits: seq<Commit>, tags: seq<Tag>, subPaths: Option<seq<string>>): (r: Option<Resolution>)
    ensures r.None? <==> forall q :: 0 <= q < |commits| ==> !IsAnchor(tags, commits[q])
    ensures r.Some? ==>
              r.value.position < |commits| && r.value.tagIndex < |tags| &&
              tags[r.value.tagIndex].target == commits[r.value.position].hexsha
    ensures r.Some? ==> forall q :: 0 <= q < r.value.position ==> !IsAnchor(tags, commits[q])
    ensures r.Some? ==>
              forall m :: 0 <= m < r.value.tagIndex ==> tags[m].target != commits[r.value.position].hexsha
    ensures r.Some? ==> r.value.index == CountTouching(commits[..r.value.position], subPaths)
    ensures r.Some? ==> r.value.index <= r.value.position
    ensures r.Some? && CountsAll(subPaths) ==> r.value.index == r.value.position
  {
    match FirstAnchor(commits, tags)
    case None => None
    case Some(p) =>
      var t := FirstTargeting(tags, commits[p].hexsha);
      if t.None? then
        assert false;
        None
      else
        Some(Resolution(p, t.value, CountTouching(commits[..p], subPaths)))
  }

  /** The walk stops at the first anchored commit and its first tag. */
  lemma ResolveAt(commits: seq<Commit>, tags: seq<Tag>, subPaths: Option<seq<string>>, p: nat, i: nat)
    requires p < |commits| && i < |tags| && tags[i].target == commits[p].hexsha
    requires forall q :: 0 <= q < p ==> !IsAnchor(tags, commits[q])
    requires forall m :: 0 <= m < i ==> tags[m].target != commits[p].hexsha
    ensures Resolve(commits, tags, subPaths) == Some(Resolution(p, i, CountTouching(commits[..p], subPaths)))
  {
    assert IsAnchor(tags, commits[p]) by {
      assert tags[i] in tags;
    }
  }

  /**
   * `version_output_function` with the default pattern: `None` when the
   * tag does not match, otherwise the version string, which reads back
   * into the tag's groups, the index and the modification count.
   */
  function OutputFor(prefix: string, tag: Tag, index: nat, modCount: nat): (r: Option<string>)
    ensures r.Some? <==> TagMatches(prefix, tag.name)
    ensures r.Some? ==>
              ParseVersionString(r.value) ==
              Some(VersionFields(ParseTag(prefix, tag.name).value, DecimalString(index), DecimalString(modCount)))
  {
    match ParseTag(prefix, tag.name)
    case None => None
    case Some(p) =>
      VersionStringRoundTrip(p, index, modCount);
      Some(VersionString(p, index, modCount))
  }

  /** What `version` returns for the tags, the history and the modification count. */
  function VersionOf(tags: seq<Tag>, commits: seq<Commit>, prefix: string, subPaths: Option<seq<string>>,
                     modCount: nat): Option<string>
  {
    var retained := Retained(tags, prefix);
    match Resolve(commits, retained, subPaths)
    case None => None
    case Some(res) => OutputFor(prefix, retained[res.tagIndex], res.index, modCount)
  }

  /**
   * `version` returns None exactly when no tag whose name matches the
   * prefix and the pattern points at a commit of the history.
   */
  lemma VersionNone(tags: seq<Tag>, commits: seq<Commit>, prefix: string, subPaths: Option<seq<string>>,
                    modCount: nat)
    ensures VersionOf(tags, commits, prefix, subPaths, modCount).None? <==>
            forall q, t :: 0 <= q < |commits| && t in tags && TagMatches(prefix, t.name) ==>
              t.target != commits[q].hexsha
  {
    var retained := Retained(tags, prefix);
    var res := Resolve(commits, retained, subPaths);
    RetainedMembers(tags, prefix);
    if res.Some? {
      assert retained[res.value.tagIndex] in retained;
    }
  }

  /**
   * When the walk stops, `version` reports the anchor tag's major,
   * separator and minor, the number of earlier commits touching the
   * sub-paths and the modification count.
   */
  lemma VersionAtAnchor(tags: seq<Tag>, commits: seq<Commit>, prefix: string, subPaths: Option<seq<string>>,
                        modCount: nat)
    requires Resolve(commits, Retained(tags, prefix), subPaths).Some?
    ensures var retained := Retained(tags, prefix);
            var res := Resolve(commits, retained, subPaths).value;
            var v := VersionOf(tags, commits, prefix, subPaths, modCount);
            && TagMatches(prefix, retained[res.tagIndex].name)
            && v.Some?
            && ParseVersionString(v.value) ==
               Some(VersionFields(ParseTag(prefix, retained[res.tagIndex].name).value,
                                  DecimalString(res.index), DecimalString(modCount)))
  {
    var retained := Retained(tags, prefix);
    var res := Resolve(commits, retained, subPaths).value;
    RetainedMembers(tags, prefix);
    assert retained[res.tagIndex] in retained;
  }

  /** A commit no tag of the list points at is not an anchor. */
  lemma NotAnchor(tags: seq<Tag>, commit: Commit)
    requires forall m :: 0 <= m < |tags| ==> tags[m].target != commit.hexsha
    ensures !IsAnchor(tags, commit)
  {
  }

  /** Where the walk stops, `version` renders the tag it stopped at. */
  lemma VersionStops(tags: seq<Tag>, commits: seq<Commit>, prefix: string, subPaths: Option<seq<string>>,
                     modCount: nat, p: nat, i: nat)
    requires p < |commits| && i < |Retained(tags, prefix)|
    requires Retained(tags, prefix)[i].target == commits[p].hexsha
    requires forall q :: 0 <= q < p ==> !IsAnchor(Retained(tags, prefix), commits[q])
    requires forall m :: 0 <= m < i ==> Retained(tags, prefix)[m].target != commits[p].hexsha
    ensures VersionOf(tags, commits, prefix, subPaths, modCount)
         == OutputFor(prefix, Retained(tags, prefix)[i], CountTouching(commits[..p], subPaths), modCount)
  {
    ResolveAt(commits, Retained(tags, prefix), subPaths, p, i);
  }

  /** A walk that runs out of commits gives no version. */
  lemma VersionRunsOut(tags: seq<Tag>, commits: seq<Commit>, prefix: string, subPaths: Option<seq<string>>,
                       modCount: nat)
    requires forall q :: 0 <= q < |commits| ==> !IsAnchor(Retained(tags, prefix), commits[q])
    ensures VersionOf(tags, commits, prefix, subPaths, modCount) == None
  {
  }

  /** The repository details `version`, `sha` and the modification counts read. */
  class RepoDetails {
    /** The checked-out commit. */
    const head: Commit
    /** The repository's tags, in the order the repository lists them. */
    const tags: seq<Tag>
    /** The history from the checked-out commit, newest first. */
    const history: seq<Commit>
    /** The number of files that differ between the working tree and the index. */
    const unstagedCount: nat
    /** The number of files that differ between the index and the checked-out commit. */
    const stagedCount: nat
    /** The cached modification count: None until `modification_count` first runs. */
    var modificationCache: Option<nat>

    /** The modification count of the repository snapshot. */
    function ModificationTotal(): nat
    {
      unstagedCount + stagedCount
    }

    /** A filled cache holds the count of this snapshot. */
    ghost predicate Valid()
      reads this
    {
      modificationCache.None? || modificationCache == Some(ModificationTotal())
    }

    constructor (head: Commit, tags: seq<Tag>, history: seq<Commit>, unstagedCount: nat, stagedCount: nat)
      ensures this.head == head && this.tags == tags && this.history == history
      ensures this.unstagedCount == unstagedCount && this.stagedCount == stagedCount
      ensures modificationCache == None && Valid()
    {
      this.head := head;
      this.tags := tags;
      this.history := history;
      this.unstagedCount := unstagedCount;
      this.stagedCount := stagedCount;
      modificationCache := None;
    }

    /**
     * `sha(num_chars)`: the first `num_chars` characters of the hexsha, all
     * of it when `num_chars` is larger, and a negative `num_chars` drops
     * that many characters from the end.
     */
    function Sha(numChars: int := 7): (r: string)
      ensures StartsWith(head.hexsha, r)
      ensures 0 <= numChars <= |head.hexsha| ==> |r| == numChars
      ensures |head.hexsha| <= numChars ==> r == head.hexsha
      ensures numChars < 0 ==> |r| == if -numChars <= |head.hexsha| then |head.hexsha| + numChars else 0
    {
      SlicePrefix(head.hexsha, numChars)
    }

    /** `modification_count`: computed on the first call, then read from the cache. */
    method ModificationCount() returns (n: nat)
      requires Valid()
      modifies this
      ensures Valid() && n == ModificationTotal() && modificationCache == Some(n)
    {
      if modificationCache.None? {
        modificationCache := Some(unstagedCount + stagedCount);
      }
      n := modificationCache.value;
    }

    /** `has_modifications`: the modification count is positive. */
    method HasModifications() returns (b: bool)
      requires Valid()
      modifies this
      ensures Valid() && (b <==> ModificationTotal() > 0) && modificationCache == Some(ModificationTotal())
    {
      var n := ModificationCount();
      b := n > 0;
    }

    /**
     * `version_output_function` with the default pattern; the modification
     * count is read (and cached) only when the tag matches.
     */
    method VersionOutputFunction(tagPrefix: string, tag: Tag, index: nat) returns (r: Option<string>)
      requires Valid()
      modifies this
      ensures Valid() && r == OutputFor(tagPrefix, tag, index, ModificationTotal())
      ensures modificationCache == if r.Some? then Some(ModificationTotal()) else old(modificationCache)
    {
      var parts := ParseTag(tagPrefix, tag.name);
      if parts.None? {
        return None;
      }
      var count := ModificationCount();
      r := Some(VersionString(parts.value, index, count));
    }

    /**
     * `version` with the default tag pattern and output function: keep the
     * tags that match, walk the history newest first counting the commits
     * that touch the sub-paths, and render the first tag that points at
     * the current commit; None when the walk runs out.
     */
    method Version(tagPrefix: string := "", subPaths: Option<seq<string>> := None) returns (r: Option<string>)
      requires Valid()
      modifies this
      ensures Valid() && r == VersionOf(tags, history, tagPrefix, subPaths, ModificationTotal())
      ensures modificationCache == if r.Some? then Some(ModificationTotal()) else old(modificationCache)
    {
      var retained := FilterTags(tags, tagPrefix);
      var commits := history;
      var index := 0;
      for p := 0 to |commits|
        invariant index == CountTouching(commits[..p], subPaths)
        invariant forall q :: 0 <= q < p ==> !IsAnchor(retained, commits[q])
        invariant modificationCache == old(modificationCache)
      {
        for i := 0 to |retained|
          invariant forall m :: 0 <= m < i ==> retained[m].target != commits[p].hexsha
          invariant modificationCache == old(modificationCache)
        {
          if retained[i].target == commits[p].hexsha {
            VersionStops(tags, commits, tagPrefix, subPaths, ModificationTotal(), p, i);
            r := VersionOutputFunction(tagPrefix, retained[i], index);
            return;
          }
        }
        NotAnchor(retained, commits[p]);
        assert commits[..p + 1][..p] == commits[..p];
        if CommitContainsSubPaths(commits[p], subPaths) {
          index := index + 1;
        }
      }
      VersionRunsOut(tags, commits, tagPrefix, subPaths, ModificationTotal());
      r := None;
    }
  }

  /** The version string of the tag `1.2` two commits back with no modification. */
  lemma VersionStringExample()
    ensures VersionString(TagParts("1", '.', "2"), 2, 0) == "1.2.2.0"
  {
    assert DecimalString(2) == "2" && DecimalString(0) == "0";
    var v := VersionString(TagParts("1", '.', "2"), 2, 0);
    assert |v| == 7;
    assert v[0] == '1' && v[1] == '.' && v[2] == '2' && v[3] == '.' && v[4] == '2' && v[5] == '.' && v[6] == '0';
  }

  /** The tag name `v1.2` under the prefix `v` and under the empty prefix. */
  lemma ExampleTagParses()
    ensures ParseTag("v", "v1.2") == Some(TagParts("1", '.', "2"))
    ensures ParseTag("", "v1.2") == None
  {
    var name := "v1.2";
    assert StartsWith(name, "v");
    DigitRunIs(name, 1, 1);
    DigitRunIs(name, 3, 1);
    assert name[1..2] == "1" && name[3..4] == "2";
  }

  /**
   * Three commits newest first, the tag `v1.2` on the oldest: with the
   * prefix `v` the walk passes two commits and the version is `1.2.2.0`.
   */
  lemma TagOnThirdCommit()
    ensures VersionOf([Tag("v1.2", "c2")], [Commit("c0", []), Commit("c1", []), Commit("c2", [])], "v", None, 0)
         == Some("1.2.2.0")
  {
    var commits := [Commit("c0", []), Commit("c1", []), Commit("c2", [])];
    var tags := [Tag("v1.2", "c2")];
    ExampleTagParses();
    assert Retained(tags, "v") == tags;
    forall q | 0 <= q < 2
      ensures !IsAnchor(tags, commits[q])
    {
      assert commits[q].hexsha[1] != "c2"[1];
    }
    ResolveAt(commits, tags, None, 2, 0);
    assert commits[..2] == [Commit("c0", []), Commit("c1", [])];
    VersionStringExample();
  }

  /**
   * The same history with the empty prefix: the tag does not match
   * (`re.match` needs a digit at the start) and `version` returns None.
   */
  lemma TagWithoutPrefixIgnored()
    ensures VersionOf([Tag("v1.2", "c2")], [Commit("c0", []), Commit("c1", []), Commit("c2", [])], "", None, 0)
         == None
  {
    ExampleTagParses();
    assert Retained([Tag("v1.2", "c2")], "") == [];
  }
}
