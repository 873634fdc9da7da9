/**
 * versionhero.py: the `KeywordReplacer` that rewrites a template's text
 * keyword by keyword, and the names of the template, output and backup
 * files derived from the command-line argument.
 *
 * The substitution functions are the bound methods of a `RepoDetails` object
 * in the program; here they are abstract functions from the keyword
 * arguments (`**substitution_args`) to the text that `str()` makes of their
 * result.
 */
module Versionhero {
  import opened Wrappers
  import opened PyStr
  import opened KeywordPattern

  /** A substitution function, already composed with `str`. */
  type Handler = map<string, string> -> string

  /**
   * The substitution never produces a delimiter. The program does not
   * check this; without it the rewrite loop of `simple_replacement` can run
   * forever (a handler that returns the token it replaces).
   */
  ghost predicate SafeHandler(handler: Handler)
  {
    forall args :: DelimiterFree(handler(args))
  }

  /**
   * `{**match.groupdict(), **additional_args}`: every captured group, and
   * every additional argument, the additional one winning on a clash.
   */
  function HandlerArgs(groups: map<string, string>, additional: map<string, string>): (args: map<string, string>)
    ensures args.Keys == groups.Keys + additional.Keys
    ensures forall k :: k in additional ==> args[k] == additional[k]
    ensures forall k :: k in groups && k !in additional ==> args[k] == groups[k]
  {
    groups + additional
  }

  /**
   * One pass of the loop in `simple_replacement` removes at least two
   * delimiter characters from the text.
   */
  lemma PassDropsDelimiters(text: string, m: Match, keyword: string, shape: ArgShape, substitution: string)
    requires TokenAt(text, m.start, m.end, keyword, shape) && DelimiterFree(substitution)
    ensures DelimCount(Replace(text, text[m.start..m.end], substitution)) + 2 <= DelimCount(text)
  {
    TokenDelimiters(text, m.start, m.end, keyword, shape);
    ReplaceDropsDelimiters(text, text[m.start..m.end], substitution, m.start);
  }

  /**
   * The text `simple_replacement` leaves behind: search for the leftmost
   * token, call the handler with its groups merged with the additional
   * arguments, replace every copy of the matched token by the result, and
   * start over until the search fails.
   */
  function Rewritten(text: string, keyword: string, handler: Handler, shape: ArgShape,
                     additional: map<string, string>): (r: string)
    requires SafeHandler(handler)
    decreases DelimCount(text)
  {
    match Search(text, keyword, shape)
    case None => text
    case Some(m) =>
      SearchSpec(text, keyword, shape);
      var substitution := handler(HandlerArgs(m.groups, additional));
      PassDropsDelimiters(text, m, keyword, shape, substitution);
      Rewritten(Replace(text, text[m.start..m.end], substitution), keyword, handler, shape, additional)
  }

  /** No token of the keyword survives the rewrite. */
  lemma {:induction false} RewrittenTokenFree(text: string, keyword: string, handler: Handler, shape: ArgShape,
                                              additional: map<string, string>)
    requires SafeHandler(handler)
    ensures !HasToken(Rewritten(text, keyword, handler, shape, additional), keyword, shape)
    decreases DelimCount(text)
  {
    SearchSpec(text, keyword, shape);
    match Search(text, keyword, shape)
    case None =>
    case Some(m) =>
      var substitution := handler(HandlerArgs(m.groups, additional));
      PassDropsDelimiters(text, m, keyword, shape, substitution);
      RewrittenTokenFree(Replace(text, text[m.start..m.end], substitution), keyword, handler, shape, additional);
  }

  /** Text without a token of the keyword comes back unchanged. */
  lemma RewrittenUnchanged(text: string, keyword: string, handler: Handler, shape: ArgShape,
                           additional: map<string, string>)
    requires SafeHandler(handler) && !HasToken(text, keyword, shape)
    ensures Rewritten(text, keyword, handler, shape, additional) == text
  {
  }

  /** A registered keyword: its name, its argument pattern and its substitution. */
  datatype Rule = Rule(keyword: string, shape: ArgShape, handler: Handler)

  /** The substitution functions `execute` takes from its `RepoDetails` object. */
  datatype Handlers = Handlers(
    branchName: Handler,
    modificationCount: Handler,
    commitNumber: Handler,
    commitDatetime: Handler,
    currentDatetime: Handler,
    sha: Handler,
    hasModifications: Handler,
    version: Handler)

  ghost predicate SafeHandlers(h: Handlers)
  {
    SafeHandler(h.branchName) && SafeHandler(h.modificationCount) && SafeHandler(h.commitNumber) &&
    SafeHandler(h.commitDatetime) && SafeHandler(h.currentDatetime) && SafeHandler(h.sha) &&
    SafeHandler(h.hasModifications) && SafeHandler(h.version)
  }

  ghost predicate SafeRules(rules: seq<Rule>)
  {
    forall k :: 0 <= k < |rules| ==> SafeHandler(rules[k].handler)
  }

  /** The keywords of `execute`, in the order it replaces them. */
  function Registry(h: Handlers): (rules: seq<Rule>)
    ensures |rules| == 8
    ensures SafeHandlers(h) ==> SafeRules(rules)
  {
    [ Rule("GITBRANCHNAME", NoArg, h.branchName),
      Rule("GITMODCOUNT", NoArg, h.modificationCount),
      Rule("GITCOMMITNUMBER", NoArg, h.commitNumber),
      Rule("GITCOMMITDATE", Greedy("datetime_format"), h.commitDatetime),
      Rule("GITBUILDDATE", Greedy("datetime_format"), h.currentDatetime),
      Rule("GITHASH", Greedy("num_chars"), h.sha),
      Rule("GITMODS", Choice("true_value", "false_value"), h.hasModifications),
      Rule("GITVERSION", Greedy("separator"), h.version) ]
  }

  /** `simple_replacement` with a rule's keyword, handler and pattern and no additional arguments. */
  function Apply(text: string, rule: Rule): (r: string)
    requires SafeHandler(rule.handler)
  {
    Rewritten(text, rule.keyword, rule.handler, rule.shape, map[])
  }

  /**
   * The rules applied one after the other, each to the text the previous
   * ones left; no pass adds a delimiter character.
   */
  function Pipeline(text: string, rules: seq<Rule>): (r: string)
    requires SafeRules(rules)
    decreases |rules|
  {
    if rules == [] then text
    else Apply(Pipeline(text, rules[..|rules| - 1]), rules[|rules| - 1])
  }

  /** After the last rule no token of its keyword remains. */
  lemma PipelineTokenFree(text: string, rules: seq<Rule>)
    requires SafeRules(rules) && rules != []
    ensures !HasToken(Pipeline(text, rules), rules[|rules| - 1].keyword, rules[|rules| - 1].shape)
  {
    var last := rules[|rules| - 1];
    RewrittenTokenFree(Pipeline(text, rules[..|rules| - 1]), last.keyword, last.handler, last.shape, map[]);
  }

  /** Running the rules of `a + b` is running those of `a`, then those of `b` on the result. */
  lemma {:induction false} PipelineAppend(text: string, a: seq<Rule>, b: seq<Rule>)
    requires SafeRules(a) && SafeRules(b)
    ensures SafeRules(a + b) && Pipeline(text, a + b) == Pipeline(Pipeline(text, a), b)
    decreases |b|
  {
    if b == [] {
      assert a + b == a;
    } else {
      assert (a + b)[..|a + b| - 1] == a + b[..|b| - 1];
      PipelineAppend(text, a, b[..|b| - 1]);
    }
  }

  /**
   * The eight passes of `execute`, each over the text the previous one left,
   * are the registry's pipeline.
   */
  lemma ExecutePipeline(h: Handlers, t0: string, t1: string, t2: string, t3: string, t4: string,
                        t5: string, t6: string, t7: string, t8: string)
    requires SafeHandlers(h)
    requires t1 == Rewritten(t0, "GITBRANCHNAME", h.branchName, NoArg, map[])
    requires t2 == Rewritten(t1, "GITMODCOUNT", h.modificationCount, NoArg, map[])
    requires t3 == Rewritten(t2, "GITCOMMITNUMBER", h.commitNumber, NoArg, map[])
    requires t4 == Rewritten(t3, "GITCOMMITDATE", h.commitDatetime, Greedy("datetime_format"), map[])
    requires t5 == Rewritten(t4, "GITBUILDDATE", h.currentDatetime, Greedy("datetime_format"), map[])
    requires t6 == Rewritten(t5, "GITHASH", h.sha, Greedy("num_chars"), map[])
    requires t7 == Rewritten(t6, "GITMODS", h.hasModifications, Choice("true_value", "false_value"), map[])
    requires t8 == Rewritten(t7, "GITVERSION", h.version, Greedy("separator"), map[])
    ensures Pipeline(t0, Registry(h)) == t8
  {
    var r := Registry(h);
    var ts := [t0, t1, t2, t3, t4, t5, t6, t7, t8];
    forall k | 0 <= k < 8
      ensures SafeHandler(r[k].handler) && ts[k + 1] == Apply(ts[k], r[k])
    {
      if k == 0 {
      } else if k == 1 {
      } else if k == 2 {
      } else if k == 3 {
      } else if k == 4 {
      } else if k == 5 {
      } else if k == 6 {
      } else {
      }
    }
    PipelineSteps(r, ts);
  }

  /**
   * Rules applied one pass at a time, `texts[k + 1]` the output of rule `k`
   * on `texts[k]`, end in the pipeline's output.
   */
  lemma {:induction false} PipelineSteps(rules: seq<Rule>, texts: seq<string>)
    requires |texts| == |rules| + 1
    requires forall k :: 0 <= k < |rules| ==>
               SafeHandler(rules[k].handler) && texts[k + 1] == Apply(texts[k], rules[k])
    ensures SafeRules(rules) && Pipeline(texts[0], rules) == texts[|rules|]
    decreases |rules|
  {
    if rules != [] {
      var n := |rules|;
      PipelineSteps(rules[..n - 1], texts[..n]);
    }
  }

  /** `!A!CD!B!` holds no token of `AB`: its only `A` is followed by a delimiter. */
  lemma NoTokenInExample()
    ensures !HasToken("!A!CD!B!", "AB", NoArg)
  {
    var t := "!A!CD!B!";
    forall i, j ensures !TokenAt(t, i, j, "AB", NoArg) {
      if 0 <= i && i + 3 <= |t| {
        assert t[i + 1..i + 3][0] == t[i + 1] && t[i + 1..i + 3][1] == t[i + 2];
      }
    }
  }

  /** `!AB!` holds no token of `CD`: it has no `C`. */
  lemma NoTokenInJoined()
    ensures !HasToken("!AB!", "CD", NoArg)
  {
    var u := "!AB!";
    forall i, j ensures !TokenAt(u, i, j, "CD", NoArg) {
      if 0 <= i && i + 3 <= |u| {
        assert u[i + 1..i + 3][0] == u[i + 1];
      }
    }
  }

  /** The search for `CD` in `!A!CD!B!` finds `!CD!` at index 2. */
  lemma SearchInExample()
    ensures Search("!A!CD!B!", "CD", NoArg) == Some(Match(2, 6, map[]))
  {
    var t := "!A!CD!B!";
    assert t[1..3][0] == 'A' && t[3..5] == "CD";
    assert TokenEndAt(t, 0, "CD", NoArg) == None;
    assert TokenEndAt(t, 1, "CD", NoArg) == None;
    assert TokenEndAt(t, 2, "CD", NoArg) == Some(6);
  }

  /** Erasing `!CD!` from `!A!CD!B!` joins the rest into `!AB!`. */
  lemma ReplaceInExample()
    ensures Replace("!A!CD!B!", "!CD!", "") == "!AB!"
  {
    var t := "!A!CD!B!";
    assert t == "!A" + "!CD!" + "B!";
    forall i | 0 <= i < 2 ensures !OccursAt(t, "!CD!", i) {
      assert t[i..i + 4][1 - i] == 'A';
    }
    ReplaceFirstOccurrence(t, "!A", "!CD!", "B!", "");
  }

  /**
   * A later pass can bring back a token of an earlier keyword: erasing the
   * token `!CD!` joins `!A` and `B!` into the token `!AB!`, which the pass
   * for `AB` had nothing to replace in before. This is why only the last
   * rule's keyword is promised to be gone.
   */
  lemma LaterPassRecreatesToken(erase: Handler)
    requires forall args :: erase(args) == ""
    ensures var rules := [Rule("AB", NoArg, erase), Rule("CD", NoArg, erase)];
      && SafeRules(rules)
      && !HasToken("!A!CD!B!", "AB", NoArg)
      && Pipeline("!A!CD!B!", rules) == "!AB!"
      && HasToken("!AB!", "AB", NoArg)
  {
    var first, second := Rule("AB", NoArg, erase), Rule("CD", NoArg, erase);
    NoTokenInExample();
    KeepInExample(erase);
    EraseInExample(erase);
    PipelineOfTwo("!A!CD!B!", first, second);
    JoinedHasToken();
  }

  /** Two rules: the second pass runs over the output of the first. */
  lemma PipelineOfTwo(text: string, first: Rule, second: Rule)
    requires SafeHandler(first.handler) && SafeHandler(second.handler)
    ensures SafeRules([first, second]) && Pipeline(text, [first, second]) == Apply(Apply(text, first), second)
  {
    var rules := [first, second];
    assert rules[..1] == [first] && [first][..0] == [];
    assert Pipeline(text, [first]) == Apply(text, first);
    assert Pipeline(text, rules) == Apply(Pipeline(text, [first]), second);
  }

  /** The pass for `AB` leaves `!A!CD!B!` as it is. */
  lemma KeepInExample(erase: Handler)
    requires forall args :: erase(args) == ""
    ensures SafeHandler(erase) && Apply("!A!CD!B!", Rule("AB", NoArg, erase)) == "!A!CD!B!"
  {
    assert SafeHandler(erase);
    NoTokenInExample();
    RewrittenUnchanged("!A!CD!B!", "AB", erase, NoArg, map[]);
  }

  /** The pass for `CD` with an erasing handler turns `!A!CD!B!` into `!AB!`. */
  lemma EraseInExample(erase: Handler)
    requires forall args :: erase(args) == ""
    ensures SafeHandler(erase) && Apply("!A!CD!B!", Rule("CD", NoArg, erase)) == "!AB!"
  {
    var t, u := "!A!CD!B!", "!AB!";
    assert SafeHandler(erase);
    SearchInExample();
    assert t[2..6] == "!CD!";
    ReplaceInExample();
    NoTokenInJoined();
    RewrittenUnchanged(u, "CD", erase, NoArg, map[]);
  }

  /** `!AB!` is a token of `AB`. */
  lemma JoinedHasToken()
    ensures HasToken("!AB!", "AB", NoArg)
  {
    var u := "!AB!";
    assert u[1..3] == "AB";
    assert TokenAt(u, 0, 4, "AB", NoArg);
  }

  /** Text without a token of any of the rules' keywords passes through unchanged. */
  lemma {:induction false} PipelineUnchanged(text: string, rules: seq<Rule>)
    requires SafeRules(rules)
    requires forall k :: 0 <= k < |rules| ==> !HasToken(text, rules[k].keyword, rules[k].shape)
    ensures Pipeline(text, rules) == text
    decreases |rules|
  {
    if rules != [] {
      var last := rules[|rules| - 1];
      PipelineUnchanged(text, rules[..|rules| - 1]);
      RewrittenUnchanged(text, last.keyword, last.handler, last.shape, map[]);
    }
  }

  class KeywordReplacer {
    var text: string
    const repoDetails: Handlers

    constructor (text: string, repoDetails: Handlers)
      ensures this.text == text && this.repoDetails == repoDetails
    {
      this.text := text;
      this.repoDetails := repoDetails;
    }

    /**
     * `simple_replacement`: `keywordArgPattern` is the argument pattern and
     * an absent `additional_args` is the empty map.
     */
    method SimpleReplacement(keyword: string, substitution: Handler, keywordArgPattern: ArgShape := NoArg,
                             additionalArgs: map<string, string> := map[])
      requires SafeHandler(substitution)
      modifies this
      ensures text == Rewritten(old(text), keyword, substitution, keywordArgPattern, additionalArgs)
      ensures !HasToken(text, keyword, keywordArgPattern)
    {
      while true
        invariant Rewritten(text, keyword, substitution, keywordArgPattern, additionalArgs)
               == Rewritten(old(text), keyword, substitution, keywordArgPattern, additionalArgs)
        decreases DelimCount(text)
      {
        var found := Search(text, keyword, keywordArgPattern);
        SearchSpec(text, keyword, keywordArgPattern);
        if found.None? {
          break;
        }
        var m := found.value;
        var args := HandlerArgs(m.groups, additionalArgs);
        var replacement := substitution(args);
        PassDropsDelimiters(text, m, keyword, keywordArgPattern, replacement);
        text := Replace(text, text[m.start..m.end], replacement);
      }
      RewrittenTokenFree(old(text), keyword, substitution, keywordArgPattern, additionalArgs);
    }

    /** `execute`: the eight keywords in their fixed order, then the final text. */
    method Execute() returns (r: string)
      requires SafeHandlers(repoDetails)
      modifies this
      ensures r == text == Pipeline(old(text), Registry(repoDetails))
    {
      ghost var t0 := text;
      SimpleReplacement("GITBRANCHNAME", repoDetails.branchName);
      ghost var t1 := text;
      SimpleReplacement("GITMODCOUNT", repoDetails.modificationCount);
      ghost var t2 := text;
      SimpleReplacement("GITCOMMITNUMBER", repoDetails.commitNumber);
      ghost var t3 := text;
      SimpleReplacement("GITCOMMITDATE", repoDetails.commitDatetime, Greedy("datetime_format"));
      ghost var t4 := text;
      SimpleReplacement("GITBUILDDATE", repoDetails.currentDatetime, Greedy("datetime_format"));
      ghost var t5 := text;
      SimpleReplacement("GITHASH", repoDetails.sha, Greedy("num_chars"));
      ghost var t6 := text;
      SimpleReplacement("GITMODS", repoDetails.hasModifications, Choice("true_value", "false_value"));
      ghost var t7 := text;
      SimpleReplacement("GITVERSION", repoDetails.version, Greedy("separator"));
      ExecutePipeline(repoDetails, t0, t1, t2, t3, t4, t5, t6, t7, text);
      r := text;
    }
  }

  /** The template read, the file written and the backup of the previous output. */
  datatype FileNames = FileNames(input: string, output: string, backup: string)

  /**
   * The names `main` derives from the template argument: the input always
   * ends in `.git` (added when missing), the output is the input without it
   * and the backup is the output with `.bak` appended.
   */
  function DerivedFileNames(template: string): (r: FileNames)
    ensures EndsWith(r.input, ".git")
    ensures r.input == r.output + ".git"
    ensures r.backup == r.output + ".bak"
    ensures EndsWith(template, ".git") ==> r.input == template
    ensures !EndsWith(template, ".git") ==> r.output == template
  {
    var input := if EndsWith(template, ".git") then template else template + ".git";
    var output := input[..|input| - |".git"|];
    assert input == output + ".git";
    FileNames(input, output, output + ".bak")
  }
}
