/**
 The Conventional Commits check of pkg/cmd/check/check.go: the classifier
 IsCommitConventional and the verdict that Run draws from it over the new
 commits of the current branch.

 A message is normalized (ASCII lower-cased, white space trimmed). It passes
 when it mentions "revert" or "merge" anywhere; otherwise the text before
 its first colon must be non-empty and start with one of ten type keywords.
 */
module Check {
  import opened Results
  import opened Strings
  import Git

  /** The recognised type keywords, in the source's order. */
  const ConventionalCommitTypes: seq<string> :=
    ["feat", "fix", "perf", "refactor", "docs", "test", "revert", "style", "chore", "build"]

  /* ---------------------------------------------------------------------- */
  /* What the classifier decides, stated without Index or the keyword loop   */
  /* ---------------------------------------------------------------------- */

  /** `w` occurs somewhere in `n`. */
  ghost predicate Mentions(n: string, w: string) {
    exists j :: OccursAt(n, w, j)
  }

  /** `i` is the position of the first colon of `n`. */
  ghost predicate FirstColon(n: string, i: int) {
    0 <= i < |n| && n[i] == ':' && forall j :: 0 <= j < i ==> n[j] != ':'
  }

  /** Some keyword of `types` is a prefix of `token`. */
  ghost predicate HasType(token: string, types: seq<string>) {
    exists k :: 0 <= k < |types| && HasPrefix(token, types[k])
  }

  /** A normalized message passes: it mentions revert or merge, or the
      non-empty text before its first colon starts with a keyword. */
  ghost predicate Conventional(n: string, types: seq<string>) {
    || Mentions(n, "revert")
    || Mentions(n, "merge")
    || exists i {:trigger FirstColon(n, i)} :: FirstColon(n, i) && i > 0 && HasType(n[..i], types)
  }

  /* ---------------------------------------------------------------------- */
  /* The classifier                                                          */
  /* ---------------------------------------------------------------------- */

  /** The form of a message the classifier looks at. */
  function Normalize(message: string): (n: string)
    ensures |n| <= |message|
    ensures Trimmed(n)
    ensures forall i :: 0 <= i < |n| ==> !IsUpperAscii(n[i])
  {
    var l := ToLower(message);
    TrimLeftSuffix(l);
    TrimRightPrefix(TrimLeft(l));
    TrimSpace(l)
  }

  /** The loop over the keyword list. */
  function StartsWithType(token: string, types: seq<string>): (r: bool)
    ensures r <==> HasType(token, types)
    decreases |types|
  {
    if |types| == 0 then false
    else if HasPrefix(token, types[0]) then true
    else
      var r := StartsWithType(token, types[1..]);
      assert forall k :: 1 <= k < |types| ==> types[k] == types[1..][k - 1];
      r
  }

  /** strings.Index(n, ":") is the first colon, when there is one. */
  lemma IndexIsFirstColon(n: string)
    ensures Index(n, ":") >= 0 ==> FirstColon(n, Index(n, ":"))
    ensures forall i :: FirstColon(n, i) ==> i == Index(n, ":")
  {
    forall j ensures OccursAt(n, ":", j) <==> 0 <= j < |n| && n[j] == ':' {
      OccursAtChar(n, ':', j);
    }
  }

  /** The decision on a normalized message, for a given keyword list. */
  function ClassifyNormalized(n: string, types: seq<string>): (r: bool)
    ensures r <==> Conventional(n, types)
  {
    if Contains(n, "revert") || Contains(n, "merge") then true
    else
      var idx := Index(n, ":");
      IndexIsFirstColon(n);
      idx > 0 && StartsWithType(n[..idx], types)
  }

  /** IsCommitConventional (check.go:124-142). */
  function IsCommitConventional(message: string): (r: bool)
    ensures r <==> Conventional(Normalize(message), ConventionalCommitTypes)
  {
    ClassifyNormalized(Normalize(message), ConventionalCommitTypes)
  }

  /* ---------------------------------------------------------------------- */
  /* Properties of the classifier                                            */
  /* ---------------------------------------------------------------------- */

  /** Lower-casing leaves white space and colons where they were. */
  lemma LowerKeeps(s: string)
    ensures AllSpace(s) ==> AllSpace(ToLower(s))
    ensures forall i :: 0 <= i < |s| ==> (ToLower(s)[i] == ':' <==> s[i] == ':')
  {
  }

  /** Padding a message with white space does not change its classification. */
  lemma ClassifyIgnoresPadding(a: string, m: string, b: string)
    requires AllSpace(a) && AllSpace(b)
    ensures IsCommitConventional(a + m + b) == IsCommitConventional(m)
  {
    LowerConcat(a + m, b);
    LowerConcat(a, m);
    LowerKeeps(a);
    LowerKeeps(b);
    TrimSpacePadded(ToLower(a), ToLower(m), ToLower(b));
  }

  /** Upper-casing a message does not change its classification. */
  lemma ClassifyIgnoresCase(m: string)
    ensures IsCommitConventional(ToUpper(m)) == IsCommitConventional(m)
  {
    LowerOfUpper(m);
  }

  /** A message whose lower-cased form mentions "revert" or "merge" passes,
      whatever its prefix and whether or not it has a colon. */
  lemma RevertOrMergePasses(m: string)
    requires Contains(ToLower(m), "revert") || Contains(ToLower(m), "merge")
    ensures IsCommitConventional(m)
  {
    var l := ToLower(m);
    if Contains(l, "revert") {
      var j :| OccursAt(l, "revert", j);
      TrimKeepsWord(l, "revert", j);
    } else {
      var j :| OccursAt(l, "merge", j);
      TrimKeepsWord(l, "merge", j);
    }
  }

  /** Trimming keeps only characters of the lower-cased message. */
  lemma NormalizeHasNoNewColon(m: string)
    requires ':' !in m
    ensures ':' !in Normalize(m)
  {
    var l := ToLower(m);
    LowerKeeps(m);
    assert ':' !in l;
    var left := TrimLeft(l);
    TrimLeftSuffix(l);
    assert ':' !in left;
    TrimRightPrefix(left);
    assert Normalize(m) == TrimRight(left);
  }

  /** Without a colon, a message that mentions neither revert nor merge fails. */
  lemma NoColonFails(m: string)
    requires ':' !in m
    requires !Contains(Normalize(m), "revert") && !Contains(Normalize(m), "merge")
    ensures !IsCommitConventional(m)
  {
    NormalizeHasNoNewColon(m);
  }

  /** A message already in normal form, without a colon and mentioning
      neither revert nor merge, fails. */
  lemma PlainMessageFails(m: string)
    requires forall i :: 0 <= i < |m| ==> !IsUpperAscii(m[i])
    requires Trimmed(m)
    requires ':' !in m
    requires !Contains(m, "revert") && !Contains(m, "merge")
    ensures !IsCommitConventional(m)
  {
    NormalFormFixed(m);
    NoColonFails(m);
  }

  /** A normalized message that starts with its colon (an empty type) fails
      unless it mentions revert or merge. */
  lemma EmptyTypeFails(m: string)
    requires |Normalize(m)| > 0 && Normalize(m)[0] == ':'
    requires !Contains(Normalize(m), "revert") && !Contains(Normalize(m), "merge")
    ensures !IsCommitConventional(m)
  {
    IndexIsFirstColon(Normalize(m));
    assert FirstColon(Normalize(m), 0);
  }

  /** Every keyword is lower-case letters, so it contains no colon and starts
      and ends with a non-space character. */
  lemma KeywordsAreWords(k: int)
    requires 0 <= k < |ConventionalCommitTypes|
    ensures var t := ConventionalCommitTypes[k];
      |t| > 0 && forall i :: 0 <= i < |t| ==> IsLowerAscii(t[i])
  {
  }

  /** The ten keywords are distinct, so the list is a set of ten types. */
  lemma KeywordsDistinct()
    ensures |ConventionalCommitTypes| == 10
    ensures forall i, j :: 0 <= i < j < |ConventionalCommitTypes| ==>
              ConventionalCommitTypes[i] != ConventionalCommitTypes[j]
  {
  }

  /** Matching is by prefix: a message that lower-cases to a keyword, then any
      colon-free text (a scope such as "(readme)", or more letters), then a
      colon, passes. */
  lemma KeywordPrefixPasses(m: string, k: int, scope: string, rest: string)
    requires 0 <= k < |ConventionalCommitTypes|
    requires ':' !in scope
    requires ToLower(m) == ConventionalCommitTypes[k] + scope + ":" + rest
    ensures IsCommitConventional(m)
  {
    var t := ConventionalCommitTypes[k];
    KeywordsAreWords(k);
    var p := t + scope + ":";
    var l := ToLower(m);
    assert l == p + rest;
    assert HasPrefix(l, p);
    assert !IsSpace(p[0]) by { assert p[0] == t[0]; }
    TrimKeepsPrefix(l, p);
    var n := Normalize(m);
    assert n[..|p|] == p;
    var i := |t + scope|;
    assert ':' !in t by {
      assert forall j :: 0 <= j < |t| ==> t[j] != ':';
    }
    assert FirstColon(n, i) by {
      forall j | 0 <= j < i ensures n[j] != ':' {
        assert n[j] == (t + scope)[j];
      }
      assert n[i] == p[i];
    }
    assert n[..i] == t + scope;
    assert HasPrefix(n[..i], t);
  }

  /** The same, for a message whose keyword is written in any case: a
      keyword, a colon-free scope, a colon and anything after it. */
  lemma TypedMessagePasses(word: string, k: int, scope: string, rest: string)
    requires 0 <= k < |ConventionalCommitTypes|
    requires ToLower(word) == ConventionalCommitTypes[k]
    requires ':' !in scope
    ensures IsCommitConventional(word + scope + ":" + rest)
  {
    var m := word + scope + ":" + rest;
    LowerConcat(word + scope + ":", rest);
    LowerConcat(word + scope, ":");
    LowerConcat(word, scope);
    LowerKeeps(scope);
    assert ToLower(":") == ":";
    KeywordPrefixPasses(m, k, ToLower(scope), ToLower(rest));
  }

  /** "revert" as a type keyword never decides anything: a type token that
      starts with "revert" already makes the message exempt. */
  lemma RevertTypeIsSubsumed(n: string)
    ensures ClassifyNormalized(n, ConventionalCommitTypes)
         == ClassifyNormalized(n, ConventionalCommitTypes[..6] + ConventionalCommitTypes[7..])
  {
    var types := ConventionalCommitTypes;
    var others := types[..6] + types[7..];
    if exists i :: FirstColon(n, i) && i > 0 && HasType(n[..i], types) {
      var i :| FirstColon(n, i) && i > 0 && HasType(n[..i], types);
      var k :| 0 <= k < |types| && HasPrefix(n[..i], types[k]);
      if k == 6 {
        assert n[..i][..6] == n[0..0 + 6];
        assert OccursAt(n, "revert", 0);
      } else if k < 6 {
        assert others[k] == types[k];
      } else {
        assert others[k - 1] == types[k];
      }
    }
    if exists i :: FirstColon(n, i) && i > 0 && HasType(n[..i], others) {
      var i :| FirstColon(n, i) && i > 0 && HasType(n[..i], others);
      var k :| 0 <= k < |others| && HasPrefix(n[..i], others[k]);
      if k < 6 {
        assert others[k] == types[k];
      } else {
        assert others[k] == types[k + 1];
      }
    }
  }

  /** A message already in normal form is its own normal form. */
  lemma NormalFormFixed(m: string)
    requires forall i :: 0 <= i < |m| ==> !IsUpperAscii(m[i])
    requires Trimmed(m)
    ensures Normalize(m) == m
  {
    assert ToLower(m) == m;
    TrimSpaceUnique([], m, []);
    assert [] + m + [] == m;
  }

  /* ---------------------------------------------------------------------- */
  /* The verdict of Run                                                      */
  /* ---------------------------------------------------------------------- */

  datatype CheckError =
      /** GetNewCommits failed ("failed to get commits"). */
    | FailedToGetCommits(cause: Git.GitError)
      /** This many commits did not follow the convention. */
    | NotConventional(failed: nat)

  datatype Outcome = Pass | Fail(error: CheckError)

  /** The classifier's verdict on each commit, in order. */
  function Verdicts(commits: seq<Git.Commit>): (ok: seq<bool>)
    ensures |ok| == |commits|
  {
    seq(|commits|, i requires 0 <= i < |commits| => IsCommitConventional(commits[i].message))
  }

  /** The positions among the first `n` verdicts that are failures. */
  ghost function FailedBelow(ok: seq<bool>, n: int): set<int>
  {
    set i | 0 <= i < n && i < |ok| && !ok[i]
  }

  lemma FailedBelowStep(ok: seq<bool>, i: int)
    requires 0 <= i < |ok|
    ensures |FailedBelow(ok, i + 1)| == |FailedBelow(ok, i)| + (if ok[i] then 0 else 1)
  {
    var before := FailedBelow(ok, i);
    assert i !in before;
    if ok[i] {
      assert FailedBelow(ok, i + 1) == before;
    } else {
      assert FailedBelow(ok, i + 1) == before + {i};
    }
  }

  /** Counting no failures means every verdict passed. */
  lemma NoneFailed(ok: seq<bool>)
    ensures |FailedBelow(ok, |ok|)| == 0 <==> forall i :: 0 <= i < |ok| ==> ok[i]
  {
    if exists i :: 0 <= i < |ok| && !ok[i] {
      var i :| 0 <= i < |ok| && !ok[i];
      assert i in FailedBelow(ok, |ok|);
    }
  }

  /** The counting loop and the final decision of Run (check.go:76-97): the
      count is the number of failing commits, and the check fails exactly
      when some commit fails. */
  method CheckCommits(commits: seq<Git.Commit>) returns (r: Outcome)
    ensures r == Pass <==> forall i :: 0 <= i < |commits| ==> Verdicts(commits)[i]
    ensures r != Pass ==> r == Fail(NotConventional(|FailedBelow(Verdicts(commits), |commits|)|))
  {
    ghost var ok := Verdicts(commits);
    var failedCommits: nat := 0;
    for i := 0 to |commits|
      invariant failedCommits == |FailedBelow(ok, i)|
    {
      FailedBelowStep(ok, i);
      if !IsCommitConventional(commits[i].message) {
        failedCommits := failedCommits + 1;
      }
    }
    NoneFailed(ok);
    if failedCommits > 0 {
      r := Fail(NotConventional(failedCommits));
    } else {
      r := Pass;
    }
  }

  /** Run after validation: fetch the new commits and check them. */
  method Run(git: Git.GitRunner) returns (r: Outcome)
    ensures Git.GetNewCommits(git).Err? ==> r == Fail(FailedToGetCommits(Git.GetNewCommits(git).error))
    ensures Git.GetNewCommits(git).Ok? ==>
      var commits := Git.GetNewCommits(git).value;
      && (r == Pass <==> forall i :: 0 <= i < |commits| ==> Verdicts(commits)[i])
      && (r != Pass ==> r == Fail(NotConventional(|FailedBelow(Verdicts(commits), |commits|)|)))
  {
    match Git.GetNewCommits(git)
    case Err(e) =>
      r := Fail(FailedToGetCommits(e));
    case Ok(commits) =>
      r := CheckCommits(commits);
  }
}
