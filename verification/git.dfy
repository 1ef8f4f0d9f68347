/**
 The text processing of pkg/helpers/git.go. Every git invocation is an
 oracle `GitRunner` from the argument list to git's standard output (None
 when git fails). What the package does with that output is modelled as Go
 computes it, except that `git show` output with fewer than three lines is
 the error ShowOutputTooShort where Go indexes past the end and panics:
 - the default branch chosen from `git ls-remote --symref origin HEAD`
 - the SHAs kept from `git cherry origin/<branch>` (lines marked `+`)
 - the commit parsed from `git show --quiet <sha> --format=%H%n%s%n%ai`
 - the lookup of a list of SHAs, aborting on the first failure
 */
module Git {
  import opened Results
  import opened Strings

  /** One commit as `git show` reports it: the full SHA, the subject line and the author date. */
  datatype Commit = Commit(sha: string, message: string, date: string)

  /** Runs git with the given arguments in the repository directory. */
  type GitRunner = seq<string> -> Option<string>

  datatype GitError =
      /** The git invocation with these arguments failed ("running git"). */
    | RunningGit(args: seq<string>)
      /** `git show` printed fewer than three lines; the Go code indexes past the end here. */
    | ShowOutputTooShort(sha: string)

  const LsRemoteArgs: seq<string> := ["ls-remote", "--symref", "origin", "HEAD"]

  function CherryArgs(branch: string): seq<string> {
    ["cherry", "origin/" + branch]
  }

  function ShowArgs(sha: string): seq<string> {
    ["show", "--quiet", sha, "--format=%H%n%s%n%ai"]
  }

  /* ---------------------------------------------------------------------- */
  /* Default branch                                                          */
  /* ---------------------------------------------------------------------- */

  /** The branch name chosen from the ls-remote output: "main" exactly when
      the text "main" occurs anywhere in it, "master" otherwise. */
  function BranchFromLsRemote(out: string): (branch: string)
    ensures branch == "main" || branch == "master"
    ensures branch == "main" <==> exists i :: OccursAt(out, "main", i)
  {
    if Contains(out, "main") then "main" else "master"
  }

  /** getDefaultBranchName: fails only when git fails, and then with the ls-remote call. */
  function GetDefaultBranchName(git: GitRunner): (r: Result<string, GitError>)
    ensures r.Err? <==> git(LsRemoteArgs).None?
    ensures r.Err? ==> r.error == RunningGit(LsRemoteArgs)
    ensures r.Ok? ==> r.value == "main" || r.value == "master"
  {
    match git(LsRemoteArgs)
    case None => Err(RunningGit(LsRemoteArgs))
    case Some(out) => Ok(BranchFromLsRemote(out))
  }

  predicate IsHexDigit(c: char) {
    '0' <= c <= '9' || 'a' <= c <= 'f'
  }

  /** A commit name as git prints it: non-empty lower-case hexadecimal. */
  predicate ValidSha(s: string) {
    |s| > 0 && forall i :: 0 <= i < |s| ==> IsHexDigit(s[i])
  }

  /** What `git ls-remote --symref origin HEAD` prints for a remote whose HEAD
      is the branch `branch` at commit `sha`. */
  function SymrefOutput(branch: string, sha: string): string {
    "ref: refs/heads/" + branch + "\tHEAD\n" + sha + "\tHEAD\n"
  }

  /** Git's commit names never hold a newline, a `+` or an `m`. */
  lemma ShaChars(sha: string)
    requires ValidSha(sha)
    ensures '\n' !in sha && '+' !in sha && 'm' !in sha
  {
    assert forall k :: 0 <= k < |sha| ==> IsHexDigit(sha[k]);
  }

  /** An occurrence of "main" in `a + b + c` lies wholly inside `b` when
      neither `a` nor `c` holds an `m` and `c` starts with a tab. */
  lemma MainInsideMiddle(a: string, b: string, c: string, i: int)
    requires 'm' !in a && 'm' !in c && |c| > 0 && c[0] == '\t'
    requires OccursAt(a + b + c, "main", i)
    ensures OccursAt(b, "main", i - |a|)
  {
    var s := a + b + c;
    assert s[i] == 'm' by {
      assert s[i..i + 4][0] == "main"[0];
    }
    assert forall k :: 0 <= k < 4 ==> s[i + k] == "main"[k];
    assert s[|a| + |b|] == '\t';
    if i < |a| {
      assert false;
    }
    if i >= |a| + |b| {
      assert false;
    }
    forall p | i <= p < i + 4
      ensures s[p] != '\t'
    {
      assert s[p] == s[i..i + 4][p - i];
    }
    assert i + 4 <= |a| + |b|;
    assert b[i - |a|..i - |a| + 4] == s[i..i + 4];
  }

  /** The ls-remote output split around the branch name. */
  lemma SymrefParts(branch: string, sha: string)
    ensures SymrefOutput(branch, sha) == "ref: refs/heads/" + branch + ("\tHEAD\n" + sha + "\tHEAD\n")
  {
  }

  /** A "main" in the branch name is a "main" in the output. */
  lemma SymrefShowsBranch(branch: string, sha: string, j: int)
    requires OccursAt(branch, "main", j)
    ensures Contains(SymrefOutput(branch, sha), "main")
  {
    var a := "ref: refs/heads/";
    var s := SymrefOutput(branch, sha);
    SymrefParts(branch, sha);
    assert s[|a|..|a| + |branch|] == branch;
    OccursInSlice(s, |a|, |a| + |branch|, "main", j);
  }

  /** A "main" in the output lies in the branch name. */
  lemma SymrefHidesRest(branch: string, sha: string, i: int)
    requires ValidSha(sha)
    requires OccursAt(SymrefOutput(branch, sha), "main", i)
    ensures Contains(branch, "main")
  {
    var a := "ref: refs/heads/";
    var c := "\tHEAD\n" + sha + "\tHEAD\n";
    SymrefParts(branch, sha);
    ShaChars(sha);
    assert 'm' !in a;
    assert 'm' !in c;
    MainInsideMiddle(a, branch, c, i);
  }

  /** On real ls-remote output the choice is "main" exactly when the remote's
      HEAD branch name contains "main" (so "domain" counts, "master" does not). */
  lemma DefaultBranchOfSymref(branch: string, sha: string)
    requires ValidSha(sha)
    ensures BranchFromLsRemote(SymrefOutput(branch, sha)) == "main" <==> Contains(branch, "main")
  {
    var s := SymrefOutput(branch, sha);
    if Contains(branch, "main") {
      var j :| OccursAt(branch, "main", j);
      SymrefShowsBranch(branch, sha, j);
    }
    if Contains(s, "main") {
      var i :| OccursAt(s, "main", i);
      SymrefHidesRest(branch, sha, i);
    }
  }

  /* ---------------------------------------------------------------------- */
  /* New commits from `git cherry`                                           */
  /* ---------------------------------------------------------------------- */

  /** What the loop body of GetNewCommits keeps of one line: the line with
      every "+ " deleted when it holds a `+`, nothing otherwise. */
  function KeepLine(line: string): (kept: seq<string>)
    ensures |kept| <= 1
    ensures kept == [] <==> '+' !in line
  {
    ContainsChar(line, '+');
    if Contains(line, "+") then [DeleteAll(line, "+ ")] else []
  }

  /** The line filter of GetNewCommits, over all lines in order. */
  function KeepUnapplied(lines: seq<string>): (shas: seq<string>)
    ensures |shas| <= |lines|
    decreases |lines|
  {
    if |lines| == 0 then [] else KeepLine(lines[0]) + KeepUnapplied(lines[1..])
  }

  /** Nothing is kept exactly when no line holds a `+`. */
  lemma {:induction false} KeepUnappliedNone(lines: seq<string>)
    ensures KeepUnapplied(lines) == [] <==> forall i :: 0 <= i < |lines| ==> '+' !in lines[i]
    decreases |lines|
  {
    if |lines| > 0 {
      KeepUnappliedNone(lines[1..]);
      assert forall i :: 1 <= i < |lines| ==> lines[i] == lines[1..][i - 1];
    }
  }

  /** The filter works line by line: it distributes over concatenation, so the
      relative order of the kept lines is that of the input. */
  lemma {:induction false} KeepUnappliedAppend(a: seq<string>, b: seq<string>)
    ensures KeepUnapplied(a + b) == KeepUnapplied(a) + KeepUnapplied(b)
    decreases |a|
  {
    if |a| > 0 {
      assert (a + b)[0] == a[0];
      assert (a + b)[1..] == a[1..] + b;
      KeepUnappliedAppend(a[1..], b);
    } else {
      assert a + b == b;
    }
  }

  /** Exactly the lines holding a `+` contribute, each as itself minus its "+ ". */
  lemma {:induction false} KeepUnappliedMembers(lines: seq<string>, x: string)
    ensures x in KeepUnapplied(lines) <==>
            exists i :: 0 <= i < |lines| && '+' in lines[i] && x == DeleteAll(lines[i], "+ ")
    decreases |lines|
  {
    if |lines| > 0 {
      ContainsChar(lines[0], '+');
      assert KeepUnapplied(lines) == KeepLine(lines[0]) + KeepUnapplied(lines[1..]);
      KeepUnappliedMembers(lines[1..], x);
      if exists i :: 1 <= i < |lines| && '+' in lines[i] && x == DeleteAll(lines[i], "+ ") {
        var i :| 1 <= i < |lines| && '+' in lines[i] && x == DeleteAll(lines[i], "+ ");
        assert lines[1..][i - 1] == lines[i];
      }
      if x in KeepUnapplied(lines[1..]) {
        var i :| 0 <= i < |lines| - 1 && '+' in lines[1..][i] && x == DeleteAll(lines[1..][i], "+ ");
        assert lines[i + 1] == lines[1..][i];
      }
    }
  }

  /** The SHAs GetNewCommits looks up, given the output of `git cherry`. */
  function NewCommitShas(cherryOut: string): (shas: seq<string>)
    ensures |shas| <= |Split(cherryOut, '\n')|
  {
    KeepUnapplied(Split(cherryOut, '\n'))
  }

  /** One line of `git cherry`: `-` for a commit already upstream, `+` for a new one. */
  datatype CherryEntry = CherryEntry(upstream: bool, commit: Commit)

  function CherryLine(e: CherryEntry): string {
    (if e.upstream then "- " else "+ ") + e.commit.sha
  }

  /** The full output of `git cherry` for these entries, one line each, newline-terminated. */
  function RenderCherry(es: seq<CherryEntry>): string
    decreases |es|
  {
    if |es| == 0 then "" else CherryLine(es[0]) + "\n" + RenderCherry(es[1..])
  }

  /** The entries not yet upstream, in order. */
  function NewEntries(es: seq<CherryEntry>): seq<Commit>
    decreases |es|
  {
    if |es| == 0 then []
    else (if es[0].upstream then [] else [es[0].commit]) + NewEntries(es[1..])
  }

  function Shas(cs: seq<Commit>): seq<string>
    decreases |cs|
  {
    if |cs| == 0 then [] else [cs[0].sha] + Shas(cs[1..])
  }

  /** A SHA holds no "+ ", so deleting "+ " from "+ <sha>" gives the SHA back. */
  lemma StripMark(sha: string)
    requires ValidSha(sha)
    ensures DeleteAll("+ " + sha, "+ ") == sha
  {
    DeleteAllLeading("+ ", sha);
    ShaChars(sha);
    forall j ensures !OccursAt(sha, "+ ", j) {
      if 0 <= j && j + 2 <= |sha| {
        assert sha[j..j + 2][0] == sha[j];
      }
    }
  }

  /** A `+` line is kept as its SHA. */
  lemma KeepNewLine(sha: string)
    requires ValidSha(sha)
    ensures KeepLine("+ " + sha) == [sha]
  {
    var line := "+ " + sha;
    ContainsChar(line, '+');
    assert line[0] == '+';
    StripMark(sha);
  }

  /** A `-` line is dropped. */
  lemma DropUpstreamLine(sha: string)
    requires ValidSha(sha)
    ensures KeepLine("- " + sha) == []
  {
    ShaChars(sha);
    assert '+' !in "- " + sha;
  }

  /** What the line filter makes of one `git cherry` line. */
  lemma CherryLineKept(e: CherryEntry)
    requires ValidSha(e.commit.sha)
    ensures '\n' !in CherryLine(e)
    ensures KeepUnapplied([CherryLine(e)]) == if e.upstream then [] else [e.commit.sha]
  {
    var line := CherryLine(e);
    ShaChars(e.commit.sha);
    assert '\n' !in line;
    var lines: seq<string> := [line];
    assert |lines[1..]| == 0;
    assert KeepUnapplied(lines) == KeepLine(line);
    if e.upstream {
      DropUpstreamLine(e.commit.sha);
    } else {
      KeepNewLine(e.commit.sha);
    }
  }

  /** The first line of `git cherry` output is filtered on its own. */
  lemma CherryStep(es: seq<CherryEntry>)
    requires |es| > 0 && ValidSha(es[0].commit.sha)
    ensures NewCommitShas(RenderCherry(es))
         == KeepUnapplied([CherryLine(es[0])]) + NewCommitShas(RenderCherry(es[1..]))
  {
    var line := CherryLine(es[0]);
    var rest := RenderCherry(es[1..]);
    CherryLineKept(es[0]);
    assert RenderCherry(es) == line + ['\n'] + rest;
    SplitCons(line, '\n', rest);
    KeepUnappliedAppend([line], Split(rest, '\n'));
  }

  /** Reading back what `git cherry` prints: the SHAs kept are exactly those
      of the commits not yet upstream, in order; the `-` lines and the empty
      piece after the final newline are dropped. */
  lemma {:induction false} CherryRoundTrip(es: seq<CherryEntry>)
    requires forall i :: 0 <= i < |es| ==> ValidSha(es[i].commit.sha)
    ensures NewCommitShas(RenderCherry(es)) == Shas(NewEntries(es))
    decreases |es|
  {
    if |es| == 0 {
      assert Split("", '\n') == [""];
    } else {
      CherryStep(es);
      CherryLineKept(es[0]);
      CherryRoundTrip(es[1..]);
      if es[0].upstream {
        assert NewEntries(es) == NewEntries(es[1..]);
      } else {
        assert Shas(NewEntries(es)) == [es[0].commit.sha] + Shas(NewEntries(es[1..]));
      }
    }
  }

  /* ---------------------------------------------------------------------- */
  /* One commit from `git show`                                              */
  /* ---------------------------------------------------------------------- */

  /** Number of occurrences of `c` in `s`. */
  function CountChar(s: string, c: char): nat
    decreases |s|
  {
    if |s| == 0 then 0 else (if s[0] == c then 1 else 0) + CountChar(s[1..], c)
  }

  /** Split yields one piece more than there are separators. */
  lemma {:induction false} SplitLength(s: string, sep: char)
    ensures |Split(s, sep)| == CountChar(s, sep) + 1
    decreases |s|
  {
    if |s| > 0 {
      SplitLength(s[1..], sep);
    }
  }

  lemma JoinHead(parts: seq<string>, sep: char)
    requires |parts| >= 1
    ensures HasPrefix(Join(parts, sep), parts[0])
  {
  }

  /** The output of `git show --format=%H%n%s%n%ai`: SHA, subject, date, one per line. */
  function RenderShow(c: Commit): string {
    c.sha + "\n" + c.message + "\n" + c.date
  }

  /** The parse in GetCommit: lines 0, 1 and 2 of the output are the SHA, the
      subject and the date; it needs at least two newlines and ignores any
      further lines. */
  function ParseShow(out: string): (c: Option<Commit>)
    ensures c.None? <==> CountChar(out, '\n') < 2
    ensures c.Some? ==> HasPrefix(out, RenderShow(c.value))
    ensures c.Some? ==> |out| == |RenderShow(c.value)| || out[|RenderShow(c.value)|] == '\n'
    ensures c.Some? ==> '\n' !in c.value.sha && '\n' !in c.value.message && '\n' !in c.value.date
  {
    var lines := Split(out, '\n');
    SplitLength(out, '\n');
    if |lines| < 3 then None
    else
      var c := Commit(lines[0], lines[1], lines[2]);
      assert out == lines[0] + "\n" + (lines[1] + "\n" + Join(lines[2..], '\n')) by {
        assert Join(lines, '\n') == lines[0] + ['\n'] + Join(lines[1..], '\n');
        assert lines[1..][1..] == lines[2..];
        assert Join(lines[1..], '\n') == lines[1] + ['\n'] + Join(lines[2..], '\n');
      }
      JoinHead(lines[2..], '\n');
      Some(c)
  }

  /** A commit whose fields hold no newline: what git prints for a subject line. */
  predicate WellFormed(c: Commit) {
    ValidSha(c.sha) && '\n' !in c.message && '\n' !in c.date
  }

  /** Parsing what git prints gives the commit back, whatever follows it on later lines. */
  lemma ShowRoundTrip(c: Commit, rest: string)
    requires WellFormed(c)
    ensures ParseShow(RenderShow(c)) == Some(c)
    ensures ParseShow(RenderShow(c) + "\n" + rest) == Some(c)
  {
    ShaChars(c.sha);
    var s1 := c.sha + "\n" + c.message + "\n" + c.date;
    assert RenderShow(c) == c.sha + ['\n'] + (c.message + ['\n'] + c.date);
    SplitCons(c.sha, '\n', c.message + ['\n'] + c.date);
    SplitCons(c.message, '\n', c.date);
    SplitNoSeparator(c.date, '\n');
    var s2 := RenderShow(c) + "\n" + rest;
    assert s2 == c.sha + ['\n'] + (c.message + ['\n'] + (c.date + ['\n'] + rest));
    SplitCons(c.sha, '\n', c.message + ['\n'] + (c.date + ['\n'] + rest));
    SplitCons(c.message, '\n', c.date + ['\n'] + rest);
    SplitCons(c.date, '\n', rest);
  }

  /** GetCommit: run `git show` for one SHA and parse its output. */
  function GetCommit(git: GitRunner, sha: string): (r: Result<Commit, GitError>)
    ensures git(ShowArgs(sha)).None? ==> r == Err(RunningGit(ShowArgs(sha)))
    ensures r.Ok? ==> git(ShowArgs(sha)).Some? && HasPrefix(git(ShowArgs(sha)).value, RenderShow(r.value))
    ensures r == Err(ShowOutputTooShort(sha)) <==> git(ShowArgs(sha)).Some? && CountChar(git(ShowArgs(sha)).value, '\n') < 2
    ensures git(ShowArgs(sha)).Some? && CountChar(git(ShowArgs(sha)).value, '\n') >= 2 ==> r.Ok?
    ensures r.Ok? ==> '\n' !in r.value.sha && '\n' !in r.value.message && '\n' !in r.value.date
    ensures r.Ok? ==> var out := git(ShowArgs(sha)).value;
                      |out| == |RenderShow(r.value)| || out[|RenderShow(r.value)|] == '\n'
  {
    match git(ShowArgs(sha))
    case None => Err(RunningGit(ShowArgs(sha)))
    case Some(out) =>
      match ParseShow(out)
      case None => Err(ShowOutputTooShort(sha))
      case Some(c) => Ok(c)
  }

  /** GetCommits: look every SHA up in order; the first failed lookup aborts the
      whole list and its error is returned. */
  function GetCommits(git: GitRunner, shas: seq<string>): (r: Result<seq<Commit>, GitError>)
    ensures r.Ok? <==> forall i :: 0 <= i < |shas| ==> GetCommit(git, shas[i]).Ok?
    ensures r.Ok? ==> |r.value| == |shas|
    ensures r.Ok? ==> forall i :: 0 <= i < |shas| ==> GetCommit(git, shas[i]) == Ok(r.value[i])
    ensures r.Err? ==> exists i :: 0 <= i < |shas| && GetCommit(git, shas[i]) == Err(r.error)
                                   && forall j :: 0 <= j < i ==> GetCommit(git, shas[j]).Ok?
    decreases |shas|
  {
    if |shas| == 0 then Ok([])
    else
      match GetCommit(git, shas[0])
      case Err(e) => Err(e)
      case Ok(c) =>
        var tail := GetCommits(git, shas[1..]);
        assert forall i :: 1 <= i < |shas| ==> shas[i] == shas[1..][i - 1];
        match tail
        case Err(e) =>
          var i :| 0 <= i < |shas| - 1 && GetCommit(git, shas[1..][i]) == Err(e)
                   && forall j :: 0 <= j < i ==> GetCommit(git, shas[1..][j]).Ok?;
          assert GetCommit(git, shas[i + 1]) == Err(e);
          Err(e)
        case Ok(cs) => Ok([c] + cs)
  }

  /** GetNewCommits: the commits on the current branch that `git cherry`
      reports as not yet upstream of the default branch. */
  function GetNewCommits(git: GitRunner): (r: Result<seq<Commit>, GitError>)
    ensures git(LsRemoteArgs).None? ==> r == Err(RunningGit(LsRemoteArgs))
    ensures git(LsRemoteArgs).Some? ==>
              var branch := BranchFromLsRemote(git(LsRemoteArgs).value);
              git(CherryArgs(branch)).None? ==> r == Err(RunningGit(CherryArgs(branch)))
    ensures git(LsRemoteArgs).Some? ==>
              var cherry := git(CherryArgs(BranchFromLsRemote(git(LsRemoteArgs).value)));
              cherry.Some? ==> r == GetCommits(git, NewCommitShas(cherry.value))
    ensures r.Ok? ==> git(LsRemoteArgs).Some?
    ensures r.Ok? ==> var cherry := git(CherryArgs(BranchFromLsRemote(git(LsRemoteArgs).value)));
                      cherry.Some? && |r.value| == |NewCommitShas(cherry.value)| <= |Split(cherry.value, '\n')|
  {
    match GetDefaultBranchName(git)
    case Err(e) => Err(e)
    case Ok(branch) =>
      match git(CherryArgs(branch))
      case None => Err(RunningGit(CherryArgs(branch)))
      case Some(out) => GetCommits(git, NewCommitShas(out))
  }

  /** Looking up the new entries of a repository yields their commits, in order. */
  lemma {:induction false} LookupNewEntries(git: GitRunner, es: seq<CherryEntry>)
    requires forall i :: 0 <= i < |es| ==> WellFormed(es[i].commit)
    requires forall i :: 0 <= i < |es| && !es[i].upstream ==> git(ShowArgs(es[i].commit.sha)) == Some(RenderShow(es[i].commit) + "\n")
    ensures GetCommits(git, Shas(NewEntries(es))) == Ok(NewEntries(es))
    decreases |es|
  {
    if |es| > 0 {
      LookupNewEntries(git, es[1..]);
      var e := es[0];
      if !e.upstream {
        ShowRoundTrip(e.commit, "");
        assert RenderShow(e.commit) + "\n" == RenderShow(e.commit) + "\n" + "";
        assert GetCommit(git, e.commit.sha) == Ok(e.commit);
        assert NewEntries(es) == [e.commit] + NewEntries(es[1..]);
        var shas := Shas(NewEntries(es));
        assert shas == [e.commit.sha] + Shas(NewEntries(es[1..]));
        assert shas[0] == e.commit.sha && shas[1..] == Shas(NewEntries(es[1..]));
      } else {
        assert NewEntries(es) == NewEntries(es[1..]);
      }
    }
  }

  /** End to end: for a remote whose ls-remote output is `lsRemote`, whose
      `git cherry` against the chosen branch lists `es`, and whose `git show`
      prints each new commit, GetNewCommits returns exactly the new commits,
      in the order git cherry lists them. */
  lemma NewCommitsOfRepository(git: GitRunner, lsRemote: string, es: seq<CherryEntry>)
    requires git(LsRemoteArgs) == Some(lsRemote)
    requires git(CherryArgs(BranchFromLsRemote(lsRemote))) == Some(RenderCherry(es))
    requires forall i :: 0 <= i < |es| ==> WellFormed(es[i].commit)
    requires forall i :: 0 <= i < |es| && !es[i].upstream ==> git(ShowArgs(es[i].commit.sha)) == Some(RenderShow(es[i].commit) + "\n")
    ensures GetNewCommits(git) == Ok(NewEntries(es))
  {
    CherryRoundTrip(es);
    LookupNewEntries(git, es);
  }
}
