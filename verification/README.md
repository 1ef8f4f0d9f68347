# jx-semanticcheck in Dafny

`jx-semanticcheck check` is a CI gate. It checks that every commit on the
current branch that is not yet on the remote's default branch has a
Conventional Commits message. This project models its two pure cores and
proves properties of them:

- **The commit-message classifier** `IsCommitConventional` (pkg/cmd/check/check.go).
  The message is ASCII lower-cased and trimmed of white space. It passes if it
  contains `revert` or `merge` anywhere. Otherwise the text before its first
  colon must be non-empty and start with one of ten type keywords. `Run`
  counts the commits that fail and reports an error exactly when that count
  is positive.
- **The git-output parsers** of pkg/helpers/git.go:
  - the default branch chosen from `git ls-remote --symref origin HEAD`;
  - the `+` lines kept from `git cherry origin/<branch>`;
  - the SHA, subject and date read from `git show --quiet <sha> --format=%H%n%s%n%ai`;
  - the lookup of a SHA list, which aborts on the first failure.

Every git invocation is a `GitRunner`: a function from the argument list to
git's standard output, or `None` when git fails. The repository directory
is part of that function.

Files:

- `results.dfy`: `Option` and `Result`.
- `strings.dfy`: the part of Go's `strings` package that the code uses:
  - `Index`, `Contains` and `HasPrefix`;
  - `ToLower` and `ToUpper` (ASCII letters only);
  - `TrimSpace`, over the `unicode.IsSpace` set;
  - `Split` on one character;
  - `ReplaceAll(s, pat, "")`, named `DeleteAll`, written the way Go computes it.
- `git.dfy`: pkg/helpers/git.go.
- `check.dfy`: pkg/cmd/check/check.go.
- `check_examples.dfy`: the rows of the classification table in pkg/cmd/check/check_test.go, as expected verdicts of `IsCommitConventional`.

The classifier's meaning is stated once, as the predicate `Check.Conventional`,
with no reference to `Index` or to the keyword loop. The computing functions
are proved equal to it.

## Model

| member | source | states |
|---|---|---|
| Strings.Index | pkg/cmd/check/check.go:132 | `strings.Index`: -1 exactly when the pattern never occurs; otherwise an occurrence with no earlier one |
| Strings.Contains | pkg/helpers/git.go:34 | `strings.Contains`: true exactly when the pattern occurs at some position |
| Strings.ToLower | pkg/cmd/check/check.go:125 | same length, and each character is its ASCII lower-case form |
| Strings.TrimSpace | pkg/cmd/check/check.go:125 | no longer than the input, and neither end is white space |
| Strings.DeleteAll | pkg/helpers/git.go:35 | `strings.ReplaceAll(s, pat, "")`: never longer than the input, and the input itself when the pattern never occurs |
| Strings.Split | pkg/helpers/git.go:29 | `strings.Split` on `\n`: at least one piece, no piece holds the separator, and joining the pieces with it gives the input back |
| Strings.SplitJoin | pkg/helpers/git.go:29 | splitting undoes joining when no part holds the separator |
| Strings.DeleteAllMatchesScan | pkg/helpers/git.go:35 | `ReplaceAll(line, "+ ", "")`, computed Go's Index-driven way, equals deleting each occurrence in a left-to-right scan |
| Strings.DeleteAllLeading | pkg/helpers/git.go:35 | a leading `"+ "` is deleted and the rest is processed unchanged |
| Strings.TrimSpaceUnique | pkg/cmd/check/check.go:125 | `TrimSpace` of a trimmed string padded with white space on both sides is that string |
| Strings.TrimSpaceIdempotent | pkg/cmd/check/check.go:125 | trimming twice is trimming once |
| Strings.TrimSpacePadded | pkg/cmd/check/check.go:125 | extra white space at either end does not change the trimmed form |
| Strings.LowerOfUpper | pkg/cmd/check/check.go:125 | lower-casing an upper-cased string gives the lower-cased original |
| Check.KeywordsAreWords | pkg/cmd/check/check.go:41 | every keyword is a non-empty word of lower-case ASCII letters, so it holds no colon and no white space |
| Check.KeywordsDistinct | pkg/cmd/check/check.go:41 | the keyword list holds ten distinct types |
| Check.Normalize | pkg/cmd/check/check.go:125 | the normal form is no longer than the message, has no upper-case ASCII letter, and has no white space at either end |
| Check.StartsWithType | pkg/cmd/check/check.go:135-139 | the keyword loop returns true exactly when some keyword is a prefix of the type token |
| Check.ClassifyNormalized | pkg/cmd/check/check.go:127-141 | on a normalized message the decision is `Conventional`: it mentions revert or merge, or the non-empty text before its first colon starts with a keyword |
| Check.IsCommitConventional | pkg/cmd/check/check.go:124-142 | a message passes exactly when its lower-cased, trimmed form is `Conventional` for the ten keywords |
| Check.ClassifyIgnoresPadding | pkg/cmd/check/check.go:125 | white space around a message never changes its verdict |
| Check.ClassifyIgnoresCase | pkg/cmd/check/check.go:125 | an upper-cased message gets the same verdict as the original |
| Check.RevertOrMergePasses | pkg/cmd/check/check.go:127-130 | a message whose lower-cased form contains `revert` or `merge` passes, with or without a colon |
| Check.NoColonFails | pkg/cmd/check/check.go:132-141 | a message with no colon whose normal form mentions neither revert nor merge fails |
| Check.PlainMessageFails | pkg/cmd/check/check.go:132-141 | a lower-case, trimmed message with no colon that mentions neither revert nor merge fails |
| Check.EmptyTypeFails | pkg/cmd/check/check.go:133 | a normal form that starts with its colon (an empty type) fails unless it mentions revert or merge |
| Check.KeywordPrefixPasses | pkg/cmd/check/check.go:136 | matching is by prefix: a keyword, then any colon-free scope, then a colon, then anything, passes |
| Check.TypedMessagePasses | pkg/cmd/check/check.go:125-139 | a keyword in any letter case, a colon-free scope, a colon and any text passes |
| Check.RevertTypeIsSubsumed | pkg/cmd/check/check.go:41 | removing `revert` from the keyword list changes no verdict, because the revert exemption already covers it |
| Check.NormalFormFixed | pkg/cmd/check/check.go:125 | a message with no upper-case ASCII letter and no white space at either end is its own normal form |
| Check.CheckCommits | pkg/cmd/check/check.go:76-97 | the loop's count is the number of commits the classifier rejects; the outcome is Pass exactly when every commit passes, and otherwise carries that count |
| Check.Run | pkg/cmd/check/check.go:71-97 | a failed commit lookup becomes a "failed to get commits" error; otherwise the outcome is that of the counting loop over the new commits |
| CheckExamples.ExampleRevert | pkg/cmd/check/check_test.go:43-46 | `Revert: these really bad commits` passes |
| CheckExamples.ExampleChore | pkg/cmd/check/check_test.go:48-51 | `chore: update deps` passes |
| CheckExamples.ExampleFeat | pkg/cmd/check/check_test.go:53-56 | `feat: add great feature` passes |
| CheckExamples.ExampleRefactor | pkg/cmd/check/check_test.go:58-61 | `Refactor: improve code base` passes |
| CheckExamples.ExampleDocs | pkg/cmd/check/check_test.go:63-66 | `docs: improve docs` passes |
| CheckExamples.ExampleTest | pkg/cmd/check/check_test.go:68-71 | `test: make all the tests` passes |
| CheckExamples.ExampleStyle | pkg/cmd/check/check_test.go:73-76 | `Style: improve the style` passes |
| CheckExamples.ExampleNotSemantic | pkg/cmd/check/check_test.go:78-81 | `improve this code` fails |
| CheckExamples.ExampleWithoutColon | pkg/cmd/check/check_test.go:83-86 | `fix this code` fails |
| CheckExamples.ExampleScoped | pkg/cmd/check/check_test.go:88-91 | `docs(README): improve readability` passes |
| Git.BranchFromLsRemote | pkg/helpers/git.go:76-80 | the branch is always `main` or `master`, and it is `main` exactly when `main` occurs anywhere in the ls-remote output |
| Git.GetDefaultBranchName | pkg/helpers/git.go:70-81 | fails only when ls-remote fails, with that invocation as the error; otherwise returns `main` or `master` |
| Git.DefaultBranchOfSymref | pkg/helpers/git.go:76-80 | on real ls-remote output the choice is `main` exactly when the HEAD branch's name contains `main`; a SHA never contributes one |
| Git.KeepLine | pkg/helpers/git.go:33-36 | a line contributes at most one SHA, and contributes none exactly when it holds no `+` |
| Git.KeepUnapplied | pkg/helpers/git.go:31-38 | the filter never yields more SHAs than it is given lines |
| Git.KeepUnappliedNone | pkg/helpers/git.go:31-38 | the filter keeps nothing exactly when no line holds a `+` |
| Git.KeepUnappliedAppend | pkg/helpers/git.go:31-38 | the filter works line by line and keeps the input order |
| Git.KeepUnappliedMembers | pkg/helpers/git.go:31-38 | a string is kept exactly when it is some `+` line with every `"+ "` deleted |
| Git.NewCommitShas | pkg/helpers/git.go:29-38 | there are never more SHAs than lines of `git cherry` output |
| Git.KeepNewLine | pkg/helpers/git.go:34-36 | a cherry line `+ <sha>` is kept as exactly its SHA |
| Git.DropUpstreamLine | pkg/helpers/git.go:34 | a cherry line `- <sha>` is dropped |
| Git.StripMark | pkg/helpers/git.go:35 | deleting `"+ "` from `+ <sha>` gives the SHA back |
| Git.CherryRoundTrip | pkg/helpers/git.go:29-38 | on what `git cherry` prints, the filter yields exactly the SHAs of the commits marked `+`, in order; the `-` lines and the empty piece after the last newline are dropped |
| Git.ParseShow | pkg/helpers/git.go:62-67 | the parse fails exactly when the output has fewer than three lines; otherwise the output starts with the SHA, subject and date it returns, one per line, none holding a newline, and the date runs to the next newline or to the end |
| Git.ShowRoundTrip | pkg/helpers/git.go:62-67 | parsing what `git show` prints for a commit gives that commit back, whatever follows on later lines |
| Git.GetCommit | pkg/helpers/git.go:56-68 | a failed `git show` gives "running git" with that invocation; output with fewer than three lines gives ShowOutputTooShort; output with three or more lines gives a commit whose SHA, subject and date are its first three whole lines, none of them holding a newline |
| Git.GetCommits | pkg/helpers/git.go:43-53 | succeeds exactly when every lookup succeeds, with one commit per SHA in order; otherwise returns the error of the first lookup that fails |
| Git.GetNewCommits | pkg/helpers/git.go:18-41 | a failed ls-remote or a failed cherry is returned as that invocation's error; otherwise the result is the lookup of the SHAs kept from the cherry output, errors included, and a success holds one commit per kept line |
| Git.LookupNewEntries | pkg/helpers/git.go:43-53 | when `git show` prints each new commit, looking up their SHAs returns exactly those commits |
| Git.NewCommitsOfRepository | pkg/helpers/git.go:18-41 | end to end: for a repository whose `git cherry` lists given entries, GetNewCommits returns exactly the commits not yet upstream, in cherry order |

## Left out

- The command line: `NewCmdCheckSemantics`, `Options.Validate`, flag parsing, SCM discovery, pkg/cmd/root.go and cmd/main.go. This is cobra wiring and process exit.
- The per-commit log lines and the final "All commits follow" message (pkg/cmd/check/check.go:87-89, 96). They are output only.
- Running git. Each `gitter.Command` call is the `GitRunner` oracle. The `dir` argument is part of that oracle.
- Error message text. `errors.Wrapf` wrappers become datatype constructors such as `RunningGit(args)` and `FailedToGetCommits(cause)`. The "%d commit(s) did not follow" message becomes `NotConventional(count)`.
- Strings.ToLower: lower-cases only the ASCII letters `A`-`Z`. Go's `strings.ToLower` maps all Unicode upper-case letters, and can change a string's length in UTF-8.
- `TrimSpace` follows the full `unicode.IsSpace` set. Go treats a string as UTF-8 bytes; the model works on Unicode scalar values. Invalid UTF-8 is not modelled.
- Git.GetCommit: Go indexes `split[1]` and `split[2]` without checking the length. On output with fewer than two newlines it panics. The model returns the error `ShowOutputTooShort(sha)` instead, and `ParseShow` states exactly when this happens.
- Go's distinction between a nil slice and an empty slice of commits. Both are the empty sequence here.
- Tag-based range resolution. pkg/cmd/check/check_test.go:14-34 tests `GetPreviousRevSha`, which is in neither check.go nor git.go, so it is not part of this model. `Run` never reads the `--first-sha` and `--latest-sha` flags. The model checks every commit that `git cherry` reports as new, as the code does.
- `IsCommitSemantic`. The classification table at pkg/cmd/check/check_test.go:36-100 calls it, and it too is in neither file. Its rows are reused in check_examples.dfy as expected verdicts of `IsCommitConventional`.
