/**
 The rows of the classification table in pkg/cmd/check/check_test.go:36-100,
 one lemma per row, as expected verdicts of IsCommitConventional. The table
 itself calls IsCommitSemantic, which is in neither check.go nor git.go.
 */
module CheckExamples {
  import opened Strings
  import opened Check

  /** "improve this code" has no 'r' directly before a 't'. */
  lemma NoRtPair(m: string)
    requires m == "improve this code"
    ensures forall j :: !OccursAt(m, "rt", j)
  {
    forall j ensures !OccursAt(m, "rt", j) {
      if 0 <= j && j + 2 <= |m| {
        assert m[j..j + 2][0] == m[j] && m[j..j + 2][1] == m[j + 1];
        assert m[j] != 'r' || m[j + 1] != 't';
      }
    }
  }

  lemma ExampleChore(m: string)
    requires m == "chore: update deps"
    ensures IsCommitConventional(m)
  {
    assert m == "chore" + "" + ":" + " update deps";
    assert ToLower("chore") == "chore";
    TypedMessagePasses("chore", 8, "", " update deps");
  }

  lemma ExampleFeat(m: string)
    requires m == "feat: add great feature"
    ensures IsCommitConventional(m)
  {
    assert m == "feat" + "" + ":" + " add great feature";
    assert ToLower("feat") == "feat";
    TypedMessagePasses("feat", 0, "", " add great feature");
  }

  lemma ExampleRefactor(m: string)
    requires m == "Refactor: improve code base"
    ensures IsCommitConventional(m)
  {
    assert m == "Refactor" + "" + ":" + " improve code base";
    assert ToLower("Refactor") == "refactor";
    TypedMessagePasses("Refactor", 3, "", " improve code base");
  }

  lemma ExampleDocs(m: string)
    requires m == "docs: improve docs"
    ensures IsCommitConventional(m)
  {
    assert m == "docs" + "" + ":" + " improve docs";
    assert ToLower("docs") == "docs";
    TypedMessagePasses("docs", 4, "", " improve docs");
  }

  lemma ExampleTest(m: string)
    requires m == "test: make all the tests"
    ensures IsCommitConventional(m)
  {
    assert m == "test" + "" + ":" + " make all the tests";
    assert ToLower("test") == "test";
    TypedMessagePasses("test", 5, "", " make all the tests");
  }

  lemma ExampleStyle(m: string)
    requires m == "Style: improve the style"
    ensures IsCommitConventional(m)
  {
    assert m == "Style" + "" + ":" + " improve the style";
    assert ToLower("Style") == "style";
    TypedMessagePasses("Style", 7, "", " improve the style");
  }

  /** A scope between the keyword and the colon. */
  lemma ExampleScoped(m: string)
    requires m == "docs(README): improve readability"
    ensures IsCommitConventional(m)
  {
    assert m == "docs" + "(README)" + ":" + " improve readability";
    assert ToLower("docs") == "docs";
    TypedMessagePasses("docs", 4, "(README)", " improve readability");
  }

  /** The program passes this message on the revert exemption, before the
      keyword loop runs; the proof goes through the keyword "revert" instead,
      which gives the same verdict. */
  lemma ExampleRevert(m: string)
    requires m == "Revert: these really bad commits"
    ensures IsCommitConventional(m)
  {
    assert m == "Revert" + "" + ":" + " these really bad commits";
    assert ToLower("Revert") == "revert";
    TypedMessagePasses("Revert", 6, "", " these really bad commits");
  }

  /** No colon, and neither "revert" nor "merge": no "rt" pair, no 'g'. */
  lemma ExampleNotSemantic(m: string)
    requires m == "improve this code"
    ensures !IsCommitConventional(m)
  {
    NoRtPair(m);
    assert OccursAt("revert", "rt", 4);
    PieceAbsent(m, "revert", "rt", 4);
    CharAbsent(m, "merge", 3);
    assert forall i :: 0 <= i < |m| ==> m[i] == ' ' || IsLowerAscii(m[i]);
    PlainMessageFails(m);
  }

  /** A keyword without its colon fails. */
  lemma ExampleWithoutColon(m: string)
    requires m == "fix this code"
    ensures !IsCommitConventional(m)
  {
    CharAbsent(m, "revert", 2);
    CharAbsent(m, "merge", 3);
    assert forall i :: 0 <= i < |m| ==> m[i] == ' ' || IsLowerAscii(m[i]);
    PlainMessageFails(m);
  }
}
