/**
 Whole runs on small inputs: the exact lines printed, which candidates are
 searched for, and how the run ends.
 */
module Scenarios {
  import opened Text
  import opened Candidates
  import opened GitGrep
  import opened Reporter
  import opened Pipeline

  // The report lines of the runs below, spelt out. Each concatenation is
  // taken a few pieces at a time, which is how the solver compares string
  // literals.

  lemma HelperLine()
    ensures ReportLine("src/a.py", Candidate("helper", "src/a.py", 10, "function"), 1)
      == "src/a.py:10: Unused function 'helper' (used 1 times in git-grep)"
  {
    assert NatToDecimal(10) == "10";
    assert IntToDecimal(1) == "1";
    assert "src/a.py" + ":" + "10" + ": Unused " == "src/a.py:10: Unused ";
    assert "src/a.py:10: Unused " + "function" + " '" == "src/a.py:10: Unused function '";
    assert "src/a.py:10: Unused function '" + "helper" + "' (used " == "src/a.py:10: Unused function 'helper' (used ";
    assert "src/a.py:10: Unused function 'helper' (used " + "1" + " times in git-grep)"
      == "src/a.py:10: Unused function 'helper' (used 1 times in git-grep)";
  }

  lemma VariableLine()
    ensures ReportLine("src/b.py", Candidate("x", "src/b.py", 5, "variable"), 3)
      == "src/b.py:5: Unused variable 'x' (used 3 times in git-grep)"
  {
    assert NatToDecimal(5) == "5";
    assert IntToDecimal(3) == "3";
    assert "src/b.py" + ":" + "5" + ": Unused " == "src/b.py:5: Unused ";
    assert "src/b.py:5: Unused " + "variable" + " '" == "src/b.py:5: Unused variable '";
    assert "src/b.py:5: Unused variable '" + "x" + "' (used " == "src/b.py:5: Unused variable 'x' (used ";
    assert "src/b.py:5: Unused variable 'x' (used " + "3" + " times in git-grep)"
      == "src/b.py:5: Unused variable 'x' (used 3 times in git-grep)";
  }

  lemma FirstLine()
    ensures ReportLine("m.py", Candidate("a", "m.py", 1, "function"), 1)
      == "m.py:1: Unused function 'a' (used 1 times in git-grep)"
  {
    assert NatToDecimal(1) == "1";
    assert IntToDecimal(1) == "1";
    assert "m.py" + ":" + "1" + ": Unused " == "m.py:1: Unused ";
    assert "m.py:1: Unused " + "function" + " '" == "m.py:1: Unused function '";
    assert "m.py:1: Unused function '" + "a" + "' (used " == "m.py:1: Unused function 'a' (used ";
    assert "m.py:1: Unused function 'a' (used " + "1" + " times in git-grep)"
      == "m.py:1: Unused function 'a' (used 1 times in git-grep)";
  }

  /** An unused function found once by git grep is reported in either mode. */
  lemma ConfirmedFunctionIsReported(env: Environment, verbose: bool)
    requires env.gitGrep("helper", "src/a.py") == GrepOutput([1])
    requires env.relpath("src/a.py") == "src/a.py"
    ensures var t := Expected([Candidate("helper", "src/a.py", 10, "function")], Options([], verbose), env);
      && t.printed == ["src/a.py:10: Unused function 'helper' (used 1 times in git-grep)"]
      && t.status == Finished
  {
    var c := Candidate("helper", "src/a.py", 10, "function");
    ParseGrepOutput([1]);
    assert [c][..0] == [];
    assert DisplayPath(c.file, env.relpath) == "src/a.py";
    HelperLine();
    assert Adjudicate(c, Options([], verbose), env) == Prints([ReportLine("src/a.py", c, 1)]);
  }

  /** A variable git grep finds three times, in two files, is printed only
      in verbose mode, behind the tag and with the total count. */
  lemma ContradictedVariableOnlyInVerbose(env: Environment, verbose: bool)
    requires env.gitGrep("x", "src/b.py") == GrepOutput([2, 1])
    requires env.relpath("src/b.py") == "src/b.py"
    ensures var t := Expected([Candidate("x", "src/b.py", 5, "variable")], Options([], verbose), env);
      && t.printed == (if verbose then ["SKIPPING DUE TO USAGES: " + "src/b.py:5: Unused variable 'x' (used 3 times in git-grep)"] else [])
      && t.status == Finished
  {
    var c := Candidate("x", "src/b.py", 5, "variable");
    ParseGrepOutput([2, 1]);
    assert Sum([2, 1]) == 3;
    assert [c][..0] == [];
    assert DisplayPath(c.file, env.relpath) == "src/b.py";
    VariableLine();
    assert Adjudicate(c, Options([], verbose), env)
      == Prints(if verbose then [SkipPrefix + ReportLine("src/b.py", c, 3)] else []);
  }

  /** A name an exclusion regex matches (as `^test_` matches `test_helper`)
      is never searched for and prints nothing. */
  lemma ExcludedNameIsNeverSearched(testPrefix: Pattern, verbose: bool, env: Environment)
    requires testPrefix("test_helper")
    ensures var t := Expected([Candidate("test_helper", "src/t.py", 3, "function")], Options([testPrefix], verbose), env);
      t == Trace([], [], Finished)
  {
    assert [testPrefix][0]("test_helper");
    assert [Candidate("test_helper", "src/t.py", 3, "function")][..0] == [];
  }

  lemma ZeroCountVerdicts(env: Environment, options: Options)
    requires env.gitGrep("a", "m.py") == GrepOutput([1])
    requires env.gitGrep("b", "m.py") == GrepOutput([0])
    requires env.relpath("m.py") == "m.py"
    ensures Adjudicate(Candidate("a", "m.py", 1, "function"), options, env)
      == Prints(["m.py:1: Unused function 'a' (used 1 times in git-grep)"])
    ensures Adjudicate(Candidate("b", "m.py", 2, "function"), options, env)
      == Raises(AssertionError(NotFoundMessage))
  {
    ParseGrepOutput([1]);
    ParseGrepOutput([0]);
    FirstLine();
  }

  /** A zero count aborts the run with the unformatted message: the line
      printed before it stays, the candidate after it is never searched. */
  lemma ZeroCountAborts(env: Environment, verbose: bool)
    requires env.gitGrep("a", "m.py") == GrepOutput([1])
    requires env.gitGrep("b", "m.py") == GrepOutput([0])
    requires env.relpath("m.py") == "m.py"
    ensures var a, b, c := Candidate("a", "m.py", 1, "function"), Candidate("b", "m.py", 2, "function"),
                          Candidate("c", "m.py", 3, "function");
      var t := Expected([a, b, c], Options([], verbose), env);
      && t.printed == ["m.py:1: Unused function 'a' (used 1 times in git-grep)"]
      && t.searched == [a, b]
      && t.status == Raised(AssertionError("Unused %s not found at all in git-grep!"))
  {
    var a, b, c := Candidate("a", "m.py", 1, "function"), Candidate("b", "m.py", 2, "function"),
                   Candidate("c", "m.py", 3, "function");
    var options := Options([], verbose);
    ZeroCountVerdicts(env, options);
    var line := "m.py:1: Unused function 'a' (used 1 times in git-grep)";
    assert [a][..0] == [];
    assert Expected([a], options, env) == Trace([line], [a], Finished);
    assert [a, b][..1] == [a];
    assert Expected([a, b], options, env) == Trace([line], [a, b], Raised(AssertionError(NotFoundMessage)));
    assert [a, b, c][..2] == [a, b];
    ExpectedStopsAtRaise([a, b, c], 2, options, env);
  }

  /** A name git grep does not find at all produces no output; the run then
      ends with the `ValueError` of `int('')`, not with the zero-count
      `AssertionError`. */
  lemma NoMatchRaisesValueError(env: Environment, verbose: bool)
    requires env.gitGrep("gone", "m.py") == GrepOutput([])
    ensures var t := Expected([Candidate("gone", "m.py", 4, "attribute")], Options([], verbose), env);
      && t.printed == []
      && t.status == Raised(ValueError(""))
  {
    BlankOutputIsInvalid(GrepOutput([]));
    assert [Candidate("gone", "m.py", 4, "attribute")][..0] == [];
  }
}
