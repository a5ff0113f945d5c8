/**
 The per-candidate loop of git_vulture.py's `__main__` block: skip the
 candidates an identifier regex matches, count each remaining name with
 git grep, then print, stay silent or abort according to the count.
 The detector, the search and `os.path.relpath` are parameters.
 */
module Pipeline {
  import opened Text
  import opened Candidates
  import opened GitGrep
  import opened Reporter

  /** A compiled identifier regex, seen only through `regex.search(name)`:
      whether it matches somewhere in the name. */
  type Pattern = string -> bool

  /** The command-line options the loop reads. */
  datatype Options = Options(excludeIdentifierRegexes: seq<Pattern>, verbose: bool)

  /** What the loop asks of the world around it. `gitGrep(name, file)` is
      the text `git grep -ch -I name` writes when run at the root of the
      work tree holding `file`; `relpath` is `os.path.relpath`. */
  datatype Environment = Environment(gitGrep: (string, string) -> string, relpath: string -> string)

  /** The exceptions the loop can raise. */
  datatype Error = ValueError(literal: string) | AssertionError(message: string)

  datatype Status = Finished | Raised(error: Error)

  /** What a run shows: the lines printed, the candidates searched for (in
      order) and how the loop ended. */
  datatype Trace = Trace(printed: seq<string>, searched: seq<Candidate>, status: Status)

  /** `any(regex.search(item) for regex in ...)`. */
  predicate Excluded(name: string, patterns: seq<Pattern>) {
    exists i :: 0 <= i < |patterns| && patterns[i](name)
  }

  /** The candidates the filter lets through, in their order. */
  function Kept(items: seq<Candidate>, patterns: seq<Pattern>): (r: seq<Candidate>)
    ensures forall c :: c in r <==> c in items && !Excluded(c.name, patterns)
  {
    if items == [] then []
    else
      var init, last := items[..|items| - 1], items[|items| - 1];
      assert items == init + [last];
      Kept(init, patterns) + (if Excluded(last.name, patterns) then [] else [last])
  }

  /** What searching for one candidate leads to. */
  datatype Verdict = Raises(error: Error) | Prints(lines: seq<string>)

  /** Lines 56-93 for one candidate that passed the filter. */
  function Adjudicate(c: Candidate, options: Options, env: Environment): (r: Verdict)
    ensures r.Raises? && r.error.ValueError? <==> ParseCounts(env.gitGrep(c.name, c.file)).Invalid?
    ensures r.Raises? && r.error.ValueError? ==> r.error.literal == ParseCounts(env.gitGrep(c.name, c.file)).literal
    ensures r.Raises? && r.error.AssertionError? <==> ParseCounts(env.gitGrep(c.name, c.file)) == Count(0)
    ensures r.Raises? && r.error.AssertionError? ==> r.error.message == NotFoundMessage
    ensures r.Prints? ==> |r.lines| <= 1
    ensures r.Prints? ==> (r.lines == [] <==> !options.verbose && ParseCounts(env.gitGrep(c.name, c.file)).total != 1)
  {
    match ParseCounts(env.gitGrep(c.name, c.file))
    case Invalid(literal) => Raises(ValueError(literal))
    case Count(numFound) =>
      var path := DisplayPath(c.file, env.relpath);
      match Classify(numFound)
      case InvariantViolation => Raises(AssertionError(NotFoundMessage))
      case ConfirmedUnused => Prints([ReportLine(path, c, numFound)])
      case Contradicted =>
        Prints(if options.verbose then [SkipPrefix + ReportLine(path, c, numFound)] else [])
  }

  /** One turn of the loop on a run that has not raised. */
  function Step(t: Trace, c: Candidate, options: Options, env: Environment): Trace
  {
    if Excluded(c.name, options.excludeIdentifierRegexes) then t
    else
      match Adjudicate(c, options, env)
      case Raises(e) => Trace(t.printed, t.searched + [c], Raised(e))
      case Prints(lines) => Trace(t.printed + lines, t.searched + [c], Finished)
  }

  /** The run over `items`, one candidate after another; once an exception
      is raised nothing more happens. */
  function Expected(items: seq<Candidate>, options: Options, env: Environment): Trace
  {
    if items == [] then Trace([], [], Finished)
    else
      var before := Expected(items[..|items| - 1], options, env);
      if before.status.Raised? then before else Step(before, items[|items| - 1], options, env)
  }

  /** Everything the candidates `cs` print, in order. */
  function PrintedBy(cs: seq<Candidate>, options: Options, env: Environment): seq<string>
  {
    if cs == [] then []
    else
      PrintedBy(cs[..|cs| - 1], options, env)
        + match Adjudicate(cs[|cs| - 1], options, env)
          case Raises(_) => []
          case Prints(lines) => lines
  }

  // ---------------------------------------------------------------------
  // The loop

  /** The `for item in vulture.all_unused_items` loop. `printed` is what
      reaches standard output; a raised exception ends the loop at once. */
  method ReportUnusedItems(items: seq<Candidate>, options: Options, env: Environment)
    returns (printed: seq<string>, searched: seq<Candidate>, status: Status)
    ensures Trace(printed, searched, status) == Expected(items, options, env)
  {
    printed, searched, status := [], [], Finished;
    for i := 0 to |items|
      invariant Trace(printed, searched, Finished) == Expected(items[..i], options, env)
    {
      assert items[..i + 1][..i] == items[..i];
      var item := items[i];
      if Excluded(item.name, options.excludeIdentifierRegexes) {
        continue;
      }
      searched := searched + [item];
      var output := env.gitGrep(item.name, item.file);
      var parsed := ParseCounts(output);
      if parsed.Invalid? {
        status := Raised(ValueError(parsed.literal));
        ExpectedStopsAtRaise(items, i + 1, options, env);
        return;
      }
      var numFound := parsed.total;
      var prettyPath := DisplayPath(item.file, env.relpath);
      if numFound == 0 {
        status := Raised(AssertionError(NotFoundMessage));
        ExpectedStopsAtRaise(items, i + 1, options, env);
        return;
      } else if numFound == 1 {
        printed := printed + [ReportLine(prettyPath, item, numFound)];
      } else if options.verbose {
        printed := printed + [SkipPrefix + ReportLine(prettyPath, item, numFound)];
      }
    }
    assert items[..|items|] == items;
  }

  // ---------------------------------------------------------------------
  // Properties of a run

  /** Once a prefix of the candidates raises, the rest of them change nothing. */
  lemma {:induction false} ExpectedStopsAtRaise(items: seq<Candidate>, k: nat, options: Options, env: Environment)
    requires k <= |items|
    requires Expected(items[..k], options, env).status.Raised?
    ensures Expected(items, options, env) == Expected(items[..k], options, env)
  {
    if k < |items| {
      var init := items[..|items| - 1];
      assert init[..k] == items[..k];
      ExpectedStopsAtRaise(init, k, options, env);
    } else {
      assert items[..k] == items;
    }
  }

  /** The candidates searched for are those no exclusion regex matches, in
      sorted order: all of them when the run finishes, the first few when it
      raises. An excluded candidate is never searched for. */
  lemma {:induction false} SearchedAreKept(items: seq<Candidate>, options: Options, env: Environment)
    ensures var t := Expected(items, options, env);
      && t.searched <= Kept(items, options.excludeIdentifierRegexes)
      && (t.status.Finished? ==> t.searched == Kept(items, options.excludeIdentifierRegexes))
  {
    if items != [] {
      var init := items[..|items| - 1];
      SearchedAreKept(init, options, env);
    }
  }

  lemma {:induction false} KeptSorted(items: seq<Candidate>, patterns: seq<Pattern>)
    requires Sorted(items)
    ensures Sorted(Kept(items, patterns))
  {
    if items != [] {
      var init, last := items[..|items| - 1], items[|items| - 1];
      KeptSorted(init, patterns);
      var k := Kept(init, patterns);
      forall c | c in k ensures !KeyLt(KeyOf(last), KeyOf(c)) {
        var j :| 0 <= j < |init| && init[j] == c;
      }
    }
  }

  /** Over the output of `all_unused_items`, the candidates are searched
      for, and so reported, in (lower-cased path, line) order. */
  lemma SearchedInSortedOrder(
    funcs: seq<Candidate>, props: seq<Candidate>, vars: seq<Candidate>, attrs: seq<Candidate>,
    options: Options, env: Environment
  )
    ensures Sorted(Expected(AllUnusedItems(funcs, props, vars, attrs), options, env).searched)
  {
    var items := AllUnusedItems(funcs, props, vars, attrs);
    SearchedAreKept(items, options, env);
    KeptSorted(items, options.excludeIdentifierRegexes);
  }

  /** A run raises on the last candidate it searched for, with the error that
      candidate's count leads to; every candidate searched before it, and
      every candidate of a finished run, ended without an exception. */
  lemma {:induction false} RaisesOnlyOnLastSearched(items: seq<Candidate>, options: Options, env: Environment)
    ensures var t := Expected(items, options, env);
      && (t.status.Raised? ==>
            && t.searched != []
            && Adjudicate(t.searched[|t.searched| - 1], options, env) == Raises(t.status.error)
            && forall j :: 0 <= j < |t.searched| - 1 ==> Adjudicate(t.searched[j], options, env).Prints?)
      && (t.status.Finished? ==>
            forall j :: 0 <= j < |t.searched| ==> Adjudicate(t.searched[j], options, env).Prints?)
  {
    if items != [] {
      var init := items[..|items| - 1];
      RaisesOnlyOnLastSearched(init, options, env);
    }
  }

  lemma {:induction false} PrintedByAppend(cs: seq<Candidate>, c: Candidate, options: Options, env: Environment)
    ensures PrintedBy(cs + [c], options, env)
      == PrintedBy(cs, options, env)
         + match Adjudicate(c, options, env) case Raises(_) => [] case Prints(lines) => lines
  {
    assert (cs + [c])[..|cs|] == cs;
  }

  /** The output is exactly the lines of the searched candidates, one after
      another, each candidate contributing what its count calls for. */
  lemma {:induction false} PrintedIsPerCandidate(items: seq<Candidate>, options: Options, env: Environment)
    ensures var t := Expected(items, options, env); t.printed == PrintedBy(t.searched, options, env)
  {
    if items != [] {
      var init := items[..|items| - 1];
      PrintedIsPerCandidate(init, options, env);
      var before := Expected(init, options, env);
      if !before.status.Raised? && !Excluded(items[|items| - 1].name, options.excludeIdentifierRegexes) {
        PrintedByAppend(before.searched, items[|items| - 1], options, env);
      }
    }
  }

  /** Lines are printed as the loop goes and never taken back: what the
      first `i` candidates print is the start of what all of them print, so
      an exception keeps the lines already printed. */
  lemma {:induction false} PrintedIsStreamed(items: seq<Candidate>, i: nat, options: Options, env: Environment)
    requires i <= |items|
    ensures Expected(items[..i], options, env).printed <= Expected(items, options, env).printed
  {
    if i < |items| {
      var init := items[..|items| - 1];
      assert init[..i] == items[..i];
      PrintedIsStreamed(init, i, options, env);
    } else {
      assert items[..i] == items;
    }
  }

  lemma AdjudicateRaisesIgnoresVerbose(c: Candidate, patterns: seq<Pattern>, env: Environment)
    ensures var v, q := Adjudicate(c, Options(patterns, true), env), Adjudicate(c, Options(patterns, false), env);
      v.Raises? == q.Raises? && (v.Raises? ==> v.error == q.error)
  {
  }

  /** Verbose mode changes only what is printed: the same candidates are
      searched for and the run ends the same way. */
  lemma {:induction false} VerboseChangesOnlyPrinted(items: seq<Candidate>, patterns: seq<Pattern>, env: Environment)
    ensures Expected(items, Options(patterns, true), env).searched == Expected(items, Options(patterns, false), env).searched
    ensures Expected(items, Options(patterns, true), env).status == Expected(items, Options(patterns, false), env).status
  {
    if items != [] {
      var init, last := items[..|items| - 1], items[|items| - 1];
      VerboseChangesOnlyPrinted(init, patterns, env);
      AdjudicateRaisesIgnoresVerbose(last, patterns, env);
    }
  }

  /** A contradicted candidate prints, in verbose mode only, one line: the
      tag followed by the very line a confirmed candidate would get, with
      the total count in place of 1, so the line shows the count exactly
      and never reads as a confirmed report. */
  lemma ContradictedLineIsTaggedReport(c: Candidate, patterns: seq<Pattern>, env: Environment, n: int)
    requires ParseCounts(env.gitGrep(c.name, c.file)) == Count(n)
    requires n != 0 && n != 1
    ensures var path, v := DisplayPath(c.file, env.relpath), Adjudicate(c, Options(patterns, true), env);
      && v.Prints? && |v.lines| == 1
      && StartsWith(v.lines[0], SkipPrefix)
      && v.lines[0][|SkipPrefix|..] == ReportLine(path, c, n)
      && v.lines[0][|SkipPrefix|..] != ReportLine(path, c, 1)
    ensures Adjudicate(c, Options(patterns, false), env) == Prints([])
  {
    var path := DisplayPath(c.file, env.relpath);
    if ReportLine(path, c, n) == ReportLine(path, c, 1) {
      ReportLineDeterminesCount(path, c, n, 1);
    }
  }

  /** What one candidate's count leads to: zero raises the unformatted
      `AssertionError`, one prints the report line whatever the verbose
      flag, and any other count prints the tagged line in verbose mode and
      nothing otherwise. */
  lemma AdjudicateByCount(c: Candidate, options: Options, env: Environment, numFound: int)
    requires ParseCounts(env.gitGrep(c.name, c.file)) == Count(numFound)
    ensures var path := DisplayPath(c.file, env.relpath);
      Adjudicate(c, options, env) ==
        if numFound == 0 then Raises(AssertionError(NotFoundMessage))
        else if numFound == 1 then Prints([ReportLine(path, c, 1)])
        else if options.verbose then Prints([SkipPrefix + ReportLine(path, c, numFound)])
        else Prints([])
  {
  }
}
