# git-vulture, modelled in Dafny

git-vulture cross-checks a dead-code detector (`wake`'s `Vulture`) against
`git grep`. The detector reports candidate unused functions, properties,
variables and attributes. git-vulture then handles each candidate in turn:

- It merges the four result lists and sorts them by (lower-cased file, line).
- It drops every candidate whose name an `--exclude-identifier-regexes` pattern matches.
- It runs `git grep -ch -I <name>` in the candidate's git work tree, with the name as an unanchored pattern, and sums the per-file counts of matching lines. A line holding the name twice counts once, and a line holding `helpers` counts for `helper`.
- It acts on the count:
  - a count of 1 means no line other than one (presumably the definition's) contains the name, so the candidate is printed;
  - any other non-zero count contradicts the detector, so the candidate is printed behind the tag `SKIPPING DUE TO USAGES: ` in verbose mode and left out otherwise;
  - a count of 0 raises an `AssertionError` and ends the run.

The project models that logic from `git_vulture/git_vulture.py`:

- `text.dfy` (module `Text`) models the Python 2 string operations the script uses: `strip`, `split('\n')`, `lower`, `startswith`, string `<`, `int()` and `str()` of integers.
- `candidates.dfy` (module `Candidates`) holds the candidate record and `all_unused_items`. That function is an insertion sort, proved sorted, a permutation of the four concatenated lists, and stable. It is also proved to be the only sorted stable rearrangement, so it agrees with Python's `sorted`.
- `gitgrep.dfy` (module `GitGrep`) holds the count expression `sum(map(int, out.strip().split('\n')))` and a model of what `git grep -c -h` writes.
- `reporter.dfy` (module `Reporter`) holds `_path_for_item`, the report line and the three-way classification of a count.
- `pipeline.dfy` (module `Pipeline`) holds the `__main__` loop. `ReportUnusedItems` is the loop, written imperatively. It is proved equal to the reference run `Expected`, and the properties of a run are lemmas about `Expected`.
- `scenarios.dfy` (module `Scenarios`) gives whole runs on small inputs, with the exact text printed.

The script is Python 2 code. Under Python 3, `process.stdout.read()` gives
`bytes`, and `bytes.split('\n')` would fail. So the model follows Python 2:
`str` is a byte string, `lower()` and `strip()` use the ASCII rules, and
`int()` takes decimal text.

Four behaviours of the code as written are modelled as such:

- The `else` branch (line 85) takes every count other than 0 and 1, not only counts above 1. Well-formed `git grep` output never sums to a negative count (`GitGrep.GrepCountNeverZero`).
- The `AssertionError` message is the literal `'Unused %s not found at all in git-grep!'`. Nothing is substituted into it, so it does not name the candidate.
- When `git grep` finds nothing it writes nothing. `''.strip().split('\n')` is `['']`, and `int('')` raises `ValueError`. So with real `git grep` output the zero-count `AssertionError` branch is never reached, and a name with no match ends the run with a `ValueError` instead (`GitGrep.BlankOutputIsInvalid`, `Scenarios.NoMatchRaisesValueError`). The model keeps both exceptions (`Pipeline.Error`).
- The `..` test on the relative path is a plain string-prefix test.

## Model

| member | source | states |
|---|---|---|
| `Candidates.AllUnusedItems` | git_vulture/git_vulture.py:33-41 | the merged list is in (lower-cased file, line) order; it is a permutation of funcs + props + vars + attrs; for every key, its items with that key are the funcs', then the props', the vars' and the attrs' items with that key, each in the detector's order (stability) |
| `Candidates.AllUnusedItemsUnique` | git_vulture/git_vulture.py:39-41 | any sorted arrangement that keeps every key's items in concatenation order is exactly the result, so the order is fully determined by the four lists |
| `Candidates.KeyOf` | git_vulture/git_vulture.py:37-38 | `file_lineno`: the sort key `(item.file.lower(), item.lineno)` |
| `Candidates.KeyLt` | git_vulture/git_vulture.py:39-41 | Python's tuple `<` on the keys `sorted` compares: by path first, then by line number |
| `Candidates.SortByKey` | git_vulture/git_vulture.py:39-41 | `sorted(..., key=file_lineno)` as an insertion sort; what it guarantees is stated by the three lemmas below |
| `Candidates.SortByKeySorted` | git_vulture/git_vulture.py:37-41 | the sort leaves no item before one with a smaller key |
| `Candidates.SortByKeyPermutes` | git_vulture/git_vulture.py:39-40 | the sort drops and duplicates nothing (same multiset) |
| `Candidates.SortByKeyStable` | git_vulture/git_vulture.py:39-41 | the sort keeps, for every key, the input order of the items with that key |
| `Candidates.SortedStableUnique` | git_vulture/git_vulture.py:39-41 | two sorted sequences with the same per-key subsequences are equal |
| `Candidates.KeyLeTransitive` | git_vulture/git_vulture.py:37-38 | "not greater than" on the (path, line) key is transitive |
| `Candidates.KeyAntisymmetric` | git_vulture/git_vulture.py:37-38 | two keys each not greater than the other are equal |
| `Text.StrLt` | git_vulture/git_vulture.py:38 | string `<` on the lower-cased paths: lexicographic by byte, a proper prefix being smaller |
| `Text.StrLtTransitive` | git_vulture/git_vulture.py:38 | string `<` is transitive |
| `Text.StrLtTotal` | git_vulture/git_vulture.py:38 | distinct strings are ordered one way or the other |
| `Pipeline.Excluded` | git_vulture/git_vulture.py:54 | `any(regex.search(item) ...)`: some exclusion pattern matches the name |
| `Pipeline.Kept` | git_vulture/git_vulture.py:53-55 | a candidate is kept exactly when it is in the list and no exclusion regex matches its name |
| `Pipeline.SearchedAreKept` | git_vulture/git_vulture.py:53-55 | the candidates searched for are a prefix of the kept ones, in order, and all of them when the run finishes; an excluded candidate is never searched for |
| `Pipeline.KeptSorted` | git_vulture/git_vulture.py:53-55 | filtering a sorted list leaves it sorted |
| `Pipeline.SearchedInSortedOrder` | git_vulture/git_vulture.py:53 | over the output of `all_unused_items`, candidates are searched for (and reported) in key order |
| `Pipeline.Adjudicate` | git_vulture/git_vulture.py:56-93 | one searched candidate: a `ValueError` with the rejected line exactly when the count does not parse, the unformatted `AssertionError` exactly when it is 0, otherwise at most one line, none exactly when the count is not 1 and verbose is off |
| `Pipeline.Expected` | git_vulture/git_vulture.py:53-93 | the reference run: the loop body applied to each candidate in turn, nothing after an exception; its properties are the lemmas below |
| `Pipeline.ReportUnusedItems` | git_vulture/git_vulture.py:53-93 | the loop prints, searches and ends exactly as the reference run `Expected` over the candidates |
| `Pipeline.ExpectedStopsAtRaise` | git_vulture/git_vulture.py:72-76 | once a prefix of the candidates raises, later candidates change nothing |
| `Pipeline.RaisesOnlyOnLastSearched` | git_vulture/git_vulture.py:70-76 | a run that raises does so on the last candidate searched, with that candidate's error; every earlier candidate (and every candidate of a finished run) ended without raising |
| `Pipeline.PrintedIsPerCandidate` | git_vulture/git_vulture.py:77-93 | the output is exactly the concatenation of the lines each searched candidate's count calls for |
| `Pipeline.PrintedIsStreamed` | git_vulture/git_vulture.py:81-93 | what the first i candidates print is a prefix of what the run prints, so lines printed before an exception remain |
| `Pipeline.VerboseChangesOnlyPrinted` | git_vulture/git_vulture.py:85-93 | verbose mode searches the same candidates and ends the same way; only the printed lines differ |
| `Pipeline.AdjudicateRaisesIgnoresVerbose` | git_vulture/git_vulture.py:70-76 | whether a candidate raises, and with what, does not depend on verbose mode |
| `Pipeline.AdjudicateByCount` | git_vulture/git_vulture.py:70-93 | a count of 0 raises the unformatted `AssertionError`; a count of 1 prints the report line in both modes; any other count prints the tagged line with that count in verbose mode and nothing otherwise |
| `GitGrep.SumCounts` | git_vulture/git_vulture.py:70 | the sum exists exactly when every line is an integer; otherwise the `ValueError` names a line of the output that `int()` rejects |
| `GitGrep.SumCountsStopsAtFirstBadLine` | git_vulture/git_vulture.py:70 | the `ValueError` carries the first line `int()` rejects: every line before it is an integer |
| `GitGrep.SumCountsOfLine` | git_vulture/git_vulture.py:70 | one line sums to its integer, or raises with that line |
| `GitGrep.SumCountsAppend` | git_vulture/git_vulture.py:70 | the sum of `a + b` is the sum of `a` plus the sum of `b`; an error in `a` comes before one in `b` |
| `GitGrep.ParseCounts` | git_vulture/git_vulture.py:70 | `sum(map(int, out.strip().split('\n')))`; a `ValueError` names one line of the stripped output, without its newline, that `int()` rejects |
| `GitGrep.ParseGrepOutput` | git_vulture/git_vulture.py:57-70 | the `git grep -c -h` output for any non-empty list of per-file counts parses to their exact sum |
| `GitGrep.GrepCountNeverZero` | git_vulture/git_vulture.py:70-77 | with git grep's per-file counts (each at least 1), the parsed count is at least the number of matching files, so never 0 |
| `GitGrep.BlankOutputIsInvalid` | git_vulture/git_vulture.py:70 | empty or all-whitespace output raises `ValueError` on `int('')`; it never counts as 0 |
| `Text.Strip` | git_vulture/git_vulture.py:70 | `strip()` as `rstrip` of `lstrip`; stated by the two lemmas below |
| `Text.ParseInt` | git_vulture/git_vulture.py:70 | `int()` of text: surrounding whitespace, an optional sign, then decimal digits, or `None` for the `ValueError` |
| `Text.Lower` | git_vulture/git_vulture.py:38 | `str.lower()` of the file path in the sort key; the result has the input's length |
| `Text.LowerIsPointwise` | git_vulture/git_vulture.py:38 | `lower()` lower-cases each byte in place: an ASCII capital becomes its small letter, every other byte is kept |
| `Text.Split` | git_vulture/git_vulture.py:70 | `split('\n')` returns at least one piece, none holding `'\n'`, and joining the pieces with `'\n'` gives the input back |
| `Text.SplitJoin` | git_vulture/git_vulture.py:70 | splitting a `'\n'`-join of newline-free pieces gives the pieces back |
| `Text.StripLeftRemovesLeadingSpace` | git_vulture/git_vulture.py:70 | `lstrip` keeps a suffix that is empty or starts with a non-space character, and removes only whitespace |
| `Text.StripRightRemovesTrailingSpace` | git_vulture/git_vulture.py:70 | `rstrip` keeps a prefix that is empty or ends with a non-space character, and removes only whitespace |
| `Text.StripAllSpace` | git_vulture/git_vulture.py:70 | stripping all-whitespace text leaves the empty string |
| `Text.ParseIntOfBlank` | git_vulture/git_vulture.py:70 | `int()` of blank text raises |
| `Text.NatToDecimal` | git_vulture/git_vulture.py:82-84 | `str(n)` is a non-empty digit string without a leading zero whose value is `n` |
| `Text.ParseIntOfDecimal` | git_vulture/git_vulture.py:70 | `int(str(i)) == i` for every integer |
| `Text.IntToDecimal` | git_vulture/git_vulture.py:82-84 | how `{num_found}` is formatted: `str()` of an integer, a minus sign before the digits of a negative one; `ParseIntOfDecimal` and `IntToDecimalInjective` state its properties |
| `Text.IntToDecimalInjective` | git_vulture/git_vulture.py:82-84 | different integers are written differently |
| `Reporter.DisplayPath` | git_vulture/git_vulture.py:44-46 | the relative path is shown when it does not start with `..`, the item's own path when it does; so a shown path starting with `..` is always the item's own path |
| `Text.StartsWith` | git_vulture/git_vulture.py:46 | `relpath.startswith('..')`: the string begins with the given prefix |
| `Reporter.DisplayPathPrefixIsTextual` | git_vulture/git_vulture.py:46 | a relative path `..foo/x` also falls back to the item's own path |
| `Reporter.ReportLineDeterminesCount` | git_vulture/git_vulture.py:81-84 | the report line shows the exact count: the same item and path with different counts give different lines |
| `Reporter.ReportLine` | git_vulture/git_vulture.py:81-84 | the `format` of the report line; the line starts with the shown path and a colon |
| `Reporter.Classify` | git_vulture/git_vulture.py:72-93 | the three branches on the count: the first exactly for 0, the second exactly for 1, the `else` for every other count |
| `Pipeline.ContradictedLineIsTaggedReport` | git_vulture/git_vulture.py:85-93 | a candidate counted neither 0 nor 1 prints, in verbose mode, exactly one line: `SKIPPING DUE TO USAGES: ` followed by the report line with its count, which is never the confirmed line with count 1; without verbose it prints nothing |
| `Scenarios.ConfirmedFunctionIsReported` | git_vulture/git_vulture.py:77-84 | `helper` at src/a.py:10, found once, prints `src/a.py:10: Unused function 'helper' (used 1 times in git-grep)` in both modes |
| `Scenarios.ContradictedVariableOnlyInVerbose` | git_vulture/git_vulture.py:85-93 | `x` at src/b.py:5, found 2 + 1 times, prints the tagged line with count 3 in verbose mode and nothing otherwise |
| `Scenarios.ExcludedNameIsNeverSearched` | git_vulture/git_vulture.py:53-55 | a name a pattern matches is never searched for and prints nothing |
| `Scenarios.ZeroCountAborts` | git_vulture/git_vulture.py:72-76 | a zero count raises the literal message; the earlier line stays printed and the later candidate is never searched |
| `Scenarios.NoMatchRaisesValueError` | git_vulture/git_vulture.py:70 | a name git grep does not find ends the run with `ValueError`, printing nothing |

## Left out

- `parse_args` and its optparse callbacks (lines 12-30) are command-line plumbing. The identifier patterns and the verbose flag arrive as a `Pipeline.Options` value. The `--exclude` list goes only to the detector.
- The `wake` detector (`Vulture`, `scavenge`, lines 9 and 51-52) is foreign library code. Its four result lists are inputs. The `verbose=False and options.verbose` argument it gets has no effect on the adjudication.
- Regular expressions (`re.compile`, `regex.search`, lines 16 and 54) are not modelled. Each pattern is an abstract predicate on the name (`Pipeline.Pattern`).
- The subprocess, `process.wait()` and `git.Repo(file_dir).wd` (lines 56-69) are external processes. Together they become one parameter, `Environment.gitGrep(name, file)`, which gives the text `git grep` writes. A failure to find a work tree, which raises from `git.Repo`, is not modelled. Like the source, the model never looks at git grep's exit status.
- `os.path.relpath` (line 45) is the parameter `Environment.relpath`, an uninterpreted function. Only the `..` decision is modelled. The errors relpath itself can raise are not modelled.
- Printing to standard output is modelled as appending to the `printed` sequence.
- Text.Lower: only the ASCII lower-casing of Python 2 byte strings is modelled. Unicode case mapping is not.
- Text.ParseInt: models decimal text only: surrounding whitespace, an optional sign, then ASCII digits. Other forms the interpreter's `int()` may accept are not modelled. `git grep -c` never writes them.
- Candidates.Candidate: the detector's `typ` tag is kept as the string it prints. Its set of values belongs to the detector.
