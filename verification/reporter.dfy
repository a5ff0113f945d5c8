/**
 How one candidate is shown: the display path (`_path_for_item`), the
 report line, and the classification of its count of matching lines.
 */
module Reporter {
  import opened Text
  import opened Candidates

  /** The tag in front of a candidate the search contradicts, shown only in verbose mode. */
  const SkipPrefix: string := "SKIPPING DUE TO USAGES: "

  /** The message of the `AssertionError` raised on a zero count. It is
      passed to the exception as it stands, `%s` and all: nothing is
      substituted into it. */
  const NotFoundMessage: string := "Unused %s not found at all in git-grep!"

  /** `_path_for_item`: the path relative to the working directory, unless
      that relative path starts with `..`, in which case the item's own
      path. `relpath` stands for `os.path.relpath` in the current
      directory. The shown path starts with `..` only when it is the
      item's own path. */
  function DisplayPath(file: string, relpath: string -> string): (r: string)
    ensures !StartsWith(relpath(file), "..") ==> r == relpath(file)
    ensures StartsWith(relpath(file), "..") ==> r == file
    ensures StartsWith(r, "..") ==> r == file
  {
    var rel := relpath(file);
    if !StartsWith(rel, "..") then rel else file
  }

  /** The test is on the text of the relative path, not on its first path
      component: `..foo/x` falls back to the original path as `../x` does. */
  lemma DisplayPathPrefixIsTextual(file: string, relpath: string -> string)
    requires relpath(file) == "..foo/x"
    ensures DisplayPath(file, relpath) == file
  {
  }

  /** `"{path}:{item.lineno}: Unused {item.typ} '{item}' (used {num_found} times in git-grep)"`. */
  function ReportLine(path: string, c: Candidate, numFound: int): (line: string)
    ensures StartsWith(line, path + ":")
  {
    path + ":" + NatToDecimal(c.lineno) + ": Unused " + c.typ + " '" + c.name + "' (used "
      + IntToDecimal(numFound) + " times in git-grep)"
  }

  /** The line shows the exact count: two lines for the same item and path
      with different counts are different lines. */
  lemma ReportLineDeterminesCount(path: string, c: Candidate, m: int, n: int)
    requires ReportLine(path, c, m) == ReportLine(path, c, n)
    ensures m == n
  {
    var head := path + ":" + NatToDecimal(c.lineno) + ": Unused " + c.typ + " '" + c.name + "' (used ";
    var tail := " times in git-grep)";
    var dm, dn := IntToDecimal(m), IntToDecimal(n);
    assert ReportLine(path, c, m) == head + dm + tail;
    assert ReportLine(path, c, n) == head + dn + tail;
    assert |dm| == |dn|;
    assert dm == (head + dm + tail)[|head|..|head| + |dm|];
    assert dn == (head + dn + tail)[|head|..|head| + |dn|];
    IntToDecimalInjective(m, n);
  }

  /** The three outcomes of counting a candidate's name in the repository. */
  datatype Classification = InvariantViolation | ConfirmedUnused | Contradicted

  /** The branches of lines 72-93: zero, exactly one, and every other count
      (the `else` branch, which is where counts above one land). */
  function Classify(numFound: int): (r: Classification)
    ensures r == InvariantViolation <==> numFound == 0
    ensures r == ConfirmedUnused <==> numFound == 1
  {
    if numFound == 0 then InvariantViolation
    else if numFound == 1 then ConfirmedUnused
    else Contradicted
  }
}
