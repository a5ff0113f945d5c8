/**
 The count of one identifier: `git grep -ch -I <name>` takes the name as an
 unanchored pattern and writes, for each file that matches, the number of
 its lines that match, each on its own line. The script turns that text into
 a number with `sum(map(int, output.strip().split('\n')))`.
 */
module GitGrep {
  import opened Text

  /** The outcome of the count expression: the sum, or the `ValueError`
      that `int()` raises on the first line that is not an integer. */
  datatype Parsed = Count(total: int) | Invalid(literal: string)

  /** `sum(map(int, lines))`; `map` converts every line before `sum` adds
      them, so the first line `int()` rejects ends the evaluation. */
  function SumCounts(lines: seq<string>): (r: Parsed)
    ensures r.Count? <==> forall i :: 0 <= i < |lines| ==> ParseInt(lines[i]).Some?
    ensures r.Invalid? ==> r.literal in lines && ParseInt(r.literal) == None
  {
    if lines == [] then Count(0)
    else
      match ParseInt(lines[0])
      case None => Invalid(lines[0])
      case Some(v) =>
        match SumCounts(lines[1..])
        case Invalid(l) => Invalid(l)
        case Count(t) => Count(v + t)
  }

  /** `map` converts the lines in order, so the `ValueError` is the one of
      the first line `int()` rejects: every line before it is an integer. */
  lemma {:induction false} SumCountsStopsAtFirstBadLine(lines: seq<string>)
    ensures var r := SumCounts(lines);
      r.Invalid? ==>
        exists i :: 0 <= i < |lines| && lines[i] == r.literal && ParseInt(lines[i]) == None
          && forall j :: 0 <= j < i ==> ParseInt(lines[j]).Some?
  {
    if lines != [] && ParseInt(lines[0]).Some? && SumCounts(lines).Invalid? {
      var rest := lines[1..];
      SumCountsStopsAtFirstBadLine(rest);
      var i :| 0 <= i < |rest| && rest[i] == SumCounts(lines).literal && ParseInt(rest[i]) == None
        && forall j :: 0 <= j < i ==> ParseInt(rest[j]).Some?;
      assert lines[i + 1] == rest[i];
      assert forall j :: 0 <= j < i + 1 ==> ParseInt(lines[j]).Some? by {
        forall j | 0 <= j < i + 1 ensures ParseInt(lines[j]).Some? {
          if j > 0 {
            assert lines[j] == rest[j - 1];
          }
        }
      }
    }
  }

  /** The value of the sum: one line is its integer, and the lines of
      `a + b` add up to the sum of `a`'s plus the sum of `b`'s, an error in
      `a` taking precedence over one in `b`. */
  lemma SumCountsOfLine(line: string)
    ensures ParseInt(line).Some? ==> SumCounts([line]) == Count(ParseInt(line).value)
    ensures ParseInt(line).None? ==> SumCounts([line]) == Invalid(line)
  {
    assert [line][1..] == [];
  }

  lemma {:induction false} SumCountsAppend(a: seq<string>, b: seq<string>)
    ensures SumCounts(a + b) ==
      match SumCounts(a)
      case Invalid(l) => Invalid(l)
      case Count(x) =>
        match SumCounts(b)
        case Invalid(l) => Invalid(l)
        case Count(y) => Count(x + y)
  {
    if a == [] {
      assert a + b == b;
    } else {
      assert (a + b)[0] == a[0];
      assert (a + b)[1..] == a[1..] + b;
      SumCountsAppend(a[1..], b);
    }
  }

  /** The count expression applied to the search output (line 70). */
  function ParseCounts(output: string): (r: Parsed)
    ensures r.Invalid? ==> '\n' !in r.literal && ParseInt(r.literal) == None
  {
    SumCounts(Split(Strip(output), '\n'))
  }

  // ---------------------------------------------------------------------
  // What git grep writes

  function Sum(ns: seq<nat>): nat {
    if ns == [] then 0 else ns[0] + Sum(ns[1..])
  }

  function Decimals(ns: seq<nat>): (ds: seq<string>)
    ensures |ds| == |ns|
    ensures forall i :: 0 <= i < |ds| ==> IsDecimal(ds[i])
  {
    if ns == [] then [] else [NatToDecimal(ns[0])] + Decimals(ns[1..])
  }

  /** The output of `git grep -c -h` for files with `counts` matching lines each. */
  function GrepOutput(counts: seq<nat>): string {
    if counts == [] then [] else NatToDecimal(counts[0]) + "\n" + GrepOutput(counts[1..])
  }

  lemma {:induction false} JoinedDecimalsEnds(ns: seq<nat>)
    requires ns != []
    ensures var j := Join(Decimals(ns), '\n'); |j| >= 1 && IsDigit(j[0]) && IsDigit(j[|j| - 1])
  {
    var ds := Decimals(ns);
    if |ns| > 1 {
      JoinedDecimalsEnds(ns[1..]);
      assert ds[1..] == Decimals(ns[1..]);
    }
  }

  lemma {:induction false} GrepOutputIsJoin(ns: seq<nat>)
    requires ns != []
    ensures GrepOutput(ns) == Join(Decimals(ns), '\n') + "\n"
  {
    if |ns| > 1 {
      GrepOutputIsJoin(ns[1..]);
      assert Decimals(ns)[1..] == Decimals(ns[1..]);
    }
  }

  lemma {:induction false} SumOfDecimals(ns: seq<nat>)
    ensures SumCounts(Decimals(ns)) == Count(Sum(ns))
  {
    if ns != [] {
      SumOfDecimals(ns[1..]);
      ParseIntOfDecimal(ns[0]);
      assert Decimals(ns)[1..] == Decimals(ns[1..]);
    }
  }

  /** Well-formed search output parses to the exact sum of the per-file counts. */
  lemma ParseGrepOutput(counts: seq<nat>)
    requires counts != []
    ensures ParseCounts(GrepOutput(counts)) == Count(Sum(counts))
  {
    var ds := Decimals(counts);
    var j := Join(ds, '\n');
    GrepOutputIsJoin(counts);
    JoinedDecimalsEnds(counts);
    assert StripLeft(j + "\n") == j + "\n";
    assert (j + "\n")[..|j + "\n"| - 1] == j;
    assert StripRight(j + "\n") == StripRight(j) == j;
    forall i | 0 <= i < |ds| ensures '\n' !in ds[i] {
      assert forall k :: 0 <= k < |ds[i]| ==> ds[i][k] != '\n';
    }
    SplitJoin(ds, '\n');
    SumOfDecimals(counts);
  }

  lemma {:induction false} SumPositive(ns: seq<nat>)
    requires ns != []
    requires forall i :: 0 <= i < |ns| ==> ns[i] >= 1
    ensures Sum(ns) >= |ns|
  {
    if |ns| > 1 {
      SumPositive(ns[1..]);
    }
  }

  /** git grep lists only files that match, so the count for a name that
      some line matches is at least one per matching file and never zero. */
  lemma GrepCountNeverZero(counts: seq<nat>)
    requires counts != []
    requires forall i :: 0 <= i < |counts| ==> counts[i] >= 1
    ensures ParseCounts(GrepOutput(counts)).Count?
    ensures ParseCounts(GrepOutput(counts)).total >= |counts| >= 1
  {
    ParseGrepOutput(counts);
    SumPositive(counts);
  }

  /** With no match at all git grep writes nothing; `''.split('\n')` is
      `['']` and `int('')` raises, so blank output is a `ValueError`, never
      a count of zero. */
  lemma BlankOutputIsInvalid(output: string)
    requires forall i :: 0 <= i < |output| ==> IsSpace(output[i])
    ensures ParseCounts(output) == Invalid("")
  {
    StripAllSpace(output);
    ParseIntOfBlank("");
  }
}
