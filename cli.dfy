/**
 * The command-line entry point: compare(file1, file2) with the default
 * tolerance, and exit status 0 when the files match, 1 otherwise.  A file
 * that is missing or holds a value float() rejects ends the run with status
 * 1 before any row is printed.
 */
module Cli {
  import opened Wrappers
  import opened Strings
  import opened IntegralFile
  import opened Comparator

  /** How a run ends: a parse error in one of the files, or the table of
      rows and the match flag. */
  datatype Outcome = Aborted(error: FileError) | Compared(rows: seq<Row>, matched: bool)

  /** The exit status the run promises, stated on the two files alone. */
  function ExpectedExitCode(d: Dialect, fs: FileSystem, file1: string, file2: string): (code: int)
    ensures code == 0 || code == 1
  {
    match (ParseFile(d, fs, file1), ParseFile(d, fs, file2))
    case (Ok(data1), Ok(data2)) => if Matches(data1, data2, DefaultTolerance) then 0 else 1
    case _ => 1
  }

  /** The script run as `check_cutflows file1 file2`. */
  method Run(d: Dialect, fs: FileSystem, file1: string, file2: string) returns (outcome: Outcome, code: int)
    ensures code == ExpectedExitCode(d, fs, file1, file2)
    ensures code == 0 <==> outcome.Compared? && outcome.matched
    ensures ParseFile(d, fs, file1).Err? ==> outcome == Aborted(ParseFile(d, fs, file1).error)
    ensures ParseFile(d, fs, file1).Ok? && ParseFile(d, fs, file2).Err? ==>
              outcome == Aborted(ParseFile(d, fs, file2).error)
    ensures outcome.Compared? <==> ParseFile(d, fs, file1).Ok? && ParseFile(d, fs, file2).Ok?
    ensures outcome.Compared? ==>
              IsReport(ParseFile(d, fs, file1).value, ParseFile(d, fs, file2).value, DefaultTolerance, outcome.rows)
  {
    var parsed1 := ParseIntegralFile(d, fs, file1);
    if parsed1.Err? {
      return Aborted(parsed1.error), 1;
    }
    var parsed2 := ParseIntegralFile(d, fs, file2);
    if parsed2.Err? {
      return Aborted(parsed2.error), 1;
    }
    var rows, matched := Compare(parsed1.value, parsed2.value, DefaultTolerance);
    outcome := Compared(rows, matched);
    code := if matched then 0 else 1;
  }

  /** Comparing a file that parses with itself succeeds. */
  lemma SelfComparisonSucceeds(d: Dialect, fs: FileSystem, file: string)
    requires ParseFile(d, fs, file).Ok?
    ensures ExpectedExitCode(d, fs, file, file) == 0
  {
    MatchesReflexive(ParseFile(d, fs, file).value, DefaultTolerance);
  }

  /** The exit status does not depend on the order of the two files (the
      message printed for two bad files does). */
  lemma ExitCodeSymmetric(d: Dialect, fs: FileSystem, file1: string, file2: string)
    ensures ExpectedExitCode(d, fs, file1, file2) == ExpectedExitCode(d, fs, file2, file1)
  {
    var p1, p2 := ParseFile(d, fs, file1), ParseFile(d, fs, file2);
    if p1.Ok? && p2.Ok? {
      MatchesSymmetric(p1.value, p2.value, DefaultTolerance);
    }
  }

  /** A missing file ends the run with status 1. */
  lemma MissingFileFails(d: Dialect, fs: FileSystem, file1: string, file2: string)
    requires file1 !in fs || file2 !in fs
    ensures ExpectedExitCode(d, fs, file1, file2) == 1
  {
  }

  /** Status 0 is exactly: both files parse, they have the same variables,
      and every pair of values is within 1e-6. */
  lemma SuccessMeansAgreement(d: Dialect, fs: FileSystem, file1: string, file2: string)
    ensures ExpectedExitCode(d, fs, file1, file2) == 0 <==>
              && ParseFile(d, fs, file1).Ok? && ParseFile(d, fs, file2).Ok?
              && ParseFile(d, fs, file1).value.Keys == ParseFile(d, fs, file2).value.Keys
              && forall k :: k in ParseFile(d, fs, file1).value ==>
                   Abs(ParseFile(d, fs, file1).value[k] - ParseFile(d, fs, file2).value[k]) <= DefaultTolerance
  {
  }
}
