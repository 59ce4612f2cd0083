# Cutflow comparator

A model of the cutflow comparator from the ZPeakAnalysis exercise. It is a
small command-line tool. It reads two text files of `name: value` lines,
for example `Integral of muonMult: 100.0`. It prints one row per variable
with the status `MISSING`, `PASS` or `FAIL` and exits with status 0 when the
files match, 1 otherwise.

The tool exists twice: `check_cutflows_cmssw10.py` for Python 2 and
`episodes/.../check_cutflows.py` for Python 3. The two copies share one
model. A `Dialect` parameter (`Python2 | Python3`) carries the two differences
the model captures:

- the whitespace set of `str.strip()`: the six ASCII spaces for a Python 2
  byte string; Unicode whitespace for a Python 3 string;
- line splitting: Python 3's text mode turns `\r\n` and a lone `\r` into
  `\n`, while Python 2 splits on `\n` alone.

Modules, following the script's structure:

- `Wrappers`: `Option` and `Result`.
- `Strings`: the string built-ins the parser uses, each given a contract:
  - `strip`;
  - `replace(label, "")`, a single left-to-right pass that removes
    non-overlapping occurrences;
  - `split(':')` and its inverse `Join`;
  - line reading;
  - Python's lexicographic string order, used by `sorted`.
- `Numbers`: `float()` on a stripped value text, as a parser of decimal
  literals into exact reals.
- `IntegralFile`: `parse_integral_file`. The loop over the lines is the
  method `ParseLines`. Its specification is `Build`, which folds over one
  entry per line. Each entry is skipped (no colon), a key/value pair, or a
  conversion error that aborts the parse.
- `Comparator`: `compare` once both files are parsed. `SortKeys` is
  `sorted()` of the key union. `Compare` is the loop that assigns statuses
  and clears `match`.
- `Cli`: the `__main__` block. It parses file 1, then file 2, compares them
  with the default tolerance 1e-6, and maps the result to the exit status.

The file system is a map from file name to contents. A name that is not in
the map is a missing file.

## Model

| member | source | states |
|---|---|---|
| Strings.Strip | files/ZPeakAnalysis/test/check_cutflows_cmssw10.py:13-14 | the result is the input with a maximal run of whitespace removed at each end; no edge whitespace is left, and nothing else is added or dropped |
| Strings.StripPadded | files/ZPeakAnalysis/test/check_cutflows_cmssw10.py:13-14 | whitespace on either side of a non-empty text without edge whitespace is removed, giving back exactly that text |
| Strings.StripUnpadded | files/ZPeakAnalysis/test/check_cutflows_cmssw10.py:13-14 | a text without edge whitespace is left unchanged |
| Strings.StripIdempotent | files/ZPeakAnalysis/test/check_cutflows_cmssw10.py:13-14 | stripping twice is the same as stripping once |
| Strings.TrimStart | files/ZPeakAnalysis/test/check_cutflows_cmssw10.py:13-14 | the result is a suffix of the input, everything cut off is whitespace, and its first character is not whitespace |
| Strings.TrimEnd | files/ZPeakAnalysis/test/check_cutflows_cmssw10.py:13-14 | the result is a prefix of the input, everything cut off is whitespace, and its last character is not whitespace |
| Strings.LeadingSpaces | files/ZPeakAnalysis/test/check_cutflows_cmssw10.py:13-14 | the count covers only whitespace, and the character after it, if any, is not whitespace |
| Strings.TrailingSpaces | files/ZPeakAnalysis/test/check_cutflows_cmssw10.py:13-14 | the count covers only whitespace at the end, and the character before it, if any, is not whitespace |
| Strings.StripDialectsAgree | episodes/files/ZPeakAnalysis/test/check_cutflows.py:13-14 | the Python 2 and Python 3 strip give the same result on any text whose characters both classify alike |
| Strings.RemoveAll | files/ZPeakAnalysis/test/check_cutflows_cmssw10.py:13 | removing the label never lengthens the text and introduces no new characters |
| Strings.RemoveAllNoOccurrence | files/ZPeakAnalysis/test/check_cutflows_cmssw10.py:13 | a text without the label is left unchanged |
| Strings.RemoveAllPrefix | files/ZPeakAnalysis/test/check_cutflows_cmssw10.py:13 | a leading label is removed and the scan resumes right after it |
| Strings.RemoveAllInfix | files/ZPeakAnalysis/test/check_cutflows_cmssw10.py:13 | the first occurrence of the label is removed wherever it sits, and the text before it is kept |
| Strings.RemoveAllSinglePass | files/ZPeakAnalysis/test/check_cutflows_cmssw10.py:13 | removal is one pass: an occurrence formed by the removal itself is kept (`IntegIntegral of ral of x` becomes `Integral of x`) |
| Strings.FirstIndex | files/ZPeakAnalysis/test/check_cutflows_cmssw10.py:12 | the position of the first occurrence of a character |
| Strings.Split | files/ZPeakAnalysis/test/check_cutflows_cmssw10.py:12 | at least one part; no part contains the separator; joining the parts gives back the text; two or more parts exactly when the separator occurs |
| Strings.SplitJoin | files/ZPeakAnalysis/test/check_cutflows_cmssw10.py:12 | splitting a join of separator-free parts gives back those parts |
| Strings.SplitFields | files/ZPeakAnalysis/test/check_cutflows_cmssw10.py:12-14 | part 0 is the text before the first colon; part 1 is the text between the first and second colon, or the rest of the line when there is no second colon |
| Strings.TranslateNewlines | episodes/files/ZPeakAnalysis/test/check_cutflows.py:9-10 | universal newlines leave no carriage return, and leave a text without one unchanged |
| Strings.SplitLines | files/ZPeakAnalysis/test/check_cutflows_cmssw10.py:9-10 | lines are non-empty; together they give back the file; each line but the last ends in its newline, and no line has a newline anywhere else |
| Strings.TranslateAppend | episodes/files/ZPeakAnalysis/test/check_cutflows.py:9-10 | translation works piece by piece wherever the cut does not split a `\r\n` pair |
| Strings.TranslateCrLf | episodes/files/ZPeakAnalysis/test/check_cutflows.py:9-10 | a `\r\n` pair anywhere in the text becomes one newline, and the text on either side is translated on its own |
| Strings.TranslateLoneCr | episodes/files/ZPeakAnalysis/test/check_cutflows.py:9-10 | a `\r` not followed by `\n` becomes one newline, and the text on either side is translated on its own |
| Strings.TranslateOther | episodes/files/ZPeakAnalysis/test/check_cutflows.py:9-10 | any character other than `\r` and `\n` is kept where it is |
| Strings.ReadLines | episodes/files/ZPeakAnalysis/test/check_cutflows.py:9-10 | the lines are non-empty and together give back the file's text, newline-translated for Python 3 and exactly for Python 2; each line but the last ends in its newline, and no line has a newline anywhere else; Python 3 lines contain no carriage return |
| Strings.Less | files/ZPeakAnalysis/test/check_cutflows_cmssw10.py:34 | a name sorts before only a non-empty name, and never before one with a smaller first character |
| Strings.LessIsLexicographic | files/ZPeakAnalysis/test/check_cutflows_cmssw10.py:34 | one name sorts before another exactly when it is a proper prefix of it, or the two first differ at a position where it has the smaller character |
| Strings.LessIrreflexive | files/ZPeakAnalysis/test/check_cutflows_cmssw10.py:34 | no name sorts before itself |
| Strings.LessTransitive | files/ZPeakAnalysis/test/check_cutflows_cmssw10.py:34 | the name order is transitive |
| Strings.LessTotal | files/ZPeakAnalysis/test/check_cutflows_cmssw10.py:34 | of two different names, one sorts before the other |
| Strings.LessAsymmetric | files/ZPeakAnalysis/test/check_cutflows_cmssw10.py:34 | two names never sort before each other |
| Numbers.ParseNumber | files/ZPeakAnalysis/test/check_cutflows_cmssw10.py:14 | the empty text is a conversion error; an accepted text starts with a digit, a point or a sign |
| Numbers.ParseInteger | files/ZPeakAnalysis/test/check_cutflows_cmssw10.py:14 | a digit string converts to the integer it spells |
| Numbers.ParseDecimal | files/ZPeakAnalysis/test/check_cutflows_cmssw10.py:14 | `digits.digits` converts to the digits with the point moved left by the number of fraction digits |
| Numbers.NumberOfUnsigned | files/ZPeakAnalysis/test/check_cutflows_cmssw10.py:14 | a text that does not start with a sign is read as an unsigned literal |
| Numbers.NumberOfSigned | files/ZPeakAnalysis/test/check_cutflows_cmssw10.py:14 | a leading `+` or `-` is read as the sign of the unsigned literal after it, and a rejection stays a rejection |
| Numbers.ParseExponentUnsigned | files/ZPeakAnalysis/test/check_cutflows_cmssw10.py:14 | `<digits>e<digits>` converts to the first digits times ten to the power of the second |
| Numbers.ParseExponentPlus | files/ZPeakAnalysis/test/check_cutflows_cmssw10.py:14 | `<digits>e+<digits>`, the form str.format gives large values such as `1e+20`, converts to the first digits times ten to the power of the second |
| Numbers.ParseExponentMinus | files/ZPeakAnalysis/test/check_cutflows_cmssw10.py:14 | `<digits>e-<digits>` converts to the first digits divided by ten to the power of the second |
| Numbers.ParseNegative | files/ZPeakAnalysis/test/check_cutflows_cmssw10.py:14 | a leading minus negates the value and keeps a rejection a rejection |
| Numbers.ParseNumberAlphabet | files/ZPeakAnalysis/test/check_cutflows_cmssw10.py:14 | an accepted value text holds at least one digit and only digits, `.`, signs and `e`/`E`, so no whitespace and no colon |
| Numbers.ParseExampleRejected | files/ZPeakAnalysis/test/check_cutflows_cmssw10.py:14 | the empty text, `.`, `1e` and `abc` are conversion errors |
| IntegralFile.LineEntry | files/ZPeakAnalysis/test/check_cutflows_cmssw10.py:11-15 | a line is skipped exactly when it has no colon; a stored key has no colon and no edge whitespace; a rejected value text has no edge whitespace and does not convert |
| IntegralFile.ReadEntry | files/ZPeakAnalysis/test/check_cutflows_cmssw10.py:11-15 | the body of the line loop computes exactly the line's entry: skip without a colon, otherwise the converted pair or the failing value text |
| IntegralFile.ParseLines | files/ZPeakAnalysis/test/check_cutflows_cmssw10.py:7-16 | the loop that fills the dictionary line by line gives exactly the result of folding over the line entries, and stops at the first bad value |
| IntegralFile.ColonFreeLineIgnored | files/ZPeakAnalysis/test/check_cutflows_cmssw10.py:11 | inserting a line without a colon anywhere does not change the result |
| IntegralFile.BuildSkipIgnored | files/ZPeakAnalysis/test/check_cutflows_cmssw10.py:11 | a skipped entry anywhere in the sequence does not change the result |
| IntegralFile.BuildAbortsAfterBad | files/ZPeakAnalysis/test/check_cutflows_cmssw10.py:14 | once a prefix of the entries fails, nothing after it changes the outcome |
| IntegralFile.ParsedKeys | files/ZPeakAnalysis/test/check_cutflows_cmssw10.py:11-15 | the record's keys are exactly the keys read from the colon lines whose values convert |
| IntegralFile.LastLineWins | files/ZPeakAnalysis/test/check_cutflows_cmssw10.py:15 | a key's stored value is the value from the last line naming it |
| IntegralFile.BuildLastWins | files/ZPeakAnalysis/test/check_cutflows_cmssw10.py:15 | on entries: a pair with no later pair for the same key is what the record holds |
| IntegralFile.FirstBadLineFails | files/ZPeakAnalysis/test/check_cutflows_cmssw10.py:14 | the first line whose value does not convert makes the parse fail with that value text, and no partial record is returned |
| IntegralFile.NoBadLineSucceeds | files/ZPeakAnalysis/test/check_cutflows_cmssw10.py:10-16 | when every colon line's value converts, the parse succeeds |
| IntegralFile.FailureHasBadLine | files/ZPeakAnalysis/test/check_cutflows_cmssw10.py:20-22 | a failed parse names the value text of a line that does not convert |
| IntegralFile.ParseIntegralFile | files/ZPeakAnalysis/test/check_cutflows_cmssw10.py:5-22 | a missing file, and only that, gives NotFound; every error names the file; on success the keys are those of the file's lines |
| IntegralFile.OneColonLine | files/ZPeakAnalysis/test/check_cutflows_cmssw10.py:12-14 | on a line `k:v` with one colon, the key is k with the label removed and stripped, and the value text is v stripped |
| IntegralFile.NameValueLine | files/ZPeakAnalysis/test/check_cutflows_cmssw10.py:11-15 | a `name: value` line with padding and a line ending, of the shape check_number_events_cmssw10.py writes at its lines 39-41, stores exactly `name` with the converted value |
| IntegralFile.LabelledNameValueLine | files/ZPeakAnalysis/test/check_cutflows_cmssw10.py:13 | an `Integral of name: value` line stores under `name`, with the label gone |
| IntegralFile.DialectsAgreeOnLine | episodes/files/ZPeakAnalysis/test/check_cutflows.py:10-15 | the Python 2 and Python 3 copies read a line the same way when its characters are classified alike |
| Comparator.MinimumExists | files/ZPeakAnalysis/test/check_cutflows_cmssw10.py:34 | every non-empty set of names has a least element |
| Comparator.SortKeys | files/ZPeakAnalysis/test/check_cutflows_cmssw10.py:28-34 | the keys of the union, each exactly once, in strictly ascending order |
| Comparator.SortedUnique | files/ZPeakAnalysis/test/check_cutflows_cmssw10.py:34 | there is only one strictly ascending arrangement of a set of names |
| Comparator.Lookup | files/ZPeakAnalysis/test/check_cutflows_cmssw10.py:35-36 | `data.get(key, None)`: a value exactly when the key is present, and then the stored one |
| Comparator.CompareKey | files/ZPeakAnalysis/test/check_cutflows_cmssw10.py:35-45 | a row holds both lookups; it is MISSING exactly when either file lacks the key, PASS exactly when both have it and \|v1 - v2\| <= tolerance, FAIL otherwise |
| Comparator.Compare | files/ZPeakAnalysis/test/check_cutflows_cmssw10.py:28-49 | one row per key of either file, in strictly ascending order, each reporting its key; match holds exactly when every row passes, which is exactly when both files have the same keys and every pair is within tolerance |
| Comparator.ReportsKeysAppend | files/ZPeakAnalysis/test/check_cutflows_cmssw10.py:34-47 | one step of the loop: the row for the next sorted key extends the table, and the table passes throughout exactly when it did before and the new row passes |
| Comparator.AllPassMatches | files/ZPeakAnalysis/test/check_cutflows_cmssw10.py:29-49 | when every row of the report passes, both files have the same keys and every pair of values is within tolerance |
| Comparator.MatchesAllPass | files/ZPeakAnalysis/test/check_cutflows_cmssw10.py:29-49 | when both files have the same keys and every pair of values is within tolerance, every row of the report passes |
| Comparator.OneDifferenceFails | files/ZPeakAnalysis/test/check_cutflows_cmssw10.py:38-45 | one key in a single file, or one pair further apart than the tolerance, is enough for no match |
| Comparator.SingleDifferenceOneFail | files/ZPeakAnalysis/test/check_cutflows_cmssw10.py:38-47 | records with the same keys that differ beyond tolerance in one key give exactly one FAIL row, for that key, and every other row passes |
| Comparator.ReportUnique | files/ZPeakAnalysis/test/check_cutflows_cmssw10.py:28-47 | the table is determined by the two records |
| Comparator.ReportedRowUnique | files/ZPeakAnalysis/test/check_cutflows_cmssw10.py:35-47 | the row for a key is determined by the two records |
| Comparator.MatchesReflexive | episodes/files/ZPeakAnalysis/test/check_cutflows.py:28-49 | a record matches itself for any tolerance >= 0 |
| Comparator.MatchesSymmetric | episodes/files/ZPeakAnalysis/test/check_cutflows.py:28-49 | swapping the inputs does not change whether they match |
| Comparator.ReportSwapped | episodes/files/ZPeakAnalysis/test/check_cutflows.py:28-47 | swapping the inputs swaps the value columns and keeps every key and status |
| Cli.ExpectedExitCode | files/ZPeakAnalysis/test/check_cutflows_cmssw10.py:57-62 | the exit status is always 0 or 1 |
| Cli.Run | files/ZPeakAnalysis/test/check_cutflows_cmssw10.py:51-62 | exit 0 exactly when both files parse and the comparison matches; an error in file 1 is reported before file 2 is read; either error ends the run before any row; otherwise the rows are the report of the two records |
| Cli.SuccessMeansAgreement | files/ZPeakAnalysis/test/check_cutflows_cmssw10.py:57-62 | exit 0 exactly when both files parse, have the same variables, and every pair differs by at most 1e-6 |
| Cli.SelfComparisonSucceeds | episodes/files/ZPeakAnalysis/test/check_cutflows.py:57-62 | comparing a file that parses with itself exits 0 |
| Cli.ExitCodeSymmetric | episodes/files/ZPeakAnalysis/test/check_cutflows.py:57-62 | the exit status does not depend on the order of the two files |
| Cli.MissingFileFails | episodes/files/ZPeakAnalysis/test/check_cutflows.py:17-19 | a missing first or second file gives exit status 1 |

## Left out

- Printing: the table header, the fixed-width columns, `str(val)` and the error and summary messages are not modelled. Rows carry the key, both values as `Option<real>` and the status, which is what each printed row shows. Errors carry the file name and, for a bad value, its text.
- Floating point: values are exact reals, so NaN, infinities and IEEE rounding in `float()` and in `abs(val1 - val2)` are not modelled. A difference that IEEE rounding pushes across the tolerance can classify differently from the model.
- Numbers.ParseNumber: accepts only decimal literals. `inf`, `nan` and `infinity` spellings, Python 3's digit-group underscores and non-ASCII digits are rejected, where `float()` would accept them.
- I/O errors other than a missing file are not modelled: permission errors, directories, read failures, and Python 3 decoding errors. In the source, each ends the run with status 1 under one of the two error messages.
- Python 2 strings are bytes: each byte is modelled as one character. Python 3 contents are modelled as already decoded.
- Strings.RemoveAll: its own contract states only length and alphabet. Its behaviour is given by the lemmas listed above.
- argparse: a wrong number of arguments exits with argparse's own status 2 and usage text. This is not modelled; `Run` takes the two names directly.
- `sys.exit` is modelled as the returned status code.
- `compare` takes a tolerance argument, which `Comparator.Compare` keeps, but the command line always uses the default 1e-6; no other tolerance is reachable from the command line.
- check_number_events_cmssw10.py is not part of this model: it is ROOT histogram I/O that writes the `name: value` lines. The shape of those lines is what `IntegralFile.NameValueLine` covers.
- MyZPeak_cfg.py is not part of this model: it is only CMSSW job configuration, with no logic.
