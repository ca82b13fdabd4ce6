# Docking batch runner: score extraction, collection and ranking

This project models the logic of `docking_module.py`, a script that runs the
AutoDock Vina binary on every ligand conformer file, reads the best binding
affinity from each job's log, and prints a table of the jobs ranked by that
score. The model leaves out the I/O. The log text, the exit code, the runtime
and each job's outcome are inputs.

- `Text` (`text.dfy`): the string operations the script uses. These are
  Python's `str.isspace` (the characters `\s` matches), `str.splitlines`,
  POSIX `os.path.basename`, and the slice `s[:-n]`.
- `Numbers` (`numbers.dfy`): `float(token)` for tokens over `-0123456789.`.
  A token is accepted exactly when it is the text of a well-formed decimal
  literal: an optional `-`, then digits with at most one `.`, and at least one
  digit. Its value is an exact `real`. Any other token makes `float` raise,
  and the model returns `None`.
- `ScorePattern` (`score_pattern.dfy`): the pattern
  `\s+1\s+([-0-9.]+)\s+kcal/mol`. `Shape` states it as positions that split
  the line into parts. `MatchAt` computes the match from a start position by
  matching the pattern's items one after another (`MatchItems`), each run of
  a class taken whole. `Search` starts at the leftmost position with a match
  (`MatchStart`), as `re.search` does.
- `Docking` (`docking.dfy`): `run_docking`. It covers the two derived file
  names, and the scan over the log's lines that stops at the first line where
  the pattern is found (`ExtractBestScore`, a `while` loop with a `break`). It
  also covers the result row (`RunDocking`).
- `Batch` (`batch.dfy`): the `__main__` loop that appends each returned row
  and drops each job that raised (`CollectResults`). It also covers the sort
  by `best_score`, with missing scores last (`Rank`), and the whole batch
  (`RunBatch`).

Points where the code's behaviour is easy to misread:
- A job whose future raises produces no row (`docking_module.py:122-127`),
  so the table can hold fewer rows than there are ligand files.
- Missing scores go last, which is pandas' default `na_position='last'`.
- The sort leaves the order of tied rows unspecified (pandas' default
  quicksort). So `Ranked` plus "is a permutation" is the contract, and
  `SortRows` is just one sort that meets it. `RankingDeterminesScores` shows
  that every ranking of the same rows has the same score column.
- An empty result list makes `sort_values(by="best_score")` raise, because
  the frame has no such column. `Rank` returns `None` in that case.

Each operation of the script has one function or method that computes it:
`str.splitlines` is `Text.SplitLines`, `os.path.basename` is
`Text.Basename`, `ligand[:-6]` is `Text.DropLast`, `float` is
`Numbers.ParseFloat`, the pattern's match from one position is
`ScorePattern.MatchAt` and `score_pattern.search` is `ScorePattern.Search`.
The two derived names (`docking_module.py:59-60`) are
`Docking.DockedOutPath` and `Docking.LogFilePath`. The score read from a log
(`docking_module.py:82-95`) is `Docking.BestScore`, computed by the loop in
`Docking.ExtractBestScore`. The collected rows (`docking_module.py:116-127`)
are `Batch.Successes`, computed by the loop in `Batch.CollectResults`.
The rows below name the lemmas and contracts that state what each of them
does.

The command hands Vina `config_brd4.txt`, while the log files are named
`log_fkbp_…`. The model keeps both names as the code writes them.

## Model

| member | source | states |
|---|---|---|
| `Text.SplitLines` | docking_module.py:89 | no line that `splitlines` yields contains a line break |
| `Text.SplitJoin` | docking_module.py:89 | lines ended by `\n`, `\r\n` or `\r` split back into exactly those lines |
| `Text.SplitLinesCons` | docking_module.py:89 | a line without breaks, its terminator and the rest split into that line followed by the rest's lines |
| `Text.BasenameIsLastComponent` | docking_module.py:60 | `basename(path) == name` iff `name` has no `/`, is a suffix of `path`, and is either all of `path` or follows a `/` |
| `Text.DropLast` | docking_module.py:59 | `s[:-n]` is the prefix of `s` that is `n` characters shorter, or the empty string when `s` is shorter than `n` |
| `Numbers.LexRender` | docking_module.py:92 | a token lexes to a literal iff the literal is well formed and the token is its text |
| `Numbers.ParseFloatAccepts` | docking_module.py:92 | every well-formed literal's text converts to that literal's exact value |
| `Numbers.ParseFloatRejects` | docking_module.py:92-95 | a token that is the text of no well-formed literal does not convert (float raises) |
| `Numbers.MisplacedSignRejected` | docking_module.py:92-95 | a token with a `-` anywhere but first does not convert |
| `Numbers.TwoPointsRejected` | docking_module.py:92-95 | a token with two `.` does not convert |
| `Numbers.NoDigitRejected` | docking_module.py:92-95 | a token without a digit does not convert |
| `Numbers.DigitlessTokens` | docking_module.py:92-95 | `-` and `.` do not convert |
| `Numbers.TwoPointsToken` | docking_module.py:92-95 | `1.2.3` does not convert |
| `Numbers.MisplacedSignTokens` | docking_module.py:92-95 | `--5` and `5-` do not convert |
| `Numbers.ScoreMinusSevenPointTwo` | docking_module.py:92 | `-7.20` converts to -7.2 |
| `Numbers.NoWholePart` | docking_module.py:92 | `-.5` converts to -0.5 |
| `Numbers.NoFractionDigits` | docking_module.py:92 | `12.` converts to 12 |
| `ScorePattern.MatchAtIsShape` | docking_module.py:83 | the computed match from a start position captures `tok` iff the pattern's parts can be laid out from there with capture `tok` |
| `ScorePattern.MatchItemsSpans` | docking_module.py:83 | each item of a computed match covers the text from the previous item's end to its own: a run of its class, or its fixed text |
| `ScorePattern.MatchStart` | docking_module.py:90 | no computed match succeeds before the start position, and one succeeds there unless it is the end of the line |
| `ScorePattern.SearchIsLeftmost` | docking_module.py:90 | `search` finds `tok` iff the pattern matches with capture `tok` at some position and at no earlier one |
| `ScorePattern.SearchFindsNothing` | docking_module.py:90 | `search` finds nothing iff the pattern matches at no position with any capture |
| `ScorePattern.Search` | docking_module.py:90-92 | a found capture is non-empty and uses only the characters `-0123456789.` |
| `ScorePattern.MatchFromStart` | docking_module.py:83-90 | a line the pattern matches from its first character is found with that capture |
| `ScorePattern.MatchNeedsSpacedRank` | docking_module.py:83 | every match has a `1` with whitespace directly before and after it |
| `ScorePattern.NoSpacedRankNoMatch` | docking_module.py:83 | a line with no `1` between whitespace has no match |
| `ScorePattern.RankOneLine` | docking_module.py:83 | `"   1   -7.20  kcal/mol"` captures `-7.20` |
| `ScorePattern.MalformedRankOneLine` | docking_module.py:83 | `"   1   --5  kcal/mol"` captures `--5` |
| `ScorePattern.RankAtLineStart` | docking_module.py:83 | `"1 -7.2 kcal/mol"`, with no whitespace before the rank, has no match |
| `ScorePattern.RankEleven` | docking_module.py:83 | `"  11 -7.2 kcal/mol"` has no match |
| `Docking.DockedOutPathIs` | docking_module.py:59 | the docked-output path is `stem + "_docked_out_2.pdbqt"` iff `stem` is the ligand path less its last six characters (empty when it is shorter) |
| `Docking.DockedOutOfPdbqt` | docking_module.py:59 | for `stem + ".pdbqt"` the docked output is `stem + "_docked_out_2.pdbqt"` |
| `Docking.DockedOutOfShortPath` | docking_module.py:59 | a ligand path shorter than six characters gives just `_docked_out_2.pdbqt` |
| `Docking.LogFileOfPath` | docking_module.py:60 | for `dir/name` the log file is `log_fkbp_name.txt` |
| `Docking.LogFilesCollide` | docking_module.py:60 | two ligands share a log file iff they share a base name |
| `Docking.FirstMatch` | docking_module.py:89-93 | no token is found iff the pattern is found on no line; a found token uses only `-0123456789.` |
| `Docking.ScoreOfLines` | docking_module.py:82-93 | when no line matches, the score is None (no error) |
| `Docking.ExtractBestScore` | docking_module.py:82-95 | the loop over lines leaves exactly the score of the first matching line's token, or None when no line matches, the token is refused by `float`, or the log could not be read |
| `Docking.RunDocking` | docking_module.py:54-103 | the row has the input ligand path, the derived output and log names, the runtime, and the extracted score, whatever the exit code |
| `Docking.FirstMatchWins` | docking_module.py:89-93 | if line `k` is the first that matches, its token decides the score |
| `Docking.LaterLinesIgnored` | docking_module.py:91-93 | once a line has matched, adding any lines after it changes nothing |
| `Docking.MalformedFirstTokenGivesNone` | docking_module.py:92-95 | if the first matching line's token is refused by `float`, the score is None, whatever later lines hold |
| `Docking.TwoPoseLines` | docking_module.py:89 | the two-pose log splits into its two lines |
| `Docking.TwoPoseLog` | docking_module.py:82-93 | a rank-1 line at -7.20 followed by a rank-2 line at -6.90 scores -7.2 |
| `Docking.MalformedPoseLines` | docking_module.py:89 | the malformed-then-good log splits into its two lines |
| `Docking.MalformedPoseLog` | docking_module.py:92-95 | a rank-1 line with token `--5` followed by a good rank-1 line scores None |
| `Batch.CollectResults` | docking_module.py:116-127 | the loop leaves exactly the returned rows, in completion order, and drops the jobs that raised |
| `Batch.SuccessCount` | docking_module.py:119-127 | there are as many rows as jobs that returned, so no more rows than jobs |
| `Batch.AllReturnedIffNoneDropped` | docking_module.py:122-127 | there are as many rows as jobs iff no job raised |
| `Batch.NoRowsIffAllRaised` | docking_module.py:122-127 | no row is collected iff every job raised |
| `Batch.CollectedRows` | docking_module.py:123-125 | a row is collected iff some job returned it |
| `Batch.CompletionOrderIrrelevant` | docking_module.py:120-121 | any two completion orders of the same outcomes collect the same rows, up to order |
| `Batch.RankedMeans` | docking_module.py:130 | ranked means scored rows ascend and every unscored row comes after every scored one |
| `Batch.InsertRow` | docking_module.py:130 | inserting a row into a ranked table keeps it ranked and adds exactly that row |
| `Batch.SortRows` | docking_module.py:130 | the reference sort yields a ranked permutation of its input |
| `Batch.Rank` | docking_module.py:129-130 | no table iff there are no rows; otherwise a ranked permutation of the rows |
| `Batch.RankingDeterminesScores` | docking_module.py:130 | any two rankings of the same rows have the same score column |
| `Batch.NullsLastThreeRows` | docking_module.py:130 | two scored rows and one unscored row can only be ranked as the better score, the worse score, then the unscored row |
| `Batch.RunBatch` | docking_module.py:116-130 | there is no table iff every job raised; otherwise the table is ranked, is a permutation of the returned rows whatever the completion order, and has no more rows than jobs |

## Left out

- Changing the working directory, the hard-coded paths, and writing the two
  configuration files (`docking_module.py:11-49`): these are file I/O, and
  the configuration text is written without being read back.
- The Vina command line and `subprocess.run`, opening the log for writing,
  and reading it back (`docking_module.py:61-75`, `85-86`): the log's text is
  an input, `None` when opening or reading it raised.
- The exit code: it is an input that is only printed, so nothing depends on it.
- The runtime measured with `time.time()` (`docking_module.py:71`, `75`): an
  input.
- Every `print`, including the 200-character log excerpt and the final table
  printout.
- `ThreadPoolExecutor` with its two workers and `as_completed`
  (`docking_module.py:119-121`): the concurrency is replaced by an input
  sequence in completion order. That sequence holds each submitted job's
  outcome once, as a permutation of the submitted outcomes. The bound on
  concurrent processes is not modelled.
- The discovery of ligand files with `sorted(glob.glob(...))`
  (`docking_module.py:107`) and the single test run before the batch
  (`docking_module.py:111-114`): these are I/O and debugging output. The model
  starts from the jobs' outcomes. The test run is outside any `try`: if that
  job raises, the script ends before the batch starts. `RunBatch` describes
  the batch only.
- Numbers.ParseFloat: models `float` only on strings over `-0123456789.`. Those
  are the only strings the pattern can capture. Signs other than `-`,
  exponents, `inf`, `nan`, underscores and surrounding whitespace cannot
  occur in a capture.
- Numbers.Value: an exact decimal, not the nearest binary double. `-0` is 0.
  Rounding is monotone, so the ranking agrees with the model except where
  distinct decimals round to the same double.
- Batch.Rank: `SortRows` is one permutation the sort may produce. pandas'
  quicksort does not fix the order of tied rows. `Ranked`, the permutation
  property and `RankingDeterminesScores` say everything that is fixed.
- The regular-expression engine in general: only this one pattern is
  modelled. Its match is stated through `Shape` and proved equal to the
  computed one.
- `Text.IsSpace` and `Text.IsLineBreak` list the characters for which
  Python's `str.isspace` holds and at which `str.splitlines` breaks lines.
  They are not derived from the Unicode database.
- The DataFrame's columns and dtypes: a row is the five-field datatype `Row`.
