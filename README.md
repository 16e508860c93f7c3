# Code-review bot core in Dafny

This project models the two pieces of logic of the code-review repository:

- **The review script.** `scripts/review_script.py` has two parts:
  - `revisar_codigo` is a line-scan heuristic. It splits a file's patch text with `str.splitlines()` and numbers the lines from 1. For every line that contains `"def "` anywhere, it reports the line number with one fixed comment text, suggesting a docstring.
  - `processar_pr` walks the pull request's changed files in order. For each file it reads `filename` (a missing key raises `KeyError`) and `patch` (defaulting to `""`). It scans the patch and posts one review comment per finding, in order, through `adicionar_comentario_pr`. That function re-raises when GitHub rejects the comment, so the first failure ends the whole run.
- **The age calculation** `calcular_idade` in `src/person.py`. It splits the birth date on `'-'` and reads the fields with `int()`. It returns the year difference, less one when today's (month, day) comes strictly before the birth (month, day). The fields are read lazily, in the order Python's `or`/`and` evaluate them.

Layout:

- `wrappers.dfy`: `Option` and `Result`.
- `strings.dfy` (module `Strings`): the Python string built-ins the code relies on:
  - `str.splitlines()` with its full set of line boundaries, where `"\r\n"` is one boundary and a final boundary opens no extra line;
  - the substring test `pat in s`;
  - `str.split` with a one-character separator;
  - `int()` on ASCII decimal digits.
- `review_script.dfy` (module `ReviewScript`): the scanner, and the publishing loop as imperative methods.
  - The scanner is `ReviewCode`, proved against the function `Review`.
  - The publishing loop is `ProcessPr` and `PostFindings`. They run against a `PullRequest` object that records every call of `adicionar_comentario_pr` (whether or not its POST was sent) and every accepted comment.
  - Both are proved against `RunOf`: what a run attempts, what it keeps and how it ends.
- `person.dfy` (module `Person`): `calcular_idade` as the function `Age`, which returns the age or the exception it raises. It takes `today` as a parameter.

GitHub's answers are the `PullRequest`'s `accepts(n, c)` function: whether attempt number `n`, carrying comment `c`, succeeds. Any run of answers is covered, because the proofs hold for every `accepts`.

## Model

| member | source | states |
|---|---|---|
| Strings.ContainsIff | scripts/review_script.py:53 | The substring scan holds exactly when some index starts an occurrence of the pattern, anywhere in the line |
| Strings.MissingCharNotContained | scripts/review_script.py:53 | A pattern holding a character that the text lacks never occurs in it |
| Strings.SplitLinesHaveNoBoundary | scripts/review_script.py:52 | No line that `splitlines` returns holds a line-boundary character |
| Strings.SplitLinesCount | scripts/review_script.py:52 | Only the empty text has no lines, and no text has more lines than characters |
| Strings.SplitLinesRoundTrip | scripts/review_script.py:52 | For text whose only boundary is `'\n'`, writing each line back with `"\n"` gives the text, plus a final `"\n"` if it lacked one |
| Strings.TrailingNewlineAddsNoLine | scripts/review_script.py:52 | A `"\n"` after an unterminated last line does not add an empty line |
| Strings.Split | src/person.py:7 | `split` always yields at least one field |
| Strings.SplitFieldsLackSeparator | src/person.py:7 | No field holds the separator |
| Strings.JoinSplit | src/person.py:7 | Joining the fields with the separator gives the text back |
| Strings.SplitAppend | src/person.py:7-8 | Splitting `a + sep + b` gives the fields of `a` followed by those of `b` |
| Strings.SplitWithoutSeparator | src/person.py:7-8 | Text without the separator is a single field |
| Strings.ParseInt | src/person.py:7 | The model of `int()` succeeds exactly on non-empty ASCII-digit text |
| Strings.ParseDigits | src/person.py:7 | The decimal representation of `n` reads back as `n` |
| Strings.ParseLeadingZero | src/person.py:7 | Leading zeros do not change the value read |
| ReviewScript.ReviewCode | scripts/review_script.py:49-55 | The loop collects exactly the findings `Review` specifies |
| ReviewScript.FlaggedPositionsSpec | scripts/review_script.py:52-54 | Positions lie between 1 and the number of lines and strictly increase; a line number is reported exactly when its line contains `"def "` |
| ReviewScript.FlaggedPositionsCount | scripts/review_script.py:53-54 | There are exactly as many findings as flagged lines |
| ReviewScript.ReviewSpec | scripts/review_script.py:49-55 | The findings for a patch are in line order and in range, every one carries the docstring hint, they sit exactly on the flagged lines, and their number equals the number of flagged lines |
| ReviewScript.ReviewEmpty | scripts/review_script.py:62 | An empty patch (also what a file without `patch` gets) yields no findings |
| ReviewScript.UnanchoredMatch | scripts/review_script.py:53 | `"undef x"` and `"# see def here"` are flagged; `"define(x)"` is not |
| ReviewScript.PullRequest.AddComment | scripts/review_script.py:30-47 | One post is appended to the attempts; it is kept as a comment exactly when GitHub accepts it, and the result reports which |
| ReviewScript.FileCommentsSpec | scripts/review_script.py:64-66 | A file's comments carry its path and the docstring hint, at strictly increasing positions that are exactly its flagged lines |
| ReviewScript.ScheduleCount | scripts/review_script.py:60-66 | Processing stops exactly at the first file without `filename`; when every file has one, one comment is scheduled per finding of every file |
| ReviewScript.CompletedRunPostsEveryFinding | scripts/review_script.py:64-66 | A run that completes posted as many comments as there are findings over all files |
| ReviewScript.LeadingAccepted | scripts/review_script.py:45-47 | The count of leading accepted posts never exceeds the number of posts |
| ReviewScript.LeadingAcceptedSpec | scripts/review_script.py:45-47 | The count is the index of the first rejected post: all posts before it are accepted, and the one at it is rejected |
| ReviewScript.LeadingAcceptedConcat | scripts/review_script.py:65-66 | Posting two batches in a row stops in the first at its first rejection, or else continues into the second |
| ReviewScript.PostFindings | scripts/review_script.py:65-66 | The inner loop posts the file's comments in order and stops at the first rejection, which is the last one attempted |
| ReviewScript.ProcessPr | scripts/review_script.py:57-66 | The run attempts and keeps exactly what `RunOf` gives, and ends with its outcome |
| ReviewScript.SchedulePrefix | scripts/review_script.py:60-61 | The first files schedule a prefix of the posts, and nothing after a missing `filename` is scheduled |
| ReviewScript.ScheduleStep | scripts/review_script.py:60-66 | A file with a `filename` appends its comments to the schedule, and they stay accepted |
| ReviewScript.RunStopsAtMissingFilename | scripts/review_script.py:61 | A file without `filename` ends the run with `KeyError` after exactly the earlier files' comments |
| ReviewScript.RunStopsAtRejection | scripts/review_script.py:45-47 | A rejected post ends the run: nothing later in the same file or in later files is attempted |
| ReviewScript.RejectionInBlock | scripts/review_script.py:65-66 | When all earlier posts are accepted, the count stops inside the batch holding the first rejection |
| Person.Age | src/person.py:4-10 | When it returns, the year and month fields were integers and the age is the year difference or one less |
| Person.AgeSucceedsIff | src/person.py:7-8 | The call succeeds exactly when the year and month are integers and, in the birth month, so is the day; otherwise the first bad field read is reported |
| Person.AgeDecrement | src/person.py:8-9 | One is subtracted exactly when today's month is earlier, or it is the same month and today's day is earlier |
| Person.BirthdayNoDecrement | src/person.py:8 | On the birthday itself nothing is subtracted |
| Person.OneFieldFails | src/person.py:8 | Text without `'-'` always fails: on the year if it is not an integer, otherwise on the missing month |
| Person.TwoFieldsNeedDayOnlyInBirthMonth | src/person.py:8 | With two integer fields the call succeeds exactly when today's month differs from the birth month, and otherwise reports the missing third field |
| Person.ExtraFieldsIgnored | src/person.py:7-8 | Anything after the third field does not change the result |
| Person.FieldsAfterThirdIgnored | src/person.py:7-8 | Fields after the third do not change the result of the field-level calculation |
| Person.MonthOutOfRangeDecrements | src/person.py:8 | Month is not range-checked: a birth month above 12 always subtracts one, without reading the day |
| Person.ParsePadded | src/person.py:7 | A zero-padded number reads back as itself |
| Person.FormatDateFields | src/person.py:7-8 | A date written as `YYYY-MM-DD` reads back as its year, month and day |
| Person.AgeCountsAnniversaries | src/person.py:4-10 | For a well-formed date, the result is `k` exactly when the `k`-th anniversary has been reached by today and the next one has not |

## Left out

- `obter_arquivos_pr` (scripts/review_script.py:13-19) is an HTTP call. `ProcessPr` takes the list of changed files as a parameter instead, so a failure to list them is not modelled.
- `obter_commit_id` (scripts/review_script.py:21-28) is an HTTP call. Its result, the payload's `commit_id`, is not part of `ReviewComment`. Its failure, like a failure of the POST, is one rejected attempt in `accepts`.
- The POST itself (scripts/review_script.py:41-43) and its HTTP error are the pull request's `accepts` function. The response text is not modelled.
- Configuration is not modelled: the `GITHUB_TOKEN` check, `PR_NUMBER` and the repository constants (scripts/review_script.py:4-11, 68-71). These are process start-up and do not change the logic.
- `print` output is not modelled (scripts/review_script.py:44, 46, 63; src/person.py:13). It is logging only.
- `datetime.now()` (src/person.py:6) is a clock read. `Age` takes `today` as a parameter.
- Person.Age: `int()` is modelled on ASCII decimal digits only. Python also accepts surrounding whitespace, a leading `+`, underscores between digits and non-ASCII decimal digits; for such fields the model reports `NotAnInteger` where Python returns a number. A `-` sign cannot occur, since `-` is the separator.
- Strings.ParseInt: models `int()` on ASCII decimal digits only; text with surrounding whitespace, a leading `+`, underscores between digits or non-ASCII decimal digits is rejected here, though Python reads it as a number. Python's limit on the number of digits `int()` converts (4300 by default since Python 3.11, configurable) is not modelled: longer digit strings parse here.
- ReviewScript.ChangedFile: a `patch` of JSON `null` is not distinguished from a missing one. In Python the first makes `splitlines()` raise; the model treats both as `""`.
- Type errors are not modelled. A `filename` or `patch` that is not a string is outside the model, as is a file-list entry that is not an object.
- A rejected comment does not let the run continue: `adicionar_comentario_pr` logs the error and then re-raises it (scripts/review_script.py:45-47), so the first rejection ends the whole run. The model follows the script and leaves the log line out.
- How a line number of the patch maps to GitHub's diff position is not modelled. The position posted is the line number, as in the script.
