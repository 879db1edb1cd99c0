# sedloop: a verified model of `sed.py`

`sed.py` reads shell commands (typically `sed` edits) from `sed.sh` and tries
them. Each trial follows the same steps:

1. Measure the crate with `cargo check`, giving a baseline.
2. Find the files the command names, back them up by base name, and run the
   command.
3. Measure again. Keep the change when the `(errors, warnings)` pair went down
   lexicographically and the drop in errors is not suspiciously large.
   Otherwise copy the backups back.

The project models that loop and the parser it uses. It proves what each piece
computes and what the whole loop guarantees.

- `text.dfy` (module `Text`) holds the Python string built-ins the code relies
  on:
  - `str.isspace`, using the full Unicode whitespace set;
  - `strip()` and `split()` with no argument;
  - `splitlines()`, where `\r\n` is one boundary and a final boundary starts no
    extra line;
  - the substring test `p in s`;
  - POSIX `os.path.basename`, computed as `p[p.rfind('/') + 1:]`.
- `diagnostics.dfy` (module `Diagnostics`) holds `parse_cargo_output`. It is a
  loop over the lines, specified by a fold over the lines.
- `decision.dfy` (module `Decision`) holds the accept/revert test. Python's
  float test `error_diff > initial_errors / 2` is stated as written, with real
  division, and proved equal to the integer test `2 * error_diff > initial_errors`.
- `driver.dfy` (module `Driver`) holds `process_sed_commands`. The working tree
  is a map from path to entry, where an entry is a file with its bytes or a
  directory. The backup directory is a map from base name to bytes. The loop
  body and the whole loop are methods, proved equal to the functions `Step` and
  `Run`.

Running a shell command and running `cargo check` are oracles, passed in as
functions:
- a command gives an exit status and a new tree, depending on the command text
  and the tree it runs on;
- `cargo check` gives its standard output, depending on the tree.

`sed.sh` arrives as `Option<seq<string>>`. `None` means the file does not
exist. Otherwise it holds the lines `readlines()` returned.

The `except Exception` handler is modelled for the one exception the model
represents: `shutil.copy` of a target that is a directory during the backup.
When it happens:
- the command is abandoned;
- the copies already made stay in the backup directory;
- the tree and the baseline are unchanged.

`sed.py` counts lines only by the substrings `error:` and `warning:`. It has no
rule for the `... previous errors; N warnings emitted` summary line, which
counts once, as an error (`ErrorPrefixLine`). It has no per-channel guard and
no whole-run rollback, and the model has none either.

## Model

| member | source | states |
|---|---|---|
| Text.IsSpace | sed.py:43 | defines `str.isspace` for one character, as used by `strip()` and `split()`; characterised through `Strip`, `StripIsInfix` and the `Gaps` lemmas |
| Text.Strip | sed.py:43 | the result has no whitespace at either end, and it is empty exactly when the line is all whitespace |
| Text.StripIsInfix | sed.py:43 | the line is the stripped command with only whitespace before and after it |
| Text.LeadingSpaces | sed.py:43 | the leading run that `strip` drops is all whitespace and is maximal |
| Text.TrailingStart | sed.py:43 | the trailing run that `strip` drops is all whitespace and is maximal |
| Text.TokenEnd | sed.py:52 | a word of `split()` runs to the first whitespace character |
| Text.SplitWhitespace | sed.py:52 | every part `split()` yields is non-empty and free of whitespace |
| Text.SplitJoinSpaced | sed.py:52 | `split()` recovers any sequence of words joined by single spaces |
| Text.SplitWhitespaceCovers | sed.py:52 | `split()` loses only whitespace: the text is its parts interleaved with the gaps around and between them |
| Text.GapsLength | sed.py:52 | there is one more gap than there are parts |
| Text.GapsAreSpace | sed.py:52 | every gap `split()` drops is all whitespace |
| Text.InnerGapsNonEmpty | sed.py:52 | every gap between two parts is non-empty, so the parts are the maximal whitespace-free runs |
| Text.SplitLines | sed.py:15 | every line `splitlines()` yields is free of line boundaries, and there are at most as many lines as characters |
| Text.IsLineBreak | sed.py:15 | defines the line boundaries of `splitlines()`; characterised through `LineEnd`, `LineBreaksAreBoundaries` and `SplitLinesCovers` |
| Text.LineEnd | sed.py:15 | a line ends at the first line boundary |
| Text.BreakWidth | sed.py:15 | a boundary is one or two characters, and two exactly when it is `\r\n` |
| Text.SplitLinesTerminated | sed.py:15 | `splitlines()` recovers the lines of a text that ends each line with a newline |
| Text.SplitLinesCovers | sed.py:15 | `splitlines()` loses only boundaries: the text is each line followed by its boundary, in order |
| Text.LineBreaksLength | sed.py:15 | every line has its own boundary entry |
| Text.LineBreaksAreBoundaries | sed.py:15 | every non-empty boundary entry is one boundary character or `\r\n` |
| Text.UnterminatedLastLine | sed.py:15 | only the last boundary entry can be empty, and then the unterminated last line is non-empty and still counted |
| Text.LoneCarriageReturn | sed.py:15 | a lone `\r` boundary is never directly followed by `\n`, so `\r\n` is always one boundary |
| Text.Contains | sed.py:16-18 | defines the substring test `p in s`; characterised by `ContainsIffOccurs` |
| Text.ContainsIffOccurs | sed.py:16-18 | `p in s` holds exactly when `p` occurs at some index of `s` |
| Text.OccursChars | sed.py:16-18 | every character of an occurring pattern is a character of the text |
| Text.NotContainsMissingChar | sed.py:16-18 | a pattern with a character the line lacks is not in the line |
| Text.ContainsAt | sed.py:16-18 | one occurrence is enough for `p in s` |
| Text.BaseStart | sed.py:64 | the base name starts right after the last `/`, or at 0 when there is none |
| Text.Basename | sed.py:64 | a base name never contains `/` |
| Diagnostics.LineCounts | sed.py:16-19 | defines what one line adds, error test first; characterised by `LineCountsSpec`, `ErrorTakesPrecedence` and `NoColonCountsNothing` |
| Diagnostics.CountLines | sed.py:15-20 | defines the counts of a sequence of lines as the sum of the per-line contributions; characterised by `CountLinesByIndex`, `CountLinesPermutation` and `CountLinesBound` |
| Diagnostics.Parse | sed.py:12-20 | defines the value `parse_cargo_output` returns; `ParseCargoOutput` is proved to compute it |
| Diagnostics.ParseCargoOutput | sed.py:12-20 | the counters the loop returns are the fold of the per-line contributions; empty output gives `(0, 0)`; `errors + warnings` is at most the number of lines |
| Diagnostics.LineCountsSpec | sed.py:16-19 | a line is an error exactly when `error:` occurs in it, and a warning exactly when `error:` does not occur and `warning:` does; it is never both |
| Diagnostics.ErrorTakesPrecedence | sed.py:16-19 | a line with both markers counts as one error and no warning |
| Diagnostics.NoColonCountsNothing | sed.py:16-19 | a line without a `:` holds neither marker and adds nothing |
| Diagnostics.ErrorPrefixLine | sed.py:16-17 | a line starting `error:` (the compiler summary, for one) counts as exactly one error |
| Diagnostics.CountLinesBound | sed.py:15-19 | `errors + warnings` never exceeds the number of lines |
| Diagnostics.CountLinesAppend | sed.py:15-19 | the counts of concatenated line sequences add up |
| Diagnostics.CountLinesPermutation | sed.py:15-19 | reordering the lines does not change the counts |
| Diagnostics.CountLinesRemove | sed.py:15-19 | removing one line takes away exactly what that line contributed |
| Diagnostics.MatchingSnoc | sed.py:15-19 | adding a line adds its index to the matching lines exactly when it matches |
| Diagnostics.CountLinesByIndex | sed.py:15-19 | `errors` is the number of error lines and `warnings` the number of warning-only lines, and the two sets are disjoint |
| Diagnostics.ParseEmpty | sed.py:13-20 | empty output counts `(0, 0)` |
| Diagnostics.ParseTerminated | sed.py:15-20 | the counts of newline-terminated output are the counts of its lines |
| Decision.Improves | sed.py:85 | defines the tuple comparison `(new_errors, new_warnings) < (initial_errors, initial_warnings)`; characterised by `ImprovesIrreflexive`, `ImprovesTransitive` and `ImprovesTotal` |
| Decision.AnomalousAsWritten | sed.py:79-87 | defines the suspicious-drop guard as written, with true division |
| Decision.Anomalous | sed.py:79-87 | defines the guard in integers; `AnomalousExact` proves it equal to the guard as written |
| Decision.Decide | sed.py:85-100 | defines the verdict of the nested test; characterised by `DecideAccepts`, `AcceptLowers` and `TenToOneIsAnomalous` |
| Decision.AnomalousExact | sed.py:87 | the integer test `2 * error_diff > initial_errors` is equivalent to Python's `error_diff > initial_errors / 2` with true division |
| Decision.DecideAccepts | sed.py:85-95 | a change is accepted exactly when it improves lexicographically and the guard written with real division does not fire; it is reverted as anomalous exactly when both hold |
| Decision.AcceptLowers | sed.py:85-95 | an accepted measurement has no more errors than the baseline and differs from it |
| Decision.AcceptedDropBounded | sed.py:87-95 | an accepted change drops at most 8 errors, or keeps at least half of them |
| Decision.SmallBaselineNeverAnomalous | sed.py:87 | with at most 8 baseline errors the guard never fires, so accepting is exactly improving |
| Decision.TenToOneIsAnomalous | sed.py:85-95 | 10 to 1 errors is reverted as anomalous, whatever the warnings; 10 to 2 is accepted |
| Decision.ImprovesIrreflexive | sed.py:85 | no pair improves on itself |
| Decision.ImprovesTransitive | sed.py:85 | improvement is transitive |
| Decision.ImprovesTotal | sed.py:85 | of two different pairs, one improves on the other |
| Decision.AtMostTransitive | sed.py:85-95 | "improves or equal" is transitive and never lets the error count rise |
| Driver.KeepExisting | sed.py:53-55 | every kept word names an existing path |
| Driver.Targets | sed.py:52-55 | defines `target_files` for a command; `ExtractTargets` computes it, and `KeepExistingCount`, `KeepExistingInOrder` and `HasTargetsIff` characterise it |
| Driver.ExtractTargets | sed.py:50-55 | the `append` loop computes exactly the existing words of the command, in order |
| Driver.KeepExistingCount | sed.py:52-55 | an existing word is a target as often as it occurs in the command; no other word is a target |
| Driver.KeepExistingInOrder | sed.py:52-55 | the targets are a subsequence of the command's words |
| Driver.SubsequenceOfLonger | sed.py:52-55 | a subsequence stays a subsequence when the longer sequence grows |
| Driver.HasTargetsIff | sed.py:52-59 | a command has targets exactly when one of its words exists |
| Driver.KeepExistingNonEmpty | sed.py:53-57 | some word is kept exactly when some word exists |
| Driver.BackUp | sed.py:62-66 | every recorded backup names a file in the backup directory |
| Driver.BackUpSpec | sed.py:62-66 | the backup loop succeeds exactly when every target is a regular file; then the keys of `backups` are exactly the targets, and each maps to its base name |
| Driver.BackUpFailureSticks | sed.py:63-65 | once a copy fails, the loop's outcome is that failure, with the copies made before it |
| Driver.BackUpTargets | sed.py:62-66 | the loop that fills `backups` computes the backup function's result, success or failure |
| Driver.BackUpFaithful | sed.py:62-66 | with pairwise distinct base names, every target's backup holds that target's bytes |
| Driver.BasenameCollision | sed.py:64-66 | two different files with one base name leave the earlier target's backup holding the later target's bytes |
| Driver.Restore | sed.py:90-100 | defines the tree after the copy-back loop; `RestoreBackups` computes it and `RestoreFaithful` characterises it |
| Driver.RestoreBackups | sed.py:90-100 | each of the two copy-back loops over `backups.items()` yields the tree with every backup written over its target, whatever the order |
| Driver.BackupsHoldTargets | sed.py:62-66 | with distinct base names, the entries the backups write back are the targets' old entries |
| Driver.RestoreFaithful | sed.py:90-100 | with distinct base names, restoring over any tree puts back every target's old entry and touches nothing else |
| Driver.Step | sed.py:43-104 | defines one iteration of the loop; its outcomes are fixed by `StepSkips`, `StepBackupFailed`, `StepClassify` and `StepReverted` |
| Driver.ProcessCommand | sed.py:43-104 | the loop body's new tree, backup directory and baseline are those of `Step` |
| Driver.StepSkips | sed.py:43-59 | a line is skipped as blank exactly when it strips to nothing, and for lack of targets exactly when no word exists; both leave everything unchanged |
| Driver.StepBackupFailed | sed.py:61-66 | for any line, the command is abandoned at backup exactly when some target is not a regular file; the tree and baseline are then unchanged |
| Driver.StepApplyFailed | sed.py:69-72 | a non-zero exit keeps the tree the command left, restores nothing, and keeps the baseline |
| Driver.StepBaseline | sed.py:74-95 | the baseline changes exactly on accept, and then it is the new measurement, which the decision accepted; it never goes up |
| Driver.StepClassify | sed.py:69-100 | once the backups are made, a non-zero exit gives ApplyFailed with the command's tree and the old baseline; a zero exit measures the command's tree and gives Accepted with the new baseline when the decision accepts, otherwise Reverted with the backups restored and the old baseline |
| Driver.StepReverted | sed.py:69-100 | a revert happens only after every backup was made and the command exited 0, and its state is the backups copied over the command's tree with the old baseline |
| Driver.StepRevertRestores | sed.py:85-100 | with distinct base names, a revert leaves the command's tree with every target's old entry put back, and the baseline unchanged |
| Driver.OverwriteUndoes | sed.py:90-100 | writing old entries back over the only paths a change touched gives back the old tree |
| Driver.RevertUndoes | sed.py:85-100 | a reverted command that touched only its targets, with distinct base names, leaves the tree and baseline exactly as before |
| Driver.Run | sed.py:42-104 | defines the state after processing the lines in file order; characterised by `RunAppend`, `RunBaselineMonotone` and `RunBlankLines` |
| Driver.Initial | sed.py:35-41 | defines the state before the loop: the tree, an empty backup directory and the initial measurement |
| Driver.RunAppend | sed.py:42 | commands are processed in file order, so running `a + b` is running `a` and then `b` |
| Driver.RunBaselineMonotone | sed.py:42-95 | across any sequence of commands the baseline is lexicographically non-increasing, and its error count never rises |
| Driver.RunBlankLines | sed.py:42-45 | lines that are blank after stripping change nothing |
| Driver.ProcessSedCommands | sed.py:23-104 | without `sed.sh` nothing changes; otherwise the final tree and baseline are those of `Run` from the initial measurement, and the final baseline is at most the initial one |

## Left out

- `run_command`, the shell and `cargo check` are oracles. They are total and
  deterministic functions of the command text and the tree. Time, the
  environment and anything outside the tree do not influence them.
- Commands are assumed to leave the backup directory alone: a `Runner` sees
  and returns only the tree, so it cannot write the temporary directory the
  backups sit in. `StepRevertRestores` and `RevertUndoes` rely on this.
- `cargo check` is assumed to leave the tree unchanged. Its build output
  (`target/`) and any `Cargo.lock` it writes are outside the modelled tree, so
  later `os.path.exists` tests do not see them, and `RevertUndoes` speaks of
  the tree without them.
- Only the standard output of `cargo check` is parsed, as in the source. Where
  the compiler writes its diagnostics is part of the oracle.
- `print` output is not modelled.
- `open` and `readlines()` of `sed.sh` are not modelled. The lines are an input.
  Each line's newline is removed by `strip`, as in the source.
- `tempfile.TemporaryDirectory` is a map from base name to bytes that starts
  empty. Its deletion at the end is not modelled, and neither is the
  directory's path.
- File-system aliasing is not modelled: symbolic links, hard links, `.` and
  `..`, and two spellings of one path. Paths are compared as strings.
- `shutil.copy` during the backup either copies a regular file or raises for a
  directory. Permission errors and other I/O failures are not modelled.
- Restore copies back into the tree without failing. If the command turned a
  target into a directory, `shutil.copy` would write into that directory
  instead. The model overwrites the entry.
- No exception other than a failed backup copy is modelled. Examples are a
  failure of `subprocess.run`, or a failed copy during restore.
- Text decoding (`text=True`) is not modelled. Strings are sequences of Unicode
  code points.
- Decision.AnomalousExact: Python's division is a double, and the model uses
  exact real division. The two agree while `initial_errors` is below 2^53, far
  beyond any error count.
