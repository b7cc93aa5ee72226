# terraform_definition_validator in Dafny

A model of `parse_container_definition.py`, a checker for JSON documents embedded in
Terraform files. The program works in five steps:

1. It collects the `.tf` files of a directory.
2. For each file and each enclosure keyword (`DEFINITION`, `EOF`, `INPUT`, `PATTERN`,
   `POLICY`), it cuts out the heredoc blocks `name = <<KEYWORD … KEYWORD`. In a
   captured line, each Terraform interpolation `${…}` that the scan closes is replaced
   by a placeholder. Not every one is closed: an escaped `\${…}` is kept on purpose,
   and one after a collapsed `""` can be missed (see "## Findings").
3. It hands each block text to a JSON parser and keeps one error message per keyword.
4. It shifts the line number in each message by the start line of a block.
5. It returns exit status 1 if anything is left in the error dictionary.

The modules follow those steps:

- `Text`: Python's string primitives as the program uses them. This covers negative
  indexing, clamped slicing, `str.replace`, `in`, the Unicode `\s` set, `int()` of digits
  and `str()` of a number. An `IndexError` is a value, `PyResult.IndexError`.
- `Substituter`: the character scan that replaces `${…}` expressions.
  - `Substitute` is its specification: a left fold over the original characters.
  - `SubstituteTfVars` is the loop.
- `TfFiles`: the file-name filter `\S+\.tf` and the walk that applies it.
- `Extractor`: the per-keyword state machine over the lines of a file, and the
  collection over all keywords and all files.
  - `Extract`, `FileBlocks` and `JsonBlocks` are the specification functions.
  - `ExtractBlocks`, `ExtractFile` and `GetJsonsFromTfFiles` are the loops.
- `Validator`: the JSON check, with the parser as a parameter.
- `Corrector`: the search for `line N column` and the rewriting of messages.
- `Reporter`: the exit status, and the whole run from files to status.

Dictionaries the source mutates become maps that the methods build and return. A loop
over a Python `set` becomes a loop that takes an arbitrary element (`:|`). Anything
that depends on set order is therefore specified only up to that choice.

## Model

| member | source | states |
|---|---|---|
| `Text.AtModulo` | parse_container_definition.py:50 | any index Python accepts (`-len(s) <= j < len(s)`) reads the character at `j` modulo the length, so `line[i - 1]` with `i - 1 == -1` reads the last character |
| `Text.Slice` | parse_container_definition.py:56 | a slice is never longer than the string, and is the plain subsequence when its bounds are in range |
| `Text.ReplaceAllLength` | parse_container_definition.py:64 | `str.replace` changes the length by (number of non-overlapping occurrences) × (length difference) |
| `Text.CountPositiveIffContains` | parse_container_definition.py:64 | some occurrence is replaced exactly when the pattern is `in` the string |
| `Text.ReplaceAllAbsent` | parse_container_definition.py:154 | replacing an absent pattern leaves the string unchanged |
| `Text.ReplaceAllSelf` | parse_container_definition.py:154 | replacing a pattern by itself leaves the string unchanged |
| `Text.ReplaceAllKeepsAbsent` | parse_container_definition.py:64 | a replacement sharing no character with a word never creates that word |
| `Text.SkipSpacesRun` | parse_container_definition.py:88 | a greedy `\s*` passes over whitespace only and stops at the first character that is not whitespace |
| `Text.SkipNonSpacesRun` | parse_container_definition.py:88 | a greedy `\S+` passes over non-whitespace only and stops at the first whitespace character |
| `Text.SkipSpacesExact` | parse_container_definition.py:88 | a whitespace run has one end: any index that closes it is where the scan stops |
| `Text.DigitsValueOfDecimal` | parse_container_definition.py:153-154 | `int(str(n)) == n` |
| `Text.DecimalOfDigitsValue` | parse_container_definition.py:153-154 | `str(int(ds)) == ds` for digits without leading zeros |
| `Text.DecimalIsCanonical` | parse_container_definition.py:154 | `str(n)` has no leading zero, and has two or more digits exactly when `n >= 10` |
| `Substituter.SubstituteTfVars` | parse_container_definition.py:40-69 | the loop yields exactly the fold `Substitute`, including the `IndexError` raised when replacements shrink the line under the index |
| `Substituter.Iteration` | parse_container_definition.py:49-67 | one pass of the loop body is exactly one step of the fold, including the `IndexError` at `line[i - 1]` |
| `Substituter.StepAligned` | parse_container_definition.py:49-67 | one step of the fold brings the index exactly one character closer to the end of the line, whatever the line is rewritten to; it raises only when `line[i - 1]` or `line[i - 2]` is outside the line |
| `Substituter.StepKeepsLine` | parse_container_definition.py:49-60 | a step that closes nothing keeps the line and moves the index by one; at depth 0 it stays at depth 0 unless it reads `{` after `$` |
| `Substituter.ScanErrorPersists` | parse_container_definition.py:50-58 | once the scan raises `IndexError`, every longer prefix does too |
| `Substituter.ScanReachable` | parse_container_definition.py:48-67 | after `k` characters, depth is non-negative, the index keeps its distance to the end of the rewritten line, and an open expression starts with `$` |
| `Substituter.StepEscaped` | parse_container_definition.py:50 | a character after a backslash neither opens nor closes nor changes depth |
| `Substituter.StepOtherChar` | parse_container_definition.py:50-60 | a character other than a brace leaves the state alone apart from the index |
| `Substituter.StepOpens` | parse_container_definition.py:58-60 | at depth 0, depth becomes 1 exactly on a `{` after an unescaped `$`, and the opening index is recorded |
| `Substituter.StepRewritesOnlyOnClose` | parse_container_definition.py:53-67 | the line changes only on the `}` that brings depth from 1 to 0, and never while an expression is open |
| `Substituter.StepReplaces` | parse_container_definition.py:55-67 | on that `}` the captured text is replaced everywhere, doubled quotes are collapsed, and the index is moved back by the shrinkage |
| `Substituter.CapturedExpression` | parse_container_definition.py:56 | when the current line still holds the `{` at `initial_dollar` and the `}` at `i + 1`, the captured text runs from the `$` before that `{` to that `}` |
| `Substituter.UntouchedAligned` | parse_container_definition.py:48-60 | before the first replacement the line is the original and the index is the character count minus one |
| `Substituter.FirstReplacement` | parse_container_definition.py:53-67 | the first replacement captures `${…}` from the original line and rewrites the original |
| `Substituter.ScanKeepsLine` | parse_container_definition.py:48-69 | a line missing `$`, `{` or `}` is scanned without error and never rewritten |
| `Substituter.SubstituteNoExpression` | parse_container_definition.py:40-69 | such a line is returned unchanged |
| `Substituter.SubstituteChangedOnlyByClose` | parse_container_definition.py:53-67 | a line that changes has an expression-closing `}` |
| `Substituter.ScanChangedOnlyByClose` | parse_container_definition.py:53-67 | a prefix scan whose line differs from the original passed an expression-closing `}` at some earlier index |
| `Substituter.PlaceholderHasNoQuote` | parse_container_definition.py:46-65 | the quote collapse never alters the placeholder |
| `Substituter.ExampleSimple` | parse_container_definition.py:40-69 | `${a}` becomes `some-var-here` |
| `Substituter.ExampleNested` | parse_container_definition.py:50-56 | nested `${f(${y})}` is replaced as one expression |
| `Substituter.ExampleEscapedDollar` | parse_container_definition.py:58 | `\${a}` is left alone |
| `Substituter.ExampleDoubleBrace` | parse_container_definition.py:51 | in `${{a}}` the `{` right after the opening one is not counted, so one `}` is left over |
| `Substituter.StepQuiet` | parse_container_definition.py:49-60 | a step that neither opens nor closes an expression moves only the index |
| `Substituter.StepOpensAt` | parse_container_definition.py:58-60 | an unescaped `${` outside an expression opens one at the `{` index |
| `Substituter.StepClosesWith` | parse_container_definition.py:53-66 | the closing step rewrites the line and moves the index by the change in the whole line's length |
| `Substituter.ExampleWrapAround` | parse_container_definition.py:56-58 | `{a}$`: the `{` at index 0 reads the last `$` and opens, but the captured slice `line[-1:3]` is empty, so the line is unchanged |
| `Substituter.ExampleTwoExpressions` | parse_container_definition.py:48-67 | `${a} ${b}` becomes two placeholders separated by the space |
| `Substituter.RewriteHead` | parse_container_definition.py:64-65 | an expression at the head of a line, with no other occurrence and no quote, becomes the placeholder |
| `Substituter.RewriteTail` | parse_container_definition.py:64-65 | an expression at the end of a line, after text without its first character or a quote, becomes the placeholder |
| `Substituter.CollapseTrailingQuotes` | parse_container_definition.py:65 | a trailing `""` collapses to one quote |
| `Substituter.ExampleQuoteShiftsIndex` | parse_container_definition.py:62-66 | `${a}${b}""` becomes `some-var-here${b}"`: the second expression is never opened |
| `Substituter.IntendedAgrees` | parse_container_definition.py:62-66 | when rewriting the whole line only touches the part already read, the corrected step equals the written one |
| `Substituter.IntendedClosesWith` | parse_container_definition.py:62-66 | the corrected closing step puts the index on the last character of the rewritten read part |
| `Substituter.ExampleQuoteIntended` | parse_container_definition.py:48-67 | the corrected scan turns `${a}${b}""` into two placeholders and one quote |
| `Substituter.SubstituteKeepsAbsent` | parse_container_definition.py:64-65 | substitution never creates an enclosure keyword in a line that lacked it |
| `TfFiles.IsTfFile` | parse_container_definition.py:28-33 | an accepted name holds `.tf` somewhere past its first character |
| `TfFiles.TfWithinFinds` | parse_container_definition.py:28 | the scan finds a `.tf` inside the leading non-space run exactly when one is there |
| `TfFiles.IsTfFileMatchesPattern` | parse_container_definition.py:28-33 | the scan accepts exactly the names that `re.match('\S+\.tf')` matches |
| `TfFiles.AcceptedExamples` | parse_container_definition.py:28-33 | `main.tf`, `main.tfvars` and `a.tf.json` are accepted |
| `TfFiles.RejectedExamples` | parse_container_definition.py:28-33 | `.tf` and `my file.tf` are rejected |
| `TfFiles.GetTfFiles` | parse_container_definition.py:31-37 | the paths kept are exactly those of entries whose name passes the filter |
| `Extractor.Opens` | parse_container_definition.py:88 | an opening line is at least `x = <<` plus the keyword long: a name, whitespace, `=`, whitespace, `<<` |
| `Extractor.OpensMatchesPattern` | parse_container_definition.py:88-98 | the opening scan accepts exactly the lines that `re.match('\s*\S+\s+=\s+<<' + kw)` matches |
| `Extractor.OpensHeredoc` | parse_container_definition.py:88 | any indentation, a non-empty name without spaces, ` = <<` and the keyword open a block, whatever follows |
| `Extractor.ExtractStep` | parse_container_definition.py:95-106 | one line advances the line count by one and never removes an entry; only a captured line that does not contain the keyword can raise |
| `Extractor.ExtractBlocks` | parse_container_definition.py:90-106 | the loop yields exactly the fold `Extract` |
| `Extractor.ExtractSound` | parse_container_definition.py:98-104 | every start line recorded is an opening line of the file, and text entries exist exactly when start lines do |
| `Extractor.ExtractFromGrows` | parse_container_definition.py:103-104 | entries are only ever added |
| `Extractor.ExtractWithoutOpener` | parse_container_definition.py:98 | a file without an opening line yields no entries |
| `Extractor.CaptureStep` | parse_container_definition.py:95-97 | while capturing, a line that does not start with the keyword adds its substituted text, or nothing when it contains the keyword |
| `Extractor.OpenStep` | parse_container_definition.py:98-104 | outside a block, whatever was recorded before, an opening line starts capture at its own index, and closes at once when it starts with the keyword |
| `Extractor.CloseStep` | parse_container_definition.py:101-105 | a line starting with the keyword ends capture and adds the text and its start line |
| `Extractor.OneLineBlock` | parse_container_definition.py:98-104 | whatever was recorded before, an opening line that itself starts with the keyword adds an empty block and its own index |
| `Extractor.SpannedBlock` | parse_container_definition.py:94-106 | whatever was recorded before, from an opening line to the first line starting with the keyword, the run adds the substituted lines between them and the opening index |
| `Extractor.NextBlock` | parse_container_definition.py:94-106 | from any idle state, the next block (first opening line, then first line starting with the keyword) is added with its text and start line |
| `Extractor.FirstBlock` | parse_container_definition.py:94-106 | the first block is the substituted lines strictly between its opening and closing lines |
| `Extractor.ExtractFindsBlock` | parse_container_definition.py:94-106 | any block that the run reaches from outside a block, not only the first, ends up in the result with its start line |
| `Extractor.CloseFrom` | parse_container_definition.py:101 | the closing line of a block is the first line from the opener on that starts with the keyword |
| `Extractor.EntriesMembers` | parse_container_definition.py:103-104 | a set of blocks records exactly the text and the opening index of each of them |
| `Extractor.SpansDelimited` | parse_container_definition.py:94-106 | every block read one after another opens on a line the start pattern matches and closes on its first line starting with the keyword |
| `Extractor.SpansApart` | parse_container_definition.py:95-102 | blocks do not overlap: one opening earlier closes before the next opens |
| `Extractor.ReachedOpenerSpans` | parse_container_definition.py:98-101 | the first opening line from an idle point starts a block when some line closes it |
| `Extractor.SpanFollows` | parse_container_definition.py:98-106 | after a block, the first opening line past its closing line starts the next block when some line closes it |
| `Extractor.CapturesSubstituteAt` | parse_container_definition.py:95-96 | the lines captured from an opener on all substitute exactly when the lines strictly inside its block do, and, when some line closes it, so do the lines captured after that closing line |
| `Extractor.CaptureRaises` | parse_container_definition.py:95-97 | while capturing, a later line that does not contain the keyword and fails to substitute makes the run raise `IndexError`, if no line before it starts with the keyword |
| `Extractor.IdleRaises` | parse_container_definition.py:94-106 | an opener whose block holds a line that fails to substitute makes the run raise |
| `Extractor.ExtractFromIdle` | parse_container_definition.py:94-106 | from any idle state the run raises exactly when some captured line (inside a block, not containing the keyword) fails to substitute; otherwise it adds exactly the entries of the blocks read one after another |
| `Extractor.ExtractIsSpans` | parse_container_definition.py:90-106 | a file's extraction succeeds exactly when every captured line substitutes, and then it is exactly the entries of its blocks read one after another |
| `Extractor.ExtractBlockOpened` | parse_container_definition.py:94-106 | whenever the extraction succeeds, every recorded text is the text between a recorded opening line and its first closing line |
| `Extractor.ExtractOpenerClosed` | parse_container_definition.py:98-104 | whenever the extraction succeeds, every recorded opening line has a closing line, and its block's text is recorded |
| `Extractor.ExtractRecordsSpans` | parse_container_definition.py:94-106 | when every captured line substitutes, every block of the file, not only the first, is recorded with its text and its opening line |
| `Extractor.Unterminated` | parse_container_definition.py:95-106 | a block never closed adds nothing |
| `Extractor.EnclosuresAreForeign` | parse_container_definition.py:72-73 | no enclosure keyword shares a character with the placeholder or the quote |
| `Extractor.OpensDefinitionExample` | parse_container_definition.py:88 | `  x = <<DEFINITION` opens a `DEFINITION` block |
| `Extractor.ExampleBlock` | parse_container_definition.py:94-106 | a three-line heredoc yields its middle line and start line 0 |
| `Extractor.OpensEofExample` | parse_container_definition.py:88 | `x = <<EOF` opens an `EOF` block |
| `Extractor.ExampleIndentedTerminator` | parse_container_definition.py:89-101 | an indented terminator does not close, so the block is lost |
| `Extractor.NeverClosed` | parse_container_definition.py:94-106 | a file whose first line opens a block that no later line closes records nothing |
| `Extractor.ExampleNoSpaceBeforeEquals` | parse_container_definition.py:88 | `x=<<DEFINITION` does not open a block |
| `Extractor.FileBlocksUpTo` | parse_container_definition.py:86-109 | a keyword is present exactly when it yields entries, with those entries; an `IndexError` for any keyword is an error for the file |
| `Extractor.ExtractFile` | parse_container_definition.py:85-109 | the loop over the keywords yields exactly `FileBlocks` |
| `Extractor.GetJsonsFromTfFiles` | parse_container_definition.py:76-113 | the loop yields exactly `JsonBlocks`: files with some entry, and an error if any file raises |
| `Validator.LastFailure` | parse_container_definition.py:124-130 | the keyword is reported exactly when one of its texts fails, with one of their messages, and nothing else changes |
| `Validator.ValidateFile` | parse_container_definition.py:121-130 | a keyword is reported exactly when some text of it fails, with a message of one failing text |
| `Validator.ValidateJson` | parse_container_definition.py:117-133 | every file gets a report, possibly empty, that satisfies the above |
| `Validator.EmptyReportIffAllParse` | parse_container_definition.py:121-130 | a report is empty exactly when every text of the file parses |
| `Validator.ReportUnique` | parse_container_definition.py:124-130 | the report is determined once each keyword's failing texts share one message |
| `Corrector.MatchAtShape` | parse_container_definition.py:138 | the scan accepts exactly the matches of `line\s\d+\scolumn` at that position |
| `Corrector.FindLineColumn` | parse_container_definition.py:150 | `re.search`: the leftmost match, or none if there is no match |
| `Corrector.CorrectMessage` | parse_container_definition.py:150-154 | as written, a zero offset leaves the message unchanged |
| `Corrector.CorrectMessageIntended` | parse_container_definition.py:150-154 | only the first match's line number changes, to number + offset, and everything around it is kept |
| `Corrector.AsWrittenAgreesWithIntended` | parse_container_definition.py:150-154 | when ` N ` occurs only at the match, the replace-all equals the intended fix |
| `Corrector.ColumnShiftedToo` | parse_container_definition.py:154 | on `line 1 column 1 (char 0)` with offset 5 the code gives `line 6 column 6`; the intended fix gives `line 6 column 1` |
| `Corrector.AsWrittenOnFirstChar` | parse_container_definition.py:150-154 | the code turns `line 1 column 1 (char 0)` with offset 5 into `line 6 column 6 (char 0)` |
| `Corrector.IntendedOnFirstChar` | parse_container_definition.py:150-154 | the intended fix turns the same message into `line 6 column 1 (char 0)` |
| `Corrector.CorrectReport` | parse_container_definition.py:141-155 | the corrected report keeps exactly the keywords with a non-empty message |
| `Corrector.LastEnclosure` | parse_container_definition.py:142-146 | the keyword is one the file has, no keyword after it in enclosure order is one the file has, and there is none only when the file has no keyword |
| `Corrector.ExtraLines` | parse_container_definition.py:142-146 | the offset is a start line of the last keyword the file has |
| `Corrector.ShiftFile` | parse_container_definition.py:142-154 | one file's report: empty stays empty, any other is corrected by a start line of the last keyword the file has |
| `Corrector.CorrectFile` | parse_container_definition.py:142-154 | the loop yields exactly `CorrectReport` |
| `Corrector.SubstituteLine` | parse_container_definition.py:136-159 | every file keeps its entry; an empty report stays empty; the others are corrected by a start line of the last keyword |
| `Reporter.BlocksWellFormed` | parse_container_definition.py:98-111 | every file the extractor keeps has enclosure keywords, each with a start line |
| `Reporter.ReportCorrectable` | parse_container_definition.py:117-159 | the validator's reports meet the fix-up's demands |
| `Reporter.ExitStatus` | parse_container_definition.py:162-176 | the status is 0 or 1, and it is 1 whenever the intended status is 1: the code never misses a failure |
| `Reporter.IntendedStatusIffFailing` | parse_container_definition.py:162-176 | the intended status is 1 exactly when some block text fails to parse |
| `Reporter.StatusOnlyOnFailure` | parse_container_definition.py:162-176 | intended status 1 implies a failing text |
| `Reporter.FailureSetsStatus` | parse_container_definition.py:162-176 | a failing text implies intended status 1 |
| `Reporter.ValidBlockStillFails` | parse_container_definition.py:130-171 | one file with one valid block gives an empty report, status 1 as written and 0 as intended |
| `Reporter.Run` | parse_container_definition.py:179-199 | the run fails exactly when extraction raises; otherwise the status is 1 exactly when some file has blocks, and the intended status is 1 exactly when some text fails |

## Left out

- The command line (`parse_options`), `main`'s printing and `sys.exit`. `Run` returns the status instead.
- `os.walk`, `os.path.join` and `open`:
  - `GetTfFiles` takes the walk's `(path, name)` pairs;
  - the extractor takes each file as its sequence of lines.
- `json.loads` is a parameter `parse`. The model says nothing about which texts are JSON.
- The `print` calls of `Subtitute_line` and `Print_status` are left out. They produce output only.
- `Substituter.SubstituteIntended`: the corrected scan is shown to replace every expression only on `${a}${b}""`. It is not proved for every line. It is not used by the rest of the model, which follows the code as written.
- `Text.DigitsValue` reads ASCII digits only. Python's `\d` and `int()` also accept other Unicode decimal digits.
- `Validator.ValidateJson` and `Reporter.Run`: the parser is a total function `parse: string -> JsonOutcome`, which either parses or gives a `ValueError` message. The source catches only `ValueError` (`parse_container_definition.py:129`). Any other exception from `json.loads` ends the run uncaught; an example is the `RecursionError` on a block of a few thousand nested `[`. The model has no outcome for it. So `Run`'s `status.Ok? <==> JsonBlocks(files).Ok?` says only that extraction errors are the errors the model propagates, not that parsing never raises.
- `Validator.ValidateJson`: which failure is kept for a keyword depends on set iteration order. The contract states only that the kept message is the message of some failing text.
- `Corrector.SubstituteLine`: the start line used as the offset depends on set iteration order. The contract states only that it is some start line of the file's last keyword.
  - The model does not relate the shifted number to the block that failed. It also does not relate it to the file's own 1-based line numbering.
- `Corrector.SubstituteLine` requires every non-empty message to contain `line N column`. The source raises `AttributeError` on any other message.
- `Reporter.Run` requires the same of every parser error (`Located`). A `JSONDecodeError` message always carries `line N column`. The integer-digit limit of Python 3.11 and later (backported to 3.7–3.10) does not: an integer literal of more than 4300 digits raises a plain `ValueError` ("Exceeds the limit (4300 digits) for integer string conversion"). The source stores that error at `parse_container_definition.py:129-130` and then ends with `AttributeError` at line 151, because `match_obj` is `None`. The model does not cover that run.
- Mutation of the error dictionary in place (`input.update`) is modelled as a new map that is returned. The caller never uses the old value.

## Findings

| source | as written | input that shows it | evidently intended | confidence | as-written member | corrected member |
|---|---|---|---|---|---|---|
| parse_container_definition.py:130-163 | every file with a block gets a report, even an empty one, and the status is 1 when the dictionary has any file | one `.tf` file holding one block whose text is valid JSON: status 1 and "Invalid JSON found!" | status 1 only when some report is non-empty | high, not executed | `Reporter.ValidBlockStillFails` | `Reporter.IntendedStatusIffFailing` |
| parse_container_definition.py:62-66 | the index is moved back by the change in length of the whole line, including quotes collapsed after the index | `${a}${b}""` becomes `some-var-here${b}"`: the index lands one short, the `{` of `${b}` reads `e` instead of `$` | every top-level expression is replaced: `some-var-here` twice and one quote | medium, not executed | `Substituter.ExampleQuoteShiftsIndex` | `Substituter.ExampleQuoteIntended` |
| parse_container_definition.py:154 | every ` N ` in the message is replaced, including the column when it equals the line | `line 1 column 1 (char 0)` with offset 5 becomes `line 6 column 6 (char 0)` | only the line number of the match changes: `line 6 column 1 (char 0)` | high, not executed | `Corrector.ColumnShiftedToo` | `Corrector.CorrectMessageIntended` |
