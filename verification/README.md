# Grading harness string logic, modelled in Dafny

The repository grades student Python scripts. For each assignment, the harness:

- writes a *securized* copy of the script, with every line that mentions the word `import` commented out;
- writes an *injected* copy, in which the assignments of the configured input variables read `sys.argv`, and which ends with one print statement per output variable;
- runs the injected copy once per test case;
- compares the last output line, or a one-line summary of the exception, with the space-joined expected values;
- when every case passes, produces pattern feedback from user-configured regular expressions.

This project models the pure string logic of those steps as Dafny functions over `string` (`seq<char>`) and proves properties of it:

- `text.dfy` (`Text`) covers Python's character classes, the leftmost-match search, `str.strip()`, decimal rendering and list filtering.
- `lines.dfy` (`Lines`) covers `str.split` and `str.join` on one character, with both round trips.
- `securize.dfy` (`Securize`) covers `securize_code`.
- `inject.dfy` (`Inject`) covers `inject_checking_code`.
- `exceptions.dfy` (`Exceptions`) covers `parse_exception`.
- `runner.dfy` (`Runner`) covers the comparison in `run_test`, the joins in `handle_testbench_case`, and `all`/`any` over the cases in `handle_assignment`.
- `feedback.dfy` (`Feedback`) covers `get_runtime_feedback`.

The fixed regular expressions are modelled character by character:

- `\bimport\b` is `Securize.ImportWordAt`.
- `<name> *=.*` is `Inject.AssignmentAt` and `Inject.AssignmentEnd`.
- `\w+Error:.*` is `Exceptions.ErrorTokenAt`.
- `line \d+` is `Exceptions.LineRefAt`.
- `^\s*#.*` is `Feedback.IsCommentLine`.

`re.search` and `re.sub(..., count=1)` choose the leftmost match (`Text.Leftmost`). The user-written feedback patterns are not modelled. A parameter `matches(regex, text)` stands for "`re.search(regex, text)` finds something", and every feedback property holds for every such matcher. The process run is not modelled either. Its result is a value `Execution = Exited(stdout) | Failed(output)`, where `stdout` holds the run's standard output and standard error merged, as the source captures them (correction/check.py:20), and a test bench is judged against a function from the argument string to that value.

## Model

| member | source | states |
|---|---|---|
| Securize.SecurizeCode | correction/check.py:67-75 | No contract of its own. Its behaviour is stated by Securize.SecurizeLineByLine, Securize.SecurizedImportsAreComments and Securize.SecurizeImportScript. |
| Securize.SecurizeLineByLine | correction/check.py:67-75 | The securized script has exactly as many `\n`-separated lines as the original. Its i-th line is `'#' + line` when line i contains a word-bounded `import`, and line i unchanged otherwise. |
| Securize.SecurizedImportsAreComments | correction/check.py:69-74 | Every line of the securized script that still contains the word `import` starts with `#`. |
| Securize.HashKeepsImportWord | correction/check.py:70-71 | A leading `#` neither hides nor creates a word-bounded `import` (both directions). |
| Securize.SecurizeTwiceAddsAnotherHash | correction/check.py:70-71 | Securizing a line that contains `import` twice gives `"##" + line`, so the operation is not idempotent. |
| Securize.SecurizeImportScript | correction/check.py:67-75 | A one-line script that contains the word `import` is securized as `'#' + line`, and securizing that again gives `'##' + line`. |
| Securize.SecurizeNotIdempotent | correction/check.py:67-75 | On the script `import x`, one pass gives `#import x` and a second pass gives `##import x`. |
| Securize.SecurizeOneLine | correction/check.py:69-75 | A script without a newline is securized as that single line. |
| Inject.InjectCheckingCode | correction/check.py:32-52 | No contract of its own. Its layout is stated by Inject.InjectedLayout and Inject.InjectedLines. |
| Inject.SubstituteInputs | correction/check.py:36-44 | No contract of its own. Inject.SubstituteInputsAfterPrefix and Inject.SubstituteInputsKeepsNewlines state what the substitutions keep. Inject.SubstituteFirst states each step. |
| Inject.ArgvAssignment | correction/check.py:43 | No contract of its own. Inject.ArgvAssignmentOneLine states that the line holds no newline, and Text.DecimalRoundTrip that the index reads back. |
| Inject.PrintStatement | correction/check.py:48 | No contract of its own. Inject.PrintStatements and Inject.InjectedLines state where each statement stands. |
| Inject.FirstAssignment | correction/check.py:42-44 | The chosen match position is a match of `<name> *=.*`, and no earlier position matches. With no result, no position matches. |
| Inject.SubstituteFirst | correction/check.py:42-44 | Without a match, the text is unchanged. Otherwise exactly the leftmost match, from the name up to the end of its line, is replaced and everything around it is kept. |
| Inject.AssignmentEnd | correction/check.py:43 | The `.*` of a match stops at the next newline or at the end of the text, and crosses no newline. |
| Inject.MatchesAfterPrefix | correction/check.py:34-43 | After a prefix that ends in a newline and holds no `=`, the matches of `<name> *=.*` in the whole text are exactly the matches in the script, shifted by the prefix length, when the name holds no newline. |
| Inject.SubstituteFirstAfterPrefix | correction/check.py:34-44 | A prefix ending in a newline and holding no `=` (such as `import sys\n\n`) never holds a match and passes through the substitution untouched, when the name holds no newline. |
| Inject.SubstituteInputsAfterPrefix | correction/check.py:34-44 | The same holds for all input substitutions applied in order. |
| Inject.InjectedLayout | correction/check.py:32-52 | The injected script is `import sys\n\n`, then the substituted script, then `\n`, the print statements joined by `\n`, and a final `\n`. With no input variables, the script appears verbatim. |
| Inject.PrintStatements | correction/check.py:46-49 | There is one `print(globals().get('<name>', 'UNDEF'), end=' ')` per output variable, in order. |
| Inject.SubstituteFirstKeepsNewlines | correction/check.py:42-44 | A substitution whose replacement has no newline keeps the number of newlines, so every replacement stays on one line. |
| Inject.SubstituteInputsKeepsNewlines | correction/check.py:36-44 | All input substitutions together keep the number of newlines, when no name or cast holds a newline. |
| Inject.ArgvAssignmentOneLine | correction/check.py:43 | `<name> = <cast>(sys.argv[<i+1>])` contains no newline. |
| Inject.InjectedLines | correction/check.py:32-52 | Line by line, the injected script is `import sys`, an empty line, the script's lines (as many as before), then the print statements in order (an empty line when there are none), then the empty piece after the final newline. |
| Inject.ComparisonIsRewritten | correction/check.py:42-44 | A comparison `name == v` matches the pattern, so the whole line is replaced by the assignment. |
| Inject.LongerNameIsRewritten | correction/check.py:42-44 | An earlier assignment to a longer name ending in `name` (`min = v` for `n`) is the one rewritten, and its leading characters stay. |
| Text.DecimalRoundTrip | correction/check.py:43 | The decimal rendering of the argument index reads back as the same number. |
| Exceptions.ErrorTokenAtWitness | correction/services.py:13 | `\w+Error:.*` matches at `p` exactly when one or more word characters at `p` are followed by `Error:`. |
| Exceptions.FirstError | correction/services.py:13 | The error token found is the leftmost match of `\w+Error:`. Without a result, there is no match. |
| Exceptions.FirstLineRef | correction/services.py:15 | The line reference found is the leftmost `line <digits>`. Without a result, there is none. |
| Exceptions.ErrorToken | correction/services.py:13-14 | `m.group()` of the first error match runs from the match to the end of its line. |
| Exceptions.LineRef | correction/services.py:15-16 | `m.group()` of the first `line \d+` runs over all of its digits. |
| Exceptions.ParseException | correction/services.py:12-22 | No error token gives `Exception`. The first token without a line reference gives the token. The first token with the first line reference gives `<token> (<line ref>)`. |
| Exceptions.ErrorTokenShape | correction/services.py:13 | The error token starts with a word character, contains no newline, and contains `Error:`. |
| Exceptions.SummaryNotEmpty | correction/services.py:12-22 | The summary is never empty. |
| Exceptions.SummaryIsExceptionIffNoError | correction/services.py:13-21 | The summary is `Exception` if and only if the message contains no `\w+Error:`. |
| Exceptions.TracebackSummary | correction/services.py:12-22 | `"line " + digits + "\n" + kind + "Error: " + text` is summarised as `kind + "Error: " + text + " (line " + digits + ")"`. |
| Exceptions.ZeroDivisionSummary | correction/services.py:12-22 | `line 3\nZeroDivisionError: division by zero` is summarised as `ZeroDivisionError: division by zero (line 3)`. |
| Text.Strip | correction/check.py:26 | `str.strip()` removes exactly the leading and trailing whitespace. The result is empty if and only if the text is all whitespace. |
| Runner.LastOutputLine | correction/check.py:26 | The reported line has no newline. It is the tail of the stripped output and is either all of it or preceded by a newline. |
| Lines.JoinSplit | correction/check.py:69-75 | Joining the pieces of a split on the same character gives back the text. |
| Lines.SplitJoin | correction/check.py:69-75 | Splitting a join gives back the pieces, when there is at least one piece and none contains the separator. |
| Lines.LastPieceIsTail | correction/check.py:26 | `split('\n')[-1]` is the separator-free tail of the text, preceded by a separator unless it is the whole text. |
| Runner.RunTest | correction/check.py:22-29 | An exception is raised if and only if the run failed. The case works if and only if the reported output equals the expected output. The reported output is the last output line, or the summary of the failure. |
| Runner.HandleCase | correction/check.py:88-97 | The reported output is the last line of the stripped output of the run on the space-joined arguments, or the `parse_exception` summary when that run failed. A case works if and only if that text equals the space-joined expected values. It raised if and only if the run failed. |
| Runner.CaseArgs | correction/check.py:89 | No contract of its own. Runner.CaseArgsRoundTrip states that the inputs are recovered from the argument string. |
| Runner.DesiredOutput | correction/check.py:90 | No contract of its own. Runner.CaseWorksIffFieldsMatch states what comparing with it means. |
| Runner.CaseArgsRoundTrip | correction/check.py:89 | Splitting the argument string on spaces gives back the input values, when there is at least one input and none contains a space. |
| Runner.CaseWorksIffFieldsMatch | correction/check.py:26-28 | A case works if and only if the space-separated fields of the reported output are the expected values, when there is at least one expected value and none contains a space. |
| Runner.FailedRunCanPass | correction/check.py:22-28 | A failed run whose message names no error counts as working when the expected output is `Exception`. |
| Runner.BenchVerdict | correction/check.py:142-150 | Over the outcomes of all cases, in order: every case works if and only if each case's reported output (its run's last output line, or its failure summary) equals its space-joined expected values, and an exception was raised if and only if the run on some case's arguments failed. |
| Runner.RunCases | correction/check.py:142-146 | One outcome per case, in order, each the judgement of that case. Runner.BenchVerdict states the verdict over them. |
| Runner.Assess | correction/check.py:150 | `all(code_works)` holds if and only if every case works. `any(exception_raised)` holds if and only if some case raised. |
| Feedback.RuntimeFeedback | correction/check.py:100-115 | No contract of its own. Feedback.FeedbackCount, Feedback.FeedbackOrder, Feedback.FeedbackMembership and Feedback.NoFeedback state its result. |
| Feedback.UnexpectedFlags | correction/check.py:109-114 | No contract of its own. Feedback.UnexpectedFlagsCount, Feedback.UnexpectedFlagsMembership, Feedback.UnexpectedFlagsAppend and Feedback.CommentLineIgnored state its result. |
| Feedback.MissingExpected | correction/check.py:104-107 | Each expected rule appears as often as it is listed when its pattern is absent from the whole script, and not at all otherwise. |
| Feedback.LineFlags | correction/check.py:110-114 | A comment line raises no flag. Any other line raises each unexpected rule whose pattern it contains, as often as the rule is listed. |
| Text.FilterKeepsOrder | correction/check.py:105-107 | Filtering keeps the original order: an element that passes stands after what is kept before it and before what is kept after it. |
| Feedback.MissingExpectedKeepsOrder | correction/check.py:105-107 | Missing expected rules are reported in configuration order: a rule whose pattern is absent comes between the reports for the rules listed before it and after it. |
| Feedback.LineFlagsKeepOrder | correction/check.py:112-114 | On one line, unexpected rules are flagged in configuration order: a rule that counts for the line comes between the flags of the rules listed before it and after it. |
| Feedback.CommentLineShape | correction/check.py:110 | A line is a comment if and only if it has a `#` preceded only by whitespace. |
| Feedback.ActiveMatchCountPositive | correction/check.py:109-114 | The count of counting lines is positive if and only if some non-comment line contains the pattern. |
| Feedback.UnexpectedFlagsAppend | correction/check.py:109-114 | The flags of two blocks of lines are the flags of the first block followed by those of the second. |
| Feedback.UnexpectedFlagsCount | correction/check.py:108-114 | An unexpected rule is flagged (times listed) × (number of non-comment lines containing its pattern) times, so duplicates occur. |
| Feedback.UnexpectedFlagsMembership | correction/check.py:108-114 | An unexpected rule is flagged if and only if it is configured and some non-comment line contains its pattern. |
| Feedback.CommentLineIgnored | correction/check.py:110-111 | Inserting a comment line anywhere changes no unexpected-rule flag. |
| Feedback.FeedbackCount | correction/check.py:100-115 | The number of times a rule appears in the feedback is its missing-expected count plus its unexpected count. |
| Feedback.FeedbackOrder | correction/check.py:104-114 | Every missing expected rule comes before every unexpected flag. |
| Feedback.FeedbackMembership | correction/check.py:100-115 | A rule is in the feedback if and only if it is an expected rule whose pattern the script lacks, or an unexpected rule whose pattern occurs on a non-comment line. |
| Feedback.NoFeedback | correction/check.py:100-115 | The feedback is empty if and only if every expected pattern occurs in the script and no unexpected pattern occurs on a non-comment line. |

## Left out

- Running the script and `flake8` through the shell (correction/check.py:16-21, 118-127). These are process calls. Their result is the `Execution` parameter, and style feedback is not modelled.
- `run_test` does not distinguish failure kinds, and the model treats any exception as `Failed(output)`. An exception without `.output` (anything other than a failed process) is not modelled.
- Shell word splitting and quoting of the argument string. The model stops at the space-joined string.
- `str(v)` rendering of the YAML values of a case. The inputs and outputs of a `Case` are already strings.
- File reading, writing, naming and deletion (correction/check.py:55-64, 78-85, `services.clean_files`). These are I/O. The models take and return the text.
- Console output, `Confirm.ask` prompts, the choice of which file to show, and the clipboard join (correction/check.py:136-182). These are UI.
- YAML loading and the `settings` constants (correction/services.py:8-9). These are a foreign library and configuration that is not shown.
- `services.show_*` and `services.prepare_*`. They are not part of this model.
- A general regular-expression engine. User feedback patterns are the `matches` parameter.
- Inject.SubstituteFirst: the name is matched as literal text. A name holding regex metacharacters (`.`, `(`, `*`, ...) would be read as a pattern by the source. The layout, prefix and newline lemmas only demand that names and casts hold no newline (`Text.OneLine`). Inject.LongerNameIsRewritten also demands that both names consist of word characters.
- Inject.ArgvAssignment: the replacement line is inserted as it is. `re.sub` also processes backslash escapes in the replacement, so a name or cast holding a backslash would behave differently in the source.
- Inject.InputVar: a typed input variable is one name with one cast. A dict with several entries uses its first entry in the source, and the model keeps only that entry. An empty dict (`- {}`) makes `tuple(var.items())[0]` raise an uncaught `IndexError` (correction/check.py:39). `InputVar` cannot represent it, so that failure is not modelled.
- Text.IsWordChar: `\w` is ASCII `[A-Za-z0-9_]`. Python's `\w` also matches non-ASCII letters and digits.
- Text.IsDigit: `\d` is ASCII `0-9`. Python's `\d` also matches other Unicode decimal digits.
- Feedback.FeedbackConfig: a missing `expected` or `unexpected` key is an empty sequence, which is what `.get(..., [])` gives.
- Runner.Case: the inputs and outputs of a case are sequences of strings. In the source, a case without an `input` or `output` key raises `KeyError` (correction/check.py:89-90). An empty YAML value gives `None`, and a number fails too; either way the join raises `TypeError`. A string value is iterated character by character, so `input: ab` gives the arguments `a b`. None of these is caught, so each ends the grading session.
- Inject.InjectCheckingCode: the input and output variables are sequences. In the source, `vars.input` or `vars.output` holding `None` raises `TypeError` (correction/check.py:36, 47). A string there is iterated character by character, so each character becomes a variable name. Neither is caught, so the grading session ends.
- Feedback.RuntimeFeedback: the model assumes that every feedback pattern compiles, that every feedback item has a `regex` key, and that an `expected` or `unexpected` key present in the test bench holds a list. In the source, an invalid pattern raises `re.error` (correction/check.py:106, 113), an item without `regex` raises `KeyError`, and a key whose YAML value is empty gives `None` and a `TypeError` in the loop. None of these is caught, so each ends the grading session.
