# DOCX to PDF drop converter: a Dafny model

This project models the core of `DocxToPdfApp` in `docx_to_pdf.py`, a small desktop tool.
The user drops files onto a window. The tool keeps the `.docx` files and converts each one
to PDF with an external converter. It reports progress on a status label, shows a dialog at
the end, and prints conversion errors to the console.

The model has three parts:

- **The drop-payload parser** (`drop_parser.dfy`, module `DropParser`). `parse_dropped_files`
  runs `re.findall(r'\{.*?\}|\S+', data)` and then `strip('{}')` on every match. The regex
  is modelled as a left-to-right scanner with Python `re` semantics:
  - at each position the brace alternative is tried first, stopping at the nearest `}`;
  - `.` does not match a newline;
  - otherwise the maximal non-whitespace run is taken;
  - whitespace between matches is skipped.

  `\s` is the exact set of characters for which Python's `str.isspace()` holds.
- **The `.docx` filter and the empty check** of `drop_files` (`docx_filter.dfy`, module
  `DocxFilter`, and `Workflow.SelectDocx`).
- **The conversion workflow** (`workflow.dfy`, module `Workflow`). Class `App` holds the
  status label's text and a trace of the effects the application has produced:
  - status writes;
  - converter calls;
  - dialogs;
  - console lines.

  Its methods `UpdateStatus`, `ConvertFiles` and `DropFiles` follow `update_status`,
  `convert_files` and `drop_files` statement by statement. They are proved against the
  functions `ConvertTrace` and `DropTrace`. Lemmas about those functions state what a run
  shows whatever the converter does.

The external converter is a parameter `convert: string -> ConvertOutcome`. For each path it
says whether the conversion succeeds or raises an error, and with what message.

`text.dfy` holds the string helpers: `isspace`, ASCII lower-casing, `endswith`, POSIX
`basename` and decimal rendering of counts. `drop_scenarios.dfy` works through concrete
payloads.

Events carry the values they interpolate, for example `SetStatus(Processing(3))`. The
functions `Label`, `DialogTitle`, `DialogMessage` and `LogText` give the exact texts the
program shows. `Workflow.CountsReadBack` proves that the counts can be read back from those
texts.

The model follows the code where its docstring (lines 37-41) suggests something simpler:
- `strip('{}')` removes every leading and trailing brace, in any mix, not just one pair.
- A `{` followed by a newline before any `}` does not start a brace match. The payload is
  then split at whitespace like any other text.

## Model

| member | source | states |
|---|---|---|
| Text.IsSpace | docx_to_pdf.py:43 | `\s` is the set of characters for which Python's `str.isspace` holds; on ASCII that is exactly space, tab through carriage return, and U+001C-U+001F; no brace, `/` or `.` is whitespace |
| Text.Lower | docx_to_pdf.py:52 | `lower()` on ASCII: the length is kept, no upper-case ASCII letter is left, and every character is either kept or is an upper-case letter moved to its lower-case form |
| Text.Basename | docx_to_pdf.py:67 | the base name is the suffix of the path after its last `/`: it holds no `/`, and the character before it, if any, is `/` |
| Text.NatToString | docx_to_pdf.py:63 | the rendered count is non-empty, all decimal digits, without a leading zero |
| Text.DecimalRoundTrip | docx_to_pdf.py:63 | reading the rendered count as a decimal number gives back the count |
| Text.NatToStringInjective | docx_to_pdf.py:76 | two different counts never render to the same text |
| DropParser.CloseIndex | docx_to_pdf.py:43 | where the lazy `.*?\}` after `{` stops, if anywhere, lies inside the text |
| DropParser.CloseIndexStops | docx_to_pdf.py:43 | the lazy scan stops at the first `}` with no `}` or newline before it, and fails exactly when every `}` has a newline before it |
| DropParser.RunLength | docx_to_pdf.py:43 | `\S+` takes the longest whitespace-free prefix: every character before the cut is non-space, and the cut is at the end or at a space |
| DropParser.NoBraceMatch | docx_to_pdf.py:43 | when the lazy scan fails, the brace alternative has no match of any length at that position |
| DropParser.MatchLength | docx_to_pdf.py:43-44 | the match at a non-space position is non-empty and lies inside the payload |
| DropParser.MatchLengthIsPatternMatch | docx_to_pdf.py:43-44 | at a non-space position the match is the brace alternative if it matches at all, otherwise the maximal non-space run (leftmost alternative wins) |
| DropParser.BraceMatchUnique | docx_to_pdf.py:43 | the brace alternative matches with at most one length at a position |
| DropParser.Matches | docx_to_pdf.py:44 | `findall` reports non-empty spans inside the payload, non-overlapping, left to right |
| DropParser.FindAll | docx_to_pdf.py:44 | `findall` returns one non-empty substring of the payload per reported span |
| DropParser.FindAllInPattern | docx_to_pdf.py:43-44 | every string `findall` returns is in the pattern's language: a `{…}` group with no `}` or newline inside, or a run of non-whitespace characters |
| DropParser.MatchesAreRegexMatches | docx_to_pdf.py:43-44 | every reported span starts at a non-space character and is exactly the pattern's match at that position |
| DropParser.GapsAreWhitespace | docx_to_pdf.py:44 | every character outside the reported spans is whitespace: nothing in the payload is silently dropped |
| DropParser.LeadEnd | docx_to_pdf.py:47 | the scan from the left stops at the first non-brace, with only braces before it |
| DropParser.TrailStart | docx_to_pdf.py:47 | the scan from the right stops just after the last non-brace above the lower bound, with only braces after it |
| DropParser.StripBraces | docx_to_pdf.py:47 | `strip('{}')` gives a result no longer than its input, neither end of it a brace, and leaves a string with no brace at either end unchanged |
| DropParser.StripRemovesOnlyBraces | docx_to_pdf.py:47 | the stripped path is a slice of the match with nothing but braces before and after it |
| DropParser.StripAround | docx_to_pdf.py:47 | stripping any mix of braces around a path that neither starts nor ends with a brace gives back exactly that path |
| DropParser.StripBracesIdempotent | docx_to_pdf.py:47 | stripping a stripped path changes nothing |
| DropParser.ParseDroppedFiles | docx_to_pdf.py:36-48 | one cleaned path per regex match, and no path starts or ends with a brace |
| DropParser.BlankPayload | docx_to_pdf.py:36-48 | an empty or all-whitespace payload yields no paths |
| DropParser.ParseWord | docx_to_pdf.py:43-47 | a single word without whitespace or braces parses to itself |
| DropParser.Split | docx_to_pdf.py:44 | reference definition of splitting at whitespace: non-empty, whitespace-free words |
| DropParser.BraceFreePayload | docx_to_pdf.py:43-47 | a payload without braces parses to its whitespace-separated words, in order, duplicates kept |
| DropParser.SplitJoinSpaced | docx_to_pdf.py:44 | splitting undoes joining non-empty whitespace-free words with single spaces |
| DropParser.CloseAfter | docx_to_pdf.py:43 | after `{`, a path without braces or newlines is closed by the `}` that follows it |
| DropParser.StripWrapped | docx_to_pdf.py:47 | stripping `{p}` gives back `p` for a path without braces or newlines |
| DropParser.ParseWrapped | docx_to_pdf.py:38-47 | a brace-wrapped path at the front of the payload is parsed whole, spaces included, and parsing continues after it |
| DropParser.ParseBare | docx_to_pdf.py:38-47 | a bare path followed by whitespace or the end of the payload is parsed whole, and parsing continues after it |
| DropParser.ParseSerialized | docx_to_pdf.py:38-47 | round trip: a payload of paths without braces or newlines, each written bare or wrapped in braces (wrapped whenever it is empty or holds whitespace), parses back to exactly those paths |
| DropParser.ParseAllBraced | docx_to_pdf.py:38-47 | round trip for the payload with every path wrapped in braces |
| DropParser.ParseMinimallyBraced | docx_to_pdf.py:38-47 | round trip for the payload with only the empty paths and the paths holding whitespace wrapped |
| DropScenarios.RunTaken | docx_to_pdf.py:43 | when the brace alternative cannot match (no `{`, or no `}` before a newline), the match is the maximal non-space run |
| DropScenarios.WordTaken | docx_to_pdf.py:43-44 | a whitespace-free word at whose start the brace alternative cannot match, followed by whitespace or the end, is one raw match, and the scan goes on after it |
| DropScenarios.BraceInsideWord | docx_to_pdf.py:43-44 | `a{b c}` gives the matches `a{b` and `c}`: a brace inside a word does not escape a space |
| DropScenarios.NewlineInsideBraces | docx_to_pdf.py:43-44 | `{a` newline `b}` gives the matches `{a` and `b}`: the brace alternative does not cross a newline |
| DropScenarios.SpaceSplits | docx_to_pdf.py:43-47 | two bare words around one whitespace character of any kind are two matches and two paths |
| DropScenarios.IdeographicSpaceSplits | docx_to_pdf.py:43-47 | a bare path holding U+3000 (ideographic space), `a\U{3000}b.docx`, becomes the two paths `a` and `b.docx` |
| DropScenarios.StripMixedBraces | docx_to_pdf.py:47 | `{{a}}` and `}a{` strip to `a`, and `{}` strips to the empty path |
| DropScenarios.EscapedThenBare | docx_to_pdf.py:38-47 | a brace-escaped path, a space and a bare path parse to exactly those two paths |
| DropScenarios.EscapedPathThenPlainPath | docx_to_pdf.py:38-47 | `{My Docs/a.docx} b.docx` parses to `My Docs/a.docx` and `b.docx` |
| DocxFilter.IsDocx | docx_to_pdf.py:52 | a path passes exactly when it has at least five characters and its last five, lower-cased, are `.docx` |
| DocxFilter.IsDocxCaseInsensitive | docx_to_pdf.py:52 | the test holds exactly when the last five characters are `.docx` in any letter case |
| DocxFilter.UpperCaseKept | docx_to_pdf.py:52 | `X.DOCX` and `y.docx` pass, `z.pdf` and the four-character `docx` do not |
| DocxFilter.FilterDocx | docx_to_pdf.py:52 | no more paths come out than went in, and every kept path passes the test |
| DocxFilter.FilterDocxCounts | docx_to_pdf.py:52 | each path is kept as often as it occurs in the input if it passes the test, and never otherwise |
| DocxFilter.DocxPositions | docx_to_pdf.py:52 | the input positions whose path passes the test, strictly increasing |
| DocxFilter.FilterKeepsDocxPositions | docx_to_pdf.py:52 | the filter keeps exactly the passing paths in their input order: it is the input read at those positions |
| DocxFilter.FilterEmptyIff | docx_to_pdf.py:52-54 | nothing is kept exactly when no input path passes the test |
| Workflow.CountsReadBack | docx_to_pdf.py:63-76 | different counts give different progress texts and different success messages |
| Workflow.Label | docx_to_pdf.py:63-77 | the label texts are told apart: "Ready" is shown exactly for the ready status, "Conversion Complete!" exactly for completion |
| Workflow.DialogTitle | docx_to_pdf.py:55-76 | the dialog is titled "Error" exactly for the no-.docx error and "Success" exactly for the notice |
| Workflow.DialogMessage | docx_to_pdf.py:55-76 | the message "No .docx files found!" appears exactly for the error dialog |
| Workflow.LogText | docx_to_pdf.py:73 | the console line carries the full path and then the exception's text, unchanged |
| Workflow.ConvertTrace | docx_to_pdf.py:61-77 | a run starts by showing the file count and ends with the success notice citing that count and the label back on ready |
| Workflow.DropTrace | docx_to_pdf.py:50-59 | a drop produces only the error dialog exactly when no .docx path survives the filter |
| Workflow.SelectDocx | docx_to_pdf.py:50-56 | fails with `No .docx files found!` exactly when no parsed path is a .docx path; otherwise gives the non-empty filtered list |
| Workflow.LoopStatusWrites | docx_to_pdf.py:65-67 | the loop writes the status once per file, naming each file in order |
| Workflow.LoopConverterCalls | docx_to_pdf.py:65-70 | the loop calls the converter once per file, in order |
| Workflow.LoopDialogs | docx_to_pdf.py:65-73 | the loop shows no dialog |
| Workflow.LoopVisible | docx_to_pdf.py:65-73 | apart from console lines, the loop's effects are those of a run where every conversion succeeds |
| Workflow.LoopLog | docx_to_pdf.py:72-73 | the loop prints one line per failed file, in order, with its error |
| Workflow.ConvertStatusWrites | docx_to_pdf.py:61-77 | the label goes through the count, each file's base name in order, completion, then ready, whatever fails |
| Workflow.ConvertCallsEveryFile | docx_to_pdf.py:65-73 | the converter is called exactly once per file, in order: a failure caught by the `except` never stops the files after it |
| Workflow.ConvertNoticeCitesTotal | docx_to_pdf.py:62-76 | the run's only dialog is the success notice citing the number of files attempted, failures included |
| Workflow.ConvertLogsFailures | docx_to_pdf.py:72-73 | the console gets exactly one line per failed file, in order |
| Workflow.ConvertOutcomesOnlyReachLog | docx_to_pdf.py:65-77 | two runs over the same files differ only in their console lines, whatever the converter does |
| Workflow.SecondOfThreeFails | docx_to_pdf.py:65-76 | with three files of which the second fails, all three are converted, the notice cites 3 and the console shows the one failure |
| Workflow.DropConvertsDocxOnly | docx_to_pdf.py:50-59 | the converter sees exactly the .docx paths of the payload, in payload order, and nothing when there are none |
| Workflow.DropWithoutDocx | docx_to_pdf.py:54-56 | a payload without .docx paths shows only the error dialog: no status write and no conversion |
| Workflow.App.constructor | docx_to_pdf.py:33 | a new window's label shows `Ready` and nothing has happened yet |
| Workflow.App.UpdateStatus | docx_to_pdf.py:79-80 | the label shows the text of the new status, recorded as one status write |
| Workflow.App.ConvertOne | docx_to_pdf.py:66-73 | one loop iteration: the label names the file, the converter is called, and a failure is printed and swallowed |
| Workflow.App.FinishRun | docx_to_pdf.py:75-77 | completion on the label, the success notice with the total, then the label back to ready |
| Workflow.App.ConvertFiles | docx_to_pdf.py:61-77 | the run's effects are exactly `ConvertTrace` of the files, and the label ends on `Ready` |
| Workflow.App.DropFiles | docx_to_pdf.py:50-59 | the drop's effects are exactly `DropTrace` of the payload; with no .docx path the label is untouched, otherwise it ends on `Ready` |

## Left out

- Window construction (lines 10-32, 34), the title, colours and geometry are not modelled. Nor is the `__main__` block (lines 82-86). They are presentation only.
- Drag-and-drop registration (lines 30-31) is not modelled. `DropFiles` takes the payload string `event.data` directly.
- The worker thread (line 59) is not modelled. `DropFiles` calls `ConvertFiles` directly, so interleaving with other UI events and further drops during a run is not captured. The status label is assumed to accept updates from the worker thread.
- docx2pdf is not part of this model. The converter is an oracle from path to outcome, so the PDF files it writes are not modelled. The oracle gives the same outcome for the same path, so a path listed twice is assumed to convert the same way both times.
- Any exception derived from `Exception` that a conversion raises becomes `Failed(detail)`. `detail` stands for `str(e)`. Exceptions outside the `try` (from `len`, the `update_status` calls at lines 63, 75 and 77, or `showinfo`) are not modelled: the tkinter calls are taken never to fail.
- Workflow.ConvertCallsEveryFile, Workflow.ConvertNoticeCitesTotal: hold only for failures derived from `Exception`. A `BaseException` that is not an `Exception` (`SystemExit`, `KeyboardInterrupt`), or an exception from the `print` in the `except` clause (line 73), escapes the loop and ends the run: the remaining files are not converted, no success notice appears and the label stays on "Converting: …". The converter oracle cannot express such an outcome.
- DropParser.ParseSerialized, DropParser.ParseAllBraced, DropParser.ParseMinimallyBraced: the round trip needs braces around every path that holds any character for which Python's `str.isspace` holds. A drag-and-drop toolkit that braces paths only for ASCII whitespace sends a path holding, say, U+3000 bare, and `\S+` splits it (`DropScenarios.IdeographicSpaceSplits`). The `.docx` part of such a path then passes the filter and is converted as a path that does not exist, yet the notice still counts it.
- The modal dialogs are `Show` events, and blocking until the user dismisses them is not modelled. Console output is a `LogFailure` event; `LogText` gives its exact text.
- Text.LowerChar: lower-cases ASCII letters only, not all Unicode letters as `str.lower` does. The `.docx` test still agrees with Python, because no non-ASCII character lower-cases to `.`, `d`, `o`, `c` or `x`.
- Text.Basename: POSIX `os.path.basename` only. On Windows, `ntpath.basename` also splits at `\` and drops a drive prefix (`C:a.docx` gives `a.docx`); neither is modelled.
- The unused `index` of `enumerate` (line 65) is not modelled.
