# ical-alerts: the alarm injector, modelled in Dafny

`add_alerts` (src/main.rs) rewrites an iCalendar document (RFC 5545) as
text. It cuts the document into lines with Rust's `str::lines`. Each line
that is exactly `END:VEVENT` becomes a display alarm component (section
3.6.6 of RFC 5545), followed by the `END:VEVENT` line again. The alarm's
`TRIGGER` is the negative duration `-PT5M`, so it fires five minutes before
the event starts (sections 3.8.6.3 and 3.3.6 of RFC 5545). Every other line
is kept as it is. The lines are then joined with single line feeds.

The model is two modules of pure functions and lemmas, because the source
is a single iterator chain with no mutable state:

- `StrLines` (str_lines.dfy) models the Rust string operations the
  function relies on: `lines()` (`Lines`), `split('\n')` (`Split`, used to
  read the output back line by line) and `join` (`Join`).
- `Alerts` (alerts.dfy) models `add_alerts` itself: the closure (`Expand`),
  the mapped lines (`ExpandAll`) and the whole rewrite (`AddAlerts`). Next
  to it is a reference reading of the output as a list of lines
  (`ExpandedLines`), plus the lemmas that connect the two.

`Lines` follows the current standard library. It cuts at every `\n`, and
one `\r` directly before a `\n` belongs to the line ending. A trailing
line ending adds no empty line, and `Lines("")` is empty. A lone `\r` at
the very end of the input, with no `\n` after it, stays part of the last
line (see "## Left out" for older toolchains).

The replacement text in src/main.rs:34-38 is one string literal written
over several lines with `\` continuations. Each continuation drops the line
break in the source and the next line's leading spaces. So the replacement
is exactly the five unindented lines `BEGIN:VALARM`, `TRIGGER:-PT5M`,
`ACTION:DISPLAY`, `END:VALARM` and `END:VEVENT`. The model writes it as the
concatenation of those five lines and their line feeds.

The service is meant to become a proxy. That proxy would validate the
query parameters `user`, `token` and `min`, filter the forwarded headers,
fetch the upstream calendar and inject one alarm per caller-supplied minute
offset. The code does none of this yet. Its `handler`
is a stub that returns status 200 with an empty body, and `add_alerts`
always inserts the one hard-coded five-minute alarm. The model follows the
code.

## Model

| member | source | states |
|---|---|---|
| `StrLines.FindNewline` | src/main.rs:30 | the cut point of `lines()` lies within the text, and when it is not the end of the text it is a line feed |
| `StrLines.FindNewlineFirst` | src/main.rs:30 | no line feed comes before the cut point, so it is the first line feed of the text, or its end when there is none |
| `StrLines.StripCR` | src/main.rs:30 | a line that ends with `\r` loses exactly that one character; any other line is returned unchanged |
| `StrLines.Join` | src/main.rs:44 | `join("\n")`: the lines with one line feed between neighbours and none after the last; its contract is carried by `SplitOfJoin` and `JoinOfSplit` (it inverts `split('\n')` in both directions) |
| `StrLines.Split` | src/main.rs:44 | reads back the output of the join at its line feeds: `split('\n')` returns at least one piece, also for the empty text |
| `StrLines.SplitNoLF` | src/main.rs:44 | reading back the output of the join: no piece returned by `split('\n')` contains a line feed |
| `StrLines.SplitCons` | src/main.rs:44 | reading back the output of the join: a first piece without line feeds, followed by `\n`, is split off unchanged and the rest of the text is split in the same way |
| `StrLines.Lines` | src/main.rs:30 | only the empty text has no lines |
| `StrLines.LinesNoLF` | src/main.rs:30 | no line returned by `lines()` contains a line feed |
| `StrLines.LinesCons` | src/main.rs:30 | a first line without line feeds, followed by `\n`, is returned with one trailing `\r` removed, and the rest of the text is then cut in the same way |
| `StrLines.SplitAppend` | src/main.rs:44 | reading back the output of the join: a line feed between two texts separates their pieces: `Split(a + "\n" + b) == Split(a) + Split(b)` |
| `StrLines.SplitOfJoin` | src/main.rs:43-44 | splitting `join("\n")` at its line feeds gives back the joined lines, when there is at least one line and none contains a line feed |
| `StrLines.JoinOfSplit` | src/main.rs:44 | `join("\n")` of the pieces of `split('\n')` is the original text |
| `StrLines.LinesFromPieces` | src/main.rs:30 | `lines()` equals an independent reading built from `split('\n')`: each piece followed by `\n` drops one trailing `\r`, and the final piece counts as a line only when it is not empty |
| `StrLines.LinesOfJoin` | src/main.rs:30 | `lines()` of the `\n`-join of lines gives back those lines, when no line contains `\n`, no line but the last ends with `\r` (the last may, since `lines()` keeps a final lone `\r`), and the last is not empty |
| `StrLines.JoinOfLines` | src/main.rs:30-44 | joining the lines of a text with `\n` returns the text exactly, when it has no CR LF and no final line feed |
| `StrLines.LinesOfCRLF` | src/main.rs:30 | a document whose every line ends with CR LF is cut back into exactly those lines |
| `Alerts.Expand` | src/main.rs:31-42 | the closure changes a line exactly when the line is, character for character, the compared literal `END:VEVENT` (the constant `Marker`); `end:vevent`, `END:VEVENT ` or `X-END:VEVENT` are returned unchanged |
| `Alerts.ExpandAll` | src/main.rs:30-43 | `map(..).collect()`: the closure applied to every line, in order; its contract is carried by `ExpandAllCons`, `NoMarkerExpandAll` and `SplitJoinExpandAll` (the join of its result reads back as the reference output lines) |
| `Alerts.ExpandAllCons` | src/main.rs:30-43 | `map` applies the closure to the first line and then to the remaining lines in the same order, so it keeps the number and the order of the lines |
| `Alerts.NoMarkerExpandAll` | src/main.rs:30-43 | when no line is exactly `END:VEVENT`, `map` returns the lines unchanged |
| `Alerts.AddAlerts` | src/main.rs:29-45 | the rewrite of the empty document is the empty string |
| `Alerts.AlarmBlockJoin` | src/main.rs:34-38 | the replacement literal (the constant `AlarmBlock`) is the five alarm lines joined with single line feeds, with no line ending after the last |
| `Alerts.AlarmBlockLines` | src/main.rs:34-38 | the replacement text is exactly the five lines `BEGIN:VALARM`, `TRIGGER:-PT5M`, `ACTION:DISPLAY`, `END:VALARM`, `END:VEVENT`, with the restored marker last |
| `Alerts.ExpandSplit` | src/main.rs:33-41 | one rewritten line, read back at its line feeds, is the five alarm lines for a marker and the line itself otherwise |
| `Alerts.SplitJoinExpandAll` | src/main.rs:30-44 | the `\n`-join of the rewritten lines, split at its line feeds, is the reference list of output lines |
| `Alerts.AddAlertsLines` | src/main.rs:29-45 | for non-empty input, the output split at `\n` is the input's lines with every `END:VEVENT` line replaced by the five alarm lines and every other line kept in order; the join adds no final line ending |
| `Alerts.ExpandedLinesAppend` | src/main.rs:30-43 | the output lines of two consecutive runs of input lines are the output lines of the first run followed by those of the second |
| `Alerts.ExpandedLinesLength` | src/main.rs:33-42 | each marker line stands for five output lines and every other line for one |
| `Alerts.AddAlertsLineCount` | src/main.rs:29-45 | for non-empty input, the output has as many lines as the input plus four for every `END:VEVENT` line |
| `Alerts.ExpandedLinesAt` | src/main.rs:31-43 | the output lines for input line `i` appear unchanged at position `i + 4 ×` (markers before `i`) |
| `Alerts.PositionOrder` | src/main.rs:30-43 | the output lines of an earlier input line end no later than those of any later input line begin, so the relative order is kept |
| `Alerts.ExpandedLinesKeep` | src/main.rs:39-41 | in the reference output, a line that is not exactly `END:VEVENT` stands unchanged at position `i + 4 ×` (markers before it) |
| `Alerts.AddAlertsKeepsLine` | src/main.rs:39-44 | in the output of `add_alerts`, split at `\n`, an input line that is not exactly `END:VEVENT` appears verbatim at position `i + 4 ×` (markers before it) |
| `Alerts.AddAlertsMarkerBlock` | src/main.rs:33-38 | in the output of `add_alerts`, split at `\n`, every `END:VEVENT` input line is replaced at its position by the same five lines `BEGIN:VALARM`, `TRIGGER:-PT5M`, `ACTION:DISPLAY`, `END:VALARM`, `END:VEVENT`, with no per-event variation |
| `Alerts.AddAlertsUnchanged` | src/main.rs:29-45 | a document with no `END:VEVENT` line, bare line feeds and no final line ending comes back byte for byte |
| `Alerts.AddAlertsCRLF` | src/main.rs:29-45 | a document whose every line, the last included, ends with CR LF comes back with bare line feeds and no final line ending; only marker lines change |
| `Alerts.AddAlertsOfJoin` | src/main.rs:29-45 | a document that is lines joined with `\n` is rewritten line by line, when the lines have no `\n`, only the last may end with `\r`, and the last is not empty (`lines()` of `"a\n\n"` is `["a", ""]`, whose join `"a\n"` is a different text, so a final empty line is excluded) |
| `Alerts.AddAlertsFinalCR` | src/main.rs:30-33 | a one-line document whose line ends in a lone `\r` comes back unchanged, even `END:VEVENT\r`, because `lines()` keeps that `\r` and the comparison is exact |
| `Alerts.AddAlertsExample` | src/main.rs:51-71 | the unit test's calendar is rewritten into the expected calendar with one `VALARM` before `END:VEVENT` |

## Left out

- `main` and `handler` (src/main.rs:8-27): the Lambda runtime bootstrap and a stub handler that ignores its request and always answers status 200 with an empty text body. Neither has logic to model.
- infra/lib/infra-stack.ts: the deployment configuration (Lambda function, function URL, permissions). It declares infrastructure and has no behaviour.
- Validating the `user`, `token` and `min` query parameters, filtering `x-` headers, fetching the upstream calendar, mapping statuses and errors, and a list of caller-supplied minute offsets. These are planned for the service, but the code has none of them, so there is nothing to model.
- Unfolding of folded content lines (section 3.1 of RFC 5545) and any structural parsing of the calendar. The code matches whole lines literally and does neither.
- `Lines` follows the current `str::lines`, which keeps a lone `\r` at the very end of the text. Older Rust toolchains removed it. The visible effect is on any final line that ends in a lone `\r` with no `\n` after it. The model keeps that `\r` in the output, while an older toolchain drops it. `AddAlertsFinalCR` states this for a one-line document. So a final `END:VEVENT\r` is left unchanged by the model, while an older toolchain would expand it into an alarm.
- Memory layout: Rust's borrowed `&str` slices and the intermediate `Vec<&str>` are modelled as values (`string` and `seq<string>`). This changes nothing that can be observed in the result.
