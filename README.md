# rankDemoReport — a Dafny model

`rankDemoReport.py` is a command-line sample for Bloomberg's RANK API. It
opens a session with the `//blp/rankapi` and `//blp/refdata` services, and
then reads a CSV file of securities and a CSV file mapping tickers to
analysts. It then runs two stages:

- For each security it sends a ranking request and then a reference-data
  request. From the replies it builds one row:
  `[security, rank, volume, sector, analyst, last trade]`.
- It sends one ranking request for all securities, grouped by broker. This
  gives the overall traded volume and the chosen broker's place in the
  ranking, together with the brokers ranked just above and just below it.

Last, it draws a one-page PDF report from the two results.

This project models the script's logic in Dafny:

- **The session.** It is a finite sequence of `Event`s (RESPONSE,
  PARTIAL_RESPONSE, TIMEOUT, other). Each event holds its messages (Exception,
  Report, reference data, other). Every `nextEvent` call takes the next event.
  When the sequence runs out, the script would be polling timeouts forever, so
  the model's outcome is "stalled" or `Hang`.
- **Python exceptions.** A crash (IndexError, ValueError, the vendor's
  NotFound on a missing element, a file that cannot be opened) is a `PyError`
  value. It is never a precondition.
- **Loops.** Every loop of the script that updates variables or fills a
  request is a Dafny `method` with a `while` loop. Each such method is proved
  equal to a recursive specification function, and the properties the script
  promises are proved about those functions. The loop in `get_analyst` only
  returns at its first match; it is the recursive function
  `AnalystLookup.GetAnalyst`. The tickers loop of `get_position_data` is the
  method `PositionData.AppendTickers`, specified by the recursive function
  `PositionData.RequestTickers`.

Modules, one per part of the script:

| file | module | source |
|---|---|---|
| base.dfy | `Base` | `Option`, `Result`, the Python errors, CSV rows |
| events.dfy | `Events` | the session's events and messages |
| csv_import.dfy | `CsvImport` | `import_securities`, `import_analyst_mappings` |
| analyst_lookup.dfy | `AnalystLookup` | `get_analyst` |
| rank_data.dfy | `RankData` | `get_rank_data` |
| position_data.dfy | `PositionData` | `get_position_data` |
| command_line.dfy | `CommandLine` | the option loop and defaults of `main` |
| report_run.dfy | `ReportRun` | `main` and what `generate_output` reads |

`main` is modelled under two readings of the script, the `ReportRun.Variant`
values `AsWritten` and `Corrected`. They differ in the three places listed under
"## Findings": which help spellings the option loop honours, how many values a
failed `get_position_data` returns, and whether a missing `-a` option means no
mapping file. `ReportRun.RunWith` is `main` under a given reading;
`ReportRun.Run` is `main` with the corrections applied.

Two points about the window of brokers around the chosen one:

- **The window's upper bound.** The pass (`rankDemoReport.py:223-234`)
  scans only `range(0, len(full_pos_data) - 1)`, so it never visits the last
  index. The guard `if i < (len(full_pos_data)-1)` at line 233 is therefore
  always true, and the branch that would leave out the "below" entry for a
  broker ranked last never runs. The model keeps the bound as written.
  `PositionData.WindowLayout` proves that the below entry is never left out.
  A broker found only at the last index gets no entries at all.
- **When the window pass runs.** The pass runs after every polled event,
  timeouts included. It scans the whole of `full_pos_data` each time, so
  `pos_data` collects one window per event. `PositionData.PolledWindow` proves
  that its first three entries are still the window of the final ranking. Those
  three entries are all the report reads.

## Model

| member | source | states |
|---|---|---|
| CsvImport.DropHeader | rankDemoReport.py:27-41 | the title row is removed; the data rows keep their order; a file with no row raises IndexError at `pop(0)` |
| CsvImport.HeaderRoundTrip | rankDemoReport.py:32 | dropping the title of a file made of a title and rows returns exactly those rows |
| CsvImport.HeaderRestored | rankDemoReport.py:32 | putting the first row back in front of what is kept gives the file back |
| CsvImport.ImportSecurities | rankDemoReport.py:27-33 | the securities list is the file without its title, or IndexError for an empty file |
| CsvImport.ImportAnalystMappings | rankDemoReport.py:35-41 | the mapping list is the file without its title, or IndexError for an empty file |
| AnalystLookup.GetAnalyst | rankDemoReport.py:153-159 | a non-empty answer is column 1 of some row whose column 0 is the ticker; the only error is IndexError |
| AnalystLookup.FirstMatchWins | rankDemoReport.py:155-157 | the first row naming the ticker gives the analyst, after non-empty rows for other tickers |
| AnalystLookup.NoMatchIsEmpty | rankDemoReport.py:159 | with no row naming the ticker the answer is the empty string |
| AnalystLookup.ShortRowFails | rankDemoReport.py:155-157 | an empty row, or a matching row with one column, reached before any match raises IndexError |
| AnalystLookup.LaterRowsIgnored | rankDemoReport.py:155-157 | rows after a row naming the ticker never change the answer |
| Events.NoReportNoRecords | rankDemoReport.py:105-111 | a reply without a Report message contributes no broker record |
| Events.ReportRecordsAppend | rankDemoReport.py:97-111 | the records of two runs of messages are the records of each, in order |
| Events.AllSecurityDataAppend | rankDemoReport.py:130-142 | the reference-data entries of two runs of messages are those of each, in order |
| RankData.LastRecordAppend | rankDemoReport.py:107-111 | overwriting rank and volume record by record over two runs equals doing it over their concatenation |
| RankData.HandleRankReply | rankDemoReport.py:97-113 | an Exception anywhere in the reply aborts; otherwise rank and total come from the last record of all its Reports together, or carry over when they hold none; done exactly when a Report was seen |
| RankData.PollRankReplies | rankDemoReport.py:91-113 | only RESPONSE events are read; polling stops at the first RESPONSE holding an Exception or a Report, and rank and volume then come from that reply's last record, or carry over when it holds none; an Exception is reported only if it is in that first deciding reply; stalled exactly when no RESPONSE decides |
| RankData.PollRank | rankDemoReport.py:91-113 | the `while not done` loop computes `PollRankReplies` |
| RankData.LastSecurityAppend | rankDemoReport.py:134-142 | overwriting sector and last trade entry by entry over two runs equals doing it over their concatenation |
| RankData.HandleRefReply | rankDemoReport.py:130-142 | each entry sets the sector (DS199, or "(unknown)" without it) and the last trade (PR088); a message without `securityData` or an entry without PR088 raises NotFound |
| RankData.RefEntryWithoutLastTrade | rankDemoReport.py:142 | one entry without PR088 anywhere in the reply makes the whole reply raise NotFound |
| RankData.PollRefReplies | rankDemoReport.py:126-144 | the first RESPONSE ends the polling whatever it holds, and sector and last trade are what that reply sets, rank and volume unchanged; a failure is always NotFound and happens only when that first RESPONSE cannot be read; stalled only when no RESPONSE comes |
| RankData.PollRef | rankDemoReport.py:126-144 | the loop computes `PollRefReplies` |
| RankData.SecurityStep | rankDemoReport.py:62-147 | a produced row is for the security's first column, its analyst is what `get_analyst` returns for it, and the locals handed to the next security are exactly those the row records |
| RankData.SecurityStepPolls | rankDemoReport.py:62-147 | a row needs both polls to end normally: its rank and volume are what the ranking poll leaves, its sector and last trade what the reference-data poll that follows leaves; the pass aborts with an Exception exactly when the ranking poll does; a security row with no column raises IndexError; any other crash comes from the analyst lookup or the reference-data poll after a normal ranking poll; it stalls only when one of the polls stalls. So good replies and a successful lookup always give a row |
| RankData.SecurityPass | rankDemoReport.py:62-147 | the body of the loop, for one security, computes `SecurityStep`: ticker, ranking request, analyst lookup, reference-data request, then the row |
| RankData.RankFrom | rankDemoReport.py:62-151 | on success there is exactly one row per security, in input order, after the rows already built, each for that security's ticker with its mapped analyst |
| RankData.RankFromSplit | rankDemoReport.py:62-151 | running the loop over the first `k` securities and then over the rest, from where they left the session and with the locals their last row records, is running it over all of them |
| RankData.RowAt | rankDemoReport.py:62-151 | on success, the first `k` rows are those of the first `k` securities, and row `k` is what the pass of security `k` produces from where they left the session and with the locals of row `k - 1` (the initial ones for the first row) |
| RankData.StepWithoutRecords | rankDemoReport.py:105-111 | a pass whose deciding ranking reply holds no record leaves `data_rank` and `data_volume` as they were |
| RankData.CarryOverWithoutRecords | rankDemoReport.py:48-111 | the locals are never reset between securities: a security whose deciding ranking reply holds no record gets the rank and volume of the row before it, or 0 and 0 for the first row |
| RankData.RankExceptionAborts | rankDemoReport.py:99-103 | an Exception in the deciding ranking reply of any security whose earlier securities produced rows ends the whole loop with `[], False` |
| RankData.RankExceptionCause | rankDemoReport.py:99-103 | and that is the only way the loop ends with `False`: some security has a ticker, the earlier ones produced rows, and its ranking poll meets the Exception |
| RankData.GetRankData | rankDemoReport.py:44-151 | the loop over securities computes `RankFrom` from empty rows and the initial locals (0, 0, "", 0.0) |
| RankData.RowFromReplies | rankDemoReport.py:91-147 | with one Report reply and one reference-data reply, the row has the last record's rank and total, the last entry's sector ("(unknown)" without DS199) and last trade, or the carried values when a list is empty |
| PositionData.PosRowsAppend | rankDemoReport.py:207-216 | the rows of two runs of records are the rows of each, in order |
| PositionData.SumTradedAppend | rankDemoReport.py:217 | the traded volume of two runs of rows is the sum of each |
| PositionData.WindowPass | rankDemoReport.py:223-234 | one pass appends to `pos_data` exactly the window of the current records |
| PositionData.MatchesExact | rankDemoReport.py:223-224 | the indices the pass visits with the broker's acronym are exactly those below the last index, each once, in increasing order |
| PositionData.WindowLayout | rankDemoReport.py:223-234 | the pass appends three entries per such index, in order: the row above or `[]` at index 0, the broker's row, and the row below, which is never `[]` |
| PositionData.WindowEmptyIff | rankDemoReport.py:223-234 | the pass appends nothing exactly when the broker is at no index but possibly the last |
| PositionData.WindowFirstMatch | rankDemoReport.py:223-234 | the first three entries are the neighbourhood of the broker's first position |
| PositionData.WindowPrefix | rankDemoReport.py:223-234 | records appended later never change the window of the earlier ones, which stays a prefix |
| PositionData.WindowGrows | rankDemoReport.py:221-234 | one more pass keeps `pos_data` empty exactly when the window is empty, and keeps its first three entries equal to the window's |
| PositionData.ReadSnoc | rankDemoReport.py:196-219 | one more message: an Exception aborts, a Report adds its rows and their volume and, in a RESPONSE, ends the polling, anything else changes nothing |
| PositionData.AddRecords | rankDemoReport.py:207-217 | appends one row per record, in order, and adds exactly their traded volumes to the total |
| PositionData.HandlePositionReply | rankDemoReport.py:196-219 | an Exception anywhere aborts; otherwise every Report's rows are appended and their volume added; done exactly for a RESPONSE holding a Report |
| PositionData.PollPositions | rankDemoReport.py:189-234 | polling stops right after the first RESPONSE holding a Report; no reply before it held an Exception; the records are every row of every RESPONSE or PARTIAL_RESPONSE in between and the total grows by exactly their volumes; an Exception outcome has an Exception in a reply with no earlier reply ending the polling or holding one; stalled only when no reply ends the polling or holds an Exception |
| PositionData.ExceptionBeforeStop | rankDemoReport.py:190-201 | conversely, a reply holding an Exception with no earlier reply ending the polling or holding one makes the request fail with `[], False` |
| PositionData.PolledWindow | rankDemoReport.py:189-234 | however the records arrive over partial responses and timeouts, the first three entries of `pos_data` are those of the final window |
| PositionData.PositionsFromStart | rankDemoReport.py:166-234 | from empty lists: the records are all rows of the replies, the total is their traded volume, `pos_data` is empty exactly when the broker is absent from all but possibly the last record, and otherwise begins with the broker's first neighbourhood |
| PositionData.FirstWindowFacts | rankDemoReport.py:223-234 | when `pos_data` starts as the final window does, it is empty exactly when the broker is absent from all but possibly the last record, and otherwise begins with the broker's first neighbourhood |
| PositionData.BrokerWindowOwn | rankDemoReport.py:223-234 | a non-empty `pos_data` has the broker's own row second and a row after it |
| PositionData.RequestTickers | rankDemoReport.py:182-183 | the request lists each security's first column, in order; a security row with no column raises IndexError |
| PositionData.AppendTickers | rankDemoReport.py:182-183 | the loop over securities computes `RequestTickers` |
| PositionData.GetPositionData | rankDemoReport.py:162-238 | the function computes `PositionDataOf`: IndexError for a security without a column, otherwise `PollPositions` from empty lists |
| CommandLine.Set | rankDemoReport.py:356-365 | an option writes its own setting and no other |
| CommandLine.ParseOptions | rankDemoReport.py:352-365 | the loop over the options computes `FoldOptions` from five empty settings |
| CommandLine.HelpIffFlag | rankDemoReport.py:353-355 | the loop stops for help exactly when some option is a help option |
| CommandLine.FoldKeepsLast | rankDemoReport.py:352-365 | without a help option each setting is the argument of the last option writing it (either spelling), or its start value |
| CommandLine.FoldSettings | rankDemoReport.py:338-365 | from the five empty settings, without a help option, each setting ends as its last option's argument, or empty |
| CommandLine.LongHelpIgnoredAsWritten | rankDemoReport.py:353 | with only `-h` compared, a `--help` option is skipped as if absent |
| CommandLine.LongHelpHonoured | rankDemoReport.py:353-355 | when both spellings are compared, `--help` anywhere requests help |
| CommandLine.Finalize | rankDemoReport.py:367-387 | exit 2 exactly when the security file or broker is empty; otherwise the date defaults to yesterday, the output file to `report_<date>.pdf`, the rest is kept, and the output name is never empty |
| ReportRun.ReadTable | rankDemoReport.py:27-41 | the empty name (the script's own directory) or a missing file raises; otherwise the title row is dropped |
| ReportRun.LoadMappings | rankDemoReport.py:382-423 | when the mapping file is optional, no `-a` gives no mappings; as written, no `-a` opens the empty name and raises; a named file is read like the security file |
| ReportRun.GenerateOutput | rankDemoReport.py:276-297 | the report is drawn exactly when `position_data` has at least three entries and the second is a row; it shows those three entries, the rows, the total, the file name and the date; otherwise IndexError |
| ReportRun.UnpackPositionFailure | rankDemoReport.py:434-437 | unpacking three names exits with 2 exactly for a triple, and raises ValueError for any other size |
| ReportRun.Prepare | rankDemoReport.py:337-428 | reaching the position request needs parsed options, a started session with both services open, a non-empty security file, broker and output name, a readable security file, the mappings that reading of the script loads, and one row per security with its mapped analyst |
| ReportRun.RunReport | rankDemoReport.py:337-442 | `main`, under the reading of the script it is given, computes `RunWith` for that reading: getopt error exits 2, help exits 0, then the checks, the session, the files, both requests and the PDF |
| ReportRun.HelpExitsZero | rankDemoReport.py:353-355 | under either reading, a help option of that reading exits 0 whatever else is given |
| ReportRun.RequiredOptionsExit | rankDemoReport.py:367-373 | under either reading, a missing or empty security file or broker code exits 2 before the session or any file is used |
| ReportRun.PreparedFromOptions | rankDemoReport.py:352-387 | under either reading, the settings `main` goes on with are the last options given, with the defaults filled in |
| ReportRun.PreparedSetup | rankDemoReport.py:352-373 | under either reading, reaching the position request means the option loop ended without help and the checks after it passed with the settings `main` uses |
| ReportRun.GeneratedReport | rankDemoReport.py:337-442 | under the corrected reading, a generated report has the date and file name from the options or their defaults, one line per data row of the security file with its mapped analyst (empty when no mapping file is named), and the broker's own row with a row below it |
| ReportRun.GeneratedPosition | rankDemoReport.py:276-297 | a drawn report shows the broker's own row and a row below it |
| ReportRun.BrokerAbsentCrashes | rankDemoReport.py:276 | under either reading, a broker absent from every ranked record but possibly the last leaves `position_data` empty, and drawing raises IndexError |
| ReportRun.PositionRequestFails | rankDemoReport.py:190-201 | once `main` reaches the position request, a reply holding an Exception before the RESPONSE that ends the polling makes the request fail |
| ReportRun.PositionFailureAsWritten | rankDemoReport.py:434 | as written, such a reply makes `main` raise ValueError when it unpacks the pair |
| ReportRun.PositionFailureExits | rankDemoReport.py:434-437 | corrected, the same reply makes `main` exit 2 |
| ReportRun.LongHelpAsWritten | rankDemoReport.py:353 | as written, `--help` alone exits 2 for the missing security file instead of printing the usage |
| ReportRun.LongHelpExitsZero | rankDemoReport.py:353-355 | corrected, `--help` anywhere exits 0 |
| ReportRun.NoMappingsAsWritten | rankDemoReport.py:423 | as written, without `-a`, once the session is up and the security file is read, opening the mapping file raises |
| ReportRun.NoMappingsBlankAnalysts | rankDemoReport.py:382-383 | corrected, a report generated without `-a` has an empty analyst on every row |

## Left out

- The other four scripts (`rankDataRequest.py`, `rankDataGroupRequest.py`, `rankDataGroupRequestSync.py`, `rankDataRequestServer.py`) are not part of this model.
- The content of the requests sent (dates, units, source, grouping, the broker filter, the field names) is not modelled. The session is a given sequence of replies, so what is asked has no effect on the model.
- Console output (`print`), the usage text, and the PDF drawing calls (fonts, colours, positions, logo image, writing the file) are left out. `ReportRun.PdfContent` holds the values the page shows.
- Opening and parsing the CSV files is not modelled. A file is its list of rows, looked up by name, and a name with no entry is a file that cannot be opened.
- `getopt` itself is not modelled. Its result is a parameter: the list of (option, argument) pairs it returns, or None when it raises.
- `date.today()` is not modelled: the day before today is the parameter `yesterday`.
- `ReportRun.GenerateOutput`: the date is not parsed with `strptime`, so an ill-formed `-d` date, which raises ValueError when the header is drawn, is not modelled.
- Float values (`getValueAsFloat`, `getElementAsFloat`, `int(...)`) are not modelled. Traded volumes and totals are integers, and the last trade price is an unconstrained `real`.
- `PositionData.PollPositions` returns the record list (`full_pos_data`) alongside `pos_data` and the total, so that its contract can speak of it. The script does not return that list.
- Missing elements in the ranking replies are not modelled. A Report message always has `records`, and every record has the broker's acronym, name and rank, its `total` and its `traded` volume. So the NotFound that `getElement` would raise at lines 107, 110-111 and 205-213 cannot happen in the model. The vendor's RANK API schema carries these elements. The optional reference-data fields DS199 and PR088 are modelled, with their failure.
- A session that never delivers a deciding reply makes the script poll forever. The model ends it as `Hang` when the given events run out.
- The `os.system` call at line 452, which asks the operating system to open the finished PDF, is not modelled: it is I/O after the report is written. The two alternatives before it (lines 450-451) are commented out.

## Findings

| source | as written | input that shows it | evidently intended | confidence | as-written member | corrected member |
|---|---|---|---|---|---|---|
| rankDemoReport.py:201 | `get_position_data` returns the pair `[], False` when a reply holds an Exception, but `main` unpacks three names from it at line 434 | a RESPONSE or PARTIAL_RESPONSE to the broker ranking request that holds an Exception message | return `[], 0, False` so that `main` exits with status 2, as it does when `get_rank_data` fails | high, not executed | ReportRun.PositionFailureAsWritten | ReportRun.PositionFailureExits |
| rankDemoReport.py:423 | without `-a`, `analysts_file` stays `''`; lines 382-383 and 393 treat the file as optional, but line 423 still calls `import_analyst_mappings('')`, which opens the script's own directory and raises | options `-s` and `-b` only, with a readable security file and a working session | skip the mapping file when it is not given and leave every analyst empty | high, not executed | ReportRun.NoMappingsAsWritten | ReportRun.NoMappingsBlankAnalysts |
| rankDemoReport.py:353 | the option loop compares only with `-h`, although `getopt` is told to accept `--help` at line 348 | the argument list `--help` | treat `--help` like `-h`: print the usage and exit with status 0 | medium, not executed | ReportRun.LongHelpAsWritten | ReportRun.LongHelpExitsZero |
