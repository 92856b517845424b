# oozie_dump: incremental workflow export, modelled in Dafny

`oozie_dump` reads the list of Oozie workflows, either from the `/v1/jobs` endpoint or from a saved JSON file. It writes the workflows that are new since the previous run to a timestamped CSV file in an output directory. A watermark in `<outputDir>/_marker` records how far earlier runs got. This project models the incremental pass of `oozie_dump.go` and proves its properties:

- **`writeUpdate`** is modelled by `Sync.WriteUpdate` and `Sync.WriteRows`. It writes a 9-column header. It then walks the workflows in order. It keeps a workflow when its `appName` matches `APPNAME_REG` and the marker is strictly before its `lastModTime`, and writes one row for each kept workflow. It tracks a running maximum `lastMod` that starts at the marker, and writes that maximum back as the new marker. The output directory is a class (`Sync.OutputDir`) holding three things: the `_marker` file, the flushed CSV files, and the order of the disk effects. The `csv.Writer` is a class (`Sync.CsvWriter`) that buffers rows until the deferred flush.
- **`APPNAME_REG`** is modelled by `AppNames`, a hand-written matcher. The pattern is a list of pieces: the literal prefix, `-` separators, and digit groups of width 12, 4 and 2. The matcher consumes the name piece by piece. It returns the three capture groups, or None when the name does not match.
- **`readMarker`** is modelled by `Markers.ReadMarker`. A missing file gives 2000-01-01T00:00:00 UTC. Any other read error is an error. The file's content is parsed, and a parse failure is an error.
- **`CustomTime.UnmarshalJSON`** is modelled by `CustomTimes`. Every leading and trailing `"` is stripped. `null` becomes Go's zero Time. Anything else goes to the RFC 822 parser.
- **Chains of passes** are modelled by `Passes`: `main`'s `readMarker` followed by `writeUpdate`, repeated, where each pass reads the marker the previous pass wrote.

Instants are integers: nanoseconds since Go's zero Time, 0001-01-01T00:00:00 UTC, which is `ZeroInstant` = 0. The default marker is `SentinelInstant`, 730119 days later. The RFC 822 and RFC 3339 (section 5.6) parsers and the RFC 3339 formatter come from Go's library. They are passed in as functions (`parse`, `format`).

The marker is written with `MARKER_FORMAT` = `time.RFC3339`, which has no fractional seconds. Go's formatter drops the fraction, and Go's parser accepts a fraction after the seconds field even when the layout has none. So the marker the next pass reads is the running maximum truncated to its second, not the maximum itself. The model states this as the predicate `Markers.Keeps(layout, parse, format)`: every instant reads back as `Markers.Kept(layout, t)`. Under `RFC3339` that is `t` minus its fraction of a second. Under `RFC3339Nano` it is `t` itself. The chain lemmas are stated for either layout. The program's layout is `RFC3339`. What that costs is under "## Findings". One `format` parameter formats both the CSV cells (oozie_dump.go:177-179) and the marker (oozie_dump.go:186), as the program uses `time.RFC3339` for both. The lemmas for `RFC3339Nano` describe changing both layouts. The fix they stand for changes only `MARKER_FORMAT` (oozie_dump.go:21), and the rows do not affect which workflows are accepted or what marker is written.

Behaviour of the code that the model keeps as written:
- A `null` timestamp decodes to the zero Time. In a row it is formatted like any other instant, so the cell holds the zero date, not an empty cell.
- A failed `time.Parse` leaves the receiver at the zero Time and returns the error.
- The marker is written with `ioutil.WriteFile`, which truncates and then writes. It is not atomic. A failed write leaves `_marker` in whatever state the failure left it (`DiskOutcome.markerWrite`).
- The CSV writer's `Flush` is deferred, so it runs after the marker is written. `WriteUpdate`'s effect log shows `ArtifactCreated`, then `MarkerWritten` or `MarkerWriteFailed`, then `ArtifactFlushed`.
- The marker is written back even when nothing is accepted. When the file was missing, the default instant is then written to it.
- The marker written is the running maximum truncated to whole seconds.

## Model

| member | source | states |
|---|---|---|
| `AppNames.Compose` | oozie_dump.go:173-175 | the name whose three capture groups are the given account, year and month (the inverse that `Match` is proved against) |
| `AppNames.ComposeShape` | oozie_dump.go:19 | a composed name starts with `aws-reconciler-production-`, and a well-formed one has 46 characters |
| `AppNames.Scan` | oozie_dump.go:19 | a successful scan captures one group per digit group of the pattern, each exactly that many ASCII digits, and re-rendering the groups gives back the whole input (anchored at both ends) |
| `AppNames.Match` | oozie_dump.go:168 | a name that matches splits into a 12-digit account, a 4-digit year and a 2-digit month, and composing them gives back exactly the name |
| `AppNames.ScanRender` | oozie_dump.go:19 | scanning any text built from the pattern with well-formed groups returns exactly those groups |
| `AppNames.MatchCompose` | oozie_dump.go:173-175 | for every 12-digit account, 4-digit year and 2-digit month, `aws-reconciler-production-<a>-<y>-<m>` matches and splits into exactly (a, y, m) |
| `AppNames.MatchIff` | oozie_dump.go:19 | a name matches if and only if it has that shape, so a name of any other shape does not match |
| `AppNames.ComposeInjective` | oozie_dump.go:168 | two well-formed decompositions of the same name are equal |
| `AppNames.MatchExample` | oozie_dump.go:19 | `aws-reconciler-production-123456789012-2023-07` splits into `123456789012`, `2023`, `07` |
| `AppNames.MatchLength` | oozie_dump.go:19 | every matching name has exactly 46 characters |
| `AppNames.NoMonthExample` | oozie_dump.go:19 | a name that stops after the year group does not match |
| `CustomTimes.LeadingQuotes` | oozie_dump.go:28 | counts the maximal run of `"` at the front of the text |
| `CustomTimes.TrailingQuotes` | oozie_dump.go:28 | counts the maximal run of `"` at the back of the text |
| `CustomTimes.TrimQuotes` | oozie_dump.go:28 | the trimmed text neither starts nor ends with `"` and is no longer than the input |
| `CustomTimes.TrimQuotesSlice` | oozie_dump.go:28 | the trimmed text is a contiguous middle `s[i..j]` of the input, and everything dropped before `i` and from `j` on is `"`; with `TrimQuotes`' contract the runs removed are exactly the maximal ones |
| `CustomTimes.TrimQuotesWrapped` | oozie_dump.go:28 | a text without quotes at its ends survives trimming unchanged, with or without one pair of quotes around it |
| `CustomTimes.DecodeTime` | oozie_dump.go:27-35 | whenever decoding reports an error, the instant stored is the zero Time |
| `CustomTimes.NullDecodesToZero` | oozie_dump.go:29-31 | both `"null"` and `null` decode to the zero instant without error, whatever the parser |
| `CustomTimes.DecodeQuoted` | oozie_dump.go:33 | a quoted non-null timestamp decodes to what the RFC 822 parser gives for the text between the quotes, or to the zero instant with an error |
| `CustomTimes.CustomTime.constructor` | oozie_dump.go:23-25 | a fresh `CustomTime` holds the zero Time |
| `CustomTimes.CustomTime.UnmarshalJSON` | oozie_dump.go:27-35 | the receiver's instant and the returned error are those of `DecodeTime` |
| `Markers.ReadMarker` | oozie_dump.go:105-126 | missing file gives 2000-01-01T00:00:00 UTC; other read failures give an error; present content gives its parse, or an error exactly when it does not parse |
| `Markers.Kept` | oozie_dump.go:186 | what survives writing an instant in the marker layout: at most the instant, less than a second before it, exact in the layout, and the instant itself when it already was exact |
| `Markers.KeptMonotone` | oozie_dump.go:186 | truncating to the layout keeps the order of instants |
| `Markers.ReadBackWritten` | oozie_dump.go:186 | the marker text written for instant t reads back as what the layout keeps of t, which is t when t is exact |
| `Sync.RowFor` | oozie_dump.go:170-179 | every row has as many fields as the header: nine |
| `Sync.Emitted` | oozie_dump.go:162-183 | the loop writes at most one row per workflow |
| `Sync.Accepted` | oozie_dump.go:162-163 | the accepted workflows are no more than the input |
| `Sync.Accepts` | oozie_dump.go:163 | the selection rule: the name matches and the marker is strictly before `lastModTime` |
| `Sync.AcceptsShape` | oozie_dump.go:163 | a workflow is accepted if and only if its name has the pattern's shape and the marker is strictly before its `lastModTime` |
| `Sync.Step` | oozie_dump.go:164-166 | one step of the running maximum: never below `lastMod`, at least an accepted workflow's `lastModTime`, and equal to one of the two |
| `Sync.Advance` | oozie_dump.go:162-166 | the loop's `lastMod` after walking the workflows never goes below where it started |
| `Sync.NextMarker` | oozie_dump.go:135-166 | the marker a pass writes is never earlier than the marker it read |
| `Sync.Latest` | oozie_dump.go:164-166 | the reference maximum is at least its start and every `lastModTime`, and equals one of them |
| `Sync.AcceptedMembers` | oozie_dump.go:163 | a workflow is accepted if and only if it is in the input, its name matches and the marker is strictly before its `lastModTime` |
| `Sync.AcceptedAppend` | oozie_dump.go:162 | selection distributes over concatenation, so accepted workflows keep their input order |
| `Sync.EmittedLength` | oozie_dump.go:162-183 | one row per accepted workflow |
| `Sync.EmittedAt` | oozie_dump.go:170-179 | row k holds the k-th accepted workflow's id, name, account, year, month, status and three formatted instants |
| `Sync.EmittedRows` | oozie_dump.go:162-183 | the rows after the header are exactly one row per accepted workflow, in input order, with its fields and name groups |
| `Sync.NotAfterMarkerRejected` | oozie_dump.go:163 | a workflow whose `lastModTime` is at or before the marker, equality included, is never accepted |
| `Sync.AdvanceIsLatest` | oozie_dump.go:164-166 | rejected workflows do not move `lastMod`: the loop's running maximum is the latest of its start and the accepted `lastModTime`s |
| `Sync.NextMarkerIsMax` | oozie_dump.go:135-166 | the new marker is the maximum of the marker read and every accepted `lastModTime`: at least the marker, at least each accepted time, and equal to one of them |
| `Sync.NothingAcceptedKeepsMarker` | oozie_dump.go:135-187 | when nothing is accepted, no row follows the header and the marker written equals the marker read |
| `Sync.AcceptedOnce` | oozie_dump.go:163-166 | no accepted workflow is accepted again against the running maximum the pass computes |
| `Sync.LoopStep` | oozie_dump.go:162-183 | one iteration adds the row of an accepted workflow, or nothing, and moves `lastMod` by one step of the running maximum |
| `Sync.CsvFile` | oozie_dump.go:151-183 | the CSV file a pass writes starts with the header and has one more row than there are accepted workflows |
| `Sync.CsvWriter.constructor` | oozie_dump.go:147 | a new writer holds no rows |
| `Sync.CsvWriter.Write` | oozie_dump.go:170 | `Write` appends exactly one record |
| `Sync.OutputDir.constructor` | oozie_dump.go:216-228 | an output directory starts with the given `_marker` state, no CSV files and no effects |
| `Sync.WriteRows` | oozie_dump.go:162-183 | the loop appends exactly the rows of the accepted workflows in input order and returns the running maximum |
| `Sync.WriteUpdate` | oozie_dump.go:128-194 | create failure: error, nothing changed; otherwise the CSV file is `CsvFile`; the marker is written back (or left as the failed write left it, with an error); effects happen in the order create, marker write, flush |
| `Passes.Pass` | oozie_dump.go:230-241 | with every file-system call succeeding, a pass fails exactly when reading the marker fails, and otherwise writes the running maximum as the marker |
| `Passes.RunPass` | oozie_dump.go:230-241 | `readMarker` then `writeUpdate` on the directory: a failed read changes nothing; a failed create changes nothing; otherwise the directory gains `Pass`'s CSV file and holds `Pass`'s marker, or the failed write's leftover with an error, and the effects are create, marker write (or its failure), flush |
| `Passes.PassRows` | oozie_dump.go:151-179 | the header is first and always present, followed by one row per accepted workflow, every row nine fields |
| `Passes.PassNeverMovesBack` | oozie_dump.go:185-187 | the marker written reads back as what the layout keeps of the running maximum; it is never below what the layout keeps of the marker read, and never below the marker read when that was exact |
| `Passes.MarkerMovesBack` | oozie_dump.go:186 | as written: a `_marker` holding `2000-01-01T00:00:00.5Z`, with nothing accepted, reads back half a second earlier after the pass |
| `Passes.MarkerNeverMovesBackNano` | oozie_dump.go:185-187 | with the marker written as `time.RFC3339Nano`, the marker read back is never earlier than the marker read |
| `Passes.NoOpPass` | oozie_dump.go:135-187 | a pass that accepts nothing writes a header-only file and writes back the marker it read |
| `Passes.TwoWorkflowScenario` | oozie_dump.go:162-187 | with one matching workflow after the marker and one before it, exactly that one row is written and the new marker is its `lastModTime` |
| `Passes.NullNeverAccepted` | oozie_dump.go:163 | a workflow whose `lastModTime` was `null` is never accepted against a marker at or after the zero instant |
| `Passes.MarkerAt` | oozie_dump.go:230-238 | the marker each later pass of a chain reads is exact in the marker layout |
| `Passes.MarkerAtStep` | oozie_dump.go:230-238 | pass i+1 reads what the layout keeps of pass i's running maximum |
| `Passes.MarkersAscend` | oozie_dump.go:230-238 | across a chain of passes the marker read never moves back, from the first pass when the starting marker is exact and from the second pass in any case |
| `Passes.KeptPastAccepted` | oozie_dump.go:163-186 | the marker read back after a pass is at or after every accepted `lastModTime` that the layout writes exactly |
| `Passes.NeverReemitted` | oozie_dump.go:163 | a workflow emitted by one pass, whose `lastModTime` the layout writes exactly, is not emitted by any later pass unless its `lastModTime` changes |
| `Passes.ReemittedAsWritten` | oozie_dump.go:186 | as written: a matching workflow changed at 2000-01-01T00:00:00.5 UTC is emitted by the first pass of a chain from the default marker and again by the second |
| `Passes.NeverReemittedNano` | oozie_dump.go:163 | with the marker written as `time.RFC3339Nano`, no workflow emitted by a pass is emitted by a later one |
| `Passes.LateArrivalSkipped` | oozie_dump.go:163 | a workflow whose `lastModTime` is at or before a marker a pass has read is never emitted by that pass or a later one |
| `Passes.NullNeverAcceptedInChain` | oozie_dump.go:109-120 | starting without a marker file, no pass ever accepts a workflow whose `lastModTime` was `null` |
| `Passes.Run` | oozie_dump.go:230-241 | a chain that goes through leaves one CSV file per pass |
| `Passes.PassStep` | oozie_dump.go:230-238 | one pass from a marker that reads as m writes `CsvFile` filtered against m, and the next pass reads what the layout keeps of its running maximum |
| `Passes.RunFirst` | oozie_dump.go:230-241 | a chain's files are the first pass's file followed by the rest of the chain's, which starts from the first pass's marker |
| `Passes.RunFollowsMarkers` | oozie_dump.go:230-238 | with the layout's parser and formatter, a chain never fails on the marker, and its last marker reads back as the marker after the last pass |
| `Passes.RunArtifactAt` | oozie_dump.go:230-238 | file i of a chain is the CSV file of snapshot i filtered against the marker pass i read |

## Findings

| source | as written | input that shows it | evidently intended | confidence | as-written member | corrected member |
|---|---|---|---|---|---|---|
| oozie_dump.go:21 | the marker is written with `time.RFC3339`, which drops the fraction of a second of the running maximum, while `lastModTime` is compared with its fraction (line 163) | a matching workflow whose `lastModTime` is `Sat, 1 Jan 2000 00:00:00.5 GMT`, with no `_marker`: pass 1 emits it and writes `2000-01-01T00:00:00Z`; pass 2 and every later pass emit it again | a workflow is exported once; the marker written keeps the whole instant (`time.RFC3339Nano`) | medium, not executed | `Passes.ReemittedAsWritten` | `Passes.NeverReemittedNano` |
| oozie_dump.go:125 | a `_marker` holding a fraction of a second is read with it, and written back without it | `_marker` holding `2000-01-01T00:00:00.5Z`, nothing accepted: the marker is written back half a second earlier | the marker never moves back | medium, not executed | `Passes.MarkerMovesBack` | `Passes.MarkerNeverMovesBackNano` |

## Left out

- `loadFromUrl` (oozie_dump.go:54-83): the HTTP GET, the `OOZIE_URL` variable and the status check are network I/O. The workflows are given as a `seq<Workflow>`.
- `loadFromFile` (oozie_dump.go:85-103) and JSON decoding are file I/O and `encoding/json`. Only the `CustomTime` hook is modelled. `Jobs.total`, `len` and `offset` are carried but unused, as in the code.
- `main` (oozie_dump.go:196-243): argument dispatch, the output directory's stat and mkdir, panics and exit codes are not modelled. `readMarker` then `writeUpdate` is kept, as `Passes.RunPass` on the directory and as `Passes.Pass` on values.
- Passes.Pass: assumes `os.Create` and the marker write succeed. `Passes.Run` is a chain of such passes. The failures are modelled per pass in `Passes.RunPass` and `Sync.WriteUpdate`. After one, `main` panics and the chain ends.
- Passes.Run: every pass adds a new CSV file. The program names the file by the UTC second it starts in (oozie_dump.go:20, 137), and `os.Create` truncates an existing file. Two passes started in the same second therefore write the same file, and the second one loses the first one's rows. The marker has already passed those rows, so they are never written again. The model does not capture this loss.
- MarkersAscend: needs the starting marker to be exact in the layout, or holds only from the second pass on. A hand-written `_marker` with a fraction moves back on the first pass (see `Passes.MarkerMovesBack`).
- LateArrivalSkipped: carries the same premise as `MarkersAscend`.
- NeverReemitted: under `time.RFC3339` it needs a whole-second `lastModTime`. A fractional one is emitted again (see `Passes.ReemittedAsWritten`).
- RFC 822 parsing and RFC 3339 formatting and parsing are Go library code and are parameters. Only the truncation of the marker to whole seconds is modelled (`Markers.Keeps`). RFC 3339 text with a time-zone offset, and instants outside the years RFC 3339 can write, are not modelled.
- CSV quoting (section 2 of RFC 4180) is done by `encoding/csv`. A row is modelled as its list of fields.
- The CSV file name is built from `time.Now()`, the wall clock. Files are kept as a list in creation order.
- The regular-expression compile error (oozie_dump.go:129-133) cannot happen with the fixed pattern. The model has no compile step.
- Errors from `writer.Write` and from the deferred `Flush` and `Close` are ignored by the code. The model has no such failures.
- `bufio` may flush to the file before `Flush` once 4096 bytes are buffered. The model writes the whole file at the deferred `Flush`.
- There are no crash points between the disk effects. Only their order is recorded.
- Logging (oozie_dump.go:181, 236) is not modelled.
- Matching is over `char`s. Go's regexp reads UTF-8 runes. The pattern is pure ASCII, so both agree on which names match.
