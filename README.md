# Outage snapshot collector: a verified model of its decision logic

`outage_snapshot.py` gathers evidence after a web application outage. It creates a report
directory named after the application and the outage start. It then slices three logs (the
nginx access and error logs, the PHP-FPM slow log) down to the lines stamped inside the
outage window. It copies every file of the application tree that was modified in the window
and lists them in a manifest. It runs `sar` for three metrics and copies the nginx and
PHP-FPM configuration of the application. Both configuration files are named `<app>.conf`,
so both copies land on the same path and the PHP-FPM copy replaces the nginx one. Finally it writes a JSON summary of where
everything went.

This project is a Dafny model of the collector's decision logic, with proofs of what that
logic guarantees. The model covers:

- the time-window log filter (`parse_log_slice`), the table of log sources, and the loop in
  `main` that turns slices into recorded statuses;
- the report directory naming rule (`create_output_directory`);
- the list and manifest logic of `collect_modified_files`, and the file selection that its
  `find -newermt start -not -newermt end` expression encodes;
- the result mapping of `collect_config_files`;
- the "error versus saved path" result shape of `collect_sar_data`.

The host is an oracle: a `Host` value holds the regular files and their text, the
directories, and functions for running a command, copying a file and creating a directory.
Operations the script performs step by step are methods: the line loop, the copy loop, the
log-source loop and the `sar` loop with `while` loops, and the two config lookups as two
steps in sequence. Each method is proved to
compute a specification function, and the properties are lemmas about those functions.

Modules and files:

| file | module | models |
|---|---|---|
| text.dfy | Text | `strip`, `split`, `join`, `in`, and the lines that iterating a text file yields |
| clock.dfy | Clock | naive `datetime` values, their validity and their (lexicographic = chronological) order |
| timeformat.dfy | TimeFormat | the fixed-width `strftime`/`strptime` directives the script uses (`%Y %m %b %d %H %M %S %z`) |
| paths.dfy | Paths | `PurePosixPath`: parsing, `str`, `/`, `name`, `parent`, `relative_to` |
| host.dfy | Host | the oracle host and the files the collector writes |
| logslice.dfy | LogSlice | log sources, the slicer, the log loop of `main`, and the `%z` finding |
| snapshot.dfy | Snapshot | the report directory name and its creation |
| modifiedfiles.dfy | ModifiedFiles | `find` selection, the copy loop, the manifest, the result |
| configs.dfy | Configs | `collect_config_files` |
| sar.dfy | Sar | the result shape of `collect_sar_data` |

## Model

| member | source | states |
|---|---|---|
| LogSlice.LogTableStatuses | outage_snapshot.py:233-260 | over the script's own table, the recorded log statuses have exactly the keys `nginx_access`, `nginx_error` and `php_fpm_slow`; each is the status of that source's slice; as written the access log is always recorded as `"No relevant entries or file missing."`, while the error and slow logs get the intended slice |
| LogSlice.Bracketed | outage_snapshot.py:236 | the lazy `\[(.*?)\]` search: when it captures `r`, the line contains `[r]` |
| LogSlice.ParseLogSlice | outage_snapshot.py:77-101 | as intended, see ## Findings: the line loop computes the slice: `None` for a missing file, otherwise the qualifying lines concatenated, or `None` when there are none |
| LogSlice.KeptMembers | outage_snapshot.py:89-95 | a line is kept if and only if it is a line of the file, the pattern matched it, the capture parsed, and `start <= t <= end` |
| LogSlice.KeptConcat | outage_snapshot.py:89-95 | filtering works line by line: the kept lines of `a + b` are those of `a` followed by those of `b`, so file order is kept |
| LogSlice.SkippedLine | outage_snapshot.py:90-97 | a line that does not match, does not parse, or falls outside the window is dropped, and the lines after it are still scanned |
| LogSlice.WindowInclusive | outage_snapshot.py:94 | a line stamped exactly at the start or the end of the window is kept |
| LogSlice.SliceNeverEmpty | outage_snapshot.py:101 | the slicer never returns the empty string |
| LogSlice.SliceContents | outage_snapshot.py:82-101 | the slice is `None` if and only if the file is missing or no line qualifies; otherwise it is the kept lines joined with no separator |
| LogSlice.SliceOfQualifyingFile | outage_snapshot.py:95-101 | when every line of a file qualifies, the slice is the file's text byte for byte |
| LogSlice.ErrorLogTimestamp | outage_snapshot.py:239-242 | an error-log line carries timestamp `t` if and only if it begins with `t` printed as `%Y/%m/%d %H:%M:%S` |
| LogSlice.SlowLogTimestamp | outage_snapshot.py:244-247 | a slow-log line that begins with `[`, `t` as `%d-%b-%Y %H:%M:%S`, and `]` carries timestamp `t` |
| LogSlice.SourceKinds | outage_snapshot.py:237-247 | the access-log parser yields only aware stamps (it has `%z`); the error and slow parsers yield only naive ones |
| LogSlice.CollectLogs | outage_snapshot.py:251-260 | as intended, see ## Findings: the loop over the table records one status per source and writes the non-empty slices, as `LogResults` and `SliceWrites` say |
| LogSlice.LogStatusMeaning | outage_snapshot.py:254-260 | a source is recorded as `"No relevant entries or file missing."` if and only if its slice is `None`; otherwise its status is the path of `<name>.slice.log` in the report directory |
| LogSlice.LogResultsEntries | outage_snapshot.py:252-260 | with distinct source names, each source's status is stored under its own name |
| LogSlice.LogResultsKeys | outage_snapshot.py:252-260 | no status is stored under a name that is not in the table |
| LogSlice.SliceWritesSound | outage_snapshot.py:254-257 | every file the log loop writes is `<name>.slice.log` in the report directory for some source, holding that source's slice |
| LogSlice.SliceWritesComplete | outage_snapshot.py:254-257 | every source whose slice is present has it written to `<name>.slice.log` in the report directory |
| LogSlice.ScanAsWritten | outage_snapshot.py:87-99 | the line loop as written: when it does not abort, it keeps exactly the lines the intended filter keeps |
| LogSlice.ScanAbortsIffAware | outage_snapshot.py:92-99 | the line loop as written aborts if and only if some line's timestamp is aware |
| LogSlice.SliceAsWritten | outage_snapshot.py:77-101 | `parse_log_slice` as written either returns `None` or exactly the intended slice; with `AsWrittenAgreesWhenNaive` and `AccessLogNeverSliced` it is the intended slice for the error and slow logs and `None` for the access log |
| LogSlice.AsWrittenAgreesWhenNaive | outage_snapshot.py:92-97 | for a source whose parser yields only naive stamps, the code as written returns the intended slice for every file |
| LogSlice.AccessLogNeverSliced | outage_snapshot.py:92-100 | as written, the access-log slice is `None` for every file, because the aware stamp cannot be compared with the naive bounds |
| LogSlice.NaiveSourcesAsIntended | outage_snapshot.py:92-97 | as written, the error and slow logs are sliced exactly as intended |
| LogSlice.AccessLogLineLost | outage_snapshot.py:93-101 | any access-log entry with no `[` before its stamp, at any `+HHMM`/`-HHMM` offset, whose wall-clock time is inside the window, is kept by the intended slicer and lost by the code as written |
| LogSlice.AccessLogExample | outage_snapshot.py:236-237 | a concrete access-log line and window showing that discrepancy |
| Snapshot.CreateOutputDirectory | outage_snapshot.py:64-74 | returns the report directory exactly when creating it succeeds; otherwise the script stops |
| Snapshot.DirectoryNameShape | outage_snapshot.py:66-67 | the name is the application name, `_`, and 15 characters that parse back under `%Y%m%d_%H%M%S` as the start time |
| Snapshot.DirectoryNameInjective | outage_snapshot.py:66-67 | the name depends only on the application name and start time, and determines both |
| Snapshot.ReportDirPlacement | outage_snapshot.py:67 | for an application name without `/`, the report directory sits directly under the base directory and carries that name |
| ModifiedFiles.NewerMtMeaning | outage_snapshot.py:124 | `-newermt t` holds exactly when the modification time, in nanoseconds, is strictly later than `t` |
| ModifiedFiles.SelectedHalfOpen | outage_snapshot.py:121-126 | a file is selected if and only if it is a regular file and `start < mtime <= end` |
| ModifiedFiles.SelectionBoundaries | outage_snapshot.py:124-125 | a file modified exactly at the start is not selected; one modified exactly at the end is |
| ModifiedFiles.FindCommandWindow | outage_snapshot.py:117-126 | the command has nine words, and its two time arguments parse back as the window bounds |
| ModifiedFiles.FirstEntryBlank | outage_snapshot.py:135-136 | the first entry of `strip().split('\n')` is blank exactly when the output is only whitespace |
| ModifiedFiles.EntryEffect | outage_snapshot.py:150-167 | a blank entry is skipped; a non-blank entry ends the script exactly when it is not under the application path or its destination directory cannot be created; otherwise it is copied or failed exactly as the copy succeeds, with the rebased destination |
| ModifiedFiles.ManifestLine | outage_snapshot.py:150-167 | the manifest line for an entry is empty for a blank entry, the entry itself after a copy, and a `# FAILED TO COPY: <entry>` line after a failure |
| ModifiedFiles.CopyEntries | outage_snapshot.py:147-167 | the copy loop computes `Run` from the header and an empty list |
| ModifiedFiles.CollectModifiedFiles | outage_snapshot.py:104-171 | the whole function computes `Collect`: missing application path, failing `find`, empty output, a crash, or the copied list and manifest |
| ModifiedFiles.StepMeaning | outage_snapshot.py:149-167 | one pass either ends the script (the entry breaks) or appends the entry's manifest line and, after a copy, its destination |
| ModifiedFiles.RunCrashes | outage_snapshot.py:156-158 | the loop ends the script if and only if some entry is not under the application path or its destination directory cannot be created |
| ModifiedFiles.RunCopied | outage_snapshot.py:163 | a finished loop's `copied_files` are the destinations of the successful copies, in order |
| ModifiedFiles.RunManifest | outage_snapshot.py:162-167 | a finished loop's manifest is the header followed by each entry's manifest line, in order |
| ModifiedFiles.CopiedCount | outage_snapshot.py:163 | `len(copied_files)` equals the number of successful copies |
| ModifiedFiles.CopiedDestsCount | outage_snapshot.py:163 | the destinations listed are exactly as many as the successful copies |
| ModifiedFiles.RunSplit | outage_snapshot.py:149-167 | running over `a + b` is running over `a`, then over `b` from where `a` left off |
| ModifiedFiles.BlankSkipped | outage_snapshot.py:150 | a blank entry anywhere in the list changes nothing |
| ModifiedFiles.RebaseKeepsRelative | outage_snapshot.py:156-157 | a destination is the destination directory joined with the entry's path relative to the application root, and that relative path can be recovered from it |
| ModifiedFiles.EmptyFindOutput | outage_snapshot.py:135-138 | empty `find` output gives `copied_files == []`, `manifest_path == ""`, and no manifest written |
| ModifiedFiles.CollectResult | outage_snapshot.py:109-169 | without an error, `copied_files` are the destinations of the successful copies, and `manifest_path` is empty if and only if the output was blank |
| Paths.RelativeToOfConcat | outage_snapshot.py:156-157 | `(base / rel).relative_to(base) == rel` for a relative `rel` |
| Paths.RelativeToNone | outage_snapshot.py:156 | `relative_to` fails only when the path is not `base / rel` for any relative `rel` |
| Paths.FromStringOfToString | outage_snapshot.py:153 | printing a well-formed path and parsing it again gives the same path |
| Configs.CollectConfigFiles | outage_snapshot.py:197-214 | the function computes `Configs`: both results, or `None` when a copy raised; and the copies it makes are `ConfigWrites`, in order |
| Configs.ConfigResultMeaning | outage_snapshot.py:200-213 | a kind is `"Not found"` if and only if its candidate is not a file; otherwise the script goes on exactly when the copy succeeds, and records the copy's path |
| Configs.CandidateNames | outage_snapshot.py:200-210 | candidates and the paths they are copied to end in `.conf` |
| Configs.CandidateNameIsApp | outage_snapshot.py:200-210 | for an application name that forms one path part, both candidates and the nginx copy are named `<app>.conf`, and the two copies have the same path |
| Configs.SharedCopyPath | outage_snapshot.py:200-210 | for every application name and PHP version, both candidates have the same file name, so both copies go to the same path in the report directory |
| Configs.ConfigCopyOverwritten | outage_snapshot.py:200-213 | when both configurations exist and are copied, `nginx_config` and `php_fpm_config` name the same file, and that file ends up holding the PHP-FPM configuration |
| Configs.PoolDirParts | outage_snapshot.py:207 | joining the string `"fpm/pool.d"` adds the two parts `fpm` and `pool.d` |
| Configs.ConfigKeys | outage_snapshot.py:199-213 | when the function returns, both `nginx_config` and `php_fpm_config` are present and no other key |
| Sar.CollectSarData | outage_snapshot.py:176-194 | the loop over the metrics records one result per metric and writes each successful run's output, as `SarResults` and `SarWrites` say |
| Sar.SarStatusMeaning | outage_snapshot.py:186-192 | for any report directory whose own path does not start with `Error: ` (absolute or relative), a metric's result starts with `Error: ` if and only if the run failed or reported `Cannot open`; otherwise it is the path of `sar_<key>.txt` |
| Sar.SarMetricsResults | outage_snapshot.py:179-193 | over the script's three metrics, the results have exactly the keys `cpu_usage`, `memory_usage` and `load_average`, each the status of its own `sar -u`, `sar -r` or `sar -q` run over the window |
| TimeFormat.FormatThenParse | outage_snapshot.py:117-118 | parsing what `strftime` printed with a complete format without `%z` gives the date-time back |
| TimeFormat.ParseThenFormat | outage_snapshot.py:223-224 | printing what `strptime` read with a fixed-width format without `%b` and `%z` gives the text back |
| Text.LinesJoin | outage_snapshot.py:88-89 | the lines that iterating a file yields, joined, are the file's text |
| Text.JoinSplit | outage_snapshot.py:135 | joining the pieces of `split(sep)` with `sep` gives the string back |

## Left out

- Argument parsing, console output and `exit`: an exit is modelled as an absent result (`None`, `Crashed`), and nothing is printed.
- `run_command` and the external tools (`find`, `sar`): the host's `run` function is an oracle. `ModifiedFiles.Selected` states what `find` selects, but the model does not tie it to `run`'s output.
- Writing `summary.json` and the JSON key order: the model keeps the maps of results, not their serialisation. The report directory entry and the final assembly of `collection_results` in `main` (lines 229-230 and 262-269) are not modelled as one pipeline.
- Reading files: the `Host` holds each file's text already decoded. `errors='ignore'` decoding and universal-newline translation (both `\r\n` and a lone `\r` end a line and become `\n`) are left out.
- Real file system effects: `mkdir`, `copy2`/`copy` and `write_text` are oracles or `Write` records. Metadata kept by `copy2` is not modelled.
- LogSlice.Slice: the corrected slicer compares the wall-clock part of an aware stamp with the naive bounds and ignores the UTC offset. This is the evidently intended behaviour for logs written in server local time; converting between offsets is left out.
- LogSlice.SlowLogTimestamp: proves only one direction. `strptime` reads `%b` without regard to case, so other spellings of the month also parse.
- TimeFormat.Parse: fixed-width `strptime` only. The real function also accepts single-digit fields, and `%z` forms such as `Z` or `+00:00`; these are left out. A space in a `strptime` format matches any run of one or more whitespace characters; the model requires exactly one space.
- LogSlice.ErrorLog: `\d` is modelled as an ASCII digit. Python's regex also matches other Unicode decimal digits.
- Clock: years run from 1 to 9999, and `%Y` is modelled as four zero-padded digits. glibc prints years below 1000 with fewer digits, so the round-trip claims about `%Y` (`TimeFormat.FormatThenParse`, `Snapshot.DirectoryNameShape`) hold for the real program only for years 1000 to 9999.
- Paths: the special `//` prefix of POSIX paths is not modelled.
- ModifiedFiles.Collect: a crash inside the copy loop discards the partially written manifest. The real file keeps what was written before the exception.
- ModifiedFiles: `dest_dir.mkdir()` without `exist_ok` is `makeDir(_, false)`. A second run into the same report directory therefore ends the script, as the code does.
- Configs: `collect_config_files` looks up one candidate path per kind, built from the application name and PHP version; the model follows that.
- Configs.CollectConfigFiles: the model keeps the code as written, where the PHP-FPM copy overwrites the nginx copy (`Configs.ConfigCopyOverwritten`). It does not model a corrected layout with two distinct copies, because the code gives no hint of the intended file names. The nginx configuration is therefore lost from the report whenever both files exist.
- Sar: what `sar` prints is not modelled; its output is whatever the host's `run` returns.

## Findings

| source | as written | input that shows it | evidently intended | confidence | as-written member | corrected member |
|---|---|---|---|---|---|---|
| outage_snapshot.py:93-99 (with the `%z` of line 237) | the access-log format parses to an aware `datetime`; `start_dt <= log_dt` with naive bounds raises `TypeError`, which `except ValueError` does not catch, so the outer handler returns `None` for the whole file | the file `203.0.113.9 - - [14/Oct/2026:10:05:00 +0000] "GET / HTTP/1.1" 502 0` and a newline, window 2026-10-14 10:00:00 to 11:00:00 | in-window access-log lines are kept like those of the other logs, comparing the stamp's wall-clock time with the bounds | not executed | LogSlice.AccessLogLineLost | LogSlice.ParseLogSlice |

`LogSlice.SliceAsWritten` models the loop as written, with an aware stamp aborting the whole
file. `LogSlice.AccessLogLineLost` proves, for every in-window access-log entry with no `[` before its stamp and any UTC offset, that it
returns `None` while the corrected `LogSlice.Slice` keeps the entry. `LogSlice.AccessLogNeverSliced`
shows the as-written result is `None` for any file. `LogSlice.ParseLogSlice` and
`LogSlice.CollectLogs` use the corrected filter.
