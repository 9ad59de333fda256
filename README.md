# hh — a verified model

`hh` records bash history into a shell script, `hh.sh` by default, in the
current directory. You pipe `history` into it. It then works through the
history lines, most recent first:

- It parses each line with the layout that `HISTTIMEFORMAT` sets out.
- It drops commands that the ignore lists (`HISTIGNORE`, `HHIGNORE`) name.
- It drops commands already present in the log's last segment.
- It appends the survivors under one `#> user` header.
- It echoes their text on standard error.

`hh -r` removes the log's last segment: it cuts the log back at its last
`#>` header. That undoes the last recording run only when that run wrote
something, because a run that writes nothing writes no header. A log that the
run created goes back to its preamble; the file itself stays.

This project models all of `src/main.rs` except its process glue:

- the timestamp-format check;
- the ignore set and the ignore rule;
- the two backward scans for the `#>` sentinel;
- the lenient duplicate match;
- the record loop;
- the reset branch;
- the dispatch of `main` between them.

The log, standard input, the environment and the parsed command line are
values. Tokens and the log are byte sequences (`Bytes.byte`). A Rust panic
is an explicit `Outcomes.Outcome.Panic(cause)`. A panic is never a
precondition that the caller must avoid.

The modules follow the structure of the program:

| file | module | what |
|---|---|---|
| outcomes.dfy | `Outcomes` | `Option`, `Outcome`, the panic causes |
| bytes.dfy | `Bytes` | bytes, `split(c)`, `split_ascii_whitespace`, the two whitespace tests |
| hist_format.dfy | `HistFormat` | `parse_hist_format` |
| ignore.dfy | `IgnoreFilter` | `parse_hist_ignore`, `ignore` |
| segments.dfy | `Segments` | `get_last_cmdindex`, `read_last_cmd`, reset |
| dedup.dfy | `Dedup` | `is_dup_cmd` and the duplicate test against every line of the last segment |
| record.dfy | `Recorder` | the record loop: a declarative specification and the loop proved against it |
| record_props.dfy | `RecordFacts`, `RecordRuns` | what the record loop promises |
| next_run.dfy | `NextRun` | what the next run's `read_last_cmd` and `is_dup_cmd` see of a segment this run wrote |
| run.dfy | `Hh` | `main` after argument parsing |
| run_props.dfy | `HhFacts` | what one invocation promises about the log |

The record loop works in three layers:

1. `Recorder.RecordSpec` states its result over the whole input at once:
   - `Candidates` are the parsed lines that pass the filter, most recent first;
   - `Take` keeps as many of them as `Limit` allows;
   - `Decide` runs the duplicate check over those, in order, and stops at the
     first panic.
2. `Recorder.RecordLines` imitates the source loop, including its
   counter and the `out_sep` flag; `Recorder.VisitLine` is one pass of its
   body. `Recorder.RecordCommands` runs it over the lines of the input and
   is proved equal to `RecordSpec`.
3. The properties are lemmas about `RecordSpec`.

## Model

| member | source | states |
|---|---|---|
| Bytes.SplitOn | src/main.rs:20 | `split(c)` yields at least one piece, and no piece contains `c` |
| Bytes.JoinSplitOn | src/main.rs:20 | joining the pieces of `split(c)` with `c` gives back the input |
| Bytes.SplitOnJoin | src/main.rs:20 | splitting a `c`-join of at least one `c`-free piece gives back the pieces |
| Bytes.SplitAsciiWhitespace | src/main.rs:36 | every token is non-empty and contains no ASCII whitespace (0x20, 0x09, 0x0A, 0x0C, 0x0D) |
| Bytes.SplitAsciiWhitespaceKeepsContent | src/main.rs:36 | the tokens concatenated are the input with its ASCII whitespace removed |
| Bytes.SplitJoinTokens | src/main.rs:215 | splitting tokens joined by single spaces gives back the tokens |
| Bytes.NoPairConcat | src/main.rs:70 | two pieces without `a b` join into one without it unless the pair straddles the seam |
| HistFormat.ParseHistFormat | src/main.rs:33-44 | Ok exactly when token 0 is `%F` or contains `%d`, token 1 is `%T` and the value ends in whitespace, and then Ok holds the token count (at least 2); a missing variable is the `expect` panic; no tokens, or one date token, is the index panic; a wrong first token, or a wrong second token or missing trailing whitespace, is the explicit `panic!` (`BadTimeFormat`), in the order the source tests them |
| HistFormat.DefaultFormat | src/main.rs:36-41 | `"%F %T "` is accepted with 2 fields |
| HistFormat.FormatNeedsTrailingWhitespace | src/main.rs:39 | `"%F %T"` without the trailing space panics |
| IgnoreFilter.ParseHistIgnore | src/main.rs:17-31 | the loops build exactly the union of the `:`-pieces of both variables |
| IgnoreFilter.EmptyVariableAddsEmptyName | src/main.rs:20-21 | a set but empty variable adds the empty name |
| IgnoreFilter.AnyRedirectAt | src/main.rs:60 | the `any` test holds exactly when some token contains `>` or a pipe |
| IgnoreFilter.CommentsAndSelfIgnored | src/main.rs:58-59 | a command whose first token starts with `#` or is `hh` is ignored, whatever its other tokens |
| IgnoreFilter.Ignore | src/main.rs:57-65 | a command is dropped exactly when its first token starts with `#` or is `hh`, or else when its first token is not `nohup`, no token holds `>` or a pipe, and its first token is in the set |
| IgnoreFilter.RedirectsAndNohupKept | src/main.rs:60-61 | failing that, `nohup` first or a token with `>` or a pipe means the command is kept |
| IgnoreFilter.OtherwiseListDecides | src/main.rs:62-63 | failing both, the command is ignored exactly when its first token is in the set |
| IgnoreFilter.IgnoredByEnvironment | src/main.rs:57-65 | in that last tier, the command is ignored exactly when its first token is a `:`-piece of `HISTIGNORE` or of `HHIGNORE` |
| Segments.LastSentinelUnique | src/main.rs:67-76 | at most one offset is the last `#>` at or after offset 1, or 0 when there is none |
| Segments.LastSentinelBelow | src/main.rs:69-74 | the backward scan from `index` finds a `#>` below it past which there is none, or 0 |
| Segments.LastSentinel | src/main.rs:67-76 | the scan's answer is that last sentinel, and a found one fits in the buffer |
| Segments.GetLastCmdIndex | src/main.rs:67-76 | the loop panics exactly on an empty buffer (`len() - 1` underflows) and otherwise returns the last sentinel |
| Segments.StartsDownSpec | src/main.rs:82-89 | the scan's list of line starts between two bounds (`StartsDown`) is strictly decreasing, holds only offsets that follow a line feed, and holds all of them |
| Segments.StartsDownLow | src/main.rs:85-88 | one scan step: taking one more offset at the low end appends it exactly when it follows a line feed |
| Segments.StartsDownSkip | src/main.rs:85-88 | offsets whose previous byte is no line feed add nothing to the scan |
| Segments.StartsDownFrame | src/main.rs:82-89 | the scan below an offset reads nothing past it, so bytes appended later do not change it |
| Segments.LineStarts | src/main.rs:78-91 | strictly decreasing offsets, each at least 2 above the last sentinel and below the length, each following a line feed, and all of them |
| Segments.ReadLastCmd | src/main.rs:78-91 | the loop panics exactly on an empty buffer and otherwise collects exactly `LineStarts` |
| Segments.Reset | src/main.rs:177-181 | `-r` panics exactly on an empty log; otherwise it keeps a prefix; it changes nothing exactly when no `#>` starts at offset 1 or later; otherwise it cuts at a `#>` with none after it |
| Segments.ResetCutsBeforeHeader | src/main.rs:177-181 | worked case: the header line and everything after it goes |
| Segments.ResetNotIdempotent | src/main.rs:177-181 | each `-r` removes one more segment, so reset is not idempotent |
| Dedup.SkipWhitespace | src/main.rs:106-108 | the cursor stops on the first byte that `char::is_whitespace` rejects, or runs past the end (where the source indexes out of bounds) exactly when only whitespace is left |
| Dedup.WalkTokens | src/main.rs:95-109 | a cursor that stays inside the suffix only moves forward |
| Dedup.MatchToken | src/main.rs:99-105 | the byte loop succeeds exactly when the token occurs at the cursor |
| Dedup.SkipSpaces | src/main.rs:106-108 | the whitespace loop does what `SkipWhitespace` states |
| Dedup.IsDupCmd | src/main.rs:93-111 | the nested loops return exactly `IsDup`: a mismatch or a suffix that ends inside a token gives false; running off the end in the whitespace loop panics; otherwise the match holds exactly when the cursor is at the end or on `#` |
| Dedup.WalkMatched | src/main.rs:99-108 | a matched visible token and its whitespace move the walk on to the next token |
| Dedup.DupAny | src/main.rs:222-225 | the `any` over the offsets is false exactly when every suffix's check is false; true means some suffix matched |
| Dedup.DupAnyFirst | src/main.rs:222-225 | the `any` goes in offset order: any answer but a clean "no" (a match or a panic) is the answer of the first offset whose check is not a clean "no" |
| Dedup.IsDuplicate | src/main.rs:222-226 | the loop over the offsets computes `DupAny`, stopping at the first panic |
| Dedup.Visible | src/main.rs:96-98 | the visible tokens contain neither `&` nor `nohup` |
| Dedup.VisibleIn | src/main.rs:96-98 | every visible token is a token of the command |
| Dedup.WalkIgnoresTransparent | src/main.rs:95-98 | the walk over a command equals the walk over its visible tokens |
| Dedup.IsDupIgnoresTransparent | src/main.rs:93-111 | adding or removing `&` and `nohup` never changes the verdict |
| Dedup.WalkAllTransparent | src/main.rs:95-98 | a command made only of `&` and `nohup` leaves the cursor where it was |
| Dedup.CommandTextEmpty | src/main.rs:231-237 | the written text is empty exactly when nothing is visible; when the first visible token is findable (non-empty, not starting with an `is_whitespace` byte), the text starts with a byte `is_whitespace` rejects |
| Dedup.WalkOverText | src/main.rs:93-111 | the walk over a command's own written text, followed by ` #`, ends on the `#`; for a command with no visible token it stays on the space before it |
| Dedup.WalkOverToken | src/main.rs:99-108 | the same, for a command whose first token is visible |
| Dedup.VerticalTabTokenNotFound | src/main.rs:106 | worked case: a token beginning with 0x0B (split keeps it, `is_whitespace` skips it) is never found |
| Dedup.TrailingWhitespaceOverruns | src/main.rs:106 | worked case: a line ending right after the matched tokens panics |
| Dedup.NohupAloneNeverDuplicate | src/main.rs:96-110 | worked case: a lone `nohup` is checked against the line's first byte, so the line written for it (which starts with a space) does not match it; a line starting with `#` would |
| Recorder.Header | src/main.rs:228 | the header starts with the `#>` sentinel |
| Recorder.HistoryLines | src/main.rs:210 | no line holds a line feed |
| Recorder.HistoryLinesJoin | src/main.rs:210 | nothing of the input is lost but its order: the lines put back in input order, with the piece after the last line feed, joined by line feeds give back the input |
| Recorder.ParseLine | src/main.rs:215-220 | a parsed entry has a non-empty command |
| Recorder.Candidates | src/main.rs:212-221 | at most one entry per line; each entry passes the filter and is what some line parses to |
| Recorder.Limit | src/main.rs:212-244 | no candidate is looked at exactly when `-i` is 2 or more; otherwise at most the count, with 0 acting as 1 |
| Recorder.Take | src/main.rs:241-244 | a prefix of the candidates, of length min(count, limit) |
| Recorder.WriteTokens | src/main.rs:231-237 | the inner loop writes `CommandText`: each visible token followed by a space |
| Recorder.CommandTextSnoc | src/main.rs:231-237 | one more token adds its text and a space, or nothing when it is `&` or `nohup` |
| Recorder.RecordCommands | src/main.rs:207-210 | the record step over the input computes exactly `RecordSpec`: the header and lines of the written entries, and the echo, or on a panic what was written so far |
| Recorder.RecordLines | src/main.rs:207-249 | the loop with its counter, `-i` skip and `out_sep` flag over the history lines computes exactly `RecordOn`: the duplicate check (`Decide`) over the first `Limit` candidates, their header and lines after the prefix, and their echo |
| Recorder.VisitLine | src/main.rs:212-245 | one pass of the loop body either ends the run with the result the whole run has (a panic, or the count reached) or keeps the loop invariant for the next line |
| Recorder.CountStop | src/main.rs:241-244 | once the count is reached, the rest of the input changes nothing: the run is done with what it holds |
| Recorder.PickEntry | src/main.rs:215-221 | a line yields an entry exactly when it has more than `cmd_index` tokens and the entry passes the filter |
| Recorder.SkipStep | src/main.rs:212-218 | a skipped line keeps the loop invariant |
| Recorder.ConsiderStep | src/main.rs:221-244 | a considered line keeps the loop invariant, or is the panic that ends the run |
| Recorder.WriteIfNew | src/main.rs:222-240 | one duplicate check and write keep the output in step with `Decide` |
| Recorder.AppendEntry | src/main.rs:227-239 | the header is written only before the first line; the line is the text, ` # date time` and a line feed |
| Recorder.EmitStep | src/main.rs:227-239 | appending one line keeps the output equal to prefix, header and lines |
| Recorder.ConsideredStep | src/main.rs:241-244 | a considered candidate below the limit extends the looked-at list by itself |
| Recorder.DoneSpec | src/main.rs:242-249 | a run that ends without a panic yields the prefix, the header and lines, and the echo |
| Recorder.AbortedSpec | src/main.rs:222-226 | a panic on an early line fixes the result, whatever the later lines hold |
| Recorder.DecideKeepsAbort | src/main.rs:222-225 | once the duplicate test panics, later entries change nothing |
| Recorder.TakeFull | src/main.rs:241-244 | past the limit, more candidates change nothing |
| Recorder.CandidatesStep | src/main.rs:215-221 | one more line adds its entry exactly when it parses and passes |
| Recorder.DecideSnoc | src/main.rs:222-240 | one more entry is dropped as a duplicate, written, or aborts the run |
| Recorder.EmitSnoc | src/main.rs:227-239 | one more written entry appends its line (and the header first, if it is the first) and its echo |
| Recorder.CandidatesPrefix | src/main.rs:210-221 | a prefix of the lines gives a prefix of the candidates |
| Recorder.TakeSettles | src/main.rs:241-244 | the loop may stop at the limit or at the end of the input without changing what is looked at |
| RecordFacts.DecideAbortsOnPanic | src/main.rs:222-226 | the duplicate check over the looked-at entries (`Decide`) aborts exactly when the test panics for one of them |
| RecordFacts.DecideWritesFresh | src/main.rs:222-240 | without a panic, an entry is written exactly when it was looked at and matched no line of the last segment, and no more entries are written than were looked at |
| RecordFacts.DecideWritesOnly | src/main.rs:222-240 | with or without a panic, written entries were looked at and had no match |
| RecordRuns.CandidatesIgnoreCounts | src/main.rs:212-221 | which lines are candidates does not depend on the count or on `-i` |
| RecordRuns.RecordWritesFew | src/main.rs:207-249 | at most `Limit` entries are written, each a candidate with no match, under one header after the prefix |
| RecordRuns.IndexPastFirstRecordsNothing | src/main.rs:212-214 | `-i 2` or more writes nothing and echoes nothing |
| RecordRuns.IndexOneIsCountOne | src/main.rs:212-244 | `-i 1` records what count 1 does without `-i` |
| RecordRuns.ZeroCountActsAsOne | src/main.rs:241-244 | count 0 records what count 1 does |
| RecordRuns.EchoEmptyIffNothingWritten | src/main.rs:247-249 | the echo is empty exactly when nothing beyond the prefix was appended |
| RecordRuns.WrittenLineIsDuplicate | src/main.rs:93-111 | `is_dup_cmd` from the start of a line as written (`FormatLine`) says it is a duplicate of its own command, whatever follows the line, when the command has a visible token and every visible token is findable; `NextRun.NextRunFindsWritten` carries this to the next run's scan |
| RecordRuns.CommandTextClean | src/main.rs:231-237 | tokens without `#>` give text without `#>`, ending in a space |
| RecordRuns.FormatLineClean | src/main.rs:238 | a clean entry's line holds no `#>` and ends in a line feed |
| RecordRuns.BodyClean | src/main.rs:227-239 | clean entries' lines hold no `#>` |
| RecordRuns.EmitHeaderOnly | src/main.rs:227-239 | a run's output starts with its header's `#>` and, for a clean user and clean entries, holds no other |
| RecordRuns.ResetUndoesRun | src/main.rs:177-181 | `-r` after appending a run's output to a non-empty log gives back that log exactly when the output holds no `#>` but its header's own |
| RecordRuns.NoLaterSentinel | src/main.rs:67-76 | a `#>`-free tail leaves the header as the last sentinel |
| NextRun.LineStep | src/main.rs:82-89 | one more line after a line feed adds exactly its own start to the backward scan |
| NextRun.LinesStarts | src/main.rs:82-89 | over lines laid after a line feed, the backward scan finds exactly the start of each line, the last line first |
| NextRun.ScanFromSegment | src/main.rs:78-91 | after a segment starting with `#>` and holding no other, `read_last_cmd` scans down to just past that header's `>` |
| NextRun.SegmentSentinel | src/main.rs:67-76 | the `#>` that starts an appended segment is the last sentinel of the log |
| NextRun.SegmentOfLines | src/main.rs:78-91 | for a segment made of a one-line header and whole lines, `read_last_cmd` finds exactly the start of each line after the header |
| NextRun.FormatLineOneLine | src/main.rs:231-238 | a written line holds one line feed, at its end, when the entry's fields hold none |
| NextRun.EmitLines | src/main.rs:227-239 | what a run appends is its header line followed by one line per written entry |
| NextRun.EmitScan | src/main.rs:78-91 | after a run appended its segment, the next run's `read_last_cmd` finds the start of each written line, the last one first |
| NextRun.SegmentLineStarts | src/main.rs:78-91 | round trip through the scanner: after a run wrote `n` entries under a header, the next run's `read_last_cmd` finds exactly `n` offsets, the `k`-th at the start of the line of the `k`-th entry counted from the last |
| NextRun.LineOfEntry | src/main.rs:227-239 | the bytes from such an offset on are that entry's line followed by the lines written after it |
| NextRun.EmitSentinel | src/main.rs:67-76 | the next run's sentinel scan stops at the header this run wrote |
| NextRun.EntryLineIsDup | src/main.rs:93-111 | `is_dup_cmd` from the start of a written line matches that line's own command |
| NextRun.DupAt | src/main.rs:222-225 | the `any` over the offsets is not a clean "no" once one offset's check says yes |
| NextRun.NextRunFindsWritten | src/main.rs:222-238 | on the next run the duplicate test of every written command whose visible tokens are findable is not a clean "no": it is a match or a panic (the match may come from a line written after the command's own, since the scan runs from the last line up) |
| NextRun.NextRunSkipsWritten | src/main.rs:222-240 | so the next run over that log writes none of those commands again, whatever it looks at |
| Hh.GetUser | src/main.rs:46-55 | `$USER` when set, else `whoami`'s output, else `unknown` |
| Hh.Stderr | src/main.rs:247-248 | nothing is printed exactly when the echo is empty; otherwise the echo is printed inside the colour codes |
| Hh.Run | src/main.rs:166-182 | `main` computes `RunSpec`: reset with `-r` and an existing log, nothing on a terminal, record otherwise |
| Hh.ResetLog | src/main.rs:168-181 | the reset branch computes `ResetSpec` (panic on an empty log, truncation when a header is found) |
| Hh.RecordRun | src/main.rs:182-250 | the record branch computes `RecordSpecRun`: an empty log panics first, then a bad format, before the log is opened; otherwise the old log gains what the loop appended and the echo goes to standard error |
| HhFacts.RecordAppendsOneSegment | src/main.rs:192-249 | a recording run without a panic leaves the old log (or the preamble) followed by one header and the written lines, and prints something exactly when it wrote something |
| HhFacts.NothingWrittenKeepsLog | src/main.rs:192-200 | a run that writes nothing leaves the log as it was, or creates it with only the preamble |
| HhFacts.BadFormatLeavesLog | src/main.rs:183-196 | a missing or malformed `HISTTIMEFORMAT` panics with the log untouched (not even created), and an empty log panics first |
| HhFacts.ResetWithoutLogRecords | src/main.rs:168-182 | `-r` without a log records, just as a run without `-r` |
| HhFacts.RecordThenReset | src/main.rs:168-249 | `-r` right after a run that wrote something brings the log back to the old log, or to the preamble for a log the run created, exactly when the added segment has no `#>` after its header's |

## Left out

- Argument parsing with clap, `--version` and the embedded `VERSION` are left out. They are library configuration. The model takes the parsed `INT`, `-i`, `-s` and `-r` values as `Hh.Options`. clap's rule that `-i` needs `-s` is not modelled.
- The `-o FILE` option and the path are left out. The log is given as one `Option<bytes>` value, and `None` stands for a missing file.
- Environment reads and the `whoami` subprocess are parameters of `Hh.Env`. The UTF-8 check on `whoami`'s output is folded into its `Option`.
- File opening, `fs::read`, `read_to_end`, `set_len`, `BufWriter`, reading stdin and the `atty` test are not modelled as I/O.
  - They become values: the old log, the appended bytes, stdin's bytes and whether stdin is a terminal.
  - Errors from these calls (the `expect`s on I/O) are not modelled.
  - Non-UTF-8 input on stdin is not modelled; stdin is bytes.
- Outcome of a panic in the duplicate check: when `is_dup_cmd` indexes past the end, the model gives the log with everything written so far appended (`Recorder.Recorded.Aborted`). This assumes the default unwinding panic, during which the buffered writer flushes. With `panic = "abort"` that output would be lost.
- The panic cause `Outcomes.Cause.Underflow` for an empty log is what a build with overflow checks reports for `buf.len() - 1` (src/main.rs:68 and 81). A release build has those checks off by default. There the subtraction wraps, and the panic comes from the index at src/main.rs:70 or 83 instead. The model does not follow the build setting. Either way an empty log panics before anything is written.
- Panic messages are not modelled. A panicking run also prints the panic's message to standard error (the `expect` text, or `Failed parse HISTTIMEFORMAT: …` from src/main.rs:43). The model records only which panic it was, in `Hh.Effect.panic`; `Hh.Effect.stderr` holds only the echo.
- A user name with a line feed is not covered by the next-run lemmas. `NextRun.SegmentLineStarts`, `NextRun.NextRunFindsWritten` and `NextRun.NextRunSkipsWritten` require `NEWLINE !in user`. When `$USER` is unset, the user name is `whoami`'s output, which is not trimmed and so ends in a line feed (src/main.rs:50-53). The header `#> user` is then followed by an empty line, and the next scan lists that line's start too, so the segment has one offset more than written entries. The recording itself (`Hh.GetUser`, `Recorder.Header`) models this case as the source has it.
- `FILESIZE` caps only buffer capacities, so it has no effect on behaviour and is left out.
- `hashbrown::HashSet` is a Dafny `set`.
- `HistFormat.ParseHistFormat`: `ends_with(char::is_whitespace)` is modelled on the last byte, ASCII whitespace only. A value ending in a multi-byte Unicode space is not modelled.
- Colour codes: `Hh.Stderr` writes the escape sequences as bytes. Terminal behaviour is not modelled.
- Dedup idempotence is not modelled: running `hh` twice on the same input does not in general add nothing the second time. Lines that matched the old last segment are new relative to the segment the first run wrote. No lemma claims otherwise.
- `Segments.Reset` takes back only a segment whose text holds no other `#>`. A recorded command or user name containing `#>` makes `-r` cut inside the run's own output. `RecordRuns.ResetUndoesRun` states this as an if and only if.
