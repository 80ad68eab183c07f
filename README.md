# restic-go-prom: the command and output layer, in Dafny

This project models the part of restic-go-prom that talks to the `restic` command-line
tool. It covers four things:

- how argument vectors are built from option fragments (`CmdOptRepo`, the
  `CmdOptCommand*` types, `CmdOptFlags`, `NewCmd`);
- how a command's standard output is read as line-delimited JSON (`Cmd.JSONLines`, with
  `bufio.ScanLines` semantics and an all-or-nothing result);
- the argument vectors that `Repo.Init`, `Repo.BackUp`, `SubcommandJSON` and `Repo.Stats`
  run restic with;
- what `SubcommandJSON` returns for a lookup error, a failed run, a decode failure and a
  success.

Modules, one per file:

- `Wrappers` (wrappers.dfy): `Option` and `Result`.
- `Process` (process.dfy): bytes, and `Env`, the stand-in for the operating system.
  `Env.lookPathErr` is the error `exec.Command` stores when `restic` cannot be found.
  `Env.run(argv)` is what running restic with `argv` leaves behind: standard output,
  standard error and the error `Run` returns.
- `Lines` (lines.dfy): the scanner's line splitting and the JSON check of each line.
  `json.Unmarshal` into a `json.RawMessage` is an input function (`Unmarshal`).
- `ResticCmd` (cmd.dfy): restic/cmd.go. `Cmd` is a class, because `Run` and `JSONLines`
  change its buffers in place.
- `Restic` (restic.dfy): restic/restic.go. `Repo` is a datatype, because nothing ever
  changes it.

Go strings in argument vectors are Dafny strings. Byte buffers and error texts are
sequences of `uint8`.

Three behaviours of the code differ from what a reader might expect:

- `BackUp` returns only an error and decodes no events (restic/restic.go:115-121), although
  the package's test reads `msgs, err := repo.BackUp(contentDir)` (restic/restic_test.go:109).
- `JSONLines` rejects a blank line (an empty document is not JSON). It does not skip it.
- A run failure reports the run error's text followed by the captured standard error.
  No separate exit code is kept.

## Model

| member | source | states |
|---|---|---|
| `ResticCmd.ArgvAppend` | restic/cmd.go:45-49 | Folding options `a + b` gives the argv of `a` followed by the argv of `b`; the fold adds nothing at the joins |
| `ResticCmd.ArgvSplit` | restic/cmd.go:46-49 | Option k contributes exactly its `GetArgs()`, placed after the words of the options before it and before the words of the options after it |
| `ResticCmd.ArgvLength` | restic/cmd.go:46-49 | The argv length is the sum of the fragment lengths; no options give an empty argv |
| `ResticCmd.SingleFragments` | restic/cmd.go:21-39 | `CmdOptRepo{p}` contributes `["--repo", p]`; backup/stats/version contribute one word each; `CmdOptFlags` contributes its flags verbatim and in order |
| `ResticCmd.ArgvExamples` | restic/cmd_test.go:10 | `NewCmd(CmdOptCommandVersion{}, CmdOptFlags{"--json"})` has argv `["version","--json"]`; repo, stats and `--json` give `["--repo","/tmp/r","stats","--json"]` |
| `ResticCmd.NewCmd` | restic/cmd.go:45-62 | The result is an error exactly when `exec.Command` failed, and then it is that error; otherwise it is a fresh `Cmd` whose args are the fold of the options in order, with empty buffers wired to Stdout and Stderr |
| `ResticCmd.Cmd.constructor` | restic/cmd.go:51-53 | A new `Cmd` has the given args and empty OutBuf/ErrBuf, and nothing wired yet |
| `ResticCmd.Cmd.Run` | restic/cmd_test.go:15 | `cmd.Run()` of the embedded `*exec.Cmd` (restic/cmd.go:11), with the streams wired by restic/cmd.go:58-59: running appends restic's standard output to OutBuf and its standard error to ErrBuf (when wired) and returns the run error |
| `ResticCmd.Cmd.JSONLines` | restic/cmd.go:64-79 | The result is `DecodeLines` of OutBuf's scanned lines; on success OutBuf is drained, and in every case what remains is a suffix of the old buffer |
| `Lines.LineEnd` | restic/cmd.go:67 | Returns the index of the first newline, or the length when there is none |
| `Lines.RawLinesHaveNoLF` | restic/cmd.go:66-68 | No scanned line contains a newline |
| `Lines.TerminatedRawLines` | restic/cmd.go:66-68 | Re-joining the scanned lines with a newline after each gives the buffer back, plus one newline if the last line was unterminated; so the lines are in order and an unterminated final line is kept |
| `Lines.RawLinesTerminated` | restic/cmd.go:66-68 | The inverse direction: newline-free lines, each terminated by a newline, scan back to the same lines |
| `Lines.RawLinesCount` | restic/cmd.go:66-68 | The number of lines is the number of newlines, plus one for a final unterminated line; a final newline adds no extra empty line |
| `Lines.ScanLinesExamples` | restic/cmd.go:66-68 | Empty data has no lines; `"\n"` is one empty line; `"a\n"` is one line; `"a\nb"` is two lines; a `"\r"` before the newline is dropped |
| `Lines.DecodeLines` | restic/cmd.go:68-74 | The call succeeds if and only if every line passes the length and JSON checks; the list then has one entry per line, in line order, each the line's raw JSON value |
| `Lines.DecodeLinesStopsAtFirstFailure` | restic/cmd.go:70-72 | When line k is the first failing line, the result is that line's error and no list, whatever follows |
| `Lines.DecodeLinesFailureHasFirst` | restic/cmd.go:70-77 | Every failure is the error of a first failing line, before which all lines succeed |
| `Lines.EmptyOutputDecodesToEmptyList` | restic/cmd.go:65 | Empty standard output gives an empty list and no error |
| `Lines.BlankLineFailsAll` | restic/cmd.go:70-72 | A blank line anywhere (even one holding only `"\r"`) makes the whole call fail, given that an empty document is not JSON |
| `Lines.LongLineFailsAll` | restic/cmd.go:75-77 | A line of 65536 bytes or more (the scanner's maximum token size) makes the whole call fail |
| `Restic.NewRepo` | restic/restic.go:101-105 | The repository keeps the given `Config` unchanged |
| `Restic.Init` | restic/restic.go:107-113 | Returns `exec.Command`'s error, or else the error of running exactly `["init","--repo",Dir,"--insecure-no-password"]` |
| `Restic.BackUp` | restic/restic.go:115-121 | Returns `exec.Command`'s error, or else the error of running exactly `["backup","--repo",Dir,"--insecure-no-password",contentDir]`, with the content path last |
| `Restic.SubcommandJSON` | restic/restic.go:123-147 | Returns `JSONReply` for argv `[subCmd,"--repo",Dir,"--json"]` followed by the extra args in order |
| `Restic.Stats` | restic/restic.go:149-151 | Returns `JSONReply` for argv exactly `["stats","--repo",Dir,"--json","--insecure-no-password"]`, with `ResticStatsJSON`'s zero value on error |
| `Restic.JSONReplyOutcomes` | restic/restic.go:123-147 | There is no error exactly when restic was found, ran successfully and its output decoded, and then the decoded value is returned. Every error comes with the zero value. A lookup failure returns `exec.Command`'s error itself (restic/restic.go:127-128). A run failure's text is the run error, then `": "`, then the whole standard error, and the decoder is never consulted. A decode failure returns the decoder's own error (restic/restic.go:142-143) |
| `Restic.ArgvAreFragmentFolds` | restic/restic.go:108-150 | The hard-coded argvs of init, backup, stats and `SubcommandJSON` equal `Argv` of option fragments: the sub-command first, then the repository, then the flags |

## Left out

- Launching restic is not modelled. `exec.Command`'s path lookup, `cmd.Run`, exit codes and the child process are replaced by `Env`.
- The JSON syntax check and struct decoding of `encoding/json` are not modelled. They are input functions (`Unmarshal`, `Decoder<T>`), because that library is not part of this model.
- ResticCmd.Cmd.JSONLines: after an error, it says only that what remains in OutBuf is a suffix of the old contents. The real scanner reads ahead in chunks of up to 64 KiB, so how much it consumed depends on those chunk sizes.
- `SubcommandJSON` wraps the run error with `%w`. Only the error text is modelled, not the chain that `errors.Unwrap` would follow.
- `exec.Cmd` refuses a second `Run` on the same command. That rule belongs to os/exec and is not modelled.
- The Prometheus metrics are not modelled: `Metrics`, `NewMetrics`, `MustRegister`, and the stubs `Repo.Ping` and `Repo.Metrics`. They wrap a foreign library, use floating point, and the stubs have no behaviour.
- Backup status and summary events are not modelled. The `BackUp` shown returns only an error, and the event types are not defined in the code.
- The test fixtures and the scenario checks that tie stats to a real backup are not modelled. They depend on restic and the file system.
- Go's `int` width is not modelled. The fields of `ResticStatsJSON` are unbounded integers, and range checks belong to the decoder.
