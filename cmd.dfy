/** restic/cmd.go: argument fragments, the command object with its two capture buffers,
    and the line-by-line JSON reading of its standard output. */
module ResticCmd {
  import opened Wrappers
  import opened Process
  import opened Lines

  /** The option types that implement `cmdopts`: each contributes a fixed fragment of the
      argument vector. */
  datatype CmdOpt =
    | OptRepo(repo: string)
    | OptCommandBackup
    | OptCommandStats
    | OptCommandVersion
    | OptFlags(flags: seq<string>)

  /** GetArgs of each option type. */
  function GetArgs(opt: CmdOpt): seq<string> {
    match opt
    case OptRepo(repo) => ["--repo", repo]
    case OptCommandBackup => ["backup"]
    case OptCommandStats => ["stats"]
    case OptCommandVersion => ["version"]
    case OptFlags(flags) => flags
  }

  /** The argument vector of a command built from `opts`: the fragments in the order given. */
  function Argv(opts: seq<CmdOpt>): seq<string> {
    if opts == [] then [] else GetArgs(opts[0]) + Argv(opts[1..])
  }

  /** The number of words the options contribute, counted option by option. */
  function ArgCount(opts: seq<CmdOpt>): nat {
    if opts == [] then 0 else |GetArgs(opts[0])| + ArgCount(opts[1..])
  }

  lemma {:induction false} ArgvAppend(a: seq<CmdOpt>, b: seq<CmdOpt>)
    ensures Argv(a + b) == Argv(a) + Argv(b)
  {
    if a == [] {
      assert a + b == b;
    } else {
      assert (a + b)[0] == a[0];
      assert (a + b)[1..] == a[1..] + b;
      ArgvAppend(a[1..], b);
    }
  }

  /** Option k contributes its words at its place and nothing is put between options. */
  lemma ArgvSplit(opts: seq<CmdOpt>, k: nat)
    requires k < |opts|
    ensures Argv(opts) == Argv(opts[..k]) + GetArgs(opts[k]) + Argv(opts[k + 1..])
  {
    SplitAround(opts, k);
    ArgvAppend(opts[..k], [opts[k]] + opts[k + 1..]);
    ArgvCons(opts[k], opts[k + 1..]);
  }

  lemma SplitAround<T>(s: seq<T>, k: nat)
    requires k < |s|
    ensures s == s[..k] + ([s[k]] + s[k + 1..])
  {
  }

  lemma ArgvCons(opt: CmdOpt, opts: seq<CmdOpt>)
    ensures Argv([opt] + opts) == GetArgs(opt) + Argv(opts)
  {
    assert ([opt] + opts)[1..] == opts;
  }

  /** The length of the argument vector is the sum of the fragments' lengths; no
      options give no arguments. */
  lemma {:induction false} ArgvLength(opts: seq<CmdOpt>)
    ensures |Argv(opts)| == ArgCount(opts)
    ensures opts == [] ==> Argv(opts) == []
  {
    if opts != [] {
      ArgvLength(opts[1..]);
    }
  }

  /** What each option type contributes on its own. */
  lemma SingleFragments(repo: string, flags: seq<string>)
    ensures Argv([OptRepo(repo)]) == ["--repo", repo]
    ensures Argv([OptCommandBackup]) == ["backup"]
    ensures Argv([OptCommandStats]) == ["stats"]
    ensures Argv([OptCommandVersion]) == ["version"]
    ensures Argv([OptFlags(flags)]) == flags
  {
  }

  /** The `version --json` command of the package's test, and a repository-targeted
      `stats --json`. */
  lemma ArgvExamples()
    ensures Argv([OptCommandVersion, OptFlags(["--json"])]) == ["version", "--json"]
    ensures Argv([OptRepo("/tmp/r"), OptCommandStats, OptFlags(["--json"])])
            == ["--repo", "/tmp/r", "stats", "--json"]
  {
    ArgvAppend([OptCommandVersion], [OptFlags(["--json"])]);
    assert [OptCommandVersion, OptFlags(["--json"])] == [OptCommandVersion] + [OptFlags(["--json"])];
    ArgvAppend([OptRepo("/tmp/r")], [OptCommandStats, OptFlags(["--json"])]);
    assert [OptRepo("/tmp/r"), OptCommandStats, OptFlags(["--json"])]
           == [OptRepo("/tmp/r")] + [OptCommandStats, OptFlags(["--json"])];
  }

  /** A restic command: exec.Cmd's arguments and output wiring, and the two buffers the
      output is captured in. */
  class Cmd {
    /** The arguments after the program name (exec.Cmd's Args without Args[0]). */
    const args: seq<string>
    /** OutBuf and ErrBuf. */
    var outBuf: Bytes
    var errBuf: Bytes
    /** Whether cmd.Stdout is &cmd.OutBuf and cmd.Stderr is &cmd.ErrBuf; when not, exec
        discards that stream. */
    var stdoutToOutBuf: bool
    var stderrToErrBuf: bool

    /** The struct literal `Cmd{Cmd: exec.Command("restic", args...)}`: empty buffers,
        nothing wired yet. */
    constructor (args: seq<string>)
      ensures this.args == args
      ensures outBuf == [] && errBuf == []
      ensures !stdoutToOutBuf && !stderrToErrBuf
    {
      this.args := args;
      outBuf, errBuf := [], [];
      stdoutToOutBuf, stderrToErrBuf := false, false;
    }

    /** cmd.Run from the embedded exec.Cmd: runs the program with `args`, appends what it
        writes to the wired buffers and returns its error. */
    method Run(env: Env) returns (err: Option<Bytes>)
      modifies this`outBuf, this`errBuf
      ensures err == env.run(args).err
      ensures outBuf == old(outBuf) + if stdoutToOutBuf then env.run(args).stdout else []
      ensures errBuf == old(errBuf) + if stderrToErrBuf then env.run(args).stderr else []
    {
      var outcome := env.run(args);
      if stdoutToOutBuf {
        outBuf := outBuf + outcome.stdout;
      }
      if stderrToErrBuf {
        errBuf := errBuf + outcome.stderr;
      }
      err := outcome.err;
    }

    /** JSONLines: scans OutBuf line by line and checks each line as JSON. On success the
        list holds one raw value per line, in line order, and OutBuf is drained; on the
        first failing line (a scanner error or a JSON error) only that error comes back. */
    method JSONLines(unmarshal: Unmarshal) returns (r: Result<seq<Bytes>, LinesError>)
      modifies this`outBuf
      ensures r == DecodeLines(RawLines(old(outBuf)), unmarshal)
      ensures r.Success? ==> outBuf == []
      ensures |outBuf| <= |old(outBuf)| && outBuf == old(outBuf)[|old(outBuf)| - |outBuf|..]
    {
      ghost var data := outBuf;
      ghost var consumed: nat := 0;
      ghost var done: seq<Bytes> := [];
      var res: seq<Bytes> := [];
      while outBuf != []
        invariant consumed <= |data| && outBuf == data[consumed..]
        invariant RawLines(data) == done + RawLines(outBuf)
        invariant AllDecoded(done, res, unmarshal)
        decreases |outBuf|
      {
        // one scanner.Scan()
        var i := LineEnd(outBuf);
        var raw := outBuf[..i];
        var rest := if i < |outBuf| then outBuf[i + 1..] else [];
        RawLinesStep(outBuf);
        ShiftLine(RawLines(data), done, RawLines(outBuf), raw, RawLines(rest));
        if |raw| >= MaxScanTokenSize {
          // Scan stops; scanner.Err() is bufio.ErrTooLong
          FirstFailureAt(RawLines(data), done, res, raw, RawLines(rest), unmarshal);
          return Failure(TokenTooLong);
        }
        ghost var next := if i < |outBuf| then consumed + i + 1 else |data|;
        assert rest == data[next..];
        outBuf, consumed := rest, next;
        match unmarshal(DropCR(raw)) {
          case Failure(e) =>
            FirstFailureAt(RawLines(data), done, res, raw, RawLines(rest), unmarshal);
            return Failure(Syntax(e));
          case Success(v) =>
            DecodedOneMore(done, res, raw, v, unmarshal);
            res, done := res + [v], done + [raw];
        }
      }
      AllDecodedSucceeds(RawLines(data), res, unmarshal);
      r := Success(res);
    }
  }

  lemma ShiftLine<T>(all: seq<T>, done: seq<T>, current: seq<T>, line: T, rest: seq<T>)
    requires all == done + current && current == [line] + rest
    ensures all == done + ([line] + rest) && all == (done + [line]) + rest
  {
  }

  /** `res` holds, in order, the decoded value of each line in `done`, all of which succeed. */
  ghost predicate AllDecoded(done: seq<Bytes>, res: seq<Bytes>, unmarshal: Unmarshal) {
    && |res| == |done|
    && forall k :: 0 <= k < |done| ==>
         DecodeLine(done[k], unmarshal).Success? && res[k] == DecodeLine(done[k], unmarshal).value
  }

  lemma DecodedOneMore(done: seq<Bytes>, res: seq<Bytes>, raw: Bytes, v: Bytes, unmarshal: Unmarshal)
    requires AllDecoded(done, res, unmarshal)
    requires |raw| < MaxScanTokenSize && unmarshal(DropCR(raw)) == Success(v)
    ensures AllDecoded(done + [raw], res + [v], unmarshal)
  {
  }

  lemma AllDecodedSucceeds(lines: seq<Bytes>, res: seq<Bytes>, unmarshal: Unmarshal)
    requires AllDecoded(lines, res, unmarshal)
    ensures DecodeLines(lines, unmarshal) == Success(res)
  {
    var r := DecodeLines(lines, unmarshal);
    assert r.Success?;
    assert |r.value| == |res|;
    assert forall k :: 0 <= k < |res| ==> r.value[k] == res[k];
    assert r.value == res;
  }

  /** A line that fails after lines that all succeed decides the result. */
  lemma FirstFailureAt(lines: seq<Bytes>, done: seq<Bytes>, res: seq<Bytes>, raw: Bytes, rest: seq<Bytes>, unmarshal: Unmarshal)
    requires lines == done + ([raw] + rest)
    requires AllDecoded(done, res, unmarshal)
    requires DecodeLine(raw, unmarshal).Failure?
    ensures DecodeLines(lines, unmarshal) == Failure(DecodeLine(raw, unmarshal).error)
  {
    assert lines[|done|] == raw;
    assert forall k :: 0 <= k < |done| ==> lines[k] == done[k];
    DecodeLinesStopsAtFirstFailure(lines, unmarshal, |done|);
  }

  /** NewCmd: folds the options into the argument vector in the order given, fails with
      exec.Command's error when the program cannot be found, and otherwise wires standard
      output and standard error to the command's two empty buffers. */
  method NewCmd(env: Env, opts: seq<CmdOpt>) returns (r: Result<Cmd, Bytes>)
    ensures r.Failure? <==> env.lookPathErr.Some?
    ensures r.Failure? ==> r.error == env.lookPathErr.value
    ensures r.Success? ==> fresh(r.value)
    ensures r.Success? ==> r.value.args == Argv(opts)
    ensures r.Success? ==> r.value.outBuf == [] && r.value.errBuf == []
    ensures r.Success? ==> r.value.stdoutToOutBuf && r.value.stderrToErrBuf
  {
    var args: seq<string> := [];
    for i := 0 to |opts|
      invariant args == Argv(opts[..i])
    {
      ArgvAppend(opts[..i], [opts[i]]);
      assert opts[..i + 1] == opts[..i] + [opts[i]];
      args := args + GetArgs(opts[i]);
    }
    assert opts[..|opts|] == opts;
    if env.lookPathErr.Some? {
      return Failure(env.lookPathErr.value);
    }
    var cmd := new Cmd(args);
    cmd.stdoutToOutBuf := true;
    cmd.stderrToErrBuf := true;
    r := Success(cmd);
  }
}
