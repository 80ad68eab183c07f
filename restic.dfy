/** restic/restic.go: the repository handle and the three operations that run restic
    against it (init, backup, and JSON sub-commands such as stats). */
module Restic {
  import opened Wrappers
  import opened Process
  import opened ResticCmd

  datatype Config = Config(dir: string)

  /** Repo is never changed after NewRepo; every argument vector is derived from
      config.dir when the operation runs. */
  datatype Repo = Repo(config: Config)

  /** ResticStatsJSON: what `restic stats --json` reports. */
  datatype ResticStatsJSON = ResticStatsJSON(totalSize: int, totalFileCount: int, snapshotsCount: int)

  /** The zero value of ResticStatsJSON. */
  const ZeroStats := ResticStatsJSON(0, 0, 0)

  /** json.Unmarshal of the whole standard output into a T: the value, or the error text. */
  type Decoder<T> = Bytes -> Result<T, Bytes>

  /** The ": " between the run error and the captured standard error. */
  const ColonSpace: Bytes := [58, 32]

  function NewRepo(cfg: Config): (r: Repo)
    ensures r.config == cfg
  {
    Repo(cfg)
  }

  /** Init: runs `restic init --repo <dir> --insecure-no-password` and returns exec.Command's
      error or the run's error. Nothing is captured: the output streams are not wired. */
  method Init(r: Repo, env: Env) returns (err: Option<Bytes>)
    ensures env.lookPathErr.Some? ==> err == env.lookPathErr
    ensures env.lookPathErr.None? ==>
              err == env.run(["init", "--repo", r.config.dir, "--insecure-no-password"]).err
  {
    var argv := ["init", "--repo", r.config.dir, "--insecure-no-password"];
    if env.lookPathErr.Some? {
      return env.lookPathErr;
    }
    err := env.run(argv).err;
  }

  /** BackUp: runs `restic backup --repo <dir> --insecure-no-password <contentDir>`, with the
      content path last, and returns only an error. */
  method BackUp(r: Repo, contentDir: string, env: Env) returns (err: Option<Bytes>)
    ensures env.lookPathErr.Some? ==> err == env.lookPathErr
    ensures env.lookPathErr.None? ==>
              err == env.run(["backup", "--repo", r.config.dir, "--insecure-no-password", contentDir]).err
  {
    var argv := ["backup", "--repo", r.config.dir, "--insecure-no-password", contentDir];
    if env.lookPathErr.Some? {
      return env.lookPathErr;
    }
    err := env.run(argv).err;
  }

  /** The value and error SubcommandJSON returns when restic is run with `argv`: the
      executable's lookup error; or the run error followed by ": " and the whole captured
      standard error; or the decoding error; each with the zero value; or the decoded
      value and no error. */
  function JSONReply<T>(env: Env, argv: seq<string>, decode: Decoder<T>, zero: T): (T, Option<Bytes>) {
    if env.lookPathErr.Some? then (zero, env.lookPathErr)
    else
      var outcome := env.run(argv);
      if outcome.err.Some? then (zero, Some(outcome.err.value + ColonSpace + outcome.stderr))
      else
        match decode(outcome.stdout)
        case Failure(e) => (zero, Some(e))
        case Success(v) => (v, None)
  }

  /** SubcommandJSON: runs `restic <subCmd> --repo <dir> --json <args...>` with standard
      output and standard error captured in two fresh buffers, then decodes the captured
      standard output only if the run succeeded. It is the imperative form of JSONReply. */
  method SubcommandJSON<T>(repo: Repo, subCmd: string, args: seq<string>, env: Env, decode: Decoder<T>, zero: T)
    returns (value: T, err: Option<Bytes>)
    ensures var reply := JSONReply(env, [subCmd, "--repo", repo.config.dir, "--json"] + args, decode, zero);
            value == reply.0 && err == reply.1
  {
    var argv := [subCmd, "--repo", repo.config.dir, "--json"] + args;
    if env.lookPathErr.Some? {
      return zero, env.lookPathErr;
    }
    var outBuf: Bytes := [];
    var errBuf: Bytes := [];
    var outcome := env.run(argv);
    outBuf := outBuf + outcome.stdout;
    errBuf := errBuf + outcome.stderr;
    assert errBuf == outcome.stderr;
    if outcome.err.Some? {
      return zero, Some(outcome.err.value + ColonSpace + errBuf);
    }
    assert outBuf == outcome.stdout;
    var decoded := decode(outBuf);
    if decoded.Failure? {
      return zero, Some(decoded.error);
    }
    return decoded.value, None;
  }

  /** Stats: SubcommandJSON with `stats` and `--insecure-no-password`, decoded into
      ResticStatsJSON. */
  method Stats(r: Repo, env: Env, decode: Decoder<ResticStatsJSON>) returns (stats: ResticStatsJSON, err: Option<Bytes>)
    ensures var reply := JSONReply(env, ["stats", "--repo", r.config.dir, "--json", "--insecure-no-password"], decode, ZeroStats);
            stats == reply.0 && err == reply.1
  {
    assert ["stats", "--repo", r.config.dir, "--json"] + ["--insecure-no-password"]
           == ["stats", "--repo", r.config.dir, "--json", "--insecure-no-password"];
    stats, err := SubcommandJSON(r, "stats", ["--insecure-no-password"], env, decode, ZeroStats);
  }

  /** The outcomes of SubcommandJSON. No error exactly when restic was found, ran
      successfully and its output decoded, and then the value is the decoded one; every
      error comes with the zero value; a lookup failure returns exec.Command's error itself;
      a failed run reports the run error, ": " and the whole standard error, and the
      decoder is not consulted; a decode failure returns the decoder's own error. */
  lemma JSONReplyOutcomes<T>(env: Env, argv: seq<string>, decode: Decoder<T>, other: Decoder<T>, zero: T)
    ensures var reply := JSONReply(env, argv, decode, zero);
            reply.1.None? <==>
              env.lookPathErr.None? && env.run(argv).err.None? && decode(env.run(argv).stdout).Success?
    ensures var reply := JSONReply(env, argv, decode, zero);
            reply.1.None? ==> reply.0 == decode(env.run(argv).stdout).value
    ensures var reply := JSONReply(env, argv, decode, zero);
            reply.1.Some? ==> reply.0 == zero
    ensures env.lookPathErr.None? && env.run(argv).err.Some? ==>
              var msg := JSONReply(env, argv, decode, zero).1.value;
              var runErr := env.run(argv).err.value;
              && |msg| == |runErr| + 2 + |env.run(argv).stderr|
              && msg[..|runErr|] == runErr
              && msg[|runErr|..|runErr| + 2] == ColonSpace
              && msg[|runErr| + 2..] == env.run(argv).stderr
    ensures env.lookPathErr.Some? || env.run(argv).err.Some? ==>
              JSONReply(env, argv, decode, zero) == JSONReply(env, argv, other, zero)
    ensures env.lookPathErr.Some? ==> JSONReply(env, argv, decode, zero) == (zero, env.lookPathErr)
    ensures env.lookPathErr.None? && env.run(argv).err.None? && decode(env.run(argv).stdout).Failure? ==>
              JSONReply(env, argv, decode, zero) == (zero, Some(decode(env.run(argv).stdout).error))
  {
    if env.lookPathErr.None? && env.run(argv).err.Some? {
      var runErr := env.run(argv).err.value;
      var msg := runErr + ColonSpace + env.run(argv).stderr;
      assert msg[..|runErr|] == runErr;
      assert msg[|runErr|..|runErr| + 2] == ColonSpace;
      assert msg[|runErr| + 2..] == env.run(argv).stderr;
    }
  }

  /** The argument vectors written out in the operations are the folds of option
      fragments that cmd.go would build for them: the sub-command word first, then the
      repository, then the flags, with the content path of a backup last. */
  lemma ArgvAreFragmentFolds(r: Repo, contentDir: string, subCmd: string, args: seq<string>)
    ensures ["init", "--repo", r.config.dir, "--insecure-no-password"]
            == Argv([OptFlags(["init"]), OptRepo(r.config.dir), OptFlags(["--insecure-no-password"])])
    ensures ["backup", "--repo", r.config.dir, "--insecure-no-password", contentDir]
            == Argv([OptCommandBackup, OptRepo(r.config.dir), OptFlags(["--insecure-no-password", contentDir])])
    ensures ["stats", "--repo", r.config.dir, "--json", "--insecure-no-password"]
            == Argv([OptCommandStats, OptRepo(r.config.dir), OptFlags(["--json", "--insecure-no-password"])])
    ensures [subCmd, "--repo", r.config.dir, "--json"] + args
            == Argv([OptFlags([subCmd]), OptRepo(r.config.dir), OptFlags(["--json"] + args)])
  {
    var dir := r.config.dir;
    ThreeFragments(OptFlags(["init"]), OptRepo(dir), OptFlags(["--insecure-no-password"]));
    ThreeFragments(OptCommandBackup, OptRepo(dir), OptFlags(["--insecure-no-password", contentDir]));
    ThreeFragments(OptCommandStats, OptRepo(dir), OptFlags(["--json", "--insecure-no-password"]));
    ThreeFragments(OptFlags([subCmd]), OptRepo(dir), OptFlags(["--json"] + args));
  }

  lemma ThreeFragments(a: CmdOpt, b: CmdOpt, c: CmdOpt)
    ensures Argv([a, b, c]) == GetArgs(a) + GetArgs(b) + GetArgs(c)
  {
    assert [a, b, c][1..] == [b, c];
    assert [b, c][1..] == [c];
    assert [c][1..] == [];
    assert Argv([c]) == GetArgs(c);
    assert Argv([b, c]) == GetArgs(b) + GetArgs(c);
  }
}
