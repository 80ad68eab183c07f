/** The boundary to the operating system: bytes, and the one external program the adapter
    runs. Launching the program is not modelled; what a launch would produce is an input. */
module Process {
  import opened Wrappers

  newtype uint8 = x: int | 0 <= x < 256

  /** A Go byte slice, a bytes.Buffer's contents, or the text of a Go error. */
  type Bytes = seq<uint8>

  /** The name exec.Command is given in every call: the restic executable. */
  const Program: string := "restic"

  /** What one run of the program leaves behind: everything it wrote to standard output and
      to standard error, and the error cmd.Run returns (None for a zero exit status). */
  datatype RunOutcome = RunOutcome(stdout: Bytes, stderr: Bytes, err: Option<Bytes>)

  /** The environment of every call. `lookPathErr` is the error exec.Command stores in
      cmd.Err when the executable cannot be found; `run` says what running the program
      with a given argument vector (the words after the program name) produces. */
  datatype Env = Env(lookPathErr: Option<Bytes>, run: seq<string> -> RunOutcome)
}
