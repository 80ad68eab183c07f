/** How Cmd.JSONLines reads the captured standard output: bufio.Scanner with the
    bufio.ScanLines split function, and the per-line JSON check with its all-or-nothing
    result. The JSON syntax check of encoding/json is an input (`Unmarshal`). */
module Lines {
  import opened Wrappers
  import opened Process

  const LF: uint8 := 10
  const CR: uint8 := 13

  /** bufio.MaxScanTokenSize: the scanner's buffer never grows past this many bytes, so a
      line that does not fit in it together with its terminating newline is an error. */
  const MaxScanTokenSize: nat := 64 * 1024

  /** The index of the first newline in `data`, or |data| when there is none. */
  function LineEnd(data: Bytes): (i: nat)
    ensures i <= |data|
    ensures i < |data| ==> data[i] == LF
    ensures forall j :: 0 <= j < i ==> data[j] != LF
  {
    if data == [] || data[0] == LF then 0 else 1 + LineEnd(data[1..])
  }

  /** The lines of `data` as the scanner delimits them, before any carriage return is
      dropped: split on newline, a final line without a newline is kept, and nothing
      follows a final newline. */
  function RawLines(data: Bytes): seq<Bytes>
    decreases |data|
  {
    if data == [] then []
    else
      var i := LineEnd(data);
      if i < |data| then [data[..i]] + RawLines(data[i + 1..]) else [data]
  }

  /** ScanLines drops one carriage return at the end of each line. */
  function DropCR(line: Bytes): Bytes {
    if |line| > 0 && line[|line| - 1] == CR then line[..|line| - 1] else line
  }

  /** Every line followed by a newline: the inverse of RawLines. */
  function Terminated(lines: seq<Bytes>): Bytes {
    if lines == [] then [] else lines[0] + [LF] + Terminated(lines[1..])
  }

  function CountLF(data: Bytes): nat {
    if data == [] then 0 else (if data[0] == LF then 1 else 0) + CountLF(data[1..])
  }

  /** The data ends in a line that has no newline after it. */
  predicate EndsUnterminated(data: Bytes) {
    data != [] && data[|data| - 1] != LF
  }

  lemma {:induction false} RawLinesHaveNoLF(data: Bytes)
    ensures forall k :: 0 <= k < |RawLines(data)| ==> LF !in RawLines(data)[k]
    decreases |data|
  {
    if data != [] {
      var i := LineEnd(data);
      if i < |data| {
        RawLinesHaveNoLF(data[i + 1..]);
      }
    }
  }

  /** One scanner step: the first line, then the lines of what follows its newline. */
  lemma RawLinesStep(data: Bytes)
    requires data != []
    ensures var i := LineEnd(data);
      RawLines(data) == [data[..i]] + RawLines(if i < |data| then data[i + 1..] else [])
  {
    var i := LineEnd(data);
    if i == |data| {
      assert data[..i] == data;
    }
  }

  /** Joining the lines back, each with a newline, gives the data again, plus the one
      newline a final unterminated line lacked. */
  lemma {:induction false} TerminatedRawLines(data: Bytes)
    ensures Terminated(RawLines(data)) == if EndsUnterminated(data) then data + [LF] else data
    decreases |data|
  {
    if data != [] {
      var i := LineEnd(data);
      RawLinesStep(data);
      if i < |data| {
        var line, rest := data[..i], data[i + 1..];
        TerminatedRawLines(rest);
        SplitAt(data, i);
        TerminatedLineThenRest(data, line, rest, Terminated(RawLines(rest)));
        TerminatedCons(line, RawLines(rest));
      } else {
        NoLFAtEnd(data, i);
        TerminatedCons(data, []);
      }
    }
  }

  lemma NoLFAtEnd(data: Bytes, i: nat)
    requires data != [] && i == LineEnd(data) && i == |data|
    ensures RawLines(data) == [data] && EndsUnterminated(data)
  {
    assert data[..i] == data;
  }

  lemma SplitAt(data: Bytes, i: nat)
    requires i < |data| && data[i] == LF
    ensures data == data[..i] + [LF] + data[i + 1..]
  {
  }

  lemma TerminatedLineThenRest(data: Bytes, line: Bytes, rest: Bytes, restLines: Bytes)
    requires data == line + [LF] + rest
    requires restLines == if EndsUnterminated(rest) then rest + [LF] else rest
    ensures line + [LF] + restLines == if EndsUnterminated(data) then data + [LF] else data
  {
    LastOfAppend(line + [LF], rest);
  }

  lemma TerminatedCons(line: Bytes, lines: seq<Bytes>)
    ensures Terminated([line] + lines) == line + [LF] + Terminated(lines)
  {
    assert ([line] + lines)[1..] == lines;
  }

  lemma LastOfAppend(a: Bytes, b: Bytes)
    requires a != [] && a[|a| - 1] == LF
    ensures EndsUnterminated(a + b) == EndsUnterminated(b)
  {
    if b != [] {
      assert (a + b)[|a + b| - 1] == b[|b| - 1];
    }
  }

  /** The other direction: lines without newlines, each terminated, scan back to the
      same lines. */
  lemma {:induction false} RawLinesTerminated(lines: seq<Bytes>)
    requires forall k :: 0 <= k < |lines| ==> LF !in lines[k]
    ensures RawLines(Terminated(lines)) == lines
  {
    if lines != [] {
      var rest := Terminated(lines[1..]);
      TerminatedCons(lines[0], lines[1..]);
      assert [lines[0]] + lines[1..] == lines;
      FirstLineOf(lines[0], rest);
      RawLinesTerminated(lines[1..]);
    }
  }

  /** A newline-free line followed by a newline is the first line scanned. */
  lemma FirstLineOf(line: Bytes, rest: Bytes)
    requires LF !in line
    ensures RawLines(line + [LF] + rest) == [line] + RawLines(rest)
  {
    var data := line + [LF] + rest;
    assert forall j :: 0 <= j < |line| ==> data[j] == line[j];
    assert data[|line|] == LF;
    var i := LineEnd(data);
    assert i == |line|;
    assert data[..i] == line;
    assert data[i + 1..] == rest;
    RawLinesStep(data);
  }

  lemma {:induction false} CountLFAppend(a: Bytes, b: Bytes)
    ensures CountLF(a + b) == CountLF(a) + CountLF(b)
  {
    if a == [] {
      assert a + b == b;
    } else {
      assert (a + b)[0] == a[0];
      assert (a + b)[1..] == a[1..] + b;
      CountLFAppend(a[1..], b);
    }
  }

  lemma {:induction false} CountLFTerminated(lines: seq<Bytes>)
    requires forall k :: 0 <= k < |lines| ==> LF !in lines[k]
    ensures CountLF(Terminated(lines)) == |lines|
  {
    if lines != [] {
      CountLFTerminated(lines[1..]);
      CountLFAppend(lines[0] + [LF], Terminated(lines[1..]));
      CountLFAppend(lines[0], [LF]);
      CountLFFree(lines[0]);
    }
  }

  lemma {:induction false} CountLFFree(line: Bytes)
    requires LF !in line
    ensures CountLF(line) == 0
  {
    if line != [] {
      assert LF !in line[1..];
      CountLFFree(line[1..]);
    }
  }

  /** One line per newline, and one more for a final line without a newline. */
  lemma RawLinesCount(data: Bytes)
    ensures |RawLines(data)| == CountLF(data) + if EndsUnterminated(data) then 1 else 0
  {
    RawLinesHaveNoLF(data);
    CountLFTerminated(RawLines(data));
    TerminatedRawLines(data);
    if EndsUnterminated(data) {
      CountLFAppend(data, [LF]);
    }
  }

  /** The ScanLines edge cases on small inputs: no line for empty data, one empty line
      for a lone newline, no extra line after a final newline, the unterminated final
      line kept, and a carriage return before the newline dropped. */
  lemma ScanLinesExamples(a: uint8, b: uint8)
    requires a != LF && b != LF
    ensures RawLines([]) == []
    ensures RawLines([LF]) == [[]]
    ensures RawLines([a, LF]) == [[a]]
    ensures RawLines([a, LF, b]) == [[a], [b]]
    ensures DropCR(RawLines([a, CR, LF])[0]) == [a]
  {
    assert LineEnd([LF]) == 0;
    assert [LF][1..] == [];
    assert LineEnd([a, LF]) == 1;
    assert [a, LF][..1] == [a] && [a, LF][2..] == [];
    assert LineEnd([a, LF, b]) == 1;
    assert [a, LF, b][..1] == [a] && [a, LF, b][2..] == [b];
    assert LineEnd([b]) == 1;
    assert LineEnd([a, CR, LF]) == 2;
    assert [a, CR, LF][..2] == [a, CR];
  }

  /** json.Unmarshal into a json.RawMessage: the raw value of a line, or the text of the
      error encoding/json reports for it. */
  type Unmarshal = Bytes -> Result<Bytes, Bytes>

  /** The two ways JSONLines fails: the scanner's ErrTooLong, or the error json.Unmarshal
      returned for a line. */
  datatype LinesError = TokenTooLong | Syntax(msg: Bytes)

  /** One scanner step and the JSON check of its token. A line that does not fit in the
      scanner's buffer with its newline (a carriage return counts, it is dropped only
      afterwards) stops the scanner; otherwise the token is the line without its
      carriage return. */
  function DecodeLine(raw: Bytes, unmarshal: Unmarshal): Result<Bytes, LinesError> {
    if |raw| >= MaxScanTokenSize then Failure(TokenTooLong)
    else
      match unmarshal(DropCR(raw))
      case Success(v) => Success(v)
      case Failure(e) => Failure(Syntax(e))
  }

  /** What JSONLines returns for the lines of its buffer: all decoded values in line
      order, or the failure of the first line that fails and nothing else. */
  function DecodeLines(lines: seq<Bytes>, unmarshal: Unmarshal): (r: Result<seq<Bytes>, LinesError>)
    ensures r.Success? <==> forall k :: 0 <= k < |lines| ==> DecodeLine(lines[k], unmarshal).Success?
    ensures r.Success? ==> |r.value| == |lines|
    ensures r.Success? ==> forall k :: 0 <= k < |lines| ==> r.value[k] == DecodeLine(lines[k], unmarshal).value
  {
    if lines == [] then Success([])
    else
      match DecodeLine(lines[0], unmarshal)
      case Failure(e) => Failure(e)
      case Success(v) =>
        match DecodeLines(lines[1..], unmarshal)
        case Failure(e) => Failure(e)
        case Success(vs) => Success([v] + vs)
  }

  /** Line k is the first line that fails. */
  predicate FirstFailure(lines: seq<Bytes>, unmarshal: Unmarshal, k: nat) {
    && k < |lines|
    && DecodeLine(lines[k], unmarshal).Failure?
    && forall j :: 0 <= j < k ==> DecodeLine(lines[j], unmarshal).Success?
  }

  /** The error returned is the first failing line's, whatever follows it. */
  lemma {:induction false} DecodeLinesStopsAtFirstFailure(lines: seq<Bytes>, unmarshal: Unmarshal, k: nat)
    requires FirstFailure(lines, unmarshal, k)
    ensures DecodeLines(lines, unmarshal) == Failure(DecodeLine(lines[k], unmarshal).error)
  {
    if k > 0 {
      assert FirstFailure(lines[1..], unmarshal, k - 1) by {
        forall j | 0 <= j < k - 1
          ensures DecodeLine(lines[1..][j], unmarshal).Success?
        {
          assert lines[1..][j] == lines[j + 1];
        }
      }
      DecodeLinesStopsAtFirstFailure(lines[1..], unmarshal, k - 1);
      assert DecodeLine(lines[0], unmarshal).Success?;
    }
  }

  /** A failure always has a first failing line. */
  lemma DecodeLinesFailureHasFirst(lines: seq<Bytes>, unmarshal: Unmarshal) returns (k: nat)
    requires DecodeLines(lines, unmarshal).Failure?
    ensures FirstFailure(lines, unmarshal, k)
    ensures DecodeLines(lines, unmarshal).error == DecodeLine(lines[k], unmarshal).error
  {
    k := 0;
    while DecodeLine(lines[k], unmarshal).Success?
      invariant k < |lines|
      invariant forall j :: 0 <= j < k ==> DecodeLine(lines[j], unmarshal).Success?
      decreases |lines| - k
    {
      k := k + 1;
    }
    DecodeLinesStopsAtFirstFailure(lines, unmarshal, k);
  }

  /** An empty buffer decodes to an empty list, not to an error. */
  lemma EmptyOutputDecodesToEmptyList(unmarshal: Unmarshal)
    ensures DecodeLines(RawLines([]), unmarshal) == Success([])
  {
  }

  /** A blank line anywhere (also one holding only a carriage return) fails the whole
      call, since an empty document is not JSON. */
  lemma {:induction false} BlankLineFailsAll(data: Bytes, unmarshal: Unmarshal, k: nat)
    requires k < |RawLines(data)| && DropCR(RawLines(data)[k]) == []
    requires unmarshal([]).Failure?
    ensures DecodeLines(RawLines(data), unmarshal).Failure?
  {
    assert |RawLines(data)[k]| <= 1;
    assert DecodeLine(RawLines(data)[k], unmarshal).Failure?;
  }

  /** A line too long for the scanner's buffer fails the whole call, even when every
      line before it is valid JSON. */
  lemma LongLineFailsAll(data: Bytes, unmarshal: Unmarshal, k: nat)
    requires k < |RawLines(data)| && |RawLines(data)[k]| >= MaxScanTokenSize
    ensures DecodeLines(RawLines(data), unmarshal).Failure?
  {
    assert DecodeLine(RawLines(data)[k], unmarshal).Failure?;
  }
}
