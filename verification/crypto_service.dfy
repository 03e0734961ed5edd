/** `CryptoService.processImage`: the worker's bridge to the native
    processor. It names two temporary files after a millisecond timestamp,
    builds the command line, and classifies how the subprocess ended. The
    clock is the parameter `timestamp`; the file system and the subprocess
    are summarised by an `Outcome`. */
module CryptoService {
  import opened Prelude
  import opened Text
  import Domain

  const ProcessorPath: string := "/app/crypto_processor"
  const TempDir: string := "/tmp/crypto"
  const TimeoutSeconds: nat := 60
  const FailurePrefix: string := "Failed to process image: "
  const TimeoutMessage: string := "Crypto process timed out"
  const ExitCodeMessage: string := "Crypto process failed with exit code "
  const MissingOutputMessage: string := "Output file was not created: "

  /** `extractModeFromEnum`: the enum name without a leading "AES_". */
  function ModeArgument(mode: Domain.EncryptionMode): (r: string)
    ensures !StartsWith(r, "AES_")
    ensures Domain.ModeName(mode) == "AES_" + r
  {
    var name := Domain.ModeName(mode);
    if StartsWith(name, "AES_") then name[4..] else name
  }

  /** `operation.name().toLowerCase()`. */
  function OperationArgument(op: Domain.Operation): (r: string)
    ensures ToUpper(r) == Domain.OperationName(op)
    ensures forall i | 0 <= i < |r| :: !('A' <= r[i] <= 'Z')
    ensures r == "encrypt" <==> op == Domain.Encrypt
    ensures r == "decrypt" <==> op == Domain.Decrypt
  {
    assert ToLower("ENCRYPT") == "encrypt";
    assert ToLower("DECRYPT") == "decrypt";
    ToLower(Domain.OperationName(op))
  }

  function InputFileName(timestamp: nat, fileName: string): string {
    NatToDecimal(timestamp) + "_input_" + fileName
  }

  function OutputFileName(timestamp: nat, fileName: string): string {
    NatToDecimal(timestamp) + "_output_" + fileName
  }

  /** `Paths.get(TEMP_DATA_PATH, name).toString()`. */
  function TempPath(name: string): string {
    TempDir + "/" + name
  }

  /** A string of digits followed by text starting with '_' splits there in
      only one way. */
  lemma DigitPrefixUnique(d1: string, rest1: string, d2: string, rest2: string)
    requires AllDigits(d1) && AllDigits(d2)
    requires |rest1| > 0 && rest1[0] == '_'
    requires |rest2| > 0 && rest2[0] == '_'
    requires d1 + rest1 == d2 + rest2
    ensures d1 == d2 && rest1 == rest2
  {
    var s := d1 + rest1;
    assert s[|d1|] == '_';
    assert s[|d2|] == '_';
    assert forall i | 0 <= i < |d1| :: IsDigit(s[i]);
    assert forall i | 0 <= i < |d2| :: IsDigit(s[i]);
    assert |d1| == |d2|;
    assert d1 == s[..|d1|] == d2;
    assert rest1 == s[|d1|..] == rest2;
  }

  /** The timestamp and the file name determine the temporary names and are
      determined by them; an input name is never an output name, whatever
      the timestamps. */
  lemma TempNamesDistinct(t1: nat, f1: string, t2: nat, f2: string)
    ensures InputFileName(t1, f1) == InputFileName(t2, f2) <==> t1 == t2 && f1 == f2
    ensures OutputFileName(t1, f1) == OutputFileName(t2, f2) <==> t1 == t2 && f1 == f2
    ensures InputFileName(t1, f1) != OutputFileName(t2, f2)
    ensures TempPath(InputFileName(t1, f1)) != TempPath(OutputFileName(t2, f2))
  {
    var d1, d2 := NatToDecimal(t1), NatToDecimal(t2);
    assert InputFileName(t1, f1) == d1 + ("_input_" + f1);
    assert InputFileName(t2, f2) == d2 + ("_input_" + f2);
    assert OutputFileName(t1, f1) == d1 + ("_output_" + f1);
    assert OutputFileName(t2, f2) == d2 + ("_output_" + f2);
    if InputFileName(t1, f1) == InputFileName(t2, f2) {
      DigitPrefixUnique(d1, "_input_" + f1, d2, "_input_" + f2);
      DecimalRoundTrip(t1);
      DecimalRoundTrip(t2);
      assert f1 == ("_input_" + f1)[7..];
      assert f2 == ("_input_" + f2)[7..];
    }
    if OutputFileName(t1, f1) == OutputFileName(t2, f2) {
      DigitPrefixUnique(d1, "_output_" + f1, d2, "_output_" + f2);
      DecimalRoundTrip(t1);
      DecimalRoundTrip(t2);
      assert f1 == ("_output_" + f1)[8..];
      assert f2 == ("_output_" + f2)[8..];
    }
    if InputFileName(t1, f1) == OutputFileName(t2, f2) {
      DigitPrefixUnique(d1, "_input_" + f1, d2, "_output_" + f2);
      assert ("_input_" + f1)[1] == ("_output_" + f2)[1];
    }
    assert TempPath(InputFileName(t1, f1))[|TempDir| + 1..] == InputFileName(t1, f1);
    assert TempPath(OutputFileName(t2, f2))[|TempDir| + 1..] == OutputFileName(t2, f2);
  }

  /** The argument vector handed to `ProcessBuilder`. */
  function Command(op: Domain.Operation, mode: Domain.EncryptionMode, key: string,
                   timestamp: nat, fileName: string): (argv: seq<string>)
    ensures |argv| == 6 && argv[0] == ProcessorPath && argv[3] == key
    ensures argv[1] == "encrypt" <==> op == Domain.Encrypt
    ensures argv[1] == "decrypt" <==> op == Domain.Decrypt
    ensures argv[2] == "ECB" <==> mode == Domain.AesEcb
    ensures argv[2] == "CBC" <==> mode == Domain.AesCbc
    ensures argv[4] == TempPath(InputFileName(timestamp, fileName))
    ensures argv[5] == TempPath(OutputFileName(timestamp, fileName))
    ensures argv[4] != argv[5]
  {
    TempNamesDistinct(timestamp, fileName, timestamp, fileName);
    [ ProcessorPath, OperationArgument(op), ModeArgument(mode), key,
      TempPath(InputFileName(timestamp, fileName)), TempPath(OutputFileName(timestamp, fileName)) ]
  }

  /** How the attempt went, as far as the service can observe it once the
      call returns. A child whose output never reaches end of file has no
      outcome: the call never returns (see `DrainThenWait`). */
  datatype Outcome =
      /** Creating the directory or writing the input file threw. */
    | SetupFailed(reason: string)
      /** The input file was written but the process could not be started. */
    | StartFailed(reason: string)
      /** The child's output reached end of file, and 60 seconds after that
          the child was still running and was killed; `outputFile` is what
          the output path held then, if anything. */
    | TimedOut(outputFile: Option<Bytes>)
      /** The process ended with `exitCode`, printing `output` (standard
          output and error merged), and left `outputFile` at the output path
          if it created one. */
    | Exited(exitCode: int, output: seq<string>, outputFile: Option<Bytes>)

  /** How a started child behaves, in seconds from its start: when its
      merged output reaches end of file (`None`: never, because it, or a
      process it left holding the pipe, keeps it open), when it exits
      (`None`: never), and what it prints, returns and leaves at the
      output path. */
  datatype Child = Child(outputClosedAt: Option<nat>, exitsAt: Option<nat>,
                         exitCode: int, output: seq<string>, outputFile: Option<Bytes>)

  /** The child ends within `seconds` seconds of `from`. */
  predicate ExitsBy(child: Child, from: nat, seconds: nat) {
    child.exitsAt.Some? && child.exitsAt.value <= from + seconds
  }

  /** As written: the output is read line by line until end of file, and
      only then does `waitFor(60, SECONDS)` start, so the 60 seconds count
      from the end of the output, not from the start. `None` is a call that
      never returns: the worker stays blocked in `readLine` and the child is
      never killed. */
  function DrainThenWait(child: Child): (o: Option<Outcome>)
    ensures o.None? <==> child.outputClosedAt.None?
    ensures o.Some? ==> o.value.TimedOut? || o.value.Exited?
    ensures o.Some? && o.value.TimedOut? <==>
      child.outputClosedAt.Some? && !ExitsBy(child, child.outputClosedAt.value, TimeoutSeconds)
    ensures o.Some? && o.value.Exited? ==> o.value == Exited(child.exitCode, child.output, child.outputFile)
  {
    match child.outputClosedAt
    case None => None
    case Some(eof) =>
      if ExitsBy(child, eof, TimeoutSeconds) then Some(Exited(child.exitCode, child.output, child.outputFile))
      else Some(TimedOut(child.outputFile))
  }

  /** The evidently intended bound: every child is killed unless it exits
      within 60 seconds of its start, whatever it does with its output. */
  function BoundedWait(child: Child): (o: Outcome)
    ensures o.TimedOut? <==> !ExitsBy(child, 0, TimeoutSeconds)
    ensures o.Exited? <==> ExitsBy(child, 0, TimeoutSeconds)
    ensures o.Exited? ==> o == Exited(child.exitCode, child.output, child.outputFile)
    ensures o.TimedOut? ==> o.outputFile == child.outputFile
  {
    if ExitsBy(child, 0, TimeoutSeconds) then Exited(child.exitCode, child.output, child.outputFile)
    else TimedOut(child.outputFile)
  }

  /** A child that never closes its output and never exits: as written the
      call never returns and nothing kills the child; with the bounded wait
      it is killed and reported as timed out. A child that closes its
      output at 50 seconds and exits at 100 runs unchecked past the limit
      and is reported as a normal exit. */
  lemma HungChildNeverKilled()
    ensures DrainThenWait(Child(None, None, 0, [], None)) == None
    ensures BoundedWait(Child(None, None, 0, [], None)) == TimedOut(None)
    ensures DrainThenWait(Child(Some(50), Some(100), 0, [], None)) == Some(Exited(0, [], None))
    ensures BoundedWait(Child(Some(50), Some(100), 0, [], None)) == TimedOut(None)
  {
  }

  /** For a child whose output closes when it exits, the code as written and
      the bounded wait report the same outcome exactly when the child exits
      within the limit. */
  lemma WaitsAgree(child: Child)
    requires child.outputClosedAt == child.exitsAt
    ensures DrainThenWait(child) == Some(BoundedWait(child)) <==> ExitsBy(child, 0, TimeoutSeconds)
  {
  }

  /** The result the caller receives, whether the process was killed, and
      the temporary files left in /tmp/crypto afterwards. */
  datatype Execution = Execution(result: Result<Bytes, string>, killed: bool, leftovers: map<string, Bytes>)

  /** The captured output: every line followed by a newline. */
  function CapturedOutput(lines: seq<string>): (s: string)
    ensures |lines| > 0 ==> EndsWith(s, "\n")
    ensures |lines| == 1 ==> s == lines[0] + "\n"
  {
    if |lines| == 0 then "" else CapturedOutput(lines[..|lines| - 1]) + lines[|lines| - 1] + "\n"
  }

  /** Capturing is line by line: the output of two runs of lines is the
      output of the first followed by that of the second, so every line
      appears once, in order, with its own newline. */
  lemma {:induction false} CapturedOutputConcat(a: seq<string>, b: seq<string>)
    ensures CapturedOutput(a + b) == CapturedOutput(a) + CapturedOutput(b)
    decreases |b|
  {
    if |b| == 0 {
      assert a + b == a;
    } else {
      var init := b[..|b| - 1];
      var last := b[|b| - 1];
      CapturedOutputConcat(a, init);
      assert (a + b)[..|a + b| - 1] == a + init;
      assert (a + b)[|a + b| - 1] == last;
      var x, y := CapturedOutput(a), CapturedOutput(init);
      assert CapturedOutput(a + b) == (x + y) + last + "\n";
      AppendLine(x, y, last);
    }
  }

  lemma AppendLine(x: string, y: string, line: string)
    ensures (x + y) + line + "\n" == x + (y + line + "\n")
  {
  }

  /** The value `processImage` returns, or the message of the exception it
      throws, for a run that ended as `outcome`. */
  function Verdict(outcome: Outcome, outputPath: string): (r: Result<Bytes, string>)
    ensures r.Err? ==> StartsWith(r.error, FailurePrefix)
    ensures r.Ok? <==> outcome.Exited? && outcome.exitCode == 0 && outcome.outputFile.Some?
    ensures r.Ok? ==> r.value == outcome.outputFile.value
    ensures outcome.TimedOut? ==> r == Err(FailurePrefix + TimeoutMessage)
    ensures outcome.Exited? && outcome.exitCode != 0 ==> r.Err? && EndsWith(r.error, CapturedOutput(outcome.output))
  {
    match outcome
    case SetupFailed(reason) =>
      ConcatAffixes(FailurePrefix, reason);
      Err(FailurePrefix + reason)
    case StartFailed(reason) =>
      ConcatAffixes(FailurePrefix, reason);
      Err(FailurePrefix + reason)
    case TimedOut(_) =>
      ConcatAffixes(FailurePrefix, TimeoutMessage);
      Err(FailurePrefix + TimeoutMessage)
    case Exited(code, lines, out) =>
      if code != 0 then
        var head := ExitCodeMessage + IntToDecimal(code) + ": ";
        var captured := CapturedOutput(lines);
        ConcatAffixes(FailurePrefix, head + captured);
        EndsWithConcat(FailurePrefix + (head + captured), head, captured);
        Err(FailurePrefix + (head + captured))
      else if out.None? then
        var message := MissingOutputMessage + outputPath;
        ConcatAffixes(FailurePrefix, message);
        Err(FailurePrefix + message)
      else
        Ok(out.value)
  }

  /** The temporary files left once the call returns: none after a setup
      failure or a success; otherwise the input file, plus the output file
      when the process made one. */
  function Leftovers(outcome: Outcome, succeeded: bool, inputPath: string, imageData: Bytes,
                     outputPath: string): (r: map<string, Bytes>)
    requires inputPath != outputPath
    ensures r == map[] <==> succeeded || outcome.SetupFailed?
    ensures !succeeded && !outcome.SetupFailed? ==> inputPath in r && r[inputPath] == imageData
    ensures forall p | p in r :: p == inputPath || p == outputPath
  {
    var written := map[inputPath := imageData];
    assert inputPath in written;
    if succeeded || outcome.SetupFailed? then map[]
    else match outcome
      case TimedOut(out) => Leave(written, outputPath, out)
      case Exited(_, _, out) => Leave(written, outputPath, out)
      case _ => written
  }

  /** `processImage`. Temporary files are deleted only on success: every
      failure after the input file was written leaves it, and any output
      file, behind. */
  function Execute(imageData: Bytes, key: string, op: Domain.Operation, mode: Domain.EncryptionMode,
                   fileName: string, timestamp: nat, outcome: Outcome): (e: Execution)
    ensures e.result.Err? ==> StartsWith(e.result.error, FailurePrefix)
    ensures e.killed <==> outcome.TimedOut?
    ensures e.result.Ok? <==> outcome.Exited? && outcome.exitCode == 0 && outcome.outputFile.Some?
    ensures e.result.Ok? ==> e.result.value == outcome.outputFile.value
    ensures outcome.TimedOut? ==> e.result == Err(FailurePrefix + TimeoutMessage)
    ensures outcome.Exited? && outcome.exitCode != 0 ==>
      e.result.Err? && EndsWith(e.result.error, CapturedOutput(outcome.output))
    ensures e.leftovers == map[] <==> e.result.Ok? || outcome.SetupFailed?
    ensures e.result.Err? && !outcome.SetupFailed? ==>
      && TempPath(InputFileName(timestamp, fileName)) in e.leftovers
      && e.leftovers[TempPath(InputFileName(timestamp, fileName))] == imageData
    ensures forall p | p in e.leftovers ::
      p == TempPath(InputFileName(timestamp, fileName)) || p == TempPath(OutputFileName(timestamp, fileName))
  {
    var inputPath := TempPath(InputFileName(timestamp, fileName));
    var outputPath := TempPath(OutputFileName(timestamp, fileName));
    TempNamesDistinct(timestamp, fileName, timestamp, fileName);
    var result := Verdict(outcome, outputPath);
    Execution(result, outcome.TimedOut?, Leftovers(outcome, result.Ok?, inputPath, imageData, outputPath))
  }

  /** `files` together with the output file, if one exists. */
  function Leave(files: map<string, Bytes>, outputPath: string, out: Option<Bytes>): (r: map<string, Bytes>)
    ensures forall p | p in files && p != outputPath :: p in r && r[p] == files[p]
    ensures r.Keys == files.Keys + (if out.Some? then {outputPath} else {})
  {
    if out.Some? then files[outputPath := out.value] else files
  }
}
