/** The `crypto_processor` command line (crypto/src/main.cpp): argument
    checks in order, then `processImage`, whose result decides the exit
    status. Arguments are the raw bytes of each C string, `argv[0]` first.
    Only rank 0 of an MPI launch is modelled. */
module Cli {
  import opened Prelude
  import CryptoEngine
  import ImageProcessor

  const EncryptArg: Bytes := AsciiBytes("encrypt")
  const DecryptArg: Bytes := AsciiBytes("decrypt")
  const EcbArg: Bytes := AsciiBytes("ECB")
  const CbcArg: Bytes := AsciiBytes("CBC")

  const MinKeyLength: nat := 16
  const MaxKeyLength: nat := 32

  /** The first check that rejected the arguments. */
  datatype UsageError = WrongArgumentCount | BadOperation | BadMode | BadKeyLength

  datatype Command = Command(
    op: CryptoEngine.Operation,
    mode: CryptoEngine.CryptoMode,
    key: Bytes,
    inputFile: Bytes,
    outputFile: Bytes)

  /** The checks `main` makes: exactly five arguments after the program
      name, an operation of `encrypt` or `decrypt`, a mode of `ECB` or `CBC`
      (case-sensitive), and a key of 16 to 32 bytes. */
  function ParseArgs(argv: seq<Bytes>): (r: Result<Command, UsageError>)
    ensures r == Err(WrongArgumentCount) <==> |argv| != 6
    ensures r == Err(BadOperation) <==> |argv| == 6 && argv[1] != EncryptArg && argv[1] != DecryptArg
    ensures r == Err(BadMode) <==>
      |argv| == 6 && (argv[1] == EncryptArg || argv[1] == DecryptArg) && argv[2] != EcbArg && argv[2] != CbcArg
    ensures r == Err(BadKeyLength) <==>
      && |argv| == 6 && (argv[1] == EncryptArg || argv[1] == DecryptArg) && (argv[2] == EcbArg || argv[2] == CbcArg)
      && !(MinKeyLength <= |argv[3]| <= MaxKeyLength)
    ensures r.Ok? ==>
      && |argv| == 6
      && (r.value.op == CryptoEngine.Encrypt <==> argv[1] == EncryptArg)
      && (r.value.op == CryptoEngine.Decrypt <==> argv[1] == DecryptArg)
      && (r.value.mode == CryptoEngine.AesEcb <==> argv[2] == EcbArg)
      && (r.value.mode == CryptoEngine.AesCbc <==> argv[2] == CbcArg)
      && MinKeyLength <= |r.value.key| <= MaxKeyLength
      && r.value.key == argv[3] && r.value.inputFile == argv[4] && r.value.outputFile == argv[5]
  {
    assert EncryptArg != DecryptArg by { assert EncryptArg[0] != DecryptArg[0]; }
    assert EcbArg != CbcArg by { assert EcbArg[0] != CbcArg[0]; }
    if |argv| != 6 then Err(WrongArgumentCount)
    else
      var op :=
        if argv[1] == EncryptArg then Some(CryptoEngine.Encrypt)
        else if argv[1] == DecryptArg then Some(CryptoEngine.Decrypt)
        else None;
      var mode :=
        if argv[2] == EcbArg then Some(CryptoEngine.AesEcb)
        else if argv[2] == CbcArg then Some(CryptoEngine.AesCbc)
        else None;
      if op.None? then Err(BadOperation)
      else if mode.None? then Err(BadMode)
      else if |argv[3]| < MinKeyLength || |argv[3]| > MaxKeyLength then Err(BadKeyLength)
      else Ok(Command(op.value, mode.value, argv[3], argv[4], argv[5]))
  }

  /** The argument vector that `ParseArgs` reads back as `cmd`. */
  function Render(program: Bytes, cmd: Command): (argv: seq<Bytes>)
    ensures |argv| == 6 && argv[0] == program && argv[3] == cmd.key
    ensures argv[4] == cmd.inputFile && argv[5] == cmd.outputFile
    ensures argv[1] == EncryptArg <==> cmd.op == CryptoEngine.Encrypt
    ensures argv[1] == DecryptArg <==> cmd.op == CryptoEngine.Decrypt
    ensures argv[2] == EcbArg <==> cmd.mode == CryptoEngine.AesEcb
    ensures argv[2] == CbcArg <==> cmd.mode == CryptoEngine.AesCbc
  {
    assert EncryptArg != DecryptArg by { assert EncryptArg[0] != DecryptArg[0]; }
    assert EcbArg != CbcArg by { assert EcbArg[0] != CbcArg[0]; }
    [ program,
      if cmd.op == CryptoEngine.Encrypt then EncryptArg else DecryptArg,
      if cmd.mode == CryptoEngine.AesEcb then EcbArg else CbcArg,
      cmd.key, cmd.inputFile, cmd.outputFile ]
  }

  /** Every command with a key of acceptable length survives the round trip
      through its argument vector. */
  lemma ParseRender(program: Bytes, cmd: Command)
    requires MinKeyLength <= |cmd.key| <= MaxKeyLength
    ensures ParseArgs(Render(program, cmd)) == Ok(cmd)
  {
    assert EncryptArg != DecryptArg by { assert EncryptArg[0] != DecryptArg[0]; }
    assert EcbArg != CbcArg by { assert EcbArg[0] != CbcArg[0]; }
  }

  /** The process's exit status and the files afterwards. */
  datatype Exit = Exit(status: int, files: map<Bytes, Bytes>)

  /** `main`: 1 on a usage error, with no file touched; otherwise 0 exactly
      when `processImage` succeeds. `iv` is the IV a "CBC" encryption draws,
      and `write` how writing the output file goes. */
  function Run(argv: seq<Bytes>, files: map<Bytes, Bytes>, c: CryptoEngine.BlockCipher,
               iv: CryptoEngine.Block, write: ImageProcessor.WriteOutcome): (e: Exit)
    ensures e.status == 0 || e.status == 1
    ensures ParseArgs(argv).Err? ==> e == Exit(1, files)
    ensures e.status == 0 <==>
      && ParseArgs(argv).Ok?
      && var cmd := ParseArgs(argv).value;
         ImageProcessor.ProcessImage(files, cmd.inputFile, cmd.outputFile, cmd.key, cmd.mode, cmd.op, c, iv, write).success
    ensures e.files != files ==>
      && ParseArgs(argv).Ok? && !write.OpenFailed?
      && var cmd := ParseArgs(argv).value;
         && cmd.outputFile in e.files && e.files == files[cmd.outputFile := e.files[cmd.outputFile]]
    ensures e.status == 1 && e.files != files ==> write.StreamFailed?
    ensures e.status == 0 ==>
      var cmd := ParseArgs(argv).value;
      var out := ImageProcessor.TransformFile(ImageProcessor.ReadFile(files, cmd.inputFile), cmd.key, cmd.mode, cmd.op, c, iv);
      && out.Ok?
      && cmd.outputFile in e.files
      && e.files == files[cmd.outputFile := e.files[cmd.outputFile]]
      && |e.files[cmd.outputFile]| <= |out.value|
      && e.files[cmd.outputFile] == out.value[..|e.files[cmd.outputFile]|]
      && (write.Written? ==> e.files[cmd.outputFile] == out.value)
  {
    match ParseArgs(argv)
    case Err(_) => Exit(1, files)
    case Ok(cmd) =>
      var run := ImageProcessor.ProcessImage(files, cmd.inputFile, cmd.outputFile, cmd.key, cmd.mode, cmd.op, c, iv, write);
      Exit(if run.success then 0 else 1, run.files)
  }
}
