/** How the two layers meet. The worker's command line is what the native
    processor parses. The mode text accepted at the API survives the trip
    through the enum. The bytes the worker stores are the native transform
    of the upload. Java strings reach the native side as their bytes; only
    ASCII text is modelled, where each character is one byte. */
module Pipeline {
  import opened Prelude
  import opened Text
  import Domain
  import CryptoEngine
  import ImageProcessor
  import Cli
  import BmpValidator
  import ImageRequest
  import CryptoService
  import Consumer
  import ResultStore
  import ImageService
  import Http

  function NativeOperation(op: Domain.Operation): CryptoEngine.Operation {
    match op
    case Encrypt => CryptoEngine.Encrypt
    case Decrypt => CryptoEngine.Decrypt
  }

  function NativeMode(mode: Domain.EncryptionMode): CryptoEngine.CryptoMode {
    match mode
    case AesEcb => CryptoEngine.AesEcb
    case AesCbc => CryptoEngine.AesCbc
  }

  predicate AllAscii(argv: seq<string>) {
    forall i | 0 <= i < |argv| :: IsAscii(argv[i])
  }

  /** The argument bytes the native process receives. */
  function NativeArgv(argv: seq<string>): (r: seq<Bytes>)
    requires AllAscii(argv)
    ensures |r| == |argv|
    ensures forall i | 0 <= i < |argv| :: r[i] == AsciiBytes(argv[i])
  {
    seq(|argv|, i requires 0 <= i < |argv| => AsciiBytes(argv[i]))
  }

  lemma AsciiConcat(a: string, b: string)
    requires IsAscii(a) && IsAscii(b)
    ensures IsAscii(a + b)
  {
    assert forall i | 0 <= i < |a + b| :: (a + b)[i] == if i < |a| then a[i] else b[i - |a|];
  }

  /** Temporary paths are ASCII whenever the file name is. */
  lemma TempPathsAscii(timestamp: nat, fileName: string)
    requires IsAscii(fileName)
    ensures IsAscii(CryptoService.TempPath(CryptoService.InputFileName(timestamp, fileName)))
    ensures IsAscii(CryptoService.TempPath(CryptoService.OutputFileName(timestamp, fileName)))
  {
    var digits := NatToDecimal(timestamp);
    assert IsAscii(digits);
    AsciiConcat(digits, "_input_");
    AsciiConcat(digits + "_input_", fileName);
    AsciiConcat(digits, "_output_");
    AsciiConcat(digits + "_output_", fileName);
    AsciiConcat(CryptoService.TempDir, "/");
    AsciiConcat(CryptoService.TempDir + "/", CryptoService.InputFileName(timestamp, fileName));
    AsciiConcat(CryptoService.TempDir + "/", CryptoService.OutputFileName(timestamp, fileName));
  }

  lemma CommandAscii(op: Domain.Operation, mode: Domain.EncryptionMode, key: string,
                     timestamp: nat, fileName: string)
    requires IsAscii(key) && IsAscii(fileName)
    ensures AllAscii(CryptoService.Command(op, mode, key, timestamp, fileName))
  {
    TempPathsAscii(timestamp, fileName);
    var argv := CryptoService.Command(op, mode, key, timestamp, fileName);
    var input := CryptoService.TempPath(CryptoService.InputFileName(timestamp, fileName));
    var output := CryptoService.TempPath(CryptoService.OutputFileName(timestamp, fileName));
    assert argv[4] == input && argv[5] == output;
    assert IsAscii(argv[0]) by { assert argv[0] == CryptoService.ProcessorPath; }
    assert IsAscii(argv[1]) by { assert argv[1] == "encrypt" || argv[1] == "decrypt"; }
    assert IsAscii(argv[2]) by { assert argv[2] == "ECB" || argv[2] == "CBC"; }
    forall i | 0 <= i < |argv| ensures IsAscii(argv[i]) {
      assert i == 0 || i == 1 || i == 2 || i == 3 || i == 4 || i == 5;
    }
  }

  /** The mode text accepted at the API and the mode argument handed to
      the processor are the same string: `extractModeFromEnum` inverts
      `getEncryptionMode` on valid input, and the converse holds for every
      enum constant. */
  lemma ModeTextRoundTrip(mode: Domain.EncryptionMode, text: string)
    ensures ImageRequest.GetEncryptionMode(CryptoService.ModeArgument(mode)) == Some(mode)
    ensures text == "ECB" || text == "CBC" ==>
      && ImageRequest.GetEncryptionMode(text).Some?
      && CryptoService.ModeArgument(ImageRequest.GetEncryptionMode(text).value) == text
  {
    assert ToUpper("ECB") == "ECB";
    assert ToUpper("CBC") == "CBC";
  }

  /** The worker's argument bytes are the rendering of the native command
      they name. */
  lemma RenderedCommand(op: Domain.Operation, mode: Domain.EncryptionMode, key: string,
                        timestamp: nat, fileName: string)
    requires AllAscii(CryptoService.Command(op, mode, key, timestamp, fileName))
    ensures
      var argv := CryptoService.Command(op, mode, key, timestamp, fileName);
      NativeArgv(argv) == Cli.Render(AsciiBytes(argv[0]),
        Cli.Command(NativeOperation(op), NativeMode(mode), AsciiBytes(key), AsciiBytes(argv[4]), AsciiBytes(argv[5])))
  {
    var argv := CryptoService.Command(op, mode, key, timestamp, fileName);
    var native := NativeArgv(argv);
    var rendered := Cli.Render(AsciiBytes(argv[0]),
      Cli.Command(NativeOperation(op), NativeMode(mode), AsciiBytes(key), AsciiBytes(argv[4]), AsciiBytes(argv[5])));
    assert native[1] == rendered[1] by {
      if op == Domain.Encrypt { assert argv[1] == "encrypt"; } else { assert argv[1] == "decrypt"; }
    }
    assert native[2] == rendered[2] by {
      if mode == Domain.AesEcb { assert argv[2] == "ECB"; } else { assert argv[2] == "CBC"; }
    }
    assert native[0] == rendered[0] && native[3] == rendered[3];
    assert native[4] == rendered[4] && native[5] == rendered[5];
  }

  /** The worker's command passes every check of the native `main` and is
      read back as the same operation, mode, key and paths, provided the key
      and the work file name are ASCII and the key's length passed the API's
      check. */
  lemma CommandAcceptedNatively(op: Domain.Operation, mode: Domain.EncryptionMode, key: string,
                                timestamp: nat, fileName: string)
    requires IsAscii(key) && IsAscii(fileName)
    requires ImageRequest.MinKeyLength <= Utf16Length(key) <= ImageRequest.MaxKeyLength
    ensures AllAscii(CryptoService.Command(op, mode, key, timestamp, fileName))
    ensures
      var argv := CryptoService.Command(op, mode, key, timestamp, fileName);
      Cli.ParseArgs(NativeArgv(argv)) ==
        Ok(Cli.Command(NativeOperation(op), NativeMode(mode), AsciiBytes(key), AsciiBytes(argv[4]), AsciiBytes(argv[5])))
  {
    var argv := CryptoService.Command(op, mode, key, timestamp, fileName);
    CommandAscii(op, mode, key, timestamp, fileName);
    AsciiUtf16Length(key);
    var cmd := Cli.Command(NativeOperation(op), NativeMode(mode), AsciiBytes(key), AsciiBytes(argv[4]), AsciiBytes(argv[5]));
    RenderedCommand(op, mode, key, timestamp, fileName);
    Cli.ParseRender(AsciiBytes(argv[0]), cmd);
  }

  /** The outcome the worker observes when the native `main` runs on the
      command over `files` with the input file written: its exit status,
      its printed lines, and the output file if there is one. */
  function NativeOutcome(job: Domain.Job, timestamp: nat, files: map<Bytes, Bytes>,
                         c: CryptoEngine.BlockCipher, iv: CryptoEngine.Block, write: ImageProcessor.WriteOutcome,
                         lines: seq<string>): CryptoService.Outcome
    requires IsAscii(job.symmetricKey) && IsAscii(Consumer.WorkFileName(job))
  {
    var fileName := Consumer.WorkFileName(job);
    var argv := CryptoService.Command(job.operation, job.encryptionMode, job.symmetricKey, timestamp, fileName);
    CommandAscii(job.operation, job.encryptionMode, job.symmetricKey, timestamp, fileName);
    var input := AsciiBytes(argv[4]);
    var output := AsciiBytes(argv[5]);
    var exit := Cli.Run(NativeArgv(argv), files[input := job.imageData], c, iv, write);
    CryptoService.Exited(exit.status, lines, if output in exit.files then Some(exit.files[output]) else None)
  }

  /** When the uploaded image is one the native processor accepts and the
      output can be written, the worker's result is exactly the native
      transform of the uploaded bytes. */
  lemma WorkerReturnsNativeTransform(job: Domain.Job, timestamp: nat, files: map<Bytes, Bytes>,
                                     c: CryptoEngine.BlockCipher, iv: CryptoEngine.Block, lines: seq<string>)
    requires IsAscii(job.symmetricKey) && IsAscii(Consumer.WorkFileName(job))
    requires ImageRequest.MinKeyLength <= Utf16Length(job.symmetricKey) <= ImageRequest.MaxKeyLength
    requires ImageProcessor.TransformFile(job.imageData, AsciiBytes(job.symmetricKey),
               NativeMode(job.encryptionMode), NativeOperation(job.operation), c, iv).Ok?
    ensures CryptoService.Execute(job.imageData, job.symmetricKey, job.operation, job.encryptionMode,
              Consumer.WorkFileName(job), timestamp, NativeOutcome(job, timestamp, files, c, iv, ImageProcessor.Written, lines)).result
      == Ok(ImageProcessor.TransformFile(job.imageData, AsciiBytes(job.symmetricKey),
              NativeMode(job.encryptionMode), NativeOperation(job.operation), c, iv).value)
  {
    NativeRunSucceeds(job, timestamp, files, c, iv, lines);
  }

  /** Under the same conditions the native process exits 0 and leaves the
      transform at the output path. */
  lemma NativeRunSucceeds(job: Domain.Job, timestamp: nat, files: map<Bytes, Bytes>,
                          c: CryptoEngine.BlockCipher, iv: CryptoEngine.Block, lines: seq<string>)
    requires IsAscii(job.symmetricKey) && IsAscii(Consumer.WorkFileName(job))
    requires ImageRequest.MinKeyLength <= Utf16Length(job.symmetricKey) <= ImageRequest.MaxKeyLength
    requires ImageProcessor.TransformFile(job.imageData, AsciiBytes(job.symmetricKey),
               NativeMode(job.encryptionMode), NativeOperation(job.operation), c, iv).Ok?
    ensures NativeOutcome(job, timestamp, files, c, iv, ImageProcessor.Written, lines)
      == CryptoService.Exited(0, lines, Some(ImageProcessor.TransformFile(job.imageData, AsciiBytes(job.symmetricKey),
              NativeMode(job.encryptionMode), NativeOperation(job.operation), c, iv).value))
  {
    var fileName := Consumer.WorkFileName(job);
    CommandAcceptedNatively(job.operation, job.encryptionMode, job.symmetricKey, timestamp, fileName);
    var argv := CryptoService.Command(job.operation, job.encryptionMode, job.symmetricKey, timestamp, fileName);
    var input := AsciiBytes(argv[4]);
    assert ImageProcessor.ReadFile(files[input := job.imageData], input) == job.imageData;
  }

  /** An upload that passes validation has an extension that lower-cases
      to ".bmp", so the worker's temporary files keep it. */
  lemma AcceptedUploadExtension(req: ImageRequest.Request)
    requires ImageRequest.IsValid(req)
    ensures ToLower(Consumer.Extension(req.file.value.originalFilename)) == ".bmp"
  {
    var name := req.file.value.originalFilename.value;
    LowerBmpSuffix(name);
    var suffix := name[|name| - 4..];
    assert '.' in name by { assert name[|name| - 4] == suffix[0]; }
    Consumer.ExtensionUnique(name, suffix);
  }

  /** A name that lower-cases to something ending in ".bmp" ends in a '.'
      followed by three letters, none of them a '.'. */
  lemma LowerBmpSuffix(name: string)
    requires EndsWith(ToLower(name), ".bmp")
    ensures |name| >= 4
    ensures var suffix := name[|name| - 4..];
      suffix[0] == '.' && '.' !in suffix[1..] && EndsWith(name, suffix) && ToLower(suffix) == ".bmp"
  {
    var j := |name| - 4;
    var suffix := name[j..];
    assert ToLower(name)[j..] == ".bmp";
    forall i | 0 <= i < 4 ensures LowerChar(suffix[i]) == ".bmp"[i] {
      assert ToLower(name)[j + i] == ".bmp"[i];
    }
    assert ToLower(suffix) == ".bmp";
    assert suffix[0] == '.';
    assert '.' !in suffix[1..] by {
      forall i | 0 <= i < |suffix[1..]| ensures suffix[1..][i] != '.' {
        assert LowerChar(suffix[i + 1]) == ".bmp"[i + 1];
      }
    }
  }

  /** An accepted POST followed by a successful run of its job leaves the
      job's record in the store, under the id the client received, with the
      endpoint's operation name and the request mode's constant name. */
  lemma AcceptedJobIsStored(endpoint: Http.Endpoint, req: ImageRequest.Request, freshId: Domain.Uuid,
                            queue: seq<Domain.Job>, store: ResultStore.Store,
                            timestamp: nat, now: int, outcome: CryptoService.Outcome)
    requires Http.Post(endpoint, req, freshId, ImageService.Published, queue).response.status == 200
    requires Consumer.Succeeds(outcome)
    ensures
      var posted := Http.Post(endpoint, req, freshId, ImageService.Published, queue);
      var after := Consumer.Consume(store, posted.queue[|queue|], timestamp, now, outcome);
      && posted.response.body == Http.IdBody(freshId)
      && freshId.text in after
      && after[freshId.text] == ResultStore.ProcessedImage(
           freshId.text, req.file.value.originalFilename, outcome.outputFile.value,
           Domain.OperationName(Http.EndpointOperation(endpoint)),
           Domain.ModeName(ImageRequest.GetEncryptionMode(req.mode.value).value), now)
      && after[freshId.text].imageName.Some?
  {
  }
}
