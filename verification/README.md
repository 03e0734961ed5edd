# cryptoflow, modelled in Dafny

cryptoflow encrypts and decrypts BMP images. A Spring backend validates an
upload (`POST /images/encrypt` or `/images/decrypt` with a file, a 16–32
character key and the mode `ECB` or `CBC`). It publishes a job to a queue and
answers with the job's UUID. A worker takes the job and writes the image to a
temporary file. It then runs the native `crypto_processor` on that file and
stores the output bytes as a `ProcessedImage` record. `GET /images/processed`
lists the records.

The native processor reads the 54-byte BMP header and checks the "BM"
signature. It keeps the bytes before `dataOffset` and runs AES-256 over the
pixel data. It pads the data itself, with PKCS#7-style padding. Its "CBC"
mode is not chained: every 16-byte block is encrypted as
`AES(key, block XOR IV)` with the same IV, and the IV is written in front of
the ciphertext.

The model follows both layers:

| module | file | what it holds |
|---|---|---|
| `Prelude` | prelude.dfy | bytes, `Option`/`Result`, ASCII encoding, bitwise XOR on bytes |
| `Text` | text.dfy | decimal rendering, `lastIndexOf`, ASCII case mapping, blank test, UTF-16 length, joining |
| `Padding` | padding.dfy | `padData` and `removePadding` |
| `CryptoEngine` | crypto_engine.dfy | the key buffer, the per-block loop, and `processData` for both operations and modes over an abstract block cipher |
| `BmpHeader` | bmp_header.dfy | the packed little-endian `BMPHeader`: parsing and writing |
| `ImageProcessor` | image_processor.dfy | `processImage`, its file-system effect, and the MPI chunk bounds |
| `Cli` | cli.dfy | the native `main`: argument checks and exit status |
| `Domain` | domain.dfy | `Operation`, `EncryptionMode` and the queued job |
| `BmpValidator` | bmp_validator.dfy | `BMPValidator.isValid` and its messages |
| `ImageRequest` | image_request.dfy | the request's Bean Validation constraints and `getEncryptionMode` |
| `CryptoService` | crypto_service.dfy | the worker's temporary files, its command line and how it classifies the run of the native process |
| `ResultStore` | result_store.dfy | the `processed_images` table: `save` and `findAll` |
| `Consumer` | consumer.dfy | `ImageMessageConsumer.processImageMessage` |
| `ImageService` | image_service.dfy | publishing a job and listing results |
| `Http` | http.dfy | the controller's endpoints and the exception handler |
| `Pipeline` | pipeline.dfy | the properties that cross from the Java layer to the native one |

Some things the source gets from outside the program become parameters:

- AES is a pair of functions `BlockCipher(encrypt, decrypt)`. Round trips
  assume only that decryption inverts encryption (`CryptoEngine.Invertible`).
- The random IV, `System.currentTimeMillis`, `LocalDateTime.now` and
  `UUID.randomUUID` are arguments.
- The file system is a map from path to bytes. How the native write of the
  output goes is a `WriteOutcome`: the open fails, the stream fails after
  some bytes, the bytes are lost when the stream is closed, or all are
  written.
- The run of the native process is an `Outcome`: setup failed, start failed,
  timed out, or exited with a code, its printed lines and the output file.
  How a child's timing turns into an outcome is a separate `Child` model.
- Whether reading the upload and publishing the job went through is a
  `Delivery`.

## Model

| member | source | states |
|---|---|---|
| Padding.Pad | crypto/src/crypto_engine.cpp:127-137 | the result is the data followed by n bytes each of value n, with 1 ≤ n ≤ 16, and its length is a multiple of 16 |
| Padding.Unpad | crypto/src/crypto_engine.cpp:139-156 | the result is a prefix of the input, shorter than it exactly when the trailing run is valid padding, and every byte removed equals the number removed (at most 16) |
| Padding.PadThenUnpad | crypto/src/crypto_engine.cpp:127-156 | removing padding undoes padding, for every input |
| CryptoEngine.KeyBuffer | crypto/src/crypto_engine.cpp:16-19 | the 32-byte AES key holds the key's first min(length, 32) bytes, then zeros |
| CryptoEngine.KeyBufferTruncates | crypto/src/crypto_engine.cpp:17-19 | two keys that agree on their first 32 bytes give the same AES key |
| CryptoEngine.KeyBufferInjective | crypto/src/crypto_engine.cpp:17-19 | two keys of at most 32 non-zero bytes that give the same AES key are equal |
| CryptoEngine.XorBlock | crypto/src/crypto_engine.cpp:59-62 | each byte of the result is the XOR of the two blocks' bytes at that index |
| CryptoEngine.XorBlockTwice | crypto/src/crypto_engine.cpp:99-103 | XOR-ing the IV in twice gives back the block, which is how CBC decryption of one block removes the IV |
| CryptoEngine.TransformBlockRoundTrip | crypto/src/crypto_engine.cpp:54-118 | in both modes, decrypting an encrypted block gives back the block |
| CryptoEngine.TransformBlockModes | crypto/src/crypto_engine.cpp:54-118 | ECB ignores the IV; the "CBC" block encryption is the ECB encryption of the block XOR the IV, and its decryption is the ECB decryption XOR the IV |
| CryptoEngine.ProcessBlocks | crypto/src/crypto_engine.cpp:90-118 | the output buffer is exactly as long as the input, as the resize before the loop makes it |
| CryptoEngine.ProcessBlocksBlockwise | crypto/src/crypto_engine.cpp:90-118 | block j of the output is the transform of block j of the input; the bytes of a trailing partial block stay zero |
| CryptoEngine.ProcessBlocksEachBlock | crypto/src/crypto_engine.cpp:93-118 | each whole output block is the block transform of the input block at the same index |
| CryptoEngine.ProcessBlocksZeroTail | crypto/src/crypto_engine.cpp:90-93 | bytes after the last whole block are never written and keep the zero the resize gave them |
| CryptoEngine.ProcessBlocksRoundTrip | crypto/src/crypto_engine.cpp:48-118 | on whole blocks, the decrypt loop undoes the encrypt loop |
| CryptoEngine.EncryptData | crypto/src/crypto_engine.cpp:39-77 | the ciphertext is a multiple of 16 longer than the input: the padded length in ECB, and 16 more in CBC, where it starts with the IV; in ECB block j is the encryption of padded block j, and in CBC block j + 1 is the encryption of padded block j XOR the same IV, with no chaining between blocks |
| CryptoEngine.DecryptBuffer | crypto/src/crypto_engine.cpp:78-118 | fails exactly for CBC input shorter than the 16-byte IV; otherwise the buffer is as long as the input (ECB) or the input without the IV (CBC); in ECB block j is the decryption of input block j, in CBC it is the decryption of input block j + 1 XOR the IV taken from the first 16 input bytes; bytes after the last whole block are zero |
| CryptoEngine.DecryptBufferNeverOverrunsPadding | crypto/src/crypto_engine.cpp:90-149 | a padding value of 1..16 at the end of the decrypted buffer never exceeds the buffer's length, so the check loop never starts before the buffer |
| CryptoEngine.DecryptData | crypto/src/crypto_engine.cpp:78-122 | fails exactly for CBC input shorter than 16 bytes; the plaintext is never longer than the input |
| CryptoEngine.ProcessData | crypto/src/crypto_engine.cpp:9-125 | encryption never fails, grows the data to a multiple of 16 and in CBC puts the fresh IV first; the only failure is short CBC decryption |
| CryptoEngine.EncryptDecryptRoundTrip | crypto/src/crypto_engine.cpp:9-156 | with an invertible cipher, decrypting with the same key and mode gives back the input, in ECB and in CBC |
| BmpHeader.Parse | crypto/src/image_processor.cpp:169-173 | the signature is bytes 0–1 read little-endian, the file size bytes 2–5, the data offset bytes 10–13, and the bits per pixel bytes 28–29 |
| BmpHeader.Encode | crypto/src/image_processor.h:8-25 | the packed header is 54 bytes |
| BmpHeader.WriteHeader | crypto/src/image_processor.cpp:175-177 | writing a header keeps the length and every byte after the first 54 |
| BmpHeader.ParseEncode | crypto/src/image_processor.cpp:169-177 | parsing a written header gives back every field |
| BmpHeader.EncodeParse | crypto/src/image_processor.cpp:169-173 | encoding a parsed header reproduces the first 54 bytes |
| BmpHeader.WriteParsedHeader | crypto/src/image_processor.cpp:169-177 | writing back the header just parsed leaves the file unchanged |
| BmpHeader.U32RoundTrip | crypto/src/image_processor.h:10-13 | a little-endian 32-bit field reads back as the value written |
| BmpHeader.I32RoundTrip | crypto/src/image_processor.h:15-16 | a signed 32-bit field reads back as the value written, negative values included |
| BmpHeader.SignatureIsBM | crypto/src/image_processor.cpp:31-35 | the signature is 0x4D42 exactly when the file starts with 'B', 'M' |
| BmpHeader.SignatureAndOffsetFromPrefix | crypto/src/image_processor.h:8-13 | the signature and the data offset depend only on the first 14 bytes |
| ImageProcessor.TransformFile | crypto/src/image_processor.cpp:15-125 | each failure (empty or unreadable, under 54 bytes, not "BM", offset past the end, `processData` failing) happens exactly when its condition holds and the earlier ones do not; it succeeds exactly when every check passes and `processData` of the pixel data succeeds, and then the bytes before the offset are kept and the rest is that result |
| ImageProcessor.EncryptedFileShape | crypto/src/image_processor.cpp:115-125 | an encrypted file is longer than the original and keeps its header bytes |
| ImageProcessor.EncryptThenDecryptFile | crypto/src/image_processor.cpp:40-125 | if the data offset is at least 14, decrypting an encrypted file gives back the original file |
| ImageProcessor.LowOffsetBreaksRoundTrip | crypto/src/image_processor.cpp:29-44 | a 54-byte "BM" file with data offset 0 encrypts, but decrypting the result fails with "not a BMP", because the encryption overwrote the signature |
| ImageProcessor.TransformFileGuarded | crypto/src/image_processor.cpp:29-44 | a "BM" file whose data offset lies inside the 54-byte header is refused, and exactly those; every other file is processed as before, so a success has its pixel data after the header |
| ImageProcessor.GuardedEncryptThenDecrypt | crypto/src/image_processor.cpp:29-125 | with the offset guard, every file that encrypts decrypts back to itself, with no condition on its header |
| ImageProcessor.ReadFile | crypto/src/image_processor.cpp:143-157 | an existing file reads as its bytes, a missing one as empty |
| ImageProcessor.WriteFile | crypto/src/image_processor.cpp:159-167 | reports success exactly when every byte reached the stream (whether or not the close later loses them); a failed open changes nothing; otherwise the path is truncated and then holds a prefix of the data, no other file changes, and a complete write leaves exactly the data |
| ImageProcessor.FailedWriteTruncates | crypto/src/image_processor.cpp:159-166 | a write that fails on the stream still replaces an existing non-empty output file by an empty one |
| ImageProcessor.ProcessImage | crypto/src/image_processor.cpp:8-141 | it succeeds exactly when the transform succeeds and the write reports success; when the transform fails or the open fails no file changes; otherwise only the output path changes and holds a prefix of the transform, all of it when the write completes |
| ImageProcessor.RoundUpWithin | crypto/src/image_processor.cpp:69-75 | rounds up to a multiple of 16, clipped to the total |
| ImageProcessor.RawChunk | crypto/src/image_processor.cpp:60-63 | rank r starts at r times the chunk size and ends one chunk later, except the last rank, which ends at the total |
| ImageProcessor.AlignAsWritten | crypto/src/image_processor.cpp:65-76 | the start is rounded down to a multiple of 16 by less than 16; the last rank keeps its end; any other rank's end is its raw end rounded up to 16 and clipped to the total |
| ImageProcessor.ChunkSlice | crypto/src/image_processor.cpp:59-76 | as written: the start is the raw start rounded down to 16, the last rank ends at the total, and every other rank ends at its raw end rounded up to 16 and clipped to the total |
| ImageProcessor.ChunkSlicesOverlap | crypto/src/image_processor.cpp:60-76 | when a boundary is not a multiple of 16, the next rank's slice starts before this rank's slice ends |
| ImageProcessor.ChunkOverlapExample | crypto/src/image_processor.cpp:60-76 | 40 bytes on 2 ranks give slices [0, 32) and [16, 40) |
| ImageProcessor.AlignedChunkSlice | crypto/src/image_processor.cpp:60-76 | corrected bounds: both ends rounded down, the first rank starts at 0 and the last ends at the total |
| ImageProcessor.AlignedChunksAdjacent | crypto/src/image_processor.cpp:60-76 | with the corrected bounds each rank's slice ends where the next one starts |
| ImageProcessor.AlignedChunksPartition | crypto/src/image_processor.cpp:87-105 | concatenating the corrected slices of all ranks in rank order gives back the data |
| Cli.ParseArgs | crypto/src/main.cpp:28-75 | wrong count, bad operation, bad mode and bad key length each fail exactly when their check is the first to fail; otherwise the command carries the named operation and mode, the key and both paths |
| Cli.Render | crypto/src/main.cpp:36-40 | the argument vector the native `main` reads: the program, the operation word naming the operation, the mode word naming the mode, the key, and the two paths in their positions |
| Cli.ParseRender | crypto/src/main.cpp:36-75 | every command whose key has 16..32 bytes is read back unchanged from its argument vector |
| Cli.Run | crypto/src/main.cpp:19-102 | the exit status is 0 or 1; a usage error exits 1 with no file touched; 0 exactly when the arguments parse and the image is processed; any file change is to the output path only; status 1 with a changed file happens only when the stream failed; with status 0 the output holds a prefix of the transform, all of it when the write completes |
| Domain.ModeNamed | backend/src/main/java/ro/mihaisturza/cryptoflow/image/ImageProcessingRequest.java:33 | `valueOf` returns a constant whose name is the text, and returns one whenever some constant has that name |
| BmpValidator.FirstViolation | backend/src/main/java/ro/mihaisturza/cryptoflow/image/validation/BMPValidator.java:23-65 | an upload is valid exactly when no check fails; each violation is reported exactly when every earlier check passed and its own fails, with the size, the read error or the first two bytes it reports |
| BmpValidator.Message | backend/src/main/java/ro/mihaisturza/cryptoflow/image/validation/BMPValidator.java:24-63 | each kind of violation gets the source's exact text: the fixed null-or-empty, extension and too-short texts; the size text with the file size and the limit in decimal; the read-failure lead followed by the exception's message; the signature lead followed by the two bytes as characters and a quote |
| BmpValidator.MessageDeterminesKind | backend/src/main/java/ro/mihaisturza/cryptoflow/image/validation/BMPValidator.java:24-63 | two violations with the same message are of the same kind, so the message tells the failing check apart |
| BmpValidator.SignedByteChar | backend/src/main/java/ro/mihaisturza/cryptoflow/image/validation/BMPValidator.java:54-55 | casting a signed byte to char keeps the low 8 bits and stays ASCII exactly for bytes below 0x80 |
| BmpValidator.SizeLimitInclusive | backend/src/main/java/ro/mihaisturza/cryptoflow/image/validation/BMPValidator.java:30-34 | a file of exactly the maximum size passes the size check, and one byte more fails it |
| BmpValidator.ExtensionCaseInsensitive | backend/src/main/java/ro/mihaisturza/cryptoflow/image/validation/BMPValidator.java:37-41 | names that lower-case alike get the same verdict |
| ImageRequest.FileErrors | backend/src/main/java/ro/mihaisturza/cryptoflow/image/ImageProcessingRequest.java:20-22 | no file error exactly when the file is present and a valid BMP; a missing file gets both "File is required" and "File cannot be null or empty" |
| ImageRequest.KeyErrors | backend/src/main/java/ro/mihaisturza/cryptoflow/image/ImageProcessingRequest.java:24-26 | no key error exactly when the key is non-blank with 16..32 UTF-16 units; a blank key is first reported as "Encryption key is required" |
| ImageRequest.ModeErrors | backend/src/main/java/ro/mihaisturza/cryptoflow/image/ImageProcessingRequest.java:28-30 | no mode error exactly when the mode is "ECB" or "CBC" |
| ImageRequest.Validate | backend/src/main/java/ro/mihaisturza/cryptoflow/image/ImageProcessingRequest.java:19-30 | no errors exactly when the request is valid; the key (or mode) field is reported exactly when that field is not acceptable |
| ImageRequest.GetEncryptionMode | backend/src/main/java/ro/mihaisturza/cryptoflow/image/ImageProcessingRequest.java:32-34 | gives AES_ECB exactly when the upper-cased mode is "ECB", AES_CBC exactly when it is "CBC", and nothing otherwise |
| ImageRequest.ValidModeMaps | backend/src/main/java/ro/mihaisturza/cryptoflow/image/ImageProcessingRequest.java:28-34 | on a valid request `getEncryptionMode` returns the constant the mode names |
| ImageRequest.BlankKeyRejected | backend/src/main/java/ro/mihaisturza/cryptoflow/image/ImageProcessingRequest.java:24-26 | an all-space key makes the request invalid and reports "Encryption key is required" |
| CryptoService.ModeArgument | backend/src/main/java/ro/mihaisturza/cryptoflow/crypto/CryptoService.java:105-112 | the argument is the constant's name without its "AES_" prefix |
| CryptoService.OperationArgument | backend/src/main/java/ro/mihaisturza/cryptoflow/crypto/CryptoService.java:44 | the argument is in lower case and upper-cases to the constant's name; it is "encrypt" exactly for ENCRYPT and "decrypt" exactly for DECRYPT |
| CryptoService.TempNamesDistinct | backend/src/main/java/ro/mihaisturza/cryptoflow/crypto/CryptoService.java:32-37 | input names and output names are each determined by, and determine, the timestamp and file name; no input path is ever an output path |
| CryptoService.Command | backend/src/main/java/ro/mihaisturza/cryptoflow/crypto/CryptoService.java:32-54 | six arguments: the processor, "encrypt" or "decrypt" per operation, "ECB" or "CBC" per mode, the key, the input temporary path and the output temporary path for the timestamp and file name, which differ |
| CryptoService.CapturedOutput | backend/src/main/java/ro/mihaisturza/cryptoflow/crypto/CryptoService.java:64-71 | the captured output ends with a newline when there was any line, and is the line and a newline for one line |
| CryptoService.CapturedOutputConcat | backend/src/main/java/ro/mihaisturza/cryptoflow/crypto/CryptoService.java:64-71 | capturing two runs of lines one after the other gives the two captures concatenated, so every line appears once, in order, each followed by a newline |
| CryptoService.DrainThenWait | backend/src/main/java/ro/mihaisturza/cryptoflow/crypto/CryptoService.java:63-78 | as written: no outcome at all while the child's output stays open; once it closes, a timeout exactly when the child has not exited 60 seconds after that, otherwise the child's exit |
| CryptoService.BoundedWait | backend/src/main/java/ro/mihaisturza/cryptoflow/crypto/CryptoService.java:73-78 | the wait bounded from the start: a timeout exactly when the child has not exited within 60 seconds, otherwise the child's exit |
| CryptoService.HungChildNeverKilled | backend/src/main/java/ro/mihaisturza/cryptoflow/crypto/CryptoService.java:63-78 | a child that never closes its output and never exits yields no outcome as written, but a timeout with the bounded wait; a child that closes its output at 50 s and exits at 100 s is accepted as written but timed out by the bounded wait |
| CryptoService.WaitsAgree | backend/src/main/java/ro/mihaisturza/cryptoflow/crypto/CryptoService.java:63-78 | for a child whose output closes when it exits, the written code and the bounded wait agree exactly when the child exits within 60 seconds |
| CryptoService.Verdict | backend/src/main/java/ro/mihaisturza/cryptoflow/crypto/CryptoService.java:74-102 | bytes are returned exactly when the process exits 0 and the output file exists; every other ending raises a message starting with "Failed to process image: ", and a non-zero exit's message ends with the captured output |
| CryptoService.Leftovers | backend/src/main/java/ro/mihaisturza/cryptoflow/crypto/CryptoService.java:39-97 | no temporary file remains after success or a setup failure; otherwise the input file remains with the image bytes, and nothing but the two temporary paths ever does |
| CryptoService.Execute | backend/src/main/java/ro/mihaisturza/cryptoflow/crypto/CryptoService.java:26-103 | the result is the output file exactly when the process exits 0 and the file exists; every failure message starts with "Failed to process image: "; the process is killed exactly on timeout; temporary files are left behind exactly on a failure after setup, and the input file is among them |
| ResultStore.Save | backend/src/main/java/ro/mihaisturza/cryptoflow/consumer/ProcessedImage.java:19-35 | a record with a null name is refused; otherwise it is stored under its id, replacing any previous one, and no other record changes |
| ResultStore.SaveKeepsKeying | backend/src/main/java/ro/mihaisturza/cryptoflow/consumer/ProcessedImage.java:19-20 | a store keyed by id stays keyed by id |
| ResultStore.SaveIdempotent | backend/src/main/java/ro/mihaisturza/cryptoflow/consumer/ImageMessageConsumer.java:56 | saving the same record twice is the same as saving it once |
| ResultStore.SaveLastWins | backend/src/main/java/ro/mihaisturza/cryptoflow/consumer/ImageMessageConsumer.java:56 | of two records saved under one id, the later one is what remains |
| ResultStore.FindAll | backend/src/main/java/ro/mihaisturza/cryptoflow/image/ImageService.java:47-49 | the list has one entry per stored record: every record is in it, everything in it is stored, and no id repeats |
| Text.NatToDecimal | backend/src/main/java/ro/mihaisturza/cryptoflow/crypto/CryptoService.java:32 | the rendering of a number is a non-empty string of decimal digits |
| Text.DecimalRoundTrip | backend/src/main/java/ro/mihaisturza/cryptoflow/crypto/CryptoService.java:32 | the decimal rendering of the timestamp reads back as the timestamp |
| Text.LastIndexOf | backend/src/main/java/ro/mihaisturza/cryptoflow/consumer/ImageMessageConsumer.java:34 | the largest index holding the character, or -1 exactly when there is none |
| Text.Join | backend/src/main/java/ro/mihaisturza/exception/GlobalExceptionHandler.java:16 | joining no parts gives the empty string and one part gives that part; `Http.JoinFront` gives the general case |
| Text.AsciiUtf16Length | backend/src/main/java/ro/mihaisturza/cryptoflow/image/ImageProcessingRequest.java:25 | for ASCII text, `length()` counts characters, which are also the bytes the native side sees |
| Consumer.Extension | backend/src/main/java/ro/mihaisturza/cryptoflow/consumer/ImageMessageConsumer.java:31-35 | empty for a null name or a name without '.'; otherwise a suffix of the name that starts with '.' and holds no other '.' |
| Consumer.ExtensionUnique | backend/src/main/java/ro/mihaisturza/cryptoflow/consumer/ImageMessageConsumer.java:31-35 | any suffix starting at a '.' with no later '.' is the extension, so the characterisation is exact |
| Consumer.WorkFileName | backend/src/main/java/ro/mihaisturza/cryptoflow/consumer/ImageMessageConsumer.java:36 | the work file name is the job id followed by the extension |
| Consumer.RecordFor | backend/src/main/java/ro/mihaisturza/cryptoflow/consumer/ProcessedImage.java:37-44 | the record carries the job's id and name, the processed bytes, the two constants' names and the clock reading |
| Consumer.Consume | backend/src/main/java/ro/mihaisturza/cryptoflow/consumer/ImageMessageConsumer.java:26-62 | the store is unchanged when processing fails or the name is null; otherwise the job's record is upserted under its id and no other record changes |
| Consumer.ConsumeKeepsKeying | backend/src/main/java/ro/mihaisturza/cryptoflow/consumer/ImageMessageConsumer.java:49-56 | consuming a job keeps the store keyed by id |
| Consumer.ConsumeTwice | backend/src/main/java/ro/mihaisturza/cryptoflow/consumer/ImageMessageConsumer.java:26-62 | a redelivered job leaves the later run's record when it succeeds, and the earlier state when it fails |
| ImageService.JobFor | backend/src/main/java/ro/mihaisturza/cryptoflow/image/ImageService.java:30-34 | the job carries the fresh id, the upload's bytes and name, the key, the operation and the mode |
| ImageService.Submit | backend/src/main/java/ro/mihaisturza/cryptoflow/image/ImageService.java:28-45 | on success exactly one job is appended and its id is returned; otherwise "Failed to process image" is raised and the queue is unchanged |
| ImageService.GetProcessedImages | backend/src/main/java/ro/mihaisturza/cryptoflow/image/ImageService.java:47-49 | returns every stored record once, in no fixed order |
| Http.EndpointOperation | backend/src/main/java/ro/mihaisturza/cryptoflow/image/ImageController.java:26-34 | the encrypt endpoint, and only it, dispatches ENCRYPT |
| Http.JoinFront | backend/src/main/java/ro/mihaisturza/exception/GlobalExceptionHandler.java:14-16 | a joined message is its first part, the separator, then the rest joined |
| Http.RenderFieldErrorsOrder | backend/src/main/java/ro/mihaisturza/exception/GlobalExceptionHandler.java:14-16 | the rendered errors are empty for no error, "field: message" for one, and the first one, ", ", then the rest rendered the same way, so every error appears once and in order |
| Http.ValidationError | backend/src/main/java/ro/mihaisturza/exception/GlobalExceptionHandler.java:12-20 | status 400 with code VALIDATION_ERROR; the message is "field: message" for one error and, for more, the first one, ", ", then the remaining errors joined in order |
| Http.GeneralError | backend/src/main/java/ro/mihaisturza/exception/GlobalExceptionHandler.java:22-26 | status 500 with code INTERNAL_SERVER_ERROR and the exception's message |
| Http.Post | backend/src/main/java/ro/mihaisturza/cryptoflow/image/ImageController.java:26-41 | 400 exactly for an invalid request; 200 exactly when valid and published, with the id returned and one job appended carrying the endpoint's operation, the request's mode, key, bytes and name; otherwise 500 and the queue is unchanged |
| Http.GetProcessed | backend/src/main/java/ro/mihaisturza/cryptoflow/image/ImageController.java:43-47 | 200 with every stored record exactly once |
| Pipeline.ModeTextRoundTrip | backend/src/main/java/ro/mihaisturza/cryptoflow/crypto/CryptoService.java:105-112 | the mode argument maps back to its constant through `getEncryptionMode`, and a valid mode text survives the trip through the constant |
| Pipeline.RenderedCommand | backend/src/main/java/ro/mihaisturza/cryptoflow/crypto/CryptoService.java:47-54 | the bytes of the worker's arguments are the native rendering of the command they name |
| Pipeline.CommandAcceptedNatively | backend/src/main/java/ro/mihaisturza/cryptoflow/crypto/CryptoService.java:43-54 | with an ASCII key of valid length and an ASCII file name, the native `main` accepts the worker's command and reads back the same operation, mode, key and paths |
| Pipeline.WorkerReturnsNativeTransform | backend/src/main/java/ro/mihaisturza/cryptoflow/crypto/CryptoService.java:40-97 | when the native transform of the upload succeeds and the write goes through, the worker returns exactly that transform |
| Pipeline.NativeRunSucceeds | crypto/src/main.cpp:90-102 | on the worker's command, with a transform that succeeds and a write that goes through, the native process exits 0 and leaves the transform at the output path |
| Pipeline.AcceptedUploadExtension | backend/src/main/java/ro/mihaisturza/cryptoflow/consumer/ImageMessageConsumer.java:31-35 | the extension of an accepted upload lower-cases to ".bmp" |
| Pipeline.AcceptedJobIsStored | backend/src/main/java/ro/mihaisturza/cryptoflow/consumer/ImageMessageConsumer.java:49-56 | an accepted POST whose job then runs successfully leaves a record under the returned id, with the endpoint's operation and the request's mode |

## Left out

- AES itself (OpenSSL's `EVP_*`) is an abstract pair of functions. Its only assumed property is that decryption inverts encryption. `processBlock`'s failure paths (`EVP_CipherUpdate` or `EVP_CipherFinal_ex` failing) are not modelled.
- `generateIV` and its `RAND_bytes` failure are not modelled. The IV is a parameter.
- OpenMP parallelism is not modelled: blocks are independent, so the block loop is sequential.
- The MPI runtime is left out: `MPI_Init`, rank detection and `Allgather`. `ImageProcessor.TransformFile` is the single-process path. Only the chunk arithmetic of the multi-process path is modelled. Ranks other than 0 that skip the argument count check or the write are not modelled.
- Logging and console output are not modelled. The native program's printed lines are an opaque input to the worker.
- Undefined behaviour in the native code is modelled as failure, which the surrounding `catch` turns into `false`. This covers CBC decryption of fewer than 16 bytes and a `dataOffset` past the end of the file.
- Padding.Unpad: with a padding value above the buffer length, the source computes an unsigned `dataSize - p` that wraps. The model returns the input unchanged. `CryptoEngine.DecryptBufferNeverOverrunsPadding` shows that decryption never reaches that case.
- The RabbitMQ broker, its delivery and redelivery policy, and JSON serialisation of messages are not modelled. The queue is the sequence of published jobs.
- JPA and the database are a map from id to record. Only the null `image_name` column is checked, because the other columns can never be null here.
- `findAll` returns records in no fixed order. The model promises membership and uniqueness, not an order.
- Bean Validation does not fix the order of field errors. The model lists them as file, key, mode, each in its annotation order.
- Case mapping (`toLowerCase`, `toUpperCase`) covers ASCII letters only.
- Java strings reach the native program as their bytes. Only ASCII text is modelled on that bridge, where each character is one byte. The API's key length counts UTF-16 units and the native check counts bytes, so a key of 20 two-byte characters passes the API but is 40 bytes long to `main`, which rejects it. The bridging lemmas require ASCII for this reason.
- `Paths.get` normalisation is not modelled. A temporary path is the directory, '/', and the name.
- CryptoService.Execute: the source deletes temporary files only on success, which the model follows. A failed `Files.write` during setup is assumed to leave no partial file. `Execute` takes the outcome the service observes once the call returns; a child whose output never closes has no such outcome (`CryptoService.DrainThenWait`), and then the call never returns.
- CryptoService.DrainThenWait: the contents of the output and the exit code are the child's; interleaving of standard output and error and line splitting are not modelled.
- ImageProcessor.WriteFile: how many bytes a failing stream keeps is a parameter; the model does not say which write errors are possible.
- The frontend is not part of this model. Neither is `MessagePublisherService`.
- `Operation.java` and `EncryptionMode.java` are not part of this model. Their constants are taken from how the code uses them.

## Findings

| source | as written | input that shows it | evidently intended | confidence | as-written member | corrected member |
|---|---|---|---|---|---|---|
| crypto/src/image_processor.cpp:60-76 | each rank's start offset is rounded down to 16, and the end offset of every rank but the last is rounded up, so neighbouring chunks overlap whenever a boundary is not a multiple of 16 | 40 bytes of pixel data on 2 ranks: rank 0 takes [0, 32) and rank 1 takes [16, 40), so bytes 16–31 are processed twice and the gathered output is longer than the input | chunks that partition the pixel data, so the gathered chunks cover each byte once | not executed | ImageProcessor.ChunkSlicesOverlap | ImageProcessor.AlignedChunksPartition |
| backend/src/main/java/ro/mihaisturza/cryptoflow/crypto/CryptoService.java:63-78 | the worker reads the child's output until end of file and only then starts the 60-second `waitFor`, so the timeout never bounds the read | a child that hangs without closing its output (or leaves a process holding the pipe): the read never returns, the child is never killed and the job never completes | the 60-second limit bounds the whole run, and a child that does not exit within it is killed | not executed | CryptoService.HungChildNeverKilled | CryptoService.BoundedWait |
| crypto/src/image_processor.cpp:29-44 | the pixel data starts at the header's `dataOffset` with no check that it lies past the 54-byte header, so encryption may overwrite the header | a 54-byte file "BM" followed by zeros has data offset 0; encrypting it replaces the whole file, including the signature; with a cipher whose first output block does not start with "BM" (for instance one that rotates the block by a byte), decrypting the result fails with "not a valid BMP" | an offset inside the header is refused, so every file that encrypts decrypts back | not executed | ImageProcessor.LowOffsetBreaksRoundTrip | ImageProcessor.GuardedEncryptThenDecrypt |
