/** `ImageProcessor::processImage` (crypto/src/image_processor.cpp) on the
    single-process path: read the file, check it, split header from pixels
    at `dataOffset`, transform the pixels, reassemble, write. The file system
    is a map from path to contents; MPI ranks other than 0 are not modelled,
    only the chunk arithmetic the distributed path uses. */
module ImageProcessor {
  import opened Prelude
  import BmpHeader
  import CryptoEngine
  import Padding

  /** Why `processImage` returned false. */
  datatype Failure =
    | ReadFailed        // empty or unreadable input
    | TooSmall          // fewer than 54 bytes
    | NotBmp            // signature is not "BM"
    | OffsetPastEnd     // dataOffset beyond the end of the file
    | TransformFailed   // processData could not run ("CBC" decryption without an IV)
    | WriteFailed       // the output file could not be written
    | OffsetInHeader    // dataOffset inside the 54-byte header (corrected processing only)

  /** The pixel offset the header declares. */
  function DataOffset(fileData: Bytes): nat
    requires |fileData| >= BmpHeader.HeaderSize
  {
    BmpHeader.Parse(fileData).dataOffset
  }

  /** What the output file receives, or why there is none. The source builds
      the pixel vector from `begin() + dataOffset` without checking the
      offset against the size, which is undefined when it lies past the end;
      the model fails there. */
  function TransformFile(fileData: Bytes, key: Bytes, mode: CryptoEngine.CryptoMode, op: CryptoEngine.Operation,
                         c: CryptoEngine.BlockCipher, iv: CryptoEngine.Block): (r: Result<Bytes, Failure>)
    ensures r == Err(ReadFailed) <==> |fileData| == 0
    ensures r == Err(TooSmall) <==> 0 < |fileData| < BmpHeader.HeaderSize
    ensures r == Err(NotBmp) <==> |fileData| >= BmpHeader.HeaderSize && !(fileData[0] == 0x42 && fileData[1] == 0x4D)
    ensures r == Err(OffsetPastEnd) <==>
      |fileData| >= BmpHeader.HeaderSize && fileData[0] == 0x42 && fileData[1] == 0x4D && DataOffset(fileData) > |fileData|
    ensures r == Err(TransformFailed) <==>
      |fileData| >= BmpHeader.HeaderSize && fileData[0] == 0x42 && fileData[1] == 0x4D && DataOffset(fileData) <= |fileData| &&
      CryptoEngine.ProcessData(fileData[DataOffset(fileData)..], key, mode, op, c, iv).None?
    ensures r.Ok? <==>
      |fileData| >= BmpHeader.HeaderSize && fileData[0] == 0x42 && fileData[1] == 0x4D && DataOffset(fileData) <= |fileData| &&
      CryptoEngine.ProcessData(fileData[DataOffset(fileData)..], key, mode, op, c, iv).Some?
    ensures r.Ok? ==>
      var off := DataOffset(fileData);
      && off <= |fileData| && off <= |r.value|
      && r.value[..off] == fileData[..off]
      && Some(r.value[off..]) == CryptoEngine.ProcessData(fileData[off..], key, mode, op, c, iv)
  {
    if |fileData| == 0 then Err(ReadFailed)
    else if |fileData| < BmpHeader.HeaderSize then Err(TooSmall)
    else
      var header := BmpHeader.Parse(fileData);
      BmpHeader.SignatureIsBM(fileData);
      if header.signature != BmpHeader.BmSignature then Err(NotBmp)
      else if header.dataOffset > |fileData| then Err(OffsetPastEnd)
      else
        var pixels := fileData[header.dataOffset..];
        match CryptoEngine.ProcessData(pixels, key, mode, op, c, iv)
        case None => Err(TransformFailed)
        case Some(processed) =>
          var out := fileData[..header.dataOffset] + processed;
          assert out[header.dataOffset..] == processed;
          Ok(out)
  }

  /** An encrypted file is longer than the original and keeps its first
      `dataOffset` bytes. */
  lemma EncryptedFileShape(fileData: Bytes, key: Bytes, mode: CryptoEngine.CryptoMode,
                           c: CryptoEngine.BlockCipher, iv: CryptoEngine.Block)
    requires TransformFile(fileData, key, mode, CryptoEngine.Encrypt, c, iv).Ok?
    ensures var enc := TransformFile(fileData, key, mode, CryptoEngine.Encrypt, c, iv).value;
      |fileData| < |enc| && enc[..DataOffset(fileData)] == fileData[..DataOffset(fileData)]
  {
  }

  /** Decrypting an encrypted image file with the same key and mode gives the
      original file back, provided the header's own `dataOffset` lies at or
      beyond byte 14: then the signature and the offset are in the copied
      prefix, so the decryption splits the file at the same place. */
  lemma EncryptThenDecryptFile(fileData: Bytes, key: Bytes, mode: CryptoEngine.CryptoMode,
                               c: CryptoEngine.BlockCipher, iv: CryptoEngine.Block)
    requires CryptoEngine.Invertible(c)
    requires TransformFile(fileData, key, mode, CryptoEngine.Encrypt, c, iv).Ok?
    requires 14 <= DataOffset(fileData)
    ensures TransformFile(TransformFile(fileData, key, mode, CryptoEngine.Encrypt, c, iv).value,
                          key, mode, CryptoEngine.Decrypt, c, iv) == Ok(fileData)
  {
    var off := DataOffset(fileData);
    var enc := TransformFile(fileData, key, mode, CryptoEngine.Encrypt, c, iv).value;
    var pixels := fileData[off..];
    SameHeaderStart(enc, fileData, off);
    CryptoEngine.EncryptDecryptRoundTrip(pixels, key, mode, c, iv);
    TransformFileSplits(enc, key, mode, CryptoEngine.Decrypt, c, iv, pixels);
    SplitJoin(fileData, enc, off);
  }

  /** Two files that agree on their first `off` bytes, `off` at least 14,
      agree on the signature check and the data offset. */
  lemma SameHeaderStart(a: Bytes, b: Bytes, off: nat)
    requires |a| >= BmpHeader.HeaderSize && |b| >= BmpHeader.HeaderSize
    requires 14 <= off <= |a| && off <= |b| && a[..off] == b[..off]
    ensures (a[0] == 0x42 && a[1] == 0x4D) == (b[0] == 0x42 && b[1] == 0x4D)
    ensures DataOffset(a) == DataOffset(b)
  {
    assert a[..14] == a[..off][..14];
    assert b[..14] == b[..off][..14];
    BmpHeader.SignatureAndOffsetFromPrefix(a, b);
    assert a[0] == a[..off][0] && a[1] == a[..off][1];
  }

  /** A BMP whose pixels transform to `out` becomes its first `dataOffset`
      bytes followed by `out`. */
  lemma TransformFileSplits(fileData: Bytes, key: Bytes, mode: CryptoEngine.CryptoMode, op: CryptoEngine.Operation,
                            c: CryptoEngine.BlockCipher, iv: CryptoEngine.Block, out: Bytes)
    requires |fileData| >= BmpHeader.HeaderSize && fileData[0] == 0x42 && fileData[1] == 0x4D
    requires DataOffset(fileData) <= |fileData|
    requires CryptoEngine.ProcessData(fileData[DataOffset(fileData)..], key, mode, op, c, iv) == Some(out)
    ensures TransformFile(fileData, key, mode, op, c, iv) == Ok(fileData[..DataOffset(fileData)] + out)
  {
    BmpHeader.SignatureIsBM(fileData);
  }

  /** Replacing everything after a shared prefix of length `off`. */
  lemma SplitJoin(a: Bytes, b: Bytes, off: nat)
    requires off <= |a| && off <= |b| && a[..off] == b[..off]
    ensures b[..off] + a[off..] == a
  {
    assert a == a[..off] + a[off..];
  }

  /** A block cipher that rotates the block one byte to the left, and back:
      invertible, and enough to show what an offset inside the header does. */
  function RotateCipher(): (c: CryptoEngine.BlockCipher)
    ensures CryptoEngine.Invertible(c)
  {
    var c := CryptoEngine.BlockCipher((k: CryptoEngine.KeyBytes, b: CryptoEngine.Block) => b[1..] + [b[0]],
                                      (k: CryptoEngine.KeyBytes, b: CryptoEngine.Block) => [b[15]] + b[..15]);
    assert forall k: CryptoEngine.KeyBytes, b: CryptoEngine.Block :: c.decrypt(k, c.encrypt(k, b)) == b by {
      forall k: CryptoEngine.KeyBytes, b: CryptoEngine.Block ensures c.decrypt(k, c.encrypt(k, b)) == b {
        assert c.encrypt(k, b) == b[1..] + [b[0]];
      }
    }
    c
  }

  /** "BM" followed by 52 zero bytes: a header whose `dataOffset` is 0. */
  const LowOffsetFile: Bytes := [0x42, 0x4D] + Zeros(52)

  /** As written, a header whose `dataOffset` lies below byte 14 has its own
      signature encrypted with the pixels, so the encrypted file is no longer
      read as a BMP and does not decrypt back. */
  lemma LowOffsetBreaksRoundTrip(key: Bytes, iv: CryptoEngine.Block)
    ensures |LowOffsetFile| == BmpHeader.HeaderSize && DataOffset(LowOffsetFile) == 0
    ensures TransformFile(LowOffsetFile, key, CryptoEngine.AesEcb, CryptoEngine.Encrypt, RotateCipher(), iv).Ok?
    ensures TransformFile(TransformFile(LowOffsetFile, key, CryptoEngine.AesEcb, CryptoEngine.Encrypt, RotateCipher(), iv).value,
                          key, CryptoEngine.AesEcb, CryptoEngine.Decrypt, RotateCipher(), iv) == Err(NotBmp)
  {
    var f := LowOffsetFile;
    var c := RotateCipher();
    assert f[0] == 0x42 && f[1] == 0x4D;
    assert f[10] == 0 && f[11] == 0 && f[12] == 0 && f[13] == 0;
    BmpHeader.SignatureIsBM(f);
    var padded := Padding.Pad(f);
    assert padded[1] == f[1];
    var kb := CryptoEngine.KeyBuffer(key);
    var processed := CryptoEngine.ProcessBlocks(c, kb, CryptoEngine.AesEcb, CryptoEngine.Encrypt, CryptoEngine.UnusedIv, padded);
    assert processed[..16] == c.encrypt(kb, padded[..16]);
    assert processed[0] == 0x4D;
    var enc := TransformFile(f, key, CryptoEngine.AesEcb, CryptoEngine.Encrypt, c, iv).value;
    assert enc == f[..0] + processed;
    assert enc[0] == 0x4D;
  }

  /** The evidently intended processing: the pixel data starts after the
      54-byte header, so a `dataOffset` inside it is refused. */
  function TransformFileGuarded(fileData: Bytes, key: Bytes, mode: CryptoEngine.CryptoMode, op: CryptoEngine.Operation,
                                c: CryptoEngine.BlockCipher, iv: CryptoEngine.Block): (r: Result<Bytes, Failure>)
    ensures r == Err(OffsetInHeader) <==>
      |fileData| >= BmpHeader.HeaderSize && fileData[0] == 0x42 && fileData[1] == 0x4D &&
      DataOffset(fileData) < BmpHeader.HeaderSize
    ensures r != Err(OffsetInHeader) ==> r == TransformFile(fileData, key, mode, op, c, iv)
    ensures r.Ok? ==> |fileData| >= BmpHeader.HeaderSize && BmpHeader.HeaderSize <= DataOffset(fileData)
  {
    if |fileData| >= BmpHeader.HeaderSize && fileData[0] == 0x42 && fileData[1] == 0x4D &&
       DataOffset(fileData) < BmpHeader.HeaderSize
    then Err(OffsetInHeader)
    else TransformFile(fileData, key, mode, op, c, iv)
  }

  /** With the guard, every file that encrypts decrypts back, with no
      condition on its header. */
  lemma GuardedEncryptThenDecrypt(fileData: Bytes, key: Bytes, mode: CryptoEngine.CryptoMode,
                                  c: CryptoEngine.BlockCipher, iv: CryptoEngine.Block)
    requires CryptoEngine.Invertible(c)
    requires TransformFileGuarded(fileData, key, mode, CryptoEngine.Encrypt, c, iv).Ok?
    ensures TransformFileGuarded(TransformFileGuarded(fileData, key, mode, CryptoEngine.Encrypt, c, iv).value,
                                 key, mode, CryptoEngine.Decrypt, c, iv) == Ok(fileData)
  {
    var enc := TransformFileGuarded(fileData, key, mode, CryptoEngine.Encrypt, c, iv).value;
    EncryptThenDecryptFile(fileData, key, mode, c, iv);
    SameHeaderStart(enc, fileData, DataOffset(fileData));
  }

  /** How `writeFile` went. Constructing the `ofstream` creates or
      truncates the file before a byte is written, so only a failed open
      leaves it as it was. */
  datatype WriteOutcome =
    | OpenFailed               // the stream did not open: false, the file is untouched
    | StreamFailed(kept: nat)  // the write left the stream bad after `kept` bytes: false
    | LostOnClose(kept: nat)   // `good()` held, but the flush when the stream closed kept only `kept` bytes: true
    | Written                  // every byte reached the file: true

  /** The answer `writeFile` gives and the files afterwards. */
  datatype Write = Write(ok: bool, files: map<Bytes, Bytes>)

  /** `writeFile`: `good()` is read before the stream is closed, so a
      flush lost on closing still reports success. */
  function WriteFile(files: map<Bytes, Bytes>, path: Bytes, data: Bytes, w: WriteOutcome): (r: Write)
    ensures r.ok <==> w.LostOnClose? || w.Written?
    ensures w.OpenFailed? ==> r.files == files
    ensures !w.OpenFailed? ==>
      && path in r.files && r.files == files[path := r.files[path]]
      && |r.files[path]| <= |data| && r.files[path] == data[..|r.files[path]|]
    ensures w.Written? ==> r.files == files[path := data]
    ensures w.StreamFailed? || w.LostOnClose? ==> path in r.files && |r.files[path]| == if w.kept < |data| then w.kept else |data|
  {
    match w
    case OpenFailed => Write(false, files)
    case StreamFailed(kept) => Write(false, files[path := data[..if kept < |data| then kept else |data|]])
    case LostOnClose(kept) => Write(true, files[path := data[..if kept < |data| then kept else |data|]])
    case Written => Write(true, files[path := data])
  }

  /** A failed write still clobbers the output: an existing output file
      is left empty when the stream fails before its first byte. */
  lemma FailedWriteTruncates(files: map<Bytes, Bytes>, path: Bytes, data: Bytes)
    requires path in files && |files[path]| > 0
    ensures !WriteFile(files, path, data, StreamFailed(0)).ok
    ensures WriteFile(files, path, data, StreamFailed(0)).files == files[path := []]
    ensures WriteFile(files, path, data, StreamFailed(0)).files != files
  {
    assert files[path := []][path] == [];
  }

  /** `processImage`: reads `inputPath` (a missing file reads as empty),
      transforms it and writes `outputPath`; `write` is how the write goes. */
  datatype Run = Run(success: bool, files: map<Bytes, Bytes>)

  function ProcessImage(files: map<Bytes, Bytes>, inputPath: Bytes, outputPath: Bytes, key: Bytes,
                        mode: CryptoEngine.CryptoMode, op: CryptoEngine.Operation,
                        c: CryptoEngine.BlockCipher, iv: CryptoEngine.Block, write: WriteOutcome): (r: Run)
    ensures r.success <==>
      (write.Written? || write.LostOnClose?) && TransformFile(ReadFile(files, inputPath), key, mode, op, c, iv).Ok?
    ensures TransformFile(ReadFile(files, inputPath), key, mode, op, c, iv).Err? || write.OpenFailed? ==> r.files == files
    ensures TransformFile(ReadFile(files, inputPath), key, mode, op, c, iv).Ok? && !write.OpenFailed? ==>
      var out := TransformFile(ReadFile(files, inputPath), key, mode, op, c, iv).value;
      && outputPath in r.files && r.files == files[outputPath := r.files[outputPath]]
      && |r.files[outputPath]| <= |out| && r.files[outputPath] == out[..|r.files[outputPath]|]
    ensures TransformFile(ReadFile(files, inputPath), key, mode, op, c, iv).Ok? && write.Written? ==>
      r.success && r.files == files[outputPath := TransformFile(ReadFile(files, inputPath), key, mode, op, c, iv).value]
  {
    match TransformFile(ReadFile(files, inputPath), key, mode, op, c, iv)
    case Err(_) => Run(false, files)
    case Ok(out) =>
      var w := WriteFile(files, outputPath, out, write);
      Run(w.ok, w.files)
  }

  /** `readFile`: the file's bytes, or nothing when it cannot be opened. */
  function ReadFile(files: map<Bytes, Bytes>, path: Bytes): (r: Bytes)
    ensures path in files ==> r == files[path]
    ensures path !in files ==> r == []
  {
    if path in files then files[path] else []
  }

  // ---------------------------------------------------------------------
  // Chunk boundaries of the MPI path

  /** The half-open byte range `[start, end)` of the pixel data one rank
      processes. */
  datatype Slice = Slice(start: nat, end: nat)

  const Align: nat := 16

  function RoundDown(x: nat): (r: nat)
    ensures r % Align == 0 && r <= x < r + Align
  {
    (x / Align) * Align
  }

  function RoundUp(x: nat): (r: nat)
    ensures r % Align == 0 && x <= r < x + Align
  {
    if x % Align == 0 then x else (x / Align + 1) * Align
  }

  /** `std::min(RoundUp(x), total)`: a rounded-up end clipped to the total. */
  function RoundUpWithin(x: nat, total: nat): (r: nat)
    requires x <= total
    ensures x <= r <= total
    ensures r % Align == 0 || r == total
  {
    if RoundUp(x) <= total then RoundUp(x) else total
  }

  lemma ChunkWithinTotal(rank: nat, size: nat, total: nat)
    requires rank < size
    ensures rank * (total / size) <= total
    ensures (rank + 1) * (total / size) <= total
  {
    var q := total / size;
    assert size * q <= total;
    assert (rank + 1) * q <= size * q by {
      MulMonotone(rank + 1, size, q);
    }
  }

  lemma MulMonotone(a: nat, b: nat, q: nat)
    requires a <= b
    ensures a * q <= b * q
  {
  }

  /** The rounding `processImage` applies to one rank's raw range
      `[start, end)`: an unaligned start is rounded down, an unaligned end
      of a non-last rank is rounded up, and the end is clipped to the total. */
  function AlignAsWritten(start: nat, end: nat, last: bool, total: nat): (s: Slice)
    requires start <= end <= total
    ensures s.start % Align == 0 && start - Align < s.start <= start
    ensures s.start <= s.end <= total
    ensures last ==> s.end == end
    ensures !last ==> s.end % Align == 0 || s.end == total
    ensures !last ==> s.end == RoundUpWithin(end, total)
  {
    var alignedStart := if start % Align != 0 then RoundDown(start) else start;
    var alignedEnd := if end % Align != 0 && !last then RoundUp(end) else end;
    Slice(alignedStart, if alignedEnd < total then alignedEnd else total)
  }

  /** Rank `rank` of `size`, as written: the start is rounded down to a
      block boundary, a non-last rank's end is rounded up, the last rank
      ends at the total, and the slice is clipped to the total. */
  function ChunkSlice(rank: nat, size: nat, total: nat): (s: Slice)
    requires rank < size
    ensures s.start % Align == 0
    ensures s.start <= s.end <= total
    ensures rank == size - 1 ==> s.end == total
    ensures rank < size - 1 ==> s.end % Align == 0 || s.end == total
    ensures rank * (total / size) - Align < s.start <= rank * (total / size)
    ensures rank < size - 1 ==> s.end == RoundUpWithin(RawChunk(rank, size, total).end, total)
  {
    var raw := RawChunk(rank, size, total);
    AlignAsWritten(raw.start, raw.end, rank == size - 1, total)
  }

  /** Rank `rank`'s range before alignment: `rank * chunkSize` up to the
      next rank's start, or the total for the last rank. */
  function RawChunk(rank: nat, size: nat, total: nat): (raw: Slice)
    requires rank < size
    ensures raw.start == rank * (total / size)
    ensures rank == size - 1 ==> raw.end == total
    ensures rank < size - 1 ==> raw.end == (rank + 1) * (total / size)
    ensures raw.start <= raw.end <= total
  {
    ChunkWithinTotal(rank, size, total);
    MulMonotone(rank, rank + 1, total / size);
    Slice(rank * (total / size), if rank == size - 1 then total else (rank + 1) * (total / size))
  }

  /** Neighbouring ranks' slices overlap whenever the boundary between them
      is not block-aligned: the earlier rank's end is rounded up past it and
      the later rank's start rounded down before it, so the bytes in between
      are processed, and gathered, twice. */
  lemma ChunkSlicesOverlap(rank: nat, size: nat, total: nat)
    requires rank + 1 < size
    requires ((rank + 1) * (total / size)) % Align != 0
    ensures ChunkSlice(rank + 1, size, total).start < ChunkSlice(rank, size, total).end
  {
    ChunkWithinTotal(rank, size, total);
    var boundary := (rank + 1) * (total / size);
    assert rank * (total / size) + total / size == boundary;
  }

  /** 40 pixel bytes on two ranks: rank 0 takes [0, 32) and rank 1 takes
      [16, 40). */
  lemma ChunkOverlapExample()
    ensures ChunkSlice(0, 2, 40) == Slice(0, 32)
    ensures ChunkSlice(1, 2, 40) == Slice(16, 40)
  {
  }

  /** Corrected boundaries: every inner boundary is rounded down, so each
      rank ends exactly where the next begins. */
  function AlignedChunkSlice(rank: nat, size: nat, total: nat): (s: Slice)
    requires rank < size
    ensures s.start % Align == 0
    ensures s.start <= s.end <= total
    ensures rank == 0 ==> s.start == 0
    ensures rank == size - 1 ==> s.end == total
    ensures rank < size - 1 ==> s.end % Align == 0
  {
    ChunkWithinTotal(rank, size, total);
    var chunk := total / size;
    var lo := rank * chunk;
    var hi := (rank + 1) * chunk;
    MulMonotone(rank, rank + 1, chunk);
    assert lo <= hi <= total;
    assert rank == 0 ==> lo == 0;
    RoundDownMonotone(lo, hi);
    Slice(RoundDown(lo), if rank == size - 1 then total else RoundDown(hi))
  }

  lemma RoundDownMonotone(x: nat, y: nat)
    requires x <= y
    ensures RoundDown(x) <= RoundDown(y)
  {
    assert x / Align <= y / Align;
    MulMonotone(x / Align, y / Align, Align);
  }

  /** The corrected slices are consecutive: no byte is skipped or repeated. */
  lemma AlignedChunksAdjacent(rank: nat, size: nat, total: nat)
    requires rank + 1 < size
    ensures AlignedChunkSlice(rank, size, total).end == AlignedChunkSlice(rank + 1, size, total).start
  {
  }

  /** Concatenating the corrected slices of ranks `0 .. upto - 1` yields the
      pixel data up to the end of the last of them. */
  function Gather(data: Bytes, size: nat, upto: nat): Bytes
    requires upto <= size
  {
    if upto == 0 then []
    else
      var s := AlignedChunkSlice(upto - 1, size, |data|);
      Gather(data, size, upto - 1) + data[s.start..s.end]
  }

  lemma {:induction false} GatherPrefix(data: Bytes, size: nat, upto: nat)
    requires 0 < upto <= size
    ensures Gather(data, size, upto) == data[..AlignedChunkSlice(upto - 1, size, |data|).end]
  {
    var s := AlignedChunkSlice(upto - 1, size, |data|);
    if upto == 1 {
      assert Gather(data, size, 0) == [];
      assert data[s.start..s.end] == data[..s.end];
    } else {
      GatherPrefix(data, size, upto - 1);
      AlignedChunksAdjacent(upto - 2, size, |data|);
      assert data[..s.end] == data[..s.start] + data[s.start..s.end];
    }
  }

  /** Gathering every rank's corrected slice reassembles the pixel data. */
  lemma AlignedChunksPartition(data: Bytes, size: nat)
    requires 0 < size
    ensures Gather(data, size, size) == data
  {
    GatherPrefix(data, size, size);
  }
}
