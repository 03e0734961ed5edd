/** `CryptoEngine::processData` (crypto/src/crypto_engine.cpp): key preparation,
    padding, IV framing and the block loop, over an abstract block cipher.

    AES itself is not modelled. A `BlockCipher` is any pair of functions on
    (32-byte key, 16-byte block); the round-trip results assume only that its
    decryption undoes its encryption (`Invertible`).

    The code's "CBC" is not chained: every block is encrypted on its own,
    with the same key and the same IV, as a one-block CBC message. */
module CryptoEngine {
  import opened Prelude
  import Padding

  datatype CryptoMode = AesEcb | AesCbc

  datatype Operation = Encrypt | Decrypt

  const BlockLen: nat := 16
  const KeyLen: nat := 32

  type Block = s: Bytes | |s| == 16 witness seq(16, _ => 0)

  /** The AES-256 key buffer. */
  type KeyBytes = s: Bytes | |s| == 32 witness seq(32, _ => 0)

  datatype BlockCipher = BlockCipher(
    encrypt: (KeyBytes, Block) -> Block,
    decrypt: (KeyBytes, Block) -> Block)

  /** Decryption under a key undoes encryption under the same key. */
  ghost predicate Invertible(c: BlockCipher) {
    forall k: KeyBytes, b: Block :: c.decrypt(k, c.encrypt(k, b)) == b
  }

  /** The key is copied into a zero-filled 32-byte buffer: its first
      min(|key|, 32) bytes, then zeros. */
  function KeyBuffer(key: Bytes): (kb: KeyBytes)
    ensures forall i | 0 <= i < KeyLen :: kb[i] == (if i < |key| then key[i] else 0)
  {
    var n := if |key| < KeyLen then |key| else KeyLen;
    key[..n] + Zeros(KeyLen - n)
  }

  /** Bytes past the 32nd do not influence the key buffer. */
  lemma KeyBufferTruncates(key: Bytes, other: Bytes)
    requires KeyLen <= |key| && KeyLen <= |other|
    requires key[..KeyLen] == other[..KeyLen]
    ensures KeyBuffer(key) == KeyBuffer(other)
  {
    forall i | 0 <= i < KeyLen
      ensures KeyBuffer(key)[i] == KeyBuffer(other)[i]
    {
      assert key[i] == key[..KeyLen][i];
    }
  }

  /** A command-line key holds no NUL byte, so two such keys of at most 32
      bytes that yield the same buffer are the same key. */
  lemma KeyBufferInjective(key: Bytes, other: Bytes)
    requires |key| <= KeyLen && |other| <= KeyLen
    requires forall i | 0 <= i < |key| :: key[i] != 0
    requires forall i | 0 <= i < |other| :: other[i] != 0
    requires KeyBuffer(key) == KeyBuffer(other)
    ensures key == other
  {
    if |key| < KeyLen {
      assert KeyBuffer(other)[|key|] == 0;
    }
    if |other| < KeyLen {
      assert KeyBuffer(key)[|other|] == 0;
    }
    forall i | 0 <= i < |key|
      ensures key[i] == other[i]
    {
      assert KeyBuffer(key)[i] == KeyBuffer(other)[i];
    }
  }

  function XorBlock(a: Block, b: Block): (r: Block)
    ensures forall i | 0 <= i < BlockLen :: r[i] == Xor(a[i], b[i])
  {
    seq(16, i requires 0 <= i < 16 => Xor(a[i], b[i]))
  }

  lemma XorBlockTwice(a: Block, b: Block)
    ensures XorBlock(XorBlock(a, b), b) == a
  {
    var r := XorBlock(XorBlock(a, b), b);
    forall i | 0 <= i < BlockLen
      ensures r[i] == a[i]
    {
      XorTwice(a[i], b[i]);
    }
  }

  /** One block under one freshly initialised cipher context. ECB ignores the
      IV; "CBC" XORs the IV in before encrypting and out after decrypting. */
  function TransformBlock(c: BlockCipher, kb: KeyBytes, mode: CryptoMode, op: Operation, iv: Block, b: Block): Block {
    match (mode, op)
    case (AesEcb, Encrypt) => c.encrypt(kb, b)
    case (AesEcb, Decrypt) => c.decrypt(kb, b)
    case (AesCbc, Encrypt) => c.encrypt(kb, XorBlock(b, iv))
    case (AesCbc, Decrypt) => XorBlock(c.decrypt(kb, b), iv)
  }

  /** Decrypting a block undoes encrypting it, in either mode. */
  lemma TransformBlockRoundTrip(c: BlockCipher, kb: KeyBytes, mode: CryptoMode, iv: Block, b: Block)
    requires Invertible(c)
    ensures TransformBlock(c, kb, mode, Decrypt, iv, TransformBlock(c, kb, mode, Encrypt, iv, b)) == b
  {
    if mode == AesCbc {
      assert c.decrypt(kb, c.encrypt(kb, XorBlock(b, iv))) == XorBlock(b, iv);
      XorBlockTwice(b, iv);
    } else {
      assert c.decrypt(kb, c.encrypt(kb, b)) == b;
    }
  }

  /** ECB ignores the IV; "CBC" on a single block is ECB with the IV XORed
      in before encrypting and out after decrypting. */
  lemma TransformBlockModes(c: BlockCipher, kb: KeyBytes, op: Operation, iv1: Block, iv2: Block, b: Block)
    ensures TransformBlock(c, kb, AesEcb, op, iv1, b) == TransformBlock(c, kb, AesEcb, op, iv2, b)
    ensures TransformBlock(c, kb, AesCbc, Encrypt, iv1, b) == TransformBlock(c, kb, AesEcb, Encrypt, iv2, XorBlock(b, iv1))
    ensures TransformBlock(c, kb, AesCbc, Decrypt, iv1, b) == XorBlock(TransformBlock(c, kb, AesEcb, Decrypt, iv2, b), iv1)
  {
  }

  /** The `numBlocks = n / 16` loop over an output buffer resized to `n`
      zero bytes: every whole block is transformed independently, and a
      trailing partial block stays zero. */
  function ProcessBlocks(c: BlockCipher, kb: KeyBytes, mode: CryptoMode, op: Operation, iv: Block, s: Bytes): (r: Bytes)
    ensures |r| == |s|
    decreases |s|
  {
    if |s| < BlockLen then Zeros(|s|)
    else TransformBlock(c, kb, mode, op, iv, s[..BlockLen]) + ProcessBlocks(c, kb, mode, op, iv, s[BlockLen..])
  }

  /** The `j`-th whole block of `s`. */
  function BlockAt(s: Bytes, j: nat): Block
    requires BlockLen * j + BlockLen <= |s|
  {
    s[BlockLen * j..BlockLen * j + BlockLen]
  }

  /** Block `j` of the output depends on block `j` of the input alone, and
      the bytes after the last whole block are zero. */
  lemma ProcessBlocksBlockwise(c: BlockCipher, kb: KeyBytes, mode: CryptoMode, op: Operation, iv: Block, s: Bytes)
    ensures forall j: nat | BlockLen * j + BlockLen <= |s| ::
      BlockAt(ProcessBlocks(c, kb, mode, op, iv, s), j) == TransformBlock(c, kb, mode, op, iv, BlockAt(s, j))
    ensures forall i | BlockLen * (|s| / BlockLen) <= i < |s| :: ProcessBlocks(c, kb, mode, op, iv, s)[i] == 0
  {
    ProcessBlocksEachBlock(c, kb, mode, op, iv, s);
    ProcessBlocksZeroTail(c, kb, mode, op, iv, s);
  }

  lemma {:induction false} ProcessBlocksEachBlock(c: BlockCipher, kb: KeyBytes, mode: CryptoMode, op: Operation, iv: Block, s: Bytes)
    ensures forall j: nat | BlockLen * j + BlockLen <= |s| ::
      BlockAt(ProcessBlocks(c, kb, mode, op, iv, s), j) == TransformBlock(c, kb, mode, op, iv, BlockAt(s, j))
    decreases |s|
  {
    var r := ProcessBlocks(c, kb, mode, op, iv, s);
    if |s| >= BlockLen {
      var rest := s[BlockLen..];
      var rr := ProcessBlocks(c, kb, mode, op, iv, rest);
      ProcessBlocksEachBlock(c, kb, mode, op, iv, rest);
      assert r == TransformBlock(c, kb, mode, op, iv, s[..BlockLen]) + rr;
      forall j: nat | BlockLen * j + BlockLen <= |s|
        ensures BlockAt(r, j) == TransformBlock(c, kb, mode, op, iv, BlockAt(s, j))
      {
        if j == 0 {
          assert BlockAt(r, 0) == r[..BlockLen];
        } else {
          assert BlockAt(r, j) == BlockAt(rr, j - 1);
          assert BlockAt(s, j) == BlockAt(rest, j - 1);
        }
      }
    }
  }

  lemma {:induction false} ProcessBlocksZeroTail(c: BlockCipher, kb: KeyBytes, mode: CryptoMode, op: Operation, iv: Block, s: Bytes)
    ensures forall i | BlockLen * (|s| / BlockLen) <= i < |s| :: ProcessBlocks(c, kb, mode, op, iv, s)[i] == 0
    decreases |s|
  {
    var r := ProcessBlocks(c, kb, mode, op, iv, s);
    if |s| >= BlockLen {
      var rest := s[BlockLen..];
      var rr := ProcessBlocks(c, kb, mode, op, iv, rest);
      ProcessBlocksZeroTail(c, kb, mode, op, iv, rest);
      assert r == TransformBlock(c, kb, mode, op, iv, s[..BlockLen]) + rr;
      assert BlockLen * (|s| / BlockLen) == BlockLen + BlockLen * (|rest| / BlockLen);
      forall i | BlockLen * (|s| / BlockLen) <= i < |s|
        ensures r[i] == 0
      {
        assert r[i] == rr[i - BlockLen];
      }
    }
  }

  /** Decrypting the blocks of an encrypted block-aligned buffer restores it. */
  lemma {:induction false} ProcessBlocksRoundTrip(c: BlockCipher, kb: KeyBytes, mode: CryptoMode, iv: Block, s: Bytes)
    requires Invertible(c)
    requires |s| % BlockLen == 0
    ensures ProcessBlocks(c, kb, mode, Decrypt, iv, ProcessBlocks(c, kb, mode, Encrypt, iv, s)) == s
    decreases |s|
  {
    if |s| > 0 {
      var e := ProcessBlocks(c, kb, mode, Encrypt, iv, s);
      var head := TransformBlock(c, kb, mode, Encrypt, iv, s[..BlockLen]);
      var tail := ProcessBlocks(c, kb, mode, Encrypt, iv, s[BlockLen..]);
      assert e == head + tail;
      assert e[..BlockLen] == head;
      assert e[BlockLen..] == tail;
      TransformBlockRoundTrip(c, kb, mode, iv, s[..BlockLen]);
      ProcessBlocksRoundTrip(c, kb, mode, iv, s[BlockLen..]);
      assert s == s[..BlockLen] + s[BlockLen..];
    }
  }

  /** The IV slot ECB never reads. */
  const UnusedIv: Block := Zeros(16)

  /** Encryption: pad, then for "CBC" prepend the IV, then transform every
      padded block at its offset. */
  function EncryptData(input: Bytes, key: Bytes, mode: CryptoMode, c: BlockCipher, iv: Block): (r: Bytes)
    ensures mode == AesEcb ==> |r| == |Padding.Pad(input)|
    ensures mode == AesCbc ==> |r| == BlockLen + |Padding.Pad(input)| && r[..BlockLen] == iv
    ensures |r| % BlockLen == 0 && |input| < |r|
    ensures mode == AesEcb ==>
      forall j: nat | BlockLen * j + BlockLen <= |Padding.Pad(input)| ::
        BlockAt(r, j) == c.encrypt(KeyBuffer(key), BlockAt(Padding.Pad(input), j))
    ensures mode == AesCbc ==>
      forall j: nat | BlockLen * j + BlockLen <= |Padding.Pad(input)| ::
        BlockAt(r, j + 1) == c.encrypt(KeyBuffer(key), XorBlock(BlockAt(Padding.Pad(input), j), iv))
  {
    var padded := Padding.Pad(input);
    var kb := KeyBuffer(key);
    match mode
    case AesEcb =>
      ProcessBlocksBlockwise(c, kb, mode, Encrypt, UnusedIv, padded);
      ProcessBlocks(c, kb, mode, Encrypt, UnusedIv, padded)
    case AesCbc =>
      var body := ProcessBlocks(c, kb, mode, Encrypt, iv, padded);
      ProcessBlocksBlockwise(c, kb, mode, Encrypt, iv, padded);
      assert forall j: nat | BlockLen * j + BlockLen <= |body| :: BlockAt(iv + body, j + 1) == BlockAt(body, j);
      iv + body
  }

  /** The decryption buffer before padding is removed. "CBC" takes its IV from
      the first 16 input bytes and decrypts the rest; an input shorter than
      16 bytes cannot hold an IV. The source reads past the end of the input
      there; the model reports a failure instead. */
  function DecryptBuffer(input: Bytes, key: Bytes, mode: CryptoMode, c: BlockCipher): (r: Option<Bytes>)
    ensures r.None? <==> mode == AesCbc && |input| < BlockLen
    ensures r.Some? && mode == AesEcb ==> |r.value| == |input|
    ensures r.Some? && mode == AesCbc ==> |r.value| == |input| - BlockLen
    ensures r.Some? && mode == AesEcb ==>
      forall j: nat | BlockLen * j + BlockLen <= |input| ::
        BlockAt(r.value, j) == c.decrypt(KeyBuffer(key), BlockAt(input, j))
    ensures r.Some? && mode == AesCbc ==>
      forall j: nat | BlockLen * j + BlockLen <= |input| - BlockLen ::
        BlockAt(r.value, j) == XorBlock(c.decrypt(KeyBuffer(key), BlockAt(input, j + 1)), input[..BlockLen])
    ensures r.Some? ==> forall i | BlockLen * (|r.value| / BlockLen) <= i < |r.value| :: r.value[i] == 0
  {
    var kb := KeyBuffer(key);
    match mode
    case AesEcb =>
      ProcessBlocksBlockwise(c, kb, mode, Decrypt, UnusedIv, input);
      Some(ProcessBlocks(c, kb, mode, Decrypt, UnusedIv, input))
    case AesCbc =>
      if |input| < BlockLen then None
      else
        var body := input[BlockLen..];
        ProcessBlocksBlockwise(c, kb, mode, Decrypt, input[..BlockLen], body);
        assert forall j: nat | BlockLen * j + BlockLen <= |body| :: BlockAt(body, j) == BlockAt(input, j + 1);
        Some(ProcessBlocks(c, kb, mode, Decrypt, input[..BlockLen], body))
  }

  /** A decryption buffer shorter than a block is all zeros, so a last byte
      that passes the 1..16 range check never exceeds the buffer's length:
      on this path `removePadding` never meets the case the model's extra
      guard in `Unpad` covers. */
  lemma DecryptBufferNeverOverrunsPadding(input: Bytes, key: Bytes, mode: CryptoMode, c: BlockCipher)
    requires DecryptBuffer(input, key, mode, c).Some?
    ensures var b := DecryptBuffer(input, key, mode, c).value;
      |b| > 0 && 1 <= b[|b| - 1] as int <= BlockLen ==> b[|b| - 1] as int <= |b|
  {
    var b := DecryptBuffer(input, key, mode, c).value;
    if 0 < |b| < BlockLen {
      assert b == Zeros(|b|);
      assert b[|b| - 1] == 0;
    }
  }

  function DecryptData(input: Bytes, key: Bytes, mode: CryptoMode, c: BlockCipher): (r: Option<Bytes>)
    ensures r.None? <==> mode == AesCbc && |input| < BlockLen
    ensures r.Some? ==> |r.value| <= |input|
  {
    match DecryptBuffer(input, key, mode, c)
    case None => None
    case Some(b) => Some(Padding.Unpad(b))
  }

  /** `processData`: `freshIv` stands for the IV `generateIV` draws; it is used
      only when encrypting in "CBC". */
  function ProcessData(input: Bytes, key: Bytes, mode: CryptoMode, op: Operation, c: BlockCipher, freshIv: Block): (r: Option<Bytes>)
    ensures op == Encrypt ==> r.Some? && |r.value| % BlockLen == 0 && |input| < |r.value|
    ensures op == Encrypt && mode == AesCbc ==> r.value[..BlockLen] == freshIv
    ensures r.None? <==> op == Decrypt && mode == AesCbc && |input| < BlockLen
  {
    match op
    case Encrypt => Some(EncryptData(input, key, mode, c, freshIv))
    case Decrypt => DecryptData(input, key, mode, c)
  }

  /** Decrypting with the same key and mode restores the plaintext, whatever
      IV encryption drew. */
  lemma EncryptDecryptRoundTrip(input: Bytes, key: Bytes, mode: CryptoMode, c: BlockCipher, iv: Block)
    requires Invertible(c)
    ensures ProcessData(ProcessData(input, key, mode, Encrypt, c, iv).value, key, mode, Decrypt, c, iv) == Some(input)
  {
    var padded := Padding.Pad(input);
    var kb := KeyBuffer(key);
    var e := EncryptData(input, key, mode, c, iv);
    match mode
    case AesEcb =>
      ProcessBlocksRoundTrip(c, kb, mode, UnusedIv, padded);
      Padding.PadThenUnpad(input);
    case AesCbc =>
      var body := ProcessBlocks(c, kb, mode, Encrypt, iv, padded);
      assert e == iv + body;
      assert e[..BlockLen] == iv;
      assert e[BlockLen..] == body;
      ProcessBlocksRoundTrip(c, kb, mode, iv, padded);
      Padding.PadThenUnpad(input);
  }
}
