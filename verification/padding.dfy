/** PKCS#7-style block padding (RFC 5652 section 6.3) as `CryptoEngine::padData`
    and `CryptoEngine::removePadding` apply it, over 16-byte AES blocks. */
module Padding {
  import opened Prelude

  const BlockSize: nat := 16

  /** Appends `p = 16 - n % 16` copies of the byte `p`: between 1 and 16 bytes,
      a whole block when the input is already block-aligned. */
  function Pad(data: Bytes): (r: Bytes)
    ensures |r| % BlockSize == 0
    ensures |data| < |r| <= |data| + BlockSize
    ensures r[..|data|] == data
    ensures forall i | |data| <= i < |r| :: r[i] == |r| - |data|
  {
    var p := BlockSize - |data| % BlockSize;
    data + seq(p, _ => p)
  }

  /** The checks `removePadding` makes before it strips anything: a last byte
      `p` with 1 <= p <= 16, at least `p` bytes present, and the last `p`
      bytes all equal to `p`. */
  predicate HasValidPadding(data: Bytes) {
    && |data| > 0
    && var p := data[|data| - 1];
    && 1 <= p <= BlockSize
    && p <= |data|
    && forall i | |data| - p <= i < |data| :: data[i] == p
  }

  /** Strips a valid padding run and otherwise returns its input unchanged.
      When `p` exceeds the length, the source's unsigned `dataSize - p`
      wraps, its check loop runs zero times, and the range it returns would
      start before the buffer; the model treats that case as invalid padding. */
  function Unpad(data: Bytes): (r: Bytes)
    ensures |r| <= |data| <= |r| + BlockSize
    ensures r == data[..|r|]
    ensures forall i | |r| <= i < |data| :: data[i] == |data| - |r|
    ensures |r| < |data| <==> HasValidPadding(data)
  {
    if |data| == 0 then data
    else
      var p := data[|data| - 1];
      if p > 16 || p == 0 then data
      else if p > |data| then data
      else if exists i | |data| - p <= i < |data| :: data[i] != p then data
      else data[..|data| - p]
  }

  /** `removePadding(padData(d)) == d` for every byte string `d`. */
  lemma PadThenUnpad(data: Bytes)
    ensures Unpad(Pad(data)) == data
  {
    var padded := Pad(data);
    assert HasValidPadding(padded);
    var r := Unpad(padded);
    assert padded[|padded| - 1] == |padded| - |data|;
    assert |r| == |data|;
  }
}
