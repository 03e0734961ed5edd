/** Shared vocabulary: bytes, optional values and results. */
module Prelude {

  /** One octet, as C++ `unsigned char` holds it, by its unsigned value. */
  type Byte = x: int | 0 <= x < 0x100

  type Bytes = seq<Byte>

  /** A value that may be absent: a C++ empty read, a Java null. */
  datatype Option<+T> = None | Some(value: T)

  /** Either a value or an error describing why there is none. */
  datatype Result<+T, +E> = Ok(value: T) | Err(error: E)

  /** `n` zero bytes, as a freshly resized `std::vector<unsigned char>` holds. */
  function Zeros(n: nat): (r: Bytes)
    ensures |r| == n
    ensures forall i | 0 <= i < n :: r[i] == 0
  {
    seq(n, _ => 0)
  }

  /** The bytes a native program receives for a Java string argument that is
      plain ASCII text: one byte per character. */
  predicate IsAscii(s: string) {
    forall i | 0 <= i < |s| :: s[i] as int < 0x80
  }

  function AsciiBytes(s: string): (r: Bytes)
    requires IsAscii(s)
    ensures |r| == |s|
    ensures forall i | 0 <= i < |s| :: r[i] == s[i] as int
  {
    seq(|s|, i requires 0 <= i < |s| => s[i] as int)
  }

  /** Distinct ASCII strings give distinct argument bytes. */
  lemma AsciiBytesInjective(s: string, t: string)
    requires IsAscii(s) && IsAscii(t)
    requires AsciiBytes(s) == AsciiBytes(t)
    ensures s == t
  {
    assert |s| == |t|;
    forall i | 0 <= i < |s|
      ensures s[i] == t[i]
    {
      assert AsciiBytes(s)[i] == AsciiBytes(t)[i];
    }
  }

  function Pow2(n: nat): (p: nat)
    ensures p >= 1
  {
    if n == 0 then 1 else 2 * Pow2(n - 1)
  }

  /** The exclusive or of the lowest bits of `a` and `b`. */
  function LowBit(a: nat, b: nat): (r: nat)
    ensures r < 2
  {
    if a % 2 == b % 2 then 0 else 1
  }

  /** Bitwise exclusive or of the low `n` bits of `a` and `b`. */
  function XorBits(a: nat, b: nat, n: nat): (r: nat)
    ensures r < Pow2(n)
  {
    if n == 0 then 0 else LowBit(a, b) + 2 * XorBits(a / 2, b / 2, n - 1)
  }

  lemma BitSplit(bit: nat, rest: nat)
    requires bit < 2
    ensures (bit + 2 * rest) % 2 == bit
    ensures (bit + 2 * rest) / 2 == rest
  {
  }

  /** One step of `XorBits`: the low bit, then the rest shifted right. */
  lemma XorBitsStep(a: nat, b: nat, n: nat)
    requires n > 0
    ensures XorBits(a, b, n) == LowBit(a, b) + 2 * XorBits(a / 2, b / 2, n - 1)
  {
  }

  /** XOR-ing the same value in twice gives back the original bits. */
  lemma {:induction false} XorBitsTwice(a: nat, b: nat, n: nat)
    requires a < Pow2(n)
    ensures XorBits(XorBits(a, b, n), b, n) == a
  {
    if n > 0 {
      var bit := LowBit(a, b);
      var rest := XorBits(a / 2, b / 2, n - 1);
      var x := XorBits(a, b, n);
      XorBitsStep(a, b, n);
      BitSplit(bit, rest);
      assert a / 2 < Pow2(n - 1);
      XorBitsTwice(a / 2, b / 2, n - 1);
      XorBitsStep(x, b, n);
      assert LowBit(x, b) == a % 2;
    }
  }

  /** The C++ `^` on two `unsigned char` values. */
  function Xor(a: Byte, b: Byte): Byte {
    assert Pow2(8) == 0x100;
    XorBits(a, b, 8)
  }

  lemma XorTwice(a: Byte, b: Byte)
    ensures Xor(Xor(a, b), b) == a
  {
    assert Pow2(8) == 0x100;
    XorBitsTwice(a, b, 8);
  }
}
