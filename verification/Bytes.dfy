/**
 The memory images that the library writes and reads: a `DataBuffer`, a `Snapshot` and a
 `Message` all copy the bytes of an `int` or a `size_t` verbatim. The byte order is fixed here
 to little-endian, with 4-byte two's-complement `int` and 8-byte `size_t`.
 */
module Bytes {

  type Byte = x: int | 0 <= x < 256

  const TWO_32: int := 0x1_0000_0000
  const TWO_63: int := 0x8000_0000_0000_0000
  const TWO_64: int := 0x1_0000_0000_0000_0000

  /** No `std::vector<unsigned char>` holds this many bytes or more. */
  const VECTOR_LIMIT: int := TWO_63

  const INT_BYTES: int := 4
  const SIZE_BYTES: int := 8

  type Int32 = x: int | -0x8000_0000 <= x < 0x8000_0000
  type SizeT = x: int | 0 <= x < 0x1_0000_0000_0000_0000

  function Pow256(k: nat): (p: nat)
    ensures p > 0
  {
    if k == 0 then 1 else 256 * Pow256(k - 1)
  }

  /** The `k` low bytes of `n`, least significant first. */
  function LittleEndian(n: nat, k: nat): (s: seq<Byte>)
    ensures |s| == k
    decreases n, k
  {
    if k == 0 then [] else [n % 256] + LittleEndian(n / 256, k - 1)
  }

  function FromLittleEndian(s: seq<Byte>): nat
  {
    if s == [] then 0 else s[0] + 256 * FromLittleEndian(s[1..])
  }

  lemma {:induction false} FromLittleEndianBound(s: seq<Byte>)
    ensures FromLittleEndian(s) < Pow256(|s|)
  {
    if s != [] {
      FromLittleEndianBound(s[1..]);
    }
  }

  lemma {:induction false} DecodeAfterEncode(n: nat, k: nat)
    requires n < Pow256(k)
    ensures FromLittleEndian(LittleEndian(n, k)) == n
    decreases k
  {
    if k > 0 {
      DecodeAfterEncode(n / 256, k - 1);
      assert LittleEndian(n, k)[1..] == LittleEndian(n / 256, k - 1);
    }
  }

  lemma {:induction false} EncodeAfterDecode(s: seq<Byte>)
    ensures LittleEndian(FromLittleEndian(s), |s|) == s
  {
    if s != [] {
      EncodeAfterDecode(s[1..]);
      LowestDigit(s[0], FromLittleEndian(s[1..]));
      LittleEndianCons(s[0], FromLittleEndian(s[1..]), |s| - 1);
      assert s == [s[0]] + s[1..];
    }
  }

  lemma LowestDigit(b: Byte, n: nat)
    ensures (b + 256 * n) % 256 == b && (b + 256 * n) / 256 == n
  {
  }

  lemma LittleEndianCons(b: Byte, n: nat, k: nat)
    ensures LittleEndian(b + 256 * n, k + 1) == [b] + LittleEndian(n, k)
  {
    LowestDigit(b, n);
  }

  lemma FieldWidths()
    ensures Pow256(INT_BYTES) == TWO_32
    ensures Pow256(SIZE_BYTES) == TWO_64
  {
    assert Pow256(2) == 0x1_0000;
    assert Pow256(4) == 0x1_0000 * Pow256(2);
    assert Pow256(6) == 0x1_0000 * Pow256(4);
    assert Pow256(8) == 0x1_0000 * Pow256(6);
  }

  function EncodeSize(n: SizeT): (s: seq<Byte>)
    ensures |s| == SIZE_BYTES
  {
    LittleEndian(n, SIZE_BYTES)
  }

  function DecodeSize(s: seq<Byte>): SizeT
    requires |s| == SIZE_BYTES
  {
    FromLittleEndianBound(s);
    FieldWidths();
    FromLittleEndian(s)
  }

  function EncodeInt(t: Int32): (s: seq<Byte>)
    ensures |s| == INT_BYTES
  {
    LittleEndian(if t < 0 then t + TWO_32 else t, INT_BYTES)
  }

  function DecodeInt(s: seq<Byte>): Int32
    requires |s| == INT_BYTES
  {
    FromLittleEndianBound(s);
    FieldWidths();
    var n := FromLittleEndian(s);
    if n < 0x8000_0000 then n else n - TWO_32
  }

  lemma FourDigits(s: seq<Byte>)
    requires |s| == INT_BYTES
    ensures FromLittleEndian(s) == s[0] as int + 0x100 * s[1] as int + 0x1_0000 * s[2] as int + 0x100_0000 * s[3] as int
  {
    var a, b, c := s[1..], s[2..], s[3..];
    assert a[1..] == b && b[1..] == c && c[1..] == [];
    assert FromLittleEndian(c) == s[3];
    assert FromLittleEndian(b) == s[2] as int + 0x100 * s[3] as int;
  }

  lemma EightDigits(s: seq<Byte>)
    requires |s| == SIZE_BYTES
    ensures FromLittleEndian(s) == FromLittleEndian(s[..INT_BYTES]) + TWO_32 * FromLittleEndian(s[INT_BYTES..])
  {
    DigitsSplit(s, INT_BYTES);
    FieldWidths();
  }

  lemma {:induction false} DigitsSplit(s: seq<Byte>, k: nat)
    requires k <= |s|
    ensures FromLittleEndian(s) == FromLittleEndian(s[..k]) + Pow256(k) * FromLittleEndian(s[k..])
    decreases k
  {
    if k > 0 {
      DigitsSplit(s[1..], k - 1);
      assert s[..k][1..] == s[1..][..k - 1] && s[1..][k - 1..] == s[k..];
      Scale(Pow256(k - 1), FromLittleEndian(s[k..]));
    } else {
      assert s[0..] == s;
    }
  }

  lemma Scale(a: int, b: int)
    ensures 256 * (a * b) == (256 * a) * b
  {
  }

  /** Which byte of an `int` holds which digit: the lowest first, a negative value as its complement. */
  lemma IntImage(t: Int32)
    ensures var s := EncodeInt(t);
            s[0] as int + 0x100 * s[1] as int + 0x1_0000 * s[2] as int + 0x100_0000 * s[3] as int
            == if t < 0 then t + TWO_32 else t
  {
    FieldWidths();
    FourDigits(EncodeInt(t));
    DecodeAfterEncode(if t < 0 then t + TWO_32 else t, INT_BYTES);
  }

  /** Which byte of a `size_t` holds which digit. */
  lemma SizeImage(n: SizeT)
    ensures var s := EncodeSize(n);
            s[0] as int + 0x100 * s[1] as int + 0x1_0000 * s[2] as int + 0x100_0000 * s[3] as int
            + TWO_32 * (s[4] as int + 0x100 * s[5] as int + 0x1_0000 * s[6] as int + 0x100_0000 * s[7] as int) == n
  {
    FieldWidths();
    var s := EncodeSize(n);
    EightDigits(s);
    FourDigits(s[..INT_BYTES]);
    FourDigits(s[INT_BYTES..]);
    DecodeAfterEncode(n, SIZE_BYTES);
  }

  /** The 8-byte image of a `size_t` is a bijection. */
  lemma SizeCodec(n: SizeT, s: seq<Byte>)
    requires |s| == SIZE_BYTES
    ensures DecodeSize(EncodeSize(n)) == n
    ensures EncodeSize(DecodeSize(s)) == s
  {
    FieldWidths();
    DecodeAfterEncode(n, SIZE_BYTES);
    EncodeAfterDecode(s);
  }

  /** The 4-byte image of an `int` is a bijection, negative values included. */
  lemma IntCodec(t: Int32, s: seq<Byte>)
    requires |s| == INT_BYTES
    ensures DecodeInt(EncodeInt(t)) == t
    ensures EncodeInt(DecodeInt(s)) == s
  {
    FieldWidths();
    FromLittleEndianBound(s);
    DecodeAfterEncode(if t < 0 then t + TWO_32 else t, INT_BYTES);
    EncodeAfterDecode(s);
  }
}
