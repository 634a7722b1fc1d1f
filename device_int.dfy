/** The memory image of one `rocsparse_int`: four bytes, least significant
    first, holding a 32-bit two's-complement integer. The zero-pivot reporter
    moves this image around with byte copies and byte fills, so the model
    keeps the bytes and decodes them only where the library compares values. */
module DeviceInt {

  newtype Byte = b: int | 0 <= b < 256

  /** sizeof(rocsparse_int) */
  const IntSize: nat := 4

  type IntImage = s: seq<Byte> | |s| == IntSize witness [0, 0, 0, 0]

  /** std::numeric_limits<rocsparse_int>::max() and ::min() */
  const IntMax: int := 0x7fff_ffff
  const IntMin: int := -0x8000_0000

  predicate IsInt(x: int) {
    IntMin <= x <= IntMax
  }

  function Pow256(n: nat): (p: nat)
    ensures p >= 1
  {
    if n == 0 then 1 else 256 * Pow256(n - 1)
  }

  /** The unsigned value of a little-endian byte string. */
  function LittleEndian(bs: seq<Byte>): (u: nat)
    ensures u < Pow256(|bs|)
  {
    if bs == [] then 0 else bs[0] as nat + 256 * LittleEndian(bs[1..])
  }

  /** The n-byte little-endian string of an unsigned value below 256^n. */
  function ToLittleEndian(u: nat, n: nat): (bs: seq<Byte>)
    requires u < Pow256(n)
    ensures |bs| == n
  {
    if n == 0 then [] else [(u % 256) as Byte] + ToLittleEndian(u / 256, n - 1)
  }

  lemma {:induction false} LittleEndianRoundTrip(u: nat, n: nat)
    requires u < Pow256(n)
    ensures LittleEndian(ToLittleEndian(u, n)) == u
  {
    if n > 0 {
      var bs := ToLittleEndian(u, n);
      assert bs[1..] == ToLittleEndian(u / 256, n - 1);
      LittleEndianRoundTrip(u / 256, n - 1);
    }
  }

  lemma {:induction false} ToLittleEndianRoundTrip(bs: seq<Byte>)
    ensures ToLittleEndian(LittleEndian(bs), |bs|) == bs
  {
    if bs != [] {
      var u := LittleEndian(bs);
      assert u % 256 == bs[0] as nat;
      assert u / 256 == LittleEndian(bs[1..]);
      ToLittleEndianRoundTrip(bs[1..]);
    }
  }

  /** The value a rocsparse_int with this memory image holds. */
  function Decode(bs: IntImage): (x: int)
    ensures IsInt(x)
  {
    var u := LittleEndian(bs);
    if u <= IntMax then u else u - Pow256(IntSize)
  }

  /** The memory image of a rocsparse_int holding x. */
  function Encode(x: int): (bs: IntImage)
    requires IsInt(x)
  {
    ToLittleEndian(if x < 0 then x + Pow256(IntSize) else x, IntSize)
  }

  /** hipMemsetAsync(p, b, sizeof(rocsparse_int)): every byte set to b. */
  function Fill(b: Byte): (bs: IntImage)
    ensures forall i :: 0 <= i < |bs| ==> bs[i] == b
  {
    [b, b, b, b]
  }

  lemma DecodeEncode(x: int)
    requires IsInt(x)
    ensures Decode(Encode(x)) == x
  {
    LittleEndianRoundTrip(if x < 0 then x + Pow256(IntSize) else x, IntSize);
  }

  lemma EncodeDecode(bs: IntImage)
    ensures Encode(Decode(bs)) == bs
  {
    ToLittleEndianRoundTrip(bs);
  }

  /** Filling every byte with 255 stores -1, the same image as writing -1. */
  lemma FillAllOnesIsMinusOne()
    ensures Decode(Fill(255)) == -1
    ensures Fill(255) == Encode(-1)
  {
  }
}
