/**
 * Bit-level access to values of the binary field GF(2) packed into bytes, as
 * fifi::get_value<fifi::binary> and fifi::set_value<fifi::binary> address them:
 * element i lives in byte i / 8 at bit position i % 8, least significant bit first.
 */
module BinaryField {

  /** C++ uint32_t. */
  type u32 = x: int | 0 <= x < 0x1_0000_0000

  /** Number of distinct uint32_t values; arithmetic on u32 wraps modulo this. */
  const U32_MODULUS: int := 0x1_0000_0000

  /** The byte with only bit k set. */
  function Mask(k: nat): bv8
    requires k < 8
  {
    match k
    case 0 => 0x01 case 1 => 0x02 case 2 => 0x04 case 3 => 0x08
    case 4 => 0x10 case 5 => 0x20 case 6 => 0x40 case _ => 0x80
  }

  /** Bit k of a byte, counting from the least significant bit. */
  predicate BitOf(b: bv8, k: nat)
    requires k < 8
  {
    b & Mask(k) != 0
  }

  /** The eight elements packed in one byte, element 0 first. */
  function Bits(b: bv8): (s: seq<bool>)
    ensures |s| == 8
    ensures forall k :: 0 <= k < 8 ==> s[k] == BitOf(b, k)
  {
    seq(8, k requires 0 <= k < 8 => BitOf(b, k))
  }

  /** The byte whose eight elements are s, element 0 in the least significant bit. */
  function Pack(s: seq<bool>): (b: bv8)
    requires |s| == 8
    ensures forall k :: 0 <= k < 8 ==> BitOf(b, k) == s[k]
  {
    (if s[0] then 0x01 else 0) | (if s[1] then 0x02 else 0) |
    (if s[2] then 0x04 else 0) | (if s[3] then 0x08 else 0) |
    (if s[4] then 0x10 else 0) | (if s[5] then 0x20 else 0) |
    (if s[6] then 0x40 else 0) | (if s[7] then 0x80 else 0)
  }

  /** The byte b with bit k forced to v. */
  function SetBitOf(b: bv8, k: nat, v: bool): (r: bv8)
    requires k < 8
    ensures BitOf(r, k) == v
    ensures forall j :: 0 <= j < 8 && j != k ==> BitOf(r, j) == BitOf(b, j)
  {
    Pack(Bits(b)[k := v])
  }

  /** fifi::get_value<binary>: the binary field element at index i of a packed buffer. */
  predicate GetValue(buffer: seq<bv8>, i: nat)
    requires i < 8 * |buffer|
  {
    BitOf(buffer[i / 8], i % 8)
  }

  /** fifi::set_value<binary>: store v as element i and leave every other element alone. */
  function SetValue(buffer: seq<bv8>, i: nat, v: bool): (r: seq<bv8>)
    requires i < 8 * |buffer|
    ensures |r| == |buffer|
    ensures GetValue(r, i) == v
    ensures forall j :: 0 <= j < 8 * |buffer| && j != i ==> GetValue(r, j) == GetValue(buffer, j)
  {
    buffer[i / 8 := SetBitOf(buffer[i / 8], i % 8, v)]
  }

  /** A byte is determined by its eight elements. */
  lemma BitsDetermineByte(a: bv8, b: bv8)
    requires forall k :: 0 <= k < 8 ==> BitOf(a, k) == BitOf(b, k)
    ensures a == b
  {
    assert BitOf(a, 0) == BitOf(b, 0) && BitOf(a, 1) == BitOf(b, 1);
    assert BitOf(a, 2) == BitOf(b, 2) && BitOf(a, 3) == BitOf(b, 3);
    assert BitOf(a, 4) == BitOf(b, 4) && BitOf(a, 5) == BitOf(b, 5);
    assert BitOf(a, 6) == BitOf(b, 6) && BitOf(a, 7) == BitOf(b, 7);
  }

  /** Byte j of a buffer is determined by the eight elements it holds. */
  lemma ByteOfValues(buffer: seq<bv8>, j: nat, b: bv8)
    requires j < |buffer|
    requires forall k :: 0 <= k < 8 ==> GetValue(buffer, 8 * j + k) == BitOf(b, k)
    ensures buffer[j] == b
  {
    forall k | 0 <= k < 8 ensures BitOf(buffer[j], k) == BitOf(b, k) {
      assert (8 * j + k) / 8 == j && (8 * j + k) % 8 == k;
      assert GetValue(buffer, 8 * j + k) == BitOf(b, k);
    }
    BitsDetermineByte(buffer[j], b);
  }

  /** Packing and unpacking are inverse to each other, both ways round. */
  lemma PackBitsRoundTrip(b: bv8, s: seq<bool>)
    requires |s| == 8
    ensures Pack(Bits(b)) == b
    ensures Bits(Pack(s)) == s
  {
    BitsDetermineByte(Pack(Bits(b)), b);
  }
}
