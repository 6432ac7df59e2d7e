/**
 * The decode_simple example: three one-byte symbols over GF(2), written down
 * most significant bit first, are bit-reversed in place with reverse_values so
 * that element k of each symbol sits where fifi stores it; the example data
 * satisfy X = C M over GF(2); the decoded bits are printed one symbol per line
 * and the decoded bytes are compared with the originals.
 *
 * The decoder itself is library code and is not part of this model: the bytes
 * it hands back are an input.
 */
module DecodeSimple {
  import opened BinaryField
  import opened Wrappers
  import opened Arithmetic

  // ---------------------------------------------------------------------
  // reverse_values
  // ---------------------------------------------------------------------

  /** s back to front. */
  function Reversed<T>(s: seq<T>): (r: seq<T>)
    ensures |r| == |s|
  {
    if s == [] then [] else [s[|s| - 1]] + Reversed(s[..|s| - 1])
  }

  /** Element k of the reversal is element |s| - 1 - k of the original. */
  lemma {:induction false} ReversedIndex<T>(s: seq<T>, k: nat)
    requires k < |s|
    ensures Reversed(s)[k] == s[|s| - 1 - k]
  {
    if k > 0 {
      ReversedIndex(s[..|s| - 1], k - 1);
    }
  }

  /** Reversing twice gives back the original. */
  lemma ReversedTwice<T>(s: seq<T>)
    ensures Reversed(Reversed(s)) == s
  {
    forall k | 0 <= k < |s| ensures Reversed(Reversed(s))[k] == s[k] {
      ReversedIndex(Reversed(s), k);
      ReversedIndex(s, |s| - 1 - k);
    }
  }

  /**
   * fifi::reverse_values, corrected for length 0: the first length elements
   * are reversed in place by swapping from both ends until the indices meet;
   * the rest of the array is left alone. The source computes j = length - 1
   * in uint32_t, so for length 0 it would start by swapping element 0 with
   * element 2^32 - 1; here length 0 reverses nothing (see SwapsAsWritten).
   */
  method ReverseValues<T>(elements: array<T>, length: nat)
    requires length <= elements.Length
    modifies elements
    ensures elements[..] == Reversed(old(elements[..length])) + old(elements[length..])
  {
    if length == 0 {
      assert elements[..] == old(elements[0..]);
      return;
    }
    var i, j := 0, length - 1;
    while i < j
      invariant 0 <= i && j < length && i + j == length - 1
      invariant i <= j + 1
      invariant forall k :: 0 <= k < i ==>
        elements[k] == old(elements[length - 1 - k]) && elements[length - 1 - k] == old(elements[k])
      invariant forall k :: i <= k <= j ==> elements[k] == old(elements[k])
      invariant forall k :: length <= k < elements.Length ==> elements[k] == old(elements[k])
    {
      elements[i], elements[j] := elements[j], elements[i];
      i, j := i + 1, j - 1;
    }
    ghost var front := old(elements[..length]);
    forall k | 0 <= k < elements.Length
      ensures elements[k] == (Reversed(front) + old(elements[length..]))[k]
    {
      if k < length {
        ReversedIndex(front, k);
        if k > j {
          assert elements[length - 1 - (length - 1 - k)] == old(elements[length - 1 - k]);
        }
      }
    }
  }

  /**
   * The pairs of indices the loop of reverse_values swaps, in order, from
   * indices i and j on: one swap while i < j, then i moves up and j down.
   */
  function SwapsFrom(i: nat, j: nat): seq<(nat, nat)>
    decreases j - i
  {
    if i < j then [(i, j)] + SwapsFrom(i + 1, j - 1) else []
  }

  /**
   * Every swap reverse_values makes, with its uint32_t arithmetic as written:
   * i starts at 0 and j at length - 1 modulo 2^32.
   */
  function SwapsAsWritten(length: u32): seq<(nat, nat)>
  {
    SwapsFrom(0, (length - 1) % U32_MODULUS)
  }

  /** From i < j the loop makes (j - i + 1) / 2 swaps; swap t pairs i + t with j - t. */
  lemma {:induction false} SwapsFromShape(i: nat, j: nat)
    ensures |SwapsFrom(i, j)| == if i < j then (j - i + 1) / 2 else 0
    ensures forall t :: 0 <= t < |SwapsFrom(i, j)| ==>
      SwapsFrom(i, j)[t] == (i + t, j - t) && i + t < j - t
    decreases j - i
  {
    if i < j {
      SwapsFromShape(i + 1, j - 1);
      var rest := SwapsFrom(i + 1, j - 1);
      assert SwapsFrom(i, j) == [(i, j)] + rest;
      forall t | 0 < t < |SwapsFrom(i, j)|
        ensures SwapsFrom(i, j)[t] == (i + t, j - t)
      {
        assert SwapsFrom(i, j)[t] == rest[t - 1];
      }
    }
  }

  /**
   * With length 0, j wraps to 2^32 - 1: the loop makes 2^31 swaps, the first
   * of element 0 with element 2^32 - 1, and every swap reaches past the
   * (empty) range of length 0.
   */
  lemma ReverseEmptyOutOfBounds()
    ensures |SwapsAsWritten(0)| == 0x8000_0000
    ensures SwapsAsWritten(0)[0] == (0, 0xFFFF_FFFF)
    ensures forall t :: 0 <= t < |SwapsAsWritten(0)| ==> SwapsAsWritten(0)[t].1 >= 0x8000_0000
  {
    SwapsFromShape(0, 0xFFFF_FFFF);
  }

  /**
   * For every positive length, the loop makes length / 2 swaps; swap t
   * exchanges elements t and length - 1 - t, both inside the range.
   */
  lemma ReverseNonEmptyInBounds(length: u32)
    requires length >= 1
    ensures |SwapsAsWritten(length)| == length / 2
    ensures forall t :: 0 <= t < |SwapsAsWritten(length)| ==>
      SwapsAsWritten(length)[t] == (t, length - 1 - t) && t < length - 1 - t < length
  {
    SwapsFromShape(0, length - 1);
  }

  // ---------------------------------------------------------------------
  // Bit reversal of the example's symbols
  // ---------------------------------------------------------------------

  /** What reverse_values over GF(2) does to the first length elements of a byte. */
  function ReverseByte(b: bv8, length: nat): bv8
    requires length <= 8
  {
    Pack(Reversed(Bits(b)[..length]) + Bits(b)[length..])
  }

  /** Bit k after reversing the first length bits. */
  lemma ReverseByteBit(b: bv8, length: nat, k: nat)
    requires length <= 8 && k < 8
    ensures BitOf(ReverseByte(b, length), k) ==
      if k < length then BitOf(b, length - 1 - k) else BitOf(b, k)
  {
    var front := Bits(b)[..length];
    if k < length {
      ReversedIndex(front, k);
    }
  }

  /**
   * reverse_values<binary> on one byte: its bits are the field elements, and
   * the first length of them are reversed in place.
   */
  method ReverseSymbolBits(symbol: bv8, length: nat) returns (r: bv8)
    requires length <= 8
    ensures r == ReverseByte(symbol, length)
  {
    var elements := new bool[8](k requires 0 <= k < 8 => BitOf(symbol, k));
    assert elements[..] == Bits(symbol);
    ReverseValues(elements, length);
    r := Pack(elements[..]);
  }

  /** The symbols as the example writes them, most significant bit first. */
  const ORIGINAL_SYMBOLS: seq<bv8> := [0x0D, 0x1C, 0x06]
  const ENCODED_SYMBOLS: seq<bv8> := [0x1C, 0x11, 0x0B]
  const SYMBOL_COEFFICIENTS: seq<bv8> := [0x02, 0x06, 0x05]

  /**
   * The example's first loop: every original and encoded symbol has its eight
   * bits reversed, every coefficient vector its three bits.
   */
  method ReverseExampleData() returns (original: seq<bv8>, encoded: seq<bv8>, coefficients: seq<bv8>)
    ensures |original| == 3 && |encoded| == 3 && |coefficients| == 3
    ensures forall i :: 0 <= i < 3 ==>
      original[i] == ReverseByte(ORIGINAL_SYMBOLS[i], 8) &&
      encoded[i] == ReverseByte(ENCODED_SYMBOLS[i], 8) &&
      coefficients[i] == ReverseByte(SYMBOL_COEFFICIENTS[i], 3)
  {
    original, encoded, coefficients := ORIGINAL_SYMBOLS, ENCODED_SYMBOLS, SYMBOL_COEFFICIENTS;
    for i := 0 to 3
      invariant |original| == 3 && |encoded| == 3 && |coefficients| == 3
      invariant forall k :: 0 <= k < i ==>
        original[k] == ReverseByte(ORIGINAL_SYMBOLS[k], 8) &&
        encoded[k] == ReverseByte(ENCODED_SYMBOLS[k], 8) &&
        coefficients[k] == ReverseByte(SYMBOL_COEFFICIENTS[k], 3)
      invariant forall k :: i <= k < 3 ==>
        original[k] == ORIGINAL_SYMBOLS[k] && encoded[k] == ENCODED_SYMBOLS[k] &&
        coefficients[k] == SYMBOL_COEFFICIENTS[k]
    {
      var o := ReverseSymbolBits(original[i], 8);
      var e := ReverseSymbolBits(encoded[i], 8);
      var c := ReverseSymbolBits(coefficients[i], 3);
      original, encoded, coefficients := original[i := o], encoded[i := e], coefficients[i := c];
    }
  }

  /** The byte whose bit k is bit 7 - k of b. */
  lemma ReverseByteIs(b: bv8, length: nat, r: bv8)
    requires length <= 8
    requires forall k :: 0 <= k < length ==> BitOf(r, k) == BitOf(b, length - 1 - k)
    requires forall k :: length <= k < 8 ==> BitOf(r, k) == BitOf(b, k)
    ensures ReverseByte(b, length) == r
  {
    forall k | 0 <= k < 8 ensures BitOf(ReverseByte(b, length), k) == BitOf(r, k) {
      ReverseByteBit(b, length, k);
    }
    BitsDetermineByte(ReverseByte(b, length), r);
  }

  /**
   * The reversed data: 00001101 becomes 10110000, as the example's comment
   * shows, and likewise for every other symbol and coefficient vector.
   */
  lemma ExampleReversal()
    ensures ReverseByte(0x0D, 8) == 0xB0
    ensures ReverseByte(0x1C, 8) == 0x38 && ReverseByte(0x06, 8) == 0x60
    ensures ReverseByte(0x11, 8) == 0x88 && ReverseByte(0x0B, 8) == 0xD0
    ensures ReverseByte(0x02, 3) == 0x02 && ReverseByte(0x06, 3) == 0x03
    ensures ReverseByte(0x05, 3) == 0x05
  {
    ReverseByteIs(0x0D, 8, 0xB0);
    ReverseByteIs(0x1C, 8, 0x38);
    ReverseByteIs(0x06, 8, 0x60);
    ReverseByteIs(0x11, 8, 0x88);
    ReverseByteIs(0x0B, 8, 0xD0);
    ReverseThreeBits(0x02, 0x02);
    ReverseThreeBits(0x06, 0x03);
    ReverseThreeBits(0x05, 0x05);
  }

  /** Reversing three bits of a byte below 8 as a check on the bits themselves. */
  lemma ReverseThreeBits(b: bv8, r: bv8)
    requires b < 8 && r < 8
    requires BitOf(r, 0) == BitOf(b, 2) && BitOf(r, 1) == BitOf(b, 1) && BitOf(r, 2) == BitOf(b, 0)
    ensures ReverseByte(b, 3) == r
  {
    forall k | 3 <= k < 8 ensures !BitOf(b, k) && !BitOf(r, k) {
      HighBitClear(b, k);
      HighBitClear(r, k);
    }
    ReverseByteIs(b, 3, r);
  }

  lemma HighBitClear(b: bv8, k: nat)
    requires b < 8 && 3 <= k < 8
    ensures !BitOf(b, k)
  {
    match k
    case 3 => case 4 => case 5 => case 6 => case _ =>
  }

  // ---------------------------------------------------------------------
  // X = C M over GF(2)
  // ---------------------------------------------------------------------

  /** Element j of every symbol: one bit column of the symbol matrix. */
  function Column(m: seq<bv8>, j: nat): (col: seq<bool>)
    requires j < 8
    ensures |col| == |m|
    ensures forall k :: 0 <= k < |m| ==> col[k] == BitOf(m[k], j)
  {
    seq(|m|, k requires 0 <= k < |m| => BitOf(m[k], j))
  }

  /** The GF(2) dot product: the parity of the positions where both are 1. */
  function Dot(c: seq<bool>, col: seq<bool>): bool
    requires |c| == |col|
  {
    if c == [] then false
    else Dot(c[..|c| - 1], col[..|c| - 1]) != (c[|c| - 1] && col[|c| - 1])
  }

  /**
   * X = C M over GF(2): every bit j of encoded symbol i is row i of the
   * coefficients times bit column j of the originals.
   */
  predicate EncodedBy(encoded: seq<bv8>, rows: seq<seq<bool>>, original: seq<bv8>)
  {
    |encoded| == |rows| &&
    forall i :: 0 <= i < |rows| ==>
      |rows[i]| == |original| &&
      forall j :: 0 <= j < 8 ==> BitOf(encoded[i], j) == Dot(rows[i], Column(original, j))
  }

  /** A coefficient vector of n elements as written: element k is bit n - 1 - k. */
  function WrittenRow(c: bv8, n: nat): (row: seq<bool>)
    requires n <= 8
    ensures |row| == n
    ensures forall k :: 0 <= k < n ==> row[k] == BitOf(c, n - 1 - k)
  {
    seq(n, k requires 0 <= k < n => BitOf(c, n - 1 - k))
  }

  /** A coefficient vector of n elements as fifi stores it: element k is bit k. */
  function StoredRow(c: bv8, n: nat): (row: seq<bool>)
    requires n <= 8
    ensures |row| == n
    ensures forall k :: 0 <= k < n ==> row[k] == BitOf(c, k)
  {
    Bits(c)[..n]
  }

  /** A dot product with three elements, written out. */
  lemma DotOfThree(c: seq<bool>, col: seq<bool>)
    requires |c| == 3 && |col| == 3
    ensures Dot(c, col) == (((c[0] && col[0]) != (c[1] && col[1])) != (c[2] && col[2]))
  {
    assert c[..2][..1] == c[..1] && col[..2][..1] == col[..1];
    assert c[..1][..0] == [] && col[..1][..0] == [];
    assert Dot(c[..1], col[..1]) == (c[0] && col[0]);
    assert Dot(c[..2], col[..2]) == ((c[0] && col[0]) != (c[1] && col[1]));
  }

  /** The bits of the example's symbols, column by column. */
  lemma ExampleBits(j: nat)
    requires j < 8
    ensures BitOf(0x11, j) == (BitOf(0x0D, j) != BitOf(0x1C, j))
    ensures BitOf(0x0B, j) == (BitOf(0x0D, j) != BitOf(0x06, j))
  {
    match j
    case 0 => case 1 => case 2 => case 3 =>
    case 4 => case 5 => case 6 => case _ =>
  }

  /** The example's data as written satisfy X = C M: X1 = M2, X2 = M1 + M2, X3 = M1 + M3. */
  lemma ExampleWrittenRelation()
    ensures EncodedBy(ENCODED_SYMBOLS,
      [WrittenRow(0x02, 3), WrittenRow(0x06, 3), WrittenRow(0x05, 3)], ORIGINAL_SYMBOLS)
  {
    var rows := [WrittenRow(0x02, 3), WrittenRow(0x06, 3), WrittenRow(0x05, 3)];
    assert rows[0] == [false, true, false];
    assert rows[1] == [true, true, false];
    assert rows[2] == [true, false, true];
    forall i, j | 0 <= i < 3 && 0 <= j < 8
      ensures BitOf(ENCODED_SYMBOLS[i], j) == Dot(rows[i], Column(ORIGINAL_SYMBOLS, j))
    {
      DotOfThree(rows[i], Column(ORIGINAL_SYMBOLS, j));
      ExampleBits(j);
    }
  }

  /** Reversing all eight bits of every symbol turns bit column j into column 7 - j. */
  lemma ColumnOfReversed(m: seq<bv8>, j: nat)
    requires j < 8
    ensures Column(seq(|m|, k requires 0 <= k < |m| => ReverseByte(m[k], 8)), j) == Column(m, 7 - j)
  {
    var reversed := seq(|m|, k requires 0 <= k < |m| => ReverseByte(m[k], 8));
    forall k | 0 <= k < |m| ensures Column(reversed, j)[k] == Column(m, 7 - j)[k] {
      ReverseByteBit(m[k], 8, j);
    }
  }

  /** Reversing three written coefficient bits yields the stored coefficient vector. */
  lemma StoredRowOfReversed(c: bv8)
    ensures StoredRow(ReverseByte(c, 3), 3) == WrittenRow(c, 3)
  {
    forall k | 0 <= k < 3 ensures StoredRow(ReverseByte(c, 3), 3)[k] == WrittenRow(c, 3)[k] {
      ReverseByteBit(c, 3, k);
    }
  }

  /**
   * Reversing the bits of every symbol and of every three-element coefficient
   * vector keeps X = C M: what the decoder is given after the example's
   * reversal loop is a consistent system in fifi's element order.
   */
  lemma ReversalKeepsRelation(encoded: seq<bv8>, coefficients: seq<bv8>, original: seq<bv8>)
    requires |coefficients| == |encoded| && |original| == 3
    requires EncodedBy(encoded, seq(|coefficients|, i requires 0 <= i < |coefficients| => WrittenRow(coefficients[i], 3)), original)
    ensures EncodedBy(
      seq(|encoded|, i requires 0 <= i < |encoded| => ReverseByte(encoded[i], 8)),
      seq(|coefficients|, i requires 0 <= i < |coefficients| => StoredRow(ReverseByte(coefficients[i], 3), 3)),
      seq(3, i requires 0 <= i < 3 => ReverseByte(original[i], 8)))
  {
    var rows := seq(|coefficients|, i requires 0 <= i < |coefficients| => WrittenRow(coefficients[i], 3));
    var rows' := seq(|coefficients|, i requires 0 <= i < |coefficients| => StoredRow(ReverseByte(coefficients[i], 3), 3));
    var encoded' := seq(|encoded|, i requires 0 <= i < |encoded| => ReverseByte(encoded[i], 8));
    var original' := seq(3, i requires 0 <= i < 3 => ReverseByte(original[i], 8));
    forall i, j | 0 <= i < |coefficients| && 0 <= j < 8
      ensures |rows'[i]| == 3 && BitOf(encoded'[i], j) == Dot(rows'[i], Column(original', j))
    {
      StoredRowOfReversed(coefficients[i]);
      ColumnOfReversed(original, j);
      ReverseByteBit(encoded[i], 8, j);
      assert BitOf(encoded[i], 7 - j) == Dot(rows[i], Column(original, 7 - j));
    }
  }

  /** After the example's reversal loop the data still satisfy X = C M. */
  lemma ExampleStoredRelation()
    ensures EncodedBy([0x38, 0x88, 0xD0],
      [StoredRow(0x02, 3), StoredRow(0x03, 3), StoredRow(0x05, 3)], [0xB0, 0x38, 0x60])
  {
    var encoded' := seq(3, i requires 0 <= i < 3 => ReverseByte(ENCODED_SYMBOLS[i], 8));
    var rows' := seq(3, i requires 0 <= i < 3 => StoredRow(ReverseByte(SYMBOL_COEFFICIENTS[i], 3), 3));
    var original' := seq(3, i requires 0 <= i < 3 => ReverseByte(ORIGINAL_SYMBOLS[i], 8));
    assert EncodedBy(encoded', rows', original') by {
      ExampleWrittenRelation();
      var rows := [WrittenRow(0x02, 3), WrittenRow(0x06, 3), WrittenRow(0x05, 3)];
      assert rows == seq(3, i requires 0 <= i < 3 => WrittenRow(SYMBOL_COEFFICIENTS[i], 3));
      ReversalKeepsRelation(ENCODED_SYMBOLS, SYMBOL_COEFFICIENTS, ORIGINAL_SYMBOLS);
    }
    assert encoded' == [0x38, 0x88, 0xD0] by {
      ExampleReversal();
    }
    assert original' == [0xB0, 0x38, 0x60] by {
      ExampleReversal();
    }
    assert rows' == [StoredRow(0x02, 3), StoredRow(0x03, 3), StoredRow(0x05, 3)] by {
      ExampleReversal();
    }
  }

  // ---------------------------------------------------------------------
  // Printing the decoded bits and checking the result
  // ---------------------------------------------------------------------

  function BitChar(b: bool): char
  {
    if b then '1' else '0'
  }

  /** The line printed for symbol s: its width bits, then a newline. */
  function SymbolLine(decoded: seq<bv8>, s: nat, width: nat): (line: string)
    requires (s + 1) * width <= 8 * |decoded|
    ensures |line| == width + 1 && line[width] == '\n'
    ensures forall k :: 0 <= k < width ==> line[k] == BitChar(GetValue(decoded, s * width + k))
  {
    seq(width, k requires 0 <= k < width => BitChar(GetValue(decoded, s * width + k))) + "\n"
  }

  /** The lines of the first count symbols. */
  function DecodedText(decoded: seq<bv8>, count: nat, width: nat): string
    requires count * width <= 8 * |decoded|
  {
    if count == 0 then ""
    else DecodedText(decoded, count - 1, width) + SymbolLine(decoded, count - 1, width)
  }

  /** The printout of count symbols has count lines of width + 1 characters. */
  lemma {:induction false} DecodedTextLength(decoded: seq<bv8>, count: nat, width: nat)
    requires count * width <= 8 * |decoded|
    ensures |DecodedText(decoded, count, width)| == count * (width + 1)
  {
    if count > 0 {
      MulMonotone(count - 1, count, width);
      DecodedTextLength(decoded, count - 1, width);
    }
  }

  /**
   * Character k of line s of the printout is bit s * width + k of the decoded
   * data, or the newline when k == width.
   */
  predicate LaidOut(decoded: seq<bv8>, count: nat, width: nat, s: nat, k: nat)
    requires count * width <= 8 * |decoded|
  {
    && Offset(s, width + 1, k) < |DecodedText(decoded, count, width)|
    && (k < width ==> Offset(s, width, k) < 8 * |decoded|)
    && DecodedText(decoded, count, width)[Offset(s, width + 1, k)] ==
         if k < width then BitChar(GetValue(decoded, Offset(s, width, k))) else '\n'
  }

  lemma {:induction false} DecodedTextAt(decoded: seq<bv8>, count: nat, width: nat, s: nat, k: nat)
    requires count * width <= 8 * |decoded|
    requires s < count && k <= width
    ensures LaidOut(decoded, count, width, s, k)
  {
    var c := count - 1;
    MulMonotone(c, count, width);
    BlockFits(s, count, width);
    DecodedTextLength(decoded, c, width);
    var prev := DecodedText(decoded, c, width);
    var text := DecodedText(decoded, count, width);
    assert text == prev + SymbolLine(decoded, c, width);
    var j := Offset(s, width + 1, k);
    if s < c {
      DecodedTextAt(decoded, c, width, s, k);
      assert text[j] == prev[j];
    } else {
      assert j == |prev| + k;
    }
  }

  /**
   * The layout of the printout: count lines of width + 1 characters; line s
   * holds bits s * width .. s * width + width - 1 in order and ends in a newline.
   */
  lemma DecodedTextLayout(decoded: seq<bv8>, count: nat, width: nat)
    requires count * width <= 8 * |decoded|
    ensures |DecodedText(decoded, count, width)| == count * (width + 1)
    ensures forall s, k :: 0 <= s < count && 0 <= k <= width ==> LaidOut(decoded, count, width, s, k)
  {
    DecodedTextLength(decoded, count, width);
    forall s, k | 0 <= s < count && 0 <= k <= width {
      DecodedTextAt(decoded, count, width, s, k);
    }
  }

  /** The first k bits of the line of symbol s. */
  function PartialLine(decoded: seq<bv8>, start: nat, k: nat): (part: string)
    requires start + k <= 8 * |decoded|
    ensures |part| == k
  {
    seq(k, n requires 0 <= n < k => BitChar(GetValue(decoded, start + n)))
  }

  /** One more bit of the current line. */
  lemma PartialLineStep(decoded: seq<bv8>, start: nat, k: nat)
    requires start + k < 8 * |decoded|
    ensures PartialLine(decoded, start, k + 1) ==
      PartialLine(decoded, start, k) + [BitChar(GetValue(decoded, start + k))]
  {
  }

  /** A full line of width bits closes with a newline and adds a symbol. */
  lemma LineComplete(decoded: seq<bv8>, s: nat, width: nat)
    requires (s + 1) * width <= 8 * |decoded|
    ensures s * width <= (s + 1) * width
    ensures DecodedText(decoded, s + 1, width) ==
      DecodedText(decoded, s, width) + PartialLine(decoded, s * width, width) + "\n"
  {
  }

  /** The text after printing bit k of line s, and the newline that ends a line. */
  lemma PrintedBit(decoded: seq<bv8>, s: nat, k: nat, width: nat)
    requires k < width && (s + 1) * width <= 8 * |decoded|
    ensures s * width + k < 8 * |decoded|
    ensures k + 1 < width ==>
      DecodedText(decoded, s, width) + PartialLine(decoded, s * width, k) +
        [BitChar(GetValue(decoded, s * width + k))] ==
      DecodedText(decoded, s, width) + PartialLine(decoded, s * width, k + 1)
    ensures k + 1 == width ==>
      DecodedText(decoded, s, width) + PartialLine(decoded, s * width, k) +
        [BitChar(GetValue(decoded, s * width + k))] + "\n" ==
      DecodedText(decoded, s + 1, width) + PartialLine(decoded, (s + 1) * width, 0)
  {
    PartialLineStep(decoded, s * width, k);
    if k + 1 == width {
      LineComplete(decoded, s, width);
    }
  }

  /**
   * The example's print loop: symbols * symbol_size * 8 bits, each as 0 or 1,
   * with a newline after every symbol_size * 8 of them.
   */
  method PrintDecodedBits(decoded: seq<bv8>, symbols: nat, symbolSize: nat) returns (text: string)
    requires symbols * symbolSize <= |decoded|
    ensures symbolSize > 0 ==> text == DecodedText(decoded, symbols, symbolSize * 8)
    ensures symbolSize == 0 ==> text == ""
  {
    var width := symbolSize * 8;
    text := "";
    if width == 0 {
      return;
    }
    var total := symbols * width;
    assert total == 8 * (symbols * symbolSize);
    ghost var s, start, k := 0, 0, 0;
    var i := 0;
    while i < total
      invariant start == s * width && i == start + k && 0 <= k < width && s <= symbols
      invariant s == symbols ==> k == 0
      invariant start + k <= total
      invariant text == DecodedText(decoded, s, width) + PartialLine(decoded, start, k)
    {
      PrintStep(s, k, width, symbols, |decoded|);
      PrintedBit(decoded, s, k, width);
      text := text + [BitChar(GetValue(decoded, i))];
      if i % width == width - 1 {
        text := text + "\n";
        s, start, k := s + 1, start + width, 0;
      } else {
        k := k + 1;
      }
      i := i + 1;
    }
    if s < symbols {
      PrintStep(s, k, width, symbols, |decoded|);
    }
  }

  /** The arithmetic behind one step of the print loop. */
  lemma PrintStep(s: nat, k: nat, width: nat, symbols: nat, n: nat)
    requires k < width && s <= symbols && (s == symbols ==> k == 0)
    requires symbols * width <= 8 * n
    ensures s * width + k < symbols * width <==> s < symbols
    ensures s < symbols ==> (s + 1) * width == s * width + width <= 8 * n
    ensures (s * width + k) % width == k
  {
    ModOfSplit(s, k, width);
    if s < symbols {
      MulMonotone(s + 1, symbols, width);
    }
  }

  /** memcmp over the first n bytes: zero exactly when they are equal. */
  function Memcmp(a: seq<bv8>, b: seq<bv8>, n: nat): (r: int)
    requires n <= |a| && n <= |b|
    ensures r == 0 <==> a[..n] == b[..n]
    ensures r < 0 ==> exists i :: 0 <= i < n && a[..i] == b[..i] && a[i] < b[i]
    ensures r > 0 ==> exists i :: 0 <= i < n && a[..i] == b[..i] && a[i] > b[i]
  {
    if n == 0 then 0
    else if a[0] != b[0] then (if a[0] < b[0] then -1 else 1)
    else
      var r := Memcmp(a[1..], b[1..], n - 1);
      assert a[..n] == [a[0]] + a[1..][..n - 1] && b[..n] == [b[0]] + b[1..][..n - 1];
      if r < 0 then
        var i :| 0 <= i < n - 1 && a[1..][..i] == b[1..][..i] && a[1..][i] < b[1..][i];
        assert a[..i + 1] == [a[0]] + a[1..][..i] && b[..i + 1] == [b[0]] + b[1..][..i];
        r
      else if r > 0 then
        var i :| 0 <= i < n - 1 && a[1..][..i] == b[1..][..i] && a[1..][i] > b[1..][i];
        assert a[..i + 1] == [a[0]] + a[1..][..i] && b[..i + 1] == [b[0]] + b[1..][..i];
        r
      else r
  }

  const SUCCESS_MESSAGE: string := "Data decoded correctly\n"
  const FAILURE_MESSAGE: string := "Error: Decoded data differs from original data\n"

  /** The verdict line: success exactly when the first n decoded bytes are the originals. */
  function Verdict(original: seq<bv8>, decoded: seq<bv8>, n: nat): (message: string)
    requires n <= |original| && n <= |decoded|
    ensures message == SUCCESS_MESSAGE <==> original[..n] == decoded[..n]
    ensures message == FAILURE_MESSAGE <==> original[..n] != decoded[..n]
  {
    if Memcmp(original, decoded, n) == 0 then SUCCESS_MESSAGE else FAILURE_MESSAGE
  }

  /**
   * The example's main, from the reversal loop on: decoded holds the
   * decoder's block of symbols * symbol_size bytes. The output reports success
   * exactly when the decoder returned the bit-reversed originals.
   */
  method DecodeSimpleMain(decoded: seq<bv8>) returns (output: string)
    requires |decoded| == 3
    ensures output == "Decoded data:\n" + DecodedText(decoded, 3, 8) +
      (if decoded == [0xB0, 0x38, 0x60] then SUCCESS_MESSAGE else FAILURE_MESSAGE)
  {
    var original, encoded, coefficients := ReverseExampleData();
    ExampleReversal();
    var bits := PrintDecodedBits(decoded, 3, 1);
    output := "Decoded data:\n" + bits + Verdict(original, decoded, 3 * 1);
    assert original == [0xB0, 0x38, 0x60];
    assert original[..3] == original && decoded[..3] == decoded;
  }
}
