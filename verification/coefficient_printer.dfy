/**
 * The debug_coefficient_storage layer: it prints the stored coefficient
 * vectors as text, one line per vector in index order. A line is the vector's
 * index in decimal and ":\t", then every coefficient in decimal followed by
 * "\t", then a newline.
 *
 * The text format is given by CoefficientText; ParseCoefficientText reads it
 * back, and CoefficientTextRoundTrip shows that the text determines the matrix.
 */
module CoefficientPrinter {
  import opened BinaryField
  import opened Wrappers

  /** The finite fields a coefficient storage can be instantiated with. */
  datatype Field = Binary | Binary8 | Binary16 | Prime2325

  /** Number of elements of the field; every one fits in a uint32_t. */
  function Order(f: Field): (n: nat)
    ensures 2 <= n <= U32_MODULUS
  {
    match f
    case Binary => 2
    case Binary8 => 0x100
    case Binary16 => 0x1_0000
    case Prime2325 => 0xFFFF_FFFB
  }

  // ---------------------------------------------------------------------
  // The text format
  // ---------------------------------------------------------------------

  predicate IsDigit(c: char)
  {
    '0' <= c <= '9'
  }

  predicate AllDigits(s: string)
  {
    forall k :: 0 <= k < |s| ==> IsDigit(s[k])
  }

  function DigitChar(d: nat): (c: char)
    requires d < 10
    ensures IsDigit(c)
  {
    ('0' as int + d) as char
  }

  /** An unsigned integer written in decimal, as an output stream writes it. */
  function Decimal(n: nat): (s: string)
    ensures |s| > 0 && AllDigits(s)
    ensures |s| > 1 ==> s[0] != '0'
  {
    if n < 10 then [DigitChar(n)] else Decimal(n / 10) + [DigitChar(n % 10)]
  }

  /** Every value in decimal, each followed by a tab. */
  function ValuesText(values: seq<nat>): string
  {
    if values == [] then "" else Decimal(values[0]) + "\t" + ValuesText(values[1..])
  }

  /** The line print_coefficient_vector_value writes for vector number index. */
  function VectorLine(index: nat, values: seq<nat>): string
  {
    Decimal(index) + ":\t" + ValuesText(values) + "\n"
  }

  /** The lines for vectors, the first of them numbered first. */
  function LinesFrom(first: nat, vectors: seq<seq<nat>>): string
    decreases |vectors|
  {
    if vectors == [] then ""
    else VectorLine(first, vectors[0]) + LinesFrom(first + 1, vectors[1..])
  }

  /** What print_coefficient_vector_values writes for a whole matrix. */
  function CoefficientText(vectors: seq<seq<nat>>): string
  {
    LinesFrom(0, vectors)
  }

  lemma {:induction false} ValuesTextSnoc(values: seq<nat>, v: nat)
    ensures ValuesText(values + [v]) == ValuesText(values) + Decimal(v) + "\t"
  {
    if values != [] {
      assert (values + [v])[1..] == values[1..] + [v];
      ValuesTextSnoc(values[1..], v);
    }
  }

  lemma {:induction false} LinesFromSnoc(first: nat, vectors: seq<seq<nat>>, v: seq<nat>)
    ensures LinesFrom(first, vectors + [v]) ==
      LinesFrom(first, vectors) + VectorLine(first + |vectors|, v)
    decreases |vectors|
  {
    if vectors != [] {
      assert (vectors + [v])[1..] == vectors[1..] + [v];
      LinesFromSnoc(first + 1, vectors[1..], v);
    }
  }

  // ---------------------------------------------------------------------
  // Reading the text back
  // ---------------------------------------------------------------------

  /** Number of leading decimal digits. */
  function DigitsPrefix(s: string): (n: nat)
    ensures n <= |s| && AllDigits(s[..n])
    ensures n < |s| ==> !IsDigit(s[n])
  {
    if s == [] || !IsDigit(s[0]) then 0
    else
      var n := 1 + DigitsPrefix(s[1..]);
      assert s[..n] == [s[0]] + s[1..][..n - 1];
      n
  }

  /** The number a string of decimal digits denotes. */
  function DigitsValue(d: string): nat
    requires AllDigits(d)
  {
    if d == [] then 0 else DigitsValue(d[..|d| - 1]) * 10 + (d[|d| - 1] as int - '0' as int)
  }

  /** A decimal number at the front of s, and what follows it. */
  function ParseNumber(s: string): (r: Option<(nat, string)>)
    ensures r.Some? ==> |r.value.1| < |s|
  {
    var n := DigitsPrefix(s);
    if n == 0 then None else Some((DigitsValue(s[..n]), s[n..]))
  }

  /** Tab-terminated numbers up to and including a newline. */
  function ParseValues(s: string): (r: Option<(seq<nat>, string)>)
    ensures r.Some? ==> |r.value.1| < |s|
    decreases |s|
  {
    if |s| > 0 && s[0] == '\n' then Some(([], s[1..]))
    else
      match ParseNumber(s)
      case None => None
      case Some((v, rest)) =>
        if |rest| > 0 && rest[0] == '\t' then
          match ParseValues(rest[1..])
          case None => None
          case Some((vs, tail)) => Some(([v] + vs, tail))
        else None
  }

  /** Lines numbered first, first + 1, ... up to the end of s. */
  function ParseLines(s: string, first: nat): Option<seq<seq<nat>>>
    decreases |s|
  {
    if s == [] then Some([])
    else
      match ParseNumber(s)
      case None => None
      case Some((index, rest)) =>
        if index == first && |rest| >= 2 && rest[0] == ':' && rest[1] == '\t' then
          match ParseValues(rest[2..])
          case None => None
          case Some((values, tail)) =>
            match ParseLines(tail, first + 1)
            case None => None
            case Some(more) => Some([values] + more)
        else None
  }

  /** Reads a whole printout back into the matrix it was printed from. */
  function ParseCoefficientText(s: string): Option<seq<seq<nat>>>
  {
    ParseLines(s, 0)
  }

  lemma {:induction false} DigitsPrefixOfDigits(d: string, rest: string)
    requires AllDigits(d)
    requires rest == [] || !IsDigit(rest[0])
    ensures DigitsPrefix(d + rest) == |d|
  {
    if d != [] {
      assert (d + rest)[1..] == d[1..] + rest;
      DigitsPrefixOfDigits(d[1..], rest);
    }
  }

  lemma {:induction false} DigitsValueOfDecimal(n: nat)
    ensures DigitsValue(Decimal(n)) == n
  {
    if n >= 10 {
      var d := Decimal(n);
      assert d[..|d| - 1] == Decimal(n / 10);
      DigitsValueOfDecimal(n / 10);
    }
  }

  /** A number printed in decimal is read back exactly, whatever non-digit follows it. */
  lemma DecimalRoundTrip(n: nat, rest: string)
    requires rest == [] || !IsDigit(rest[0])
    ensures ParseNumber(Decimal(n) + rest) == Some((n, rest))
  {
    var d := Decimal(n);
    DigitsPrefixOfDigits(d, rest);
    assert (d + rest)[..|d|] == d;
    assert (d + rest)[|d|..] == rest;
    DigitsValueOfDecimal(n);
  }

  lemma ParseValuesStep(s: string, v: nat, tail: string, vs: seq<nat>, rest: string)
    requires |s| > 0 && IsDigit(s[0])
    requires ParseNumber(s) == Some((v, tail))
    requires |tail| > 0 && tail[0] == '\t'
    requires ParseValues(tail[1..]) == Some((vs, rest))
    ensures ParseValues(s) == Some(([v] + vs, rest))
  {
  }

  lemma {:induction false} ValuesRoundTrip(values: seq<nat>, rest: string)
    ensures ParseValues(ValuesText(values) + "\n" + rest) == Some((values, rest))
  {
    var s := ValuesText(values) + "\n" + rest;
    if values == [] {
      assert s == "\n" + rest;
      assert s[1..] == rest;
    } else {
      var v := values[0];
      var inner := ValuesText(values[1..]) + "\n" + rest;
      var tail := "\t" + inner;
      assert s == Decimal(v) + tail;
      assert s[0] == Decimal(v)[0];
      DecimalRoundTrip(v, tail);
      ValuesRoundTrip(values[1..], rest);
      assert tail[1..] == inner;
      ParseValuesStep(s, v, tail, values[1..], rest);
      assert [v] + values[1..] == values;
    }
  }

  lemma ParseLinesStep(s: string, first: nat, afterIndex: string, values: seq<nat>, later: string, more: seq<seq<nat>>)
    requires s != []
    requires ParseNumber(s) == Some((first, afterIndex))
    requires |afterIndex| >= 2 && afterIndex[0] == ':' && afterIndex[1] == '\t'
    requires ParseValues(afterIndex[2..]) == Some((values, later))
    requires ParseLines(later, first + 1) == Some(more)
    ensures ParseLines(s, first) == Some([values] + more)
  {
  }

  lemma {:induction false} LinesRoundTrip(first: nat, vectors: seq<seq<nat>>)
    ensures ParseLines(LinesFrom(first, vectors), first) == Some(vectors)
    decreases |vectors|
  {
    if vectors != [] {
      var later := LinesFrom(first + 1, vectors[1..]);
      var inner := ValuesText(vectors[0]) + "\n" + later;
      var afterIndex := ":\t" + inner;
      var s := LinesFrom(first, vectors);
      assert s == Decimal(first) + afterIndex;
      DecimalRoundTrip(first, afterIndex);
      assert afterIndex[2..] == inner;
      ValuesRoundTrip(vectors[0], later);
      LinesRoundTrip(first + 1, vectors[1..]);
      ParseLinesStep(s, first, afterIndex, vectors[0], later, vectors[1..]);
      assert [vectors[0]] + vectors[1..] == vectors;
    }
  }

  /**
   * The printout determines the matrix: reading it back yields exactly the
   * printed vectors, in order, each with exactly its own values.
   */
  lemma CoefficientTextRoundTrip(vectors: seq<seq<nat>>)
    ensures ParseCoefficientText(CoefficientText(vectors)) == Some(vectors)
  {
    LinesRoundTrip(0, vectors);
  }

  /** Two matrices with the same printout are the same matrix. */
  lemma CoefficientTextInjective(a: seq<seq<nat>>, b: seq<seq<nat>>)
    requires CoefficientText(a) == CoefficientText(b)
    ensures a == b
  {
    CoefficientTextRoundTrip(a);
    CoefficientTextRoundTrip(b);
  }

  // ---------------------------------------------------------------------
  // The storage and its print functions
  // ---------------------------------------------------------------------

  /**
   * A coefficient storage with the debug printing layer on top: vectors
   * coefficient vectors of elements coefficients each, every coefficient an
   * element of the field.
   */
  class DebugCoefficientStorage {
    const field: Field
    const vectors: nat    // coefficient_vectors()
    const elements: nat   // coefficient_vector_elements()
    var coefficients: seq<seq<nat>>

    ghost predicate Valid()
      reads this
    {
      && |coefficients| == vectors
      && (forall i :: 0 <= i < vectors ==> |coefficients[i]| == elements)
      && (forall i, j :: 0 <= i < vectors && 0 <= j < elements ==> coefficients[i][j] < Order(field))
    }

    /** A storage for symbols symbols: symbols vectors of symbols zero coefficients. */
    constructor (field: Field, symbols: nat)
      ensures Valid()
      ensures this.field == field && vectors == symbols && elements == symbols
      ensures coefficients == seq(symbols, _ => seq(symbols, _ => 0))
    {
      this.field := field;
      vectors := symbols;
      elements := symbols;
      coefficients := seq(symbols, _ => seq(symbols, _ => 0));
    }

    /** fifi::set_value on coefficient vector index: coefficient j becomes value. */
    method SetCoefficientValue(index: nat, j: nat, value: nat)
      requires Valid() && index < vectors && j < elements && value < Order(field)
      modifies this
      ensures Valid()
      ensures |coefficients| == old(|coefficients|)
      ensures coefficients[index] == old(coefficients[index])[j := value]
      ensures forall i :: 0 <= i < vectors && i != index ==> coefficients[i] == old(coefficients[i])
    {
      var row: seq<nat> := coefficients[index][j := value];
      coefficients := coefficients[index := row];
    }

    /**
     * print_coefficient_vector_value: appends the line of vector index to the
     * text out already holds. Each coefficient is cast to uint32_t, which
     * leaves it unchanged since every field element fits.
     */
    method PrintCoefficientVectorValue(out: string, index: nat) returns (text: string)
      requires Valid() && index < vectors
      ensures text == out + VectorLine(index, coefficients[index])
    {
      text := out + Decimal(index) + ":\t";
      var c := coefficients[index];
      for j := 0 to elements
        invariant text == out + Decimal(index) + ":\t" + ValuesText(c[..j])
      {
        var value := c[j];
        assert value < U32_MODULUS;
        ValuesTextSnoc(c[..j], value);
        assert c[..j + 1] == c[..j] + [value];
        text := text + Decimal(value) + "\t";
      }
      assert c[..elements] == c;
      text := text + "\n";
    }

    /** print_coefficient_vector_values: appends the lines of all vectors in index order. */
    method PrintCoefficientVectorValues(out: string) returns (text: string)
      requires Valid()
      ensures text == out + CoefficientText(coefficients)
    {
      text := out;
      for i := 0 to vectors
        invariant text == out + LinesFrom(0, coefficients[..i])
      {
        text := PrintCoefficientVectorValue(text, i);
        LinesFromSnoc(0, coefficients[..i], coefficients[i]);
        assert coefficients[..i + 1] == coefficients[..i] + [coefficients[i]];
      }
      assert coefficients[..vectors] == coefficients;
    }
  }

  /**
   * The unit test: three symbols, the diagonal set to 1 in GF(2) and to 255
   * in GF(2^8), each printed into an empty stream.
   */
  method DebugCoefficientStorageApi() returns (binaryText: string, binary8Text: string)
    ensures binaryText == "0:\t1\t0\t0\t\n1:\t0\t1\t0\t\n2:\t0\t0\t1\t\n"
    ensures binary8Text == "0:\t255\t0\t0\t\n1:\t0\t255\t0\t\n2:\t0\t0\t255\t\n"
  {
    binaryText := PrintDiagonal(Binary, 1);
    BinaryIdentityText();
    binary8Text := PrintDiagonal(Binary8, 255);
    Binary8DiagonalText();
  }

  lemma DecimalSmall()
    ensures Decimal(0) == "0" && Decimal(1) == "1" && Decimal(2) == "2"
    ensures Decimal(255) == "255"
  {
    assert Decimal(25) == "25" by { assert Decimal(2) == "2"; }
  }

  /** Builds a 3 x 3 storage over field, sets its diagonal to d and prints it. */
  method PrintDiagonal(field: Field, d: nat) returns (text: string)
    requires d < Order(field)
    ensures text == CoefficientText([[d, 0, 0], [0, d, 0], [0, 0, d]])
  {
    var debug := new DebugCoefficientStorage(field, 3);
    debug.SetCoefficientValue(0, 0, d);
    debug.SetCoefficientValue(1, 1, d);
    debug.SetCoefficientValue(2, 2, d);
    var m: seq<seq<nat>> := [[d, 0, 0], [0, d, 0], [0, 0, d]];
    assert debug.coefficients[0] == m[0] && debug.coefficients[1] == m[1] && debug.coefficients[2] == m[2];
    assert debug.coefficients == m;
    text := debug.PrintCoefficientVectorValues("");
  }

  lemma ThreeLines(a: seq<nat>, b: seq<nat>, c: seq<nat>)
    ensures CoefficientText([a, b, c]) == VectorLine(0, a) + VectorLine(1, b) + VectorLine(2, c)
  {
    var m: seq<seq<nat>> := [a, b, c];
    assert m[1..][1..] == m[2..] && m[2..][1..] == m[3..] && m[3..] == [];
    assert LinesFrom(3, m[3..]) == "";
    assert LinesFrom(2, m[2..]) == VectorLine(2, c) + LinesFrom(3, m[3..]);
    assert LinesFrom(1, m[1..]) == VectorLine(1, b) + LinesFrom(2, m[2..]);
    assert LinesFrom(0, m) == VectorLine(0, a) + LinesFrom(1, m[1..]);
  }

  lemma ThreeValues(x: nat, y: nat, z: nat)
    ensures ValuesText([x, y, z]) == Decimal(x) + "\t" + Decimal(y) + "\t" + Decimal(z) + "\t"
  {
    var v: seq<nat> := [x, y, z];
    assert v[1..][1..] == v[2..] && v[2..][1..] == v[3..] && v[3..] == [];
    assert ValuesText(v[3..]) == "";
    assert ValuesText(v[2..]) == Decimal(z) + "\t" + ValuesText(v[3..]);
    assert ValuesText(v[1..]) == Decimal(y) + "\t" + ValuesText(v[2..]);
    assert ValuesText(v) == Decimal(x) + "\t" + ValuesText(v[1..]);
  }

  /** The printout of a 3 x 3 matrix with d on the diagonal, line by line. */
  lemma DiagonalLines(d: nat)
    ensures CoefficientText([[d, 0, 0], [0, d, 0], [0, 0, d]]) ==
      (Decimal(0) + ":\t" + (Decimal(d) + "\t" + Decimal(0) + "\t" + Decimal(0) + "\t") + "\n") +
      (Decimal(1) + ":\t" + (Decimal(0) + "\t" + Decimal(d) + "\t" + Decimal(0) + "\t") + "\n") +
      (Decimal(2) + ":\t" + (Decimal(0) + "\t" + Decimal(0) + "\t" + Decimal(d) + "\t") + "\n")
  {
    ThreeLines([d, 0, 0], [0, d, 0], [0, 0, d]);
    ThreeValues(d, 0, 0);
    ThreeValues(0, d, 0);
    ThreeValues(0, 0, d);
  }

  /** The GF(2) identity prints as the unit test expects. */
  lemma BinaryIdentityText()
    ensures CoefficientText([[1, 0, 0], [0, 1, 0], [0, 0, 1]]) ==
      "0:\t1\t0\t0\t\n1:\t0\t1\t0\t\n2:\t0\t0\t1\t\n"
  {
    DecimalSmall();
    DiagonalLines(1);
    AssembleDiagonal1(Decimal(0), Decimal(1), Decimal(2), Decimal(1));
  }

  /** The GF(2^8) diagonal of 255 prints as the unit test expects. */
  lemma Binary8DiagonalText()
    ensures CoefficientText([[255, 0, 0], [0, 255, 0], [0, 0, 255]]) ==
      "0:\t255\t0\t0\t\n1:\t0\t255\t0\t\n2:\t0\t0\t255\t\n"
  {
    DecimalSmall();
    DiagonalLines(255);
    AssembleDiagonal255(Decimal(0), Decimal(1), Decimal(2), Decimal(255));
  }

  lemma AssembleDiagonal1(zero: string, one: string, two: string, d: string)
    requires zero == "0" && one == "1" && two == "2" && d == "1"
    ensures (zero + ":\t" + (d + "\t" + zero + "\t" + zero + "\t") + "\n") +
      (one + ":\t" + (zero + "\t" + d + "\t" + zero + "\t") + "\n") +
      (two + ":\t" + (zero + "\t" + zero + "\t" + d + "\t") + "\n") ==
      "0:\t1\t0\t0\t\n1:\t0\t1\t0\t\n2:\t0\t0\t1\t\n"
  {
  }

  lemma AssembleDiagonal255(zero: string, one: string, two: string, d: string)
    requires zero == "0" && one == "1" && two == "2" && d == "255"
    ensures (zero + ":\t" + (d + "\t" + zero + "\t" + zero + "\t") + "\n") +
      (one + ":\t" + (zero + "\t" + d + "\t" + zero + "\t") + "\n") +
      (two + ":\t" + (zero + "\t" + zero + "\t" + d + "\t") + "\n") ==
      "0:\t255\t0\t0\t\n1:\t0\t255\t0\t\n2:\t0\t0\t255\t\n"
  {
  }
}
