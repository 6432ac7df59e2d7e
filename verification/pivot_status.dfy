/**
 * The pivot_status_writer layer, as its unit test pins it down: it keeps one
 * status flag per symbol, sets the flag when a symbol is marked seen or
 * decoded, clears it when a symbol is marked missing, forwards each of these
 * calls unchanged to the layer below, and writes the flags as a bitmap of
 * pivot_status_size() bytes, one bit per symbol, into a caller's buffer.
 *
 * The layer below is the test's dummy layer, which records the last index it
 * was given by each call.
 */
module PivotStatus {
  import opened BinaryField
  import opened Wrappers

  /** The factory a stack is constructed and initialised from. */
  datatype Factory = Factory(maxSymbols: u32, symbols: u32)

  /** A pivot_status_writer stacked on the test's dummy layer. */
  class PivotStatusWriterStack {
    /** One flag per symbol, sized for max_symbols() at construction. */
    var status: seq<bool>
    /** symbols() of the factory the stack was last initialised from. */
    var symbols: nat
    /** The dummy layer's record of the last index forwarded by each call. */
    var lowerMissing: Option<u32>
    var lowerSeen: Option<u32>
    var lowerDecoded: Option<u32>

    ghost predicate Valid()
      reads this
    {
      symbols <= |status|
    }

    /** construct(factory): room for max_symbols() flags, all clear. */
    constructor Construct(f: Factory)
      ensures Valid()
      ensures |status| == f.maxSymbols && symbols == 0
      ensures forall i :: 0 <= i < |status| ==> !status[i]
      ensures lowerMissing == None && lowerSeen == None && lowerDecoded == None
    {
      status := seq(f.maxSymbols, _ => false);
      symbols := 0;
      lowerMissing, lowerSeen, lowerDecoded := None, None, None;
    }

    /** initialize(factory): every flag cleared, ready for symbols() symbols. */
    method Initialize(f: Factory)
      requires Valid() && f.symbols <= |status|
      modifies this
      ensures Valid()
      ensures |status| == old(|status|) && symbols == f.symbols
      ensures forall i :: 0 <= i < |status| ==> !status[i]
      ensures lowerMissing == old(lowerMissing) && lowerSeen == old(lowerSeen)
      ensures lowerDecoded == old(lowerDecoded)
    {
      status := seq(|status|, _ => false);
      symbols := f.symbols;
    }

    /** set_symbol_missing(index): clears the flag and forwards index. */
    method SetSymbolMissing(index: u32)
      requires Valid() && index < symbols
      modifies this
      ensures Valid() && symbols == old(symbols)
      ensures status == old(status)[index := false]
      ensures lowerMissing == Some(index)
      ensures lowerSeen == old(lowerSeen) && lowerDecoded == old(lowerDecoded)
    {
      lowerMissing := Some(index);
      status := status[index := false];
    }

    /** set_symbol_seen(index): sets the flag and forwards index. */
    method SetSymbolSeen(index: u32)
      requires Valid() && index < symbols
      modifies this
      ensures Valid() && symbols == old(symbols)
      ensures status == old(status)[index := true]
      ensures lowerSeen == Some(index)
      ensures lowerMissing == old(lowerMissing) && lowerDecoded == old(lowerDecoded)
    {
      lowerSeen := Some(index);
      status := status[index := true];
    }

    /** set_symbol_decoded(index): sets the flag and forwards index. */
    method SetSymbolDecoded(index: u32)
      requires Valid() && index < symbols
      modifies this
      ensures Valid() && symbols == old(symbols)
      ensures status == old(status)[index := true]
      ensures lowerDecoded == Some(index)
      ensures lowerMissing == old(lowerMissing) && lowerSeen == old(lowerSeen)
    {
      lowerDecoded := Some(index);
      status := status[index := true];
    }

    /** pivot_status_size(): the fewest whole bytes that hold one bit per symbol. */
    function PivotStatusSize(): (n: nat)
      reads this
      ensures 8 * n >= symbols
      ensures n > 0 ==> 8 * (n - 1) < symbols
    {
      (symbols + 7) / 8
    }

    /**
     * write_pivot_status(buffer): bit i of the buffer becomes the flag of
     * symbol i, for every symbol; the buffer's other bits are left alone.
     */
    method WritePivotStatus(buffer: array<bv8>)
      requires Valid() && buffer.Length >= PivotStatusSize()
      modifies buffer
      ensures forall i :: 0 <= i < symbols ==> GetValue(buffer[..], i) == status[i]
      ensures forall i :: symbols <= i < 8 * buffer.Length ==>
        GetValue(buffer[..], i) == GetValue(old(buffer[..]), i)
    {
      var i := 0;
      while i < symbols
        invariant 0 <= i <= symbols
        invariant forall j :: 0 <= j < i ==> GetValue(buffer[..], j) == status[j]
        invariant forall j :: i <= j < 8 * buffer.Length ==>
          GetValue(buffer[..], j) == GetValue(old(buffer[..]), j)
      {
        var updated := SetValue(buffer[..], i, status[i]);
        buffer[i / 8] := updated[i / 8];
        assert buffer[..] == updated;
        i := i + 1;
      }
    }
  }

  /**
   * The unit test's scenario: nine symbols (maximum ten), symbols 1, 7 and 8
   * marked decoded, 5 seen and 6 missing. The status needs two bytes; the
   * bitmap written has exactly bits 1, 5, 7 and 8 set; after re-initialising,
   * a second write into the same buffer has every symbol bit clear.
   */
  method PivotStatusWriterApi() returns (size: nat, written: seq<bv8>, rewritten: seq<bv8>)
    ensures size == 2 && |written| == 2 && |rewritten| == 2
    ensures forall i :: 0 <= i < 9 ==> GetValue(written, i) == (i == 1 || i == 5 || i == 7 || i == 8)
    ensures forall i :: 0 <= i < 9 ==> !GetValue(rewritten, i)
    ensures written == [0xA2, 0x01] && rewritten == [0x00, 0x00]
  {
    var factory := Factory(10, 9);
    var stack := new PivotStatusWriterStack.Construct(factory);
    stack.Initialize(factory);
    size := stack.PivotStatusSize();

    stack.SetSymbolDecoded(1);
    assert stack.lowerDecoded == Some(1);
    stack.SetSymbolSeen(5);
    assert stack.lowerSeen == Some(5);
    stack.SetSymbolMissing(6);
    assert stack.lowerMissing == Some(6);
    stack.SetSymbolDecoded(7);
    assert stack.lowerDecoded == Some(7);
    stack.SetSymbolDecoded(8);
    assert stack.lowerDecoded == Some(8);
    assert stack.status[..9] == [false, true, false, false, false, true, false, true, true];

    var buffer := new bv8[size](_ => 0);
    stack.WritePivotStatus(buffer);
    written := buffer[..];
    WrittenBitmap(written, stack.status[..9], [0, 0], 0xA2, 0x01);

    stack.Initialize(factory);
    assert stack.status[..9] == seq(9, _ => false);
    stack.WritePivotStatus(buffer);
    rewritten := buffer[..];
    WrittenBitmap(rewritten, stack.status[..9], written, 0x00, 0x00);
  }

  /**
   * Two bytes holding nine written status bits and seven bits carried over
   * from an earlier buffer.
   */
  lemma WrittenBitmap(buf: seq<bv8>, flags: seq<bool>, earlier: seq<bv8>, lo: bv8, hi: bv8)
    requires |buf| == 2 && |flags| == 9 && |earlier| == 2
    requires forall i :: 0 <= i < 9 ==> GetValue(buf, i) == flags[i]
    requires forall i :: 9 <= i < 16 ==> GetValue(buf, i) == GetValue(earlier, i)
    requires forall i :: 9 <= i < 16 ==> !GetValue(earlier, i)
    requires forall k :: 0 <= k < 8 ==> BitOf(lo, k) == flags[k]
    requires BitOf(hi, 0) == flags[8]
    requires forall k :: 1 <= k < 8 ==> !BitOf(hi, k)
    ensures buf == [lo, hi]
  {
    ByteOfValues(buf, 0, lo);
    forall k | 0 <= k < 8 ensures GetValue(buf, 8 + k) == BitOf(hi, k) {
      if k > 0 { assert GetValue(buf, 8 + k) == GetValue(earlier, 8 + k); }
    }
    ByteOfValues(buf, 1, hi);
  }
}
