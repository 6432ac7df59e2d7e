/**
 * The storage throughput benchmark: the configurations it registers, the
 * erasure of random original symbols before a decoding run, the order in which
 * the decoder is fed, the acceptance of a measurement and the byte count a
 * measurement is based on.
 *
 * The encoder and decoder are library code and are not part of this model: the
 * decoder is a class that records what it is given and answers is_complete()
 * through a completion oracle fixed when it is built. rand() is a stream of
 * draws handed in by the caller.
 */
module StorageBenchmark {
  import opened BinaryField
  import opened Wrappers
  import opened Arithmetic

  // ---------------------------------------------------------------------
  // Configurations
  // ---------------------------------------------------------------------

  /** std::ceil on an exact real: the least integer not below x. */
  function Ceil(x: real): (n: int)
    ensures n as real - 1.0 < x <= n as real
  {
    if x.Floor as real == x then x.Floor else x.Floor + 1
  }

  /** The encoded_symbols value of a configuration: ceil(symbols * redundancy). */
  function EncodedCount(s: u32, r: real): int
  {
    Ceil(s as real * r)
  }

  /**
   * One configuration as the benchmark registers it; density is present only
   * for the sparse benchmark. encodedSymbols holds the exact ceiling, which
   * the option loops require to fit a uint32_t.
   */
  datatype Config = Config(
    symbols: u32,
    symbolSize: u32,
    redundancy: real,
    codingType: string,
    encodedSymbols: int,
    density: Option<real>)

  /** The option lists the benchmark reads from the command line. */
  datatype Options = Options(
    symbols: seq<u32>,
    redundancy: seq<real>,
    symbolSize: seq<u32>,
    types: seq<string>,
    density: seq<real>)

  /** Every option list the dense benchmark asserts non-empty is non-empty. */
  predicate DenseNonEmpty(o: Options)
  {
    |o.symbols| > 0 && |o.redundancy| > 0 && |o.symbolSize| > 0 && |o.types| > 0
  }

  /** Every ceil(s * r) fits the uint32_t it is converted to. */
  predicate EncodedFits(o: Options)
  {
    forall i, k :: 0 <= i < |o.symbols| && 0 <= k < |o.redundancy| ==>
      0 <= EncodedCount(o.symbols[i], o.redundancy[k]) < U32_MODULUS
  }

  /** The concatenation of f(x) for the elements x of xs, in order. */
  function FlatMap<A, B>(xs: seq<A>, f: A -> seq<B>): seq<B>
  {
    if xs == [] then [] else FlatMap(xs[..|xs| - 1], f) + f(xs[|xs| - 1])
  }

  /** One more element of xs contributes its block at the end. */
  lemma FlatMapSnoc<A, B>(xs: seq<A>, f: A -> seq<B>, n: nat)
    requires n < |xs|
    ensures FlatMap(xs[..n + 1], f) == FlatMap(xs[..n], f) + f(xs[n])
  {
    assert xs[..n + 1][..n] == xs[..n];
  }

  /** With blocks of b elements each, the concatenation has |xs| * b elements. */
  lemma {:induction false} FlatMapLength<A, B>(xs: seq<A>, f: A -> seq<B>, b: nat)
    requires forall x :: |f(x)| == b
    ensures |FlatMap(xs, f)| == |xs| * b
  {
    if xs != [] {
      var n := |xs| - 1;
      FlatMapLength(xs[..n], f, b);
      assert |FlatMap(xs, f)| == |FlatMap(xs[..n], f)| + |f(xs[n])|;
      assert n * b + b == |xs| * b;
    }
  }

  /** With blocks of b elements each, element r of block q is element r of f(xs[q]). */
  lemma {:induction false} FlatMapIndex<A, B>(xs: seq<A>, f: A -> seq<B>, b: nat, q: nat, r: nat)
    requires forall x :: |f(x)| == b
    requires q < |xs| && r < b
    ensures Offset(q, b, r) < |FlatMap(xs, f)|
    ensures FlatMap(xs, f)[Offset(q, b, r)] == f(xs[q])[r]
  {
    var n := |xs| - 1;
    FlatMapLength(xs, f, b);
    FlatMapLength(xs[..n], f, b);
    BlockFits(q, |xs|, b);
    if q < n {
      FlatMapIndex(xs[..n], f, b, q, r);
      BlockFits(q, n, b);
    }
  }

  /** The dense configuration for one choice of every option. */
  function DenseConfig(s: u32, p: u32, r: real, t: string): Config
  {
    Config(s, p, r, t, EncodedCount(s, r), None)
  }

  /** The dense configurations for one symbols, symbol_size and redundancy value: one per type. */
  function DenseForRedundancy(o: Options, s: u32, p: u32, r: real): seq<Config>
  {
    FlatMap(o.types, t => [DenseConfig(s, p, r, t)])
  }

  function DenseForSize(o: Options, s: u32, p: u32): seq<Config>
  {
    FlatMap(o.redundancy, r => DenseForRedundancy(o, s, p, r))
  }

  function DenseForSymbols(o: Options, s: u32): seq<Config>
  {
    FlatMap(o.symbolSize, p => DenseForSize(o, s, p))
  }

  /** Every dense configuration: symbols outermost, then symbol_size, redundancy, type. */
  function DenseConfigs(o: Options): seq<Config>
  {
    FlatMap(o.symbols, s => DenseForSymbols(o, s))
  }

  /**
   * throughput_benchmark::get_options: four nested loops registering one
   * configuration per combination of the options, symbols outermost.
   */
  method DenseGetOptions(o: Options) returns (configs: seq<Config>)
    requires DenseNonEmpty(o)
    requires EncodedFits(o)
    ensures configs == DenseConfigs(o)
  {
    configs := [];
    for i := 0 to |o.symbols|
      invariant configs == FlatMap(o.symbols[..i], s => DenseForSymbols(o, s))
    {
      configs := DenseAddSymbols(o, i, configs);
      FlatMapSnoc(o.symbols, s => DenseForSymbols(o, s), i);
    }
    assert o.symbols[..|o.symbols|] == o.symbols;
  }

  /** The symbol_size loop for symbols[i]. */
  method DenseAddSymbols(o: Options, i: nat, configs: seq<Config>) returns (configs': seq<Config>)
    requires i < |o.symbols| && EncodedFits(o)
    ensures configs' == configs + DenseForSymbols(o, o.symbols[i])
  {
    var s := o.symbols[i];
    configs' := configs;
    for j := 0 to |o.symbolSize|
      invariant configs' == configs + FlatMap(o.symbolSize[..j], p => DenseForSize(o, s, p))
    {
      configs' := DenseAddSize(o, i, o.symbolSize[j], configs');
      FlatMapSnoc(o.symbolSize, p => DenseForSize(o, s, p), j);
    }
    assert o.symbolSize[..|o.symbolSize|] == o.symbolSize;
  }

  /** The redundancy loop for symbols[i] and one symbol size. */
  method DenseAddSize(o: Options, i: nat, p: u32, configs: seq<Config>) returns (configs': seq<Config>)
    requires i < |o.symbols| && EncodedFits(o)
    ensures configs' == configs + DenseForSize(o, o.symbols[i], p)
  {
    var s := o.symbols[i];
    configs' := configs;
    for k := 0 to |o.redundancy|
      invariant configs' == configs + FlatMap(o.redundancy[..k], r => DenseForRedundancy(o, s, p, r))
    {
      var r := o.redundancy[k];
      configs' := DenseAddRedundancy(o, s, p, r, EncodedCount(s, r), configs');
      FlatMapSnoc(o.redundancy, r => DenseForRedundancy(o, s, p, r), k);
    }
    assert o.redundancy[..|o.redundancy|] == o.redundancy;
  }

  /** The type loop: one configuration per type, encoded_symbols converted to uint32_t. */
  method DenseAddRedundancy(o: Options, s: u32, p: u32, r: real, encoded: u32, configs: seq<Config>)
    returns (configs': seq<Config>)
    requires encoded == EncodedCount(s, r)
    ensures configs' == configs + DenseForRedundancy(o, s, p, r)
  {
    configs' := configs;
    for l := 0 to |o.types|
      invariant configs' == configs + FlatMap(o.types[..l], t => [DenseConfig(s, p, r, t)])
    {
      configs' := configs' + [Config(s, p, r, o.types[l], encoded, None)];
      FlatMapSnoc(o.types, t => [DenseConfig(s, p, r, t)], l);
    }
    assert o.types[..|o.types|] == o.types;
  }

  lemma DenseForRedundancyLength(o: Options)
    ensures forall s: u32, p: u32, r: real :: |DenseForRedundancy(o, s, p, r)| == |o.types|
  {
    forall s: u32, p: u32, r: real ensures |DenseForRedundancy(o, s, p, r)| == |o.types| {
      FlatMapLength(o.types, t => [DenseConfig(s, p, r, t)], 1);
    }
  }

  lemma DenseForSizeLength(o: Options)
    ensures forall s: u32, p: u32 :: |DenseForSize(o, s, p)| == |o.redundancy| * |o.types|
  {
    DenseForRedundancyLength(o);
    forall s: u32, p: u32 ensures |DenseForSize(o, s, p)| == |o.redundancy| * |o.types| {
      FlatMapLength(o.redundancy, r => DenseForRedundancy(o, s, p, r), |o.types|);
    }
  }

  lemma DenseForSymbolsLength(o: Options)
    ensures forall s: u32 :: |DenseForSymbols(o, s)| == |o.symbolSize| * (|o.redundancy| * |o.types|)
  {
    DenseForSizeLength(o);
    forall s: u32 ensures |DenseForSymbols(o, s)| == |o.symbolSize| * (|o.redundancy| * |o.types|) {
      FlatMapLength(o.symbolSize, p => DenseForSize(o, s, p), |o.redundancy| * |o.types|);
    }
  }

  /** The dense benchmark registers one configuration per combination of the options. */
  lemma DenseCount(o: Options)
    ensures |DenseConfigs(o)| == |o.symbols| * (|o.symbolSize| * (|o.redundancy| * |o.types|))
  {
    DenseForSymbolsLength(o);
    FlatMapLength(o.symbols, s => DenseForSymbols(o, s), |o.symbolSize| * (|o.redundancy| * |o.types|));
  }

  lemma DenseSizeIndex(o: Options, s: u32, p: u32, ri: nat, ti: nat)
    requires ri < |o.redundancy| && ti < |o.types|
    ensures Offset(ri, |o.types|, ti) < |DenseForSize(o, s, p)|
    ensures DenseForSize(o, s, p)[Offset(ri, |o.types|, ti)] == DenseConfig(s, p, o.redundancy[ri], o.types[ti])
  {
    var r := o.redundancy[ri];
    DenseForRedundancyLength(o);
    FlatMapIndex(o.types, t => [DenseConfig(s, p, r, t)], 1, ti, 0);
    FlatMapIndex(o.redundancy, r => DenseForRedundancy(o, s, p, r), |o.types|, ri, ti);
  }

  lemma DenseSymbolsIndex(o: Options, s: u32, pi: nat, ri: nat, ti: nat)
    requires pi < |o.symbolSize| && ri < |o.redundancy| && ti < |o.types|
    ensures Offset(pi, |o.redundancy| * |o.types|, Offset(ri, |o.types|, ti)) < |DenseForSymbols(o, s)|
    ensures DenseForSymbols(o, s)[Offset(pi, |o.redundancy| * |o.types|, Offset(ri, |o.types|, ti))] ==
      DenseConfig(s, o.symbolSize[pi], o.redundancy[ri], o.types[ti])
  {
    var j := Offset(ri, |o.types|, ti);
    var block := |o.redundancy| * |o.types|;
    DenseSizeIndex(o, s, o.symbolSize[pi], ri, ti);
    DenseForSizeLength(o);
    assert j < block;
    FlatMapIndex(o.symbolSize, p => DenseForSize(o, s, p), block, pi, j);
  }

  /**
   * The dense order: the configuration for symbols[si], symbol_size[pi],
   * redundancy[ri] and type[ti] sits at the mixed-radix position with
   * symbols most significant and type least significant.
   */
  lemma DenseOrder(o: Options, si: nat, pi: nat, ri: nat, ti: nat)
    requires si < |o.symbols| && pi < |o.symbolSize| && ri < |o.redundancy| && ti < |o.types|
    ensures Offset(si, |o.symbolSize| * (|o.redundancy| * |o.types|),
      Offset(pi, |o.redundancy| * |o.types|, Offset(ri, |o.types|, ti))) < |DenseConfigs(o)|
    ensures DenseConfigs(o)[Offset(si, |o.symbolSize| * (|o.redundancy| * |o.types|),
      Offset(pi, |o.redundancy| * |o.types|, Offset(ri, |o.types|, ti)))] ==
      DenseConfig(o.symbols[si], o.symbolSize[pi], o.redundancy[ri], o.types[ti])
  {
    var j := Offset(pi, |o.redundancy| * |o.types|, Offset(ri, |o.types|, ti));
    var block := |o.symbolSize| * (|o.redundancy| * |o.types|);
    DenseSymbolsIndex(o, o.symbols[si], pi, ri, ti);
    DenseForSymbolsLength(o);
    assert j < block;
    FlatMapIndex(o.symbols, s => DenseForSymbols(o, s), block, si, j);
  }

  /** Every option list the sparse benchmark asserts non-empty is non-empty. */
  predicate SparseNonEmpty(o: Options)
  {
    DenseNonEmpty(o) && |o.density| > 0
  }

  /** The sparse configuration for one choice of every option, density included. */
  function SparseConfig(s: u32, r: real, p: u32, t: string, d: real): Config
  {
    Config(s, p, r, t, EncodedCount(s, r), Some(d))
  }

  /** The sparse configurations for one symbols, redundancy, symbol_size and type: one per density. */
  function SparseForType(o: Options, s: u32, r: real, p: u32, t: string): seq<Config>
  {
    FlatMap(o.density, d => [SparseConfig(s, r, p, t, d)])
  }

  function SparseForSize(o: Options, s: u32, r: real, p: u32): seq<Config>
  {
    FlatMap(o.types, t => SparseForType(o, s, r, p, t))
  }

  function SparseForRedundancy(o: Options, s: u32, r: real): seq<Config>
  {
    FlatMap(o.symbolSize, p => SparseForSize(o, s, r, p))
  }

  function SparseForSymbols(o: Options, s: u32): seq<Config>
  {
    FlatMap(o.redundancy, r => SparseForRedundancy(o, s, r))
  }

  /** Every sparse configuration: symbols outermost, then redundancy, symbol_size, type, density. */
  function SparseConfigs(o: Options): seq<Config>
  {
    FlatMap(o.symbols, s => SparseForSymbols(o, s))
  }

  /**
   * sparse_throughput_benchmark::get_options: five nested loops, in a different
   * order from the dense benchmark and with density innermost.
   */
  method SparseGetOptions(o: Options) returns (configs: seq<Config>)
    requires SparseNonEmpty(o)
    requires EncodedFits(o)
    ensures configs == SparseConfigs(o)
  {
    configs := [];
    for i := 0 to |o.symbols|
      invariant configs == FlatMap(o.symbols[..i], s => SparseForSymbols(o, s))
    {
      configs := SparseAddSymbols(o, i, configs);
      FlatMapSnoc(o.symbols, s => SparseForSymbols(o, s), i);
    }
    assert o.symbols[..|o.symbols|] == o.symbols;
  }

  /** The redundancy loop for symbols[i]. */
  method SparseAddSymbols(o: Options, i: nat, configs: seq<Config>) returns (configs': seq<Config>)
    requires i < |o.symbols| && EncodedFits(o)
    ensures configs' == configs + SparseForSymbols(o, o.symbols[i])
  {
    var s := o.symbols[i];
    configs' := configs;
    for k := 0 to |o.redundancy|
      invariant configs' == configs + FlatMap(o.redundancy[..k], r => SparseForRedundancy(o, s, r))
    {
      var r := o.redundancy[k];
      configs' := SparseAddRedundancy(o, s, r, EncodedCount(s, r), configs');
      FlatMapSnoc(o.redundancy, r => SparseForRedundancy(o, s, r), k);
    }
    assert o.redundancy[..|o.redundancy|] == o.redundancy;
  }

  /** The symbol_size loop for one symbols and redundancy value. */
  method SparseAddRedundancy(o: Options, s: u32, r: real, encoded: u32, configs: seq<Config>)
    returns (configs': seq<Config>)
    requires encoded == EncodedCount(s, r)
    ensures configs' == configs + SparseForRedundancy(o, s, r)
  {
    configs' := configs;
    for j := 0 to |o.symbolSize|
      invariant configs' == configs + FlatMap(o.symbolSize[..j], p => SparseForSize(o, s, r, p))
    {
      configs' := SparseAddSize(o, s, r, o.symbolSize[j], encoded, configs');
      FlatMapSnoc(o.symbolSize, p => SparseForSize(o, s, r, p), j);
    }
    assert o.symbolSize[..|o.symbolSize|] == o.symbolSize;
  }

  /** The type loop for one symbols, redundancy and symbol_size value. */
  method SparseAddSize(o: Options, s: u32, r: real, p: u32, encoded: u32, configs: seq<Config>)
    returns (configs': seq<Config>)
    requires encoded == EncodedCount(s, r)
    ensures configs' == configs + SparseForSize(o, s, r, p)
  {
    configs' := configs;
    for l := 0 to |o.types|
      invariant configs' == configs + FlatMap(o.types[..l], t => SparseForType(o, s, r, p, t))
    {
      configs' := SparseAddType(o, s, r, p, o.types[l], encoded, configs');
      FlatMapSnoc(o.types, t => SparseForType(o, s, r, p, t), l);
    }
    assert o.types[..|o.types|] == o.types;
  }

  /** The density loop: one configuration per density. */
  method SparseAddType(o: Options, s: u32, r: real, p: u32, t: string, encoded: u32, configs: seq<Config>)
    returns (configs': seq<Config>)
    requires encoded == EncodedCount(s, r)
    ensures configs' == configs + SparseForType(o, s, r, p, t)
  {
    configs' := configs;
    for m := 0 to |o.density|
      invariant configs' == configs + FlatMap(o.density[..m], d => [SparseConfig(s, r, p, t, d)])
    {
      configs' := configs' + [Config(s, p, r, t, encoded, Some(o.density[m]))];
      FlatMapSnoc(o.density, d => [SparseConfig(s, r, p, t, d)], m);
    }
    assert o.density[..|o.density|] == o.density;
  }

  lemma SparseForTypeLength(o: Options)
    ensures forall s: u32, r: real, p: u32, t: string :: |SparseForType(o, s, r, p, t)| == |o.density|
  {
    forall s: u32, r: real, p: u32, t: string ensures |SparseForType(o, s, r, p, t)| == |o.density| {
      FlatMapLength(o.density, d => [SparseConfig(s, r, p, t, d)], 1);
    }
  }

  lemma SparseForSizeLength(o: Options)
    ensures forall s: u32, r: real, p: u32 :: |SparseForSize(o, s, r, p)| == |o.types| * |o.density|
  {
    SparseForTypeLength(o);
    forall s: u32, r: real, p: u32 ensures |SparseForSize(o, s, r, p)| == |o.types| * |o.density| {
      FlatMapLength(o.types, t => SparseForType(o, s, r, p, t), |o.density|);
    }
  }

  lemma SparseForRedundancyLength(o: Options)
    ensures forall s: u32, r: real :: |SparseForRedundancy(o, s, r)| == |o.symbolSize| * (|o.types| * |o.density|)
  {
    SparseForSizeLength(o);
    forall s: u32, r: real ensures |SparseForRedundancy(o, s, r)| == |o.symbolSize| * (|o.types| * |o.density|) {
      FlatMapLength(o.symbolSize, p => SparseForSize(o, s, r, p), |o.types| * |o.density|);
    }
  }

  lemma SparseForSymbolsLength(o: Options)
    ensures forall s: u32 ::
      |SparseForSymbols(o, s)| == |o.redundancy| * (|o.symbolSize| * (|o.types| * |o.density|))
  {
    SparseForRedundancyLength(o);
    forall s: u32 ensures |SparseForSymbols(o, s)| == |o.redundancy| * (|o.symbolSize| * (|o.types| * |o.density|)) {
      FlatMapLength(o.redundancy, r => SparseForRedundancy(o, s, r), |o.symbolSize| * (|o.types| * |o.density|));
    }
  }

  /** The sparse benchmark registers one configuration per combination, densities included. */
  lemma SparseCount(o: Options)
    ensures |SparseConfigs(o)| ==
      |o.symbols| * (|o.redundancy| * (|o.symbolSize| * (|o.types| * |o.density|)))
  {
    SparseForSymbolsLength(o);
    FlatMapLength(o.symbols, s => SparseForSymbols(o, s), |o.redundancy| * (|o.symbolSize| * (|o.types| * |o.density|)));
  }

  lemma SparseSizeIndex(o: Options, s: u32, r: real, p: u32, ti: nat, di: nat)
    requires ti < |o.types| && di < |o.density|
    ensures Offset(ti, |o.density|, di) < |SparseForSize(o, s, r, p)|
    ensures SparseForSize(o, s, r, p)[Offset(ti, |o.density|, di)] ==
      SparseConfig(s, r, p, o.types[ti], o.density[di])
  {
    var t := o.types[ti];
    SparseForTypeLength(o);
    FlatMapIndex(o.density, d => [SparseConfig(s, r, p, t, d)], 1, di, 0);
    FlatMapIndex(o.types, t => SparseForType(o, s, r, p, t), |o.density|, ti, di);
  }

  lemma SparseRedundancyIndex(o: Options, s: u32, r: real, pi: nat, ti: nat, di: nat)
    requires pi < |o.symbolSize| && ti < |o.types| && di < |o.density|
    ensures Offset(pi, |o.types| * |o.density|, Offset(ti, |o.density|, di)) < |SparseForRedundancy(o, s, r)|
    ensures SparseForRedundancy(o, s, r)[Offset(pi, |o.types| * |o.density|, Offset(ti, |o.density|, di))] ==
      SparseConfig(s, r, o.symbolSize[pi], o.types[ti], o.density[di])
  {
    var j := Offset(ti, |o.density|, di);
    var block := |o.types| * |o.density|;
    SparseSizeIndex(o, s, r, o.symbolSize[pi], ti, di);
    SparseForSizeLength(o);
    assert j < block;
    FlatMapIndex(o.symbolSize, p => SparseForSize(o, s, r, p), block, pi, j);
  }

  lemma SparseSymbolsIndex(o: Options, s: u32, ri: nat, pi: nat, ti: nat, di: nat)
    requires ri < |o.redundancy| && pi < |o.symbolSize| && ti < |o.types| && di < |o.density|
    ensures Offset(ri, |o.symbolSize| * (|o.types| * |o.density|),
      Offset(pi, |o.types| * |o.density|, Offset(ti, |o.density|, di))) < |SparseForSymbols(o, s)|
    ensures SparseForSymbols(o, s)[Offset(ri, |o.symbolSize| * (|o.types| * |o.density|),
      Offset(pi, |o.types| * |o.density|, Offset(ti, |o.density|, di)))] ==
      SparseConfig(s, o.redundancy[ri], o.symbolSize[pi], o.types[ti], o.density[di])
  {
    var j := Offset(pi, |o.types| * |o.density|, Offset(ti, |o.density|, di));
    var block := |o.symbolSize| * (|o.types| * |o.density|);
    SparseRedundancyIndex(o, s, o.redundancy[ri], pi, ti, di);
    SparseForRedundancyLength(o);
    assert j < block;
    FlatMapIndex(o.redundancy, r => SparseForRedundancy(o, s, r), block, ri, j);
  }

  /**
   * The sparse order: the configuration for symbols[si], redundancy[ri],
   * symbol_size[pi], type[ti] and density[di] sits at the mixed-radix
   * position with symbols most significant and density least significant.
   */
  lemma SparseOrder(o: Options, si: nat, ri: nat, pi: nat, ti: nat, di: nat)
    requires si < |o.symbols| && ri < |o.redundancy| && pi < |o.symbolSize|
    requires ti < |o.types| && di < |o.density|
    ensures Offset(si, |o.redundancy| * (|o.symbolSize| * (|o.types| * |o.density|)),
      Offset(ri, |o.symbolSize| * (|o.types| * |o.density|),
      Offset(pi, |o.types| * |o.density|, Offset(ti, |o.density|, di)))) < |SparseConfigs(o)|
    ensures SparseConfigs(o)[Offset(si, |o.redundancy| * (|o.symbolSize| * (|o.types| * |o.density|)),
      Offset(ri, |o.symbolSize| * (|o.types| * |o.density|),
      Offset(pi, |o.types| * |o.density|, Offset(ti, |o.density|, di))))] ==
      SparseConfig(o.symbols[si], o.redundancy[ri], o.symbolSize[pi], o.types[ti], o.density[di])
  {
    var j := Offset(ri, |o.symbolSize| * (|o.types| * |o.density|),
      Offset(pi, |o.types| * |o.density|, Offset(ti, |o.density|, di)));
    var block := |o.redundancy| * (|o.symbolSize| * (|o.types| * |o.density|));
    SparseSymbolsIndex(o, o.symbols[si], ri, pi, ti, di);
    SparseForSymbolsLength(o);
    assert j < block;
    FlatMapIndex(o.symbols, s => SparseForSymbols(o, s), block, si, j);
  }

  // ---------------------------------------------------------------------
  // The decoder, as the benchmark sees it
  // ---------------------------------------------------------------------

  /** What the benchmark hands the decoder: an original symbol with its index, or a coded payload. */
  datatype DecoderInput = Systematic(index: nat, symbol: seq<bv8>) | Coded(payload: seq<bv8>)

  /**
   * The library decoder reduced to what the benchmark observes: the inputs it
   * has received since it was last initialised, and is_complete(), which an
   * oracle decides from those inputs.
   */
  class Decoder {
    const completes: seq<DecoderInput> -> bool
    var received: seq<DecoderInput>

    constructor (completes: seq<DecoderInput> -> bool)
      ensures this.completes == completes && received == []
    {
      this.completes := completes;
      received := [];
    }

    predicate IsComplete()
      reads this
    {
      completes(received)
    }

    /** initialize: a clean state, no symbols received. */
    method Initialize()
      modifies this
      ensures received == []
    {
      received := [];
    }

    /** decode_symbol: one original symbol and its index. */
    method DecodeSymbol(symbol: seq<bv8>, index: nat)
      modifies this
      ensures received == old(received) + [Systematic(index, symbol)]
    {
      received := received + [Systematic(index, symbol)];
    }

    /** decode: one coded payload. */
    method Decode(payload: seq<bv8>)
      modifies this
      ensures received == old(received) + [Coded(payload)]
    {
      received := received + [Coded(payload)];
    }
  }

  // ---------------------------------------------------------------------
  // Erasure
  // ---------------------------------------------------------------------

  /**
   * The set the erasure loop ends with: starting from erased, each draw picks
   * draw % symbols, until encoded distinct symbols are picked or the draws run out.
   */
  function ErasedSet(draws: seq<nat>, symbols: nat, encoded: nat, erased: set<nat>): set<nat>
    requires symbols > 0 || encoded == 0
  {
    if |erased| >= encoded || draws == [] then erased
    else ErasedSet(draws[1..], symbols, encoded, erased + {draws[0] % symbols})
  }

  /**
   * The erased set holds only symbol indices, never more than encoded of them,
   * and the loop stops early only once every draw has been used, each draw's
   * symbol then being erased.
   */
  lemma {:induction false} ErasedSetBounds(draws: seq<nat>, symbols: nat, encoded: nat, erased: set<nat>)
    requires symbols > 0 || encoded == 0
    requires forall x :: x in erased ==> x < symbols
    requires |erased| <= encoded
    ensures erased <= ErasedSet(draws, symbols, encoded, erased)
    ensures forall x :: x in ErasedSet(draws, symbols, encoded, erased) ==> x < symbols
    ensures |ErasedSet(draws, symbols, encoded, erased)| <= encoded
    ensures |ErasedSet(draws, symbols, encoded, erased)| < encoded ==>
      forall i :: 0 <= i < |draws| ==> draws[i] % symbols in ErasedSet(draws, symbols, encoded, erased)
  {
    if !(|erased| >= encoded || draws == []) {
      var next := erased + {draws[0] % symbols};
      assert |next| <= |erased| + 1;
      ErasedSetBounds(draws[1..], symbols, encoded, next);
      var result := ErasedSet(draws, symbols, encoded, erased);
      if |result| < encoded {
        forall i | 0 <= i < |draws| ensures draws[i] % symbols in result {
          if i > 0 {
            assert draws[i] == draws[1..][i - 1];
          }
        }
      }
    }
  }

  /** A set of indices below n has at most n elements. */
  lemma {:induction false} BoundedSetSize(s: set<nat>, n: nat)
    requires forall x :: x in s ==> x < n
    ensures |s| <= n
  {
    if n > 0 {
      var s' := s - {n - 1};
      BoundedSetSize(s', n - 1);
    } else {
      assert s == {};
    }
  }

  /**
   * With more encoded symbols than symbols the erased set can never reach
   * encoded_symbols, whatever rand() returns: the erasure loop of a decoding
   * run only ends when encoded_symbols <= symbols.
   */
  lemma ErasureNeedsEnoughSymbols(draws: seq<nat>, symbols: nat, encoded: nat)
    requires symbols > 0 && encoded > symbols
    ensures |ErasedSet(draws, symbols, encoded, {})| < encoded
  {
    ErasedSetBounds(draws, symbols, encoded, {});
    BoundedSetSize(ErasedSet(draws, symbols, encoded, {}), symbols);
  }

  /** The draws m, m + 1, ..., e - 1. */
  function Run(m: nat, e: nat): (r: seq<nat>)
    ensures |r| == if m <= e then e - m else 0
    ensures forall i :: 0 <= i < |r| ==> r[i] == m + i
    decreases e - m
  {
    if m >= e then [] else [m] + Run(m + 1, e)
  }

  /**
   * Starting from m erased symbols, all below m, the draws m, m + 1, ...,
   * e - 1 bring the erased set to e symbols.
   */
  lemma {:induction false} ErasureFromRun(symbols: nat, encoded: nat, m: nat, erased: set<nat>)
    requires m <= encoded <= symbols
    requires |erased| == m && forall x :: x in erased ==> x < m
    ensures |ErasedSet(Run(m, encoded), symbols, encoded, erased)| == encoded
    decreases encoded - m
  {
    if m < encoded {
      var draws := Run(m, encoded);
      ModOfSplit(0, m, symbols);
      assert draws[0] % symbols == m && draws[1..] == Run(m + 1, encoded);
      assert m !in erased;
      ErasureFromRun(symbols, encoded, m + 1, erased + {m});
    }
  }

  /**
   * With encoded_symbols <= symbols the loop can end: the draws 0, 1, ...,
   * encoded - 1 erase exactly encoded distinct symbols.
   */
  lemma ErasureCanFinish(symbols: nat, encoded: nat)
    requires encoded <= symbols
    ensures |ErasedSet(Run(0, encoded), symbols, encoded, {})| == encoded
  {
    ErasureFromRun(symbols, encoded, 0, {});
  }

  /** The data buffer with every byte of every erased symbol set to zero. */
  function ErasedBlock(data: seq<bv8>, symbolSize: nat, erased: set<nat>): (r: seq<bv8>)
    requires symbolSize > 0 || |data| == 0
    ensures |r| == |data|
  {
    seq(|data|, b requires 0 <= b < |data| => if b / symbolSize in erased then 0 else data[b])
  }

  /**
   * Byte k of symbol i after erasure: zero when i is erased, the original byte
   * otherwise.
   */
  lemma ErasedBlockSymbol(data: seq<bv8>, symbolSize: nat, erased: set<nat>, i: nat, k: nat)
    requires k < symbolSize && Offset(i, symbolSize, k) < |data|
    ensures ErasedBlock(data, symbolSize, erased)[Offset(i, symbolSize, k)] ==
      if i in erased then 0 else data[Offset(i, symbolSize, k)]
  {
    DivOfSplit(i, k, symbolSize);
  }

  /** Erasing nothing leaves the data alone. */
  lemma ErasedBlockNone(data: seq<bv8>, symbolSize: nat)
    requires symbolSize > 0 || |data| == 0
    ensures ErasedBlock(data, symbolSize, {}) == data
  {
  }

  /** Erasing one more symbol zeroes exactly that symbol's bytes. */
  lemma ErasedBlockAdd(data: seq<bv8>, symbolSize: nat, erased: set<nat>, r: nat)
    requires symbolSize > 0 || |data| == 0
    ensures forall b :: 0 <= b < |data| ==>
      ErasedBlock(data, symbolSize, erased + {r})[b] ==
        if r * symbolSize <= b < r * symbolSize + symbolSize then 0 else ErasedBlock(data, symbolSize, erased)[b]
  {
    if symbolSize > 0 {
      forall b | 0 <= b < |data| {
        BlockOf(b, symbolSize, r);
      }
    }
  }

  // ---------------------------------------------------------------------
  // Feeding the decoder
  // ---------------------------------------------------------------------

  /**
   * What the systematic loop hands the decoder for symbols 0 .. n - 1: each
   * symbol that is not erased, with its bytes. The inputs name only symbols
   * below n that are not erased, in strictly ascending index order.
   */
  function SystematicInputs(data: seq<bv8>, symbolSize: nat, n: nat, erased: set<nat>): (r: seq<DecoderInput>)
    requires n * symbolSize <= |data|
    ensures forall a :: 0 <= a < |r| ==> r[a].Systematic? && r[a].index < n && r[a].index !in erased
    ensures forall a, c :: 0 <= a < c < |r| ==> r[a].Systematic? && r[c].Systematic? && r[a].index < r[c].index
  {
    if n == 0 then []
    else
      BlockFits(n - 1, n, symbolSize);
      SystematicInputs(data, symbolSize, n - 1, erased) +
      (if n - 1 in erased then []
       else [Systematic(n - 1, data[(n - 1) * symbolSize .. (n - 1) * symbolSize + symbolSize])])
  }

  /** Every symbol below n that is not erased is among the systematic inputs, with its bytes. */
  lemma {:induction false} SystematicInputsComplete(data: seq<bv8>, symbolSize: nat, n: nat, erased: set<nat>, i: nat)
    requires n * symbolSize <= |data|
    requires i < n && i !in erased
    ensures Offset(i, symbolSize, symbolSize) <= |data|
    ensures Systematic(i, data[Offset(i, symbolSize, 0) .. Offset(i, symbolSize, symbolSize)]) in
      SystematicInputs(data, symbolSize, n, erased)
  {
    BlockFits(i, n, symbolSize);
    BlockFits(n - 1, n, symbolSize);
    if i < n - 1 {
      MulMonotone(n - 1, n, symbolSize);
      SystematicInputsComplete(data, symbolSize, n - 1, erased, i);
    }
  }

  /** The payloads as decoder inputs. */
  function CodedAll(payloads: seq<seq<bv8>>): (r: seq<DecoderInput>)
    ensures |r| == |payloads|
    ensures forall i :: 0 <= i < |payloads| ==> r[i] == Coded(payloads[i])
  {
    seq(|payloads|, i requires 0 <= i < |payloads| => Coded(payloads[i]))
  }

  /**
   * What decode_payloads hands the decoder from payload i on, starting with
   * the inputs received so far: each payload in turn, stopping right after the
   * first one that leaves the decoder complete.
   */
  function FeedFrom(received: seq<DecoderInput>, payloads: seq<seq<bv8>>,
                    completes: seq<DecoderInput> -> bool, i: nat): seq<DecoderInput>
    requires i <= |payloads|
    decreases |payloads| - i
  {
    if i == |payloads| then received
    else
      var next := received + [Coded(payloads[i])];
      if completes(next) then next else FeedFrom(next, payloads, completes, i + 1)
  }

  function FeedPayloads(received: seq<DecoderInput>, payloads: seq<seq<bv8>>,
                        completes: seq<DecoderInput> -> bool): seq<DecoderInput>
  {
    FeedFrom(received, payloads, completes, 0)
  }

  lemma {:induction false} FeedFromStops(start: seq<DecoderInput>, payloads: seq<seq<bv8>>,
                                         completes: seq<DecoderInput> -> bool, i: nat)
    requires i <= |payloads|
    requires forall j :: 1 <= j <= i ==> !completes(start + CodedAll(payloads[..j]))
    ensures exists k :: (i <= k <= |payloads| &&
      FeedFrom(start + CodedAll(payloads[..i]), payloads, completes, i) == start + CodedAll(payloads[..k]) &&
      (|payloads| > 0 ==> k >= 1) &&
      (forall j :: 1 <= j < k ==> !completes(start + CodedAll(payloads[..j]))) &&
      (k < |payloads| ==> completes(start + CodedAll(payloads[..k]))))
    decreases |payloads| - i
  {
    if i == |payloads| {
      assert FeedFrom(start + CodedAll(payloads[..i]), payloads, completes, i) == start + CodedAll(payloads[..i]);
    } else {
      assert CodedAll(payloads[..i + 1]) == CodedAll(payloads[..i]) + [Coded(payloads[i])];
      var next := start + CodedAll(payloads[..i + 1]);
      assert next == start + CodedAll(payloads[..i]) + [Coded(payloads[i])];
      if completes(next) {
        assert FeedFrom(start + CodedAll(payloads[..i]), payloads, completes, i) == start + CodedAll(payloads[..i + 1]);
      } else {
        FeedFromStops(start, payloads, completes, i + 1);
      }
    }
  }

  /**
   * decode_payloads feeds a prefix of the payloads, in order: at least one
   * when there is one, none after the first that completes the decoder, and it
   * stops short of the end only because a payload completed the decoder.
   */
  lemma FeedPayloadsStops(start: seq<DecoderInput>, payloads: seq<seq<bv8>>,
                          completes: seq<DecoderInput> -> bool)
    ensures exists k :: (0 <= k <= |payloads| &&
      FeedPayloads(start, payloads, completes) == start + CodedAll(payloads[..k]) &&
      (|payloads| > 0 ==> k >= 1) &&
      (forall j :: 1 <= j < k ==> !completes(start + CodedAll(payloads[..j]))) &&
      (k < |payloads| ==> completes(start + CodedAll(payloads[..k]))))
  {
    assert start + CodedAll(payloads[..0]) == start;
    FeedFromStops(start, payloads, completes, 0);
  }

  // ---------------------------------------------------------------------
  // The benchmark
  // ---------------------------------------------------------------------

  /**
   * throughput_benchmark for the current configuration: the input and output
   * data buffers, the payload buffers and the decoder. The encoder is not part
   * of this model.
   */
  class ThroughputBenchmark {
    const symbols: u32
    const symbolSize: u32
    const encodedSymbols: u32
    const codingType: string
    const dataIn: array<bv8>
    const dataOut: array<bv8>
    const decoder: Decoder
    var payloads: seq<seq<bv8>>

    predicate Valid()
      reads this
    {
      && dataIn != dataOut
      && dataIn.Length == symbols * symbolSize
      && dataOut.Length == symbols * symbolSize
      && |payloads| == encodedSymbols
    }

    /**
     * setup: block-sized input and output buffers, the input filled with the
     * given random bytes and the output zeroed, and encoded_symbols payload
     * buffers of the encoder's payload size.
     */
    constructor Setup(config: Config, randomBytes: seq<bv8>, payloadSize: nat,
                      completes: seq<DecoderInput> -> bool)
      requires 0 <= config.encodedSymbols < U32_MODULUS
      requires |randomBytes| == config.symbols * config.symbolSize
      ensures Valid()
      ensures symbols == config.symbols && symbolSize == config.symbolSize
      ensures encodedSymbols == config.encodedSymbols && codingType == config.codingType
      ensures dataIn[..] == randomBytes
      ensures forall b :: 0 <= b < dataOut.Length ==> dataOut[b] == 0
      ensures forall i :: 0 <= i < |payloads| ==> |payloads[i]| == payloadSize
      ensures fresh(dataIn) && fresh(dataOut) && fresh(decoder)
      ensures decoder.completes == completes && decoder.received == []
    {
      symbols := config.symbols;
      symbolSize := config.symbolSize;
      encodedSymbols := config.encodedSymbols;
      codingType := config.codingType;
      var blockSize := config.symbols * config.symbolSize;
      dataIn := new bv8[blockSize](b requires 0 <= b < blockSize => randomBytes[b]);
      dataOut := new bv8[blockSize](_ => 0);
      decoder := new Decoder(completes);
      payloads := seq(config.encodedSymbols, _ => seq(payloadSize, _ => 0));
    }

    /** std::copy of the input buffer into the output buffer. */
    method CopyInput()
      requires Valid()
      modifies dataOut
      ensures dataOut[..] == dataIn[..]
    {
      forall b | 0 <= b < dataOut.Length {
        dataOut[b] := dataIn[b];
      }
    }

    /** std::fill_n of symbol r's bytes in the output buffer with zero. */
    method ZeroSymbol(r: nat)
      requires Valid() && r < symbols
      modifies dataOut
      ensures forall b :: 0 <= b < dataOut.Length ==>
        dataOut[b] == if r * symbolSize <= b < r * symbolSize + symbolSize then 0 else old(dataOut[b])
    {
      var start := r * symbolSize;
      BlockFits(r, symbols, symbolSize);
      for k := 0 to symbolSize
        invariant forall b :: 0 <= b < dataOut.Length ==>
          dataOut[b] == if start <= b < start + k then 0 else old(dataOut[b])
      {
        dataOut[start + k] := 0;
      }
    }

    /**
     * The erasure loop of run_decode: draw symbols until encoded_symbols
     * distinct ones are picked, zeroing each newly picked symbol; the loop also
     * ends when the draws run out.
     */
    method EraseSymbols(draws: seq<nat>) returns (erased: set<nat>)
      requires Valid() && (symbols > 0 || encodedSymbols == 0)
      modifies dataOut
      ensures erased == ErasedSet(draws, symbols, encodedSymbols, {})
      ensures dataOut[..] == ErasedBlock(old(dataOut[..]), symbolSize, erased)
    {
      ghost var original := dataOut[..];
      ErasedBlockNone(original, symbolSize);
      erased := {};
      var n := 0;
      while |erased| < encodedSymbols && n < |draws|
        invariant n <= |draws|
        invariant forall x :: x in erased ==> x < symbols
        invariant ErasedSet(draws[n..], symbols, encodedSymbols, erased) ==
          ErasedSet(draws, symbols, encodedSymbols, {})
        invariant dataOut[..] == ErasedBlock(original, symbolSize, erased)
        decreases |draws| - n
      {
        var randomSymbol := draws[n] % symbols;
        assert draws[n..][1..] == draws[n + 1..];
        n := n + 1;
        if randomSymbol in erased {
          assert erased + {randomSymbol} == erased;
          continue;
        }
        ghost var before := dataOut[..];
        ZeroSymbol(randomSymbol);
        ErasedBlockAdd(original, symbolSize, erased, randomSymbol);
        erased := erased + {randomSymbol};
        assert dataOut[..] == ErasedBlock(original, symbolSize, erased) by {
          forall b | 0 <= b < dataOut.Length
            ensures dataOut[b] == ErasedBlock(original, symbolSize, erased)[b]
          {
            assert before[b] == ErasedBlock(original, symbolSize, erased - {randomSymbol})[b];
          }
        }
      }
      if |erased| >= encodedSymbols {
      } else {
        assert draws[n..] == [];
      }
    }

    /**
     * The systematic loop of run_decode: every symbol that is not erased goes
     * to the decoder with its index, in ascending order.
     */
    method FeedSystematic(erased: set<nat>)
      requires Valid()
      modifies decoder
      ensures decoder.received ==
        old(decoder.received) + SystematicInputs(dataOut[..], symbolSize, symbols, erased)
    {
      for i := 0 to symbols
        invariant i * symbolSize <= symbols * symbolSize
        invariant decoder.received ==
          old(decoder.received) + SystematicInputs(dataOut[..], symbolSize, i, erased)
      {
        BlockFits(i, symbols, symbolSize);
        if i !in erased {
          decoder.DecodeSymbol(dataOut[i * symbolSize .. i * symbolSize + symbolSize], i);
        }
      }
    }

    /** decode_payloads: feed the payloads in order, returning once the decoder is complete. */
    method DecodePayloads()
      modifies decoder
      ensures decoder.received == FeedPayloads(old(decoder.received), payloads, decoder.completes)
    {
      var payloadCount := |payloads|;
      for i := 0 to payloadCount
        invariant FeedFrom(decoder.received, payloads, decoder.completes, i) ==
          FeedPayloads(old(decoder.received), payloads, decoder.completes)
      {
        decoder.Decode(payloads[i]);
        if decoder.IsComplete() {
          return;
        }
      }
    }

    /**
     * run_decode for one iteration of the timed block: copy the input, erase
     * encoded_symbols random symbols, then give the decoder a clean state, the
     * surviving original symbols and the payloads.
     */
    method RunDecode(draws: seq<nat>) returns (erased: set<nat>)
      requires Valid() && (symbols > 0 || encodedSymbols == 0)
      modifies dataOut, decoder
      ensures erased == ErasedSet(draws, symbols, encodedSymbols, {})
      ensures dataOut[..] == ErasedBlock(dataIn[..], symbolSize, erased)
      ensures decoder.received ==
        FeedPayloads(SystematicInputs(dataOut[..], symbolSize, symbols, erased), payloads, decoder.completes)
    {
      CopyInput();
      erased := EraseSymbols(draws);
      decoder.Initialize();
      FeedSystematic(erased);
      assert decoder.received == SystematicInputs(dataOut[..], symbolSize, symbols, erased);
      DecodePayloads();
    }

    /**
     * accept_measurement: a decoder measurement counts only when decoding
     * completed; an encoder measurement always counts.
     */
    predicate AcceptMeasurement()
      reads this, decoder
      ensures codingType == "decoder" ==> (AcceptMeasurement() <==> decoder.IsComplete())
      ensures codingType != "decoder" ==> AcceptMeasurement()
    {
      codingType != "decoder" || decoder.IsComplete()
    }
  }

  // ---------------------------------------------------------------------
  // The byte count of a measurement
  // ---------------------------------------------------------------------

  /** The two coding types a benchmark may run. */
  predicate KnownType(codingType: string)
  {
    codingType == "decoder" || codingType == "encoder"
  }

  /**
   * measurement's total_bytes as written: encoded_symbols * symbol_size is a
   * product of two uint32_t values, so it wraps modulo 2^32 before it is
   * stored in the uint64_t. An unknown type has no byte count (the source
   * asserts).
   */
  function TotalBytesAsWritten(codingType: string, encodedSymbols: u32, symbolSize: u32): (total: Option<u32>)
    ensures total.Some? <==> KnownType(codingType)
  {
    if KnownType(codingType) then Some((encodedSymbols * symbolSize) % U32_MODULUS) else None
  }

  /**
   * total_bytes as evidently intended: the number of bytes in the encoded
   * payloads' symbols, exactly, which always fits the uint64_t.
   */
  function TotalBytes(codingType: string, encodedSymbols: u32, symbolSize: u32): (total: Option<nat>)
    ensures total.Some? <==> KnownType(codingType)
    ensures total.Some? ==> total.value < 0x1_0000_0000_0000_0000
  {
    if KnownType(codingType) then
      assert encodedSymbols * symbolSize <= 0xFFFF_FFFF * 0xFFFF_FFFF by {
        MulMonotone(encodedSymbols, 0xFFFF_FFFF, symbolSize);
        MulMonotone(symbolSize, 0xFFFF_FFFF, 0xFFFF_FFFF);
      }
      Some(encodedSymbols * symbolSize)
    else None
  }

  /**
   * The written count is the intended one reduced modulo 2^32, and the two
   * agree exactly when the product fits 32 bits.
   */
  lemma TotalBytesTruncated(codingType: string, encodedSymbols: u32, symbolSize: u32)
    requires KnownType(codingType)
    ensures TotalBytesAsWritten(codingType, encodedSymbols, symbolSize).value ==
      TotalBytes(codingType, encodedSymbols, symbolSize).value % U32_MODULUS
    ensures (TotalBytesAsWritten(codingType, encodedSymbols, symbolSize).value ==
      TotalBytes(codingType, encodedSymbols, symbolSize).value) <==> encodedSymbols * symbolSize < U32_MODULUS
  {
  }

  /**
   * An encoder configuration with 2148 symbols of the default 1000000 bytes
   * and redundancy 2.0 has 4296 encoded symbols (a block of 2148000000 bytes,
   * which fits uint32_t); its byte count as written is 1032704 bytes instead
   * of 4296000000.
   */
  lemma TotalBytesWrapExample()
    ensures EncodedCount(2148, 2.0) == 4296
    ensures 2148 * 1000000 < U32_MODULUS
    ensures TotalBytesAsWritten("encoder", 4296, 1000000) == Some(1032704)
    ensures TotalBytes("encoder", 4296, 1000000) == Some(4296000000)
    ensures MeasuredBytesAsWritten("encoder", 4296, 1000000, 1) == Some(1032704)
    ensures MeasuredBytes("encoder", 4296, 1000000, 1) == Some(4296000000)
  {
    assert 2148 as real * 2.0 == 4296.0;
  }

  /** The bytes per iteration: total_bytes / iteration_count(), rounded down. */
  function BytesPerIteration(totalBytes: nat, iterations: nat): (bytes: nat)
    requires iterations > 0
    ensures bytes * iterations <= totalBytes < bytes * iterations + iterations
  {
    totalBytes / iterations
  }

  /**
   * The integer part of measurement(), corrected: the bytes coded per
   * iteration, from the exact byte count rather than the 32-bit wrapped one
   * (see MeasuredBytesAsWritten); an unknown type has none (the source asserts).
   */
  function MeasuredBytes(codingType: string, encodedSymbols: u32, symbolSize: u32, iterations: nat): (bytes: Option<nat>)
    requires iterations > 0
    ensures bytes.Some? <==> KnownType(codingType)
    ensures bytes.Some? ==>
      bytes.value * iterations <= encodedSymbols * symbolSize < bytes.value * iterations + iterations
  {
    match TotalBytes(codingType, encodedSymbols, symbolSize)
    case None => None
    case Some(total) => Some(BytesPerIteration(total, iterations))
  }

  /**
   * The integer part of measurement() as written: the wrapped uint32_t
   * total_bytes divided by the iteration count.
   */
  function MeasuredBytesAsWritten(codingType: string, encodedSymbols: u32, symbolSize: u32, iterations: nat): (bytes: Option<nat>)
    requires iterations > 0
    ensures bytes.Some? <==> KnownType(codingType)
    ensures bytes.Some? ==>
      bytes.value * iterations <= (encodedSymbols * symbolSize) % U32_MODULUS < bytes.value * iterations + iterations
  {
    match TotalBytesAsWritten(codingType, encodedSymbols, symbolSize)
    case None => None
    case Some(total) => Some(BytesPerIteration(total, iterations))
  }

  /** The two measurements agree exactly when the byte count fits 32 bits. */
  lemma MeasuredBytesAgree(codingType: string, encodedSymbols: u32, symbolSize: u32, iterations: nat)
    requires iterations > 0 && KnownType(codingType)
    ensures encodedSymbols * symbolSize < U32_MODULUS ==>
      MeasuredBytesAsWritten(codingType, encodedSymbols, symbolSize, iterations) ==
      MeasuredBytes(codingType, encodedSymbols, symbolSize, iterations)
    ensures iterations == 1 ==>
      (MeasuredBytesAsWritten(codingType, encodedSymbols, symbolSize, iterations) ==
       MeasuredBytes(codingType, encodedSymbols, symbolSize, iterations) <==>
       encodedSymbols * symbolSize < U32_MODULUS)
  {
    TotalBytesTruncated(codingType, encodedSymbols, symbolSize);
  }
}
