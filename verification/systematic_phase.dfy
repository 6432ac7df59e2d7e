/**
 * The remote_pivot_aware_systematic_phase layer of a recoder or encoder.
 *
 * When the local rank is exactly one above the rank the remote has reported,
 * exactly one symbol is missing on the remote side, and the layer sends it
 * uncoded: the lowest-indexed symbol that is a local pivot but not a remote
 * pivot. Otherwise every question goes to the layer below. The layer keeps no
 * state of its own; what it reads from the layer below is a LowerLayer value.
 */
module SystematicPhase {
  import opened BinaryField

  /** What the layer reads from the layers below it. */
  datatype LowerLayer = LowerLayer(
    symbols: u32,                 // symbols()
    rank: u32,                    // rank()
    remoteRank: u32,              // remote_rank()
    pivot: seq<bool>,             // is_symbol_pivot(i), for i < symbols
    remotePivot: seq<bool>,       // remote_is_symbol_pivot(i), for i < symbols
    inSystematicPhase: bool,      // the lower layer's in_systematic_phase()
    nextSystematicSymbol: u32     // the lower layer's next_systematic_symbol()
  )

  /** The pivot queries are answered for every symbol index below symbols(). */
  predicate WellFormed(l: LowerLayer)
  {
    |l.pivot| == l.symbols && |l.remotePivot| == l.symbols
  }

  /** Symbol i is held as a pivot locally but not yet by the remote. */
  predicate IsNewPivot(l: LowerLayer, i: nat)
    requires WellFormed(l) && i < l.symbols
  {
    l.pivot[i] && !l.remotePivot[i]
  }

  /**
   * single_symbol_available: remote_rank() + 1 == rank(), the addition done in
   * uint32_t arithmetic.
   */
  predicate SingleSymbolAvailable(l: LowerLayer)
    ensures l.remoteRank < U32_MODULUS - 1 ==>
      (SingleSymbolAvailable(l) <==> l.rank == l.remoteRank + 1)
    ensures l.remoteRank == U32_MODULUS - 1 ==>
      (SingleSymbolAvailable(l) <==> l.rank == 0)
  {
    (l.remoteRank + 1) % U32_MODULUS == l.rank
  }

  /**
   * in_systematic_phase: true whenever a single symbol is available, otherwise
   * exactly what the lower layer says.
   */
  function InSystematicPhase(l: LowerLayer): (r: bool)
    ensures SingleSymbolAvailable(l) ==> r
    ensures !SingleSymbolAvailable(l) ==> r == l.inSystematicPhase
    ensures !l.inSystematicPhase ==> (r <==> SingleSymbolAvailable(l))
  {
    if SingleSymbolAvailable(l) then true else l.inSystematicPhase
  }

  /**
   * next_systematic_symbol: with a single symbol available, the lowest index
   * that is a local pivot and not a remote pivot; otherwise the lower layer's
   * answer. If no such index exists the source's debug assertion fails and a
   * release build returns 0.
   */
  method NextSystematicSymbol(l: LowerLayer) returns (next: u32)
    requires WellFormed(l)
    ensures SingleSymbolAvailable(l) && (exists i :: 0 <= i < l.symbols && IsNewPivot(l, i)) ==>
      next < l.symbols && IsNewPivot(l, next) &&
      forall j :: 0 <= j < next ==> !IsNewPivot(l, j)
    ensures SingleSymbolAvailable(l) && (forall i :: 0 <= i < l.symbols ==> !IsNewPivot(l, i)) ==>
      next == 0
    ensures !SingleSymbolAvailable(l) ==> next == l.nextSystematicSymbol
  {
    if SingleSymbolAvailable(l) {
      next := 0;
      var i: u32 := 0;
      while i < l.symbols
        invariant 0 <= i <= l.symbols
        invariant next == 0
        invariant forall j :: 0 <= j < i ==> !IsNewPivot(l, j)
      {
        var isRemotePivot := l.remotePivot[i];
        var isPivot := l.pivot[i];
        if !isRemotePivot && isPivot {
          assert IsNewPivot(l, i);
          next := i;
          break;
        }
        i := i + 1;
      }
    } else {
      next := l.nextSystematicSymbol;
    }
  }

  /** Number of true entries. */
  function Count(s: seq<bool>): (n: nat)
    ensures n <= |s|
  {
    if s == [] then 0 else Count(s[..|s| - 1]) + (if s[|s| - 1] then 1 else 0)
  }

  /** Number of indices that are true in p and false in q. */
  function CountOnlyIn(p: seq<bool>, q: seq<bool>): nat
    requires |p| == |q|
  {
    if p == [] then 0
    else CountOnlyIn(p[..|p| - 1], q[..|q| - 1]) + (if p[|p| - 1] && !q[|q| - 1] then 1 else 0)
  }

  /** Every remote pivot is also a local pivot. */
  predicate RemoteWithinLocal(p: seq<bool>, q: seq<bool>)
    requires |p| == |q|
  {
    forall i :: 0 <= i < |q| && q[i] ==> p[i]
  }

  /**
   * The lower layer's ranks agree with its pivot flags and the remote only
   * knows pivots the local side knows too.
   */
  predicate Consistent(l: LowerLayer)
  {
    && WellFormed(l)
    && l.rank == Count(l.pivot)
    && l.remoteRank == Count(l.remotePivot)
    && RemoteWithinLocal(l.pivot, l.remotePivot)
  }

  /** When q is within p, p has exactly Count(p) - Count(q) positions that q lacks. */
  lemma {:induction false} CountOnlyInDifference(p: seq<bool>, q: seq<bool>)
    requires |p| == |q| && RemoteWithinLocal(p, q)
    ensures CountOnlyIn(p, q) == Count(p) - Count(q)
  {
    if p != [] {
      var p', q' := p[..|p| - 1], q[..|q| - 1];
      assert RemoteWithinLocal(p', q') by {
        forall i | 0 <= i < |q'| && q'[i] ensures p'[i] {
          assert q[i] && p[i] == p'[i];
        }
      }
      CountOnlyInDifference(p', q');
    }
  }

  /** A positive count of positions true in p and false in q has a witness. */
  lemma {:induction false} CountOnlyInWitness(p: seq<bool>, q: seq<bool>)
    requires |p| == |q| && CountOnlyIn(p, q) > 0
    ensures exists i :: 0 <= i < |p| && p[i] && !q[i]
  {
    var n := |p| - 1;
    if !(p[n] && !q[n]) {
      CountOnlyInWitness(p[..n], q[..n]);
      var i :| 0 <= i < n && p[..n][i] && !q[..n][i];
      assert p[i] && !q[i];
    }
  }

  /** Two distinct positions true in p and false in q count at least two. */
  lemma {:induction false} CountOnlyInTwo(p: seq<bool>, q: seq<bool>, i: nat, j: nat)
    requires |p| == |q| && i < j < |p|
    requires p[i] && !q[i] && p[j] && !q[j]
    ensures CountOnlyIn(p, q) >= 2
  {
    var n := |p| - 1;
    if j == n {
      CountOnlyInWitnessAtLeastOne(p[..n], q[..n], i);
    } else {
      CountOnlyInTwo(p[..n], q[..n], i, j);
    }
  }

  /** One position true in p and false in q counts at least one. */
  lemma {:induction false} CountOnlyInWitnessAtLeastOne(p: seq<bool>, q: seq<bool>, i: nat)
    requires |p| == |q| && i < |p| && p[i] && !q[i]
    ensures CountOnlyIn(p, q) >= 1
  {
    var n := |p| - 1;
    if i < n {
      CountOnlyInWitnessAtLeastOne(p[..n], q[..n], i);
    }
  }

  /**
   * The fact the source's assertion relies on: if the remote's pivots are
   * among the local ones and the local side holds exactly one more, there is
   * exactly one symbol that is a local pivot but not a remote pivot.
   */
  lemma NewPivotExistsAndIsUnique(p: seq<bool>, q: seq<bool>)
    requires |p| == |q| && RemoteWithinLocal(p, q)
    requires Count(p) == Count(q) + 1
    ensures exists i :: 0 <= i < |p| && p[i] && !q[i]
    ensures forall i, j :: 0 <= i < |p| && 0 <= j < |p| && p[i] && !q[i] && p[j] && !q[j] ==> i == j
  {
    CountOnlyInDifference(p, q);
    CountOnlyInWitness(p, q);
    forall i, j | 0 <= i < |p| && 0 <= j < |p| && p[i] && !q[i] && p[j] && !q[j]
      ensures i == j
    {
      if i < j {
        CountOnlyInTwo(p, q, i, j);
      } else if j < i {
        CountOnlyInTwo(p, q, j, i);
      }
    }
  }

  /**
   * For a consistent lower layer, a single symbol is available exactly when
   * the local side holds one pivot more than the remote, and then the symbol
   * the layer picks exists and is the only one the remote lacks.
   */
  lemma ConsistentSingleSymbol(l: LowerLayer)
    requires Consistent(l)
    ensures SingleSymbolAvailable(l) <==> Count(l.pivot) == Count(l.remotePivot) + 1
    ensures SingleSymbolAvailable(l) ==>
      exists i :: 0 <= i < l.symbols && IsNewPivot(l, i)
    ensures SingleSymbolAvailable(l) ==>
      forall i, j :: (0 <= i < l.symbols && 0 <= j < l.symbols &&
        IsNewPivot(l, i) && IsNewPivot(l, j)) ==> i == j
  {
    if SingleSymbolAvailable(l) {
      NewPivotExistsAndIsUnique(l.pivot, l.remotePivot);
      var k :| 0 <= k < |l.pivot| && l.pivot[k] && !l.remotePivot[k];
      assert IsNewPivot(l, k);
    }
  }
}
