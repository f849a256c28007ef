/**
 * flexcat's statistics (flexcat/general_stats.h): `AdapterTrimmingStats`
 * with `TLen = unsigned int`, as `GeneralStats` uses it, and the integer
 * part of `GeneralStats`.  The `std::vector` members are sequences that the
 * methods reassign; every `unsigned` addition wraps.
 */
module GeneralStats {
  import opened Words

  /** `std::numeric_limits<unsigned int>::max()`. */
  const UINT_MAX: uint32 := TWO32 - 1

  /** `std::vector::resize(n)`: cut to `n` entries or pad with value-initialised ones (`fill`). */
  function Resize<T>(v: seq<T>, n: nat, fill: T): (r: seq<T>)
    ensures |r| == n
    ensures forall j :: 0 <= j < n ==> r[j] == if j < |v| then v[j] else fill
  {
    if n <= |v| then v[..n] else v + seq(n - |v|, _ => fill)
  }

  /** `n` zero counters. */
  function Zeros(n: nat): (r: seq<uint32>)
    ensures |r| == n && forall j :: 0 <= j < n ==> r[j] == 0
  {
    seq(n, _ => 0)
  }

  /** The counter at `j`, zero past the end. */
  function At(v: seq<uint32>, j: nat): uint32
  {
    if j < |v| then v[j] else 0
  }

  /** The loop `for (i = 0; i < rhs.size(); ++i) v[i] += rhs[i]` on a vector at least as long as `rhs`. */
  function AddCounts(v: seq<uint32>, w: seq<uint32>): (r: seq<uint32>)
    requires |v| >= |w|
    ensures |r| == |v| && r[|w|..] == v[|w|..]
  {
    seq(|v|, j requires 0 <= j < |v| => if j < |w| then U32(v[j] as int + w[j]) else v[j])
  }

  /**
   * One counter vector merged into another: grown to the other's length when
   * shorter, then added to.  The result is the element-wise wrapped sum, the
   * shorter vector read as zeros past its end.
   */
  function MergeCounts(v: seq<uint32>, w: seq<uint32>): (r: seq<uint32>)
    ensures |r| == if |v| < |w| then |w| else |v|
    ensures forall j :: 0 <= j < |r| ==> r[j] == U32(At(v, j) + At(w, j))
  {
    AddCounts(if |v| < |w| then Resize(v, |w|, 0) else v, w)
  }

  /**
   * The `removedLength` block: the rows grow to the other's row count, each
   * row the other has is merged with it, and the remaining rows are kept.
   */
  function MergeRows(rows: seq<seq<uint32>>, w: seq<seq<uint32>>): (r: seq<seq<uint32>>)
    ensures |r| == if |rows| < |w| then |w| else |rows|
    ensures forall j :: 0 <= j < |r| ==>
      r[j] == if j < |w| then MergeCounts(if j < |rows| then rows[j] else [], w[j]) else rows[j]
  {
    var grown := if |rows| < |w| then Resize(rows, |w|, []) else rows;
    seq(|grown|, j requires 0 <= j < |grown| => if j < |w| then MergeCounts(grown[j], w[j]) else grown[j])
  }

  /** The values of an `AdapterTrimmingStats`. */
  datatype AdapterCounts = AdapterCounts(
    removedLength: seq<seq<uint32>>,
    numRemoved: seq<uint32>,
    overlapSum: uint32,
    minOverlap: uint32,
    maxOverlap: uint32)

  /** A default-constructed `AdapterTrimmingStats`. */
  const FRESH := AdapterCounts([], [], 0, UINT_MAX, 0)

  /** `a += b`. */
  function Merge(a: AdapterCounts, b: AdapterCounts): (c: AdapterCounts)
    ensures c.minOverlap <= a.minOverlap && c.minOverlap <= b.minOverlap
    ensures c.minOverlap == a.minOverlap || c.minOverlap == b.minOverlap
    ensures c.maxOverlap >= a.maxOverlap && c.maxOverlap >= b.maxOverlap
    ensures c.maxOverlap == a.maxOverlap || c.maxOverlap == b.maxOverlap
    ensures c.overlapSum == (a.overlapSum + b.overlapSum) % TWO32
  {
    AdapterCounts(
      MergeRows(a.removedLength, b.removedLength),
      MergeCounts(a.numRemoved, b.numRemoved),
      U32(a.overlapSum + b.overlapSum),
      if a.minOverlap < b.minOverlap then a.minOverlap else b.minOverlap,
      if a.maxOverlap < b.maxOverlap then b.maxOverlap else a.maxOverlap)
  }

  /** `clear()`: the sums and bounds are reset and `numRemoved` zeroed in place; `removedLength` is kept. */
  function Cleared(a: AdapterCounts): AdapterCounts
  {
    a.(numRemoved := Zeros(|a.numRemoved|), overlapSum := 0, minOverlap := UINT_MAX, maxOverlap := 0)
  }

  /** Merging with the empty vector, on either side, changes nothing. */
  lemma MergeCountsEmpty(v: seq<uint32>)
    ensures MergeCounts(v, []) == v && MergeCounts([], v) == v
  {
    assert forall j :: 0 <= j < |v| ==> At(v, j) == v[j];
  }

  /** Merging counter vectors does not depend on the order. */
  lemma MergeCountsCommutes(v: seq<uint32>, w: seq<uint32>)
    ensures MergeCounts(v, w) == MergeCounts(w, v)
  {
  }

  /** A default-constructed stats adds nothing, and nothing is added to it: `FRESH` is a unit on both sides. */
  lemma MergeFresh(a: AdapterCounts)
    ensures Merge(a, FRESH) == a
    ensures Merge(FRESH, a) == a
  {
    forall j | 0 <= j < |a.removedLength|
      ensures MergeCounts(a.removedLength[j], []) == a.removedLength[j]
      ensures MergeCounts([], a.removedLength[j]) == a.removedLength[j]
    {
      MergeCountsEmpty(a.removedLength[j]);
    }
    MergeCountsEmpty(a.numRemoved);
  }

  /** `a += b` and `b += a` give the same stats, so merging per-thread stats in any order gives one result. */
  lemma MergeCommutes(a: AdapterCounts, b: AdapterCounts)
    ensures Merge(a, b) == Merge(b, a)
  {
    var r1 := MergeRows(a.removedLength, b.removedLength);
    var r2 := MergeRows(b.removedLength, a.removedLength);
    forall j | 0 <= j < |r1|
      ensures r1[j] == r2[j]
    {
      if j < |a.removedLength| && j < |b.removedLength| {
        MergeCountsCommutes(a.removedLength[j], b.removedLength[j]);
      } else if j < |a.removedLength| {
        MergeCountsEmpty(a.removedLength[j]);
      } else {
        MergeCountsEmpty(b.removedLength[j]);
      }
    }
    MergeCountsCommutes(a.numRemoved, b.numRemoved);
  }

  /**
   * Merging cleared stats changes no sum or bound and only pads `numRemoved`
   * with zeros, but the `removedLength` it still holds is added again.
   */
  lemma MergeCleared(x: AdapterCounts, a: AdapterCounts)
    ensures var m := Merge(x, Cleared(a));
      m.overlapSum == x.overlapSum && m.minOverlap == x.minOverlap && m.maxOverlap == x.maxOverlap &&
      m.numRemoved == Resize(x.numRemoved, if |x.numRemoved| < |a.numRemoved| then |a.numRemoved| else |x.numRemoved|, 0) &&
      m.removedLength == Merge(x, a).removedLength
  {
    var m := Merge(x, Cleared(a));
    var z := Zeros(|a.numRemoved|);
    var r := Resize(x.numRemoved, if |x.numRemoved| < |a.numRemoved| then |a.numRemoved| else |x.numRemoved|, 0);
    assert m.numRemoved == MergeCounts(x.numRemoved, z);
    forall j | 0 <= j < |r|
      ensures m.numRemoved[j] == r[j]
    {
      assert At(z, j) == 0;
      assert At(x.numRemoved, j) == r[j];
    }
    assert m.overlapSum == U32(x.overlapSum + 0);
  }

  /** The addition loop, shared by `numRemoved` and every row of `removedLength`. */
  method AddInto(v: seq<uint32>, w: seq<uint32>) returns (r: seq<uint32>)
    requires |v| >= |w|
    ensures r == AddCounts(v, w)
  {
    r := v;
    for i := 0 to |w|
      invariant |r| == |v|
      invariant forall j :: 0 <= j < |v| ==> r[j] == if j < i then U32(v[j] as int + w[j]) else v[j]
    {
      r := r[i := U32(r[i] as int + w[i])];
    }
  }

  /** The `numRemoved` block of `operator+=`: grow when shorter, then add. */
  method MergeCountsInto(v: seq<uint32>, w: seq<uint32>) returns (r: seq<uint32>)
    ensures r == MergeCounts(v, w)
  {
    r := v;
    var len := |w|;
    if |r| < len {
      r := Resize(r, len, 0);
    }
    r := AddInto(r, w);
  }

  /** The `removedLength` block of `operator+=`: grow the rows, then grow and add each row the other has. */
  method MergeRowsInto(rows: seq<seq<uint32>>, w: seq<seq<uint32>>) returns (r: seq<seq<uint32>>)
    ensures r == MergeRows(rows, w)
  {
    r := rows;
    var len := |w|;
    if |r| < len {
      r := Resize(r, len, []);  // `std::max(size(), len)`, which is `len` here
    }
    ghost var grown := r;
    for i := 0 to len
      invariant |r| == |grown|
      invariant forall j :: 0 <= j < |grown| ==> r[j] == if j < i then MergeCounts(grown[j], w[j]) else grown[j]
    {
      var row := MergeCountsInto(r[i], w[i]);
      r := r[i := row];
    }
    assert forall j :: 0 <= j < |grown| ==> grown[j] == if j < |rows| then rows[j] else [];
  }

  /** The iterator loop of both `clear()`s: every counter set to 0, the length kept. */
  method ZeroAll(v: seq<uint32>) returns (r: seq<uint32>)
    ensures r == Zeros(|v|)
  {
    r := v;
    var i := 0;
    while i < |r|
      invariant i <= |r| == |v|
      invariant forall j :: 0 <= j < |r| ==> r[j] == if j < i then 0 else v[j]
    {
      r := r[i := 0];
      i := i + 1;
    }
  }

  class AdapterTrimmingStats {
    var removedLength: seq<seq<uint32>>
    var numRemoved: seq<uint32>
    var overlapSum: uint32
    var minOverlap: uint32
    var maxOverlap: uint32

    function Value(): AdapterCounts
      reads this
    {
      AdapterCounts(removedLength, numRemoved, overlapSum, minOverlap, maxOverlap)
    }

    /** `AdapterTrimmingStats()`: no sum, the largest minimum, the smallest maximum, no vectors. */
    constructor ()
      ensures Value() == FRESH
    {
      removedLength, numRemoved := [], [];
      overlapSum, minOverlap, maxOverlap := 0, UINT_MAX, 0;
    }

    /**
     * `operator+=`.  The other stats are read as they were on entry; with
     * `a += a` this is what the source reads too, since it reads every entry
     * of `rhs` before writing that entry.
     */
    method Add(rhs: AdapterTrimmingStats)
      modifies this
      ensures Value() == Merge(old(Value()), old(rhs.Value()))
    {
      var other := rhs.Value();
      ghost var merged := Merge(Value(), other);
      var sum := U32(overlapSum + other.overlapSum);
      var least := if minOverlap < other.minOverlap then minOverlap else other.minOverlap;
      var most := if maxOverlap < other.maxOverlap then other.maxOverlap else maxOverlap;
      var rows := MergeRowsInto(removedLength, other.removedLength);
      var counts := MergeCountsInto(numRemoved, other.numRemoved);
      assert merged == AdapterCounts(rows, counts, sum, least, most);
      overlapSum, minOverlap, maxOverlap, removedLength, numRemoved := sum, least, most, rows, counts;
    }

    /** `clear()`. */
    method Clear()
      modifies this
      ensures Value() == Cleared(old(Value()))
    {
      overlapSum := 0;
      minOverlap := UINT_MAX;
      maxOverlap := 0;
      numRemoved := ZeroAll(numRemoved);
    }
  }

  /** The integer counters of a `GeneralStats`; `uncalledBases` is an `unsigned long`. */
  datatype Counters = Counters(
    removedN: uint32,
    removedDemultiplex: uint32,
    removedQuality: uint32,
    uncalledBases: uint64,
    removedShort: uint32,
    readCount: uint32)

  const NO_COUNTERS := Counters(0, 0, 0, 0, 0, 0)

  /** The counters of `a += b`, each wrapping at its width. */
  function AddCounters(a: Counters, b: Counters): (c: Counters)
    ensures c.uncalledBases == (a.uncalledBases + b.uncalledBases) % TWO64
    ensures c.(uncalledBases := 0) == Counters(
      (a.removedN + b.removedN) % TWO32, (a.removedDemultiplex + b.removedDemultiplex) % TWO32,
      (a.removedQuality + b.removedQuality) % TWO32, 0,
      (a.removedShort + b.removedShort) % TWO32, (a.readCount + b.readCount) % TWO32)
  {
    Counters(
      U32(a.removedN + b.removedN), U32(a.removedDemultiplex + b.removedDemultiplex),
      U32(a.removedQuality + b.removedQuality), U64(a.uncalledBases + b.uncalledBases),
      U32(a.removedShort + b.removedShort), U32(a.readCount + b.readCount))
  }

  /** Adding counters is commutative, and zero counters add nothing. */
  lemma AddCountersUnit(a: Counters, b: Counters)
    ensures AddCounters(a, b) == AddCounters(b, a)
    ensures AddCounters(a, NO_COUNTERS) == a
  {
  }

  class GeneralStats {
    var removedN: uint32
    var removedDemultiplex: uint32
    var removedQuality: uint32
    var uncalledBases: uint64
    var removedShort: uint32
    var readCount: uint32
    var matchedBarcodeReads: seq<uint32>
    var adapterTrimmingStats: AdapterTrimmingStats

    function Counts(): Counters
      reads this
    {
      Counters(removedN, removedDemultiplex, removedQuality, uncalledBases, removedShort, readCount)
    }

    /** `GeneralStats()`: all counters 0, no barcodes, default adapter stats. */
    constructor ()
      ensures Counts() == NO_COUNTERS && matchedBarcodeReads == []
      ensures fresh(adapterTrimmingStats) && adapterTrimmingStats.Value() == FRESH
    {
      removedN, removedDemultiplex, removedQuality, uncalledBases, removedShort, readCount := 0, 0, 0, 0, 0, 0;
      matchedBarcodeReads := [];
      adapterTrimmingStats := new AdapterTrimmingStats();
    }

    /** `GeneralStats(N, numAdapters)`: `N` barcode counters and `numAdapters` adapter counters, all 0. */
    constructor Sized(N: uint32, numAdapters: uint32)
      ensures Counts() == NO_COUNTERS && matchedBarcodeReads == Zeros(N)
      ensures fresh(adapterTrimmingStats) && adapterTrimmingStats.Value() == FRESH.(numRemoved := Zeros(numAdapters))
    {
      removedN, removedDemultiplex, removedQuality, uncalledBases, removedShort, readCount := 0, 0, 0, 0, 0, 0;
      matchedBarcodeReads := Resize([], N, 0);
      var adapters := new AdapterTrimmingStats();
      adapters.numRemoved := Resize(adapters.numRemoved, numAdapters, 0);
      adapterTrimmingStats := adapters;
    }

    /** `clear()`: counters 0, barcode counters zeroed in place, then the adapter stats cleared. */
    method Clear()
      modifies this, adapterTrimmingStats
      ensures Counts() == NO_COUNTERS && matchedBarcodeReads == Zeros(|old(matchedBarcodeReads)|)
      ensures adapterTrimmingStats == old(adapterTrimmingStats)
      ensures adapterTrimmingStats.Value() == Cleared(old(adapterTrimmingStats.Value()))
    {
      removedN, removedDemultiplex, removedQuality, uncalledBases, removedShort, readCount := 0, 0, 0, 0, 0, 0;
      matchedBarcodeReads := ZeroAll(matchedBarcodeReads);
      adapterTrimmingStats.Clear();
    }

    /**
     * `operator+=`: the counters add up, the barcode counters are resized to
     * the other's length (cut when longer) and then added with the vector
     * `operator+` (`vectorPlus`, which is not part of this model), and the
     * adapter stats are merged.
     */
    method Add(rhs: GeneralStats, vectorPlus: (seq<uint32>, seq<uint32>) -> seq<uint32>)
      modifies this, adapterTrimmingStats
      ensures Counts() == AddCounters(old(Counts()), old(rhs.Counts()))
      ensures matchedBarcodeReads ==
        vectorPlus(Resize(old(matchedBarcodeReads), |old(rhs.matchedBarcodeReads)|, 0), old(rhs.matchedBarcodeReads))
      ensures adapterTrimmingStats == old(adapterTrimmingStats)
      ensures adapterTrimmingStats.Value() == Merge(old(adapterTrimmingStats.Value()), old(rhs.adapterTrimmingStats.Value()))
    {
      var other := rhs.Counts();
      var otherBarcodes := rhs.matchedBarcodeReads;
      var otherAdapters := rhs.adapterTrimmingStats;
      var sum := AddCounters(Counts(), other);
      removedN, removedDemultiplex, removedQuality := sum.removedN, sum.removedDemultiplex, sum.removedQuality;
      uncalledBases, removedShort, readCount := sum.uncalledBases, sum.removedShort, sum.readCount;
      assert Counts() == sum;
      if |matchedBarcodeReads| != |otherBarcodes| {
        matchedBarcodeReads := Resize(matchedBarcodeReads, |otherBarcodes|, 0);
      } else {
        assert matchedBarcodeReads == Resize(matchedBarcodeReads, |otherBarcodes|, 0);
      }
      matchedBarcodeReads := vectorPlus(matchedBarcodeReads, otherBarcodes);
      adapterTrimmingStats.Add(otherAdapters);
    }
  }
}
