/**
 * The duplication-rate histograms of nexus-pre and test-app: for the counts
 * of an occurrence map, entry `k-1` of the histogram is the number of
 * positions holding `k` reads.  The vector is grown on demand, so its length
 * is the largest count.
 */
module DuplicationRate {
  import opened SortedMap

  function Zeros(n: nat): (z: seq<nat>)
    ensures |z| == n && forall i :: 0 <= i < n ==> z[i] == 0
  {
    seq(n, i => 0)
  }

  /** Every count is at least 1, as the histogram's `[count - 1]` indexing needs. */
  predicate Positive(counts: seq<nat>)
  {
    forall i :: 0 <= i < |counts| ==> counts[i] >= 1
  }

  /** One histogram step: `if (h.size() < v) h.resize(v); ++h[v - 1];` */
  function Bump(h: seq<nat>, v: nat): seq<nat>
    requires v >= 1
  {
    var g := if |h| < v then h + Zeros(v - |h|) else h;
    g[v - 1 := g[v - 1] + 1]
  }

  /** The histogram of `counts`, built in their order. */
  function Histogram(counts: seq<nat>): seq<nat>
    requires Positive(counts)
  {
    if counts == [] then [] else Bump(Histogram(counts[..|counts| - 1]), counts[|counts| - 1])
  }

  lemma HistogramSnoc(counts: seq<nat>, i: nat)
    requires Positive(counts) && i < |counts|
    ensures Histogram(counts[..i + 1]) == Bump(Histogram(counts[..i]), counts[i])
  {
    assert counts[..i + 1][..i] == counts[..i];
  }

  /** How many of `counts` equal `k`. */
  function Count(counts: seq<nat>, k: nat): nat
  {
    if counts == [] then 0
    else Count(counts[..|counts| - 1], k) + (if counts[|counts| - 1] == k then 1 else 0)
  }

  /** The largest count, 0 for none. */
  function MaxOf(counts: seq<nat>): nat
  {
    if counts == [] then 0
    else
      var m := MaxOf(counts[..|counts| - 1]);
      if counts[|counts| - 1] > m then counts[|counts| - 1] else m
  }

  function Sum(counts: seq<nat>): nat
  {
    if counts == [] then 0 else Sum(counts[..|counts| - 1]) + counts[|counts| - 1]
  }

  /** The histogram weighed by a linear function of the index: the sum of `(a*i + b) * h[i]`. */
  function Moment(h: seq<nat>, a: nat, b: nat): nat
  {
    if h == [] then 0 else Moment(h[..|h| - 1], a, b) + (a * (|h| - 1) + b) * h[|h| - 1]
  }

  lemma BumpAt(h: seq<nat>, v: nat)
    requires v >= 1
    ensures |Bump(h, v)| == if |h| < v then v else |h|
    ensures forall i :: 0 <= i < |Bump(h, v)| ==>
      Bump(h, v)[i] == (if i < |h| then h[i] else 0) + (if i == v - 1 then 1 else 0)
  {
  }

  /** The largest count bounds every count, and is one of them. */
  lemma {:induction false} MaxOfBounds(counts: seq<nat>)
    ensures forall i :: 0 <= i < |counts| ==> counts[i] <= MaxOf(counts)
    ensures counts != [] ==> exists i :: 0 <= i < |counts| && counts[i] == MaxOf(counts)
  {
    if counts != [] {
      var init := counts[..|counts| - 1];
      MaxOfBounds(init);
      if counts[|counts| - 1] >= MaxOf(init) {
        assert counts[|counts| - 1] == MaxOf(counts);
      } else {
        var i :| 0 <= i < |init| && init[i] == MaxOf(init);
        assert counts[i] == MaxOf(counts);
      }
    }
  }

  /**
   * The histogram is as long as the largest count, and its entry `k-1` counts
   * the positions holding `k` reads.
   */
  lemma {:induction false} HistogramCounts(counts: seq<nat>)
    requires Positive(counts)
    ensures |Histogram(counts)| == MaxOf(counts)
    ensures forall i :: 0 <= i < |Histogram(counts)| ==> Histogram(counts)[i] == Count(counts, i + 1)
  {
    if counts != [] {
      var init := counts[..|counts| - 1];
      HistogramCounts(init);
      BumpAt(Histogram(init), counts[|counts| - 1]);
      MaxOfBounds(init);
      forall k | MaxOf(init) < k
        ensures Count(init, k) == 0
      {
        CountAboveMax(init, k);
      }
    }
  }

  lemma {:induction false} CountAboveMax(counts: seq<nat>, k: nat)
    requires MaxOf(counts) < k
    ensures Count(counts, k) == 0
  {
    if counts != [] {
      CountAboveMax(counts[..|counts| - 1], k);
    }
  }

  lemma {:induction false} MomentZeros(h: seq<nat>, n: nat, a: nat, b: nat)
    ensures Moment(h + Zeros(n), a, b) == Moment(h, a, b)
  {
    if n > 0 {
      var x := h + Zeros(n);
      MomentZeros(h, n - 1, a, b);
      assert x[..|x| - 1] == h + Zeros(n - 1);
      assert x[|x| - 1] == 0;
      assert Moment(x, a, b) == Moment(x[..|x| - 1], a, b) + (a * (|x| - 1) + b) * 0;
    } else {
      assert h + Zeros(n) == h;
    }
  }

  lemma {:induction false} MomentIncrement(h: seq<nat>, j: nat, a: nat, b: nat)
    requires j < |h|
    ensures Moment(h[j := h[j] + 1], a, b) == Moment(h, a, b) + a * j + b
  {
    var h' := h[j := h[j] + 1];
    var n := |h| - 1;
    var c := a * n + b;
    assert Moment(h, a, b) == Moment(h[..n], a, b) + c * h[n];
    assert Moment(h', a, b) == Moment(h'[..n], a, b) + c * h'[n];
    if j < n {
      MomentIncrement(h[..n], j, a, b);
      assert h'[..n] == h[..n][j := h[j] + 1];
      assert h'[n] == h[n];
    } else {
      MomentIncrementLast(h, a, b);
    }
  }

  /** Counting one more at the last index adds that index's weight. */
  lemma MomentIncrementLast(h: seq<nat>, a: nat, b: nat)
    requires h != []
    ensures Moment(h[|h| - 1 := h[|h| - 1] + 1], a, b) == Moment(h, a, b) + a * (|h| - 1) + b
  {
    var n := |h| - 1;
    var h' := h[n := h[n] + 1];
    var c := a * n + b;
    assert h'[..n] == h[..n];
    assert Moment(h', a, b) == Moment(h[..n], a, b) + c * (h[n] + 1);
    Distribute(c, h[n], 1);
  }

  /** One bump adds `a*(v-1) + b` to the weighed histogram. */
  lemma BumpMoment(h: seq<nat>, v: nat, a: nat, b: nat)
    requires v >= 1
    ensures Moment(Bump(h, v), a, b) == Moment(h, a, b) + a * (v - 1) + b
  {
    var g := if |h| < v then h + Zeros(v - |h|) else h;
    if |h| < v {
      MomentZeros(h, v - |h|, a, b);
    }
    MomentIncrement(g, v - 1, a, b);
  }

  /**
   * Weighing entry `i` of the histogram by `a*i + b` sums `a*(k-1) + b` over
   * the counts `k`: with `a = b = 1` the histogram's reads add up to the map's
   * total, with `a = 0, b = 1` its positions to the number of positions, and
   * with `a = 1, b = 0` (the `totalSamePositionReads` loop) the reads beyond
   * the first at each position add up to the total minus the positions.
   */
  lemma {:induction false} HistogramMoment(counts: seq<nat>, a: nat, b: nat)
    requires Positive(counts)
    ensures Moment(Histogram(counts), a, b) + a * |counts| == a * Sum(counts) + b * |counts|
  {
    if counts != [] {
      var init := counts[..|counts| - 1];
      var v := counts[|counts| - 1];
      HistogramMoment(init, a, b);
      BumpMoment(Histogram(init), v, a, b);
      Distribute(a, |init|, 1);
      Distribute(b, |init|, 1);
      Distribute(a, Sum(init), v);
      Distribute(a, v - 1, 1);
    }
  }

  /** Multiplication distributes over addition; the solver's nonlinear arithmetic needs the instances spelled out. */
  lemma Distribute(a: nat, x: nat, y: nat)
    ensures a * (x + y) == a * x + a * y
  {
  }

  /** The body of the histogram loops: grow the vector to `v` entries if needed and count one `v`. */
  method Tally(h: seq<nat>, v: nat) returns (h': seq<nat>)
    requires v >= 1
    ensures h' == Bump(h, v)
  {
    h' := h;
    if |h'| < v {
      h' := h' + Zeros(v - |h'|);
    }
    h' := h'[v - 1 := h'[v - 1] + 1];
  }

  /**
   * The histogram loop over a map (the `std::for_each` over
   * `occurenceMapUnique` or `occurenceMap`), growing and incrementing the
   * vector in place.
   */
  method BuildHistogram(m: seq<Entry<nat>>) returns (duplicationRate: seq<nat>)
    requires Positive(Values(m))
    ensures duplicationRate == Histogram(Values(m))
  {
    duplicationRate := [];
    for i := 0 to |m|
      invariant duplicationRate == Histogram(Values(m)[..i])
    {
      duplicationRate := Tally(duplicationRate, m[i].value);
      assert Values(m)[..i + 1][..i] == Values(m)[..i];
    }
    assert Values(m)[..|m|] == Values(m);
  }

  /**
   * The final loop: `maxLen` is the longer histogram's length, the unique one
   * is padded to it, and `totalSamePositionReads` adds `i * duplicationRate[i]`
   * for every `i >= 1`.  The loop reads `duplicationRate[i]` for all
   * `i < maxLen`, so it needs the unique histogram to be no longer.
   */
  method SamePositionReads(duplicationRateUnique: seq<nat>, duplicationRate: seq<nat>, totalSamePositionReads: nat)
    returns (total: nat, uniqueResized: seq<nat>)
    requires |duplicationRateUnique| <= |duplicationRate|
    ensures total == totalSamePositionReads + Moment(duplicationRate, 1, 0)
    ensures |uniqueResized| == |duplicationRate|
    ensures uniqueResized == duplicationRateUnique + Zeros(|duplicationRate| - |duplicationRateUnique|)
  {
    var maxLen := if |duplicationRateUnique| > |duplicationRate| then |duplicationRateUnique| else |duplicationRate|;
    uniqueResized := duplicationRateUnique + Zeros(maxLen - |duplicationRateUnique|);
    total := totalSamePositionReads;
    for i := 0 to maxLen
      invariant total == totalSamePositionReads + Moment(duplicationRate[..i], 1, 0)
    {
      if i > 0 {
        total := total + duplicationRate[i] * i;
      }
      assert duplicationRate[..i + 1][..i] == duplicationRate[..i];
    }
    assert duplicationRate[..maxLen] == duplicationRate;
  }

  /** The counts of a map add up to its total. */
  lemma {:induction false} SumOfValues(m: seq<Entry<nat>>)
    ensures Sum(Values(m)) == Total(m)
  {
    if m != [] {
      var n := |m| - 1;
      SumOfValues(m[..n]);
      SumBySnoc(m, AsInt);
      assert Values(m)[..n] == Values(m[..n]);
    }
  }

  /** A map whose every key holds at least one read has positive counts. */
  lemma PositiveValues(m: seq<Entry<nat>>)
    requires Sorted(m)
    requires forall k :: k in Keys(m) ==> Get(m, k, 0) >= 1
    ensures Positive(Values(m))
  {
    forall i | 0 <= i < |m| ensures Values(m)[i] >= 1 {
      EntryAt(m, i, 0);
    }
  }

  /**
   * When two maps have the same keys and the first never counts more than the
   * second, its largest count is no larger, so its histogram is no longer.
   */
  lemma MaxOfDominated(u: seq<Entry<nat>>, a: seq<Entry<nat>>)
    requires Sorted(u) && Sorted(a) && Keys(u) == Keys(a)
    requires forall k :: k in Keys(a) ==> Get(u, k, 0) <= Get(a, k, 0)
    ensures MaxOf(Values(u)) <= MaxOf(Values(a))
  {
    MaxOfBounds(Values(u));
    MaxOfBounds(Values(a));
    if u != [] {
      var i :| 0 <= i < |u| && Values(u)[i] == MaxOf(Values(u));
      EntryAt(u, i, 0);
      KeysIndexed(a, u[i].key);
      var j :| 0 <= j < |a| && a[j].key == u[i].key;
      EntryAt(a, j, 0);
      assert Values(a)[j] == a[j].value;
    }
  }

  /**
   * Two maps over the same positions where the first (unique reads) holds at
   * least one and never more than the second (all reads) at each position:
   * both histograms can be built, the first is no longer than the second, each
   * histogram's reads add up to its map's total, and the reads beyond the
   * first at each position number the total minus the positions.
   */
  lemma DominatedHistograms(u: seq<Entry<nat>>, a: seq<Entry<nat>>)
    requires Sorted(u) && Sorted(a) && Keys(u) == Keys(a)
    requires forall k :: k in Keys(a) ==> 1 <= Get(u, k, 0) <= Get(a, k, 0)
    ensures Positive(Values(u)) && Positive(Values(a))
    ensures |Histogram(Values(u))| <= |Histogram(Values(a))| == MaxOf(Values(a))
    ensures Moment(Histogram(Values(a)), 1, 1) == Total(a)
    ensures Moment(Histogram(Values(u)), 1, 1) == Total(u)
    ensures Moment(Histogram(Values(a)), 1, 0) == Total(a) - |Keys(a)|
    ensures Moment(Histogram(Values(a)), 0, 1) == |a| == |Keys(a)|
  {
    assert forall k :: k in Keys(a) ==> Get(a, k, 0) >= 1;
    PositiveValues(a);
    assert forall k :: k in Keys(u) ==> Get(u, k, 0) >= 1;
    PositiveValues(u);
    MaxOfDominated(u, a);
    HistogramCounts(Values(u));
    HistogramCounts(Values(a));
    HistogramTotal(u);
    HistogramTotal(a);
    SumOfValues(a);
    HistogramMoment(Values(a), 1, 0);
    HistogramMoment(Values(a), 0, 1);
    SortedSize(a);
  }

  lemma HistogramTotal(m: seq<Entry<nat>>)
    requires Positive(Values(m))
    ensures Moment(Histogram(Values(m)), 1, 1) == Total(m)
  {
    SumOfValues(m);
    HistogramMoment(Values(m), 1, 1);
  }
}
