/**
 * Peak scoring of nexus-pre (nexus-pre/peak.h).  An edge distribution is a
 * map from packed read position to a count, iterated in key order; a range of
 * it is a pair of indices `start <= end`.  The sliding-window score of an
 * entry weighs forward-strand counts on its left against reverse-strand
 * counts on its right, within `widthLimit` on the same chromosome.
 */
module Peak {
  import opened Words
  import opened SortedMap
  import opened BamRecordKey
  import opened NexusBamRecordKey

  type Distribution = seq<Entry<nat>>

  /**
   * `DoubleStrandPosition`; a `SingleStrandPosition` is the same without the
   * strand, which no code here reads.
   */
  datatype Position = Position(chromosomeID: int32, position: int32, reverseStrand: bool)

  const INVALID_ID: int32 := -1
  const INVALID_POSITION: int32 := -1

  /** The default constructors: both coordinates invalid, forward strand. */
  function DefaultPosition(): (p: Position)
    ensures p.chromosomeID == INVALID_ID && p.position == INVALID_POSITION
    ensures !p.reverseStrand
  {
    Position(INVALID_ID, INVALID_POSITION, false)
  }

  /** `getPosition<TPosition>` of nexus-pre: decodes the key; the strand keeps its default. */
  function PositionOf(e: Entry<nat>): Position
  {
    DefaultPosition().(chromosomeID := I32(e.key / TWO32), position := I32(e.key) / 2)
  }

  /** For a read inside the key bounds the decoded position is its chromosome and 5' end, always on the forward strand. */
  lemma PositionOfRead(r: Record, n: nat)
    requires InKeyRange(r)
    ensures PositionOf(Entry(KeyOf(r).pos, n)) == Position(r.rID, FivePrime(r), false)
  {
    KeyRoundTrip(r);
  }

  /** A count signed by strand: forward counts positive, reverse (bit 0 set) negative. */
  function Signed(e: Entry<nat>): int
  {
    var f: int := e.value;
    if e.key % 2 == 1 then -f else f
  }

  /** Outcome of one walk: whether it stayed on one chromosome (`ok`), and what it added to the score. */
  datatype Walk = Walk(ok: bool, sum: int)

  /** `calculateDistance(getKey(d[i]), getKey(d[j]), distance)`: the two entries lie on one chromosome. */
  predicate SameAt(d: Distribution, i: nat, j: nat)
    requires i < |d| && j < |d|
  {
    CalculateDistanceMasked(Key(d[i].key), Key(d[j].key), 0).sameChromosome
  }

  /** The whole loop condition: one chromosome, and the distance, compared unsigned, at most `w`. */
  predicate WithinAt(d: Distribution, i: nat, j: nat, w: uint32)
    requires i < |d| && j < |d|
  {
    var r := CalculateDistanceMasked(Key(d[i].key), Key(d[j].key), 0);
    r.sameChromosome && U32(r.distance) <= w
  }

  /**
   * The left walk from index `i` down to `start`, which is never visited: each
   * entry on the centre's chromosome within `w` of it adds its signed count;
   * the first entry that fails the test stops the walk, with `ok` false when it
   * lies on another chromosome.
   */
  function LeftWalk(d: Distribution, start: nat, center: nat, w: uint32, i: nat): Walk
    requires start <= i <= center < |d|
    decreases i - start
  {
    if i == start then Walk(true, 0)
    else if !WithinAt(d, i, center, w) then Walk(SameAt(d, i, center), 0)
    else
      var rest := LeftWalk(d, start, center, w, i - 1);
      Walk(rest.ok, Signed(d[i]) + rest.sum)
  }

  /** The right walk from index `i` up to `end`: the same stop rule, each entry subtracting its signed count. */
  function RightWalk(d: Distribution, end: nat, center: nat, w: uint32, i: nat): Walk
    requires center < i <= end <= |d|
    decreases end - i
  {
    if i == end then Walk(true, 0)
    else if !WithinAt(d, center, i, w) then Walk(SameAt(d, center, i), 0)
    else
      var rest := RightWalk(d, end, center, w, i + 1);
      Walk(rest.ok, -Signed(d[i]) + rest.sum)
  }

  /** The score `slidingWindowScore` computes, before the wrap to `int`. */
  function WindowScore(d: Distribution, start: nat, center: nat, end: nat, w: uint32): (s: int)
    requires start <= center < end <= |d|
    ensures center == start ==> s == 0
    ensures center + 1 == end ==> s == 0
    ensures center != start && !LeftWalk(d, start, center, w, center).ok ==> s == 0
    ensures center + 1 < end && !RightWalk(d, end, center, w, center + 1).ok ==> s == 0
  {
    if center == start then 0
    else
      var left := LeftWalk(d, start, center, w, center);
      if !left.ok || center + 1 == end then 0
      else
        var right := RightWalk(d, end, center, w, center + 1);
        if !right.ok then 0 else left.sum + right.sum
  }

  /** The signed counts of the entries `lo .. hi-1`. */
  function SignedSum(d: Distribution, lo: nat, hi: nat): int
    requires lo <= hi <= |d|
    decreases hi - lo
  {
    if lo == hi then 0 else SignedSum(d, lo, hi - 1) + Signed(d[hi - 1])
  }

  lemma {:induction false} SignedSumCons(d: Distribution, lo: nat, hi: nat)
    requires lo < hi <= |d|
    ensures SignedSum(d, lo, hi) == Signed(d[lo]) + SignedSum(d, lo + 1, hi)
    decreases hi - lo
  {
    if lo + 1 < hi {
      SignedSumCons(d, lo, hi - 1);
    }
  }

  /**
   * The left walk in closed form: when the entries above `stop` up to `i` pass
   * the test and `stop` is `start` or fails it, the walk adds their signed
   * counts, and is `ok` unless `stop` lies on another chromosome.
   */
  lemma {:induction false} LeftWalkStops(d: Distribution, start: nat, center: nat, w: uint32, i: nat, stop: nat)
    requires start <= stop <= i <= center < |d|
    requires forall j :: stop < j <= i ==> WithinAt(d, j, center, w)
    requires stop == start || !WithinAt(d, stop, center, w)
    ensures LeftWalk(d, start, center, w, i) == Walk(stop == start || SameAt(d, stop, center), SignedSum(d, stop + 1, i + 1))
    decreases i - stop
  {
    if i > stop {
      LeftWalkStops(d, start, center, w, i - 1, stop);
    }
  }

  /** The right walk in closed form, as `LeftWalkStops`. */
  lemma {:induction false} RightWalkStops(d: Distribution, end: nat, center: nat, w: uint32, i: nat, stop: nat)
    requires center < i <= stop <= end <= |d|
    requires forall j :: i <= j < stop ==> WithinAt(d, center, j, w)
    requires stop == end || !WithinAt(d, center, stop, w)
    ensures RightWalk(d, end, center, w, i) == Walk(stop == end || SameAt(d, center, stop), -SignedSum(d, i, stop))
    decreases stop - i
  {
    if i < stop {
      RightWalkStops(d, end, center, w, i + 1, stop);
      SignedSumCons(d, i, stop);
    }
  }

  /** The incoming value of the `distance` out-parameter only matters when the keys are on different chromosomes. */
  lemma DistanceArgument(k1: Key, k2: Key, distance: int32)
    ensures CalculateDistanceMasked(k1, k2, distance).sameChromosome == CalculateDistanceMasked(k1, k2, 0).sameChromosome
    ensures CalculateDistanceMasked(k1, k2, distance).sameChromosome ==>
      CalculateDistanceMasked(k1, k2, distance).distance == CalculateDistanceMasked(k1, k2, 0).distance
  {
  }

  /** The loop condition `(ok = calculateDistance(getKey(d[i]), getKey(d[j]), distance)) && distance <= widthLimit`. */
  method Probe(d: Distribution, i: nat, j: nat, distance: int32, widthLimit: uint32)
    returns (ok: bool, distance': int32, within: bool)
    requires i < |d| && j < |d|
    ensures ok == SameAt(d, i, j)
    ensures within == WithinAt(d, i, j, widthLimit)
    ensures !ok ==> distance' == distance
  {
    var r := CalculateDistanceMasked(Key(d[i].key), Key(d[j].key), distance);
    DistanceArgument(Key(d[i].key), Key(d[j].key), distance);
    ok := r.sameChromosome;
    distance' := r.distance;
    within := ok && U32(distance') <= widthLimit;
  }

  /** One wrapped `+=` on a score that already equals the wrapped total. */
  lemma WrapStep(score: int32, acc: int, x: int, acc': int)
    requires score == I32(acc) && x - score == acc' - acc
    ensures I32(x) == I32(acc')
  {
    I32Add(acc, acc' - acc);
  }

  /**
   * The first loop of `slidingWindowScore`: steps `runningIt` down from the
   * centre, adding forward and subtracting reverse counts, until it reaches
   * `startIt`, leaves the chromosome (`ok` false) or exceeds the width.
   */
  method ScanLeft(d: Distribution, start: nat, center: nat, widthLimit: uint32)
    returns (ok: bool, score: int32)
    requires start < center < |d|
    ensures ok == LeftWalk(d, start, center, widthLimit, center).ok
    ensures score == I32(LeftWalk(d, start, center, widthLimit, center).sum)
  {
    var running := center;
    score := 0;
    var distance: int32 := 0;
    ok := false;
    ghost var acc := 0;
    while true
      invariant start <= running <= center
      invariant running < center ==> ok
      invariant forall j :: running < j <= center ==> WithinAt(d, j, center, widthLimit)
      invariant acc == SignedSum(d, running + 1, center + 1)
      invariant score == I32(acc)
      decreases running - start
    {
      if running == start {
        break;
      }
      var within;
      ok, distance, within := Probe(d, running, center, distance, widthLimit);
      if !within {
        break;
      }
      // `score -= f` and `score += f` are unsigned arithmetic cast back to `int`.
      SignedSumCons(d, running, center + 1);
      ghost var acc0 := acc;
      acc := acc + Signed(d[running]);
      if d[running].key % 2 == 1 {
        WrapStep(score, acc0, score - d[running].value, acc);
        score := I32(score - d[running].value);
      } else {
        WrapStep(score, acc0, score + d[running].value, acc);
        score := I32(score + d[running].value);
      }
      running := running - 1;
    }
    LeftWalkStops(d, start, center, widthLimit, center, running);
    ghost var total := LeftWalk(d, start, center, widthLimit, center).sum;
    assert I32(acc) == I32(total) by {
      assert acc == total;
    }
  }

  /**
   * The second loop: steps `runningIt` up from the entry after the centre,
   * adding reverse and subtracting forward counts, under the same stop rule.
   */
  method ScanRight(d: Distribution, center: nat, end: nat, widthLimit: uint32, score0: int32)
    returns (ok: bool, score: int32)
    requires center + 1 < end <= |d|
    ensures ok == RightWalk(d, end, center, widthLimit, center + 1).ok
    ensures score == I32(score0 + RightWalk(d, end, center, widthLimit, center + 1).sum)
  {
    var running := center + 1;
    score := score0;
    var distance: int32 := 0;
    ok := true;
    ghost var acc: int := score0;
    while true
      invariant center < running <= end
      invariant ok
      invariant forall j :: center < j < running ==> WithinAt(d, center, j, widthLimit)
      invariant acc == score0 - SignedSum(d, center + 1, running)
      invariant score == I32(acc)
      decreases end - running
    {
      if running == end {
        break;
      }
      var within;
      ok, distance, within := Probe(d, center, running, distance, widthLimit);
      if !within {
        break;
      }
      score := SubtractEntry(score, acc, d[running]);
      acc := acc - Signed(d[running]);
      running := running + 1;
    }
    RightWalkStops(d, end, center, widthLimit, center + 1, running);
    ghost var total := score0 + RightWalk(d, end, center, widthLimit, center + 1).sum;
    assert I32(acc) == I32(total) by {
      assert acc == total;
    }
  }

  /** The right walk's step: `score += f` for a reverse entry, `score -= f` for a forward one, both wrapped. */
  method SubtractEntry(score: int32, ghost acc: int, e: Entry<nat>) returns (score': int32)
    requires score == I32(acc)
    ensures score' == I32(acc - Signed(e))
  {
    if e.key % 2 == 1 {
      WrapStep(score, acc, score + e.value, acc - Signed(e));
      score' := I32(score + e.value);
    } else {
      WrapStep(score, acc, score - e.value, acc - Signed(e));
      score' := I32(score - e.value);
    }
  }

  /** `slidingWindowScore(centerIt, startIt, endIt, widthLimit)`. */
  method SlidingWindowScore(d: Distribution, start: nat, center: nat, end: nat, widthLimit: uint32)
    returns (score: int32)
    requires start <= center < end <= |d|
    ensures score == I32(WindowScore(d, start, center, end, widthLimit))
  {
    if center == start {
      return 0;
    }
    var ok;
    ok, score := ScanLeft(d, start, center, widthLimit);
    if !ok {
      return 0;
    }
    if center + 1 == end {
      return 0;
    }
    ghost var leftSum := LeftWalk(d, start, center, widthLimit, center).sum;
    ok, score := ScanRight(d, center, end, widthLimit, score);
    if !ok {
      return 0;
    }
    I32Add(leftSum, RightWalk(d, end, center, widthLimit, center + 1).sum);
  }

  /** The wrapped score of entry `i` reaches `scoreLimit`. */
  predicate Passes(d: Distribution, start: nat, i: nat, end: nat, scoreLimit: int32, w: uint32)
    requires start <= i < end <= |d|
  {
    I32(WindowScore(d, start, i, end, w)) >= scoreLimit
  }

  /** The wrapped scores of the entries `start .. end-1`, in range order. */
  function Scores(d: Distribution, start: nat, end: nat, w: uint32): (scores: seq<int32>)
    requires start <= end <= |d|
    ensures |scores| == end - start
  {
    seq<int32>(end - start, j requires 0 <= j < end - start => I32(WindowScore(d, start, start + j, end, w)))
  }

  lemma ScoreAt(d: Distribution, start: nat, end: nat, w: uint32, j: nat)
    requires start <= end <= |d| && j < end - start
    ensures Scores(d, start, end, w)[j] == I32(WindowScore(d, start, start + j, end, w))
  {
  }

  /** The offsets below `hi` whose score reaches `scoreLimit`, in order. */
  function Selected(scores: seq<int32>, scoreLimit: int32, hi: nat): (r: seq<nat>)
    requires hi <= |scores|
    ensures forall k :: 0 <= k < |r| ==> r[k] < hi
  {
    if hi == 0 then []
    else Selected(scores, scoreLimit, hi - 1) + (if scores[hi - 1] >= scoreLimit then [hi - 1] else [])
  }

  /** The positions `collectForwardCandidates` appends after scanning the first `hi` entries of the range from `start`. */
  function Candidates(d: Distribution, start: nat, scores: seq<int32>, scoreLimit: int32, hi: nat): seq<Position>
    requires hi <= |scores| && start + |scores| <= |d|
  {
    if hi == 0 then []
    else
      Candidates(d, start, scores, scoreLimit, hi - 1) +
        (if scores[hi - 1] >= scoreLimit then [PositionOf(d[start + hi - 1])] else [])
  }

  /** An offset is selected exactly when it lies in the scanned part of the range and its score reaches the limit. */
  lemma {:induction false} SelectedExactly(scores: seq<int32>, scoreLimit: int32, hi: nat, k: nat)
    requires hi <= |scores|
    ensures k in Selected(scores, scoreLimit, hi) <==> k < hi && scores[k] >= scoreLimit
  {
    if hi > 0 {
      SelectedExactly(scores, scoreLimit, hi - 1, k);
    }
  }

  /** Entry `start + k` of the range is selected exactly when it passes its window test. */
  lemma SelectedPasses(d: Distribution, start: nat, end: nat, scoreLimit: int32, w: uint32, k: nat)
    requires start <= end <= |d|
    ensures k in Selected(Scores(d, start, end, w), scoreLimit, end - start) <==>
      start + k < end && Passes(d, start, start + k, end, scoreLimit, w)
  {
    SelectedExactly(Scores(d, start, end, w), scoreLimit, end - start, k);
    if k < end - start {
      ScoreAt(d, start, end, w, k);
    }
  }

  predicate StrictlyIncreasing(s: seq<nat>)
  {
    forall a, b :: 0 <= a < b < |s| ==> s[a] < s[b]
  }

  /** Selected offsets increase strictly: range order, no entry twice. */
  lemma {:induction false} SelectedIncreasing(scores: seq<int32>, scoreLimit: int32, hi: nat)
    requires hi <= |scores|
    ensures StrictlyIncreasing(Selected(scores, scoreLimit, hi))
  {
    if hi > 0 {
      SelectedIncreasing(scores, scoreLimit, hi - 1);
      var p := Selected(scores, scoreLimit, hi - 1);
      var r := Selected(scores, scoreLimit, hi);
      forall a, b | 0 <= a < b < |r| ensures r[a] < r[b] {
        if b >= |p| {
          assert r[b] == hi - 1 && r[a] == p[a];
          assert p[a] < hi - 1;
        } else {
          assert r[a] == p[a] && r[b] == p[b];
        }
      }
    }
  }

  /** The candidates are the decoded positions of the selected entries, one for one and in the same order. */
  lemma {:induction false} CandidatesAreSelected(d: Distribution, start: nat, scores: seq<int32>, scoreLimit: int32, hi: nat)
    requires hi <= |scores| && start + |scores| <= |d|
    ensures |Candidates(d, start, scores, scoreLimit, hi)| == |Selected(scores, scoreLimit, hi)| <= hi
    ensures forall k :: 0 <= k < |Selected(scores, scoreLimit, hi)| ==>
      Candidates(d, start, scores, scoreLimit, hi)[k] == PositionOf(d[start + Selected(scores, scoreLimit, hi)[k]])
  {
    if hi > 0 {
      CandidatesAreSelected(d, start, scores, scoreLimit, hi - 1);
    }
  }

  /**
   * `collectForwardCandidates`: scores every entry of the range and appends the
   * decoded position of each one scoring at least `scoreLimit` to the caller's
   * vector, whose earlier contents stay in front.
   */
  method CollectForwardCandidates(d: Distribution, start: nat, end: nat, scoreLimit: int32, widthLimit: uint32,
                                  candidatePositions: seq<Position>)
    returns (result: seq<Position>)
    requires start <= end <= |d|
    ensures result == candidatePositions + Candidates(d, start, Scores(d, start, end, widthLimit), scoreLimit, end - start)
  {
    ghost var scores := Scores(d, start, end, widthLimit);
    result := candidatePositions;
    var it := start;
    while it != end
      invariant start <= it <= end
      invariant result == candidatePositions + Candidates(d, start, scores, scoreLimit, it - start)
      decreases end - it
    {
      ghost var before := result;
      ghost var next := if scores[it - start] >= scoreLimit then [PositionOf(d[it])] else [];
      result := CollectAt(d, start, it, end, scoreLimit, widthLimit, result);
      assert Candidates(d, start, scores, scoreLimit, it + 1 - start) ==
        Candidates(d, start, scores, scoreLimit, it - start) + next;
      assert before + next == candidatePositions + (Candidates(d, start, scores, scoreLimit, it - start) + next);
      it := it + 1;
    }
  }

  /** The loop body: score the entry at `it` and keep its position when the score reaches the limit. */
  method CollectAt(d: Distribution, start: nat, it: nat, end: nat, scoreLimit: int32, widthLimit: uint32,
                   candidatePositions: seq<Position>)
    returns (result: seq<Position>)
    requires start <= it < end <= |d|
    ensures result == candidatePositions +
      (if Scores(d, start, end, widthLimit)[it - start] >= scoreLimit then [PositionOf(d[it])] else [])
  {
    var score := SlidingWindowScore(d, start, it, end, widthLimit);
    ScoreAt(d, start, end, widthLimit, it - start);
    result := candidatePositions;
    if score >= scoreLimit {
      result := result + [PositionOf(d[it])];
    }
  }

  /** The centre always passes its own test: it is on its own chromosome at distance 0. */
  lemma CenterWithin(d: Distribution, center: nat, w: uint32)
    requires center < |d|
    ensures WithinAt(d, center, center, w)
  {
    MaskedDistanceSpec(Key(d[center].key), Key(d[center].key), 0);
  }

  /** An entry on another chromosome right before the centre (and after `start`) makes the score 0; so does one right after it. */
  lemma NeighbourOnOtherChromosome(d: Distribution, start: nat, center: nat, end: nat, w: uint32)
    requires start <= center < end <= |d|
    requires (start + 1 < center && !SameAt(d, center - 1, center)) || (center + 1 < end && !SameAt(d, center, center + 1))
    ensures WindowScore(d, start, center, end, w) == 0
  {
    if center > start {
      CenterWithin(d, center, w);
      if start + 1 < center && !SameAt(d, center - 1, center) {
        assert LeftWalk(d, start, center, w, center - 1).ok == false;
      } else {
        assert RightWalk(d, end, center, w, center + 1).ok == false;
      }
    }
  }

  /**
   * When every entry of the range after `start` lies on the centre's chromosome
   * within the width, the walks run to both ends: the score is the signed
   * counts from after `start` up to the centre, minus those after the centre.
   */
  lemma WholeRangeScore(d: Distribution, start: nat, center: nat, end: nat, w: uint32)
    requires start < center && center + 1 < end <= |d|
    requires forall j :: start < j <= center ==> WithinAt(d, j, center, w)
    requires forall j :: center < j < end ==> WithinAt(d, center, j, w)
    ensures WindowScore(d, start, center, end, w) == SignedSum(d, start + 1, center + 1) - SignedSum(d, center + 1, end)
  {
    LeftWalkStops(d, start, center, w, center, start);
    RightWalkStops(d, end, center, w, center + 1, end);
  }
}
