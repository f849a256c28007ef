/**
 * The occurrence maps of test-app and ting map a read position to a
 * `std::pair<unsigned int, unsigned int>` of counts.  Each field, taken
 * over the whole map, is a map of counts under the same keys.
 */
module PairCounts {
  import opened Words
  import opened SortedMap

  datatype Counts = Counts(first: nat, second: nat)

  /** The value-initialised pair that `operator[]` inserts on a miss. */
  const NO_COUNTS := Counts(0, 0)

  function First(c: Counts): nat
  {
    c.first
  }

  function Second(c: Counts): nat
  {
    c.second
  }

  /**
   * Storing `v` under `k` keeps the map sorted, adds `k` to its keys, changes
   * the pair of `k` and no other, and replaces `k`'s share of each field's
   * total.
   */
  lemma PutCounts(m: seq<Entry<Counts>>, k: uint64, v: Counts)
    requires Sorted(m)
    ensures Sorted(Put(m, k, v)) && Keys(Put(m, k, v)) == Keys(m) + {k}
    ensures forall k' :: Get(Put(m, k, v), k', NO_COUNTS) == if k' == k then v else Get(m, k', NO_COUNTS)
    ensures Total(Project(Put(m, k, v), First)) == Total(Project(m, First)) - Get(m, k, NO_COUNTS).first + v.first
    ensures Total(Project(Put(m, k, v), Second)) == Total(Project(m, Second)) - Get(m, k, NO_COUNTS).second + v.second
  {
    PutSorted(m, k, v);
    PutKeys(m, k, v);
    forall k' {
      PutGet(m, k, v, k', NO_COUNTS);
    }
    ProjectTotal(m, k, v, First);
    ProjectTotal(m, k, v, Second);
  }

  lemma ProjectTotal(m: seq<Entry<Counts>>, k: uint64, v: Counts, f: Counts -> nat)
    requires Sorted(m) && f(NO_COUNTS) == 0
    ensures Total(Project(Put(m, k, v), f)) == Total(Project(m, f)) - f(Get(m, k, NO_COUNTS)) + f(v)
  {
    ProjectPut(m, f, k, v);
    ProjectKeys(m, f);
    ProjectGet(m, f, k, NO_COUNTS);
    SumByPut(Project(m, f), k, f(v), AsInt);
  }

  /** The field totals and per-key values of a map's projections, read through the pairs. */
  lemma Projections(m: seq<Entry<Counts>>)
    requires Sorted(m)
    ensures Sorted(Project(m, First)) && Sorted(Project(m, Second))
    ensures Keys(Project(m, First)) == Keys(m) && Keys(Project(m, Second)) == Keys(m)
    ensures forall k :: Get(Project(m, First), k, 0) == Get(m, k, NO_COUNTS).first
    ensures forall k :: Get(Project(m, Second), k, 0) == Get(m, k, NO_COUNTS).second
  {
    ProjectKeys(m, First);
    ProjectKeys(m, Second);
    forall k ensures Get(Project(m, First), k, 0) == Get(m, k, NO_COUNTS).first {
      ProjectGet(m, First, k, NO_COUNTS);
    }
    forall k ensures Get(Project(m, Second), k, 0) == Get(m, k, NO_COUNTS).second {
      ProjectGet(m, Second, k, NO_COUNTS);
    }
  }
}
