/**
 * `std::map` keyed by a packed read position (`uint64_t`), as the tools use
 * it: entries kept in strictly increasing key order, `operator[]` inserting a
 * value-initialised entry on a miss, `find` returning end() on a miss, and
 * iteration in key order.  A map is the sequence of its entries in that order.
 */
module SortedMap {
  import opened Words
  import opened Maybe

  datatype Entry<V> = Entry(key: uint64, value: V)

  ghost predicate Sorted<V>(m: seq<Entry<V>>)
  {
    forall i, j :: 0 <= i < j < |m| ==> m[i].key < m[j].key
  }

  function Keys<V>(m: seq<Entry<V>>): set<uint64>
  {
    if m == [] then {} else {m[0].key} + Keys(m[1..])
  }

  /** `find`: the value stored under `k`, or None for end(). */
  function Find<V>(m: seq<Entry<V>>, k: uint64): (r: Option<V>)
    ensures r.Some? <==> k in Keys(m)
  {
    if m == [] then None
    else if m[0].key == k then Some(m[0].value)
    else Find(m[1..], k)
  }

  /** The value under `k`, or `d` (the value-initialised `V`) when `k` is absent. */
  function Get<V>(m: seq<Entry<V>>, k: uint64, d: V): V
  {
    match Find(m, k)
    case Some(v) => v
    case None => d
  }

  /** Insert-or-assign: `m[k] = v`. */
  function Put<V>(m: seq<Entry<V>>, k: uint64, v: V): seq<Entry<V>>
  {
    if m == [] then [Entry(k, v)]
    else if k < m[0].key then [Entry(k, v)] + m
    else if k == m[0].key then [Entry(k, v)] + m[1..]
    else [m[0]] + Put(m[1..], k, v)
  }

  /** The values in key order, as an iteration over the map sees them. */
  function Values<V>(m: seq<Entry<V>>): (r: seq<V>)
    ensures |r| == |m|
    ensures forall i :: 0 <= i < |m| ==> r[i] == m[i].value
  {
    seq(|m|, i requires 0 <= i < |m| => m[i].value)
  }

  function SumBy<V>(m: seq<Entry<V>>, f: V -> int): int
  {
    if m == [] then 0 else f(m[0].value) + SumBy(m[1..], f)
  }

  lemma {:induction false} KeysBounded<V>(m: seq<Entry<V>>, b: int)
    requires forall i :: 0 <= i < |m| ==> b < m[i].key
    ensures forall k :: k in Keys(m) ==> b < k
  {
    if m != [] {
      KeysBounded(m[1..], b);
    }
  }

  lemma {:induction false} KeysIndexed<V>(m: seq<Entry<V>>, k: uint64)
    ensures k in Keys(m) <==> exists i :: 0 <= i < |m| && m[i].key == k
  {
    if m != [] {
      KeysIndexed(m[1..], k);
      if k in Keys(m[1..]) {
        var i :| 0 <= i < |m| - 1 && m[1..][i].key == k;
        assert m[i + 1].key == k;
      }
      if exists i :: 0 <= i < |m| && m[i].key == k {
        var i :| 0 <= i < |m| && m[i].key == k;
        if i > 0 {
          assert m[1..][i - 1].key == k;
        }
      }
    }
  }

  /** A sorted map holds each key once: it has as many entries as keys. */
  lemma {:induction false} SortedSize<V>(m: seq<Entry<V>>)
    requires Sorted(m)
    ensures |Keys(m)| == |m|
  {
    if m != [] {
      KeysBounded(m[1..], m[0].key);
      SortedSize(m[1..]);
    }
  }

  lemma {:induction false} FindAt<V>(m: seq<Entry<V>>, i: nat)
    requires Sorted(m) && i < |m|
    ensures Find(m, m[i].key) == Some(m[i].value)
  {
    if i > 0 {
      FindAt(m[1..], i - 1);
    }
  }

  /** `m[k] = v` adds `k` to the keys. */
  lemma {:induction false} PutKeys<V>(m: seq<Entry<V>>, k: uint64, v: V)
    ensures Keys(Put(m, k, v)) == Keys(m) + {k}
  {
    if m != [] && k > m[0].key {
      PutKeys(m[1..], k, v);
    } else if m != [] && k == m[0].key {
      assert Put(m, k, v)[1..] == m[1..];
    }
  }

  /** After `m[k] = v`, `find(k)` gives `v` and every other key finds what it found before. */
  lemma {:induction false} PutFind<V>(m: seq<Entry<V>>, k: uint64, v: V, k': uint64)
    ensures Find(Put(m, k, v), k') == if k' == k then Some(v) else Find(m, k')
  {
    if m != [] && k > m[0].key {
      PutFind(m[1..], k, v, k');
    } else if m != [] && k == m[0].key {
      assert Put(m, k, v)[1..] == m[1..];
    }
  }

  /** `m[k] = v` keeps the entries in strictly increasing key order. */
  lemma {:induction false} PutSorted<V>(m: seq<Entry<V>>, k: uint64, v: V)
    requires Sorted(m)
    ensures Sorted(Put(m, k, v))
  {
    if m != [] && k > m[0].key {
      PutSorted(m[1..], k, v);
      var p := Put(m[1..], k, v);
      PutKeys(m[1..], k, v);
      KeysBounded(m[1..], m[0].key);
      forall j | 0 <= j < |p| ensures m[0].key < p[j].key {
        KeysIndexed(p, p[j].key);
      }
    }
  }

  /** `m[k] = v` adds an entry exactly when `k` was absent. */
  lemma {:induction false} PutSize<V>(m: seq<Entry<V>>, k: uint64, v: V)
    requires Sorted(m)
    ensures |Put(m, k, v)| == |m| + (if k in Keys(m) then 0 else 1)
  {
    if m != [] && k > m[0].key {
      PutSize(m[1..], k, v);
    } else if m != [] && k < m[0].key {
      KeysBounded(m[1..], m[0].key);
    }
  }

  /** Storing `v` under `k` replaces that key's share of a sum by `f(v)`. */
  lemma {:induction false} SumByPut<V>(m: seq<Entry<V>>, k: uint64, v: V, f: V -> int)
    requires Sorted(m)
    ensures SumBy(Put(m, k, v), f) ==
      SumBy(m, f) - (match Find(m, k) case Some(w) => f(w) case None => 0) + f(v)
  {
    if m != [] && k > m[0].key {
      SumByPut(m[1..], k, v, f);
    } else if m != [] && k < m[0].key {
      KeysBounded(m[1..], m[0].key);
      assert k !in Keys(m);
    } else if m != [] {
      assert Put(m, k, v)[1..] == m[1..];
    }
  }

  /** Getting `k` after `m[k] = v` gives `v`; every other key keeps its value. */
  lemma PutGet<V>(m: seq<Entry<V>>, k: uint64, v: V, k': uint64, d: V)
    ensures Get(Put(m, k, v), k', d) == if k' == k then v else Get(m, k', d)
  {
    PutFind(m, k, v, k');
  }

  /** The entry at index `i` is found under its own key, so its key is in the map. */
  lemma EntryAt<V>(m: seq<Entry<V>>, i: nat, d: V)
    requires Sorted(m) && i < |m|
    ensures m[i].key in Keys(m) && Get(m, m[i].key, d) == m[i].value
  {
    FindAt(m, i);
  }

  function AsInt(v: nat): int
  {
    v
  }

  /** The sum of the counts of a map of counts. */
  function Total(m: seq<Entry<nat>>): int
  {
    SumBy(m, AsInt)
  }

  /** `++m[k]` on a map of counts: a missing key starts at 0. */
  function Increment(m: seq<Entry<nat>>, k: uint64): seq<Entry<nat>>
  {
    Put(m, k, Get(m, k, 0) + 1)
  }

  /**
   * `++m[k]` keeps the map sorted, adds `k` to the keys, raises the count of
   * `k` by one and no other, and raises the total by one.
   */
  lemma IncrementProperties(m: seq<Entry<nat>>, k: uint64)
    requires Sorted(m)
    ensures Sorted(Increment(m, k))
    ensures Keys(Increment(m, k)) == Keys(m) + {k}
    ensures forall k' :: Get(Increment(m, k), k', 0) == Get(m, k', 0) + (if k' == k then 1 else 0)
    ensures Total(Increment(m, k)) == Total(m) + 1
  {
    var v := Get(m, k, 0) + 1;
    assert Increment(m, k) == Put(m, k, v);
    PutSorted(m, k, v);
    PutKeys(m, k, v);
    forall k' {
      PutGet(m, k, v, k', 0);
    }
    SumByPut(m, k, v, AsInt);
    assert (match Find(m, k) case Some(w) => AsInt(w) case None => 0) == Get(m, k, 0);
  }

  /** A read through `m[k]`: on a miss `operator[]` inserts a zero entry. */
  function Touch(m: seq<Entry<nat>>, k: uint64): seq<Entry<nat>>
  {
    if Find(m, k).Some? then m else Put(m, k, 0)
  }

  /** The inserted zero entry changes no count and not the total. */
  lemma TouchProperties(m: seq<Entry<nat>>, k: uint64)
    requires Sorted(m)
    ensures Sorted(Touch(m, k))
    ensures Keys(Touch(m, k)) == Keys(m) + {k}
    ensures forall k' :: Get(Touch(m, k), k', 0) == Get(m, k', 0)
    ensures Total(Touch(m, k)) == Total(m)
  {
    if Find(m, k).None? {
      PutSorted(m, k, 0);
      PutKeys(m, k, 0);
      forall k' {
        PutGet(m, k, 0, k', 0);
      }
      SumByPut(m, k, 0, AsInt);
    }
  }

  /** A sum over a map peeled from its last entry, as a loop over it accumulates. */
  lemma {:induction false} SumBySnoc<V>(m: seq<Entry<V>>, f: V -> int)
    requires m != []
    ensures SumBy(m, f) == SumBy(m[..|m| - 1], f) + f(m[|m| - 1].value)
  {
    if |m| > 1 {
      SumBySnoc(m[1..], f);
      assert m[1..][..|m| - 2] == m[..|m| - 1][1..];
    }
  }

  /** One field of every value of a map whose values are records (`std::pair`), under the same keys. */
  function Project<V>(m: seq<Entry<V>>, f: V -> nat): (r: seq<Entry<nat>>)
    ensures |r| == |m|
    ensures forall i :: 0 <= i < |m| ==> r[i] == Entry(m[i].key, f(m[i].value))
  {
    if m == [] then [] else [Entry(m[0].key, f(m[0].value))] + Project(m[1..], f)
  }

  /** A projection has the keys of the map, in the same order. */
  lemma {:induction false} ProjectKeys<V>(m: seq<Entry<V>>, f: V -> nat)
    ensures Keys(Project(m, f)) == Keys(m)
    ensures Sorted(m) ==> Sorted(Project(m, f))
  {
    if m != [] {
      ProjectKeys(m[1..], f);
      assert Project(m, f)[1..] == Project(m[1..], f);
    }
  }

  /** The projected count of a key is the field of its value; a missing key reads as `f(d)`. */
  lemma {:induction false} ProjectGet<V>(m: seq<Entry<V>>, f: V -> nat, k: uint64, d: V)
    requires f(d) == 0
    ensures Get(Project(m, f), k, 0) == f(Get(m, k, d))
  {
    if m != [] {
      ProjectGet(m[1..], f, k, d);
      assert Project(m, f)[1..] == Project(m[1..], f);
    }
  }

  /** Storing a value and then projecting is storing the projected field. */
  lemma {:induction false} ProjectPut<V>(m: seq<Entry<V>>, f: V -> nat, k: uint64, v: V)
    ensures Project(Put(m, k, v), f) == Put(Project(m, f), k, f(v))
  {
    if m != [] {
      var p := Project(m, f);
      assert p[1..] == Project(m[1..], f);
      if k > m[0].key {
        ProjectPut(m[1..], f, k, v);
        assert Put(m, k, v)[1..] == Put(m[1..], k, v);
      }
    }
  }
}
