/**
 * ting (ting/ting.cpp): the argument checks, the output name, the loop that
 * counts every read at its position in an occurrence map of pairs (only
 * `.second` is ever written), `samePositionReads`, and the decoders that the
 * peak-candidate code applies to the map's entries.
 */
module Ting {
  import opened Words
  import opened Maybe
  import opened SortedMap
  import opened BamRecordKey
  import opened FilePaths
  import opened PairCounts
  import opened Peak

  datatype Statistics = Statistics(totalReads: nat, samePositionReads: nat)

  const NO_READS := Statistics(0, 0)

  const CANDIDATE_SCORES_SUFFIX := "_candidateScores"

  /**
   * The output file: none when no input file is given (the usage is printed
   * and the program ends with 1); the second argument when exactly two are
   * given; otherwise the prefix of `argv1`, the first command-line word, with
   * the suffix `_candidateScores`.
   */
  function OutputName(inputFiles: seq<string>, argv1: string): (r: Option<string>)
    ensures r.None? <==> |inputFiles| == 0
    ensures |inputFiles| == 2 ==> r == Some(inputFiles[1])
    ensures r.Some? && |inputFiles| != 2 ==>
      |r.value| >= |CANDIDATE_SCORES_SUFFIX| &&
      r.value[..|r.value| - |CANDIDATE_SCORES_SUFFIX|] == GetFilePrefix(argv1, true) &&
      r.value[|r.value| - |CANDIDATE_SCORES_SUFFIX|..] == CANDIDATE_SCORES_SUFFIX
  {
    if |inputFiles| == 0 then None
    else if |inputFiles| == 2 then Some(inputFiles[1])
    else Some(GetFilePrefix(argv1, true) + CANDIDATE_SCORES_SUFFIX)
  }

  /** The occurrence map and the statistics after some reads. */
  datatype Counted = Counted(occurenceMap: seq<Entry<Counts>>, stats: Statistics)

  const START := Counted([], NO_READS)

  /** One pass of the loop: `++occurenceMap[key].second`, and a same-position read when the new count exceeds 1. */
  function CountRead(c: Counted, r: Record): Counted
  {
    var key := KeyOf(r).pos;
    var item := Get(c.occurenceMap, key, NO_COUNTS);
    var n := item.second + 1;
    Counted(Put(c.occurenceMap, key, item.(second := n)),
            c.stats.(totalReads := c.stats.totalReads + 1,
                     samePositionReads := c.stats.samePositionReads + if n > 1 then 1 else 0))
  }

  /** The loop over the reads in file order. */
  function CountAll(records: seq<Record>): Counted
  {
    if records == [] then START else CountRead(CountAll(records[..|records| - 1]), records[|records| - 1])
  }

  /** The positions of the reads. */
  function PositionsOf(records: seq<Record>): (ps: set<uint64>)
    ensures forall i :: 0 <= i < |records| ==> KeyOf(records[i]).pos in ps
    ensures forall p :: p in ps ==> exists i :: 0 <= i < |records| && KeyOf(records[i]).pos == p
  {
    if records == [] then {}
    else
      var ps := PositionsOf(records[..|records| - 1]);
      assert forall i :: 0 <= i < |records| - 1 ==> records[..|records| - 1][i] == records[i];
      ps + {KeyOf(records[|records| - 1]).pos}
  }

  /**
   * What the loop keeps true: the map is sorted, every pair has `.first == 0`
   * and `.second >= 1`, the `.second` counts add up to the reads, and the
   * same-position reads are the reads beyond one per position.
   */
  ghost predicate Inv(c: Counted)
  {
    Sorted(c.occurenceMap) &&
    (forall k :: k in Keys(c.occurenceMap) ==>
      Get(c.occurenceMap, k, NO_COUNTS).first == 0 && Get(c.occurenceMap, k, NO_COUNTS).second >= 1) &&
    Total(Project(c.occurenceMap, Second)) == c.stats.totalReads &&
    c.stats.samePositionReads + |c.occurenceMap| == c.stats.totalReads
  }

  /**
   * One read: it is a same-position read exactly when its position was in
   * the map before, its position is in the map afterwards, and the invariant
   * holds again.
   */
  lemma CountReadInv(c: Counted, r: Record)
    requires Inv(c)
    ensures CountRead(c, r).stats.totalReads == c.stats.totalReads + 1
    ensures CountRead(c, r).stats.samePositionReads ==
      c.stats.samePositionReads + if KeyOf(r).pos in Keys(c.occurenceMap) then 1 else 0
    ensures Keys(CountRead(c, r).occurenceMap) == Keys(c.occurenceMap) + {KeyOf(r).pos}
    ensures Inv(CountRead(c, r))
  {
    var m := c.occurenceMap;
    var key := KeyOf(r).pos;
    var item := Get(m, key, NO_COUNTS);
    var t := Counted(Put(m, key, item.(second := item.second + 1)),
      c.stats.(totalReads := c.stats.totalReads + 1,
               samePositionReads := c.stats.samePositionReads + if item.second + 1 > 1 then 1 else 0));
    assert CountRead(c, r) == t;
    if key !in Keys(m) {
      GetMissing(m, key, NO_COUNTS);
    }
    PutCounts(m, key, item.(second := item.second + 1));
    PutSize(m, key, item.(second := item.second + 1));
    var m' := t.occurenceMap;
    forall k | k in Keys(m') ensures Get(m', k, NO_COUNTS).first == 0 && Get(m', k, NO_COUNTS).second >= 1 {
      if k != key {
        assert k in Keys(m);
      }
    }
  }

  /** A key that is not in the map reads as the default. */
  lemma {:induction false} GetMissing<V>(m: seq<Entry<V>>, k: uint64, d: V)
    requires k !in Keys(m)
    ensures Get(m, k, d) == d
  {
    if m != [] {
      GetMissing(m[1..], k, d);
    }
  }

  /**
   * After all reads: every read was counted, the map holds exactly the
   * reads' positions, and the same-position reads are the reads minus the
   * distinct positions.
   */
  lemma {:induction false} CountAllInv(records: seq<Record>)
    ensures Inv(CountAll(records))
    ensures CountAll(records).stats.totalReads == |records|
    ensures Keys(CountAll(records).occurenceMap) == PositionsOf(records)
    ensures CountAll(records).stats.samePositionReads == |records| - |PositionsOf(records)|
  {
    if records != [] {
      var n := |records| - 1;
      CountAllInv(records[..n]);
      CountReadInv(CountAll(records[..n]), records[n]);
    }
    SortedSize(CountAll(records).occurenceMap);
  }

  /** The counting loop (ting.cpp, `while (!atEnd(bamFileIn))`). */
  method CountPositions(records: seq<Record>) returns (occurenceMap: seq<Entry<Counts>>, stats: Statistics)
    ensures Counted(occurenceMap, stats) == CountAll(records)
  {
    occurenceMap, stats := [], NO_READS;
    for i := 0 to |records|
      invariant Counted(occurenceMap, stats) == CountAll(records[..i])
    {
      var record := records[i];
      assert records[..i + 1][..i] == records[..i];
      ghost var before := Counted(occurenceMap, stats);
      assert CountAll(records[..i + 1]) == CountRead(before, record);
      stats := stats.(totalReads := stats.totalReads + 1);
      var key := KeyOf(record).pos;
      var item := Get(occurenceMap, key, NO_COUNTS);
      var n := item.second + 1;
      occurenceMap := Put(occurenceMap, key, item.(second := n));
      if n > 1 {
        stats := stats.(samePositionReads := stats.samePositionReads + 1);
      }
      assert Counted(occurenceMap, stats) == CountRead(before, record);
    }
    assert records[..|records|] == records;
  }

  /** `getUniqueFrequency`: the `.second` count. */
  function UniqueFrequency(e: Entry<Counts>): nat
  {
    e.value.second
  }

  /** `isReverseStrand`: bit 0 of the key. */
  predicate IsReverseEntry(e: Entry<Counts>)
  {
    IsReverseStrand(Key(e.key))
  }

  /** `getPosition<TPosition>`: chromosome from the high word, coordinate from the low word shifted right. */
  function EntryPosition(e: Entry<Counts>): Position
  {
    DefaultPosition().(chromosomeID := GetRID(Key(e.key)), position := GetPosition(Key(e.key)))
  }

  /** The entry of a counted read decodes to its chromosome, its 5' end and its strand. */
  lemma DecodeCountedRead(r: Record, c: Counts)
    requires InKeyRange(r)
    ensures EntryPosition(Entry(KeyOf(r).pos, c)) == Position(r.rID, FivePrime(r), false)
    ensures IsReverseEntry(Entry(KeyOf(r).pos, c)) <==> IsRev(r)
  {
    KeyRoundTrip(r);
  }

  /**
   * The decoders agree with nexus-pre's on the `.second` column of the map:
   * the same frequency, the same position and the same sign of the strand.
   */
  lemma DecodersOnSecond(m: seq<Entry<Counts>>, i: nat)
    requires i < |m|
    ensures UniqueFrequency(m[i]) == Project(m, Second)[i].value
    ensures EntryPosition(m[i]) == PositionOf(Project(m, Second)[i])
    ensures Signed(Project(m, Second)[i]) == (if IsReverseEntry(m[i]) then -1 else 1) * UniqueFrequency(m[i])
  {
  }
}
