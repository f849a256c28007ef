/**
 * The bookkeeping of test-app's `main` (test-app/test-app.cpp): the XM tag
 * counters, barcode filtering of the mapped reads into one occurrence map of
 * (all, unique) pairs, the single pass that builds both duplication-rate
 * histograms, and `totalSamePositionReads`.
 */
module TestApp {
  import opened Words
  import opened Maybe
  import opened Text
  import opened SortedMap
  import opened BamRecordKey
  import opened Dedup
  import opened DuplicationRate
  import opened PairCounts

  datatype Statistics = Statistics(
    totalReads: nat,
    totalMappedReads: nat,
    removedReads: nat,
    totalSamePositionReads: nat,
    readsAfterFiltering: nat,
    couldNotMap: nat,
    couldNotMapUniquely: nat)

  const NO_READS := Statistics(0, 0, 0, 0, 0, 0, 0)

  /**
   * The argument checks: with `--help`, or with fewer than two input files,
   * the usage is printed and the program ends with 1; otherwise it reads the
   * first two files.
   */
  function InputFiles(help: bool, inputFiles: seq<string>): (r: Option<(string, string)>)
    ensures r.None? <==> help || |inputFiles| < 2
    ensures r.Some? ==> r.value == (inputFiles[0], inputFiles[1])
  {
    if help then None
    else if |inputFiles| < 1 then None
    else if |inputFiles| < 2 then None
    else Some((inputFiles[0], inputFiles[1]))
  }

  /** What the filtering loop has built after some reads; `.first` counts all mapped reads at a position, `.second` the unique ones. */
  datatype State = State(
    keySet: seq<BarcodeKey>,
    occurenceMap: seq<Entry<Counts>>,
    written: seq<Record>,
    stats: Statistics)

  const START := State([], [], [], NO_READS)

  /** The XM check made for every read, before the flag filter: a tag of 0 is unmappable, any other value ambiguous. */
  function CountTag(stats: Statistics, r: Record): (t: Statistics)
    ensures t.couldNotMap == stats.couldNotMap + (if Unmappable(r) then 1 else 0)
    ensures t.couldNotMapUniquely == stats.couldNotMapUniquely + (if Ambiguous(r) then 1 else 0)
    ensures t.(couldNotMap := stats.couldNotMap, couldNotMapUniquely := stats.couldNotMapUniquely) == stats
  {
    match r.xm
    case None => stats
    case Some(tagValue) =>
      if tagValue == 0 then stats.(couldNotMap := stats.couldNotMap + 1)
      else stats.(couldNotMapUniquely := stats.couldNotMapUniquely + 1)
  }

  /**
   * A mapped read whose barcode key is `key`: the key goes into the set, the
   * pair at its position is created if missing, `.first` grows, and the read
   * is either removed or written with `.second` growing.
   */
  function Advance(s: State, key: BarcodeKey, r: Record): State
  {
    var stats := s.stats.(totalMappedReads := s.stats.totalMappedReads + 1);
    var insertResult := Insert(s.keySet, key);
    var mapItem := Get(s.occurenceMap, key.pos, NO_COUNTS);
    var counts := Counts(mapItem.first + 1, mapItem.second + if insertResult.1 then 1 else 0);
    State(insertResult.0, Put(s.occurenceMap, key.pos, counts),
          if insertResult.1 then s.written + [r] else s.written,
          if insertResult.1 then stats else stats.(removedReads := stats.removedReads + 1))
  }

  /** One pass of the filtering loop.  None when the barcode key's constructor throws, which ends the program. */
  function Step(s: State, r: Record): (t: Option<State>)
    requires |r.qName| < NPOS
    ensures t.None? <==> IsMapped(r) && BarcodeKeyOf(r).None?
    ensures t.Some? ==> t.value.stats.totalReads == s.stats.totalReads + 1
  {
    var s' := s.(stats := CountTag(s.stats.(totalReads := s.stats.totalReads + 1), r));
    if !IsMapped(r) then Some(s')
    else
      match BarcodeKeyOf(r)
      case None => None
      case Some(key) => Some(Advance(s', key, r))
  }

  /** The filtering loop over the reads in file order. */
  function Run(records: seq<Record>): Option<State>
    requires Named(records)
  {
    if records == [] then Some(START)
    else
      match Run(records[..|records| - 1])
      case None => None
      case Some(s) => Step(s, records[|records| - 1])
  }

  /**
   * What the loop keeps true: the map is sorted, each position holds
   * `1 <= .second <= .first` (so the histogram's `[.second - 1]` is in
   * range), every key in the set and every written read is at a position of
   * the map, the `.first` counts add up to the mapped reads, the `.second`
   * counts and the written file to the mapped reads not removed; the later
   * counters are still zero.
   */
  ghost predicate Inv(s: State)
  {
    Sorted(s.occurenceMap) &&
    (forall k :: k in Keys(s.occurenceMap) ==>
      1 <= Get(s.occurenceMap, k, NO_COUNTS).second <= Get(s.occurenceMap, k, NO_COUNTS).first) &&
    PositionsIn(s.keySet, Keys(s.occurenceMap)) &&
    (forall i :: 0 <= i < |s.written| ==> KeyOf(s.written[i]).pos in Keys(s.occurenceMap)) &&
    Total(Project(s.occurenceMap, First)) == s.stats.totalMappedReads &&
    Total(Project(s.occurenceMap, Second)) + s.stats.removedReads == s.stats.totalMappedReads &&
    |s.written| + s.stats.removedReads == s.stats.totalMappedReads &&
    s.stats.totalSamePositionReads == 0 && s.stats.readsAfterFiltering == 0
  }

  /** Each pass keeps the invariant. */
  lemma StepInv(s: State, r: Record)
    requires |r.qName| < NPOS
    requires Inv(s) && Step(s, r).Some?
    ensures Inv(Step(s, r).value)
  {
    var s' := s.(stats := CountTag(s.stats.(totalReads := s.stats.totalReads + 1), r));
    TaggedInv(s, r);
    if IsMapped(r) {
      var key := BarcodeKeyOf(r).value;
      assert Step(s, r) == Some(Advance(s', key, r));
      if Insert(s'.keySet, key).1 {
        WrittenInv(s', key, r);
      } else {
        RemovedInv(s', key, r);
      }
    } else {
      assert Step(s, r) == Some(s');
    }
  }

  /** The XM counters and the read count are not part of the invariant. */
  lemma TaggedInv(s: State, r: Record)
    requires Inv(s)
    ensures Inv(s.(stats := CountTag(s.stats.(totalReads := s.stats.totalReads + 1), r)))
  {
  }

  /** A mapped read whose key was seen before: the invariant holds with the read counted as removed. */
  lemma RemovedInv(s: State, key: BarcodeKey, r: Record)
    requires Inv(s) && !Insert(s.keySet, key).1
    ensures Inv(Advance(s, key, r))
  {
    var mapItem := Get(s.occurenceMap, key.pos, NO_COUNTS);
    assert Advance(s, key, r) == State(s.keySet, Put(s.occurenceMap, key.pos, Counts(mapItem.first + 1, mapItem.second)),
      s.written, s.stats.(totalMappedReads := s.stats.totalMappedReads + 1, removedReads := s.stats.removedReads + 1));
    SeenAtSamePosition(s.keySet, key, Keys(s.occurenceMap));
    PutCounts(s.occurenceMap, key.pos, Counts(mapItem.first + 1, mapItem.second));
  }

  /** A mapped read with a new key: the invariant holds with the read written and counted as unique. */
  lemma WrittenInv(s: State, key: BarcodeKey, r: Record)
    requires Inv(s) && Insert(s.keySet, key).1 && key.pos == KeyOf(r).pos
    ensures Inv(Advance(s, key, r))
  {
    var mapItem := Get(s.occurenceMap, key.pos, NO_COUNTS);
    var t := State(s.keySet + [key], Put(s.occurenceMap, key.pos, Counts(mapItem.first + 1, mapItem.second + 1)),
      s.written + [r], s.stats.(totalMappedReads := s.stats.totalMappedReads + 1));
    assert Advance(s, key, r) == t;
    PutCounts(s.occurenceMap, key.pos, Counts(mapItem.first + 1, mapItem.second + 1));
    var m := t.occurenceMap;
    forall k | k in Keys(m) ensures 1 <= Get(m, k, NO_COUNTS).second <= Get(m, k, NO_COUNTS).first {
      if k != key.pos {
        assert k in Keys(s.occurenceMap);
      }
    }
    forall i | 0 <= i < |t.keySet| ensures t.keySet[i].pos in Keys(m) {
      if i < |s.keySet| {
        assert t.keySet[i] == s.keySet[i];
      }
    }
    forall i | 0 <= i < |t.written| ensures KeyOf(t.written[i]).pos in Keys(m) {
      if i < |s.written| {
        assert t.written[i] == s.written[i];
      }
    }
    assert Total(Project(m, First)) == t.stats.totalMappedReads;
    assert Total(Project(m, Second)) + t.stats.removedReads == t.stats.totalMappedReads;
  }

  /** The invariant holds after the whole file when the run succeeds; the proof mirrors `NexusPre.RunInv`, as test-app's loop mirrors nexus-pre's. */
  lemma {:induction false} RunInv(records: seq<Record>)
    requires Named(records) && Run(records).Some?
    ensures Inv(Run(records).value)
  {
    if records != [] {
      RunInv(records[..|records| - 1]);
      StepInv(Run(records[..|records| - 1]).value, records[|records| - 1]);
    }
  }

  /**
   * A finished run has counted every read, as mapped exactly those with flag
   * 0x00 or 0x10, and in the XM counters exactly the reads with a tag of 0 and
   * those with another tag, whatever their flag.
   */
  lemma {:induction false} RunCounts(records: seq<Record>)
    requires Named(records) && Run(records).Some?
    ensures Run(records).value.stats.totalReads == |records|
    ensures Run(records).value.stats.totalMappedReads == CountIf(records, IsMapped)
    ensures Run(records).value.stats.couldNotMap == CountIf(records, Unmappable)
    ensures Run(records).value.stats.couldNotMapUniquely == CountIf(records, Ambiguous)
  {
    if records != [] {
      var n := |records| - 1;
      RunCounts(records[..n]);
      CountIfSnoc(records, n, IsMapped);
      CountIfSnoc(records, n, Unmappable);
      CountIfSnoc(records, n, Ambiguous);
      assert records[..n + 1] == records;
    }
  }

  /** `Run` one read further; the same step as `NexusPre.RunSnoc`. */
  lemma RunSnoc(records: seq<Record>, i: nat)
    requires Named(records) && i < |records|
    ensures Run(records[..i + 1]) ==
      match Run(records[..i])
      case None => None
      case Some(s) => Step(s, records[i])
  {
    assert records[..i + 1][..i] == records[..i];
  }

  /** Once a prefix of the file aborts the run, the whole file does; the same proof as `NexusPre.RunAbortsFor`. */
  lemma {:induction false} RunAbortsFor(records: seq<Record>, i: nat)
    requires Named(records) && i <= |records|
    requires Run(records[..i]).None?
    ensures Run(records).None?
    decreases |records| - i
  {
    if i < |records| {
      assert records[..i + 1][..i] == records[..i];
      RunAbortsFor(records, i + 1);
    } else {
      assert records[..i] == records;
    }
  }

  /**
   * The body of the loop for a mapped read: count it, insert its key, and
   * update the pair at its position and the written reads or the removed
   * count according to the insert.
   */
  method AddMappedRead(s: State, key: BarcodeKey, r: Record) returns (t: State)
    ensures t == Advance(s, key, r)
  {
    var stats := s.stats.(totalMappedReads := s.stats.totalMappedReads + 1);
    var written := s.written;
    var insertResult := Insert(s.keySet, key);
    var mapItem := Get(s.occurenceMap, key.pos, NO_COUNTS);
    if !insertResult.1 {
      stats := stats.(removedReads := stats.removedReads + 1);
    } else {
      written := written + [r];
      mapItem := mapItem.(second := mapItem.second + 1);
    }
    mapItem := mapItem.(first := mapItem.first + 1);
    t := State(insertResult.0, Put(s.occurenceMap, key.pos, mapItem), written, stats);
  }

  /**
   * The body of the filtering loop for one read: count it and its XM tag,
   * and for a mapped read build its barcode key and count it at its position.
   * None when the key's constructor throws.
   */
  method FilterRead(s: State, record: Record) returns (t: Option<State>)
    requires |record.qName| < NPOS
    ensures t == Step(s, record)
  {
    var stats := s.stats.(totalReads := s.stats.totalReads + 1);
    if record.xm.Some? {
      var tagValue := record.xm.value;
      if tagValue == 0 {
        stats := stats.(couldNotMap := stats.couldNotMap + 1);
      } else {
        stats := stats.(couldNotMapUniquely := stats.couldNotMapUniquely + 1);
      }
    }
    assert stats == CountTag(s.stats.(totalReads := s.stats.totalReads + 1), record);
    if record.flag == 0x00 || record.flag == 0x10 {
      var key := BarcodeKeyOf(record);
      if key.None? {
        return None;
      }
      var next := AddMappedRead(s.(stats := stats), key.value, record);
      return Some(next);
    }
    return Some(s.(stats := stats));
  }

  /** The filtering loop (test-app.cpp, `while (!atEnd(bamFileIn))`). */
  method FilterDuplicates(records: seq<Record>) returns (result: Option<State>)
    requires Named(records)
    ensures result == Run(records)
  {
    var keySet: seq<BarcodeKey> := [];
    var occurenceMap: seq<Entry<Counts>> := [];
    var written: seq<Record> := [];
    var stats := NO_READS;
    var i := 0;
    while i < |records|
      invariant i <= |records|
      invariant Run(records[..i]) == Some(State(keySet, occurenceMap, written, stats))
    {
      var record := records[i];
      RunSnoc(records, i);
      var t := FilterRead(State(keySet, occurenceMap, written, stats), record);
      if t.None? {
        RunAbortsFor(records, i + 1);
        return None;
      }
      keySet, occurenceMap, written, stats := t.value.keySet, t.value.occurenceMap, t.value.written, t.value.stats;
      i := i + 1;
    }
    assert records[..i] == records;
    return Some(State(keySet, occurenceMap, written, stats));
  }

  /**
   * The `std::for_each` over the occurrence map: one pass that grows and
   * increments the unique histogram by `.second` and the total one by
   * `.first`.
   */
  method BuildHistograms(m: seq<Entry<Counts>>) returns (duplicationRateUnique: seq<nat>, duplicationRate: seq<nat>)
    requires Positive(Values(Project(m, Second))) && Positive(Values(Project(m, First)))
    ensures duplicationRateUnique == Histogram(Values(Project(m, Second)))
    ensures duplicationRate == Histogram(Values(Project(m, First)))
  {
    duplicationRateUnique, duplicationRate := ForEachCount(m, Values(Project(m, Second)), Values(Project(m, First)));
  }

  /**
   * The loop itself, with the `.second` and `.first` columns of the map as
   * ghost sequences `u` and `a`.
   */
  method ForEachCount(m: seq<Entry<Counts>>, ghost u: seq<nat>, ghost a: seq<nat>) returns (duplicationRateUnique: seq<nat>, duplicationRate: seq<nat>)
    requires |u| == |a| == |m|
    requires forall i :: 0 <= i < |m| ==> u[i] == m[i].value.second >= 1 && a[i] == m[i].value.first >= 1
    ensures Positive(u) && Positive(a)
    ensures duplicationRateUnique == Histogram(u)
    ensures duplicationRate == Histogram(a)
  {
    duplicationRateUnique, duplicationRate := [], [];
    for i := 0 to |m|
      invariant duplicationRateUnique == Histogram(u[..i])
      invariant duplicationRate == Histogram(a[..i])
    {
      var val := m[i];
      HistogramSnoc(u, i);
      HistogramSnoc(a, i);
      duplicationRateUnique := Tally(duplicationRateUnique, val.value.second);
      duplicationRate := Tally(duplicationRate, val.value.first);
    }
    assert u[..|m|] == u;
    assert a[..|m|] == a;
  }

  /**
   * The histograms of a finished filtering run: both can be built, the unique
   * one is no longer than the total one, which is as long as the largest
   * count, the total one holds every mapped read, the unique one every read
   * kept, and the reads beyond the first at each position number the mapped
   * reads minus the positions.
   */
  lemma Histograms(s: State)
    requires Inv(s)
    ensures Positive(Values(Project(s.occurenceMap, Second))) && Positive(Values(Project(s.occurenceMap, First)))
    ensures |Histogram(Values(Project(s.occurenceMap, Second)))| <= |Histogram(Values(Project(s.occurenceMap, First)))|
      == MaxOf(Values(Project(s.occurenceMap, First)))
    ensures Moment(Histogram(Values(Project(s.occurenceMap, First))), 1, 1) == s.stats.totalMappedReads
    ensures Moment(Histogram(Values(Project(s.occurenceMap, Second))), 1, 1) == s.stats.totalMappedReads - s.stats.removedReads
    ensures Moment(Histogram(Values(Project(s.occurenceMap, First))), 1, 0) == s.stats.totalMappedReads - |s.occurenceMap|
  {
    var m := s.occurenceMap;
    Projections(m);
    DominatedHistograms(Project(m, Second), Project(m, First));
    SortedSize(m);
  }

  /** Everything test-app computes. */
  datatype Outputs = Outputs(
    filtered: seq<Record>,
    duplicationRateUnique: seq<nat>,
    duplicationRate: seq<nat>,
    stats: Statistics)

  /**
   * test-app after the filtering loop, from the state `s` it ends with: the
   * two histograms of the map's columns, padded to the same length, and
   * `totalSamePositionReads`.
   */
  method AfterFiltering(s: State) returns (out: Outputs)
    requires s.stats.totalSamePositionReads == 0
    requires Positive(Values(Project(s.occurenceMap, Second))) && Positive(Values(Project(s.occurenceMap, First)))
    requires |Histogram(Values(Project(s.occurenceMap, Second)))| <= |Histogram(Values(Project(s.occurenceMap, First)))|
      == MaxOf(Values(Project(s.occurenceMap, First)))
    requires Moment(Histogram(Values(Project(s.occurenceMap, First))), 1, 0) == s.stats.totalMappedReads - |s.occurenceMap|
    ensures out.filtered == s.written
    ensures out.stats == s.stats.(totalSamePositionReads := out.stats.totalSamePositionReads)
    ensures out.stats.totalSamePositionReads == out.stats.totalMappedReads - |s.occurenceMap|
    ensures |out.duplicationRateUnique| == |out.duplicationRate| == MaxOf(Values(Project(s.occurenceMap, First)))
    ensures out.duplicationRate == Histogram(Values(Project(s.occurenceMap, First)))
    ensures var unique := Histogram(Values(Project(s.occurenceMap, Second)));
      |unique| <= |out.duplicationRate| &&
      out.duplicationRateUnique == unique + Zeros(|out.duplicationRate| - |unique|)
  {
    var duplicationRateUnique, duplicationRate := BuildHistograms(s.occurenceMap);
    var total;
    total, duplicationRateUnique := SamePositionReads(duplicationRateUnique, duplicationRate, s.stats.totalSamePositionReads);
    var stats := s.stats.(totalSamePositionReads := total);
    return Outputs(s.written, duplicationRateUnique, duplicationRate, stats);
  }

  /**
   * test-app from the filtering loop to `totalSamePositionReads`: the
   * statistics of the run, with the reads beyond the first at each position
   * added, and both histograms padded to the longer one's length.
   */
  method Process(records: seq<Record>) returns (out: Option<Outputs>)
    requires Named(records)
    ensures out.None? <==> Run(records).None?
    ensures out.Some? ==> Inv(Run(records).value)
    ensures out.Some? ==> out.value.filtered == Run(records).value.written
    ensures out.Some? ==>
      out.value.stats == Run(records).value.stats.(totalSamePositionReads := out.value.stats.totalSamePositionReads)
    ensures out.Some? ==>
      out.value.stats.totalSamePositionReads == out.value.stats.totalMappedReads - |Run(records).value.occurenceMap|
    ensures out.Some? ==>
      |out.value.duplicationRateUnique| == |out.value.duplicationRate| == MaxOf(Values(Project(Run(records).value.occurenceMap, First)))
    ensures out.Some? ==>
      Positive(Values(Project(Run(records).value.occurenceMap, Second))) &&
      Positive(Values(Project(Run(records).value.occurenceMap, First)))
    ensures out.Some? ==> out.value.duplicationRate == Histogram(Values(Project(Run(records).value.occurenceMap, First)))
    ensures out.Some? ==>
      var unique := Histogram(Values(Project(Run(records).value.occurenceMap, Second)));
      |unique| <= |out.value.duplicationRate| &&
      out.value.duplicationRateUnique == unique + Zeros(|out.value.duplicationRate| - |unique|)
  {
    var run := FilterDuplicates(records);
    if run.None? {
      return None;
    }
    RunInv(records);
    Histograms(run.value);
    var outputs := AfterFiltering(run.value);
    return Some(outputs);
  }
}
