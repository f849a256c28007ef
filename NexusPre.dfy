/**
 * The bookkeeping of nexus-pre's `main` (nexus-pre/nexus-pre.cpp): barcode
 * filtering of the mapped reads into two occurrence maps, the optional
 * cluster filter, the BED lines of the unique map, the duplication-rate
 * histograms and `totalSamePositionReads`.  The BAM files are sequences of
 * records: what is written is appended to a sequence.
 */
module NexusPre {
  import opened Words
  import opened Maybe
  import opened Text
  import opened SortedMap
  import opened BamRecordKey
  import opened Dedup
  import opened DuplicationRate
  import opened FilePaths

  datatype Statistics = Statistics(
    totalReads: nat,
    totalMappedReads: nat,
    removedReads: nat,
    totalSamePositionReads: nat,
    readsAfterFiltering: nat)

  const NO_READS := Statistics(0, 0, 0, 0, 0)

  /**
   * The file-count check and the output name: help and exit code 1 unless one
   * or two files are given; the second file names the output, otherwise the
   * first argument's prefix with "_filtered".
   */
  function OutputName(fileCount: int, fileName2: string, argv1: string): (r: Option<string>)
    ensures r.None? <==> fileCount != 1 && fileCount != 2
    ensures fileCount == 2 ==> r == Some(fileName2)
    ensures fileCount == 1 ==> r == Some(GetFilePrefix(argv1, true) + "_filtered")
  {
    if !(fileCount == 1 || fileCount == 2) then None
    else if fileCount == 2 then Some(fileName2)
    else Some(GetFilePrefix(argv1, true) + "_filtered")
  }

  /** What the filtering loop has built after some reads. */
  datatype DedupState = DedupState(
    keySet: seq<BarcodeKey>,
    occurenceMapUnique: seq<Entry<nat>>,
    occurenceMap: seq<Entry<nat>>,
    written: seq<Record>,
    stats: Statistics)

  const START := DedupState([], [], [], [], NO_READS)

  /**
   * A mapped read whose barcode key is `key`: the key goes into the set, its
   * position's total count grows, and the read is either removed or written
   * and counted as unique.
   */
  function Advance(s: DedupState, key: BarcodeKey, r: Record): DedupState
  {
    var stats := s.stats.(totalMappedReads := s.stats.totalMappedReads + 1);
    var insertResult := Insert(s.keySet, key);
    if !insertResult.1 then
      DedupState(insertResult.0, s.occurenceMapUnique, Increment(s.occurenceMap, key.pos),
                 s.written, stats.(removedReads := stats.removedReads + 1))
    else
      DedupState(insertResult.0, Increment(s.occurenceMapUnique, key.pos), Increment(s.occurenceMap, key.pos),
                 s.written + [r], stats)
  }

  /**
   * One pass of the filtering loop.  None when the barcode key's constructor
   * throws, which ends the program.
   */
  function Step(s: DedupState, r: Record): (t: Option<DedupState>)
    requires |r.qName| < NPOS
    ensures t.None? <==> IsMapped(r) && BarcodeKeyOf(r).None?
    ensures t.Some? ==> t.value.stats.totalReads == s.stats.totalReads + 1
  {
    var s' := s.(stats := s.stats.(totalReads := s.stats.totalReads + 1));
    if !IsMapped(r) then Some(s')
    else
      match BarcodeKeyOf(r)
      case None => None
      case Some(key) => Some(Advance(s', key, r))
  }

  /** The filtering loop over the reads in file order. */
  function Run(records: seq<Record>): Option<DedupState>
    requires Named(records)
  {
    if records == [] then Some(START)
    else
      match Run(records[..|records| - 1])
      case None => None
      case Some(s) => Step(s, records[|records| - 1])
  }

  /**
   * What the loop keeps true: both maps are sorted and have the same
   * positions, each position has `1 <= unique <= total` reads, every key in
   * the set and every written read is at a position of the maps, the total
   * map counts the mapped reads, and the unique map and the written file
   * count the mapped reads that were not removed; the later counters are
   * still zero.
   */
  ghost predicate Inv(s: DedupState)
  {
    Sorted(s.occurenceMapUnique) && Sorted(s.occurenceMap) &&
    Keys(s.occurenceMapUnique) == Keys(s.occurenceMap) &&
    (forall k :: k in Keys(s.occurenceMap) ==> 1 <= Get(s.occurenceMapUnique, k, 0) <= Get(s.occurenceMap, k, 0)) &&
    PositionsIn(s.keySet, Keys(s.occurenceMap)) &&
    (forall i :: 0 <= i < |s.written| ==> KeyOf(s.written[i]).pos in Keys(s.occurenceMap)) &&
    Total(s.occurenceMap) == s.stats.totalMappedReads &&
    Total(s.occurenceMapUnique) + s.stats.removedReads == s.stats.totalMappedReads &&
    |s.written| + s.stats.removedReads == s.stats.totalMappedReads &&
    s.stats.totalSamePositionReads == 0 && s.stats.readsAfterFiltering == 0
  }

  /** Each pass keeps the invariant. */
  lemma StepInv(s: DedupState, r: Record)
    requires |r.qName| < NPOS
    requires Inv(s) && Step(s, r).Some?
    ensures Inv(Step(s, r).value)
  {
    var s' := s.(stats := s.stats.(totalReads := s.stats.totalReads + 1));
    assert Inv(s');
    if IsMapped(r) {
      var key := BarcodeKeyOf(r).value;
      assert Step(s, r) == Some(Advance(s', key, r));
      if Insert(s'.keySet, key).1 {
        WrittenInv(s', key, r);
      } else {
        RemovedInv(s', key, r);
      }
    } else {
      assert Step(s, r) == Some(s');
    }
  }

  /** A mapped read whose key was seen before: the invariant holds with the read counted as removed. */
  lemma RemovedInv(s: DedupState, key: BarcodeKey, r: Record)
    requires Inv(s) && !Insert(s.keySet, key).1
    ensures Inv(Advance(s, key, r))
  {
    assert Advance(s, key, r) == DedupState(s.keySet, s.occurenceMapUnique, Increment(s.occurenceMap, key.pos),
      s.written, s.stats.(totalMappedReads := s.stats.totalMappedReads + 1, removedReads := s.stats.removedReads + 1));
    IncrementProperties(s.occurenceMap, key.pos);
    SeenAtSamePosition(s.keySet, key, Keys(s.occurenceMap));
  }

  /** A mapped read with a new key: the invariant holds with the read written and counted as unique. */
  lemma WrittenInv(s: DedupState, key: BarcodeKey, r: Record)
    requires Inv(s) && Insert(s.keySet, key).1 && key.pos == KeyOf(r).pos
    ensures Inv(Advance(s, key, r))
  {
    var t := DedupState(s.keySet + [key], Increment(s.occurenceMapUnique, key.pos), Increment(s.occurenceMap, key.pos),
      s.written + [r], s.stats.(totalMappedReads := s.stats.totalMappedReads + 1));
    assert Advance(s, key, r) == t;
    IncrementProperties(s.occurenceMap, key.pos);
    IncrementProperties(s.occurenceMapUnique, key.pos);
    forall i | 0 <= i < |t.written| ensures KeyOf(t.written[i]).pos in Keys(t.occurenceMap) {
      if i < |s.written| {
        assert t.written[i] == s.written[i];
      }
    }
  }

  lemma {:induction false} RunInv(records: seq<Record>)
    requires Named(records) && Run(records).Some?
    ensures Inv(Run(records).value)
  {
    if records != [] {
      RunInv(records[..|records| - 1]);
      StepInv(Run(records[..|records| - 1]).value, records[|records| - 1]);
    }
  }

  /** A finished run has counted every read, and as mapped exactly those with flag 0x00 or 0x10. */
  lemma {:induction false} RunCounts(records: seq<Record>)
    requires Named(records) && Run(records).Some?
    ensures Run(records).value.stats.totalReads == |records|
    ensures Run(records).value.stats.totalMappedReads == CountIf(records, IsMapped)
  {
    if records != [] {
      var n := |records| - 1;
      RunCounts(records[..n]);
      CountIfSnoc(records, n, IsMapped);
      assert records[..n + 1] == records;
    }
  }

  lemma RunSnoc(records: seq<Record>, i: nat)
    requires Named(records) && i < |records|
    ensures Run(records[..i + 1]) ==
      match Run(records[..i])
      case None => None
      case Some(s) => Step(s, records[i])
  {
    assert records[..i + 1][..i] == records[..i];
  }

  /** Once the program has stopped it stays stopped: reads after an abort change nothing. */
  lemma {:induction false} RunAbortsFor(records: seq<Record>, i: nat)
    requires Named(records) && i <= |records|
    requires Run(records[..i]).None?
    ensures Run(records).None?
    decreases |records| - i
  {
    if i < |records| {
      assert records[..i + 1][..i] == records[..i];
      RunAbortsFor(records, i + 1);
    } else {
      assert records[..i] == records;
    }
  }

  /**
   * The body of the loop for a mapped read: count it, insert its key, and
   * either count it as removed or write it and count its position as unique;
   * its position is counted in the total map either way.
   */
  method AddMappedRead(s: DedupState, key: BarcodeKey, r: Record) returns (t: DedupState)
    ensures t == Advance(s, key, r)
  {
    var stats := s.stats.(totalMappedReads := s.stats.totalMappedReads + 1);
    var written := s.written;
    var occurenceMapUnique := s.occurenceMapUnique;
    var insertResult := Insert(s.keySet, key);
    if !insertResult.1 {
      stats := stats.(removedReads := stats.removedReads + 1);
    } else {
      written := written + [r];
      occurenceMapUnique := Increment(occurenceMapUnique, key.pos);
    }
    t := DedupState(insertResult.0, occurenceMapUnique, Increment(s.occurenceMap, key.pos), written, stats);
  }

  /**
   * One pass of the filtering loop: count the read, and for a mapped read
   * build its barcode key and count it.  None when the key's constructor
   * throws.
   */
  method FilterRead(s: DedupState, record: Record) returns (t: Option<DedupState>)
    requires |record.qName| < NPOS
    ensures t == Step(s, record)
  {
    var stats := s.stats.(totalReads := s.stats.totalReads + 1);
    if record.flag == 0x00 || record.flag == 0x10 {
      var key := BarcodeKeyOf(record);
      if key.None? {
        return None;
      }
      var next := AddMappedRead(s.(stats := stats), key.value, record);
      return Some(next);
    }
    return Some(s.(stats := stats));
  }

  /** The filtering loop (nexus-pre.cpp, the first `while (!atEnd(bamFileIn))`). */
  method FilterDuplicates(records: seq<Record>) returns (result: Option<DedupState>)
    requires Named(records)
    ensures result == Run(records)
  {
    var keySet: seq<BarcodeKey> := [];
    var occurenceMapUnique: seq<Entry<nat>> := [];
    var occurenceMap: seq<Entry<nat>> := [];
    var written: seq<Record> := [];
    var stats := NO_READS;
    var i := 0;
    while i < |records|
      invariant i <= |records|
      invariant Run(records[..i]) == Some(DedupState(keySet, occurenceMapUnique, occurenceMap, written, stats))
    {
      var record := records[i];
      RunSnoc(records, i);
      var t := FilterRead(DedupState(keySet, occurenceMapUnique, occurenceMap, written, stats), record);
      if t.None? {
        RunAbortsFor(records, i + 1);
        return None;
      }
      keySet, occurenceMapUnique, occurenceMap := t.value.keySet, t.value.occurenceMapUnique, t.value.occurenceMap;
      written, stats := t.value.written, t.value.stats;
      i := i + 1;
    }
    assert records[..i] == records;
    return Some(DedupState(keySet, occurenceMapUnique, occurenceMap, written, stats));
  }

  /** `occurenceMapUnique.find(key)->second >= clusterSize` */
  predicate Clustered(occurenceMapUnique: seq<Entry<nat>>, r: Record, clusterSize: nat)
    requires KeyOf(r).pos in Keys(occurenceMapUnique)
  {
    Find<nat>(occurenceMapUnique, KeyOf(r).pos).value >= clusterSize
  }

  /** The reads the cluster filter writes, in file order. */
  function Kept(records: seq<Record>, occurenceMapUnique: seq<Entry<nat>>, clusterSize: nat): seq<Record>
    requires forall i :: 0 <= i < |records| ==> KeyOf(records[i]).pos in Keys(occurenceMapUnique)
  {
    if records == [] then []
    else
      var r := records[|records| - 1];
      Kept(records[..|records| - 1], occurenceMapUnique, clusterSize) +
        (if Clustered(occurenceMapUnique, r, clusterSize) then [r] else [])
  }

  /** A read is kept exactly when it is in the file and its position holds at least `clusterSize` unique reads. */
  lemma {:induction false} KeptExactly(records: seq<Record>, occurenceMapUnique: seq<Entry<nat>>, clusterSize: nat, r: Record)
    requires forall i :: 0 <= i < |records| ==> KeyOf(records[i]).pos in Keys(occurenceMapUnique)
    ensures r in Kept(records, occurenceMapUnique, clusterSize) <==>
      r in records && Get<nat>(occurenceMapUnique, KeyOf(r).pos, 0) >= clusterSize
    ensures |Kept(records, occurenceMapUnique, clusterSize)| <= |records|
  {
    if records != [] {
      var init := records[..|records| - 1];
      KeptExactly(init, occurenceMapUnique, clusterSize, r);
      assert records == init + [records[|records| - 1]];
    }
  }

  /**
   * The cluster filter: rereads the filtered file and writes each read whose
   * position's unique count reaches `clusterSize`, counting them in
   * `readsAfterFiltering`.  The `find` is dereferenced unchecked, so every
   * read's position must be in the map.
   */
  method ClusterFilter(records: seq<Record>, occurenceMapUnique: seq<Entry<nat>>, clusterSize: nat, stats: Statistics)
    returns (kept: seq<Record>, stats': Statistics)
    requires forall i :: 0 <= i < |records| ==> KeyOf(records[i]).pos in Keys(occurenceMapUnique)
    ensures kept == Kept(records, occurenceMapUnique, clusterSize)
    ensures stats' == stats.(readsAfterFiltering := stats.readsAfterFiltering + |kept|)
  {
    kept := [];
    stats' := stats;
    for i := 0 to |records|
      invariant kept == Kept(records[..i], occurenceMapUnique, clusterSize)
      invariant stats' == stats.(readsAfterFiltering := stats.readsAfterFiltering + |kept|)
    {
      var record := records[i];
      var it := Find<nat>(occurenceMapUnique, KeyOf(record).pos);
      assert records[..i + 1][..i] == records[..i];
      if it.value >= clusterSize {
        kept := kept + [record];
        stats' := stats'.(readsAfterFiltering := stats'.readsAfterFiltering + 1);
      }
    }
    assert records[..|records|] == records;
  }

  /** A BED4 line of the bedGraph output: the name carries the signed count. */
  datatype BedRecord = BedRecord(rID: int32, beginPos: int, endPos: int, name: int)

  /**
   * The BED line of a unique-map entry: a reverse position `p` becomes
   * `[p-1, p)` named with the negated count, a forward one `[p, p+1)` named
   * with the count.
   */
  function BedOf(e: Entry<nat>): BedRecord
  {
    var rID := I32(e.key / TWO32);
    if e.key % 2 == 1 then
      var beginPos := I32(e.key) / 2 - 1;
      var count: int := I32(e.value);
      BedRecord(rID, beginPos, beginPos + 1, -count)
    else
      var beginPos := I32(e.key) / 2;
      BedRecord(rID, beginPos, beginPos + 1, e.value)
  }

  /** For a read's key, the BED line covers the base just before its 5' end on the reverse strand, the 5' end itself on the forward strand. */
  lemma BedOfRead(r: Record, count: nat)
    requires InKeyRange(r) && count < TWO31
    ensures BedOf(Entry(KeyOf(r).pos, count)) ==
      if IsRev(r) then BedRecord(r.rID, FivePrime(r) - 1, FivePrime(r), -(count as int))
      else BedRecord(r.rID, FivePrime(r), FivePrime(r) + 1, count)
  {
    KeyRoundTrip(r);
  }

  /** The BED lines of the entries of one strand, in key order. */
  function BedLines(m: seq<Entry<nat>>, reverse: bool): seq<BedRecord>
  {
    if m == [] then []
    else
      var e := m[|m| - 1];
      BedLines(m[..|m| - 1], reverse) + (if (e.key % 2 == 1) == reverse then [BedOf(e)] else [])
  }

  /** Every BED line spans one base, and its name is non-negative on the forward strand. */
  lemma {:induction false} BedLinesShape(m: seq<Entry<nat>>, reverse: bool)
    ensures forall i :: 0 <= i < |BedLines(m, reverse)| ==>
      BedLines(m, reverse)[i].endPos == BedLines(m, reverse)[i].beginPos + 1 &&
      (!reverse ==> BedLines(m, reverse)[i].name >= 0)
    ensures |BedLines(m, false)| + |BedLines(m, true)| == |m|
  {
    if m != [] {
      BedLinesShape(m[..|m| - 1], reverse);
      BedLinesShape(m[..|m| - 1], !reverse);
    }
  }

  lemma BedLinesSnoc(m: seq<Entry<nat>>, i: nat, reverse: bool)
    requires i < |m|
    ensures BedLines(m[..i + 1], reverse) ==
      BedLines(m[..i], reverse) + (if (m[i].key % 2 == 1) == reverse then [BedOf(m[i])] else [])
  {
    assert m[..i + 1][..i] == m[..i];
  }

  /** The body of the scan for one entry: its BED line goes to its strand's file, its count into the histogram. */
  method ScanEntry(val: Entry<nat>, bedOutputEnabled: bool, forward: seq<BedRecord>, reverse: seq<BedRecord>, h: seq<nat>)
    returns (forward': seq<BedRecord>, reverse': seq<BedRecord>, h': seq<nat>)
    requires val.value >= 1
    ensures forward' == forward + (if bedOutputEnabled && val.key % 2 != 1 then [BedOf(val)] else [])
    ensures reverse' == reverse + (if bedOutputEnabled && val.key % 2 == 1 then [BedOf(val)] else [])
    ensures h' == Bump(h, val.value)
  {
    forward', reverse' := forward, reverse;
    if bedOutputEnabled {
      if val.key % 2 == 1 {
        reverse' := reverse + [BedOf(val)];
      } else {
        forward' := forward + [BedOf(val)];
      }
    }
    h' := Tally(h, val.value);
  }

  /**
   * The `std::for_each` over `occurenceMapUnique`: writes each entry's BED
   * line to the file of its strand when BED output is enabled, and builds the
   * unique duplication-rate histogram.
   */
  method ScanUniqueMap(m: seq<Entry<nat>>, bedOutputEnabled: bool)
    returns (forward: seq<BedRecord>, reverse: seq<BedRecord>, duplicationRateUnique: seq<nat>)
    requires Positive(Values(m))
    ensures forward == if bedOutputEnabled then BedLines(m, false) else []
    ensures reverse == if bedOutputEnabled then BedLines(m, true) else []
    ensures duplicationRateUnique == Histogram(Values(m))
  {
    forward, reverse, duplicationRateUnique := [], [], [];
    for i := 0 to |m|
      invariant forward == if bedOutputEnabled then BedLines(m[..i], false) else []
      invariant reverse == if bedOutputEnabled then BedLines(m[..i], true) else []
      invariant duplicationRateUnique == Histogram(Values(m)[..i])
    {
      BedLinesSnoc(m, i, false);
      BedLinesSnoc(m, i, true);
      HistogramSnoc(Values(m), i);
      forward, reverse, duplicationRateUnique := ScanEntry(m[i], bedOutputEnabled, forward, reverse, duplicationRateUnique);
    }
    assert m[..|m|] == m;
    assert Values(m)[..|m|] == Values(m);
  }

  /**
   * The histograms of a finished filtering run: both maps have positive
   * counts, the unique histogram is no longer than the total one (so the
   * final loop stays in bounds), the total histogram holds every mapped read,
   * the unique one every read kept, and the reads beyond the first at each
   * position number the mapped reads minus the positions.
   */
  lemma Histograms(s: DedupState)
    requires Inv(s)
    ensures Positive(Values(s.occurenceMapUnique)) && Positive(Values(s.occurenceMap))
    ensures |Histogram(Values(s.occurenceMapUnique))| <= |Histogram(Values(s.occurenceMap))|
    ensures Moment(Histogram(Values(s.occurenceMap)), 1, 1) == s.stats.totalMappedReads
    ensures Moment(Histogram(Values(s.occurenceMapUnique)), 1, 1) == s.stats.totalMappedReads - s.stats.removedReads
    ensures Moment(Histogram(Values(s.occurenceMap)), 1, 0) == s.stats.totalMappedReads - |s.occurenceMap|
    ensures Moment(Histogram(Values(s.occurenceMap)), 0, 1) == |s.occurenceMap| == |Keys(s.occurenceMap)|
  {
    DominatedHistograms(s.occurenceMapUnique, s.occurenceMap);
  }

  /** Everything nexus-pre computes before peak calling. */
  datatype Outputs = Outputs(
    filtered: seq<Record>,
    filtered2: seq<Record>,
    forward: seq<BedRecord>,
    reverse: seq<BedRecord>,
    duplicationRateUnique: seq<nat>,
    duplicationRate: seq<nat>,
    stats: Statistics)

  /**
   * What nexus-pre reports after the filtering loop ends in state `s`: the
   * written reads and those the cluster filter keeps, the statistics of the
   * loop with `readsAfterFiltering` and `totalSamePositionReads` filled in,
   * the histogram of the per-position counts, that of the unique counts
   * padded with zeros to the same length, and the BED lines of the unique
   * map when BED output is on.
   */
  ghost predicate Reported(s: DedupState, out: Outputs, filter: bool, clusterSize: nat, bedOutputEnabled: bool)
  {
    Positive(Values(s.occurenceMapUnique)) && Positive(Values(s.occurenceMap)) &&
    (forall i :: 0 <= i < |s.written| ==> KeyOf(s.written[i]).pos in Keys(s.occurenceMapUnique)) &&
    var unique := Histogram(Values(s.occurenceMapUnique));
    out.filtered == s.written &&
    out.filtered2 == (if filter then Kept(s.written, s.occurenceMapUnique, clusterSize) else []) &&
    out.stats == s.stats.(readsAfterFiltering := |out.filtered2|, totalSamePositionReads := out.stats.totalSamePositionReads) &&
    |out.filtered| == out.stats.totalMappedReads - out.stats.removedReads &&
    out.stats.totalSamePositionReads == out.stats.totalMappedReads - |s.occurenceMap| &&
    out.duplicationRate == Histogram(Values(s.occurenceMap)) &&
    |out.duplicationRate| == MaxOf(Values(s.occurenceMap)) &&
    |unique| <= |out.duplicationRate| &&
    out.duplicationRateUnique == unique + Zeros(|out.duplicationRate| - |unique|) &&
    out.forward == (if bedOutputEnabled then BedLines(s.occurenceMapUnique, false) else []) &&
    out.reverse == (if bedOutputEnabled then BedLines(s.occurenceMapUnique, true) else [])
  }

  /**
   * nexus-pre after the filtering loop, from the state `s` it ends with: the
   * cluster filter over the written reads, the BED output and the two
   * histograms, and `totalSamePositionReads`.
   */
  method AfterFiltering(s: DedupState, filter: bool, clusterSize: nat, bedOutputEnabled: bool) returns (out: Outputs)
    requires forall i :: 0 <= i < |s.written| ==> KeyOf(s.written[i]).pos in Keys(s.occurenceMapUnique)
    requires |s.written| + s.stats.removedReads == s.stats.totalMappedReads
    requires s.stats.totalSamePositionReads == 0 && s.stats.readsAfterFiltering == 0
    requires Positive(Values(s.occurenceMapUnique)) && Positive(Values(s.occurenceMap))
    requires |Histogram(Values(s.occurenceMapUnique))| <= |Histogram(Values(s.occurenceMap))|
    requires Moment(Histogram(Values(s.occurenceMap)), 1, 0) == s.stats.totalMappedReads - |s.occurenceMap|
    ensures Reported(s, out, filter, clusterSize, bedOutputEnabled)
  {
    var stats := s.stats;
    var filtered2: seq<Record> := [];
    if filter {
      filtered2, stats := ClusterFilter(s.written, s.occurenceMapUnique, clusterSize, stats);
    }
    var forward, reverse, duplicationRateUnique := ScanUniqueMap(s.occurenceMapUnique, bedOutputEnabled);
    var duplicationRate := BuildHistogram(s.occurenceMap);
    HistogramCounts(Values(s.occurenceMap));
    var total;
    total, duplicationRateUnique := SamePositionReads(duplicationRateUnique, duplicationRate, stats.totalSamePositionReads);
    stats := stats.(totalSamePositionReads := total);
    return Outputs(s.written, filtered2, forward, reverse, duplicationRateUnique, duplicationRate, stats);
  }

  /**
   * nexus-pre from the filtering loop to `totalSamePositionReads`; the
   * filtered file is read back as it was written.  The statistics it ends
   * with count the mapped reads, the removed ones, the reads beyond the first
   * at each position and the reads kept by the cluster filter.
   */
  method Process(records: seq<Record>, filter: bool, clusterSize: nat, bedOutputEnabled: bool)
    returns (out: Option<Outputs>)
    requires Named(records)
    ensures out.None? <==> Run(records).None?
    ensures out.Some? ==> Inv(Run(records).value)
    ensures out.Some? ==> Reported(Run(records).value, out.value, filter, clusterSize, bedOutputEnabled)
    ensures out.Some? ==> out.value.stats.totalReads == |records|
    ensures out.Some? ==> out.value.stats.totalMappedReads == CountIf(records, IsMapped)
  {
    var run := FilterDuplicates(records);
    if run.None? {
      return None;
    }
    RunInv(records);
    RunCounts(records);
    Histograms(run.value);
    var outputs := AfterFiltering(run.value, filter, clusterSize, bedOutputEnabled);
    return Some(outputs);
  }
}
