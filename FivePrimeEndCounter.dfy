/**
 * 5PrimeEndCounter (5PrimeEndCounter/5PrimeEndCounter.cpp): counts the
 * mapped reads of a BAM file by packed 5' position, then for every peak of
 * one or more BED files adds the forward and reverse counts around the peak
 * into one table of `2 * radius + 1` pairs, written after each BED file.
 */
module FivePrimeEndCounter {
  import opened Words
  import opened Maybe
  import opened Text
  import opened SortedMap
  import opened BamRecordKey
  import opened Dedup
  import opened FilePaths
  import opened PairCounts

  datatype Statistics = Statistics(
    totalReads: nat,
    totalMappedReads: nat,
    filteredReads: nat,
    removedReads: nat,
    totalSamePositionReads: nat,
    readsAfterFiltering: nat,
    couldNotMap: nat,
    couldNotMapUniquely: nat)

  const NO_READS := Statistics(0, 0, 0, 0, 0, 0, 0, 0)

  const FILTERED_SUFFIX := "_filtered"

  /**
   * The argument check and the (unused) output name: with no BED file the
   * usage is printed and the program ends with 1; otherwise the name is the
   * prefix of `argv1`, the first command-line word, with `_filtered`.
   */
  function FilteredName(bedFiles: seq<string>, argv1: string): (r: Option<string>)
    ensures r.None? <==> |bedFiles| < 1
    ensures r.Some? ==> r.value == GetFilePrefix(argv1, true) + FILTERED_SUFFIX
  {
    if |bedFiles| < 1 then None else Some(GetFilePrefix(argv1, true) + FILTERED_SUFFIX)
  }

  /** The occurrence map (`std::map<BamRecordKey<NoBarcode>, unsigned>`) and the statistics. */
  datatype Counted = Counted(occurenceMap: seq<Entry<nat>>, stats: Statistics)

  const START := Counted([], NO_READS)

  /**
   * One read of `processBamFile`: it is counted; a read on a filtered
   * chromosome only as filtered; otherwise its XM tag is counted and, when
   * its flag is 0x00 or 0x10, it is counted as mapped at its position.
   */
  function CountRead(c: Counted, chromosomeFilter: set<int32>, r: Record): Counted
  {
    var stats := c.stats.(totalReads := c.stats.totalReads + 1);
    if r.rID in chromosomeFilter then Counted(c.occurenceMap, stats.(filteredReads := stats.filteredReads + 1))
    else
      var tagged :=
        if Unmappable(r) then stats.(couldNotMap := stats.couldNotMap + 1)
        else if Ambiguous(r) then stats.(couldNotMapUniquely := stats.couldNotMapUniquely + 1)
        else stats;
      if !IsMapped(r) then Counted(c.occurenceMap, tagged)
      else Counted(Increment(c.occurenceMap, KeyOf(r).pos), tagged.(totalMappedReads := tagged.totalMappedReads + 1))
  }

  /** The reads in file order, from `c`. */
  function CountAll(c: Counted, chromosomeFilter: set<int32>, records: seq<Record>): Counted
  {
    if records == [] then c
    else CountRead(CountAll(c, chromosomeFilter, records[..|records| - 1]), chromosomeFilter, records[|records| - 1])
  }

  /**
   * The reads that `processBamFile` counts: after every `readRecord` the loop
   * stops when the file is at its end, so the last read is never counted.
   */
  function AllButLast(records: seq<Record>): (counted: seq<Record>)
    ensures |counted| == if records == [] then 0 else |records| - 1
    ensures counted == records[..|counted|]
  {
    if records == [] then [] else records[..|records| - 1]
  }

  /** `processBamFile`, which adds to the map and the statistics it is given. */
  method ProcessBamFile(records: seq<Record>, chromosomeFilter: set<int32>, c0: Counted) returns (c: Counted)
    ensures c == CountAll(c0, chromosomeFilter, AllButLast(records))
  {
    c := c0;
    var i := 0;
    while i < |records|
      invariant i < |records| || i == 0
      invariant c == CountAll(c0, chromosomeFilter, records[..i])
    {
      var record := records[i];
      if i + 1 == |records| {
        break;
      }
      assert records[..i + 1][..i] == records[..i];
      c := ProcessRecord(c, chromosomeFilter, record);
      i := i + 1;
    }
  }

  /** The body of the `processBamFile` loop for one read. */
  method ProcessRecord(c: Counted, chromosomeFilter: set<int32>, record: Record) returns (c': Counted)
    ensures c' == CountRead(c, chromosomeFilter, record)
  {
    var occurenceMap, stats := c.occurenceMap, c.stats;
    stats := stats.(totalReads := stats.totalReads + 1);
    if record.rID in chromosomeFilter {
      stats := stats.(filteredReads := stats.filteredReads + 1);
    } else {
      if record.xm.Some? {
        var tagValue := record.xm.value;
        if tagValue == 0 {
          stats := stats.(couldNotMap := stats.couldNotMap + 1);
        } else {
          stats := stats.(couldNotMapUniquely := stats.couldNotMapUniquely + 1);
        }
      }
      if record.flag == 0x00 || record.flag == 0x10 {
        stats := stats.(totalMappedReads := stats.totalMappedReads + 1);
        occurenceMap := Increment(occurenceMap, KeyOf(record).pos);
      }
    }
    c' := Counted(occurenceMap, stats);
  }

  /**
   * What counting keeps true: the map is sorted, its counts add up to the
   * mapped reads, and mapped and filtered reads are distinct reads.
   */
  ghost predicate Inv(c: Counted)
  {
    Sorted(c.occurenceMap) &&
    Total(c.occurenceMap) == c.stats.totalMappedReads &&
    c.stats.totalMappedReads + c.stats.filteredReads <= c.stats.totalReads
  }

  /** Counting reads keeps the invariant and counts every one of them; the other counters are untouched. */
  lemma {:induction false} CountAllInv(c: Counted, chromosomeFilter: set<int32>, records: seq<Record>)
    requires Inv(c)
    ensures Inv(CountAll(c, chromosomeFilter, records))
    ensures CountAll(c, chromosomeFilter, records).stats.totalReads == c.stats.totalReads + |records|
    ensures CountAll(c, chromosomeFilter, records).stats.(
      totalReads := 0, totalMappedReads := 0, filteredReads := 0, couldNotMap := 0, couldNotMapUniquely := 0)
      == c.stats.(totalReads := 0, totalMappedReads := 0, filteredReads := 0, couldNotMap := 0, couldNotMapUniquely := 0)
  {
    if records != [] {
      var n := |records| - 1;
      CountAllInv(c, chromosomeFilter, records[..n]);
      var before := CountAll(c, chromosomeFilter, records[..n]);
      if records[n].rID !in chromosomeFilter && IsMapped(records[n]) {
        IncrementProperties(before.occurenceMap, KeyOf(records[n]).pos);
      }
    }
  }

  /**
   * A whole file from empty statistics: all reads but the last are counted,
   * the map's counts add up to the mapped reads, and those are at most the
   * counted reads that were not filtered.
   */
  lemma ProcessFromStart(records: seq<Record>, chromosomeFilter: set<int32>)
    ensures var c := CountAll(START, chromosomeFilter, AllButLast(records));
      Sorted(c.occurenceMap) &&
      c.stats.totalReads == (if records == [] then 0 else |records| - 1) &&
      Total(c.occurenceMap) == c.stats.totalMappedReads <= c.stats.totalReads - c.stats.filteredReads
  {
    CountAllInv(START, chromosomeFilter, AllButLast(records));
  }

  /** The index of the first name equal to `chromosome`, or -1 when there is none. */
  function IndexOf(chromosomes: seq<string>, chromosome: string): (r: int)
    ensures r == -1 <==> chromosome !in chromosomes
    ensures r != -1 ==> 0 <= r < |chromosomes| && chromosomes[r] == chromosome
    ensures r != -1 ==> forall j :: 0 <= j < r ==> chromosomes[j] != chromosome
  {
    if chromosomes == [] then -1
    else if chromosomes[0] == chromosome then 0
    else
      var r := IndexOf(chromosomes[1..], chromosome);
      if r == -1 then -1 else r + 1
  }

  /** The chromosome lookup: a loop over the header's names that stops at the first match. */
  method FindChromosome(chromosomes: seq<string>, chromosome: string) returns (rID: int)
    ensures rID == IndexOf(chromosomes, chromosome)
  {
    rID := -1;
    for i := 0 to |chromosomes|
      invariant forall j :: 0 <= j < i ==> chromosomes[j] != chromosome
      invariant rID == -1
    {
      if chromosomes[i] == chromosome {
        rID := i;
        break;
      }
    }
  }

  /** One line of a BED file: the chromosome name and the peak's start; the end is read but not used. */
  datatype BedPeak = BedPeak(chromosome: string, start: uint32, end: uint32)

  /** A BED file: its name and its lines. */
  datatype BedFile = BedFile(name: string, peaks: seq<BedPeak>)

  /** `hits[index].first += ...; hits[index].second += ...` */
  function Plus(a: Counts, b: Counts): (c: Counts)
    ensures c.first == a.first + b.first && c.second == a.second + b.second
  {
    Counts(a.first + b.first, a.second + b.second)
  }

  /** Two tables added entry by entry. */
  function PlusAll(a: seq<Counts>, b: seq<Counts>): (c: seq<Counts>)
    requires |a| == |b|
    ensures |c| == |a| && forall j :: 0 <= j < |a| ==> c[j] == Plus(a[j], b[j])
  {
    seq(|a|, j requires 0 <= j < |a| => Plus(a[j], b[j]))
  }

  /** The table before any peak: `2 * radius + 1` zero pairs. */
  function EmptyTable(radius: uint32): (h: seq<Counts>)
    ensures |h| == 2 * radius + 1 && forall j :: 0 <= j < |h| ==> h[j] == NO_COUNTS
  {
    seq(2 * radius + 1, _ => NO_COUNTS)
  }

  /** The key of the record the window builds: chromosome `rID`, begin `p`, flag 0 and no sequence. */
  function ForwardKey(rID: int32, p: int32): uint64
  {
    KeyOf(Record(rID, p, 0, 0, [], None)).pos
  }

  /** Peaks whose windows stay inside `int32`, so that neither the window's bounds nor `beginPos` wrap. */
  predicate InRange(start: uint32, radius: uint32)
  {
    start + radius < TWO31 - 1
  }

  /**
   * What the window adds at index `j`: at position `start - radius + j`,
   * when that is not negative, the count of the forward key and the count of
   * the key `reverseKey` makes of it (`init(getRID(), get5EndPosition(),
   * true)`, which is not part of this model); nothing elsewhere.
   */
  function Contribution(m: seq<Entry<nat>>, reverseKey: uint64 -> uint64, rID: int32,
                        start: uint32, radius: uint32, j: int): Counts
    requires InRange(start, radius)
  {
    var p := start - radius + j;
    if p < 0 || p > start + radius then NO_COUNTS
    else
      var forward := ForwardKey(rID, p);
      Counts(Get(m, forward, 0), Get(m, reverseKey(forward), 0))
  }

  /** The table after the window around one peak. */
  function AddedWindow(h: seq<Counts>, m: seq<Entry<nat>>, reverseKey: uint64 -> uint64, rID: int32,
                       start: uint32, radius: uint32): (h': seq<Counts>)
    requires InRange(start, radius)
    ensures |h'| == |h|
  {
    seq(|h|, j requires 0 <= j < |h| => Plus(h[j], Contribution(m, reverseKey, rID, start, radius, j)))
  }

  /**
   * Inside the window each index adds the counts at position
   * `start - radius + index`; below position 0 and beyond the window nothing
   * is added.
   */
  lemma WindowIndices(h: seq<Counts>, m: seq<Entry<nat>>, reverseKey: uint64 -> uint64, rID: int32,
                      start: uint32, radius: uint32, j: nat)
    requires InRange(start, radius) && j < |h| == 2 * radius + 1
    ensures var p := start - radius + j;
      AddedWindow(h, m, reverseKey, rID, start, radius)[j] ==
        if p < 0 then h[j]
        else Plus(h[j], Counts(Get(m, ForwardKey(rID, p), 0), Get(m, reverseKey(ForwardKey(rID, p)), 0)))
  {
  }

  /** Maps with the same counts give the same window: the zero entries the lookups insert change nothing. */
  lemma WindowSameCounts(h: seq<Counts>, m1: seq<Entry<nat>>, m2: seq<Entry<nat>>, reverseKey: uint64 -> uint64,
                         rID: int32, start: uint32, radius: uint32)
    requires InRange(start, radius)
    requires forall k :: Get(m1, k, 0) == Get(m2, k, 0)
    ensures AddedWindow(h, m1, reverseKey, rID, start, radius) == AddedWindow(h, m2, reverseKey, rID, start, radius)
  {
    forall j | 0 <= j < |h|
      ensures Contribution(m1, reverseKey, rID, start, radius, j) == Contribution(m2, reverseKey, rID, start, radius, j)
    {
    }
  }

  /** The table part-way through a window: the indices below `upto` have had their counts added. */
  ghost function PartWindow(h: seq<Counts>, m: seq<Entry<nat>>, reverseKey: uint64 -> uint64, rID: int32,
                            start: uint32, radius: uint32, upto: int): (h': seq<Counts>)
    requires InRange(start, radius)
    ensures |h'| == |h|
  {
    seq(|h|, j requires 0 <= j < |h| => if j < upto then Plus(h[j], Contribution(m, reverseKey, rID, start, radius, j)) else h[j])
  }

  /** One more index of the window. */
  lemma PartWindowStep(h: seq<Counts>, m: seq<Entry<nat>>, reverseKey: uint64 -> uint64, rID: int32,
                       start: uint32, radius: uint32, index: nat, p: int32)
    requires InRange(start, radius) && index < |h| && 0 <= p <= start + radius && index == p - start + radius
    ensures PartWindow(h, m, reverseKey, rID, start, radius, index + 1) ==
      PartWindow(h, m, reverseKey, rID, start, radius, index)[index :=
        Plus(h[index], Counts(Get(m, ForwardKey(rID, p), 0), Get(m, reverseKey(ForwardKey(rID, p)), 0)))]
  {
  }

  /** Before the first position of the window, the indices below it add nothing. */
  lemma PartWindowStart(h: seq<Counts>, m: seq<Entry<nat>>, reverseKey: uint64 -> uint64, rID: int32,
                        start: uint32, radius: uint32, index: nat)
    requires InRange(start, radius) && index == (if start < radius then radius - start else 0)
    ensures PartWindow(h, m, reverseKey, rID, start, radius, index) == h
  {
  }

  /** After the last position the whole window has been added. */
  lemma PartWindowEnd(h: seq<Counts>, m: seq<Entry<nat>>, reverseKey: uint64 -> uint64, rID: int32,
                      start: uint32, radius: uint32)
    requires InRange(start, radius) && |h| == 2 * radius + 1
    ensures PartWindow(h, m, reverseKey, rID, start, radius, |h|) == AddedWindow(h, m, reverseKey, rID, start, radius)
  {
  }

  /** The two lookups of one window step keep the map sorted, keep its keys and change no count. */
  lemma TouchBoth(m: seq<Entry<nat>>, m': seq<Entry<nat>>, pos: uint64, reversePos: uint64)
    requires Sorted(m') && Keys(m) <= Keys(m') && forall k :: Get(m', k, 0) == Get(m, k, 0)
    ensures Get(m', pos, 0) == Get(m, pos, 0) && Get(Touch(m', pos), reversePos, 0) == Get(m, reversePos, 0)
    ensures var m'' := Touch(Touch(m', pos), reversePos);
      Sorted(m'') && Keys(m) <= Keys(m'') && forall k :: Get(m'', k, 0) == Get(m, k, 0)
  {
    TouchProperties(m', pos);
    TouchProperties(Touch(m', pos), reversePos);
  }

  /**
   * One position of the window: `hits[index]` gains the forward count at
   * `pos` and the reverse count at `reversePos`, each read through
   * `operator[]`.
   */
  method AddPosition(hits: array<Counts>, index: nat, m: seq<Entry<nat>>, m': seq<Entry<nat>>, pos: uint64, reversePos: uint64)
    returns (m'': seq<Entry<nat>>)
    requires index < hits.Length
    requires Sorted(m') && Keys(m) <= Keys(m') && forall k :: Get(m', k, 0) == Get(m, k, 0)
    modifies hits
    ensures hits[..] == old(hits[..])[index := Plus(old(hits[index]), Counts(Get(m, pos, 0), Get(m, reversePos, 0)))]
    ensures Sorted(m'') && Keys(m) <= Keys(m'') && forall k :: Get(m'', k, 0) == Get(m, k, 0)
  {
    TouchBoth(m, m', pos, reversePos);
    m'' := m';
    hits[index] := hits[index].(first := hits[index].first + Get(m'', pos, 0));
    m'' := Touch(m'', pos);
    hits[index] := hits[index].(second := hits[index].second + Get(m'', reversePos, 0));
    m'' := Touch(m'', reversePos);
  }

  /**
   * The window loop around one peak, on the `hits` array in place.  The
   * lookups `occurenceMap[pos]` insert zero entries, so the map comes back
   * with more keys and the same counts.
   */
  method AddWindow(hits: array<Counts>, m: seq<Entry<nat>>, reverseKey: uint64 -> uint64, rID: int32,
                   start: uint32, radius: uint32) returns (m': seq<Entry<nat>>)
    requires hits.Length == 2 * radius + 1 && InRange(start, radius) && Sorted(m)
    modifies hits
    ensures hits[..] == AddedWindow(old(hits[..]), m, reverseKey, rID, start, radius)
    ensures Sorted(m') && Keys(m) <= Keys(m') && forall k :: Get(m', k, 0) == Get(m, k, 0)
  {
    var lower := I32(U32(start - radius));
    var beginPos: int32 := if lower > 0 then lower else 0;
    var index: uint32 := 0;
    if start < radius {
      index := index + radius - start;
    }
    var last := I32(U32(start + radius));
    assert last == start + radius;
    m' := m;
    ghost var h := hits[..];
    PartWindowStart(h, m, reverseKey, rID, start, radius, index);
    while beginPos <= last
      invariant (if start < radius then 0 else start - radius) <= beginPos <= start + radius + 1
      invariant index == beginPos - start + radius
      invariant hits[..] == PartWindow(h, m, reverseKey, rID, start, radius, index)
      invariant Sorted(m') && Keys(m) <= Keys(m') && forall k :: Get(m', k, 0) == Get(m, k, 0)
      decreases start + radius + 1 - beginPos
    {
      var pos := ForwardKey(rID, beginPos);
      var reversePos := reverseKey(pos);
      PartWindowStep(h, m, reverseKey, rID, start, radius, index, beginPos);
      assert hits[index] == h[index];
      m' := AddPosition(hits, index, m, m', pos, reversePos);
      beginPos := beginPos + 1;
      index := index + 1;
    }
    PartWindowEnd(h, m, reverseKey, rID, start, radius);
  }

  /** Adding to a table commutes with adding a window: `(h + e) + window == h + (e + window)`. */
  lemma AddedWindowShift(h: seq<Counts>, e: seq<Counts>, m: seq<Entry<nat>>, reverseKey: uint64 -> uint64,
                         rID: int32, start: uint32, radius: uint32)
    requires InRange(start, radius) && |h| == |e|
    ensures AddedWindow(PlusAll(h, e), m, reverseKey, rID, start, radius) ==
      PlusAll(h, AddedWindow(e, m, reverseKey, rID, start, radius))
  {
  }

  /** Peaks whose windows stay inside `int32`. */
  predicate PeaksInRange(peaks: seq<BedPeak>, radius: uint32)
  {
    forall i :: 0 <= i < |peaks| ==> InRange(peaks[i].start, radius)
  }

  /**
   * The table after the peaks of one BED file, in file order, or none when a
   * peak names a chromosome that is not in the BAM header (the program then
   * reports it and ends with -1).
   */
  function AfterPeaks(h: seq<Counts>, peaks: seq<BedPeak>, chromosomes: seq<string>, m: seq<Entry<nat>>,
                      reverseKey: uint64 -> uint64, radius: uint32): (r: Option<seq<Counts>>)
    requires PeaksInRange(peaks, radius) && |chromosomes| < TWO31
    ensures r.Some? ==> |r.value| == |h|
  {
    if peaks == [] then Some(h)
    else
      var n := |peaks| - 1;
      match AfterPeaks(h, peaks[..n], chromosomes, m, reverseKey, radius)
      case None => None
      case Some(h') =>
        var rID := IndexOf(chromosomes, peaks[n].chromosome);
        if rID == -1 then None else Some(AddedWindow(h', m, reverseKey, rID as int32, peaks[n].start, radius))
  }

  /** Every peak of the file names a chromosome of the header. */
  predicate KnownChromosomes(peaks: seq<BedPeak>, chromosomes: seq<string>)
  {
    forall i :: 0 <= i < |peaks| ==> peaks[i].chromosome in chromosomes
  }

  /** The peaks of a file are processed exactly when all their chromosomes are known, whatever the table. */
  lemma {:induction false} AfterPeaksKnown(h: seq<Counts>, peaks: seq<BedPeak>, chromosomes: seq<string>,
                                           m: seq<Entry<nat>>, reverseKey: uint64 -> uint64, radius: uint32)
    requires PeaksInRange(peaks, radius) && |chromosomes| < TWO31
    ensures AfterPeaks(h, peaks, chromosomes, m, reverseKey, radius).Some? <==> KnownChromosomes(peaks, chromosomes)
  {
    if peaks != [] {
      var n := |peaks| - 1;
      assert PeaksInRange(peaks[..n], radius);
      AfterPeaksKnown(h, peaks[..n], chromosomes, m, reverseKey, radius);
      assert KnownChromosomes(peaks, chromosomes) <==>
        KnownChromosomes(peaks[..n], chromosomes) && peaks[n].chromosome in chromosomes;
    }
  }

  /**
   * The result is the table plus what the peaks add to an empty one: windows
   * only ever add to the table, and the table they start from does not
   * change what they add.
   */
  lemma {:induction false} AfterPeaksAdds(h: seq<Counts>, peaks: seq<BedPeak>, chromosomes: seq<string>,
                                          m: seq<Entry<nat>>, reverseKey: uint64 -> uint64, radius: uint32)
    requires PeaksInRange(peaks, radius) && |chromosomes| < TWO31 && |h| == 2 * radius + 1
    requires KnownChromosomes(peaks, chromosomes)
    ensures AfterPeaks(h, peaks, chromosomes, m, reverseKey, radius).Some?
    ensures AfterPeaks(EmptyTable(radius), peaks, chromosomes, m, reverseKey, radius).Some?
    ensures AfterPeaks(h, peaks, chromosomes, m, reverseKey, radius).value ==
      PlusAll(h, AfterPeaks(EmptyTable(radius), peaks, chromosomes, m, reverseKey, radius).value)
  {
    AfterPeaksKnown(h, peaks, chromosomes, m, reverseKey, radius);
    AfterPeaksKnown(EmptyTable(radius), peaks, chromosomes, m, reverseKey, radius);
    if peaks == [] {
      assert PlusAll(h, EmptyTable(radius)) == h;
    } else {
      var n := |peaks| - 1;
      assert PeaksInRange(peaks[..n], radius);
      assert KnownChromosomes(peaks[..n], chromosomes);
      AfterPeaksAdds(h, peaks[..n], chromosomes, m, reverseKey, radius);
      var rID := IndexOf(chromosomes, peaks[n].chromosome);
      AddedWindowShift(h, AfterPeaks(EmptyTable(radius), peaks[..n], chromosomes, m, reverseKey, radius).value,
                       m, reverseKey, rID as int32, peaks[n].start, radius);
    }
  }

  /** Once a peak names an unknown chromosome, no further peak changes that. */
  lemma {:induction false} UnknownStops(h: seq<Counts>, peaks: seq<BedPeak>, k: nat, chromosomes: seq<string>,
                                        m: seq<Entry<nat>>, reverseKey: uint64 -> uint64, radius: uint32)
    requires PeaksInRange(peaks, radius) && |chromosomes| < TWO31 && k <= |peaks|
    requires AfterPeaks(h, peaks[..k], chromosomes, m, reverseKey, radius).None?
    ensures AfterPeaks(h, peaks, chromosomes, m, reverseKey, radius).None?
  {
    if k < |peaks| {
      var n := |peaks| - 1;
      assert peaks[..n][..k] == peaks[..k];
      UnknownStops(h, peaks[..n], k, chromosomes, m, reverseKey, radius);
    } else {
      assert peaks[..k] == peaks;
    }
  }

  /** The BED files in order, all into one table that is never cleared. */
  function AfterFiles(h: seq<Counts>, files: seq<BedFile>, chromosomes: seq<string>, m: seq<Entry<nat>>,
                      reverseKey: uint64 -> uint64, radius: uint32): (r: Option<seq<Counts>>)
    requires forall f :: f in files ==> PeaksInRange(f.peaks, radius)
    requires |chromosomes| < TWO31
    ensures r.Some? ==> |r.value| == |h|
  {
    if files == [] then Some(h)
    else
      var n := |files| - 1;
      match AfterFiles(h, files[..n], chromosomes, m, reverseKey, radius)
      case None => None
      case Some(h') => AfterPeaks(h', files[n].peaks, chromosomes, m, reverseKey, radius)
  }

  /**
   * The table written after a file holds the previous file's table plus this
   * file's own windows: the counts of all BED files so far add up.
   */
  lemma AfterFilesAccumulates(files: seq<BedFile>, f: BedFile, chromosomes: seq<string>, m: seq<Entry<nat>>,
                              reverseKey: uint64 -> uint64, radius: uint32)
    requires forall g :: g in files + [f] ==> PeaksInRange(g.peaks, radius)
    requires |chromosomes| < TWO31
    requires AfterFiles(EmptyTable(radius), files, chromosomes, m, reverseKey, radius).Some?
    ensures var r := AfterFiles(EmptyTable(radius), files + [f], chromosomes, m, reverseKey, radius);
      var own := AfterPeaks(EmptyTable(radius), f.peaks, chromosomes, m, reverseKey, radius);
      (r.Some? <==> KnownChromosomes(f.peaks, chromosomes)) &&
      (r.Some? ==>
        own.Some? && r.value == PlusAll(AfterFiles(EmptyTable(radius), files, chromosomes, m, reverseKey, radius).value, own.value))
  {
    assert (files + [f])[..|files|] == files;
    var h := AfterFiles(EmptyTable(radius), files, chromosomes, m, reverseKey, radius).value;
    AfterPeaksKnown(h, f.peaks, chromosomes, m, reverseKey, radius);
    if KnownChromosomes(f.peaks, chromosomes) {
      AfterPeaksAdds(h, f.peaks, chromosomes, m, reverseKey, radius);
    }
  }

  /** Once a file fails, the whole run fails. */
  lemma {:induction false} FailedFileStops(h: seq<Counts>, files: seq<BedFile>, k: nat, chromosomes: seq<string>,
                                           m: seq<Entry<nat>>, reverseKey: uint64 -> uint64, radius: uint32)
    requires forall f :: f in files ==> PeaksInRange(f.peaks, radius)
    requires |chromosomes| < TWO31 && k <= |files|
    requires AfterFiles(h, files[..k], chromosomes, m, reverseKey, radius).None?
    ensures AfterFiles(h, files, chromosomes, m, reverseKey, radius).None?
  {
    if k < |files| {
      var n := |files| - 1;
      assert files[..n][..k] == files[..k];
      FailedFileStops(h, files[..n], k, chromosomes, m, reverseKey, radius);
    } else {
      assert files[..k] == files;
    }
  }

  /** One line of a table file: the offset from the peak, then the forward and the reverse count. */
  datatype Row = Row(offset: int, forward: nat, reverse: nat)

  /** A written table file. */
  datatype Table = Table(name: string, rows: seq<Row>)

  const TABLE_SUFFIX := "_5PrimeEnds.tab"

  /** The table file of a BED file: its prefix, path included, and `_5PrimeEnds.tab`. */
  function TableName(fileName: string): (r: string)
    ensures |r| >= |TABLE_SUFFIX| && r[|r| - |TABLE_SUFFIX|..] == TABLE_SUFFIX
    ensures r[..|r| - |TABLE_SUFFIX|] == GetFilePrefix(fileName, true)
  {
    GetFilePrefix(fileName, true) + TABLE_SUFFIX
  }

  /** The lines of a table: the pair at index `j` labelled with `j - radius`. */
  function Rows(h: seq<Counts>, radius: uint32): (rows: seq<Row>)
  {
    seq(|h|, j requires 0 <= j < |h| => Row(j - radius, h[j].first, h[j].second))
  }

  /**
   * The labels run from `-radius` to `radius` one by one, the peak's own
   * position is the row labelled 0, and every row carries its pair.
   */
  lemma RowLabels(h: seq<Counts>, radius: uint32)
    requires |h| == 2 * radius + 1
    ensures var rows := Rows(h, radius);
      |rows| == |h| && rows[0].offset == -(radius as int) && rows[|rows| - 1].offset == radius &&
      rows[radius].offset == 0 &&
      (forall j :: 0 < j < |rows| ==> rows[j].offset == rows[j - 1].offset + 1) &&
      (forall j :: 0 <= j < |rows| ==> rows[j].forward == h[j].first && rows[j].reverse == h[j].second)
  {
  }

  /** The write loop: `i` starts at `-radius` and goes up by one per pair. */
  method WriteTable(name: string, hits: array<Counts>, radius: uint32) returns (t: Table)
    requires hits.Length == 2 * radius + 1
    ensures t == Table(name, Rows(hits[..], radius))
  {
    var rows := [];
    var i: int := -(radius as int);
    for j := 0 to hits.Length
      invariant i == j - radius
      invariant rows == Rows(hits[..j], radius)
    {
      var hit := hits[j];
      rows := rows + [Row(i, hit.first, hit.second)];
      i := i + 1;
    }
    assert hits[..hits.Length] == hits[..];
    t := Table(name, rows);
  }

  /** The table written after BED file `k`, when it and the files before it succeed. */
  ghost function ExpectedTable(files: seq<BedFile>, k: nat, chromosomes: seq<string>, m: seq<Entry<nat>>,
                               reverseKey: uint64 -> uint64, radius: uint32): Option<Table>
    requires forall f :: f in files ==> PeaksInRange(f.peaks, radius)
    requires |chromosomes| < TWO31 && k < |files|
  {
    match AfterFiles(EmptyTable(radius), files[..k + 1], chromosomes, m, reverseKey, radius)
    case None => None
    case Some(h) => Some(Table(TableName(files[k].name), Rows(h, radius)))
  }

  /** The tables written so far are those of the first files, in order. */
  ghost predicate WrittenAfter(tables: seq<Table>, files: seq<BedFile>, chromosomes: seq<string>, m: seq<Entry<nat>>,
                               reverseKey: uint64 -> uint64, radius: uint32)
    requires forall f :: f in files ==> PeaksInRange(f.peaks, radius)
    requires |chromosomes| < TWO31 && |tables| <= |files|
  {
    forall k :: 0 <= k < |tables| ==> ExpectedTable(files, k, chromosomes, m, reverseKey, radius) == Some(tables[k])
  }

  /** One more written table keeps the tables in step with the files. */
  lemma WrittenAfterSnoc(tables: seq<Table>, table: Table, h: seq<Counts>, files: seq<BedFile>, chromosomes: seq<string>,
                         m: seq<Entry<nat>>, reverseKey: uint64 -> uint64, radius: uint32)
    requires forall f :: f in files ==> PeaksInRange(f.peaks, radius)
    requires |chromosomes| < TWO31 && |tables| < |files|
    requires WrittenAfter(tables, files, chromosomes, m, reverseKey, radius)
    requires AfterFiles(EmptyTable(radius), files[..|tables| + 1], chromosomes, m, reverseKey, radius) == Some(h)
    requires table == Table(TableName(files[|tables|].name), Rows(h, radius))
    ensures WrittenAfter(tables + [table], files, chromosomes, m, reverseKey, radius)
  {
    assert ExpectedTable(files, |tables|, chromosomes, m, reverseKey, radius) == Some(table);
  }

  /** `AfterPeaks` one peak further. */
  lemma AfterPeaksNext(h: seq<Counts>, peaks: seq<BedPeak>, k: nat, chromosomes: seq<string>, m: seq<Entry<nat>>,
                       reverseKey: uint64 -> uint64, radius: uint32)
    requires PeaksInRange(peaks, radius) && |chromosomes| < TWO31 && k < |peaks|
    ensures AfterPeaks(h, peaks[..k + 1], chromosomes, m, reverseKey, radius) ==
      match AfterPeaks(h, peaks[..k], chromosomes, m, reverseKey, radius)
      case None => None
      case Some(h') =>
        var rID := IndexOf(chromosomes, peaks[k].chromosome);
        if rID == -1 then None else Some(AddedWindow(h', m, reverseKey, rID as int32, peaks[k].start, radius))
  {
    assert peaks[..k + 1][..k] == peaks[..k];
  }

  /** `AfterFiles` one file further. */
  lemma AfterFilesNext(h: seq<Counts>, files: seq<BedFile>, k: nat, chromosomes: seq<string>, m: seq<Entry<nat>>,
                       reverseKey: uint64 -> uint64, radius: uint32)
    requires forall f :: f in files ==> PeaksInRange(f.peaks, radius)
    requires |chromosomes| < TWO31 && k < |files|
    ensures AfterFiles(h, files[..k + 1], chromosomes, m, reverseKey, radius) ==
      match AfterFiles(h, files[..k], chromosomes, m, reverseKey, radius)
      case None => None
      case Some(h') => AfterPeaks(h', files[k].peaks, chromosomes, m, reverseKey, radius)
  {
    assert files[..k + 1][..k] == files[..k];
    assert files[k] in files;
  }

  /**
   * The peak loop of one BED file on the `hits` array: false at the first
   * peak on an unknown chromosome, otherwise every window added.
   */
  method AddFilePeaks(hits: array<Counts>, occurenceMap: seq<Entry<nat>>, peaks: seq<BedPeak>, chromosomes: seq<string>,
                      m: seq<Entry<nat>>, reverseKey: uint64 -> uint64, radius: uint32)
    returns (occurenceMap': seq<Entry<nat>>, known: bool)
    requires hits.Length == 2 * radius + 1 && PeaksInRange(peaks, radius) && |chromosomes| < TWO31
    requires Sorted(occurenceMap) && forall k :: Get(occurenceMap, k, 0) == Get(m, k, 0)
    modifies hits
    ensures known <==> AfterPeaks(old(hits[..]), peaks, chromosomes, m, reverseKey, radius).Some?
    ensures known ==> hits[..] == AfterPeaks(old(hits[..]), peaks, chromosomes, m, reverseKey, radius).value
    ensures Sorted(occurenceMap') && forall k :: Get(occurenceMap', k, 0) == Get(m, k, 0)
  {
    ghost var before := hits[..];
    occurenceMap' := occurenceMap;
    for peakIndex := 0 to |peaks|
      invariant AfterPeaks(before, peaks[..peakIndex], chromosomes, m, reverseKey, radius) == Some(hits[..])
      invariant Sorted(occurenceMap') && forall k :: Get(occurenceMap', k, 0) == Get(m, k, 0)
    {
      var peak := peaks[peakIndex];
      AfterPeaksNext(before, peaks, peakIndex, chromosomes, m, reverseKey, radius);
      var rID := FindChromosome(chromosomes, peak.chromosome);
      if rID == -1 {
        UnknownStops(before, peaks, peakIndex + 1, chromosomes, m, reverseKey, radius);
        return occurenceMap', false;
      }
      ghost var current := hits[..];
      var m' := AddWindow(hits, occurenceMap', reverseKey, rID as int32, peak.start, radius);
      WindowSameCounts(current, occurenceMap', m, reverseKey, rID as int32, peak.start, radius);
      occurenceMap' := m';
    }
    assert peaks[..|peaks|] == peaks;
    known := true;
  }

  /**
   * The loop over the BED files after the BAM file was counted into `m`:
   * one table per file, each holding every file so far; 0 when all
   * chromosomes are known, otherwise -1 right after the file with the
   * unknown one, whose table is not written.
   */
  method CountAroundPeaks(files: seq<BedFile>, chromosomes: seq<string>, m: seq<Entry<nat>>,
                          reverseKey: uint64 -> uint64, radius: uint32) returns (tables: seq<Table>, exitCode: int)
    requires forall f :: f in files ==> PeaksInRange(f.peaks, radius)
    requires |chromosomes| < TWO31 && Sorted(m) && radius < TWO31 - 1
    ensures exitCode == 0 || exitCode == -1
    ensures exitCode == 0 <==> AfterFiles(EmptyTable(radius), files, chromosomes, m, reverseKey, radius).Some?
    ensures if exitCode == 0 then |tables| == |files| else |tables| < |files|
    ensures WrittenAfter(tables, files, chromosomes, m, reverseKey, radius)
    ensures exitCode == -1 ==>
      AfterFiles(EmptyTable(radius), files[..|tables| + 1], chromosomes, m, reverseKey, radius).None?
  {
    var hits := new Counts[2 * radius + 1](_ => NO_COUNTS);
    var occurenceMap := m;
    tables := [];
    assert hits[..] == EmptyTable(radius);
    for fileIndex := 0 to |files|
      invariant |tables| == fileIndex
      invariant AfterFiles(EmptyTable(radius), files[..fileIndex], chromosomes, m, reverseKey, radius) == Some(hits[..])
      invariant WrittenAfter(tables, files, chromosomes, m, reverseKey, radius)
      invariant Sorted(occurenceMap) && forall k :: Get(occurenceMap, k, 0) == Get(m, k, 0)
    {
      var table, known;
      occurenceMap, table, known := CountFile(hits, occurenceMap, tables, files, chromosomes, m, reverseKey, radius);
      if !known {
        FailedFileStops(EmptyTable(radius), files, fileIndex + 1, chromosomes, m, reverseKey, radius);
        return tables, -1;
      }
      tables := tables + [table];
    }
    assert files[..|files|] == files;
    exitCode := 0;
  }

  /** The loop body for the next BED file: count its peaks into `hits` and, when every chromosome is known, write its table. */
  method CountFile(hits: array<Counts>, occurenceMap: seq<Entry<nat>>, tables: seq<Table>, files: seq<BedFile>,
                   chromosomes: seq<string>, m: seq<Entry<nat>>, reverseKey: uint64 -> uint64, radius: uint32)
    returns (occurenceMap': seq<Entry<nat>>, table: Table, known: bool)
    requires forall f :: f in files ==> PeaksInRange(f.peaks, radius)
    requires |chromosomes| < TWO31 && hits.Length == 2 * radius + 1 && |tables| < |files|
    requires AfterFiles(EmptyTable(radius), files[..|tables|], chromosomes, m, reverseKey, radius) == Some(hits[..])
    requires WrittenAfter(tables, files, chromosomes, m, reverseKey, radius)
    requires Sorted(occurenceMap) && forall k :: Get(occurenceMap, k, 0) == Get(m, k, 0)
    modifies hits
    ensures Sorted(occurenceMap') && forall k :: Get(occurenceMap', k, 0) == Get(m, k, 0)
    ensures known <==> AfterFiles(EmptyTable(radius), files[..|tables| + 1], chromosomes, m, reverseKey, radius).Some?
    ensures known ==> AfterFiles(EmptyTable(radius), files[..|tables| + 1], chromosomes, m, reverseKey, radius) == Some(hits[..])
    ensures known ==> WrittenAfter(tables + [table], files, chromosomes, m, reverseKey, radius)
  {
    var file := files[|tables|];
    assert file in files;
    AfterFilesNext(EmptyTable(radius), files, |tables|, chromosomes, m, reverseKey, radius);
    occurenceMap', known := AddFilePeaks(hits, occurenceMap, file.peaks, chromosomes, m, reverseKey, radius);
    table := WriteTable(TableName(file.name), hits, radius);
    if known {
      WrittenAfterSnoc(tables, table, hits[..], files, chromosomes, m, reverseKey, radius);
    }
  }

  /**
   * `getArgumentValue(value, parser, argNo, valNo)`: value `valNo` of the
   * positional argument `argNo`.  5PrimeEndCounter declares one positional
   * argument, the list of BED files, so any `argNo` but 0 fails SeqAn's
   * argument check, which stops the program (None).
   */
  function ArgumentValue(files: seq<BedFile>, argNo: nat, valNo: nat): (r: Option<BedFile>)
    ensures r.Some? <==> argNo == 0 && valNo < |files|
    ensures r.Some? ==> r.value == files[valNo]
  {
    if argNo == 0 && valNo < |files| then Some(files[valNo]) else None
  }

  /** How the loop over the BED files ends. */
  datatype Ending = Finished | UnknownChromosome | ArgumentCheckFailed

  /**
   * The loop over the BED files as the source writes it, from `fileIndex`
   * on with the table `h`: each iteration names its file by
   * `getArgumentValue(fileName_, parser, fileIndex, 0)`.  Returns the
   * tables written and how the loop ended.
   */
  function FilesAsWritten(files: seq<BedFile>, fileIndex: nat, h: seq<Counts>, chromosomes: seq<string>,
                          m: seq<Entry<nat>>, reverseKey: uint64 -> uint64, radius: uint32): (r: (seq<Table>, Ending))
    requires forall f :: f in files ==> PeaksInRange(f.peaks, radius)
    requires |chromosomes| < TWO31 && fileIndex <= |files|
    ensures |r.0| <= |files| - fileIndex
    ensures r.1 == Finished ==> |r.0| == |files| - fileIndex
    decreases |files| - fileIndex
  {
    if fileIndex == |files| then ([], Finished)
    else match ArgumentValue(files, fileIndex, 0)
      case None => ([], ArgumentCheckFailed)
      case Some(file) =>
        assert file in files;
        match AfterPeaks(h, file.peaks, chromosomes, m, reverseKey, radius)
        case None => ([], UnknownChromosome)
        case Some(h') =>
          var rest := FilesAsWritten(files, fileIndex + 1, h', chromosomes, m, reverseKey, radius);
          ([Table(TableName(file.name), Rows(h', radius))] + rest.0, rest.1)
  }

  /**
   * As written, two or more BED files never get past the second: the first
   * file's table is written, and then the argument check stops the program,
   * where the loop over all files writes one table per file.
   */
  lemma AsWrittenStopsAtSecondFile(files: seq<BedFile>, chromosomes: seq<string>, m: seq<Entry<nat>>,
                                   reverseKey: uint64 -> uint64, radius: uint32)
    requires forall f :: f in files ==> PeaksInRange(f.peaks, radius)
    requires |chromosomes| < TWO31 && |files| >= 2
    requires KnownChromosomes(files[0].peaks, chromosomes)
    ensures ExpectedTable(files, 0, chromosomes, m, reverseKey, radius).Some?
    ensures FilesAsWritten(files, 0, EmptyTable(radius), chromosomes, m, reverseKey, radius) ==
      ([ExpectedTable(files, 0, chromosomes, m, reverseKey, radius).value], ArgumentCheckFailed)
  {
    var empty := EmptyTable(radius);
    var first := files[..1];
    assert files[0] in files && first[..0] == [] && first[0] == files[0];
    AfterPeaksKnown(empty, files[0].peaks, chromosomes, m, reverseKey, radius);
    var h' := AfterPeaks(empty, files[0].peaks, chromosomes, m, reverseKey, radius).value;
    assert AfterFiles(empty, first, chromosomes, m, reverseKey, radius) == Some(h');
    assert ArgumentValue(files, 1, 0) == None;
    assert FilesAsWritten(files, 1, h', chromosomes, m, reverseKey, radius) == ([], ArgumentCheckFailed);
    var table := Table(TableName(files[0].name), Rows(h', radius));
    assert ExpectedTable(files, 0, chromosomes, m, reverseKey, radius) == Some(table);
    assert ArgumentValue(files, 0, 0) == Some(files[0]);
    assert [table] + [] == [table];
  }

  /** With one BED file the loop as written writes what the loop over all files writes. */
  lemma AsWrittenOneFile(files: seq<BedFile>, chromosomes: seq<string>, m: seq<Entry<nat>>,
                         reverseKey: uint64 -> uint64, radius: uint32)
    requires forall f :: f in files ==> PeaksInRange(f.peaks, radius)
    requires |chromosomes| < TWO31 && |files| == 1
    ensures var r := FilesAsWritten(files, 0, EmptyTable(radius), chromosomes, m, reverseKey, radius);
      (r.1 == Finished <==> AfterFiles(EmptyTable(radius), files, chromosomes, m, reverseKey, radius).Some?) &&
      (r.1 != Finished ==> r == ([], UnknownChromosome)) &&
      (r.1 == Finished ==> r.0 == [ExpectedTable(files, 0, chromosomes, m, reverseKey, radius).value])
  {
    var empty := EmptyTable(radius);
    assert files[0] in files && files[..1] == files && files[..0] == [];
    assert AfterFiles(empty, files, chromosomes, m, reverseKey, radius) ==
      AfterPeaks(empty, files[0].peaks, chromosomes, m, reverseKey, radius);
  }
}
