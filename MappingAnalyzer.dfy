/**
 * MappingAnalyzer (MappingAnalyzer/MappingAnalyzer.cpp): joins two BAM files
 * of the same reads, both sorted by position.  File 2 is read ahead of
 * file 1; each file-2 read passed on the way stores the 5' end of its read id
 * (the first one per id wins), and a file-1 read whose id was stored with its
 * own 5' end is written to the consensus file and counted as matching.
 */
module MappingAnalyzer {
  import opened Words
  import opened Maybe
  import opened Text
  import opened FilePaths
  import opened BamRecordKey

  /** `getFilename`: the text after the last '/' or '\'; empty when there is no separator. */
  function GetFilename(fileName: string): (r: string)
    ensures |r| < |fileName| || r == []
    ensures forall j :: 0 <= j < |r| ==> r[j] !in SEPARATORS
  {
    match FindLastOf(fileName, SEPARATORS)
    case None => []
    case Some(found) => fileName[found + 1..]
  }

  /**
   * Without a separator the file name is empty, not the whole name; with one
   * it is what follows the last separator, and the path, that separator and
   * the file name make up the whole name again when the separator is not the
   * first character.
   */
  lemma FilenameSplits(fileName: string)
    ensures (forall j :: 0 <= j < |fileName| ==> fileName[j] !in SEPARATORS) ==> GetFilename(fileName) == []
    ensures var r := GetFilename(fileName);
      (exists j :: 0 <= j < |fileName| && fileName[j] in SEPARATORS) ==>
        |r| < |fileName| && fileName[|fileName| - |r| - 1] in SEPARATORS && fileName[|fileName| - |r|..] == r
    ensures var path := GetFilePath(fileName);
      path != [] ==> path + [fileName[|path|]] + GetFilename(fileName) == fileName
  {
    FilePathSplits(fileName);
    var path := GetFilePath(fileName);
    if path != [] {
      assert FindLastOf(fileName, SEPARATORS) == Some(|path|);
      assert fileName == fileName[..|path|] + [fileName[|path|]] + fileName[|path| + 1..];
    }
  }

  /**
   * `getReadId`: the text strictly between the first '.' and the first ':';
   * empty when either is missing or the '.' does not come first.
   */
  function GetReadId(id: string): (r: string)
    ensures |r| < |id| || r == []
    ensures forall j :: 0 <= j < |r| ==> r[j] != ':'
    ensures (forall j :: 0 <= j < |id| ==> id[j] != ':') ==> r == []
    ensures (forall j :: 0 <= j < |id| ==> id[j] != '.') ==> r == []
  {
    var pos1 := FindChar(id, '.', 0);
    var pos2 := FindChar(id, ':', 0);
    if pos1.None? || pos2.None? || pos1.value >= pos2.value then []
    else Substr(id, pos1.value + 1, pos2.value - pos1.value - 1).value
  }

  /** The read id of a name built as `prefix.id:rest` is `id`, when `prefix` holds neither '.' nor ':' and `id` no ':'. */
  lemma ReadIdRoundTrip(prefix: string, id: string, rest: string)
    requires forall j :: 0 <= j < |prefix| ==> prefix[j] != '.' && prefix[j] != ':'
    requires forall j :: 0 <= j < |id| ==> id[j] != ':'
    ensures GetReadId(prefix + "." + id + ":" + rest) == id
  {
    var name := prefix + "." + id + ":" + rest;
    var pos1 := |prefix|;
    var pos2 := |prefix| + 1 + |id|;
    assert name[pos1] == '.' && name[pos2] == ':';
    assert FindChar(name, '.', 0) == Some(pos1) by {
      assert forall j :: 0 <= j < pos1 ==> name[j] == prefix[j];
    }
    assert FindChar(name, ':', 0) == Some(pos2) by {
      assert forall j :: 0 <= j < pos1 ==> name[j] == prefix[j];
      assert forall j :: pos1 < j < pos2 ==> name[j] == id[j - pos1 - 1];
    }
    assert name[pos1 + 1..pos2] == id;
  }

  /** Without a '.' or a ':', or with the first ':' before the first '.', the read id is empty. */
  lemma ReadIdEmpty(id: string, i: nat)
    requires i < |id| && id[i] == ':'
    requires forall j :: 0 <= j <= i ==> id[j] != '.'
    ensures GetReadId(id) == []
  {
  }

  /** The statistics file: the prefix of `argv1`, the first command-line word, with `_MappingAnalyzer_Statistics.txt`. */
  const STATISTICS_SUFFIX := "_MappingAnalyzer_Statistics.txt"

  /** The consensus file that `SaveBam` opens: the output prefix, `_consensus_mapped` and `.bam`. */
  const CONSENSUS_SUFFIX := "_consensus_mapped.bam"

  /** The names the program writes to: the consensus BAM file and the statistics file. */
  datatype Outputs = Outputs(consensusFile: string, statisticsFile: string)

  /**
   * The argument check and the output names: with fewer than two input files
   * the usage is printed and the program ends with 1; the output prefix is
   * the `-o` value when it is not empty, else the prefix of `argv1`.
   */
  function OutputNames(inputFiles: seq<string>, output: string, argv1: string): (r: Option<Outputs>)
    ensures r.None? <==> |inputFiles| < 2
    ensures r.Some? && output != [] ==> r.value.consensusFile == output + CONSENSUS_SUFFIX
    ensures r.Some? && output == [] ==> r.value.consensusFile == GetFilePrefix(argv1, true) + CONSENSUS_SUFFIX
    ensures r.Some? ==> r.value.statisticsFile == GetFilePrefix(argv1, true) + STATISTICS_SUFFIX
  {
    if |inputFiles| < 2 then None
    else
      var outPrefix := if output != [] then output else GetFilePrefix(argv1, true);
      Some(Outputs(outPrefix + CONSENSUS_SUFFIX, GetFilePrefix(argv1, true) + STATISTICS_SUFFIX))
  }

  datatype Statistics = Statistics(readsFile1: nat, readsFile2: nat, matchingReads: nat)

  const NO_READS := Statistics(0, 0, 0)

  /** The read id of a record's name. */
  function ReadIdOf(r: Record): string
  {
    GetReadId(r.qName)
  }

  /**
   * `tempIdStorage.emplace(id, end)`: the 5' end, as the `unsigned int` the
   * map holds, is stored only when the id is not stored yet.  The join below
   * is stated for any read-id function `readId`; the program's loop uses
   * `ReadIdOf`, that is `getReadId` of the read name.
   */
  function Emplace(storage: map<string, uint32>, r: Record, readId: Record -> string, fivePrimeEnd: Record -> int): (s: map<string, uint32>)
    ensures readId(r) in storage ==> s == storage
    ensures readId(r) !in storage ==> s == storage[readId(r) := U32(fivePrimeEnd(r))]
  {
    if readId(r) in storage then storage else storage[readId(r) := U32(fivePrimeEnd(r))]
  }

  /** What the storage holds after the reads `rs` of file 2: for every id, the 5' end of its first read. */
  function FirstIds(rs: seq<Record>, readId: Record -> string, fivePrimeEnd: Record -> int): map<string, uint32>
  {
    if rs == [] then map[] else Emplace(FirstIds(rs[..|rs| - 1], readId, fivePrimeEnd), rs[|rs| - 1], readId, fivePrimeEnd)
  }

  /** An id is stored exactly when some read has it. */
  lemma {:induction false} FirstIdsKeys(rs: seq<Record>, readId: Record -> string, fivePrimeEnd: Record -> int)
    ensures forall j :: 0 <= j < |rs| ==> readId(rs[j]) in FirstIds(rs, readId, fivePrimeEnd)
    ensures forall id :: id in FirstIds(rs, readId, fivePrimeEnd) ==> exists j :: 0 <= j < |rs| && readId(rs[j]) == id
  {
    if rs != [] {
      var n := |rs| - 1;
      var before := FirstIds(rs[..n], readId, fivePrimeEnd);
      FirstIdsKeys(rs[..n], readId, fivePrimeEnd);
      assert forall j :: 0 <= j < n ==> rs[..n][j] == rs[j];
      assert FirstIds(rs, readId, fivePrimeEnd) == Emplace(before, rs[n], readId, fivePrimeEnd);
      assert forall id :: id in FirstIds(rs, readId, fivePrimeEnd) ==> id in before || id == readId(rs[n]);
    }
  }

  /** The stored end of an id is that of its first read: later reads with the same id do not overwrite it. */
  lemma {:induction false} FirstIdsFirst(rs: seq<Record>, j: nat, readId: Record -> string, fivePrimeEnd: Record -> int)
    requires j < |rs|
    requires forall i :: 0 <= i < j ==> readId(rs[i]) != readId(rs[j])
    ensures readId(rs[j]) in FirstIds(rs, readId, fivePrimeEnd)
    ensures FirstIds(rs, readId, fivePrimeEnd)[readId(rs[j])] == U32(fivePrimeEnd(rs[j]))
  {
    var n := |rs| - 1;
    var id := readId(rs[j]);
    var before := FirstIds(rs[..n], readId, fivePrimeEnd);
    assert FirstIds(rs, readId, fivePrimeEnd) == Emplace(before, rs[n], readId, fivePrimeEnd);
    if j < n {
      assert rs[..n][j] == rs[j];
      assert forall i :: 0 <= i < j ==> rs[..n][i] == rs[i];
      FirstIdsFirst(rs[..n], j, readId, fivePrimeEnd);
      assert id in before && before[id] == U32(fivePrimeEnd(rs[j]));
    } else {
      FirstIdsKeys(rs[..n], readId, fivePrimeEnd);
      assert forall i :: 0 <= i < n ==> rs[..n][i] == rs[i];
      assert id !in before;
    }
  }

  /** How far the inner loop read file 2, what it stored, and how many reads it counted. */
  datatype Pulled = Pulled(current: nat, tempIdStorage: map<string, uint32>, readsFile2: nat)

  /**
   * The inner loop for one file-1 read: while file 2 is not at its end and
   * its current read is not after the file-1 read (`lessEqualWithoutStrand`,
   * which is not part of this model), store the current read and read the
   * next one.  `current` is the index of the read `record2` holds; file 2 is
   * at its end once its last read is held.
   */
  function Pull(file2: seq<Record>, p: Pulled, record1: Record, lessEqual: (Record, Record) -> bool,
                readId: Record -> string, fivePrimeEnd: Record -> int): Pulled
    decreases |file2| - p.current
  {
    if p.current + 1 < |file2| && lessEqual(file2[p.current], record1) then
      Pull(file2, Pulled(p.current + 1, Emplace(p.tempIdStorage, file2[p.current], readId, fivePrimeEnd), p.readsFile2 + 1),
           record1, lessEqual, readId, fivePrimeEnd)
    else p
  }

  /**
   * The inner loop stores exactly the reads it passes, in order, counts each
   * of them, and stops at the end of file 2 or at the first read after the
   * file-1 read.
   */
  lemma {:induction false} PullStores(file2: seq<Record>, p: Pulled, record1: Record,
                                      lessEqual: (Record, Record) -> bool, readId: Record -> string, fivePrimeEnd: Record -> int)
    requires p.current <= |file2| && p.tempIdStorage == FirstIds(file2[..p.current], readId, fivePrimeEnd)
    ensures var q := Pull(file2, p, record1, lessEqual, readId, fivePrimeEnd);
      p.current <= q.current <= |file2| &&
      q.tempIdStorage == FirstIds(file2[..q.current], readId, fivePrimeEnd) &&
      q.readsFile2 == p.readsFile2 + (q.current - p.current) &&
      (forall j :: p.current <= j < q.current ==> lessEqual(file2[j], record1)) &&
      (q.current + 1 >= |file2| || !lessEqual(file2[q.current], record1))
    decreases |file2| - p.current
  {
    if p.current + 1 < |file2| && lessEqual(file2[p.current], record1) {
      var p' := Pulled(p.current + 1, Emplace(p.tempIdStorage, file2[p.current], readId, fivePrimeEnd), p.readsFile2 + 1);
      assert file2[..p.current + 1][..p.current] == file2[..p.current];
      assert p'.tempIdStorage == FirstIds(file2[..p'.current], readId, fivePrimeEnd);
      assert Pull(file2, p, record1, lessEqual, readId, fivePrimeEnd) == Pull(file2, p', record1, lessEqual, readId, fivePrimeEnd);
      PullStores(file2, p', record1, lessEqual, readId, fivePrimeEnd);
    } else {
      assert Pull(file2, p, record1, lessEqual, readId, fivePrimeEnd) == p;
    }
  }

  /** The state of the join: the pulled file-2 state, the counters and the reads written to the consensus file. */
  datatype Join = Join(current: nat, tempIdStorage: map<string, uint32>, stats: Statistics, written: seq<Record>)

  /** The priming `readRecord(record2, ...)`: the first read of file 2 is held, not counted. */
  const START := Join(0, map[], NO_READS, [])

  /** A file-1 read matches when its id is stored with its own 5' end, compared as `unsigned int`. */
  predicate Matches(storage: map<string, uint32>, r: Record, readId: Record -> string, fivePrimeEnd: Record -> int)
  {
    readId(r) in storage && storage[readId(r)] == U32(fivePrimeEnd(r))
  }

  /** One pass of the outer loop for the file-1 read `record1`. */
  function Step(s: Join, file2: seq<Record>, record1: Record, lessEqual: (Record, Record) -> bool,
                readId: Record -> string, fivePrimeEnd: Record -> int): Join
  {
    var q := Pull(file2, Pulled(s.current, s.tempIdStorage, s.stats.readsFile2), record1, lessEqual, readId, fivePrimeEnd);
    var stats := s.stats.(readsFile1 := s.stats.readsFile1 + 1, readsFile2 := q.readsFile2);
    if Matches(q.tempIdStorage, record1, readId, fivePrimeEnd) then
      Join(q.current, q.tempIdStorage, stats.(matchingReads := stats.matchingReads + 1), s.written + [record1])
    else Join(q.current, q.tempIdStorage, stats, s.written)
  }

  /** The outer loop stops once file 2 is at its end. */
  predicate AtEnd2(s: Join, file2: seq<Record>)
  {
    s.current + 1 >= |file2|
  }

  /** The join after the reads `file1` of file 1 were offered, in order. */
  function JoinAll(file1: seq<Record>, file2: seq<Record>, lessEqual: (Record, Record) -> bool,
                   readId: Record -> string, fivePrimeEnd: Record -> int): Join
  {
    if file1 == [] then START
    else
      var s := JoinAll(file1[..|file1| - 1], file2, lessEqual, readId, fivePrimeEnd);
      if AtEnd2(s, file2) then s else Step(s, file2, file1[|file1| - 1], lessEqual, readId, fivePrimeEnd)
  }

  /**
   * What the join keeps true: the storage holds the first 5' end of every id
   * among the file-2 reads passed, which are the counted ones (the held read
   * is not counted); at most every offered file-1 read was counted, each
   * written read was counted as matching, and each still matches, since
   * stored ends are never overwritten.
   */
  ghost predicate Inv(s: Join, file1: seq<Record>, file2: seq<Record>, readId: Record -> string, fivePrimeEnd: Record -> int)
  {
    s.current <= |file2| &&
    s.tempIdStorage == FirstIds(file2[..s.current], readId, fivePrimeEnd) &&
    s.stats.readsFile2 == s.current &&
    s.stats.matchingReads == |s.written| <= s.stats.readsFile1 <= |file1| &&
    (forall i :: 0 <= i < |s.written| ==> Matches(s.tempIdStorage, s.written[i], readId, fivePrimeEnd))
  }

  /** A stored id keeps its end as more file-2 reads are stored. */
  lemma {:induction false} FirstIdsGrow(rs: seq<Record>, n: nat, readId: Record -> string, fivePrimeEnd: Record -> int)
    requires n <= |rs|
    ensures forall id :: id in FirstIds(rs[..n], readId, fivePrimeEnd) ==>
      id in FirstIds(rs, readId, fivePrimeEnd) && FirstIds(rs, readId, fivePrimeEnd)[id] == FirstIds(rs[..n], readId, fivePrimeEnd)[id]
    decreases |rs| - n
  {
    if n < |rs| {
      assert rs[..n + 1][..n] == rs[..n];
      FirstIdsGrow(rs, n + 1, readId, fivePrimeEnd);
    } else {
      assert rs[..n] == rs;
    }
  }

  /** One outer pass keeps the invariant; the read is written exactly when it matches. */
  lemma StepInv(s: Join, file1: seq<Record>, file2: seq<Record>, record1: Record,
                lessEqual: (Record, Record) -> bool, readId: Record -> string, fivePrimeEnd: Record -> int)
    requires Inv(s, file1, file2, readId, fivePrimeEnd) && s.stats.readsFile1 < |file1|
    ensures Inv(Step(s, file2, record1, lessEqual, readId, fivePrimeEnd), file1, file2, readId, fivePrimeEnd)
    ensures var t := Step(s, file2, record1, lessEqual, readId, fivePrimeEnd);
      t.stats.readsFile1 == s.stats.readsFile1 + 1 &&
      (t.written == s.written + [record1] <==> Matches(t.tempIdStorage, record1, readId, fivePrimeEnd)) &&
      (t.written == s.written <==> !Matches(t.tempIdStorage, record1, readId, fivePrimeEnd))
  {
    var p := Pulled(s.current, s.tempIdStorage, s.stats.readsFile2);
    PullStores(file2, p, record1, lessEqual, readId, fivePrimeEnd);
    var q := Pull(file2, p, record1, lessEqual, readId, fivePrimeEnd);
    FirstIdsGrow(file2[..q.current], s.current, readId, fivePrimeEnd);
    assert file2[..q.current][..s.current] == file2[..s.current];
  }

  /**
   * After all of file 1: the invariant holds, and the join ended because
   * file 1 or file 2 reached its end.
   */
  lemma {:induction false} JoinAllInv(file1: seq<Record>, file2: seq<Record>, lessEqual: (Record, Record) -> bool,
                                      readId: Record -> string, fivePrimeEnd: Record -> int)
    ensures var s := JoinAll(file1, file2, lessEqual, readId, fivePrimeEnd);
      Inv(s, file1, file2, readId, fivePrimeEnd) && (s.stats.readsFile1 == |file1| || AtEnd2(s, file2))
  {
    if file1 == [] {
      assert file2[..0] == [];
    } else {
      var n := |file1| - 1;
      JoinAllInv(file1[..n], file2, lessEqual, readId, fivePrimeEnd);
      var s := JoinAll(file1[..n], file2, lessEqual, readId, fivePrimeEnd);
      if !AtEnd2(s, file2) {
        StepInv(s, file1, file2, file1[n], lessEqual, readId, fivePrimeEnd);
      }
    }
  }

  /** The inner loop (MappingAnalyzer.cpp, `while (!atEnd(bamFileIn2) && lessEqualWithoutStrand(...))`). */
  method PullReads(file2: seq<Record>, current0: nat, storage0: map<string, uint32>, readsFile20: nat,
                   record1: Record, lessEqual: (Record, Record) -> bool, fivePrimeEnd: Record -> int)
    returns (current: nat, tempIdStorage: map<string, uint32>, readsFile2: nat)
    ensures Pulled(current, tempIdStorage, readsFile2) ==
      Pull(file2, Pulled(current0, storage0, readsFile20), record1, lessEqual, ReadIdOf, fivePrimeEnd)
  {
    current, tempIdStorage, readsFile2 := current0, storage0, readsFile20;
    while current + 1 < |file2| && lessEqual(file2[current], record1)
      invariant Pull(file2, Pulled(current, tempIdStorage, readsFile2), record1, lessEqual, ReadIdOf, fivePrimeEnd) ==
        Pull(file2, Pulled(current0, storage0, readsFile20), record1, lessEqual, ReadIdOf, fivePrimeEnd)
      decreases |file2| - current
    {
      var id := ReadIdOf(file2[current]);
      if id !in tempIdStorage {
        tempIdStorage := tempIdStorage[id := U32(fivePrimeEnd(file2[current]))];
      }
      current := current + 1;
      readsFile2 := readsFile2 + 1;
    }
  }

  /** The join loop over both files (MappingAnalyzer.cpp, from the priming read to the end of the outer loop). */
  method JoinFiles(file1: seq<Record>, file2: seq<Record>, lessEqual: (Record, Record) -> bool,
                   fivePrimeEnd: Record -> int) returns (stats: Statistics, written: seq<Record>)
    ensures var s := JoinAll(file1, file2, lessEqual, ReadIdOf, fivePrimeEnd);
      stats == s.stats && written == s.written
  {
    var current: nat := 0;
    var tempIdStorage: map<string, uint32> := map[];
    stats, written := NO_READS, [];
    var i := 0;
    while i < |file1| && current + 1 < |file2|
      invariant i <= |file1|
      invariant JoinAll(file1[..i], file2, lessEqual, ReadIdOf, fivePrimeEnd) == Join(current, tempIdStorage, stats, written)
    {
      var record1 := file1[i];
      assert file1[..i + 1][..i] == file1[..i];
      i := i + 1;
      stats := stats.(readsFile1 := stats.readsFile1 + 1);
      var readsFile2;
      current, tempIdStorage, readsFile2 := PullReads(file2, current, tempIdStorage, stats.readsFile2, record1, lessEqual, fivePrimeEnd);
      stats := stats.(readsFile2 := readsFile2);
      var record1ReadId := ReadIdOf(record1);
      if record1ReadId in tempIdStorage && tempIdStorage[record1ReadId] == U32(fivePrimeEnd(record1)) {
        written := written + [record1];
        stats := stats.(matchingReads := stats.matchingReads + 1);
      }
    }
    JoinStopped(file1, file2, i, lessEqual, ReadIdOf, fivePrimeEnd);
  }

  /** Once file 2 is at its end, further file-1 reads change nothing. */
  lemma {:induction false} JoinStopped(file1: seq<Record>, file2: seq<Record>, i: nat,
                                       lessEqual: (Record, Record) -> bool, readId: Record -> string, fivePrimeEnd: Record -> int)
    requires i <= |file1|
    requires i == |file1| || AtEnd2(JoinAll(file1[..i], file2, lessEqual, readId, fivePrimeEnd), file2)
    ensures JoinAll(file1, file2, lessEqual, readId, fivePrimeEnd) == JoinAll(file1[..i], file2, lessEqual, readId, fivePrimeEnd)
  {
    if i < |file1| {
      var n := |file1| - 1;
      assert file1[..n][..i] == file1[..i];
      JoinStopped(file1[..n], file2, i, lessEqual, readId, fivePrimeEnd);
    } else {
      assert file1[..i] == file1;
    }
  }
}
