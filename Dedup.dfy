/**
 * The barcode-aware duplicate check shared by nexus-pre and test-app: a
 * `std::set<BamRecordKey<WithBarcode>, CompareBamRecordKey<WithBarcode>>`
 * into which every mapped read's key is inserted.  The barcode comparator is
 * not a strict weak ordering, so the set is modelled by what an insert
 * observes: it fails exactly when a key equivalent to the new one (neither
 * less than the other) was inserted before.
 */
module Dedup {
  import opened Words
  import opened Maybe
  import opened Text
  import opened BamRecordKey

  /** The flag filter of the tools: only flag 0x00 (forward) and 0x10 (reverse) reads count as mapped. */
  predicate IsMapped(r: Record)
  {
    r.flag == 0x00 || r.flag == 0x10
  }

  /** Read names are `std::string`s, shorter than npos. */
  predicate Named(records: seq<Record>)
  {
    forall i :: 0 <= i < |records| ==> |records[i].qName| < NPOS
  }

  /** An XM tag of 0: the aligner found no alignment. */
  predicate Unmappable(r: Record)
  {
    r.xm == Some(0)
  }

  /** An XM tag other than 0: the aligner found several alignments. */
  predicate Ambiguous(r: Record)
  {
    r.xm.Some? && r.xm.value != 0
  }

  /** How many of `records` satisfy `p`. */
  function CountIf(records: seq<Record>, p: Record -> bool): (n: nat)
    ensures n <= |records|
  {
    if records == [] then 0
    else CountIf(records[..|records| - 1], p) + (if p(records[|records| - 1]) then 1 else 0)
  }

  lemma CountIfSnoc(records: seq<Record>, i: nat, p: Record -> bool)
    requires i < |records|
    ensures CountIf(records[..i + 1], p) == CountIf(records[..i], p) + (if p(records[i]) then 1 else 0)
  {
    assert records[..i + 1][..i] == records[..i];
  }

  /** A key equivalent to `key` is already in the set. */
  predicate Seen(keySet: seq<BarcodeKey>, key: BarcodeKey)
  {
    exists i :: 0 <= i < |keySet| && Equivalent(keySet[i], key)
  }

  /** `keySet.insert(key)`: the new set and `insertResult.second`. */
  function Insert(keySet: seq<BarcodeKey>, key: BarcodeKey): (r: (seq<BarcodeKey>, bool))
    ensures r.1 <==> !Seen(keySet, key)
    ensures r.0 == if r.1 then keySet + [key] else keySet
  {
    if Seen(keySet, key) then (keySet, false) else (keySet + [key], true)
  }

  /** Every key of the set has its position among `positions`. */
  predicate PositionsIn(keySet: seq<BarcodeKey>, positions: set<uint64>)
  {
    forall i :: 0 <= i < |keySet| ==> keySet[i].pos in positions
  }

  /** An insert can only fail when a key at the same position was inserted before. */
  lemma SeenAtSamePosition(keySet: seq<BarcodeKey>, key: BarcodeKey, positions: set<uint64>)
    requires PositionsIn(keySet, positions)
    requires !Insert(keySet, key).1
    ensures key.pos in positions
  {
    var i :| 0 <= i < |keySet| && Equivalent(keySet[i], key);
    EquivalentKeys(keySet[i], key);
  }
}
