/**
 * The read-position key shared by all tools (shared_headers/BamRecordKey.h;
 * nexus-pre/BamRecordKey.h packs, compares and extracts barcodes with the
 * same code).  A key packs chromosome id, 5' coordinate and strand of an
 * aligned read into one 64-bit word:
 *
 *     pos = uint64(rID) << 32 | uint64(beginPos + (reverse ? length(seq) : 0)) << 1 | reverse
 *
 * and the key with barcode adds the text that follows "TL:" in the read name.
 */
module BamRecordKey {
  import opened Words
  import opened Maybe
  import opened Text

  /** The fields of a SAM/BAM alignment record that the tools read. */
  datatype Record = Record(
    rID: int32,          // reference (chromosome) id, -1 when unmapped
    beginPos: int32,     // 0-based leftmost coordinate
    flag: uint16,        // SAM flag
    seqLen: nat,         // length(record.seq)
    qName: string,       // read name
    xm: Option<int32>)   // value of the XM tag, when the record has one

  /** `isRev`: `(flag & 0x10) != 0`. */
  predicate IsRev(r: Record)
  {
    (r.flag / 0x10) % 2 == 1
  }

  /** The coordinate that the key stores: the 5' end of the read. */
  function FivePrime(r: Record): int
  {
    r.beginPos + (if IsRev(r) then r.seqLen else 0)
  }

  /** `BamRecordKey<NoBarcode>`: only the packed word. */
  datatype Key = Key(pos: uint64)

  /** `BamRecordKey<WithBarcode>`: the packed word and the barcode. */
  datatype BarcodeKey = BarcodeKey(pos: uint64, barcode: string)

  /** The constructor `BamRecordKey(const BamAlignmentRecord&)`, with the C++ casts spelled out. */
  function KeyOf(r: Record): Key
  {
    var chromosome := (U64(r.rID) * TWO32) % TWO64;
    var coordinate := (U64(FivePrime(r)) * 2) % TWO64;
    Key(Or64(Or64(chromosome, coordinate), if IsRev(r) then 1 else 0))
  }

  /** `getRID`: `static_cast<int32_t>(pos >> 32)`. */
  function GetRID(k: Key): int32
  {
    I32(k.pos / TWO32)
  }

  /** `getPosition`: `static_cast<int32_t>(pos) >> 1` (an arithmetic shift, i.e. floor division). */
  function GetPosition(k: Key): int32
  {
    I32(k.pos) / 2
  }

  /** `isReverseStrand`: `(pos & 0x01) != 0`. */
  predicate IsReverseStrand(k: Key)
  {
    k.pos % 2 == 1
  }

  /** Chromosome ids and 5' coordinates within these bounds survive the packing. */
  ghost predicate InKeyRange(r: Record)
  {
    0 <= r.rID && 0 <= FivePrime(r) < 0x4000_0000
  }

  /** Packing three fields whose bits do not overlap is adding them. */
  lemma Pack(rid: nat, p: nat, rev: nat)
    requires rid < TWO31 && p < 0x4000_0000 && rev < 2
    ensures Or64(Or64(rid * TWO32, 2 * p), rev) == rid * TWO32 + 2 * p + rev
  {
    Pow2Of32();
    BitOrDisjoint(rid, 2 * p, 32);
    var inner := rid * TWO32 + 2 * p;
    assert inner == 2 * (rid * TWO31 + p);
  }

  /** Inside the bounds the key is the plain sum of its three fields. */
  lemma KeyValue(r: Record)
    requires InKeyRange(r)
    ensures KeyOf(r).pos == r.rID * TWO32 + 2 * FivePrime(r) + (if IsRev(r) then 1 else 0)
  {
    var p := FivePrime(r);
    assert (U64(r.rID) * TWO32) % TWO64 == r.rID * TWO32;
    assert (U64(p) * 2) % TWO64 == 2 * p;
    Pack(r.rID, p, if IsRev(r) then 1 else 0);
  }

  /** The decoders undo `Pack`. */
  lemma Unpack(rid: nat, p: nat, rev: nat)
    requires rid < TWO31 && p < 0x4000_0000 && rev < 2
    ensures GetRID(Key(rid * TWO32 + 2 * p + rev)) == rid
    ensures GetPosition(Key(rid * TWO32 + 2 * p + rev)) == p
    ensures IsReverseStrand(Key(rid * TWO32 + 2 * p + rev)) <==> rev == 1
  {
    var low := 2 * p + rev;
    var pos := rid * TWO32 + low;
    Split32(rid, low);
    assert I32(pos) == low;
    assert pos == 2 * (rid * TWO31 + p) + rev;
  }

  /** Decoding a key gives back the chromosome, the 5' coordinate and the strand. */
  lemma KeyRoundTrip(r: Record)
    requires InKeyRange(r)
    ensures GetRID(KeyOf(r)) == r.rID
    ensures GetPosition(KeyOf(r)) == FivePrime(r)
    ensures IsReverseStrand(KeyOf(r)) == IsRev(r)
  {
    KeyValue(r);
    Unpack(r.rID, FivePrime(r), if IsRev(r) then 1 else 0);
  }

  /** Reverse reads are keyed at their right end, forward reads at their left end. */
  lemma KeyedAtFivePrime(r: Record)
    requires InKeyRange(r)
    ensures IsReverseStrand(KeyOf(r)) <==> r.flag / 0x10 % 2 == 1
    ensures GetPosition(KeyOf(r)) == if IsRev(r) then r.beginPos + r.seqLen else r.beginPos
  {
    KeyRoundTrip(r);
  }

  /** `CompareBamRecordKey<NoBarcode>`: strict `<` on the packed word. */
  predicate LessByPosition(a: Key, b: Key)
  {
    a.pos < b.pos
  }

  /** Within the bounds, the word order is the lexicographic order on (chromosome, coordinate, strand). */
  lemma PositionOrderIsLexicographic(r1: Record, r2: Record)
    requires InKeyRange(r1) && InKeyRange(r2)
    ensures LessByPosition(KeyOf(r1), KeyOf(r2)) <==>
      r1.rID < r2.rID
      || (r1.rID == r2.rID && FivePrime(r1) < FivePrime(r2))
      || (r1.rID == r2.rID && FivePrime(r1) == FivePrime(r2) && !IsRev(r1) && IsRev(r2))
  {
    KeyValue(r1);
    KeyValue(r2);
  }

  /** `operator<` on `std::string`: lexicographic, a proper prefix first. */
  predicate StringLess(a: string, b: string)
  {
    if b == [] then false
    else if a == [] then true
    else if a[0] != b[0] then a[0] < b[0]
    else StringLess(a[1..], b[1..])
  }

  lemma {:induction false} StringLessIrreflexive(a: string)
    ensures !StringLess(a, a)
  {
    if a != [] {
      StringLessIrreflexive(a[1..]);
    }
  }

  lemma {:induction false} StringLessTransitive(a: string, b: string, c: string)
    requires StringLess(a, b) && StringLess(b, c)
    ensures StringLess(a, c)
  {
    if a != [] && a[0] == b[0] && b[0] == c[0] {
      StringLessTransitive(a[1..], b[1..], c[1..]);
    }
  }

  lemma {:induction false} StringLessTotal(a: string, b: string)
    requires a != b
    ensures StringLess(a, b) || StringLess(b, a)
  {
    if a != [] && b != [] && a[0] == b[0] {
      assert a == [a[0]] + a[1..] && b == [b[0]] + b[1..];
      StringLessTotal(a[1..], b[1..]);
    }
  }

  /**
   * `CompareBamRecordKey<WithBarcode>`: by position first; at equal positions
   * by barcode, but only when both barcodes are non-empty and differ.
   */
  predicate LessWithBarcode(a: BarcodeKey, b: BarcodeKey)
  {
    if a.pos != b.pos then a.pos < b.pos
    else if a.barcode != [] && b.barcode != [] && a.barcode != b.barcode then StringLess(a.barcode, b.barcode)
    else false
  }

  /** The equivalence `std::set` derives from the comparator: neither key is less. */
  predicate Equivalent(a: BarcodeKey, b: BarcodeKey)
  {
    !LessWithBarcode(a, b) && !LessWithBarcode(b, a)
  }

  /** Equivalent keys share a position; at one position an empty barcode is equivalent to every barcode. */
  lemma EquivalentKeys(a: BarcodeKey, b: BarcodeKey)
    ensures Equivalent(a, b) ==> a.pos == b.pos
    ensures Equivalent(a, b) <==> a.pos == b.pos && (a.barcode == [] || b.barcode == [] || a.barcode == b.barcode)
  {
    if a.pos == b.pos && a.barcode != [] && b.barcode != [] && a.barcode != b.barcode {
      StringLessTotal(a.barcode, b.barcode);
    }
  }

  /** The barcode comparator is a strict partial order: irreflexive and transitive. */
  lemma BarcodeOrderIsStrict(a: BarcodeKey, b: BarcodeKey, c: BarcodeKey)
    ensures !LessWithBarcode(a, a)
    ensures LessWithBarcode(a, b) && LessWithBarcode(b, c) ==> LessWithBarcode(a, c)
  {
    if LessWithBarcode(a, b) && LessWithBarcode(b, c) && a.pos == b.pos && b.pos == c.pos {
      StringLessTransitive(a.barcode, b.barcode, c.barcode);
      if a.barcode == c.barcode {
        StringLessTransitive(b.barcode, c.barcode, b.barcode);
        StringLessIrreflexive(b.barcode);
      }
    }
  }

  /**
   * ... but not a strict weak order: its equivalence is not transitive.  The
   * empty barcode is equivalent to any two barcodes at its position, which
   * are themselves ordered.
   */
  lemma EquivalenceNotTransitive(p: uint64, x: string, y: string)
    requires x != [] && y != [] && StringLess(x, y)
    ensures Equivalent(BarcodeKey(p, []), BarcodeKey(p, x))
    ensures Equivalent(BarcodeKey(p, []), BarcodeKey(p, y))
    ensures !Equivalent(BarcodeKey(p, x), BarcodeKey(p, y))
  {
    StringLessIrreflexive(x);
  }

  /** The text from `start` up to the next ':' or the end of `s`. */
  function FieldAt(s: string, start: nat): (f: string)
    requires start <= |s|
    ensures start + |f| <= |s| && s[start..start + |f|] == f
    ensures ':' !in f
    ensures start + |f| == |s| || s[start + |f|] == ':'
  {
    match FindChar(s, ':', start)
    case Some(j) => s[start..j]
    case None => s[start..]
  }

  /**
   * `posStart = qName.find("TL:") + 3`, computed in `size_t`: a missing "TL:"
   * (npos) wraps round to 2.
   */
  function BarcodeStart(qName: string): (p: uint64)
    ensures FindText(qName, "TL:", 0).None? ==> p == 2
    ensures |qName| < NPOS && FindText(qName, "TL:", 0).Some? ==> p == FindText(qName, "TL:", 0).value + 3
  {
    var found: uint64 := match FindText(qName, "TL:", 0) case Some(i) => U64(i) case None => NPOS;
    U64(found + 3)
  }

  /**
   * The rest of the constructor: an empty barcode when `posStart` is npos,
   * otherwise `substr(posStart, posEnd - posStart)` with `posEnd` the next ':'
   * (or the end).  `substr` throws when `posStart` is past the end: None.
   */
  function BarcodeFrom(qName: string, posStart: uint64): (r: Option<string>)
    requires |qName| < NPOS
    ensures posStart == NPOS ==> r == Some([])
    ensures posStart != NPOS && posStart <= |qName| ==> r == Some(FieldAt(qName, posStart))
    ensures posStart != NPOS && posStart > |qName| ==> r == None
  {
    if posStart == NPOS then Some([])
    else
      var posEnd := if posStart > |qName| then |qName| else
        match FindChar(qName, ':', posStart) case Some(j) => j case None => |qName|;
      Substr(qName, posStart, U64(posEnd - posStart))
  }

  /**
   * The barcode constructor of `BamRecordKey<WithBarcode>` on a read name (a
   * `std::string`, so shorter than npos).  Because of the wrap in
   * `BarcodeStart` the npos guard never fires.
   */
  function ExtractBarcode(qName: string): Option<string>
    requires |qName| < NPOS
  {
    BarcodeFrom(qName, BarcodeStart(qName))
  }

  /** With "TL:" first at index i, the barcode is the text from i+3 up to the next ':' or the end. */
  lemma BarcodeAfterTag(qName: string, i: nat)
    requires |qName| < NPOS
    requires FindText(qName, "TL:", 0) == Some(i)
    ensures ExtractBarcode(qName) == Some(FieldAt(qName, i + 3))
  {
  }

  /**
   * Without "TL:" the barcode runs from index 2 to the first ':' after it, and
   * a name shorter than 2 makes the constructor throw.
   */
  lemma BarcodeWithoutTag(qName: string)
    requires |qName| < NPOS
    requires FindText(qName, "TL:", 0).None?
    ensures ExtractBarcode(qName) == if |qName| >= 2 then Some(FieldAt(qName, 2)) else None
  {
  }

  /** `BamRecordKey<WithBarcode>(record)`: the packed word and the barcode, or None where the constructor throws. */
  function BarcodeKeyOf(r: Record): (k: Option<BarcodeKey>)
    requires |r.qName| < NPOS
    ensures k.Some? ==> k.value.pos == KeyOf(r).pos
  {
    match ExtractBarcode(r.qName)
    case Some(b) => Some(BarcodeKey(KeyOf(r).pos, b))
    case None => None
  }

  /** The result of `calculateDistance`: its return value and the `distance` out-parameter. */
  datatype DistanceResult = DistanceResult(sameChromosome: bool, distance: int32)

  /** `calculateDistance` of shared_headers: compares `getRID`, else leaves `distance` as it was. */
  function CalculateDistance(key1: Key, key2: Key, distance: int32): (r: DistanceResult)
    ensures r.sameChromosome <==> GetRID(key1) == GetRID(key2)
    ensures !r.sameChromosome ==> r.distance == distance
  {
    if GetRID(key1) != GetRID(key2) then DistanceResult(false, distance)
    else DistanceResult(true, GetPosition(key2) - GetPosition(key1))
  }

  /** The distance of a key to itself is 0, and swapping the keys negates it. */
  lemma DistanceAntisymmetric(a: Key, b: Key, d: int32)
    ensures CalculateDistance(a, a, d) == DistanceResult(true, 0)
    ensures CalculateDistance(a, b, d).sameChromosome ==>
      CalculateDistance(b, a, d).distance == -CalculateDistance(a, b, d).distance
  {
  }

  /** For reads inside the key bounds the distance is the difference of their 5' coordinates. */
  lemma DistanceOfReads(r1: Record, r2: Record, d: int32)
    requires InKeyRange(r1) && InKeyRange(r2)
    ensures CalculateDistance(KeyOf(r1), KeyOf(r2), d) ==
      if r1.rID == r2.rID then DistanceResult(true, FivePrime(r2) - FivePrime(r1))
      else DistanceResult(false, d)
  {
    KeyRoundTrip(r1);
    KeyRoundTrip(r2);
  }
}
