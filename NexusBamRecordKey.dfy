/**
 * The copy of the key header that nexus-pre carries (nexus-pre/BamRecordKey.h).
 * Packing, comparators and barcode extraction are the same code as the shared
 * header and are reused from module BamRecordKey; what differs is
 * `calculateDistance`, which compares the chromosome word under the mask
 * `0xFFFFFFFF00000000` instead of decoding it with `getRID`.
 */
module NexusBamRecordKey {
  import opened Words
  import opened BamRecordKey

  /** `pos & 0xFFFFFFFF00000000`: the chromosome word, left in place. */
  function HighWord(pos: uint64): uint64
  {
    pos / TWO32 * TWO32
  }

  /** `calculateDistance` of nexus-pre: false on differing masked words, else the difference of the shifted low words. */
  function CalculateDistanceMasked(key1: Key, key2: Key, distance: int32): DistanceResult
  {
    if HighWord(key1.pos) != HighWord(key2.pos) then DistanceResult(false, distance)
    else DistanceResult(true, I32(key2.pos) / 2 - I32(key1.pos) / 2)
  }

  /** The mask clears exactly the low 32 bits. */
  lemma HighWordBits(pos: uint64, pos2: uint64)
    ensures HighWord(pos) % TWO32 == 0 && HighWord(pos) <= pos < HighWord(pos) + TWO32
    ensures HighWord(pos) == HighWord(pos2) <==> pos / TWO32 == pos2 / TWO32
  {
  }

  /**
   * The masked comparison reports the same chromosome iff the high words are
   * equal; otherwise `distance` is left as it was.
   */
  lemma MaskedDistanceSpec(key1: Key, key2: Key, distance: int32)
    ensures CalculateDistanceMasked(key1, key2, distance).sameChromosome <==> key1.pos / TWO32 == key2.pos / TWO32
    ensures !CalculateDistanceMasked(key1, key2, distance).sameChromosome ==>
      CalculateDistanceMasked(key1, key2, distance).distance == distance
  {
    HighWordBits(key1.pos, key2.pos);
  }

  /** `static_cast<int32_t>` is one-to-one on the values an unsigned 32-bit word can hold. */
  lemma I32Injective(x: int, y: int)
    requires 0 <= x < TWO32 && 0 <= y < TWO32
    ensures I32(x) == I32(y) <==> x == y
  {
  }

  /** The mask test decides the same thing as comparing `getRID`, so both headers compute the same distance. */
  lemma MaskedDistanceAgrees(key1: Key, key2: Key, distance: int32)
    ensures CalculateDistanceMasked(key1, key2, distance) == CalculateDistance(key1, key2, distance)
  {
    MaskedDistanceSpec(key1, key2, distance);
    I32Injective(key1.pos / TWO32, key2.pos / TWO32);
  }

  /** The masked distance is zero from a key to itself and changes sign when the keys are swapped. */
  lemma MaskedDistanceAntisymmetric(a: Key, b: Key, d: int32)
    ensures CalculateDistanceMasked(a, a, d) == DistanceResult(true, 0)
    ensures CalculateDistanceMasked(a, b, d).sameChromosome ==>
      CalculateDistanceMasked(b, a, d) == DistanceResult(true, -CalculateDistanceMasked(a, b, d).distance)
  {
  }
}
