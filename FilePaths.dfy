/**
 * `getFilePath` and `getFilePrefix`, which every tool carries in an identical
 * copy (nexus-pre, test-app, ting, 5PrimeEndCounter, MappingAnalyzer).
 */
module FilePaths {
  import opened Words
  import opened Maybe
  import opened Text

  /** The separators `find_last_of("/\\")` looks for. */
  const SEPARATORS: set<char> := {'/', '\\'}

  /** `getFilePath`: the directory part, without the last separator; empty when there is none or it is the first character. */
  function GetFilePath(fileName: string): (r: string)
    ensures |r| < |fileName| || r == []
  {
    match FindLastOf(fileName, SEPARATORS)
    case None => []
    case Some(found) => if found < 1 then [] else fileName[..found]
  }

  /**
   * `getFilePrefix(fileName, withPath)`: empty without a '.'; otherwise the
   * text before the last '.', or, when `withPath` is false and the name has a
   * separator, `substr(sep + 1, dot - sep)` with the length computed in
   * `size_t`.
   */
  function GetFilePrefix(fileName: string, withPath: bool): (r: string)
    ensures |r| <= |fileName|
  {
    var found := FindLastOf(fileName, {'.'});
    var found2 := if !withPath then FindLastOf(fileName, SEPARATORS) else None;
    match found
    case None => []
    case Some(dot) =>
      match found2
      case None => fileName[..dot]
      case Some(sep) => Substr(fileName, sep + 1, U64(dot - sep)).value
  }

  /**
   * The path is empty exactly when no separator follows the first character;
   * otherwise it is the name up to its last separator, which no later
   * separator follows.
   */
  lemma FilePathSplits(fileName: string)
    ensures GetFilePath(fileName) == [] <==> forall j :: 1 <= j < |fileName| ==> fileName[j] !in SEPARATORS
    ensures var r := GetFilePath(fileName);
      r != [] ==>
        fileName[..|r|] == r && fileName[|r|] in SEPARATORS &&
        forall j :: |r| < j < |fileName| ==> fileName[j] !in SEPARATORS
  {
  }

  /**
   * With the default `withPath`, the prefix is empty when the name has no '.',
   * and is otherwise the name with its last '.' and all that follows removed.
   */
  lemma PrefixDropsExtension(fileName: string)
    ensures FindLastOf(fileName, {'.'}).None? ==> GetFilePrefix(fileName, true) == []
    ensures var r := GetFilePrefix(fileName, true);
      FindLastOf(fileName, {'.'}).Some? ==>
        |r| < |fileName| && fileName[..|r|] == r && fileName[|r|] == '.' &&
        forall j :: |r| < j < |fileName| ==> fileName[j] != '.'
  {
  }

  /**
   * Without the path: after the last separator up to and including the last
   * '.', which is kept; when the last separator comes after the last '.', the
   * wrapped length runs to the end of the name.  Without a separator the
   * result is the one with the path.
   */
  lemma PrefixWithoutPath(fileName: string, dot: nat, sep: nat)
    requires |fileName| < TWO63
    requires FindLastOf(fileName, {'.'}) == Some(dot) && FindLastOf(fileName, SEPARATORS) == Some(sep)
    ensures sep < dot ==> GetFilePrefix(fileName, false) == fileName[sep + 1..dot + 1]
    ensures dot < sep ==> GetFilePrefix(fileName, false) == fileName[sep + 1..]
  {
    var count := U64(dot - sep);
    PrefixIsSubstr(fileName, dot, sep);
    var r := Substr(fileName, sep + 1, count);
    if sep < dot {
      assert count == dot - sep;
      assert r.value == fileName[sep + 1..dot + 1];
    } else if dot < sep {
      assert count == dot - sep + TWO64;
      assert r.value == fileName[sep + 1..];
    }
  }

  lemma PrefixIsSubstr(fileName: string, dot: nat, sep: nat)
    requires FindLastOf(fileName, {'.'}) == Some(dot) && FindLastOf(fileName, SEPARATORS) == Some(sep)
    ensures GetFilePrefix(fileName, false) == Substr(fileName, sep + 1, U64(dot - sep)).value
  {
    assert sep + 1 <= |fileName|;
    var r := Substr(fileName, sep + 1, U64(dot - sep));
    assert r.Some?;
    assert GetFilePrefix(fileName, false) == r.value;
  }

  lemma PrefixWithoutSeparator(fileName: string)
    requires FindLastOf(fileName, SEPARATORS).None?
    ensures GetFilePrefix(fileName, false) == GetFilePrefix(fileName, true)
  {
  }
}
