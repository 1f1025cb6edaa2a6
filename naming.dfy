/**
 * The on-disk and catalog name of a partition, `fileName + ".part" + n`,
 * and the two ways the coordinator takes such a name apart:
 * `key.split("\\.part")[1]` parsed as the partition index and
 * `key.split("\\.part")[0]` as the file name.
 */
module Naming {
  import opened Wrappers
  import opened JavaStrings

  const PART_MARKER: string := ".part"

  /** The name every storage command and the upload derive for partition `n` of `fileName`. */
  function PartitionFileName(fileName: string, n: int): (r: string)
    ensures |r| == |fileName| + 5 + |IntToString(n)|
  {
    fileName + PART_MARKER + IntToString(n)
  }

  /** The '.' that opens the marker is the last '.' of a partition name. */
  lemma LastDot(fileName: string, n: int)
    ensures var s := PartitionFileName(fileName, n);
      s[|fileName|] == '.' && forall j :: |fileName| < j < |s| ==> s[j] != '.'
  {
    var s := PartitionFileName(fileName, n);
    var digits := IntToString(n);
    forall j | |fileName| < j < |s| ensures s[j] != '.' {
      if j < |fileName| + 5 {
        assert s[j] == PART_MARKER[j - |fileName|];
      } else {
        assert s[j] == digits[j - |fileName| - 5];
      }
    }
  }

  /** Distinct (file, partition) pairs have distinct names, whatever the file names hold. */
  lemma PartitionFileNameInjective(f: string, m: int, g: string, n: int)
    requires PartitionFileName(f, m) == PartitionFileName(g, n)
    ensures f == g && m == n
  {
    var s := PartitionFileName(f, m);
    LastDot(f, m);
    LastDot(g, n);
    assert |f| == |g|;
    assert f == s[..|f|] == g;
    assert IntToString(m) == s[|f| + 5..] == IntToString(n);
    IntToStringInjective(m, n);
  }

  /**
   * `Integer.parseInt(key.split("\\.part")[1])`: None where Java throws,
   * because the split has fewer than two pieces or the piece is not a number.
   */
  function PartIndexOf(key: string): Option<int> {
    var pieces := Split(key, PART_MARKER);
    if |pieces| < 2 then None else ParseInt(pieces[1])
  }

  /**
   * The file name the list command shows for a catalog key: the piece before
   * the first ".part", or the key itself when it has none. None where
   * `split(...)[0]` throws, for a key made only of markers.
   */
  function FilePrefix(key: string): Option<string> {
    if Contains(key, PART_MARKER) then
      var pieces := Split(key, PART_MARKER);
      if |pieces| == 0 then None else Some(pieces[0])
    else Some(key)
  }

  lemma DigitsHoldNoMarker(n: int)
    ensures !Contains(IntToString(n), PART_MARKER)
  {
    var digits := IntToString(n);
    forall i | 0 <= i <= |digits| ensures !OccursAt(digits, PART_MARKER, i) {
      assert i < |digits| ==> digits[i] != PART_MARKER[0];
    }
  }

  /** A partition name of a file without ".part" splits into the file name and the index text. */
  lemma SplitPartitionFileName(fileName: string, n: int)
    requires !Contains(fileName, PART_MARKER)
    ensures Split(PartitionFileName(fileName, n), PART_MARKER) == [fileName, IntToString(n)]
  {
    assert PART_MARKER[0] !in PART_MARKER[1..];
    SplitAllAtFirst(fileName, IntToString(n), PART_MARKER);
    DigitsHoldNoMarker(n);
    SplitAllNone(IntToString(n), PART_MARKER);
  }

  /**
   * The coordinator recovers both the file name and the 32-bit index from a
   * partition name, provided the file name does not itself hold ".part".
   */
  lemma PartitionNameRoundTrip(fileName: string, n: int)
    requires !Contains(fileName, PART_MARKER) && InInt32(n)
    ensures PartIndexOf(PartitionFileName(fileName, n)) == Some(n)
    ensures FilePrefix(PartitionFileName(fileName, n)) == Some(fileName)
  {
    var key := PartitionFileName(fileName, n);
    SplitPartitionFileName(fileName, n);
    ParseIntOfIntToString(n);
    assert OccursAt(key, PART_MARKER, |fileName|);
  }
}
