/**
 * `choose_entry_from_smallest_index` (bib-merger.py:184-196), the tie-break of the
 * non-interactive mode. Its key function reads the "file index" from the entry's own
 * BibTeX key: the second-to-last `_`-separated part, parsed with `int()`; a key without
 * `_` counts as infinitely large. `min` keeps the first of several smallest entries.
 */
module TieBreak {
  import opened Outcomes
  import opened Text
  import opened Records

  /** An integer, or `float('inf')`. */
  datatype FileIndex = Finite(n: int) | Infinity

  /** Python's `a < b` between ints and infinity. */
  predicate Below(a: FileIndex, b: FileIndex) {
    a.Finite? && (b.Infinity? || a.n < b.n)
  }

  /** `get_file_index` (lines 187-193) on an entry with key `key`. */
  function FileIndexOf(key: string): (r: Result<FileIndex>)
    ensures r.Err? ==> r.error == ValueError
  {
    var parts := Split(key, '_');
    if |parts| >= 2 then
      match ParseInt(parts[|parts| - 2])
      case Some(v) => Ok(Finite(v))
      case None => Err(ValueError)
    else Ok(Infinity)
  }

  /** A key counts as infinitely large exactly when it holds no underscore. */
  lemma InfinityIffNoUnderscore(key: string)
    ensures FileIndexOf(key) == Ok(Infinity) <==> '_' !in key
  {
    if '_' in key {
      var i := IndexOf(key, '_');
      assert |Split(key, '_')| == 1 + |Split(key[i + 1..], '_')| >= 2;
    }
  }

  lemma Regroup<T>(x: seq<T>, d: seq<T>, y: seq<T>, c: T)
    ensures x + [c] + d + [c] + y == x + [c] + (d + [c] + y)
  {
  }

  /** The key `x_<n>_y` of an entry is read as file index `n` whenever `y` has no underscore. */
  lemma FileIndexOfKey(x: string, n: nat, y: string)
    requires '_' !in y
    ensures FileIndexOf(x + "_" + NatToString(n) + "_" + y) == Ok(Finite(n))
  {
    var d := NatToString(n);
    var key := x + "_" + d + "_" + y;
    assert Split(key, '_') == Split(x, '_') + [d, y] by {
      assert '_' !in d by {
        forall k | 0 <= k < |d| ensures d[k] != '_' { assert IsDigit(d[k]); }
      }
      Regroup(x, d, y, '_');
      SplitConcat(x, '_', d + ['_'] + y);
      SplitCons(d, '_', y);
    }
    SecondToLast(Split(x, '_'), d, y);
    ParseIntNatToString(n);
    FileIndexOfParsed(key, n);
  }

  lemma SecondToLast<T>(a: seq<T>, d: T, y: T)
    ensures |a + [d, y]| >= 2 && (a + [d, y])[|a + [d, y]| - 2] == d
  {
  }

  /** A key whose second-to-last piece parses as `n` has file index `n`. */
  lemma FileIndexOfParsed(key: string, n: int)
    requires var parts := Split(key, '_'); |parts| >= 2 && ParseInt(parts[|parts| - 2]) == Some(n)
    ensures FileIndexOf(key) == Ok(Finite(n))
  {
  }

  /** The indices of the keys of `entries`, or `ValueError` if one does not parse. */
  function KeyIndices(entries: seq<Entry>): (r: Result<seq<FileIndex>>)
    ensures r.Ok? <==> forall q | 0 <= q < |entries| :: FileIndexOf(entries[q].key).Ok?
    ensures r.Ok? ==> |r.value| == |entries|
    ensures r.Ok? ==> forall q | 0 <= q < |entries| :: r.value[q] == FileIndexOf(entries[q].key).value
    ensures r.Err? ==> r.error == ValueError
  {
    if entries == [] then Ok([])
    else
      var n := |entries| - 1;
      assert forall q | 0 <= q < n :: entries[..n][q] == entries[q];
      match KeyIndices(entries[..n])
      case Err(e) => Err(e)
      case Ok(ix) =>
        match FileIndexOf(entries[n].key)
        case Err(e) => Err(e)
        case Ok(v) => Ok(ix + [v])
  }

  /** The position of the first smallest index: what `min` keeps (it replaces only on `<`). */
  function SmallestPosition(ix: seq<FileIndex>): (p: nat)
    requires |ix| > 0
    ensures p < |ix|
    ensures forall q | 0 <= q < |ix| :: !Below(ix[q], ix[p])
    ensures forall q | 0 <= q < p :: Below(ix[p], ix[q])
  {
    var n := |ix| - 1;
    if n == 0 then 0
    else
      var p := SmallestPosition(ix[..n]);
      if Below(ix[n], ix[p]) then n else p
  }

  /**
   * `min(entries, key=get_file_index)`: the first entry of smallest index, or
   * `ValueError` when the list is empty or some key's index does not parse.
   */
  function ChooseEntryFromSmallestIndex(entries: seq<Entry>): (r: Result<Entry>)
    ensures r.Ok? <==> |entries| > 0 && forall q | 0 <= q < |entries| :: FileIndexOf(entries[q].key).Ok?
    ensures r.Err? ==> r.error == ValueError
    ensures r.Ok? ==> exists p | 0 <= p < |entries| ::
      && entries[p] == r.value
      && (forall q | 0 <= q < |entries| ::
           !Below(FileIndexOf(entries[q].key).value, FileIndexOf(entries[p].key).value))
      && (forall q | 0 <= q < p ::
           Below(FileIndexOf(entries[p].key).value, FileIndexOf(entries[q].key).value))
  {
    if entries == [] then Err(ValueError)
    else
      match KeyIndices(entries)
      case Err(e) => Err(e)
      case Ok(ix) => Ok(entries[SmallestPosition(ix)])
  }

  /** Among entries that all carry one parsable key, the first is chosen. */
  lemma SameKeyChoosesFirst(entries: seq<Entry>)
    requires |entries| > 0 && FileIndexOf(entries[0].key).Ok?
    requires forall q | 0 <= q < |entries| :: entries[q].key == entries[0].key
    ensures ChooseEntryFromSmallestIndex(entries) == Ok(entries[0])
  {
    var ix := KeyIndices(entries).value;
    assert forall q | 0 <= q < |ix| :: ix[q] == ix[0];
    assert !Below(ix[0], ix[0]);
  }
}
