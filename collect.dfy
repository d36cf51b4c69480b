/**
 * The ingestion loop of `merge_bib_files` (bib-merger.py:275-296): every input file is
 * parsed in turn, its entries join the global entry list in table order, and a map from
 * lower-cased title to the keys carrying it is built per file.
 *
 * The source keys the global list by `f"{key}_{file_count}_{input_file}"`. Those keys
 * can collide (see `UniqueKeyCollision`), so that a later entry silently replaces an
 * earlier one; the rest of the model uses the evidently intended list, in which every
 * parsed entry is kept: the concatenation of the files' tables.
 */
module Collect {
  import opened Outcomes
  import opened Text
  import opened Dicts
  import opened Records

  /** One input file: its name and the matches of the entry pattern in its text. */
  datatype InputFile = InputFile(name: string, matches: seq<Match>)

  /** `parse_bib_file(input_file)` */
  function ParsedTable(file: InputFile): Dict<string, Entry> {
    EntryTable(file.matches, file.name)
  }

  /** The (lower-cased title, key) pairs of the titled entries of a table, in table order. */
  function TitledKeys(entries: Dict<string, Entry>): (ps: seq<(string, string)>)
    ensures |ps| <= |entries|
  {
    if entries == [] then []
    else
      var n := |entries| - 1;
      var t := NormTitle(entries[n].1);
      if t.Some? then TitledKeys(entries[..n]) + [(t.value, entries[n].0)] else TitledKeys(entries[..n])
  }

  /** `titles_to_keys` for one file (lines 286-289). */
  function TitleIndex(entries: Dict<string, Entry>): Dict<string, seq<string>> {
    GroupBy(TitledKeys(entries))
  }

  /** `list(entries.values())` of every table, one table after the other. */
  function Flatten(tables: seq<Dict<string, Entry>>): seq<Entry> {
    if tables == [] then [] else Flatten(tables[..|tables| - 1]) + ValuesOf(tables[|tables| - 1])
  }

  /** `parse_bib_file` on every input file in turn (line 282). */
  method ParseFiles(files: seq<InputFile>) returns (tables: seq<Dict<string, Entry>>)
    ensures tables == MapSeq(files, ParsedTable)
  {
    tables := [];
    for f := 0 to |files|
      invariant tables == MapSeq(files[..f], ParsedTable)
    {
      var entries := ParseEntries(files[f].matches, files[f].name);
      assert files[..f + 1][..f] == files[..f];
      tables := tables + [entries];
    }
    assert files[..|files|] == files;
  }

  /** One file's title index after `d[k].append(v)` for the items up to position `j`. */
  lemma TitleIndexSnoc(entries: Dict<string, Entry>, j: nat)
    requires j < |entries|
    ensures var t := NormTitle(entries[j].1);
      TitleIndex(entries[..j + 1]) ==
        if t.Some? then Append(TitleIndex(entries[..j]), t.value, entries[j].0) else TitleIndex(entries[..j])
  {
    assert entries[..j + 1][..j] == entries[..j];
    var t := NormTitle(entries[j].1);
    if t.Some? {
      assert TitledKeys(entries[..j + 1]) == TitledKeys(entries[..j]) + [(t.value, entries[j].0)];
    } else {
      assert TitledKeys(entries[..j + 1]) == TitledKeys(entries[..j]);
    }
  }

  /**
   * The body of the loop of lines 281-296 for one parsed table: every entry joins the
   * global list in table order, and the titled ones are indexed by lower-cased title.
   */
  method AddFile(all0: seq<Entry>, entries: Dict<string, Entry>) returns (all: seq<Entry>, titles: Dict<string, seq<string>>)
    ensures all == all0 + ValuesOf(entries)
    ensures titles == TitleIndex(entries)
  {
    all, titles := all0, [];
    for j := 0 to |entries|
      invariant titles == TitleIndex(entries[..j])
      invariant all == all0 + ValuesOf(entries[..j])
    {
      var (key, entry) := entries[j];
      var t := NormTitle(entry);
      TitleIndexSnoc(entries, j);
      assert entries[..j + 1][..j] == entries[..j];
      if t.Some? {
        titles := Append(titles, t.value, key);
      }
      all := all + [entry];
    }
    assert entries[..|entries|] == entries;
  }

  /**
   * Lines 280-296 over the parsed tables, with the global entry list as their
   * concatenation: `all` lists every entry of every file in table order, and
   * `byFile[f]` is file `f`'s title index.
   */
  method CollectEntries(tables: seq<Dict<string, Entry>>) returns (all: seq<Entry>, byFile: seq<Dict<string, seq<string>>>)
    ensures all == Flatten(tables)
    ensures byFile == MapSeq(tables, TitleIndex)
  {
    all, byFile := [], [];
    for f := 0 to |tables|
      invariant all == Flatten(tables[..f])
      invariant byFile == MapSeq(tables[..f], TitleIndex)
    {
      var titles;
      all, titles := AddFile(all, tables[f]);
      assert tables[..f + 1][..f] == tables[..f];
      byFile := byFile + [titles];
    }
    assert tables[..|tables|] == tables;
  }

  /** The keys of the entries titled `t` (after lower-casing), in table order. */
  function KeysWithTitle(entries: Dict<string, Entry>, t: string): seq<string> {
    if entries == [] then []
    else
      var n := |entries| - 1;
      if NormTitle(entries[n].1) == Some(t) then KeysWithTitle(entries[..n], t) + [entries[n].0]
      else KeysWithTitle(entries[..n], t)
  }

  lemma {:induction false} SelectTitledKeys(entries: Dict<string, Entry>, t: string)
    ensures Select(TitledKeys(entries), t) == KeysWithTitle(entries, t)
  {
    if entries != [] {
      var n := |entries| - 1;
      SelectTitledKeys(entries[..n], t);
      var ps0 := TitledKeys(entries[..n]);
      var tn := NormTitle(entries[n].1);
      if tn.Some? {
        var ps := ps0 + [(tn.value, entries[n].0)];
        assert TitledKeys(entries) == ps;
        assert ps[..|ps| - 1] == ps0;
      } else {
        assert TitledKeys(entries) == ps0;
      }
    }
  }

  lemma TitledKeysSnoc(entries: Dict<string, Entry>)
    requires entries != []
    ensures var n := |entries| - 1;
      var t := NormTitle(entries[n].1);
      TitledKeys(entries) == if t.Some? then TitledKeys(entries[..n]) + [(t.value, entries[n].0)] else TitledKeys(entries[..n])
  {
  }

  /** The title of every titled entry is a title of the index. */
  lemma {:induction false} TitledKeysKeySet(entries: Dict<string, Entry>, p: nat)
    requires p < |entries| && NormTitle(entries[p].1).Some?
    ensures NormTitle(entries[p].1).value in KeySet(TitledKeys(entries))
  {
    var n := |entries| - 1;
    var ps0 := TitledKeys(entries[..n]);
    TitledKeysSnoc(entries);
    if p < n {
      assert entries[..n][p] == entries[p];
      TitledKeysKeySet(entries[..n], p);
      var tn := NormTitle(entries[n].1);
      if tn.Some? {
        KeySetSnoc(ps0, tn.value, entries[n].0);
      }
    } else {
      KeySetSnoc(ps0, NormTitle(entries[n].1).value, entries[n].0);
    }
  }

  /** A title of the index is carried by some entry. */
  lemma {:induction false} TitledKeysTitle(entries: Dict<string, Entry>, t: string)
    requires t in KeySet(TitledKeys(entries))
    ensures KeysWithTitle(entries, t) != []
  {
    var n := |entries| - 1;
    var ps0 := TitledKeys(entries[..n]);
    var tn := NormTitle(entries[n].1);
    TitledKeysSnoc(entries);
    if tn.Some? {
      KeySetSnoc(ps0, tn.value, entries[n].0);
    }
    if tn != Some(t) {
      TitledKeysTitle(entries[..n], t);
    }
  }

  /**
   * `titles_to_keys` of a file holds each lower-cased title of its entries once, in the
   * order of the first entry carrying it, mapped to the keys of all the entries that
   * carry it, in table order; entries without a title (or with an empty one) are not
   * indexed.
   */
  lemma TitleIndexSpec(entries: Dict<string, Entry>)
    ensures KeysDistinct(TitleIndex(entries))
    ensures forall i | 0 <= i < |TitleIndex(entries)| ::
      && TitleIndex(entries)[i].1 == KeysWithTitle(entries, TitleIndex(entries)[i].0)
      && TitleIndex(entries)[i].1 != []
    ensures forall p | 0 <= p < |entries| && NormTitle(entries[p].1).Some? ::
      NormTitle(entries[p].1).value in KeySet(TitleIndex(entries))
  {
    var ps := TitledKeys(entries);
    var ix := TitleIndex(entries);
    GroupBySpec(ps);
    TableKeys(ix, ps);
    forall i | 0 <= i < |ix|
      ensures ix[i].1 == KeysWithTitle(entries, ix[i].0) && ix[i].1 != []
    {
      SelectTitledKeys(entries, ix[i].0);
      TitledKeysTitle(entries, ix[i].0);
    }
    forall p | 0 <= p < |entries| && NormTitle(entries[p].1).Some?
      ensures NormTitle(entries[p].1).value in KeySet(ix)
    {
      TitledKeysKeySet(entries, p);
    }
  }

  /** The number of entries in the tables before table `f`. */
  function Offset(tables: seq<Dict<string, Entry>>, f: nat): nat
    requires f <= |tables|
  {
    if f == 0 then 0 else Offset(tables, f - 1) + |tables[f - 1]|
  }

  /** The global list holds exactly the entries of all tables. */
  lemma {:induction false} FlattenLength(tables: seq<Dict<string, Entry>>)
    ensures |Flatten(tables)| == Offset(tables, |tables|)
  {
    if tables != [] {
      var n := |tables| - 1;
      FlattenLength(tables[..n]);
      OffsetPrefix(tables, n, n);
    }
  }

  /**
   * The global list keeps every parsed entry: the `i`-th entry of file `f` stands at
   * position `Offset(tables, f) + i`.
   */
  lemma {:induction false} FlattenAt(tables: seq<Dict<string, Entry>>, f: nat, i: nat)
    requires f < |tables| && i < |tables[f]|
    ensures Offset(tables, f) + i < |Flatten(tables)|
    ensures Flatten(tables)[Offset(tables, f) + i] == tables[f][i].1
  {
    var n := |tables| - 1;
    var pre := tables[..n];
    FlattenLength(pre);
    OffsetPrefix(tables, n, n);
    if f < n {
      FlattenAt(pre, f, i);
      OffsetPrefix(tables, n, f);
    }
  }

  lemma {:induction false} OffsetPrefix(tables: seq<Dict<string, Entry>>, n: nat, f: nat)
    requires f <= n <= |tables|
    ensures Offset(tables[..n], f) == Offset(tables, f)
  {
    if f > 0 {
      OffsetPrefix(tables, n, f - 1);
      assert tables[..n][f - 1] == tables[f - 1];
    }
  }

  /** `f"{key}_{file_count}_{input_file}"` (line 292). */
  function UniqueKey(key: string, fileCount: nat, name: string): string {
    key + "_" + NatToString(fileCount) + "_" + name
  }

  /** The table of file `f` with its keys made unique as line 292 does. */
  function UniqueItems(entries: Dict<string, Entry>, f: nat, name: string): seq<(string, Entry)> {
    MapSeq(entries, (item: (string, Entry)) => (UniqueKey(item.0, f, name), item.1))
  }

  /** The assignments `all_entries[unique_key] = entry` of lines 287-293, file after file. */
  function UniquePairs(names: seq<string>, tables: seq<Dict<string, Entry>>): seq<(string, Entry)>
    requires |names| == |tables|
  {
    if tables == [] then []
    else
      var n := |tables| - 1;
      UniquePairs(names[..n], tables[..n]) + UniqueItems(tables[n], n, names[n])
  }

  /** `list(all_entries.values())` as written: a dict keyed by the "unique" keys. */
  function AllEntriesAsWritten(names: seq<string>, tables: seq<Dict<string, Entry>>): seq<Entry>
    requires |names| == |tables|
  {
    ValuesOf(FromPairs(UniquePairs(names, tables)))
  }

  /** Keying by the "unique" keys drops no value when those keys are in fact distinct. */
  lemma {:induction false} UniquePairsValues(names: seq<string>, tables: seq<Dict<string, Entry>>)
    requires |names| == |tables|
    ensures ValuesOf(UniquePairs(names, tables)) == Flatten(tables)
  {
    if tables != [] {
      var n := |tables| - 1;
      var items := UniqueItems(tables[n], n, names[n]);
      UniquePairsValues(names[..n], tables[..n]);
      ValuesOfAppend(UniquePairs(names[..n], tables[..n]), items);
      forall i | 0 <= i < |items|
        ensures items[i].1 == tables[n][i].1
      {
        MapSeqAt(tables[n], (item: (string, Entry)) => (UniqueKey(item.0, n, names[n]), item.1), i);
      }
      assert ValuesOf(items) == ValuesOf(tables[n]);
    }
  }

  /**
   * Where the keys of line 292 are in fact unique, the global list as written is the
   * intended one.
   */
  lemma AsWrittenWhenDistinct(names: seq<string>, tables: seq<Dict<string, Entry>>)
    requires |names| == |tables|
    requires KeysDistinct(UniquePairs(names, tables))
    ensures AllEntriesAsWritten(names, tables) == Flatten(tables)
  {
    FromDistinctPairs(UniquePairs(names, tables));
    UniquePairsValues(names, tables);
  }

  /** Key `a` of file 0 named `1_b.bib` and key `a_0` of file 1 named `b.bib` get the same "unique" key. */
  lemma CollidingKeys()
    ensures UniqueKey("a", 0, "1_b.bib") == UniqueKey("a_0", 1, "b.bib") == "a_0_1_b.bib"
  {
    assert NatToString(0) == "0" && NatToString(1) == "1";
  }

  lemma CollidingPairs(e1: Entry, e2: Entry)
    ensures var k := "a_0_1_b.bib";
      UniquePairs(["1_b.bib", "b.bib"], [[("a", e1)], [("a_0", e2)]]) == [(k, e1), (k, e2)]
  {
    var tables := [[("a", e1)], [("a_0", e2)]];
    var names := ["1_b.bib", "b.bib"];
    var k := "a_0_1_b.bib";
    CollidingKeys();
    assert tables[..1] == [[("a", e1)]] && names[..1] == ["1_b.bib"];
    MapSeqAt(tables[0], (item: (string, Entry)) => (UniqueKey(item.0, 0, names[0]), item.1), 0);
    MapSeqAt(tables[1], (item: (string, Entry)) => (UniqueKey(item.0, 1, names[1]), item.1), 0);
    assert UniqueItems(tables[0], 0, names[0]) == [(k, e1)];
    assert UniqueItems(tables[1], 1, names[1]) == [(k, e2)];
    assert UniquePairs(names[..1], tables[..1]) == UniquePairs([], []) + [(k, e1)];
  }

  /**
   * Whatever the two entries are, an entry with key `a` in a file named `1_b.bib` read
   * first and an entry with key `a_0` in a file named `b.bib` read second are both stored
   * under `a_0_1_b.bib`, so the first one disappears from the global list.
   */
  lemma UniqueKeyCollision(e1: Entry, e2: Entry)
    ensures var tables := [[("a", e1)], [("a_0", e2)]];
      && Flatten(tables) == [e1, e2]
      && AllEntriesAsWritten(["1_b.bib", "b.bib"], tables) == [e2]
  {
    var tables := [[("a", e1)], [("a_0", e2)]];
    var k := "a_0_1_b.bib";
    CollidingPairs(e1, e2);
    var ps := [(k, e1), (k, e2)];
    assert ps[..1] == [(k, e1)];
    assert FromPairs(ps[..1]) == [(k, e1)];
    assert FromPairs(ps) == Put([(k, e1)], k, e2) == [(k, e2)];
    assert tables[..1] == [[("a", e1)]];
    assert Flatten(tables[..1]) == [e1];
  }
}
