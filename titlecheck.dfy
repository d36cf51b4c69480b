/**
 * `check_same_title_different_keys` (bib-merger.py:85-139). For every file it groups the
 * keys of each title by the BibTeX type of the entry found for the key, and reports a
 * group holding two or more keys; then it pools the keys of all files the same way and
 * reports a (type, title) group whose keys are not all equal. The type of a key is read
 * from the first collected entry with that key whose source ends in `.bib`; where there is
 * none, `next` raises `StopIteration` and the check fails.
 *
 * The nested `defaultdict`s (type, then title) are flattened into one grouping keyed by
 * the pair (type, title); the verdict does not depend on the nesting.
 */
module TitleCheck {
  import opened Outcomes
  import opened Text
  import opened Dicts
  import opened Records

  /** An entry the generator `next(e for e in all_entries.values() if ...)` accepts for `key`. */
  predicate IsBibEntryFor(e: Entry, key: string) {
    e.key == key && EndsWith(e.source, ".bib")
  }

  /** The position of the first entry found for `key`, or `None` where `next` raises. */
  function FirstBibPos(all: seq<Entry>, key: string): (r: Option<nat>)
    ensures r.Some? ==> r.value < |all|
  {
    if all == [] then None
    else if IsBibEntryFor(all[0], key) then Some(0)
    else
      var r := FirstBibPos(all[1..], key);
      if r.None? then None else Some(r.value + 1)
  }

  /** `next` finds the first entry for `key`, and raises only when there is none. */
  lemma {:induction false} FirstBibPosSpec(all: seq<Entry>, key: string)
    ensures var r := FirstBibPos(all, key);
      && (r.Some? ==> IsBibEntryFor(all[r.value], key))
      && (r.Some? ==> forall q | 0 <= q < r.value :: !IsBibEntryFor(all[q], key))
      && (r.None? <==> forall q | 0 <= q < |all| :: !IsBibEntryFor(all[q], key))
  {
    if all != [] && !IsBibEntryFor(all[0], key) {
      FirstBibPosSpec(all[1..], key);
      assert forall q | 1 <= q < |all| :: all[1..][q - 1] == all[q];
    }
  }

  /** `entry['type']` of the entry found for `key`. */
  function BibTypeOf(all: seq<Entry>, key: string): Option<string> {
    var p := FirstBibPos(all, key);
    if p.Some? then Some(all[p.value].entryType) else None
  }

  /** The pairs (title, key) for the keys `ks` of one title, in order. */
  function Tagged(t: string, ks: seq<string>): (ps: seq<(string, string)>)
    ensures |ps| == |ks|
    ensures forall c | 0 <= c < |ks| :: ps[c] == (t, ks[c])
  {
    seq(|ks|, c requires 0 <= c < |ks| => (t, ks[c]))
  }

  /** The pairs (title, key) of the items before `i`, in the order lines 92-93 visit them. */
  function PairsBefore(titles: Dict<string, seq<string>>, i: nat): seq<(string, string)>
    requires i <= |titles|
  {
    if i == 0 then [] else PairsBefore(titles, i - 1) + Tagged(titles[i - 1].0, titles[i - 1].1)
  }

  /**
   * The pairs (title, key) in the order `for title, keys in titles_to_keys.items(): for
   * key in keys` visits them.
   */
  function TitleKeyPairs(titles: Dict<string, seq<string>>): seq<(string, string)> {
    PairsBefore(titles, |titles|)
  }

  /** The `j`-th key of the `i`-th title is visited right after the keys of the earlier titles. */
  lemma {:induction false} PairsBeforeAt(titles: Dict<string, seq<string>>, n: nat, i: nat, j: nat)
    requires i < n <= |titles| && j < |titles[i].1|
    ensures |PairsBefore(titles, i)| + j < |PairsBefore(titles, n)|
    ensures PairsBefore(titles, n)[|PairsBefore(titles, i)| + j] == (titles[i].0, titles[i].1[j])
  {
    var front, last := PairsBefore(titles, n - 1), Tagged(titles[n - 1].0, titles[n - 1].1);
    var k := |PairsBefore(titles, i)| + j;
    if i < n - 1 {
      PairsBeforeAt(titles, n - 1, i, j);
      assert (front + last)[k] == front[k];
    } else {
      assert (front + last)[k] == last[j];
    }
  }

  lemma TitleKeyPairsAt(titles: Dict<string, seq<string>>, i: nat, j: nat)
    requires i < |titles| && j < |titles[i].1|
    ensures |PairsBefore(titles, i)| + j < |TitleKeyPairs(titles)|
    ensures TitleKeyPairs(titles)[|PairsBefore(titles, i)| + j] == (titles[i].0, titles[i].1[j])
  {
    PairsBeforeAt(titles, |titles|, i, j);
  }

  /** Every key of the visit has an entry to read its type from. */
  predicate Resolvable(all: seq<Entry>, ps: seq<(string, string)>) {
    forall p | 0 <= p < |ps| :: BibTypeOf(all, ps[p].1).Some?
  }

  /** Each visited pair (title, key) as the pair ((type, title), key) that line 96 appends. */
  function Typed(all: seq<Entry>, ps: seq<(string, string)>): (r: seq<((string, string), string)>)
    requires Resolvable(all, ps)
    ensures |r| == |ps|
    ensures forall p | 0 <= p < |ps| :: r[p] == ((BibTypeOf(all, ps[p].1).value, ps[p].0), ps[p].1)
  {
    seq(|ps|, p requires 0 <= p < |ps| => ((BibTypeOf(all, ps[p].1).value, ps[p].0), ps[p].1))
  }

  /** One more resolvable pair extends the grouping by (type, title) by one append. */
  lemma TypedStep(all: seq<Entry>, ps: seq<(string, string)>, c: nat)
    requires c < |ps| && Resolvable(all, ps[..c]) && BibTypeOf(all, ps[c].1).Some?
    ensures Resolvable(all, ps[..c + 1])
    ensures GroupBy(Typed(all, ps[..c + 1])) ==
      Append(GroupBy(Typed(all, ps[..c])), (BibTypeOf(all, ps[c].1).value, ps[c].0), ps[c].1)
  {
    var pre, ext := ps[..c], ps[..c + 1];
    assert ext == pre + [ps[c]];
    forall p | 0 <= p < c + 1
      ensures BibTypeOf(all, ext[p].1).Some?
    {
      if p < c {
        assert ext[p] == pre[p];
      }
    }
    var item := ((BibTypeOf(all, ps[c].1).value, ps[c].0), ps[c].1);
    var front, whole := Typed(all, pre), Typed(all, ext);
    forall p | 0 <= p < c + 1 ensures whole[p] == (front + [item])[p] {
      if p < c {
        assert ext[p] == pre[p];
      }
    }
    assert whole == front + [item];
    GroupByPush(front, item);
  }

  /**
   * Lines 92-96: the keys of one file grouped by (type, title), or `StopIteration` when a
   * key has no entry in a `.bib` source.
   */
  method GroupFileByType(all: seq<Entry>, titles: Dict<string, seq<string>>)
    returns (r: Result<Dict<(string, string), seq<string>>>)
    ensures r.Err? <==> !Resolvable(all, TitleKeyPairs(titles))
    ensures r.Err? ==> r.error == StopIteration
    ensures r.Ok? ==> Resolvable(all, TitleKeyPairs(titles)) && r.value == GroupBy(Typed(all, TitleKeyPairs(titles)))
  {
    ghost var ps := TitleKeyPairs(titles);
    ghost var c := 0;
    var groups := [];
    for i := 0 to |titles|
      invariant c == |PairsBefore(titles, i)| <= |ps|
      invariant Resolvable(all, ps[..c])
      invariant groups == GroupBy(Typed(all, ps[..c]))
    {
      var title, keys := titles[i].0, titles[i].1;
      for j := 0 to |keys|
        invariant c == |PairsBefore(titles, i)| + j <= |ps|
        invariant Resolvable(all, ps[..c])
        invariant groups == GroupBy(Typed(all, ps[..c]))
      {
        TitleKeyPairsAt(titles, i, j);
        assert ps[c] == (title, keys[j]);
        var p := FirstBibPos(all, keys[j]);
        if p.None? {
          assert BibTypeOf(all, ps[c].1).None?;
          return Err(StopIteration);
        }
        TypedStep(all, ps, c);
        groups := Append(groups, (all[p.value].entryType, title), keys[j]);
        c := c + 1;
      }
    }
    assert ps[..c] == ps;
    return Ok(groups);
  }

  /** Lines 99-101: whether some group holds more than one key. */
  method AnyLongGroup<K, V>(groups: Dict<K, seq<V>>) returns (b: bool)
    ensures b <==> HasLongGroup(groups)
  {
    b := false;
    for i := 0 to |groups|
      invariant b <==> exists g | 0 <= g < i :: |groups[g].1| >= 2
    {
      if |groups[i].1| > 1 {
        b := true;
      }
    }
  }

  /** Two visited keys share a title and the type of their entries. */
  predicate PairsConflict(all: seq<Entry>, ps: seq<(string, string)>) {
    exists p, q | 0 <= p < q < |ps| :: ps[p].0 == ps[q].0 && BibTypeOf(all, ps[p].1) == BibTypeOf(all, ps[q].1)
  }

  /** Within one file, two visited keys share a title and the type of their entries. */
  predicate FileConflict(all: seq<Entry>, titles: Dict<string, seq<string>>) {
    PairsConflict(all, TitleKeyPairs(titles))
  }

  /** A grouping by (type, title) has a group of two or more keys exactly when two keys conflict. */
  lemma PairsConflictGroups(all: seq<Entry>, ps: seq<(string, string)>)
    requires Resolvable(all, ps)
    ensures HasLongGroup(GroupBy(Typed(all, ps))) <==> PairsConflict(all, ps)
  {
    GroupByLong(Typed(all, ps));
    TypedSharedKey(all, ps);
  }

  /** Two tagged pairs share (type, title) exactly when two keys conflict. */
  lemma TypedSharedKey(all: seq<Entry>, ps: seq<(string, string)>)
    requires Resolvable(all, ps)
    ensures SharedKey(Typed(all, ps)) <==> PairsConflict(all, ps)
  {
    var ts := Typed(all, ps);
    if SharedKey(ts) {
      var p, q :| 0 <= p < q < |ts| && ts[p].0 == ts[q].0;
      assert ps[p].0 == ps[q].0 && BibTypeOf(all, ps[p].1) == BibTypeOf(all, ps[q].1);
    }
    if PairsConflict(all, ps) {
      var p, q :| 0 <= p < q < |ps| && ps[p].0 == ps[q].0 && BibTypeOf(all, ps[p].1) == BibTypeOf(all, ps[q].1);
      assert ts[p].0 == ts[q].0;
    }
  }

  /** The visit of one file's pairs, each tagged with the file's index `f`. */
  function FileOccurrences(f: nat, ps: seq<(string, string)>): (r: seq<(nat, string, string)>)
    ensures |r| == |ps|
    ensures forall c | 0 <= c < |ps| :: r[c] == (f, ps[c].0, ps[c].1)
  {
    seq(|ps|, c requires 0 <= c < |ps| => (f, ps[c].0, ps[c].1))
  }

  /** The triples (file index, title, key) of the files before `f`, in the order lines 116-118 visit them. */
  function OccurrencesBefore(byFile: seq<Dict<string, seq<string>>>, f: nat): seq<(nat, string, string)>
    requires f <= |byFile|
  {
    if f == 0 then [] else OccurrencesBefore(byFile, f - 1) + FileOccurrences(f - 1, TitleKeyPairs(byFile[f - 1]))
  }

  /** The triples (file index, title, key) of all files, in the order lines 116-118 visit them. */
  function Occurrences(byFile: seq<Dict<string, seq<string>>>): seq<(nat, string, string)> {
    OccurrencesBefore(byFile, |byFile|)
  }

  /** The `c`-th pair of file `f` is visited right after the pairs of the earlier files. */
  lemma {:induction false} OccurrencesBeforeAt(byFile: seq<Dict<string, seq<string>>>, g: nat, f: nat, c: nat)
    requires f < g <= |byFile| && c < |TitleKeyPairs(byFile[f])|
    ensures |OccurrencesBefore(byFile, f)| + c < |OccurrencesBefore(byFile, g)|
    ensures OccurrencesBefore(byFile, g)[|OccurrencesBefore(byFile, f)| + c] ==
      (f, TitleKeyPairs(byFile[f])[c].0, TitleKeyPairs(byFile[f])[c].1)
  {
    var front, last := OccurrencesBefore(byFile, g - 1), FileOccurrences(g - 1, TitleKeyPairs(byFile[g - 1]));
    var k := |OccurrencesBefore(byFile, f)| + c;
    if f < g - 1 {
      OccurrencesBeforeAt(byFile, g - 1, f, c);
      assert (front + last)[k] == front[k];
    } else {
      assert (front + last)[k] == last[c];
    }
  }

  lemma OccurrencesAt(byFile: seq<Dict<string, seq<string>>>, f: nat, c: nat)
    requires f < |byFile| && c < |TitleKeyPairs(byFile[f])|
    ensures |OccurrencesBefore(byFile, f)| + c < |Occurrences(byFile)|
    ensures Occurrences(byFile)[|OccurrencesBefore(byFile, f)| + c] ==
      (f, TitleKeyPairs(byFile[f])[c].0, TitleKeyPairs(byFile[f])[c].1)
  {
    OccurrencesBeforeAt(byFile, |byFile|, f, c);
  }

  /** The `j`-th key of title `i` of file `f` is pooled after all keys visited before it. */
  lemma PooledAt(byFile: seq<Dict<string, seq<string>>>, f: nat, i: nat, j: nat)
    requires f < |byFile| && i < |byFile[f]| && j < |byFile[f][i].1|
    ensures |OccurrencesBefore(byFile, f)| + |PairsBefore(byFile[f], i)| + j < |Occurrences(byFile)|
    ensures Occurrences(byFile)[|OccurrencesBefore(byFile, f)| + |PairsBefore(byFile[f], i)| + j] ==
      (f, byFile[f][i].0, byFile[f][i].1[j])
  {
    var titles := byFile[f];
    TitleKeyPairsAt(titles, i, j);
    OccurrencesAt(byFile, f, |PairsBefore(titles, i)| + j);
  }

  /** Every key of every file has an entry to read its type from. */
  predicate ResolvableAll(all: seq<Entry>, byFile: seq<Dict<string, seq<string>>>) {
    forall f | 0 <= f < |byFile| :: Resolvable(all, TitleKeyPairs(byFile[f]))
  }

  predicate OccurrencesResolvable(all: seq<Entry>, occ: seq<(nat, string, string)>) {
    forall p | 0 <= p < |occ| :: BibTypeOf(all, occ[p].2).Some?
  }

  /** When every file's keys resolve, so does every pooled occurrence. */
  lemma PooledResolvable(all: seq<Entry>, byFile: seq<Dict<string, seq<string>>>)
    requires ResolvableAll(all, byFile)
    ensures OccurrencesResolvable(all, Occurrences(byFile))
  {
    PooledResolvableBefore(all, byFile, |byFile|);
  }

  lemma {:induction false} PooledResolvableBefore(all: seq<Entry>, byFile: seq<Dict<string, seq<string>>>, f: nat)
    requires f <= |byFile| && ResolvableAll(all, byFile)
    ensures OccurrencesResolvable(all, OccurrencesBefore(byFile, f))
  {
    if f > 0 {
      PooledResolvableBefore(all, byFile, f - 1);
      var front := OccurrencesBefore(byFile, f - 1);
      var last := FileOccurrences(f - 1, TitleKeyPairs(byFile[f - 1]));
      var occ: seq<(nat, string, string)> := front + last;
      forall p | 0 <= p < |occ| ensures BibTypeOf(all, occ[p].2).Some? {
        if p >= |front| {
          assert occ[p] == last[p - |front|];
        }
      }
    }
  }

  /**
   * The first `o` pooled occurrences, each as the pair ((type, title), (key, file index))
   * that line 121 appends.
   */
  function CrossPrefix(all: seq<Entry>, occ: seq<(nat, string, string)>, o: nat): (r: seq<((string, string), (string, nat))>)
    requires o <= |occ| && OccurrencesResolvable(all, occ)
    ensures |r| == o
    ensures forall p | 0 <= p < o :: r[p] == ((BibTypeOf(all, occ[p].2).value, occ[p].1), (occ[p].2, occ[p].0))
  {
    if o == 0 then []
    else CrossPrefix(all, occ, o - 1) + [((BibTypeOf(all, occ[o - 1].2).value, occ[o - 1].1), (occ[o - 1].2, occ[o - 1].0))]
  }

  /** Every pooled occurrence as the pair that line 121 appends. */
  function CrossItems(all: seq<Entry>, occ: seq<(nat, string, string)>): seq<((string, string), (string, nat))>
    requires OccurrencesResolvable(all, occ)
  {
    CrossPrefix(all, occ, |occ|)
  }

  /** The table after the appends of line 121 for the first `o` pooled items. */
  ghost function Pooled(items: seq<((string, string), (string, nat))>, o: nat): Dict<(string, string), seq<(string, nat)>>
    requires o <= |items|
  {
    Fold(AppendItem, [], items, o)
  }

  /**
   * Lines 115-121: the keys of all files grouped by (type, title), each with the index of
   * its file. The guard of line 120 compares a key with a list of (key, index) pairs and
   * so never holds back an append.
   */
  method PoolByType(all: seq<Entry>, byFile: seq<Dict<string, seq<string>>>)
    returns (groups: Dict<(string, string), seq<(string, nat)>>)
    requires OccurrencesResolvable(all, Occurrences(byFile))
    ensures groups == GroupBy(CrossItems(all, Occurrences(byFile)))
  {
    ghost var items := CrossItems(all, Occurrences(byFile));
    groups := [];
    for f: nat := 0 to |byFile|
      invariant |OccurrencesBefore(byFile, f)| <= |Occurrences(byFile)|
      invariant groups == Pooled(items, |OccurrencesBefore(byFile, f)|)
    {
      groups := PoolFile(all, byFile, f, groups);
    }
    GroupByFold(items, |items|);
    assert items[..|items|] == items;
  }

  /** Where the keys of title `i` of file `f` start among the pooled occurrences. */
  ghost function PoolOffset(byFile: seq<Dict<string, seq<string>>>, f: nat, i: nat): nat
    requires f < |byFile| && i <= |byFile[f]|
  {
    |OccurrencesBefore(byFile, f)| + |PairsBefore(byFile[f], i)|
  }

  /** The keys of file `f` start after those of the files before it and end where the next file's start. */
  lemma FileOffsets(byFile: seq<Dict<string, seq<string>>>, f: nat)
    requires f < |byFile|
    ensures PoolOffset(byFile, f, 0) == |OccurrencesBefore(byFile, f)|
    ensures PoolOffset(byFile, f, |byFile[f]|) == |OccurrencesBefore(byFile, f + 1)|
  {
  }

  /** Lines 116-121 for the file `f`, pooled after the occurrences of the files before it. */
  method PoolFile(all: seq<Entry>, byFile: seq<Dict<string, seq<string>>>, f: nat,
                  groups0: Dict<(string, string), seq<(string, nat)>>)
    returns (groups: Dict<(string, string), seq<(string, nat)>>)
    requires f < |byFile| && OccurrencesResolvable(all, Occurrences(byFile))
    requires |OccurrencesBefore(byFile, f)| <= |Occurrences(byFile)|
    requires groups0 == Pooled(CrossItems(all, Occurrences(byFile)), |OccurrencesBefore(byFile, f)|)
    ensures |OccurrencesBefore(byFile, f + 1)| <= |Occurrences(byFile)|
    ensures groups == Pooled(CrossItems(all, Occurrences(byFile)), |OccurrencesBefore(byFile, f + 1)|)
  {
    ghost var items := CrossItems(all, Occurrences(byFile));
    FileOffsets(byFile, f);
    groups := groups0;
    for i := 0 to |byFile[f]|
      invariant PoolOffset(byFile, f, i) <= |Occurrences(byFile)|
      invariant groups == Pooled(items, PoolOffset(byFile, f, i))
    {
      groups := PoolTitleAt(all, byFile, f, i, groups);
    }
  }

  /** Lines 118-121 for title `i` of file `f`. */
  method PoolTitleAt(all: seq<Entry>, byFile: seq<Dict<string, seq<string>>>, f: nat, i: nat,
                     groups0: Dict<(string, string), seq<(string, nat)>>)
    returns (groups: Dict<(string, string), seq<(string, nat)>>)
    requires f < |byFile| && i < |byFile[f]| && OccurrencesResolvable(all, Occurrences(byFile))
    requires PoolOffset(byFile, f, i) <= |Occurrences(byFile)|
    requires groups0 == Pooled(CrossItems(all, Occurrences(byFile)), PoolOffset(byFile, f, i))
    ensures PoolOffset(byFile, f, i + 1) <= |Occurrences(byFile)|
    ensures groups == Pooled(CrossItems(all, Occurrences(byFile)), PoolOffset(byFile, f, i + 1))
  {
    TitlePooled(all, byFile, f, i);
    groups := PoolTitle(all, CrossItems(all, Occurrences(byFile)), PoolOffset(byFile, f, i), f,
                        byFile[f][i].0, byFile[f][i].1, groups0);
  }

  /** Every key of `keys` has an entry to read its type from. */
  predicate KeysResolvable(all: seq<Entry>, keys: seq<string>) {
    forall j | 0 <= j < |keys| :: BibTypeOf(all, keys[j]).Some?
  }

  /** The pairs ((type, title), (key, file index)) that line 121 appends for the keys of one title. */
  function KeyItems(all: seq<Entry>, f: nat, title: string, keys: seq<string>): (r: seq<((string, string), (string, nat))>)
    requires KeysResolvable(all, keys)
    ensures |r| == |keys|
    ensures forall j | 0 <= j < |keys| :: r[j] == ((BibTypeOf(all, keys[j]).value, title), (keys[j], f))
  {
    seq(|keys|, j requires 0 <= j < |keys| => ((BibTypeOf(all, keys[j]).value, title), (keys[j], f)))
  }

  /**
   * Lines 118-121 for one title of file `f` and its keys: one append per key, in order.
   * The keys are the pooled occurrences `items` from position `o0` on.
   */
  method PoolTitle(all: seq<Entry>, ghost items: seq<((string, string), (string, nat))>, ghost o0: nat,
                   f: nat, title: string, keys: seq<string>, groups0: Dict<(string, string), seq<(string, nat)>>)
    returns (groups: Dict<(string, string), seq<(string, nat)>>)
    requires KeysResolvable(all, keys) && o0 + |keys| <= |items|
    requires forall j | 0 <= j < |keys| :: items[o0 + j] == KeyItems(all, f, title, keys)[j]
    requires groups0 == Pooled(items, o0)
    ensures groups == Pooled(items, o0 + |keys|)
  {
    ghost var ys := KeyItems(all, f, title, keys);
    groups := groups0;
    for j := 0 to |keys|
      invariant groups == Fold(AppendItem, groups0, ys, j)
    {
      var p := FirstBibPos(all, keys[j]);
      groups := Append(groups, (all[p.value].entryType, title), (keys[j], f));
    }
    FoldContinue(AppendItem, [], items, ys, o0, groups0);
  }

  /** The keys of title `i` of file `f` are the pooled occurrences from position `o` on. */
  lemma TitlePooled(all: seq<Entry>, byFile: seq<Dict<string, seq<string>>>, f: nat, i: nat)
    requires f < |byFile| && i < |byFile[f]| && OccurrencesResolvable(all, Occurrences(byFile))
    requires PoolOffset(byFile, f, i) <= |Occurrences(byFile)|
    ensures PoolOffset(byFile, f, i + 1) == PoolOffset(byFile, f, i) + |byFile[f][i].1|
    ensures PoolOffset(byFile, f, i) + |byFile[f][i].1| <= |CrossItems(all, Occurrences(byFile))|
    ensures KeysResolvable(all, byFile[f][i].1)
    ensures forall j | 0 <= j < |byFile[f][i].1| ::
      CrossItems(all, Occurrences(byFile))[PoolOffset(byFile, f, i) + j] == KeyItems(all, f, byFile[f][i].0, byFile[f][i].1)[j]
  {
    var o := PoolOffset(byFile, f, i);
    var occ := Occurrences(byFile);
    var items := CrossItems(all, occ);
    var title, keys := byFile[f][i].0, byFile[f][i].1;
    if |keys| > 0 {
      PooledAt(byFile, f, i, |keys| - 1);
    }
    forall j | 0 <= j < |keys| ensures occ[o + j] == (f, title, keys[j]) {
      PooledAt(byFile, f, i, j);
    }
    forall j | 0 <= j < |keys| ensures BibTypeOf(all, keys[j]).Some? {
      assert occ[o + j].2 == keys[j];
    }
    var ys := KeyItems(all, f, title, keys);
    forall j | 0 <= j < |keys| ensures items[o + j] == ys[j] {
      assert occ[o + j] == (f, title, keys[j]);
    }
  }

  /** Lines 124-126: whether some group holds two different keys. */
  method AnyDiverseGroup<K, A(==), B>(groups: Dict<K, seq<(A, B)>>) returns (b: bool)
    ensures b <==> HasDiverseGroup(groups)
  {
    b := false;
    for i := 0 to |groups|
      invariant b <==> exists g, x, y | 0 <= g < i && 0 <= x < |groups[g].1| && 0 <= y < |groups[g].1| ::
        groups[g].1[x].0 != groups[g].1[y].0
    {
      var pairs := groups[i].1;
      var ks := set x | 0 <= x < |pairs| :: pairs[x].0;
      SetOfTwo(ks);
      if |ks| > 1 {
        var a, c :| a in ks && c in ks && a != c;
        var x :| 0 <= x < |pairs| && pairs[x].0 == a;
        var y :| 0 <= y < |pairs| && pairs[y].0 == c;
        b := true;
      } else if exists x, y | 0 <= x < |pairs| && 0 <= y < |pairs| :: pairs[x].0 != pairs[y].0 {
        var x, y :| 0 <= x < |pairs| && 0 <= y < |pairs| && pairs[x].0 != pairs[y].0;
        assert pairs[x].0 in ks && pairs[y].0 in ks;
      }
    }
  }

  /** Two pooled occurrences of different keys share a title and the type of their entries. */
  predicate OccurrencesConflict(all: seq<Entry>, occ: seq<(nat, string, string)>) {
    exists p, q | 0 <= p < |occ| && 0 <= q < |occ| ::
      occ[p].1 == occ[q].1 && BibTypeOf(all, occ[p].2) == BibTypeOf(all, occ[q].2) && occ[p].2 != occ[q].2
  }

  /** Across all files, two keys that differ share a title and the type of their entries. */
  predicate CrossFileConflict(all: seq<Entry>, byFile: seq<Dict<string, seq<string>>>) {
    OccurrencesConflict(all, Occurrences(byFile))
  }

  /** The pooled grouping has a group with two different keys exactly when occurrences conflict. */
  lemma OccurrencesConflictGroups(all: seq<Entry>, occ: seq<(nat, string, string)>)
    requires OccurrencesResolvable(all, occ)
    ensures HasDiverseGroup(GroupBy(CrossItems(all, occ))) <==> OccurrencesConflict(all, occ)
  {
    var cs := CrossItems(all, occ);
    GroupByDiverse(cs);
    if SharedKeyDiverse(cs) {
      var p, q :| 0 <= p < |cs| && 0 <= q < |cs| && cs[p].0 == cs[q].0 && cs[p].1.0 != cs[q].1.0;
      assert occ[p].1 == occ[q].1 && BibTypeOf(all, occ[p].2) == BibTypeOf(all, occ[q].2) && occ[p].2 != occ[q].2;
    }
    if OccurrencesConflict(all, occ) {
      var p, q :| 0 <= p < |occ| && 0 <= q < |occ| &&
        occ[p].1 == occ[q].1 && BibTypeOf(all, occ[p].2) == BibTypeOf(all, occ[q].2) && occ[p].2 != occ[q].2;
      assert cs[p].0 == cs[q].0 && cs[p].1.0 != cs[q].1.0;
    }
  }

  /**
   * Lines 91-101 for one file: whether it holds two keys of one title and type, or
   * `StopIteration` when a key has no entry in a `.bib` source.
   */
  method CheckFile(all: seq<Entry>, titles: Dict<string, seq<string>>) returns (r: Result<bool>)
    ensures r.Err? <==> !Resolvable(all, TitleKeyPairs(titles))
    ensures r.Err? ==> r.error == StopIteration
    ensures r.Ok? ==> (r.value <==> FileConflict(all, titles))
  {
    var groups := GroupFileByType(all, titles);
    if groups.Err? {
      return Err(StopIteration);
    }
    var long := AnyLongGroup(groups.value);
    PairsConflictGroups(all, TitleKeyPairs(titles));
    return Ok(long);
  }

  /**
   * Lines 90-101: whether some file holds two keys of one title and type, or
   * `StopIteration` when a key has no entry in a `.bib` source.
   */
  method CheckWithinFiles(all: seq<Entry>, byFile: seq<Dict<string, seq<string>>>) returns (r: Result<bool>)
    ensures r.Err? <==> !ResolvableAll(all, byFile)
    ensures r.Err? ==> r.error == StopIteration
    ensures r.Ok? ==> (r.value <==> exists f | 0 <= f < |byFile| :: FileConflict(all, byFile[f]))
  {
    var hasIssues := false;
    for f := 0 to |byFile|
      invariant forall g | 0 <= g < f :: Resolvable(all, TitleKeyPairs(byFile[g]))
      invariant hasIssues <==> exists g | 0 <= g < f :: FileConflict(all, byFile[g])
    {
      var conflict := CheckFile(all, byFile[f]);
      if conflict.Err? {
        return Err(StopIteration);
      }
      forall g | 0 <= g < f + 1
        ensures Resolvable(all, TitleKeyPairs(byFile[g]))
      {
      }
      if conflict.value {
        hasIssues := true;
      }
    }
    return Ok(hasIssues);
  }

  /** Lines 115-126: whether the files together hold different keys for one title and type. */
  method CheckAcrossFiles(all: seq<Entry>, byFile: seq<Dict<string, seq<string>>>) returns (b: bool)
    requires ResolvableAll(all, byFile)
    ensures b <==> CrossFileConflict(all, byFile)
  {
    PooledResolvable(all, byFile);
    var pooled := PoolByType(all, byFile);
    b := AnyDiverseGroup(pooled);
    OccurrencesConflictGroups(all, Occurrences(byFile));
  }

  /**
   * `check_same_title_different_keys`: whether some file holds two keys of one title and
   * type, or the files together hold different keys for one title and type; or
   * `StopIteration` when a key has no entry in a `.bib` source.
   */
  method CheckSameTitleDifferentKeys(all: seq<Entry>, byFile: seq<Dict<string, seq<string>>>)
    returns (r: Result<bool>)
    ensures r.Err? <==> !ResolvableAll(all, byFile)
    ensures r.Err? ==> r.error == StopIteration
    ensures r.Ok? ==>
      (r.value <==> (exists f | 0 <= f < |byFile| :: FileConflict(all, byFile[f])) || CrossFileConflict(all, byFile))
  {
    var within := CheckWithinFiles(all, byFile);
    if within.Err? {
      return within;
    }
    var across := CheckAcrossFiles(all, byFile);
    return Ok(within.value || across);
  }

  /**
   * A conflict within a file whose keys are all different is also a conflict across the
   * files, so then the answer is the cross-file verdict alone.
   */
  lemma WithinFileIsAcrossFiles(all: seq<Entry>, byFile: seq<Dict<string, seq<string>>>, f: nat)
    requires f < |byFile| && FileConflict(all, byFile[f])
    requires var ps := TitleKeyPairs(byFile[f]); forall p, q | 0 <= p < q < |ps| :: ps[p].1 != ps[q].1
    ensures CrossFileConflict(all, byFile)
  {
    var ps := TitleKeyPairs(byFile[f]);
    var p, q :| 0 <= p < q < |ps| && ps[p].0 == ps[q].0 && BibTypeOf(all, ps[p].1) == BibTypeOf(all, ps[q].1);
    TwoPairsAcrossFiles(all, byFile, f, p, q);
  }

  /** Two different keys of one file under one title and type are a conflict across the files. */
  lemma TwoPairsAcrossFiles(all: seq<Entry>, byFile: seq<Dict<string, seq<string>>>, f: nat, p: nat, q: nat)
    requires f < |byFile|
    requires var ps := TitleKeyPairs(byFile[f]);
      && p < |ps| && q < |ps| && ps[p].0 == ps[q].0 && ps[p].1 != ps[q].1
      && BibTypeOf(all, ps[p].1) == BibTypeOf(all, ps[q].1)
    ensures CrossFileConflict(all, byFile)
  {
    var ps := TitleKeyPairs(byFile[f]);
    OccurrencesAt(byFile, f, p);
    OccurrencesAt(byFile, f, q);
    var base := |OccurrencesBefore(byFile, f)|;
    var occ := Occurrences(byFile);
    assert occ[base + p] == (f, ps[p].0, ps[p].1);
    assert occ[base + q] == (f, ps[q].0, ps[q].1);
  }
}
