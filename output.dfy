/**
 * The end of `merge_bib_files` (bib-merger.py:346-353): the merged entries sorted by
 * (lower-cased title or "", type, key) with Python's stable `sorted`, and the text written
 * to the output file, each entry's raw text followed by a blank line.
 */
module Output {
  import opened Text
  import opened Dicts
  import opened Records

  /** The sort key of lines 347-348: lower-cased title (or "" for none), type, key. */
  type SortKey = (string, string, string)

  function SortKeyOf(e: Entry): SortKey {
    (if NormTitle(e).Some? then NormTitle(e).value else "", e.entryType, e.key)
  }

  /** Python's `<=` on such triples: lexicographic, each component compared as a string. */
  predicate KeyLe(a: SortKey, b: SortKey) {
    if a.0 != b.0 then LexLe(a.0, b.0)
    else if a.1 != b.1 then LexLe(a.1, b.1)
    else LexLe(a.2, b.2)
  }

  lemma KeyLeTotal(a: SortKey, b: SortKey)
    ensures KeyLe(a, b) || KeyLe(b, a)
  {
    LexLeTotal(a.0, b.0);
    LexLeTotal(a.1, b.1);
    LexLeTotal(a.2, b.2);
  }

  lemma KeyLeAntisym(a: SortKey, b: SortKey)
    requires KeyLe(a, b) && KeyLe(b, a)
    ensures a == b
  {
    if a.0 != b.0 {
      LexLeAntisym(a.0, b.0);
    } else if a.1 != b.1 {
      LexLeAntisym(a.1, b.1);
    } else {
      LexLeAntisym(a.2, b.2);
    }
  }

  lemma KeyLeTrans(a: SortKey, b: SortKey, c: SortKey)
    requires KeyLe(a, b) && KeyLe(b, c)
    ensures KeyLe(a, c)
  {
    if a.0 != b.0 || b.0 != c.0 {
      if a.0 == b.0 {
        assert LexLe(a.0, c.0);
      } else if b.0 == c.0 {
        assert LexLe(a.0, c.0);
      } else {
        LexLeTrans(a.0, b.0, c.0);
        if a.0 == c.0 {
          LexLeAntisym(a.0, b.0);
        }
      }
    } else if a.1 != b.1 || b.1 != c.1 {
      if a.1 != b.1 && b.1 != c.1 {
        LexLeTrans(a.1, b.1, c.1);
        if a.1 == c.1 {
          LexLeAntisym(a.1, b.1);
        }
      }
    } else {
      LexLeTrans(a.2, b.2, c.2);
    }
  }

  /** Non-decreasing in the sort key `key`. */
  ghost predicate Sorted<T>(s: seq<T>, key: T -> SortKey) {
    forall i, j | 0 <= i < j < |s| :: KeyLe(key(s[i]), key(s[j]))
  }

  /** `x` placed after every element of `s` whose key is not above its own. */
  function Insert<T>(s: seq<T>, x: T, key: T -> SortKey): (r: seq<T>)
    ensures multiset(r) == multiset(s) + multiset{x}
  {
    if s == [] then [x]
    else if KeyLe(key(s[0]), key(x)) then
      assert s == [s[0]] + s[1..];
      [s[0]] + Insert(s[1..], x, key)
    else [x] + s
  }

  /** Python's stable `sorted(xs, key=key)`: each element in turn inserted after its equals. */
  function SortBy<T>(xs: seq<T>, key: T -> SortKey): (r: seq<T>)
    ensures multiset(r) == multiset(xs)
  {
    if xs == [] then []
    else
      var n := |xs| - 1;
      assert xs == xs[..n] + [xs[n]];
      Insert(SortBy(xs[..n], key), xs[n], key)
  }

  /** The sort of lines 347-348. */
  function SortEntries(es: seq<Entry>): seq<Entry> {
    SortBy(es, SortKeyOf)
  }

  /** The elements of `s` whose key is `k`, in order. */
  function WithKey<T>(s: seq<T>, key: T -> SortKey, k: SortKey): seq<T> {
    if s == [] then []
    else (if key(s[0]) == k then [s[0]] else []) + WithKey(s[1..], key, k)
  }

  lemma {:induction false} WithKeyAppend<T>(a: seq<T>, b: seq<T>, key: T -> SortKey, k: SortKey)
    ensures WithKey(a + b, key, k) == WithKey(a, key, k) + WithKey(b, key, k)
  {
    if a == [] {
      assert a + b == b;
    } else {
      var head := if key(a[0]) == k then [a[0]] else [];
      assert (a + b)[0] == a[0];
      assert (a + b)[1..] == a[1..] + b;
      assert WithKey(a + b, key, k) == head + WithKey(a[1..] + b, key, k);
      WithKeyAppend(a[1..], b, key, k);
      AppendAssoc(head, WithKey(a[1..], key, k), WithKey(b, key, k));
    }
  }

  lemma {:induction false} WithKeyNone<T>(s: seq<T>, key: T -> SortKey, k: SortKey)
    requires forall i | 0 <= i < |s| :: key(s[i]) != k
    ensures WithKey(s, key, k) == []
  {
    if s != [] {
      WithKeyNone(s[1..], key, k);
    }
  }

  lemma {:induction false} InsertSorted<T>(s: seq<T>, x: T, key: T -> SortKey)
    requires Sorted(s, key)
    ensures Sorted(Insert(s, x, key), key)
  {
    if s != [] {
      if KeyLe(key(s[0]), key(x)) {
        var rest := Insert(s[1..], x, key);
        InsertSorted(s[1..], x, key);
        forall j | 0 <= j < |rest| ensures KeyLe(key(s[0]), key(rest[j])) {
          assert rest[j] in multiset(rest);
          if rest[j] != x {
            assert rest[j] in multiset(s[1..]);
            var q :| 0 <= q < |s[1..]| && s[1..][q] == rest[j];
            assert s[q + 1] == rest[j];
          }
        }
      } else {
        KeyLeTotal(key(s[0]), key(x));
        forall j | 0 < j < |s| ensures KeyLe(key(x), key(s[j])) {
          KeyLeTrans(key(x), key(s[0]), key(s[j]));
        }
      }
    }
  }

  lemma WithKeyCons<T>(x: T, s: seq<T>, key: T -> SortKey, k: SortKey)
    ensures WithKey([x] + s, key, k) == (if key(x) == k then [x] else []) + WithKey(s, key, k)
  {
    assert ([x] + s)[0] == x;
    assert ([x] + s)[1..] == s;
  }

  /** Inserting `x` puts it after the elements of its own key: the insertion is stable. */
  lemma {:induction false} InsertWithKey<T>(s: seq<T>, x: T, key: T -> SortKey, k: SortKey)
    requires Sorted(s, key)
    ensures WithKey(Insert(s, x, key), key, k) == WithKey(s, key, k) + (if key(x) == k then [x] else [])
  {
    if s == [] {
      WithKeyOne(x, key, k);
    } else if KeyLe(key(s[0]), key(x)) {
      var head := if key(s[0]) == k then [s[0]] else [];
      InsertWithKey(s[1..], x, key, k);
      WithKeyCons(s[0], Insert(s[1..], x, key), key, k);
      AppendAssoc(head, WithKey(s[1..], key, k), if key(x) == k then [x] else []);
    } else {
      InsertFirstWithKey(s, x, key, k);
    }
  }

  /** An `x` that goes first has no equal in `s`. */
  lemma InsertFirstWithKey<T>(s: seq<T>, x: T, key: T -> SortKey, k: SortKey)
    requires Sorted(s, key) && s != [] && !KeyLe(key(s[0]), key(x))
    ensures WithKey([x] + s, key, k) == WithKey(s, key, k) + (if key(x) == k then [x] else [])
  {
    WithKeyCons(x, s, key, k);
    if key(x) == k {
      forall i | 0 <= i < |s| ensures key(s[i]) != k {
        LexLeTotal(k.2, k.2);
      }
      WithKeyNone(s, key, k);
    }
  }

  /**
   * `sorted` returns the elements (as a multiset, by `SortBy`'s own contract) in
   * non-decreasing key order, and elements with equal keys keep their input order.
   */
  lemma {:induction false} SortBySpec<T>(xs: seq<T>, key: T -> SortKey)
    ensures Sorted(SortBy(xs, key), key)
    ensures forall k: SortKey :: WithKey(SortBy(xs, key), key, k) == WithKey(xs, key, k)
  {
    if xs != [] {
      var n := |xs| - 1;
      var pre := SortBy(xs[..n], key);
      SortBySpec(xs[..n], key);
      InsertSorted(pre, xs[n], key);
      forall k: SortKey ensures WithKey(SortBy(xs, key), key, k) == WithKey(xs, key, k) {
        SortByKeyStep(xs, key, k);
      }
    }
  }

  lemma WithKeyOne<T>(x: T, key: T -> SortKey, k: SortKey)
    ensures WithKey([x], key, k) == if key(x) == k then [x] else []
  {
    assert WithKey([x], key, k) == (if key(x) == k then [x] else []) + WithKey([], key, k);
  }

  lemma SortByKeyStep<T>(xs: seq<T>, key: T -> SortKey, k: SortKey)
    requires xs != [] && Sorted(SortBy(xs[..|xs| - 1], key), key)
    requires WithKey(SortBy(xs[..|xs| - 1], key), key, k) == WithKey(xs[..|xs| - 1], key, k)
    ensures WithKey(SortBy(xs, key), key, k) == WithKey(xs, key, k)
  {
    var n := |xs| - 1;
    InsertWithKey(SortBy(xs[..n], key), xs[n], key, k);
    Snoc(xs);
    WithKeyAppend(xs[..n], [xs[n]], key, k);
    WithKeyOne(xs[n], key, k);
  }

  /**
   * `SortEntries` returns the entries it is given, each as often as given, in (title,
   * type, key) order, with entries of equal keys in their original order.
   */
  lemma SortEntriesSpec(es: seq<Entry>)
    ensures multiset(SortEntries(es)) == multiset(es)
    ensures |SortEntries(es)| == |es|
    ensures Sorted(SortEntries(es), SortKeyOf)
    ensures forall k: SortKey :: WithKey(SortEntries(es), SortKeyOf, k) == WithKey(es, SortKeyOf, k)
  {
    SortBySpec(es, SortKeyOf);
    assert |multiset(SortEntries(es))| == |multiset(es)|;
  }

  /** The text lines 351-353 write: each entry's raw text followed by a blank line. */
  function Render(es: seq<Entry>): string {
    if es == [] then "" else Render(es[..|es| - 1]) + es[|es| - 1].raw + "\n\n"
  }

  /** Writing two lists one after the other writes their texts one after the other. */
  lemma {:induction false} RenderConcat(a: seq<Entry>, b: seq<Entry>)
    ensures Render(a + b) == Render(a) + Render(b)
    decreases |b|
  {
    if b == [] {
      assert a + b == a;
    } else {
      var n := |b| - 1;
      assert (a + b)[..|a + b| - 1] == a + b[..n];
      RenderConcat(a, b[..n]);
    }
  }

  /** The loop of lines 351-353, accumulating what `f.write` sends. */
  method WriteEntries(es: seq<Entry>) returns (out: string)
    ensures out == Render(es)
  {
    out := "";
    for i := 0 to |es|
      invariant out == Render(es[..i])
    {
      assert es[..i + 1][..i] == es[..i];
      out := out + es[i].raw + "\n\n";
    }
    assert es[..|es|] == es;
  }
}
