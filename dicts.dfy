/**
 * Python's `dict` as the merger uses it: an insertion-ordered table. Assigning to a key
 * that is present replaces its value where it stands; a new key goes to the end.
 */
module Dicts {

  /** The items of a dict, in the order their keys were first inserted. */
  type Dict<K, V> = seq<(K, V)>

  /** The keys carried by the items of `d`: `k in d` is `k in KeySet(d)`. */
  function KeySet<K(==), V>(d: seq<(K, V)>): (ks: set<K>)
    ensures forall i | 0 <= i < |d| :: d[i].0 in ks
  {
    if d == [] then {} else KeySet(d[..|d| - 1]) + {d[|d| - 1].0}
  }

  /** Every key of the key set is carried by some item. */
  lemma {:induction false} KeySetWitness<K, V>(d: seq<(K, V)>, k: K)
    requires k in KeySet(d)
    ensures exists i :: 0 <= i < |d| && d[i].0 == k
  {
    var n := |d| - 1;
    if d[n].0 != k {
      KeySetWitness(d[..n], k);
      var i :| 0 <= i < n && d[..n][i].0 == k;
      assert d[i].0 == k;
    }
  }

  /** A key no item carries is not in the key set. */
  lemma {:induction false} KeySetMissing<K, V>(d: seq<(K, V)>, k: K)
    requires forall i | 0 <= i < |d| :: d[i].0 != k
    ensures k !in KeySet(d)
  {
    if d != [] {
      KeySetMissing(d[..|d| - 1], k);
    }
  }

  /** Two item lists with the same keys position by position have the same key set. */
  lemma {:induction false} KeySetSameKeys<K, V, W>(d: seq<(K, V)>, e: seq<(K, W)>)
    requires |d| == |e| && forall i | 0 <= i < |d| :: d[i].0 == e[i].0
    ensures KeySet(d) == KeySet(e)
  {
    if d != [] {
      var n := |d| - 1;
      KeySetSameKeys(d[..n], e[..n]);
    }
  }

  /** Appending an item adds its key to the key set. */
  lemma KeySetSnoc<K, V>(d: seq<(K, V)>, k: K, v: V)
    ensures KeySet(d + [(k, v)]) == KeySet(d) + {k}
  {
    assert (d + [(k, v)])[..|d|] == d;
  }

  /** `list(d.keys())` */
  function KeysOf<K, V>(d: seq<(K, V)>): (ks: seq<K>)
    ensures |ks| == |d|
    ensures forall i | 0 <= i < |d| :: ks[i] == d[i].0
  {
    if d == [] then [] else KeysOf(d[..|d| - 1]) + [d[|d| - 1].0]
  }

  /** `list(d.values())` */
  function ValuesOf<K, V>(d: seq<(K, V)>): (vs: seq<V>)
    ensures |vs| == |d|
    ensures forall i | 0 <= i < |d| :: vs[i] == d[i].1
  {
    if d == [] then [] else ValuesOf(d[..|d| - 1]) + [d[|d| - 1].1]
  }

  lemma ValuesOfAppend<K, V>(a: seq<(K, V)>, b: seq<(K, V)>)
    ensures ValuesOf(a + b) == ValuesOf(a) + ValuesOf(b)
  {
    assert forall i | 0 <= i < |a + b| :: ValuesOf(a + b)[i] == (ValuesOf(a) + ValuesOf(b))[i];
  }

  ghost predicate KeysDistinct<K, V>(d: seq<(K, V)>) {
    forall i, j | 0 <= i < j < |d| :: d[i].0 != d[j].0
  }

  /** The position of the first item with key `k`. */
  function FirstPos<K(==), V>(ps: seq<(K, V)>, k: K): (p: nat)
    requires k in KeySet(ps)
    ensures p < |ps| && ps[p].0 == k
    ensures forall j | 0 <= j < p :: ps[j].0 != k
  {
    var n := |ps| - 1;
    if k in KeySet(ps[..n]) then FirstPos(ps[..n], k) else n
  }

  /** The position of the last item with key `k`. */
  function LastPos<K(==), V>(ps: seq<(K, V)>, k: K): (p: nat)
    requires k in KeySet(ps)
    ensures p < |ps| && ps[p].0 == k
    ensures forall j | p < j < |ps| :: ps[j].0 != k
  {
    var n := |ps| - 1;
    if ps[n].0 == k then n else LastPos(ps[..n], k)
  }

  /** The keys of `ps`, each once, in the order of their first occurrence. */
  function KeysInOrder<K(==), V>(ps: seq<(K, V)>): seq<K> {
    if ps == [] then []
    else
      var n := |ps| - 1;
      if ps[n].0 in KeySet(ps[..n]) then KeysInOrder(ps[..n]) else KeysInOrder(ps[..n]) + [ps[n].0]
  }

  /**
   * The keys in order of first occurrence are exactly the keys of `ps`, sorted by the
   * position of their first occurrence (so each appears once).
   */
  lemma {:induction false} KeysInOrderSpec<K, V>(ps: seq<(K, V)>)
    ensures var r := KeysInOrder(ps);
      && (forall i | 0 <= i < |r| :: r[i] in KeySet(ps))
      && (forall k | k in KeySet(ps) :: k in r)
      && (forall i, j | 0 <= i < j < |r| :: FirstPos(ps, r[i]) < FirstPos(ps, r[j]))
  {
    if ps != [] {
      var n := |ps| - 1;
      var r0 := KeysInOrder(ps[..n]);
      KeysInOrderSpec(ps[..n]);
      var r := KeysInOrder(ps);
      assert forall i | 0 <= i < |r0| :: FirstPos(ps, r0[i]) == FirstPos(ps[..n], r0[i]);
      if ps[n].0 !in KeySet(ps[..n]) {
        assert r == r0 + [ps[n].0];
        assert FirstPos(ps, ps[n].0) == n;
      }
    }
  }

  /** `d[k] = v` */
  function Put<K(==), V>(d: Dict<K, V>, k: K, v: V): Dict<K, V> {
    if k in KeySet(d) then d[FirstPos(d, k) := (k, v)] else d + [(k, v)]
  }

  /** `if k not in d: d[k] = v` */
  function PutIfAbsent<K(==), V>(d: Dict<K, V>, k: K, v: V): Dict<K, V> {
    if k in KeySet(d) then d else d + [(k, v)]
  }

  /** The dict that `d[k] = v` for each pair of `ps` in turn builds from `{}`. */
  function FromPairs<K(==), V>(ps: seq<(K, V)>): Dict<K, V> {
    if ps == [] then [] else Put(FromPairs(ps[..|ps| - 1]), ps[|ps| - 1].0, ps[|ps| - 1].1)
  }

  /** The dict that `if k not in d: d[k] = v` for each pair of `ps` in turn builds from `{}`. */
  function FirstWins<K(==), V>(ps: seq<(K, V)>): Dict<K, V> {
    if ps == [] then [] else PutIfAbsent(FirstWins(ps[..|ps| - 1]), ps[|ps| - 1].0, ps[|ps| - 1].1)
  }

  /**
   * What Python's dict assignment, applied to each pair of `ps` in turn, leaves in `d`:
   * the keys of the pairs, each once, in the order of their FIRST pair, each holding
   * the value of its LAST pair.
   */
  ghost predicate IsTableOf<K, V>(d: Dict<K, V>, ps: seq<(K, V)>) {
    && KeysOf(d) == KeysInOrder(ps)
    && KeySet(d) == KeySet(ps)
    && (forall i | 0 <= i < |d| :: d[i] == ps[LastPos(ps, d[i].0)])
  }

  /** The same as `IsTableOf`, except that each key holds the value of its FIRST pair. */
  ghost predicate IsFirstTableOf<K, V>(d: Dict<K, V>, ps: seq<(K, V)>) {
    && KeysOf(d) == KeysInOrder(ps)
    && KeySet(d) == KeySet(ps)
    && (forall i | 0 <= i < |d| :: d[i] == ps[FirstPos(ps, d[i].0)])
  }

  /** A table's keys are distinct and stand in the order of their first pair. */
  lemma TableKeys<K, V, W>(d: Dict<K, V>, ps: seq<(K, W)>)
    requires KeysOf(d) == KeysInOrder(ps) && KeySet(d) == KeySet(ps)
    ensures KeysDistinct(d)
    ensures forall i, j | 0 <= i < j < |d| :: FirstPos(ps, d[i].0) < FirstPos(ps, d[j].0)
  {
    KeysInOrderSpec(ps);
    assert forall i | 0 <= i < |d| :: d[i].0 == KeysInOrder(ps)[i];
  }

  /** `d[k] = v` for a key already present replaces the item of `k` and nothing else. */
  lemma PutPresentItems<K, V>(d0: Dict<K, V>, k: K, v: V)
    requires KeysDistinct(d0) && k in KeySet(d0)
    ensures var d := Put(d0, k, v);
      && |d| == |d0|
      && (forall i | 0 <= i < |d| :: d[i].0 == d0[i].0)
      && (forall i | 0 <= i < |d| :: d[i] == if d0[i].0 == k then (k, v) else d0[i])
  {
  }

  /** `d[k] = v` for a key already present keeps the table property for the longer history. */
  lemma PutPresent<K, V>(d0: Dict<K, V>, ps: seq<(K, V)>)
    requires |ps| > 0 && IsTableOf(d0, ps[..|ps| - 1]) && ps[|ps| - 1].0 in KeySet(d0)
    ensures IsTableOf(Put(d0, ps[|ps| - 1].0, ps[|ps| - 1].1), ps)
  {
    var n := |ps| - 1;
    var k, v := ps[n].0, ps[n].1;
    var d := Put(d0, k, v);
    TableKeys(d0, ps[..n]);
    PutPresentItems(d0, k, v);
    KeySetSameKeys(d, d0);
    assert KeysOf(d) == KeysOf(d0);
    forall i | 0 <= i < |d|
      ensures d[i] == ps[LastPos(ps, d[i].0)]
    {
      if d0[i].0 != k {
        assert LastPos(ps, d0[i].0) == LastPos(ps[..n], d0[i].0);
      }
    }
  }

  /** `d[k] = v` for a new key keeps the table property for the longer history. */
  lemma PutAbsent<K, V>(d0: Dict<K, V>, ps: seq<(K, V)>)
    requires |ps| > 0 && IsTableOf(d0, ps[..|ps| - 1]) && ps[|ps| - 1].0 !in KeySet(d0)
    ensures IsTableOf(Put(d0, ps[|ps| - 1].0, ps[|ps| - 1].1), ps)
  {
    var n := |ps| - 1;
    var k, v := ps[n].0, ps[n].1;
    var d := Put(d0, k, v);
    assert d == d0 + [(k, v)];
    assert d[..|d0|] == d0;
    KeySetSnoc(d0, k, v);
    forall i | 0 <= i < |d|
      ensures d[i] == ps[LastPos(ps, d[i].0)]
    {
      if i < |d0| {
        assert d[i] == d0[i];
      }
    }
  }

  /** Python's dict assignment, applied to each pair in turn, builds the table of the pairs. */
  lemma {:induction false} FromPairsSpec<K, V>(ps: seq<(K, V)>)
    ensures IsTableOf(FromPairs(ps), ps)
  {
    if ps != [] {
      var n := |ps| - 1;
      FromPairsSpec(ps[..n]);
      if ps[n].0 in KeySet(FromPairs(ps[..n])) {
        PutPresent(FromPairs(ps[..n]), ps);
      } else {
        PutAbsent(FromPairs(ps[..n]), ps);
      }
    }
  }

  /** `if k not in d: d[k] = v` applied to each pair in turn builds the first-wins table. */
  lemma {:induction false} FirstWinsSpec<K, V>(ps: seq<(K, V)>)
    ensures IsFirstTableOf(FirstWins(ps), ps)
  {
    if ps != [] {
      var n := |ps| - 1;
      var d0 := FirstWins(ps[..n]);
      var k, v := ps[n].0, ps[n].1;
      FirstWinsSpec(ps[..n]);
      var d := FirstWins(ps);
      assert forall i | 0 <= i < |d0| :: FirstPos(ps, d0[i].0) == FirstPos(ps[..n], d0[i].0);
      if k !in KeySet(d0) {
        assert d == d0 + [(k, v)];
        assert d[..|d0|] == d0;
        KeySetSnoc(d0, k, v);
        forall i | 0 <= i < |d|
          ensures d[i] == ps[FirstPos(ps, d[i].0)]
        {
          if i < |d0| {
            assert d[i] == d0[i];
          }
        }
      }
    }
  }

  /** Pairs whose keys are all different are already a dict: assigning them changes nothing. */
  lemma {:induction false} FromDistinctPairs<K, V>(ps: seq<(K, V)>)
    requires KeysDistinct(ps)
    ensures FromPairs(ps) == ps
  {
    if ps != [] {
      var n := |ps| - 1;
      FromDistinctPairs(ps[..n]);
      KeySetMissing(ps[..n], ps[n].0);
      assert ps == ps[..n] + [ps[n]];
    }
  }

  /** The values of the pairs of `ps` whose key is `k`, in order. */
  function Select<K(==), V>(ps: seq<(K, V)>, k: K): seq<V> {
    if ps == [] then []
    else
      var n := |ps| - 1;
      if ps[n].0 == k then Select(ps[..n], k) + [ps[n].1] else Select(ps[..n], k)
  }

  /** `d[k]` for a key of `d`. */
  function Get<K(==), V>(d: Dict<K, V>, k: K): V
    requires k in KeySet(d)
  {
    d[FirstPos(d, k)].1
  }

  /** `d[k].append(v)` on a `defaultdict(list)`: the first item with key `k` from position `i` on gets `v`. */
  function AppendFrom<K(==), V>(d: Dict<K, seq<V>>, k: K, v: V, i: nat): Dict<K, seq<V>>
    requires i <= |d|
    decreases |d| - i
  {
    if i == |d| then d + [(k, [v])]
    else if d[i].0 == k then d[i := (k, d[i].1 + [v])]
    else AppendFrom(d, k, v, i + 1)
  }

  /** `d[k].append(v)` on a `defaultdict(list)`. */
  function Append<K(==), V>(d: Dict<K, seq<V>>, k: K, v: V): Dict<K, seq<V>> {
    AppendFrom(d, k, v, 0)
  }

  lemma {:induction false} AppendFromSpec<K, V>(d: Dict<K, seq<V>>, k: K, v: V, i: nat)
    requires i <= |d| && forall j | 0 <= j < i :: d[j].0 != k
    ensures AppendFrom(d, k, v, i) ==
      if k in KeySet(d) then d[FirstPos(d, k) := (k, d[FirstPos(d, k)].1 + [v])] else d + [(k, [v])]
    decreases |d| - i
  {
    if i == |d| {
      KeySetMissing(d, k);
    } else if d[i].0 == k {
      var p := FirstPos(d, k);
      assert p == i;
    } else {
      AppendFromSpec(d, k, v, i + 1);
    }
  }

  /**
   * Appending to a key that is present extends its list where it stands; appending to a
   * new key adds it at the end with a one-element list.
   */
  lemma AppendSpec<K, V>(d: Dict<K, seq<V>>, k: K, v: V)
    ensures Append(d, k, v) ==
      if k in KeySet(d) then d[FirstPos(d, k) := (k, d[FirstPos(d, k)].1 + [v])] else d + [(k, [v])]
  {
    AppendFromSpec(d, k, v, 0);
  }

  /** The `defaultdict(list)` that `d[k].append(v)` for each pair of `ps` in turn builds. */
  function GroupBy<K(==), V>(ps: seq<(K, V)>): Dict<K, seq<V>> {
    if ps == [] then [] else Append(GroupBy(ps[..|ps| - 1]), ps[|ps| - 1].0, ps[|ps| - 1].1)
  }

  /**
   * What appending each pair of `ps` in turn leaves in `d`: the keys of the pairs, each
   * once, in the order of their first pair, each holding the values of all its pairs.
   */
  ghost predicate IsGroupingOf<K, V>(d: Dict<K, seq<V>>, ps: seq<(K, V)>) {
    && KeysOf(d) == KeysInOrder(ps)
    && KeySet(d) == KeySet(ps)
    && (forall i | 0 <= i < |d| :: d[i].1 == Select(ps, d[i].0))
  }

  /** Appending to a key already present extends the list of that key and nothing else. */
  lemma AppendPresent<K, V>(d0: Dict<K, seq<V>>, ps: seq<(K, V)>)
    requires |ps| > 0 && IsGroupingOf(d0, ps[..|ps| - 1]) && ps[|ps| - 1].0 in KeySet(d0)
    ensures IsGroupingOf(Append(d0, ps[|ps| - 1].0, ps[|ps| - 1].1), ps)
  {
    var n := |ps| - 1;
    var k, v := ps[n].0, ps[n].1;
    var d := Append(d0, k, v);
    var p := FirstPos(d0, k);
    AppendSpec(d0, k, v);
    TableKeys(d0, ps[..n]);
    assert forall i | 0 <= i < |d| :: d[i].0 == d0[i].0;
    KeySetSameKeys(d, d0);
    assert KeysOf(d) == KeysOf(d0);
    forall i | 0 <= i < |d|
      ensures d[i].1 == Select(ps, d[i].0)
    {
      if i != p {
        assert d0[i].0 != k;
      }
    }
  }

  /** Appending to a new key adds a one-element list at the end. */
  lemma AppendAbsent<K, V>(d0: Dict<K, seq<V>>, ps: seq<(K, V)>)
    requires |ps| > 0 && IsGroupingOf(d0, ps[..|ps| - 1]) && ps[|ps| - 1].0 !in KeySet(d0)
    ensures IsGroupingOf(Append(d0, ps[|ps| - 1].0, ps[|ps| - 1].1), ps)
  {
    var n := |ps| - 1;
    var k, v := ps[n].0, ps[n].1;
    var d := Append(d0, k, v);
    AppendSpec(d0, k, v);
    assert d == d0 + [(k, [v])];
    assert d[..|d0|] == d0;
    KeySetSnoc(d0, k, [v]);
    SelectMissing(ps[..n], k);
    forall i | 0 <= i < |d|
      ensures d[i].1 == Select(ps, d[i].0)
    {
      if i < |d0| {
        assert d[i] == d0[i];
      }
    }
  }

  /** A key that no pair carries selects nothing. */
  lemma {:induction false} SelectMissing<K, V>(ps: seq<(K, V)>, k: K)
    requires k !in KeySet(ps)
    ensures Select(ps, k) == []
  {
    if ps != [] {
      SelectMissing(ps[..|ps| - 1], k);
    }
  }

  /** Appending each pair in turn to a `defaultdict(list)` groups the values by key. */
  lemma {:induction false} GroupBySpec<K, V>(ps: seq<(K, V)>)
    ensures IsGroupingOf(GroupBy(ps), ps)
  {
    if ps != [] {
      var n := |ps| - 1;
      GroupBySpec(ps[..n]);
      if ps[n].0 in KeySet(GroupBy(ps[..n])) {
        AppendPresent(GroupBy(ps[..n]), ps);
      } else {
        AppendAbsent(GroupBy(ps[..n]), ps);
      }
    }
  }

  /** Appending one more pair to the history appends its value to its key's group. */
  lemma GroupByPush<K, V>(ps: seq<(K, V)>, p: (K, V))
    ensures GroupBy(ps + [p]) == Append(GroupBy(ps), p.0, p.1)
  {
    assert (ps + [p])[..|ps|] == ps;
  }

  /** `d[k].append(v)` for the pair `(k, v)`, as a step of a loop over pairs. */
  function AppendItem<K(==), V>(d: Dict<K, seq<V>>, p: (K, V)): Dict<K, seq<V>> {
    Append(d, p.0, p.1)
  }

  /** A loop that applies `step` to `g0` and each of the first `n` elements of `xs` in turn. */
  function Fold<G, X>(step: (G, X) -> G, g0: G, xs: seq<X>, n: nat): G
    requires n <= |xs|
  {
    if n == 0 then g0 else step(Fold(step, g0, xs, n - 1), xs[n - 1])
  }

  /** Folding over `ys`, which sit in `xs` from position `o0` on, continues the fold over `xs`. */
  lemma {:induction false} FoldShift<G, X>(step: (G, X) -> G, g0: G, xs: seq<X>, ys: seq<X>, o0: nat, n: nat)
    requires o0 + |ys| <= |xs| && n <= |ys|
    requires forall j | 0 <= j < |ys| :: xs[o0 + j] == ys[j]
    ensures Fold(step, Fold(step, g0, xs, o0), ys, n) == Fold(step, g0, xs, o0 + n)
  {
    if n > 0 {
      FoldShift(step, g0, xs, ys, o0, n - 1);
      assert xs[o0 + (n - 1)] == ys[n - 1];
    }
  }

  /** A fold over `ys` started where the fold over `xs` stopped at position `o0` is the longer fold over `xs`. */
  lemma FoldContinue<G, X>(step: (G, X) -> G, g0: G, xs: seq<X>, ys: seq<X>, o0: nat, g: G)
    requires o0 + |ys| <= |xs| && forall j | 0 <= j < |ys| :: xs[o0 + j] == ys[j]
    requires g == Fold(step, g0, xs, o0)
    ensures Fold(step, g, ys, |ys|) == Fold(step, g0, xs, o0 + |ys|)
  {
    FoldShift(step, g0, xs, ys, o0, |ys|);
  }

  /** Grouping the first `n` pairs is appending them one by one to an empty table. */
  lemma {:induction false} GroupByFold<K, V>(ps: seq<(K, V)>, n: nat)
    requires n <= |ps|
    ensures GroupBy(ps[..n]) == Fold(AppendItem, [], ps, n)
  {
    if n > 0 {
      GroupByFold(ps, n - 1);
      assert ps[..n] == ps[..n - 1] + [ps[n - 1]];
      GroupByPush(ps[..n - 1], ps[n - 1]);
    }
  }

  /** Every group of `GroupBy(ps)` holds the values selected for its key, and at least one. */
  lemma GroupBySelects<K, V>(ps: seq<(K, V)>)
    ensures forall i | 0 <= i < |GroupBy(ps)| ::
      GroupBy(ps)[i].1 == Select(ps, GroupBy(ps)[i].0) && |GroupBy(ps)[i].1| > 0
  {
    var g := GroupBy(ps);
    GroupBySpec(ps);
    forall i | 0 <= i < |g|
      ensures |g[i].1| > 0
    {
      KeySetWitness(ps, g[i].0);
      SelectNonEmpty(ps, g[i].0);
    }
  }

  /** The key of every pair has a group in `GroupBy(ps)`. */
  lemma GroupByFind<K, V>(ps: seq<(K, V)>, p: nat) returns (i: nat)
    requires p < |ps|
    ensures i < |GroupBy(ps)| && GroupBy(ps)[i].0 == ps[p].0
  {
    GroupBySpec(ps);
    KeySetWitness(GroupBy(ps), ps[p].0);
    i :| 0 <= i < |GroupBy(ps)| && GroupBy(ps)[i].0 == ps[p].0;
  }

  /** Some value is selected for `k` exactly when some pair carries `k`. */
  lemma {:induction false} SelectNonEmpty<K, V>(ps: seq<(K, V)>, k: K)
    ensures |Select(ps, k)| >= 1 <==> exists p | 0 <= p < |ps| :: ps[p].0 == k
  {
    if ps != [] {
      var n := |ps| - 1;
      SelectNonEmpty(ps[..n], k);
      if exists p | 0 <= p < n :: ps[..n][p].0 == k {
        var p :| 0 <= p < n && ps[..n][p].0 == k;
        assert ps[p].0 == k;
      }
      if exists p | 0 <= p < |ps| :: ps[p].0 == k {
        var p :| 0 <= p < |ps| && ps[p].0 == k;
        if p < n {
          assert ps[..n][p].0 == k;
        }
      }
    }
  }

  /** Two or more values are selected for `k` exactly when two pairs carry `k`. */
  lemma {:induction false} SelectTwo<K, V>(ps: seq<(K, V)>, k: K)
    ensures |Select(ps, k)| >= 2 <==> exists p, q | 0 <= p < q < |ps| :: ps[p].0 == k && ps[q].0 == k
  {
    if ps != [] {
      var n := |ps| - 1;
      var pre := ps[..n];
      SelectTwo(pre, k);
      SelectNonEmpty(pre, k);
      if exists p, q | 0 <= p < q < |ps| :: ps[p].0 == k && ps[q].0 == k {
        var p, q :| 0 <= p < q < |ps| && ps[p].0 == k && ps[q].0 == k;
        assert pre[p].0 == k;
        if q < n {
          assert pre[q].0 == k;
        }
      }
      if exists p, q | 0 <= p < q < n :: pre[p].0 == k && pre[q].0 == k {
        var p, q :| 0 <= p < q < n && pre[p].0 == k && pre[q].0 == k;
        assert ps[p].0 == k && ps[q].0 == k;
      }
      if ps[n].0 == k && exists p | 0 <= p < n :: pre[p].0 == k {
        var p :| 0 <= p < n && pre[p].0 == k;
        assert ps[p].0 == k;
      }
    }
  }

  /** Every selected value comes from a pair carrying `k`. */
  lemma {:induction false} SelectFrom<K, V>(ps: seq<(K, V)>, k: K, x: nat)
    requires x < |Select(ps, k)|
    ensures exists p | 0 <= p < |ps| :: ps[p] == (k, Select(ps, k)[x])
  {
    var n := |ps| - 1;
    var s0 := Select(ps[..n], k);
    if x < |s0| {
      SelectFrom(ps[..n], k, x);
      var p :| 0 <= p < n && ps[..n][p] == (k, s0[x]);
      assert ps[p] == (k, Select(ps, k)[x]);
    } else {
      assert ps[n] == (k, Select(ps, k)[x]);
    }
  }

  /** The value of every pair carrying `k` is selected. */
  lemma {:induction false} SelectHas<K, V>(ps: seq<(K, V)>, p: nat)
    requires p < |ps|
    ensures exists x | 0 <= x < |Select(ps, ps[p].0)| :: Select(ps, ps[p].0)[x] == ps[p].1
  {
    var n := |ps| - 1;
    var k := ps[p].0;
    if p < n {
      SelectHas(ps[..n], p);
      var x :| 0 <= x < |Select(ps[..n], k)| && Select(ps[..n], k)[x] == ps[p].1;
      assert Select(ps, k)[x] == ps[p].1;
    } else {
      assert Select(ps, k)[|Select(ps, k)| - 1] == ps[p].1;
    }
  }

  /** Some group holds two or more values. */
  predicate HasLongGroup<K, V>(g: Dict<K, seq<V>>) {
    exists i | 0 <= i < |g| :: |g[i].1| >= 2
  }

  /** Two pairs share a key. */
  predicate SharedKey<K(==), V>(ps: seq<(K, V)>) {
    exists p, q | 0 <= p < q < |ps| :: ps[p].0 == ps[q].0
  }

  /** Some group of `GroupBy(ps)` holds two or more values exactly when two pairs share a key. */
  lemma GroupByLong<K, V>(ps: seq<(K, V)>)
    ensures HasLongGroup(GroupBy(ps)) <==> SharedKey(ps)
  {
    var g := GroupBy(ps);
    GroupBySpec(ps);
    if HasLongGroup(g) {
      var i :| 0 <= i < |g| && |g[i].1| >= 2;
      SelectTwo(ps, g[i].0);
    }
    if SharedKey(ps) {
      var p, q :| 0 <= p < q < |ps| && ps[p].0 == ps[q].0;
      var k := ps[p].0;
      KeySetWitness(g, k);
      var i :| 0 <= i < |g| && g[i].0 == k;
      SelectTwo(ps, k);
    }
  }

  /** Some group holds two values with different first components. */
  predicate HasDiverseGroup<K, A(==), B>(g: Dict<K, seq<(A, B)>>) {
    exists i, x, y | 0 <= i < |g| && 0 <= x < |g[i].1| && 0 <= y < |g[i].1| :: g[i].1[x].0 != g[i].1[y].0
  }

  /** Two pairs share a key but not the first component of their values. */
  predicate SharedKeyDiverse<K(==), A(==), B>(ps: seq<(K, (A, B))>) {
    exists p, q | 0 <= p < |ps| && 0 <= q < |ps| :: ps[p].0 == ps[q].0 && ps[p].1.0 != ps[q].1.0
  }

  /**
   * Some group of `GroupBy(ps)` holds two values with different first components exactly
   * when two pairs share a key but not that component.
   */
  lemma GroupByDiverse<K, A, B>(ps: seq<(K, (A, B))>)
    ensures HasDiverseGroup(GroupBy(ps)) <==> SharedKeyDiverse(ps)
  {
    if HasDiverseGroup(GroupBy(ps)) {
      DiverseGroupFromPairs(ps);
    }
    if SharedKeyDiverse(ps) {
      DiversePairsInGroup(ps);
    }
  }

  lemma DiverseGroupFromPairs<K, A, B>(ps: seq<(K, (A, B))>)
    requires HasDiverseGroup(GroupBy(ps))
    ensures SharedKeyDiverse(ps)
  {
    var g := GroupBy(ps);
    GroupBySpec(ps);
    var i, x, y :| 0 <= i < |g| && 0 <= x < |g[i].1| && 0 <= y < |g[i].1| && g[i].1[x].0 != g[i].1[y].0;
    SelectFrom(ps, g[i].0, x);
    SelectFrom(ps, g[i].0, y);
  }

  lemma DiversePairsInGroup<K, A, B>(ps: seq<(K, (A, B))>)
    requires SharedKeyDiverse(ps)
    ensures HasDiverseGroup(GroupBy(ps))
  {
    var g := GroupBy(ps);
    GroupBySpec(ps);
    var p, q :| 0 <= p < |ps| && 0 <= q < |ps| && ps[p].0 == ps[q].0 && ps[p].1.0 != ps[q].1.0;
    KeySetWitness(g, ps[p].0);
    var i :| 0 <= i < |g| && g[i].0 == ps[p].0;
    SelectHas(ps, p);
    SelectHas(ps, q);
  }

  /** `[f(x) for x in xs]` */
  function MapSeq<T, U>(xs: seq<T>, f: T -> U): (ys: seq<U>)
    ensures |ys| == |xs|
  {
    if xs == [] then [] else MapSeq(xs[..|xs| - 1], f) + [f(xs[|xs| - 1])]
  }

  lemma {:induction false} MapSeqAt<T, U>(xs: seq<T>, f: T -> U, p: nat)
    requires p < |xs|
    ensures MapSeq(xs, f)[p] == f(xs[p])
  {
    var n := |xs| - 1;
    if p < n {
      MapSeqAt(xs[..n], f, p);
    }
  }

  /** Exactly when the set `s` has more than one member, it holds two different values. */
  lemma SetOfTwo<T>(s: set<T>)
    ensures |s| > 1 <==> exists a, b | a in s && b in s :: a != b
  {
    if |s| > 1 {
      var a :| a in s;
      assert |s - {a}| > 0;
      var b :| b in s - {a};
      assert a in s && b in s && a != b;
    }
    if exists a, b | a in s && b in s :: a != b {
      var a, b :| a in s && b in s && a != b;
      var rest := s - {a, b};
      assert s == rest + {a, b} && rest * {a, b} == {};
      assert |{a, b}| == 2;
    }
  }

  /** `d[k] = v` leaves the keys of `d` and adds `k`. */
  lemma PutKeys<K, V>(d: Dict<K, V>, k: K, v: V)
    ensures KeySet(Put(d, k, v)) == KeySet(d) + {k}
  {
    if k in KeySet(d) {
      var e := Put(d, k, v);
      forall j | j in KeySet(e) ensures j in KeySet(d) {
        KeySetWitness(e, j);
        var i :| 0 <= i < |e| && e[i].0 == j;
        assert d[i].0 == j;
      }
      forall j | j in KeySet(d) ensures j in KeySet(e) {
        KeySetWitness(d, j);
        var i :| 0 <= i < |d| && d[i].0 == j;
        assert e[i].0 == j;
      }
    } else {
      KeySetSnoc(d, k, v);
    }
  }

  /** After `d[k] = v`, looking up `k` gives `v`. */
  lemma PutGet<K, V>(d: Dict<K, V>, k: K, v: V)
    ensures k in KeySet(Put(d, k, v)) && Get(Put(d, k, v), k) == v
  {
    PutKeys(d, k, v);
    if k !in KeySet(d) {
      var e := Put(d, k, v);
      assert e[|d|] == (k, v);
      assert FirstPos(e, k) == |d|;
    }
  }

  /** `d[k] = v` does not change the value of any other key. */
  lemma PutGetOther<K, V>(d: Dict<K, V>, k: K, v: V, j: K)
    requires j in KeySet(d) && j != k
    ensures j in KeySet(Put(d, k, v)) && Get(Put(d, k, v), j) == Get(d, j)
  {
    PutKeys(d, k, v);
    var e := Put(d, k, v);
    var p := FirstPos(d, j);
    assert e[p] == d[p];
    assert forall i | 0 <= i < p :: e[i].0 == d[i].0;
    assert FirstPos(e, j) == p;
  }

  /** Every item of `d[k] = v` is `(k, v)` or an item of `d` at the same place. */
  lemma PutItems<K, V>(d: Dict<K, V>, k: K, v: V)
    ensures forall i | 0 <= i < |Put(d, k, v)| :: Put(d, k, v)[i] == (k, v) || (i < |d| && Put(d, k, v)[i] == d[i])
  {
  }

  /** `FirstWins` keeps each key once, and every item it keeps is one of the pairs. */
  lemma FirstWinsItems<K, V>(ps: seq<(K, V)>)
    ensures KeysDistinct(FirstWins(ps))
    ensures forall i | 0 <= i < |FirstWins(ps)| :: FirstWins(ps)[i] in ps
  {
    var d := FirstWins(ps);
    FirstWinsSpec(ps);
    TableKeys(d, ps);
    forall i | 0 <= i < |d| ensures d[i] in ps {
      assert d[i] == ps[FirstPos(ps, d[i].0)];
    }
  }

  /** A non-empty sequence is its prefix followed by its last element. */
  lemma Snoc<T>(s: seq<T>)
    requires s != []
    ensures s == s[..|s| - 1] + [s[|s| - 1]]
  {
    assert s[..|s| - 1] + [s[|s| - 1]] == s[..|s|];
  }
}
