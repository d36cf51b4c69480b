/**
 * The grouping of `check_same_key_different_titles` (bib-merger.py:204-214): the collected
 * entries by key, then each key's entries by type. An entry is given by its position in
 * the collected list, which stands for the identity of the record object that the groups
 * share with `all_entries`. The main facts: every group visited is exactly the set of
 * positions sharing one (key, type), in order, and every entry lies in such a group.
 */
module KeyGroups {
  import opened Dicts
  import opened Records

  /** Every position in `ps` points into `all`. */
  predicate ValidPositions(all: seq<Entry>, ps: seq<nat>) {
    forall x | 0 <= x < |ps| :: ps[x] < |all|
  }

  /** The pairs (key, position) that lines 205-206 append, in order. */
  function KeyedPositions(all: seq<Entry>): (ps: seq<(string, nat)>)
    ensures |ps| == |all|
  {
    if all == [] then [] else KeyedPositions(all[..|all| - 1]) + [(all[|all| - 1].key, |all| - 1)]
  }

  /** The positions of the entries with key `k`, in order. */
  function PositionsWithKey(all: seq<Entry>, k: string): (r: seq<nat>)
    ensures ValidPositions(all, r)
  {
    if all == [] then []
    else
      var n := |all| - 1;
      if all[n].key == k then PositionsWithKey(all[..n], k) + [n] else PositionsWithKey(all[..n], k)
  }

  lemma {:induction false} InPositionsWithKey(all: seq<Entry>, k: string, p: nat)
    ensures p in PositionsWithKey(all, k) <==> p < |all| && all[p].key == k
  {
    if all != [] {
      var n := |all| - 1;
      InPositionsWithKey(all[..n], k, p);
    }
  }

  /** Grouping the pairs of line 206 selects, for each key, the positions carrying it. */
  lemma {:induction false} SelectKeyed(all: seq<Entry>, k: string)
    ensures Select(KeyedPositions(all), k) == PositionsWithKey(all, k)
  {
    if all != [] {
      var n := |all| - 1;
      SelectKeyed(all[..n], k);
      assert KeyedPositions(all)[..n] == KeyedPositions(all[..n]);
    }
  }

  /** The pairs (type, position) that lines 213-214 append for the positions `ps`. */
  function TypedPositions(all: seq<Entry>, ps: seq<nat>): (r: seq<(string, nat)>)
    requires ValidPositions(all, ps)
    ensures |r| == |ps|
  {
    if ps == [] then []
    else
      var n := |ps| - 1;
      TypedPositions(all, ps[..n]) + [(all[ps[n]].entryType, ps[n])]
  }

  /** The positions of `ps` whose entries have type `t`, in order. */
  function PositionsWithType(all: seq<Entry>, ps: seq<nat>, t: string): (r: seq<nat>)
    requires ValidPositions(all, ps)
    ensures ValidPositions(all, r)
  {
    if ps == [] then []
    else
      var n := |ps| - 1;
      var r := PositionsWithType(all, ps[..n], t);
      if all[ps[n]].entryType == t then r + [ps[n]] else r
  }

  lemma {:induction false} InPositionsWithType(all: seq<Entry>, ps: seq<nat>, t: string, p: nat)
    requires ValidPositions(all, ps)
    ensures p in PositionsWithType(all, ps, t) <==> p < |all| && p in ps && all[p].entryType == t
  {
    if ps != [] {
      var n := |ps| - 1;
      InPositionsWithType(all, ps[..n], t, p);
      assert ps == ps[..n] + [ps[n]];
    }
  }

  /** Grouping the pairs of line 214 selects, for each type, the positions carrying it. */
  lemma {:induction false} SelectTyped(all: seq<Entry>, ps: seq<nat>, t: string)
    requires ValidPositions(all, ps)
    ensures Select(TypedPositions(all, ps), t) == PositionsWithType(all, ps, t)
  {
    if ps != [] {
      var n := |ps| - 1;
      SelectTyped(all, ps[..n], t);
      assert TypedPositions(all, ps)[..n] == TypedPositions(all, ps[..n]);
    }
  }

  /** The positions of the entries with key `k` and type `t`, in order: one (key, type) group. */
  function PositionsWith(all: seq<Entry>, k: string, t: string): seq<nat> {
    PositionsWithType(all, PositionsWithKey(all, k), t)
  }

  lemma InPositionsWith(all: seq<Entry>, k: string, t: string, p: nat)
    ensures p in PositionsWith(all, k, t) <==> p < |all| && all[p].key == k && all[p].entryType == t
  {
    InPositionsWithType(all, PositionsWithKey(all, k), t, p);
    InPositionsWithKey(all, k, p);
  }

  /** The (key, type) group of the entry at `p`. */
  function GroupOf(all: seq<Entry>, p: nat): seq<nat>
    requires p < |all|
  {
    PositionsWith(all, all[p].key, all[p].entryType)
  }

  /** `entries_by_key` (lines 204-206). */
  function EntriesByKey(all: seq<Entry>): Dict<string, seq<nat>> {
    GroupBy(KeyedPositions(all))
  }

  /** Each group of `entries_by_key` holds the positions of the entries with its key. */
  lemma EntriesByKeySpec(all: seq<Entry>)
    ensures forall y | 0 <= y < |EntriesByKey(all)| ::
      EntriesByKey(all)[y].1 == PositionsWithKey(all, EntriesByKey(all)[y].0) && |EntriesByKey(all)[y].1| > 0
  {
    GroupBySelects(KeyedPositions(all));
    forall y | 0 <= y < |EntriesByKey(all)|
      ensures EntriesByKey(all)[y].1 == PositionsWithKey(all, EntriesByKey(all)[y].0)
    {
      SelectKeyed(all, EntriesByKey(all)[y].0);
    }
  }

  /** `entries_by_type` (lines 212-214) for the positions `ps` of one key. */
  function EntriesByType(all: seq<Entry>, ps: seq<nat>): Dict<string, seq<nat>>
    requires ValidPositions(all, ps)
  {
    GroupBy(TypedPositions(all, ps))
  }

  /** Each group of `entries_by_type` holds the positions of `ps` with its type. */
  lemma EntriesByTypeSpec(all: seq<Entry>, ps: seq<nat>)
    requires ValidPositions(all, ps)
    ensures forall z | 0 <= z < |EntriesByType(all, ps)| ::
      && EntriesByType(all, ps)[z].1 == PositionsWithType(all, ps, EntriesByType(all, ps)[z].0)
      && |EntriesByType(all, ps)[z].1| > 0
  {
    GroupBySelects(TypedPositions(all, ps));
    forall z | 0 <= z < |EntriesByType(all, ps)|
      ensures EntriesByType(all, ps)[z].1 == PositionsWithType(all, ps, EntriesByType(all, ps)[z].0)
    {
      SelectTyped(all, ps, EntriesByType(all, ps)[z].0);
    }
  }

  /** The groups of one key, each with that key. */
  function Tag(k: string, tg: Dict<string, seq<nat>>): (r: seq<(string, seq<nat>)>)
    ensures |r| == |tg|
    ensures forall z | 0 <= z < |tg| :: r[z] == (k, tg[z].1)
  {
    if tg == [] then [] else Tag(k, tg[..|tg| - 1]) + [(k, tg[|tg| - 1].1)]
  }

  /** Every key group's positions point into `all`. */
  predicate ValidGroups(all: seq<Entry>, kg: Dict<string, seq<nat>>) {
    forall y | 0 <= y < |kg| :: ValidPositions(all, kg[y].1)
  }

  /** Each key group with its own grouping by type. */
  function ByKeyThenType(all: seq<Entry>, kg: Dict<string, seq<nat>>): (r: seq<(string, Dict<string, seq<nat>>)>)
    requires ValidGroups(all, kg)
    ensures |r| == |kg|
    ensures forall y | 0 <= y < |kg| :: r[y] == (kg[y].0, EntriesByType(all, kg[y].1))
  {
    if kg == [] then []
    else
      var n := |kg| - 1;
      ByKeyThenType(all, kg[..n]) + [(kg[n].0, EntriesByType(all, kg[n].1))]
  }

  /** The inner groups of `parts`, each with its outer key, in the order a nested loop visits them. */
  function Nest(parts: seq<(string, Dict<string, seq<nat>>)>): seq<(string, seq<nat>)> {
    if parts == [] then []
    else
      var n := |parts| - 1;
      Nest(parts[..n]) + Tag(parts[n].0, parts[n].1)
  }

  lemma EntriesByKeyValid(all: seq<Entry>)
    ensures ValidGroups(all, EntriesByKey(all))
  {
    EntriesByKeySpec(all);
  }

  /** The key groups of `entries_by_key`, each with its grouping by type. */
  function Parts(all: seq<Entry>): seq<(string, Dict<string, seq<nat>>)> {
    EntriesByKeyValid(all);
    ByKeyThenType(all, EntriesByKey(all))
  }

  /** The (key, type) groups lines 210-216 visit, in order. */
  function Groups(all: seq<Entry>): seq<(string, seq<nat>)> {
    Nest(Parts(all))
  }

  lemma NestNext(parts: seq<(string, Dict<string, seq<nat>>)>, y: nat)
    requires y < |parts|
    ensures |Nest(parts[..y + 1])| == |Nest(parts[..y])| + |parts[y].1|
  {
    assert parts[..y + 1][..y] == parts[..y];
  }

  /** The groups of a prefix of the parts are no more than those of all parts. */
  lemma {:induction false} NestPrefix(parts: seq<(string, Dict<string, seq<nat>>)>, k: nat)
    requires k <= |parts|
    ensures |Nest(parts[..k])| <= |Nest(parts)|
    decreases |parts|
  {
    if k < |parts| {
      var n := |parts| - 1;
      NestPrefix(parts[..n], k);
      assert parts[..n][..k] == parts[..k];
    } else {
      assert parts[..k] == parts;
    }
  }

  /** Inner group `z` of part `y` is visited right after the groups of the earlier parts. */
  lemma {:induction false} NestAt(parts: seq<(string, Dict<string, seq<nat>>)>, y: nat, z: nat)
    requires y < |parts| && z < |parts[y].1|
    ensures |Nest(parts[..y])| + z < |Nest(parts)|
    ensures Nest(parts)[|Nest(parts[..y])| + z] == (parts[y].0, parts[y].1[z].1)
    decreases |parts|
  {
    var n := |parts| - 1;
    var pre := parts[..n];
    if y < n {
      NestAt(pre, y, z);
      assert pre[..y] == parts[..y];
    } else {
      assert pre == parts[..y];
    }
  }

  /** Part `y` contributes the groups `o`, `o + 1`, ... of `Nest(parts)`, one per inner group, in order. */
  lemma NestVisit(parts: seq<(string, Dict<string, seq<nat>>)>, o: nat, y: nat)
    requires y < |parts| && o == |Nest(parts[..y])|
    ensures o + |parts[y].1| == |Nest(parts[..y + 1])| <= |Nest(parts)|
    ensures forall z | 0 <= z < |parts[y].1| :: Nest(parts)[o + z] == (parts[y].0, parts[y].1[z].1)
  {
    NestNext(parts, y);
    NestPrefix(parts, y + 1);
    forall z | 0 <= z < |parts[y].1| ensures Nest(parts)[o + z] == (parts[y].0, parts[y].1[z].1) {
      NestAt(parts, y, z);
    }
  }

  /** Every visited group is inner group `z` of some part `y`. */
  lemma {:induction false} NestSource(parts: seq<(string, Dict<string, seq<nat>>)>, x: nat) returns (y: nat, z: nat)
    requires x < |Nest(parts)|
    ensures y < |parts| && z < |parts[y].1|
    ensures x == |Nest(parts[..y])| + z
    decreases |parts|
  {
    var n := |parts| - 1;
    var pre := parts[..n];
    if x < |Nest(pre)| {
      y, z := NestSource(pre, x);
      assert pre[..y] == parts[..y];
    } else {
      y, z := n, x - |Nest(pre)|;
      assert pre == parts[..y];
    }
  }

  /** Part `y` is the key group `y` of `entries_by_key`, grouped by type. */
  lemma PartAt(all: seq<Entry>, y: nat) returns (ps: seq<nat>)
    requires y < |Parts(all)|
    ensures y < |EntriesByKey(all)| && ps == EntriesByKey(all)[y].1
    ensures ValidPositions(all, ps) && ps == PositionsWithKey(all, Parts(all)[y].0)
    ensures Parts(all)[y] == (EntriesByKey(all)[y].0, EntriesByType(all, ps))
  {
    EntriesByKeySpec(all);
    ps := EntriesByKey(all)[y].1;
  }

  /** Type group `z` of the positions `ps` holds the positions of `ps` with its type. */
  lemma TypeGroupAt(all: seq<Entry>, ps: seq<nat>, z: nat)
    requires ValidPositions(all, ps) && z < |EntriesByType(all, ps)|
    ensures EntriesByType(all, ps)[z].1 == PositionsWithType(all, ps, EntriesByType(all, ps)[z].0)
    ensures |EntriesByType(all, ps)[z].1| > 0
  {
    EntriesByTypeSpec(all, ps);
  }

  /** Inner group `z` of part `y` is visited group number `|Nest(Parts(all)[..y])| + z`. */
  lemma GroupsAt(all: seq<Entry>, x: nat, y: nat, z: nat)
    requires y < |Parts(all)| && z < |Parts(all)[y].1| && x == |Nest(Parts(all)[..y])| + z
    ensures x < |Groups(all)|
    ensures Groups(all)[x].0 == Parts(all)[y].0 && Groups(all)[x].1 == Parts(all)[y].1[z].1
  {
    NestAt(Parts(all), y, z);
  }

  /** Every visited group is inner group `z` of some part `y`. */
  lemma GroupsSource(all: seq<Entry>, x: nat) returns (y: nat, z: nat)
    requires x < |Groups(all)|
    ensures y < |Parts(all)| && z < |Parts(all)[y].1| && x == |Nest(Parts(all)[..y])| + z
  {
    y, z := NestSource(Parts(all), x);
  }

  /** Inner group `z` of part `y` is the (key, type) group of the part's key and the group's type. */
  lemma InnerGroup(all: seq<Entry>, y: nat, z: nat)
    requires y < |Parts(all)| && z < |Parts(all)[y].1|
    ensures Parts(all)[y].1[z].1 == PositionsWith(all, Parts(all)[y].0, Parts(all)[y].1[z].0)
    ensures |Parts(all)[y].1[z].1| > 0
  {
    var ps := PartAt(all, y);
    TypeGroupAt(all, ps, z);
  }

  /** Every visited group is the whole, non-empty (key, type) group of its key and some type. */
  lemma GroupExact(all: seq<Entry>, x: nat) returns (t: string)
    requires x < |Groups(all)|
    ensures Groups(all)[x].1 == PositionsWith(all, Groups(all)[x].0, t) && |Groups(all)[x].1| > 0
  {
    var y, z := GroupsSource(all, x);
    GroupsAt(all, x, y, z);
    InnerGroup(all, y, z);
    t := Parts(all)[y].1[z].0;
  }

  /** Every entry lies in a visited group: its own (key, type) group. */
  lemma GroupOfEntry(all: seq<Entry>, p: nat) returns (x: nat)
    requires p < |all|
    ensures x < |Groups(all)| && Groups(all)[x] == (all[p].key, GroupOf(all, p))
  {
    var y, z := PartOfEntry(all, p);
    x := |Nest(Parts(all)[..y])| + z;
    GroupsAt(all, x, y, z);
    InnerGroup(all, y, z);
  }

  /** The entry at `p` lies in the inner group of its type within the part of its key. */
  lemma PartOfEntry(all: seq<Entry>, p: nat) returns (y: nat, z: nat)
    requires p < |all|
    ensures y < |Parts(all)| && z < |Parts(all)[y].1|
    ensures Parts(all)[y].0 == all[p].key && Parts(all)[y].1[z].0 == all[p].entryType
  {
    y := GroupByFind(KeyedPositions(all), p);
    KeyedPositionsAt(all, p);
    var ps := PartAt(all, y);
    InPositionsWithKey(all, all[p].key, p);
    var c :| 0 <= c < |ps| && ps[c] == p;
    TypedPositionsAt(all, ps, c);
    z := GroupByFind(TypedPositions(all, ps), c);
  }

  lemma {:induction false} KeyedPositionsAt(all: seq<Entry>, p: nat)
    requires p < |all|
    ensures KeyedPositions(all)[p] == (all[p].key, p)
  {
    var n := |all| - 1;
    if p < n {
      KeyedPositionsAt(all[..n], p);
    }
  }

  lemma {:induction false} TypedPositionsAt(all: seq<Entry>, ps: seq<nat>, c: nat)
    requires ValidPositions(all, ps) && c < |ps|
    ensures TypedPositions(all, ps)[c] == (all[ps[c]].entryType, ps[c])
  {
    var n := |ps| - 1;
    if c < n {
      TypedPositionsAt(all, ps[..n], c);
    }
  }

  /** A visited group holding the entry at `p` is the (key, type) group of that entry. */
  lemma GroupOfMember(all: seq<Entry>, x: nat, p: nat)
    requires x < |Groups(all)| && p in Groups(all)[x].1
    ensures p < |all| && Groups(all)[x] == (all[p].key, GroupOf(all, p))
  {
    var t := GroupExact(all, x);
    InPositionsWith(all, Groups(all)[x].0, t, p);
  }

  /** Every group is non-empty, points into `all`, and holds only entries with the group's key. */
  predicate WellFormed(all: seq<Entry>, groups: seq<(string, seq<nat>)>) {
    forall x | 0 <= x < |groups| ::
      && |groups[x].1| > 0
      && ValidPositions(all, groups[x].1)
      && forall i | 0 <= i < |groups[x].1| :: all[groups[x].1[i]].key == groups[x].0
  }

  lemma GroupsWellFormed(all: seq<Entry>)
    ensures WellFormed(all, Groups(all))
  {
    forall x | 0 <= x < |Groups(all)|
      ensures && |Groups(all)[x].1| > 0
              && ValidPositions(all, Groups(all)[x].1)
              && forall i | 0 <= i < |Groups(all)[x].1| :: all[Groups(all)[x].1[i]].key == Groups(all)[x].0
    {
      var t := GroupExact(all, x);
      var g := Groups(all)[x];
      forall i | 0 <= i < |g.1| ensures g.1[i] < |all| && all[g.1[i]].key == g.0 {
        InPositionsWith(all, g.0, t, g.1[i]);
      }
    }
  }

  /** Grouping one more entry by key appends its position to its key's group. */
  lemma KeyStep(all: seq<Entry>, i: nat)
    requires i < |all|
    ensures GroupBy(KeyedPositions(all[..i + 1])) == Append(GroupBy(KeyedPositions(all[..i])), all[i].key, i)
  {
    assert all[..i + 1][..i] == all[..i];
    GroupByPush(KeyedPositions(all[..i]), (all[i].key, i));
  }

  /** Grouping one more position by type appends it to its type's group. */
  lemma TypeStep(all: seq<Entry>, ps: seq<nat>, i: nat)
    requires ValidPositions(all, ps) && i < |ps|
    ensures ValidPositions(all, ps[..i]) && ValidPositions(all, ps[..i + 1])
    ensures GroupBy(TypedPositions(all, ps[..i + 1])) == Append(GroupBy(TypedPositions(all, ps[..i])), all[ps[i]].entryType, ps[i])
  {
    assert ps[..i + 1][..i] == ps[..i];
    GroupByPush(TypedPositions(all, ps[..i]), (all[ps[i]].entryType, ps[i]));
  }

  /**
   * Lines 204-206: the positions of the entries grouped by key, in the order of each
   * key's first entry.
   */
  method GroupByKey(all: seq<Entry>) returns (d: Dict<string, seq<nat>>)
    ensures d == EntriesByKey(all)
  {
    d := [];
    for i: nat := 0 to |all|
      invariant d == GroupBy(KeyedPositions(all[..i]))
    {
      KeyStep(all, i);
      d := Append(d, all[i].key, i);
    }
    assert all[..|all|] == all;
  }

  /** Lines 212-214: the positions `ps` of one key grouped by the type of their entries. */
  method GroupByType(all: seq<Entry>, ps: seq<nat>) returns (d: Dict<string, seq<nat>>)
    requires ValidPositions(all, ps)
    ensures d == EntriesByType(all, ps)
  {
    d := [];
    for i := 0 to |ps|
      invariant d == GroupBy(TypedPositions(all, ps[..i]))
    {
      TypeStep(all, ps, i);
      d := Append(d, all[ps[i]].entryType, ps[i]);
    }
    assert ps[..|ps|] == ps;
  }
}
