/**
 * The merge pass of `merge_bib_files` (bib-merger.py:308-344). Every entry that is not
 * flagged `skip` gets an effective key: its own key, or for a titled entry whose
 * (type, title) gathers several keys, the key the operator or the tie-break picks; the
 * first entry stored under an effective key wins.
 *
 * Two details follow the code exactly. The lookup of line 327 rebinds `entry`, so the
 * value stored at line 344 is the entry last looked up there, not necessarily the entry
 * being visited. And `all_keys` is a Python `set`, whose iteration order (lines 334 and
 * 339) is a parameter `order` of the model.
 */
module Merge {
  import opened Outcomes
  import opened Dicts
  import opened Records
  import opened TieBreak
  import opened Prompts

  /**
   * What the merge pass reads: the global entry list, the `skip` flags, the per-file title
   * indexes, the mode, the operator's answers and the iteration order of a set of keys.
   */
  datatype Pass = Pass(
    all: seq<Entry>,
    skip: seq<bool>,
    byFile: seq<Dict<string, seq<string>>>,
    interactive: bool,
    answers: seq<string>,
    order: set<string> -> seq<string>)

  predicate Valid(p: Pass) {
    |p.skip| == |p.all|
  }

  /** `list(s)` lists every member of `s` exactly once, and nothing else. */
  ghost predicate ListsMembers(order: set<string> -> seq<string>) {
    forall s: set<string> ::
      && |order(s)| == |s|
      && (forall x :: x in order(s) <==> x in s)
  }

  /**
   * `next(e for e in all_entries.values() if e['key'] == k)` (line 327): the position of
   * the first entry with key `k`, or `None` where `next` raises `StopIteration`.
   */
  function KeyPos(all: seq<Entry>, k: string): (r: Option<nat>)
    ensures r.Some? ==> r.value < |all| && all[r.value].key == k
    ensures r.Some? ==> forall q | 0 <= q < r.value :: all[q].key != k
    ensures r.None? ==> forall q | 0 <= q < |all| :: all[q].key != k
  {
    if all == [] then None
    else if all[0].key == k then Some(0)
    else
      match KeyPos(all[1..], k)
      case None => None
      case Some(p) => Some(p + 1)
  }

  /** `titles_to_keys[title]` where the title is indexed, else nothing (lines 325-326). */
  function FileKeys(titles: Dict<string, seq<string>>, t: string): seq<string> {
    if t in KeySet(titles) then Get(titles, t) else []
  }

  /** The keys that lines 324-327 look up for the title `t`, file after file, in order. */
  function TitleKeys(byFile: seq<Dict<string, seq<string>>>, t: string): seq<string> {
    if byFile == [] then []
    else
      var n := |byFile| - 1;
      TitleKeys(byFile[..n], t) + FileKeys(byFile[n], t)
  }

  /** What the lookups of lines 324-329 leave: `all_keys`, and the entry `entry` was last bound to. */
  datatype Gathered = Gathered(keys: set<string>, last: Option<Entry>)

  /** The lookups of the keys `ks` for an entry of type `ty`; `None` where a lookup raises. */
  function Gather(all: seq<Entry>, ks: seq<string>, ty: string): Option<Gathered> {
    if ks == [] then Some(Gathered({}, None))
    else
      var n := |ks| - 1;
      match Gather(all, ks[..n], ty)
      case None => None
      case Some(g) =>
        match KeyPos(all, ks[n])
        case None => None
        case Some(p) =>
          Some(Gathered(if all[p].entryType == ty then g.keys + {ks[n]} else g.keys, Some(all[p])))
  }

  /** Every key of `ks` is found in `all`. */
  predicate AllFound(all: seq<Entry>, ks: seq<string>) {
    forall j | 0 <= j < |ks| :: KeyPos(all, ks[j]).Some?
  }

  /** The keys of `ks` whose first entry has type `ty`. */
  function KeysOfType(all: seq<Entry>, ks: seq<string>, ty: string): set<string>
    requires AllFound(all, ks)
  {
    set j | 0 <= j < |ks| && all[KeyPos(all, ks[j]).value].entryType == ty :: ks[j]
  }

  /** The lookups fail exactly when some key has no entry. */
  lemma {:induction false} GatherFound(all: seq<Entry>, ks: seq<string>, ty: string)
    ensures Gather(all, ks, ty).Some? <==> AllFound(all, ks)
  {
    if ks != [] {
      var n := |ks| - 1;
      GatherFound(all, ks[..n], ty);
      if AllFound(all, ks) {
        assert AllFound(all, ks[..n]) by {
          forall j | 0 <= j < n ensures KeyPos(all, ks[..n][j]).Some? {
            assert ks[..n][j] == ks[j];
          }
        }
      }
    }
  }

  /** Where the lookups succeed, `all_keys` holds the keys whose entry has the entry's type. */
  lemma {:induction false} GatherKeysOfType(all: seq<Entry>, ks: seq<string>, ty: string)
    requires AllFound(all, ks)
    ensures Gather(all, ks, ty).Some? && Gather(all, ks, ty).value.keys == KeysOfType(all, ks, ty)
  {
    GatherFound(all, ks, ty);
    if ks != [] {
      var n := |ks| - 1;
      assert AllFound(all, ks[..n]) by {
        forall j | 0 <= j < n ensures KeyPos(all, ks[..n][j]).Some? {
          assert ks[..n][j] == ks[j];
        }
      }
      GatherKeysOfType(all, ks[..n], ty);
      var g := Gather(all, ks[..n], ty).value;
      var r := Gather(all, ks, ty).value;
      forall k | k in r.keys ensures k in KeysOfType(all, ks, ty) {
        if k in g.keys {
          var j :| 0 <= j < n && all[KeyPos(all, ks[..n][j]).value].entryType == ty && ks[..n][j] == k;
          assert ks[j] == k;
        } else {
          assert k == ks[n];
        }
      }
      forall k | k in KeysOfType(all, ks, ty) ensures k in r.keys {
        var j :| 0 <= j < |ks| && all[KeyPos(all, ks[j]).value].entryType == ty && ks[j] == k;
        if j < n {
          assert ks[..n][j] == k;
        }
      }
    }
  }

  /** Where the lookups succeed, `entry` ends bound to the entry of the last key looked up. */
  lemma GatherLast(all: seq<Entry>, ks: seq<string>, ty: string)
    requires Gather(all, ks, ty).Some?
    ensures ks == [] <==> Gather(all, ks, ty).value.last.None?
    ensures ks != [] ==>
      && KeyPos(all, ks[|ks| - 1]).Some?
      && Gather(all, ks, ty).value.last == Some(all[KeyPos(all, ks[|ks| - 1]).value])
  {
  }

  /** A failed lookup fails every longer list of lookups. */
  lemma {:induction false} GatherPrefix(all: seq<Entry>, ks: seq<string>, more: seq<string>, ty: string)
    requires ks <= more && Gather(all, ks, ty).None?
    ensures Gather(all, more, ty).None?
    decreases |more|
  {
    if |more| > |ks| {
      var n := |more| - 1;
      assert ks <= more[..n];
      GatherPrefix(all, ks, more[..n], ty);
    } else {
      assert ks == more;
    }
  }

  /** `[next(e for e in all_entries.values() if e['key'] == k) for k in ks]` (line 339). */
  function LookupAll(all: seq<Entry>, ks: seq<string>): (r: Option<seq<Entry>>)
    ensures r.Some? ==> |r.value| == |ks|
    ensures r.Some? ==> forall j | 0 <= j < |ks| :: r.value[j].key == ks[j]
  {
    if ks == [] then Some([])
    else
      var n := |ks| - 1;
      match LookupAll(all, ks[..n])
      case None => None
      case Some(es) =>
        match KeyPos(all, ks[n])
        case None => None
        case Some(p) => Some(es + [all[p]])
  }

  /** The effect of lines 310-341 on one entry: its effective key, the entry stored, and the new choices and answer position. */
  datatype Effect = Effect(key: string, stored: Entry, choices: Dict<(string, string), string>, pos: nat)

  /**
   * Lines 310-341 for the entry at `i`, with `title_to_chosen_key` `choices` and the next
   * unread answer at `pos`.
   */
  function Effective(p: Pass, choices: Dict<(string, string), string>, pos: nat, i: nat): (r: Result<Effect>)
    requires i < |p.all| && pos <= |p.answers|
    ensures r.Ok? ==> pos <= r.value.pos <= |p.answers|
  {
    var e := p.all[i];
    match NormTitle(e)
    case None => Ok(Effect(e.key, e, choices, pos))
    case Some(t) =>
      var slot := (e.entryType, t);
      if slot in KeySet(choices) then Ok(Effect(Get(choices, slot), e, choices, pos))
      else
        match Gather(p.all, TitleKeys(p.byFile, t), e.entryType)
        case None => Err(StopIteration)
        case Some(g) =>
          var stored := if g.last.Some? then g.last.value else e;
          if |g.keys| <= 1 then Ok(Effect(e.key, stored, choices, pos))
          else
            var listed := p.order(g.keys);
            if p.interactive then
              match TitleAnswer(p.answers, pos, |listed|)
              case Err(err) => Err(err)
              case Ok((c, next)) => Ok(Effect(listed[c], stored, Put(choices, slot, listed[c]), next))
            else
              match LookupAll(p.all, listed)
              case None => Err(StopIteration)
              case Some(es) =>
                match ChooseEntryFromSmallestIndex(es)
                case Err(err) => Err(err)
                case Ok(chosen) => Ok(Effect(chosen.key, stored, choices, pos))
  }

  /** One insertion attempt of line 343-344: the visited position, the effective key and the entry offered. */
  datatype Insertion = Insertion(origin: nat, key: string, entry: Entry)

  /** The insertions attempted so far, `title_to_chosen_key`, and the next unread answer. */
  datatype MergeState = MergeState(inserted: seq<Insertion>, choices: Dict<(string, string), string>, pos: nat)

  /** One pass of the loop of lines 309-344, at the entry `i`. */
  function MergeStep(p: Pass, s: MergeState, i: nat): (r: Result<MergeState>)
    requires Valid(p) && i < |p.all| && s.pos <= |p.answers|
    ensures r.Ok? ==> s.pos <= r.value.pos <= |p.answers|
  {
    if p.skip[i] then Ok(s)
    else
      match Effective(p, s.choices, s.pos, i)
      case Err(err) => Err(err)
      case Ok(f) => Ok(MergeState(s.inserted + [Insertion(i, f.key, f.stored)], f.choices, f.pos))
  }

  /** The loop of lines 309-344 over the first `n` entries, from answer position `pos`. */
  function MergeUpTo(p: Pass, pos: nat, n: nat): (r: Result<MergeState>)
    requires Valid(p) && n <= |p.all| && pos <= |p.answers|
    ensures r.Ok? ==> pos <= r.value.pos <= |p.answers|
  {
    if n == 0 then Ok(MergeState([], [], pos))
    else
      match MergeUpTo(p, pos, n - 1)
      case Err(err) => Err(err)
      case Ok(s) => MergeStep(p, s, n - 1)
  }

  /** The pairs (effective key, entry) in the order they are offered to `merged_entries`. */
  function Pairs(ins: seq<Insertion>): (ps: seq<(string, Entry)>)
    ensures |ps| == |ins|
    ensures forall m | 0 <= m < |ins| :: ps[m] == (ins[m].key, ins[m].entry)
  {
    if ins == [] then [] else Pairs(ins[..|ins| - 1]) + [(ins[|ins| - 1].key, ins[|ins| - 1].entry)]
  }

  /** The positions of the insertions, in order. */
  function Origins(ins: seq<Insertion>): (os: seq<nat>)
    ensures |os| == |ins|
    ensures forall m | 0 <= m < |ins| :: os[m] == ins[m].origin
  {
    if ins == [] then [] else Origins(ins[..|ins| - 1]) + [ins[|ins| - 1].origin]
  }

  /** The positions below `n` whose `skip` flag is clear, in increasing order. */
  function Unskipped(skip: seq<bool>, n: nat): seq<nat>
    requires n <= |skip|
  {
    if n == 0 then []
    else if skip[n - 1] then Unskipped(skip, n - 1)
    else Unskipped(skip, n - 1) + [n - 1]
  }

  /**
   * The merge pass offers exactly the entries whose `skip` flag is clear, each once, in
   * list order: a skipped entry never drives an insertion.
   */
  lemma {:induction false} MergeVisitsUnskipped(p: Pass, pos: nat, n: nat)
    requires Valid(p) && n <= |p.all| && pos <= |p.answers|
    ensures var r := MergeUpTo(p, pos, n);
      r.Ok? ==> Origins(r.value.inserted) == Unskipped(p.skip, n)
  {
    if n > 0 {
      MergeVisitsUnskipped(p, pos, n - 1);
      var r0 := MergeUpTo(p, pos, n - 1);
      if r0.Ok? && MergeUpTo(p, pos, n).Ok? {
        var s := r0.value;
        var t := MergeUpTo(p, pos, n).value;
        if !p.skip[n - 1] {
          assert t.inserted[..|t.inserted| - 1] == s.inserted;
        }
      }
    }
  }

  /** Every choice recorded for (type, title) is one of the keys gathered for them. */
  predicate ChoicesGathered(p: Pass, choices: Dict<(string, string), string>) {
    forall j | 0 <= j < |choices| ::
      var g := Gather(p.all, TitleKeys(p.byFile, choices[j].0.1), choices[j].0.0);
      g.Some? && choices[j].1 in g.value.keys
  }

  /**
   * The effective key of a visited entry: its own key when it has no title; otherwise its
   * own key or one of the keys gathered for its type and title (which are the keys
   * `all_keys` holds). The entry stored is the visited entry, or for a titled entry the
   * entry of the last key looked up for its title.
   */
  predicate EffectOk(p: Pass, i: nat, key: string, stored: Entry)
    requires i < |p.all|
  {
    var e := p.all[i];
    match NormTitle(e)
    case None => key == e.key && stored == e
    case Some(t) =>
      var ks := TitleKeys(p.byFile, t);
      var g := Gather(p.all, ks, e.entryType);
      && (key == e.key || (g.Some? && key in g.value.keys))
      && (stored == e || (ks != [] && g.Some? && g.value.last == Some(stored)))
  }

  lemma PutKeepsGathered(p: Pass, choices: Dict<(string, string), string>, slot: (string, string), k: string)
    requires ChoicesGathered(p, choices)
    requires var g := Gather(p.all, TitleKeys(p.byFile, slot.1), slot.0); g.Some? && k in g.value.keys
    ensures ChoicesGathered(p, Put(choices, slot, k))
  {
    PutItems(choices, slot, k);
  }

  /** One entry's effect keeps the choices gathered and meets `EffectOk`. */
  lemma EffectiveOk(p: Pass, choices: Dict<(string, string), string>, pos: nat, i: nat)
    requires i < |p.all| && pos <= |p.answers| && ListsMembers(p.order)
    requires ChoicesGathered(p, choices)
    ensures var r := Effective(p, choices, pos, i);
      r.Ok? ==> EffectOk(p, i, r.value.key, r.value.stored) && ChoicesGathered(p, r.value.choices)
  {
    var e := p.all[i];
    var r := Effective(p, choices, pos, i);
    if r.Ok? && NormTitle(e).Some? {
      var t := NormTitle(e).value;
      var slot := (e.entryType, t);
      if slot in KeySet(choices) {
        var j := FirstPos(choices, slot);
        assert r.value.key == choices[j].1;
      } else {
        var ks := TitleKeys(p.byFile, t);
        var g := Gather(p.all, ks, e.entryType).value;
        GatherFound(p.all, ks, e.entryType);
        GatherKeysOfType(p.all, ks, e.entryType);
        if |g.keys| > 1 {
          var listed := p.order(g.keys);
          if p.interactive {
            var c := TitleAnswer(p.answers, pos, |listed|).value.0;
            assert listed[c] in g.keys;
            PutKeepsGathered(p, choices, slot, listed[c]);
          } else {
            var es := LookupAll(p.all, listed).value;
            var chosen := ChooseEntryFromSmallestIndex(es).value;
            var j :| 0 <= j < |es| && es[j] == chosen;
            assert chosen.key == listed[j];
          }
        }
      }
    }
  }

  /** Where every key of `ks` has an entry, the lookups of line 339 all succeed. */
  lemma {:induction false} LookupAllFound(all: seq<Entry>, ks: seq<string>)
    requires AllFound(all, ks)
    ensures LookupAll(all, ks).Some?
  {
    if ks != [] {
      var n := |ks| - 1;
      assert AllFound(all, ks[..n]) by {
        forall j | 0 <= j < n ensures KeyPos(all, ks[..n][j]).Some? {
          assert ks[..n][j] == ks[j];
        }
      }
      LookupAllFound(all, ks[..n]);
      assert KeyPos(all, ks[n]).Some?;
    }
  }

  /**
   * Non-interactively, a titled entry whose (type, title) gathers several keys takes the
   * first key of `list(all_keys)` with the least file index (lines 338-341). The lookups of
   * line 339 cannot fail there, so the only failure is `ValueError`, raised exactly when a
   * gathered key's file index does not parse.
   */
  lemma NonInteractiveTieBreak(p: Pass, choices: Dict<(string, string), string>, pos: nat, i: nat)
    requires i < |p.all| && pos <= |p.answers| && !p.interactive && ListsMembers(p.order)
    requires var e := p.all[i];
      && NormTitle(e).Some? && (e.entryType, NormTitle(e).value) !in KeySet(choices)
      && var g := Gather(p.all, TitleKeys(p.byFile, NormTitle(e).value), e.entryType);
         g.Some? && |g.value.keys| > 1
    ensures var e := p.all[i];
      var keys := Gather(p.all, TitleKeys(p.byFile, NormTitle(e).value), e.entryType).value.keys;
      var listed := p.order(keys);
      var r := Effective(p, choices, pos, i);
      && (r.Ok? <==> forall k | k in keys :: FileIndexOf(k).Ok?)
      && (r.Err? ==> r.error == ValueError)
      && (r.Ok? ==>
            && r.value.choices == choices && r.value.pos == pos
            && exists j | 0 <= j < |listed| :: listed[j] == r.value.key && FirstOfLeastIndex(keys, listed, j))
  {
    var e := p.all[i];
    var t := NormTitle(e).value;
    var ks := TitleKeys(p.byFile, t);
    var g := Gather(p.all, ks, e.entryType).value;
    var listed := p.order(g.keys);
    GatherFound(p.all, ks, e.entryType);
    GatherKeysOfType(p.all, ks, e.entryType);
    ListedFound(p.all, ks, e.entryType, listed);
    LookupAllFound(p.all, listed);
    var es := LookupAll(p.all, listed).value;
    var stored := if g.last.Some? then g.last.value else e;
    var r := Effective(p, choices, pos, i);
    assert r == match ChooseEntryFromSmallestIndex(es)
                case Err(err) => Err(err)
                case Ok(chosen) => Ok(Effect(chosen.key, stored, choices, pos));
    TieBreakOverListed(g.keys, listed, es);
  }

  /** The keys of `list(all_keys)` all have entries. */
  lemma ListedFound(all: seq<Entry>, ks: seq<string>, ty: string, listed: seq<string>)
    requires AllFound(all, ks)
    requires forall x :: x in listed ==> x in KeysOfType(all, ks, ty)
    ensures AllFound(all, listed)
  {
    forall j | 0 <= j < |listed| ensures KeyPos(all, listed[j]).Some? {
      assert listed[j] in listed;
      var m :| 0 <= m < |ks| && all[KeyPos(all, ks[m]).value].entryType == ty && ks[m] == listed[j];
    }
  }

  /**
   * The tie-break of line 341 over the entries of `list(keys)`: it succeeds exactly when
   * every key's file index parses, and picks the first listed key of least index.
   */
  lemma TieBreakOverListed(keys: set<string>, listed: seq<string>, es: seq<Entry>)
    requires |keys| > 0 && ListedAs(keys, listed, es)
    ensures var r := ChooseEntryFromSmallestIndex(es);
      && (r.Ok? <==> forall k | k in keys :: FileIndexOf(k).Ok?)
      && (r.Ok? ==> exists j | 0 <= j < |listed| :: listed[j] == r.value.key && FirstOfLeastIndex(keys, listed, j))
  {
    ListedIndicesParse(keys, listed, es);
    var r := ChooseEntryFromSmallestIndex(es);
    if r.Ok? {
      var j: nat :| j < |es| && es[j] == r.value && ChosenAt(es, j);
      LeastListed(keys, listed, es, j);
    }
  }

  /** `es` are the entries looked up for `listed`, which lists each of the `keys` once. */
  ghost predicate ListedAs(keys: set<string>, listed: seq<string>, es: seq<Entry>) {
    && |listed| == |keys|
    && (forall x :: x in listed <==> x in keys)
    && |es| == |listed|
    && forall q | 0 <= q < |es| :: es[q].key == listed[q]
  }

  /** `min` over `es` by file index picks position `j`: every index parses, `j`'s is least, and earlier ones are greater. */
  predicate ChosenAt(es: seq<Entry>, j: nat) {
    && j < |es|
    && (forall q | 0 <= q < |es| :: FileIndexOf(es[q].key).Ok?)
    && (forall q | 0 <= q < |es| :: !Below(FileIndexOf(es[q].key).value, FileIndexOf(es[j].key).value))
    && (forall q | 0 <= q < j :: Below(FileIndexOf(es[j].key).value, FileIndexOf(es[q].key).value))
  }

  /** The entries of `list(keys)` all have parsable file indices exactly when the keys do. */
  lemma ListedIndicesParse(keys: set<string>, listed: seq<string>, es: seq<Entry>)
    requires ListedAs(keys, listed, es)
    ensures (forall q | 0 <= q < |es| :: FileIndexOf(es[q].key).Ok?) <==> forall k | k in keys :: FileIndexOf(k).Ok?
  {
    if forall k | k in keys :: FileIndexOf(k).Ok? {
      forall q | 0 <= q < |es| ensures FileIndexOf(es[q].key).Ok? {
        assert listed[q] in listed;
      }
    }
    if forall q | 0 <= q < |es| :: FileIndexOf(es[q].key).Ok? {
      forall k | k in keys ensures FileIndexOf(k).Ok? {
        var q :| 0 <= q < |listed| && listed[q] == k;
      }
    }
  }

  /**
   * `listed[j]` is the first key of `listed` whose file index is least among the `keys`:
   * every key's index parses, none is below its index, and every key listed before it
   * has a greater index.
   */
  predicate FirstOfLeastIndex(keys: set<string>, listed: seq<string>, j: nat) {
    && j < |listed|
    && FileIndexOf(listed[j]).Ok?
    && (forall k | k in keys :: FileIndexOf(k).Ok? && !Below(FileIndexOf(k).value, FileIndexOf(listed[j]).value))
    && (forall q | 0 <= q < j :: FileIndexOf(listed[q]).Ok? && Below(FileIndexOf(listed[j]).value, FileIndexOf(listed[q]).value))
  }

  /** The entry `min` picks among those of `list(keys)` is the first listed key of least index. */
  lemma LeastListed(keys: set<string>, listed: seq<string>, es: seq<Entry>, j: nat)
    requires ListedAs(keys, listed, es) && ChosenAt(es, j)
    ensures FirstOfLeastIndex(keys, listed, j)
  {
    forall k | k in keys ensures FileIndexOf(k).Ok? && !Below(FileIndexOf(k).value, FileIndexOf(listed[j]).value) {
      var q :| 0 <= q < |listed| && listed[q] == k;
      assert es[q].key == k;
    }
  }

  /** Every insertion meets `EffectOk`. */
  ghost predicate InsertionsOk(p: Pass, ins: seq<Insertion>) {
    forall m | 0 <= m < |ins| :: ins[m].origin < |p.all| && EffectOk(p, ins[m].origin, ins[m].key, ins[m].entry)
  }

  /** A merge state whose choices are gathered and whose insertions meet `EffectOk`. */
  ghost predicate StateOk(p: Pass, r: Result<MergeState>) {
    r.Ok? ==> ChoicesGathered(p, r.value.choices) && InsertionsOk(p, r.value.inserted)
  }

  /** One step of the merge pass keeps the choices gathered and every insertion `EffectOk`. */
  lemma MergeStepOk(p: Pass, s: MergeState, i: nat)
    requires Valid(p) && i < |p.all| && s.pos <= |p.answers| && ListsMembers(p.order)
    requires StateOk(p, Ok(s))
    ensures StateOk(p, MergeStep(p, s, i))
  {
    if !p.skip[i] {
      EffectiveOk(p, s.choices, s.pos, i);
    }
  }

  /** `MergeUpTo` for `n + 1` entries is one more step after `n`. */
  lemma MergeUpToNext(p: Pass, pos: nat, n: nat)
    requires Valid(p) && n < |p.all| && pos <= |p.answers|
    ensures var r0 := MergeUpTo(p, pos, n);
      MergeUpTo(p, pos, n + 1) == if r0.Err? then Err(r0.error) else MergeStep(p, r0.value, n)
  {
  }

  /** Every insertion of the merge pass meets `EffectOk`. */
  lemma {:induction false} MergeEffects(p: Pass, pos: nat, n: nat)
    requires Valid(p) && n <= |p.all| && pos <= |p.answers| && ListsMembers(p.order)
    ensures StateOk(p, MergeUpTo(p, pos, n))
  {
    if n > 0 {
      MergeEffects(p, pos, n - 1);
      var r0 := MergeUpTo(p, pos, n - 1);
      MergeUpToNext(p, pos, n - 1);
      if r0.Ok? {
        MergeStepOk(p, r0.value, n - 1);
        assert MergeUpTo(p, pos, n) == MergeStep(p, r0.value, n - 1);
      } else {
        assert MergeUpTo(p, pos, n).Err?;
      }
    }
  }

  /**
   * An insertion meeting `EffectOk` invents nothing: its key is the key of some entry and
   * its entry is one of the entries.
   */
  lemma EffectFromInput(p: Pass, i: nat, key: string, stored: Entry)
    requires i < |p.all| && EffectOk(p, i, key, stored)
    ensures exists q | 0 <= q < |p.all| :: p.all[q].key == key
    ensures stored in p.all
  {
    var e := p.all[i];
    if NormTitle(e).Some? {
      var ks := TitleKeys(p.byFile, NormTitle(e).value);
      var g := Gather(p.all, ks, e.entryType);
      if key != e.key {
        GatherFound(p.all, ks, e.entryType);
        GatherKeysOfType(p.all, ks, e.entryType);
        var j :| 0 <= j < |ks| && p.all[KeyPos(p.all, ks[j]).value].entryType == e.entryType && ks[j] == key;
        assert p.all[KeyPos(p.all, ks[j]).value].key == key;
      }
      if stored != e {
        GatherLast(p.all, ks, e.entryType);
      }
    }
  }

  /** The merge pass offers only keys and entries taken from the entry list. */
  lemma MergeFromInput(p: Pass, pos: nat)
    requires Valid(p) && pos <= |p.answers| && ListsMembers(p.order)
    ensures var r := MergeUpTo(p, pos, |p.all|);
      r.Ok? ==> forall m | 0 <= m < |r.value.inserted| ::
        && (exists q | 0 <= q < |p.all| :: p.all[q].key == r.value.inserted[m].key)
        && r.value.inserted[m].entry in p.all
  {
    MergeEffects(p, pos, |p.all|);
    var r := MergeUpTo(p, pos, |p.all|);
    if r.Ok? {
      forall m | 0 <= m < |r.value.inserted|
        ensures exists q | 0 <= q < |p.all| :: p.all[q].key == r.value.inserted[m].key
        ensures r.value.inserted[m].entry in p.all
      {
        var x := r.value.inserted[m];
        EffectFromInput(p, x.origin, x.key, x.entry);
      }
    }
  }

  /**
   * In non-interactive mode `title_to_chosen_key` stays empty and no answer is read
   * (line 335 is reached only in interactive mode).
   */
  lemma {:induction false} NonInteractiveRecordsNothing(p: Pass, pos: nat, n: nat)
    requires Valid(p) && n <= |p.all| && pos <= |p.answers| && !p.interactive
    ensures var r := MergeUpTo(p, pos, n);
      r.Ok? ==> r.value.choices == [] && r.value.pos == pos
  {
    if n > 0 {
      NonInteractiveRecordsNothing(p, pos, n - 1);
    }
  }

  /**
   * Once a key is chosen for (type, title), every later entry with that type and title
   * takes it without a prompt.
   */
  lemma ChosenTitleIsSilent(p: Pass, choices: Dict<(string, string), string>, pos: nat, i: nat)
    requires i < |p.all| && pos <= |p.answers|
    requires var e := p.all[i]; NormTitle(e).Some? && (e.entryType, NormTitle(e).value) in KeySet(choices)
    ensures var e := p.all[i];
      Effective(p, choices, pos, i) == Ok(Effect(Get(choices, (e.entryType, NormTitle(e).value)), e, choices, pos))
  {
  }

  /**
   * The lookups of lines 323-329 for the title `t` and type `ty`, file after file: the
   * gathered `all_keys` and the last entry looked up, or `None` where `next` raises.
   */
  method GatherKeys(all: seq<Entry>, byFile: seq<Dict<string, seq<string>>>, t: string, ty: string)
    returns (r: Option<Gathered>)
    ensures r == Gather(all, TitleKeys(byFile, t), ty)
  {
    var g := Gathered({}, None);
    for f := 0 to |byFile|
      invariant Gather(all, TitleKeys(byFile[..f], t), ty) == Some(g)
    {
      TitleKeysNext(byFile, f, t);
      var next := GatherFile(all, TitleKeys(byFile[..f], t), FileKeys(byFile[f], t), ty, g);
      if next.None? {
        TitleKeysPrefix(byFile, f + 1, t);
        GatherPrefix(all, TitleKeys(byFile[..f + 1], t), TitleKeys(byFile, t), ty);
        return None;
      }
      g := next.value;
    }
    assert byFile[..|byFile|] == byFile;
    return Some(g);
  }

  /** The inner loop of lines 326-329 over the keys `ks` one file lists for the title. */
  method GatherFile(all: seq<Entry>, ghost pre: seq<string>, ks: seq<string>, ty: string, g0: Gathered)
    returns (r: Option<Gathered>)
    requires Gather(all, pre, ty) == Some(g0)
    ensures r == Gather(all, pre + ks, ty)
  {
    var keys, last := g0.keys, g0.last;
    assert pre + ks[..0] == pre;
    for j := 0 to |ks|
      invariant Gather(all, pre + ks[..j], ty) == Some(Gathered(keys, last))
    {
      assert pre + ks[..j + 1] == (pre + ks[..j]) + [ks[j]];
      var q := FindKey(all, ks[j]);
      if q.None? {
        GatherPrefix(all, pre + ks[..j + 1], pre + ks, ty);
        return None;
      }
      GatherSnoc(all, pre + ks[..j], ks[j], ty);
      last := Some(all[q.value]);
      if all[q.value].entryType == ty {
        keys := keys + {ks[j]};
      }
    }
    assert ks[..|ks|] == ks;
    return Some(Gathered(keys, last));
  }

  lemma TitleKeysNext(byFile: seq<Dict<string, seq<string>>>, f: nat, t: string)
    requires f < |byFile|
    ensures TitleKeys(byFile[..f + 1], t) == TitleKeys(byFile[..f], t) + FileKeys(byFile[f], t)
  {
    assert byFile[..f + 1][..f] == byFile[..f];
  }

  /** The keys looked up for the first `f` files come first. */
  lemma {:induction false} TitleKeysPrefix(byFile: seq<Dict<string, seq<string>>>, f: nat, t: string)
    requires f <= |byFile|
    ensures TitleKeys(byFile[..f], t) <= TitleKeys(byFile, t)
    decreases |byFile|
  {
    if f < |byFile| {
      var n := |byFile| - 1;
      TitleKeysPrefix(byFile[..n], f, t);
      assert byFile[..n][..f] == byFile[..f];
    } else {
      assert byFile[..f] == byFile;
    }
  }

  lemma GatherSnoc(all: seq<Entry>, ks: seq<string>, k: string, ty: string)
    requires Gather(all, ks, ty).Some? && KeyPos(all, k).Some?
    ensures var g, q := Gather(all, ks, ty).value, KeyPos(all, k).value;
      Gather(all, ks + [k], ty) == Some(Gathered(if all[q].entryType == ty then g.keys + {k} else g.keys, Some(all[q])))
  {
    assert (ks + [k])[..|ks|] == ks;
  }

  /** The generator of line 327, scanning the entries in order. */
  method FindKey(all: seq<Entry>, k: string) returns (r: Option<nat>)
    ensures r == KeyPos(all, k)
  {
    var i := 0;
    while i < |all|
      invariant i <= |all|
      invariant forall q | 0 <= q < i :: all[q].key != k
    {
      if all[i].key == k {
        return Some(i);
      }
      i := i + 1;
    }
    return None;
  }

  /** Lines 310-341 for the entry at `i`. */
  method ResolveEntry(p: Pass, choices: Dict<(string, string), string>, pos: nat, i: nat) returns (r: Result<Effect>)
    requires i < |p.all| && pos <= |p.answers|
    ensures r == Effective(p, choices, pos, i)
  {
    var e := p.all[i];
    var key, stored := e.key, e;
    var title := NormTitle(e);
    if title.Some? && (e.entryType, title.value) in KeySet(choices) {
      key := Get(choices, (e.entryType, title.value));
    } else if title.Some? {
      var g := GatherKeys(p.all, p.byFile, title.value, e.entryType);
      if g.None? {
        return Err(StopIteration);
      }
      if g.value.last.Some? {
        stored := g.value.last.value;
      }
      if |g.value.keys| > 1 {
        var listed := p.order(g.value.keys);
        if p.interactive {
          var answer := GetUserChoice(p.answers, pos, listed);
          if answer.Err? {
            return Err(answer.error);
          }
          var slot := (e.entryType, title.value);
          var updated := Put(choices, slot, answer.value.0);
          PutGet(choices, slot, answer.value.0);
          return Ok(Effect(Get(updated, slot), stored, updated, answer.value.1));
        } else {
          var es := LookupAll(p.all, listed);
          if es.None? {
            return Err(StopIteration);
          }
          var chosen := ChooseEntryFromSmallestIndex(es.value);
          if chosen.Err? {
            return Err(chosen.error);
          }
          key := chosen.value.key;
        }
      }
    }
    return Ok(Effect(key, stored, choices, pos));
  }

  /**
   * The loop of lines 308-344: `merged_entries` after every entry, and the next unread
   * answer. `merged_entries` keeps, for each effective key, the first entry offered
   * under it (`FirstWins`).
   */
  method MergeEntries(p: Pass, pos: nat) returns (r: Result<(Dict<string, Entry>, nat)>)
    requires Valid(p) && pos <= |p.answers|
    ensures var spec := MergeUpTo(p, pos, |p.all|);
      && (r.Err? <==> spec.Err?)
      && (r.Err? ==> r.error == spec.error)
      && (r.Ok? ==> r.value == (FirstWins(Pairs(spec.value.inserted)), spec.value.pos))
  {
    var merged: Dict<string, Entry> := [];
    var choices: Dict<(string, string), string> := [];
    var next := pos;
    ghost var inserted: seq<Insertion> := [];
    for i := 0 to |p.all|
      invariant MergeUpTo(p, pos, i) == Ok(MergeState(inserted, choices, next))
      invariant merged == FirstWins(Pairs(inserted))
    {
      var step;
      step, inserted := MergeOne(p, merged, choices, next, i, inserted);
      if step.Err? {
        MergeFails(p, pos, i + 1);
        return Err(step.error);
      }
      merged, choices, next := step.value.0, step.value.1, step.value.2;
    }
    return Ok((merged, next));
  }

  /**
   * The body of the loop of lines 309-344 at the entry `i`: `merged_entries`,
   * `title_to_chosen_key` and the answer position afterwards.
   */
  method MergeOne(p: Pass, merged: Dict<string, Entry>, choices: Dict<(string, string), string>, next: nat, i: nat,
                  ghost inserted: seq<Insertion>)
    returns (r: Result<(Dict<string, Entry>, Dict<(string, string), string>, nat)>, ghost after: seq<Insertion>)
    requires Valid(p) && i < |p.all| && next <= |p.answers|
    requires merged == FirstWins(Pairs(inserted))
    ensures var spec := MergeStep(p, MergeState(inserted, choices, next), i);
      && (r.Err? <==> spec.Err?)
      && (r.Err? ==> r.error == spec.error)
      && (r.Ok? ==> spec.value == MergeState(after, r.value.1, r.value.2) && r.value.0 == FirstWins(Pairs(after)))
  {
    after := inserted;
    if p.skip[i] {
      return Ok((merged, choices, next)), after;
    }
    var f := ResolveEntry(p, choices, next, i);
    if f.Err? {
      return Err(f.error), after;
    }
    var updated := merged;
    if f.value.key !in KeySet(merged) {
      updated := merged + [(f.value.key, f.value.stored)];
    }
    after := inserted + [Insertion(i, f.value.key, f.value.stored)];
    assert Pairs(after)[..|inserted|] == Pairs(inserted);
    return Ok((updated, f.value.choices, f.value.pos)), after;
  }

  /** A failure at some entry is the failure of the whole pass. */
  lemma {:induction false} MergeFails(p: Pass, pos: nat, n: nat)
    requires Valid(p) && n <= |p.all| && pos <= |p.answers| && MergeUpTo(p, pos, n).Err?
    ensures MergeUpTo(p, pos, |p.all|) == MergeUpTo(p, pos, n)
    decreases |p.all| - n
  {
    if n < |p.all| {
      MergeFails(p, pos, n + 1);
    }
  }
}
