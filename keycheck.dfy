/**
 * `check_same_key_different_titles` (bib-merger.py:198-248): within every (key, type)
 * group of the collected entries, titles that disagree are an issue. Each such conflict
 * is resolved by keeping one entry and setting `skip` on the others: the operator picks
 * the entry in interactive mode, `choose_entry_from_smallest_index` in non-interactive
 * mode. The choice per key is remembered in `key_to_chosen_entry`.
 *
 * The groups are visited in the order of `KeyGroups.Groups`. The specification is a fold
 * of `ResolveGroup` over them; the method walks the same groups with the nested loops of
 * the source and sets the flags in a `skip` array that runs parallel to the entries.
 */
module KeyCheck {
  import opened Outcomes
  import opened Text
  import opened Dicts
  import opened Records
  import opened TieBreak
  import opened Prompts
  import opened KeyGroups

  /** Line 219: the lower-cased titles of the entries at `ps`, `None` standing for a missing title. */
  function TitlesOf(all: seq<Entry>, ps: seq<nat>): set<Option<string>>
    requires ValidPositions(all, ps)
  {
    set x | 0 <= x < |ps| :: NormTitle(all[ps[x]])
  }

  /** Line 220: the titles of a group disagree. */
  predicate Conflicting(all: seq<Entry>, ps: seq<nat>)
    requires ValidPositions(all, ps)
  {
    |TitlesOf(all, ps)| > 1
  }

  /** Two entries of the group whose titles differ. */
  predicate TitlesDiffer(all: seq<Entry>, ps: seq<nat>)
    requires ValidPositions(all, ps)
  {
    exists i, j | 0 <= i < |ps| && 0 <= j < |ps| :: NormTitle(all[ps[i]]) != NormTitle(all[ps[j]])
  }

  /** A group conflicts exactly when two of its entries have different titles. */
  lemma ConflictingIff(all: seq<Entry>, ps: seq<nat>)
    requires ValidPositions(all, ps)
    ensures Conflicting(all, ps) <==> TitlesDiffer(all, ps)
  {
    var ts := TitlesOf(all, ps);
    SetOfTwo(ts);
    if Conflicting(all, ps) {
      var a, b :| a in ts && b in ts && a != b;
      var i :| 0 <= i < |ps| && NormTitle(all[ps[i]]) == a;
      var j :| 0 <= j < |ps| && NormTitle(all[ps[j]]) == b;
    }
    if TitlesDiffer(all, ps) {
      var i, j :| 0 <= i < |ps| && 0 <= j < |ps| && NormTitle(all[ps[i]]) != NormTitle(all[ps[j]]);
      assert NormTitle(all[ps[i]]) in ts && NormTitle(all[ps[j]]) in ts;
    }
  }

  /** The entries at `ps`: the list `type_entries` the source hands to the prompt and the tie-break. */
  function EntriesAt(all: seq<Entry>, ps: seq<nat>): (r: seq<Entry>)
    requires ValidPositions(all, ps)
    ensures |r| == |ps| && forall i | 0 <= i < |ps| :: r[i] == all[ps[i]]
  {
    if ps == [] then [] else EntriesAt(all, ps[..|ps| - 1]) + [all[ps[|ps| - 1]]]
  }

  /** Lines 231-233 and 237-240: the positions of `ps` whose entries differ from the chosen `e`. */
  function Losers(all: seq<Entry>, ps: seq<nat>, e: Entry): set<nat>
    requires ValidPositions(all, ps)
  {
    set x | 0 <= x < |ps| && all[ps[x]] != e :: ps[x]
  }

  lemma LosersNext(all: seq<Entry>, ps: seq<nat>, e: Entry, i: nat)
    requires ValidPositions(all, ps) && i < |ps|
    ensures Losers(all, ps[..i + 1], e) == Losers(all, ps[..i], e) + (if all[ps[i]] != e then {ps[i]} else {})
  {
    var a, b := ps[..i + 1], ps[..i];
    assert forall x | 0 <= x < i :: a[x] == b[x];
    assert a[i] == ps[i];
  }

  /**
   * The state the check carries from group to group: `key_to_chosen_entry`, the positions
   * whose `skip` it has set, and the position of the next unread answer.
   */
  datatype Resolution = Resolution(chosen: Dict<string, Entry>, skipped: set<nat>, pos: nat)

  /**
   * Lines 219-240 for one (key, type) group `g`: nothing happens unless the titles
   * conflict. In interactive mode a key that already has a chosen entry is left alone;
   * otherwise the operator is asked, and a blank answer keeps every entry. In
   * non-interactive mode the tie-break chooses, and a key that does not parse raises
   * `ValueError`. The chosen entry is remembered for the key and every entry of the
   * group that differs from it is skipped.
   */
  function ResolveGroup(all: seq<Entry>, interactive: bool, answers: seq<string>, s: Resolution,
                        g: (string, seq<nat>)): (r: Result<Resolution>)
    requires ValidPositions(all, g.1) && s.pos <= |answers|
    ensures r.Ok? ==> s.pos <= r.value.pos <= |answers| && s.skipped <= r.value.skipped
  {
    if !Conflicting(all, g.1) then Ok(s)
    else if interactive then
      if g.0 in KeySet(s.chosen) then Ok(s)
      else
        match SameKeyAnswer(answers, s.pos, |g.1|)
        case Err(e) => Err(e)
        case Ok((choice, next)) =>
          if choice.None? then Ok(s.(pos := next))
          else
            var e := all[g.1[choice.value]];
            Ok(Resolution(Put(s.chosen, g.0, e), s.skipped + Losers(all, g.1, e), next))
    else
      match ChooseEntryFromSmallestIndex(EntriesAt(all, g.1))
      case Err(err) => Err(err)
      case Ok(e) => Ok(s.(chosen := Put(s.chosen, g.0, e), skipped := s.skipped + Losers(all, g.1, e)))
  }

  /** Every group of `groups` points into `all`. */
  predicate AllValid(all: seq<Entry>, groups: seq<(string, seq<nat>)>) {
    forall x | 0 <= x < |groups| :: ValidPositions(all, groups[x].1)
  }

  /** The groups visited in turn from the state `s0`; the first failure ends the check. */
  function Resolve(all: seq<Entry>, interactive: bool, answers: seq<string>, groups: seq<(string, seq<nat>)>,
                   s0: Resolution): (r: Result<Resolution>)
    requires AllValid(all, groups) && s0.pos <= |answers|
    ensures r.Ok? ==> s0.pos <= r.value.pos <= |answers| && s0.skipped <= r.value.skipped
  {
    if groups == [] then Ok(s0)
    else
      var n := |groups| - 1;
      match Resolve(all, interactive, answers, groups[..n], s0)
      case Err(e) => Err(e)
      case Ok(s) => ResolveGroup(all, interactive, answers, s, groups[n])
  }

  /** The whole check from an empty `key_to_chosen_entry`, reading answers from `pos` on. */
  function SameKeyCheck(all: seq<Entry>, interactive: bool, answers: seq<string>, pos: nat): Result<Resolution>
    requires pos <= |answers|
  {
    GroupsWellFormed(all);
    Resolve(all, interactive, answers, Groups(all), Resolution([], {}, pos))
  }

  /** Some visited group has conflicting titles: the `has_issues` of the check. */
  predicate HasIssues(all: seq<Entry>) {
    exists x | 0 <= x < |Groups(all)| :: ValidPositions(all, Groups(all)[x].1) && Conflicting(all, Groups(all)[x].1)
  }

  /** Two entries share key and type but not their lower-cased title (a missing one counting as `None`). */
  predicate SameKeyDifferentTitle(all: seq<Entry>) {
    exists i, j | 0 <= i < |all| && 0 <= j < |all| ::
      && all[i].key == all[j].key
      && all[i].entryType == all[j].entryType
      && NormTitle(all[i]) != NormTitle(all[j])
  }

  /** `has_issues` holds exactly when two entries of one key and type disagree on the title. */
  lemma HasIssuesIff(all: seq<Entry>)
    ensures HasIssues(all) <==> SameKeyDifferentTitle(all)
  {
    if HasIssues(all) {
      IssuesHaveWitnesses(all);
    }
    if SameKeyDifferentTitle(all) {
      WitnessesHaveIssues(all);
    }
  }

  lemma IssuesHaveWitnesses(all: seq<Entry>)
    requires HasIssues(all)
    ensures SameKeyDifferentTitle(all)
  {
    var x :| 0 <= x < |Groups(all)| && ValidPositions(all, Groups(all)[x].1) && Conflicting(all, Groups(all)[x].1);
    var ps := Groups(all)[x].1;
    ConflictingIff(all, ps);
    var i, j :| 0 <= i < |ps| && 0 <= j < |ps| && NormTitle(all[ps[i]]) != NormTitle(all[ps[j]]);
    GroupOfMember(all, x, ps[i]);
    InPositionsWith(all, all[ps[i]].key, all[ps[i]].entryType, ps[j]);
    assert ps[j] in GroupOf(all, ps[i]);
  }

  lemma WitnessesHaveIssues(all: seq<Entry>)
    requires SameKeyDifferentTitle(all)
    ensures HasIssues(all)
  {
    var i, j :| 0 <= i < |all| && 0 <= j < |all| && all[i].key == all[j].key
      && all[i].entryType == all[j].entryType && NormTitle(all[i]) != NormTitle(all[j]);
    var x := GroupOfEntry(all, i);
    var ps := Groups(all)[x].1;
    InPositionsWith(all, all[i].key, all[i].entryType, i);
    InPositionsWith(all, all[i].key, all[i].entryType, j);
    var a :| 0 <= a < |ps| && ps[a] == i;
    var b :| 0 <= b < |ps| && ps[b] == j;
    ConflictingIff(all, ps);
  }

  /** The state after the first `o + 1` groups is the state after `o` groups, resolved by group `o`. */
  lemma ResolveNext(all: seq<Entry>, interactive: bool, answers: seq<string>, groups: seq<(string, seq<nat>)>,
                    s0: Resolution, o: nat)
    requires AllValid(all, groups) && s0.pos <= |answers| && o < |groups|
    ensures AllValid(all, groups[..o]) && AllValid(all, groups[..o + 1])
    ensures var r := Resolve(all, interactive, answers, groups[..o], s0);
      r.Ok? ==> Resolve(all, interactive, answers, groups[..o + 1], s0) == ResolveGroup(all, interactive, answers, r.value, groups[o])
  {
    assert groups[..o + 1][..o] == groups[..o];
  }

  /** A failure ends the check: once a prefix of the groups fails, the whole check fails the same way. */
  lemma {:induction false} ResolveFails(all: seq<Entry>, interactive: bool, answers: seq<string>,
                                        groups: seq<(string, seq<nat>)>, s0: Resolution, o: nat)
    requires AllValid(all, groups) && s0.pos <= |answers| && o <= |groups|
    requires AllValid(all, groups[..o]) && Resolve(all, interactive, answers, groups[..o], s0).Err?
    ensures Resolve(all, interactive, answers, groups, s0) == Resolve(all, interactive, answers, groups[..o], s0)
    decreases |groups|
  {
    if o == |groups| {
      assert groups[..o] == groups;
    } else {
      var n := |groups| - 1;
      assert groups[..n][..o] == groups[..o];
      ResolveFails(all, interactive, answers, groups[..n], s0, o);
    }
  }

  /**
   * All entries of a group share its key, so the tie-break keeps the group's first entry,
   * or raises `ValueError` when that key's second-to-last `_`-part is not an integer.
   */
  lemma GroupTieBreak(all: seq<Entry>, g: (string, seq<nat>))
    requires |g.1| > 0 && ValidPositions(all, g.1)
    requires forall i | 0 <= i < |g.1| :: all[g.1[i]].key == g.0
    ensures ChooseEntryFromSmallestIndex(EntriesAt(all, g.1))
      == if FileIndexOf(g.0).Ok? then Ok(all[g.1[0]]) else Err(ValueError)
  {
    var es := EntriesAt(all, g.1);
    if FileIndexOf(g.0).Ok? {
      SameKeyChoosesFirst(es);
    }
  }

  /** A conflicting group whose key the tie-break cannot parse. */
  predicate Unparsable(all: seq<Entry>, groups: seq<(string, seq<nat>)>) {
    exists x | 0 <= x < |groups| ::
      ValidPositions(all, groups[x].1) && Conflicting(all, groups[x].1) && FileIndexOf(groups[x].0).Err?
  }

  /** In the non-interactive mode the entry at `p` is skipped by group `g`: it differs from the group's first entry. */
  predicate LosesAt(all: seq<Entry>, g: (string, seq<nat>), p: nat) {
    |g.1| > 0 && ValidPositions(all, g.1) && Conflicting(all, g.1) && p in Losers(all, g.1, all[g.1[0]])
  }

  predicate LosesIn(all: seq<Entry>, groups: seq<(string, seq<nat>)>, p: nat) {
    exists x | 0 <= x < |groups| :: LosesAt(all, groups[x], p)
  }

  /**
   * Non-interactive mode reads no answer, and fails exactly when a conflicting group's
   * key does not parse, with `ValueError`.
   */
  lemma {:induction false} NonInteractiveFails(all: seq<Entry>, answers: seq<string>,
                                               groups: seq<(string, seq<nat>)>, s0: Resolution)
    requires WellFormed(all, groups) && s0.pos <= |answers|
    ensures var r := Resolve(all, false, answers, groups, s0);
      && (r.Err? <==> Unparsable(all, groups))
      && (r.Err? ==> r.error == ValueError)
      && (r.Ok? ==> r.value.pos == s0.pos)
    decreases |groups|
  {
    if groups != [] {
      var n := |groups| - 1;
      var pre := groups[..n];
      assert forall x | 0 <= x < n :: pre[x] == groups[x];
      NonInteractiveFails(all, answers, pre, s0);
      GroupTieBreak(all, groups[n]);
      if Unparsable(all, groups) && !Unparsable(all, pre) {
        var x :| 0 <= x < |groups| && ValidPositions(all, groups[x].1) && Conflicting(all, groups[x].1)
          && FileIndexOf(groups[x].0).Err?;
        assert x == n;
      }
    }
  }

  /** Non-interactive mode skips exactly the entries that differ from the first entry of a conflicting group. */
  lemma {:induction false} NonInteractiveSkips(all: seq<Entry>, answers: seq<string>,
                                               groups: seq<(string, seq<nat>)>, s0: Resolution)
    requires WellFormed(all, groups) && s0.pos <= |answers|
    ensures var r := Resolve(all, false, answers, groups, s0);
      r.Ok? ==> forall p :: p in r.value.skipped <==> p in s0.skipped || LosesIn(all, groups, p)
    decreases |groups|
  {
    if groups != [] {
      var n := |groups| - 1;
      var pre := groups[..n];
      assert forall x | 0 <= x < n :: pre[x] == groups[x];
      NonInteractiveSkips(all, answers, pre, s0);
      GroupTieBreak(all, groups[n]);
      var r := Resolve(all, false, answers, groups, s0);
      if r.Ok? {
        var s := Resolve(all, false, answers, pre, s0).value;
        forall p ensures p in r.value.skipped <==> p in s0.skipped || LosesIn(all, groups, p) {
          if LosesIn(all, groups, p) && !LosesIn(all, pre, p) {
            var x :| 0 <= x < |groups| && LosesAt(all, groups[x], p);
            assert x == n;
          }
          if LosesIn(all, pre, p) {
            var x :| 0 <= x < n && LosesAt(all, pre[x], p);
            assert LosesAt(all, groups[x], p);
          }
        }
      }
    }
  }

  /** The first entry of the (key, type) group of the entry at `p`: the one the tie-break keeps. */
  function GroupWinner(all: seq<Entry>, p: nat): Entry
    requires p < |all|
  {
    InPositionsWith(all, all[p].key, all[p].entryType, p);
    all[GroupOf(all, p)[0]]
  }

  /** The entry at `p` lies in a conflicting (key, type) group and differs from that group's first entry. */
  predicate NonInteractiveLoser(all: seq<Entry>, p: nat) {
    p < |all| && Conflicting(all, GroupOf(all, p)) && all[p] != GroupWinner(all, p)
  }

  lemma LosesInGroups(all: seq<Entry>, p: nat)
    ensures LosesIn(all, Groups(all), p) <==> NonInteractiveLoser(all, p)
  {
    if LosesIn(all, Groups(all), p) {
      var x :| 0 <= x < |Groups(all)| && LosesAt(all, Groups(all)[x], p);
      var ps := Groups(all)[x].1;
      var c :| 0 <= c < |ps| && all[ps[c]] != all[ps[0]] && ps[c] == p;
      GroupOfMember(all, x, p);
    }
    if NonInteractiveLoser(all, p) {
      var x := GroupOfEntry(all, p);
      var ps := Groups(all)[x].1;
      InPositionsWith(all, all[p].key, all[p].entryType, p);
      var c :| 0 <= c < |ps| && ps[c] == p;
      assert p in Losers(all, ps, all[ps[0]]);
      assert LosesAt(all, Groups(all)[x], p);
    }
  }

  /** A conflicting group with an unparsable key is the group of one of its entries. */
  lemma UnparsableGroups(all: seq<Entry>)
    ensures Unparsable(all, Groups(all)) <==>
      exists p | 0 <= p < |all| :: Conflicting(all, GroupOf(all, p)) && FileIndexOf(all[p].key).Err?
  {
    GroupsWellFormed(all);
    if Unparsable(all, Groups(all)) {
      var x :| 0 <= x < |Groups(all)| && ValidPositions(all, Groups(all)[x].1) && Conflicting(all, Groups(all)[x].1)
        && FileIndexOf(Groups(all)[x].0).Err?;
      var p := Groups(all)[x].1[0];
      GroupOfMember(all, x, p);
    }
    if exists p | 0 <= p < |all| :: Conflicting(all, GroupOf(all, p)) && FileIndexOf(all[p].key).Err? {
      var p :| 0 <= p < |all| && Conflicting(all, GroupOf(all, p)) && FileIndexOf(all[p].key).Err?;
      var x := GroupOfEntry(all, p);
    }
  }

  /**
   * Non-interactive mode (lines 235-240): reads no answer; fails with `ValueError` exactly
   * when a conflicting group's key does not parse; otherwise skips exactly the entries of
   * conflicting groups that differ from their group's first entry. Every other entry,
   * among them all entries of groups without a conflict, keeps its flag.
   */
  lemma NonInteractiveCheck(all: seq<Entry>, answers: seq<string>, pos: nat)
    requires pos <= |answers|
    ensures var r := SameKeyCheck(all, false, answers, pos);
      && (r.Err? <==> exists p | 0 <= p < |all| :: Conflicting(all, GroupOf(all, p)) && FileIndexOf(all[p].key).Err?)
      && (r.Err? ==> r.error == ValueError)
      && (r.Ok? ==> r.value.pos == pos)
      && (r.Ok? ==> forall p :: p in r.value.skipped <==> NonInteractiveLoser(all, p))
  {
    GroupsWellFormed(all);
    var s0 := Resolution([], {}, pos);
    NonInteractiveFails(all, answers, Groups(all), s0);
    NonInteractiveSkips(all, answers, Groups(all), s0);
    UnparsableGroups(all);
    forall p ensures LosesIn(all, Groups(all), p) <==> NonInteractiveLoser(all, p) {
      LosesInGroups(all, p);
    }
  }

  /** In interactive mode a key that has a chosen entry keeps it: the first choice for a key stands. */
  lemma {:induction false} ChoiceSticks(all: seq<Entry>, answers: seq<string>, groups: seq<(string, seq<nat>)>,
                                        s0: Resolution, k: string)
    requires AllValid(all, groups) && s0.pos <= |answers| && k in KeySet(s0.chosen)
    ensures var r := Resolve(all, true, answers, groups, s0);
      r.Ok? ==> k in KeySet(r.value.chosen) && Get(r.value.chosen, k) == Get(s0.chosen, k)
    decreases |groups|
  {
    if groups != [] {
      var n := |groups| - 1;
      ChoiceSticks(all, answers, groups[..n], s0, k);
      var r := Resolve(all, true, answers, groups[..n], s0);
      if r.Ok? && groups[n].0 != k {
        var e := GroupChoice(all, true, answers, r.value, groups[n]);
        PutGetOther(r.value.chosen, groups[n].0, e, k);
      }
    }
  }

  /** A group leaves `key_to_chosen_entry` alone or sets the group's key to some entry `e`. */
  lemma GroupChoice(all: seq<Entry>, interactive: bool, answers: seq<string>, s: Resolution, g: (string, seq<nat>))
    returns (e: Entry)
    requires ValidPositions(all, g.1) && s.pos <= |answers|
    ensures var r := ResolveGroup(all, interactive, answers, s, g);
      r.Ok? && r.value.chosen != s.chosen ==> r.value.chosen == Put(s.chosen, g.0, e)
  {
    var r := ResolveGroup(all, interactive, answers, s, g);
    if r.Ok? && r.value.chosen != s.chosen {
      if interactive {
        e := all[g.1[SameKeyAnswer(answers, s.pos, |g.1|).value.0.value]];
      } else {
        e := ChooseEntryFromSmallestIndex(EntriesAt(all, g.1)).value;
      }
    } else {
      e := Entry("", "", None, "", "", "");
    }
  }

  /**
   * In interactive mode, groups of a key that already has a chosen entry prompt for
   * nothing and change nothing: each key is decided by at most one answer.
   */
  lemma {:induction false} DecidedKeyIsSilent(all: seq<Entry>, answers: seq<string>, groups: seq<(string, seq<nat>)>,
                                              s0: Resolution, k: string)
    requires AllValid(all, groups) && s0.pos <= |answers| && k in KeySet(s0.chosen)
    requires forall x | 0 <= x < |groups| :: groups[x].0 == k
    ensures Resolve(all, true, answers, groups, s0) == Ok(s0)
    decreases |groups|
  {
    if groups != [] {
      var n := |groups| - 1;
      DecidedKeyIsSilent(all, answers, groups[..n], s0, k);
    }
  }

  /** Interactive mode with only blank answers left keeps every entry and chooses none (lines 174-175). */
  lemma {:induction false} BlankAnswersKeepAll(all: seq<Entry>, answers: seq<string>, groups: seq<(string, seq<nat>)>,
                                               s0: Resolution)
    requires AllValid(all, groups) && s0.pos <= |answers|
    requires forall i | s0.pos <= i < |answers| :: Strip(answers[i]) == ""
    ensures var r := Resolve(all, true, answers, groups, s0);
      r.Ok? ==> r.value.chosen == s0.chosen && r.value.skipped == s0.skipped
    decreases |groups|
  {
    if groups != [] {
      var n := |groups| - 1;
      BlankAnswersKeepAll(all, answers, groups[..n], s0);
    }
  }

  /** A group of `groups` holding `p` whose titles conflict. */
  predicate ConflictIn(all: seq<Entry>, groups: seq<(string, seq<nat>)>, p: nat) {
    exists x | 0 <= x < |groups| :: ValidPositions(all, groups[x].1) && Conflicting(all, groups[x].1) && p in groups[x].1
  }

  /**
   * In interactive mode every entry the check skips lies in a conflicting group, and
   * differs from the entry chosen for its key.
   */
  predicate SkipsAgree(all: seq<Entry>, groups: seq<(string, seq<nat>)>, s: Resolution) {
    forall p | p in s.skipped ::
      && ConflictIn(all, groups, p)
      && p < |all|
      && all[p].key in KeySet(s.chosen)
      && all[p] != Get(s.chosen, all[p].key)
  }

  lemma {:induction false} InteractiveSkips(all: seq<Entry>, answers: seq<string>, groups: seq<(string, seq<nat>)>,
                                            s0: Resolution)
    requires WellFormed(all, groups) && s0.pos <= |answers| && s0.skipped == {}
    ensures var r := Resolve(all, true, answers, groups, s0);
      r.Ok? ==> SkipsAgree(all, groups, r.value)
    decreases |groups|
  {
    if groups != [] {
      var n := |groups| - 1;
      var pre := groups[..n];
      assert forall x | 0 <= x < n :: pre[x] == groups[x];
      InteractiveSkips(all, answers, pre, s0);
      var r := Resolve(all, true, answers, pre, s0);
      if r.Ok? {
        InteractiveStep(all, answers, pre, groups, r.value);
      }
    }
  }

  /** One interactive group keeps `SkipsAgree`, with the groups visited so far growing from `pre` to `groups`. */
  lemma InteractiveStep(all: seq<Entry>, answers: seq<string>, pre: seq<(string, seq<nat>)>,
                        groups: seq<(string, seq<nat>)>, s: Resolution)
    requires WellFormed(all, groups) && |groups| == |pre| + 1 && pre == groups[..|pre|]
    requires s.pos <= |answers| && SkipsAgree(all, pre, s)
    ensures var r := ResolveGroup(all, true, answers, s, groups[|pre|]);
      r.Ok? ==> SkipsAgree(all, groups, r.value)
  {
    var g := groups[|pre|];
    var r := ResolveGroup(all, true, answers, s, g);
    forall p | ConflictIn(all, pre, p) ensures ConflictIn(all, groups, p) {
      var x :| 0 <= x < |pre| && ValidPositions(all, pre[x].1) && Conflicting(all, pre[x].1) && p in pre[x].1;
      assert groups[x] == pre[x];
    }
    if r.Ok? && r.value != s && r.value.skipped != s.skipped {
      var t := r.value;
      var c := SameKeyAnswer(answers, s.pos, |g.1|).value.0.value;
      var e := all[g.1[c]];
      assert t.chosen == Put(s.chosen, g.0, e) && t.skipped == s.skipped + Losers(all, g.1, e);
      PutKeys(s.chosen, g.0, e);
      PutGet(s.chosen, g.0, e);
      forall p | p in t.skipped
        ensures && ConflictIn(all, groups, p) && p < |all|
                && all[p].key in KeySet(t.chosen) && all[p] != Get(t.chosen, all[p].key)
      {
        if p in s.skipped {
          PutGetOther(s.chosen, g.0, e, all[p].key);
        } else {
          var x :| 0 <= x < |g.1| && all[g.1[x]] != e && g.1[x] == p;
          assert groups[|pre|] == g;
        }
      }
    }
  }

  /**
   * Interactive mode (lines 224-233): every skipped entry lies in a conflicting (key, type)
   * group, its key has a chosen entry, and it differs from that entry.
   */
  lemma InteractiveCheck(all: seq<Entry>, answers: seq<string>, pos: nat)
    requires pos <= |answers|
    ensures var r := SameKeyCheck(all, true, answers, pos);
      r.Ok? ==> forall p | p in r.value.skipped ::
        && p < |all| && Conflicting(all, GroupOf(all, p))
        && all[p].key in KeySet(r.value.chosen) && all[p] != Get(r.value.chosen, all[p].key)
  {
    GroupsWellFormed(all);
    InteractiveSkips(all, answers, Groups(all), Resolution([], {}, pos));
    var r := SameKeyCheck(all, true, answers, pos);
    if r.Ok? {
      forall p | p in r.value.skipped ensures p < |all| && Conflicting(all, GroupOf(all, p)) {
        var x :| 0 <= x < |Groups(all)| && ValidPositions(all, Groups(all)[x].1) && Conflicting(all, Groups(all)[x].1)
          && p in Groups(all)[x].1;
        GroupOfMember(all, x, p);
      }
    }
  }

  /** Lines 231-233 and 238-240: `entry['skip'] = True` for every entry of `ps` that differs from `e`. */
  method SkipOthers(skip: array<bool>, all: seq<Entry>, ps: seq<nat>, e: Entry)
    requires skip.Length == |all| && ValidPositions(all, ps)
    modifies skip
    ensures forall q | 0 <= q < skip.Length :: skip[q] == (old(skip[q]) || q in Losers(all, ps, e))
  {
    for i := 0 to |ps|
      invariant forall q | 0 <= q < skip.Length :: skip[q] == (old(skip[q]) || q in Losers(all, ps[..i], e))
    {
      LosersNext(all, ps, e, i);
      if all[ps[i]] != e {
        skip[ps[i]] := true;
      }
    }
    assert ps[..|ps|] == ps;
  }

  /**
   * Lines 219-240 for the group `ps` of key `key`, from `key_to_chosen_entry` `chosen` and
   * answer position `pos`: whether the titles conflict, and the new choices and position.
   * `skipped` names the positions whose flag earlier groups have set.
   */
  method ResolveOne(skip: array<bool>, all: seq<Entry>, interactive: bool, answers: seq<string>,
                    key: string, ps: seq<nat>, chosen: Dict<string, Entry>, pos: nat, ghost skipped: set<nat>)
    returns (r: Result<(bool, Dict<string, Entry>, nat)>)
    requires skip.Length == |all| && ValidPositions(all, ps) && pos <= |answers|
    requires forall q | q in skipped :: q < |all| && skip[q]
    modifies skip
    ensures var t := ResolveGroup(all, interactive, answers, Resolution(chosen, skipped, pos), (key, ps));
      && (r.Err? <==> t.Err?)
      && (r.Err? ==> r.error == t.error)
      && (r.Ok? ==> r.value == (Conflicting(all, ps), t.value.chosen, t.value.pos))
      && (r.Ok? ==> forall q | 0 <= q < |all| :: skip[q] == (old(skip[q]) || q in t.value.skipped))
  {
    var titles := TitlesOf(all, ps);
    if |titles| <= 1 {
      return Ok((false, chosen, pos));
    }
    var entries := EntriesAt(all, ps);
    if interactive {
      if key in KeySet(chosen) {
        return Ok((true, chosen, pos));
      }
      var answer := GetUserChoiceForSameKey(answers, pos, entries);
      match answer
      case Err(e) =>
        return Err(e);
      case Ok((choice, next)) =>
        if choice.None? {
          return Ok((true, chosen, next));
        }
        SkipOthers(skip, all, ps, choice.value);
        return Ok((true, Put(chosen, key, choice.value), next));
    } else {
      var c := ChooseEntryFromSmallestIndex(entries);
      if c.Err? {
        return Err(c.error);
      }
      SkipOthers(skip, all, ps, c.value);
      return Ok((true, Put(chosen, key, c.value), pos));
    }
  }

  /** Some group among the first `o` of `groups` has conflicting titles. */
  predicate ConflictBefore(all: seq<Entry>, groups: seq<(string, seq<nat>)>, o: nat)
    requires o <= |groups|
  {
    exists x | 0 <= x < o :: ValidPositions(all, groups[x].1) && Conflicting(all, groups[x].1)
  }

  lemma ConflictBeforeNext(all: seq<Entry>, groups: seq<(string, seq<nat>)>, o: nat)
    requires o < |groups| && ValidPositions(all, groups[o].1)
    ensures ConflictBefore(all, groups, o + 1) <==> ConflictBefore(all, groups, o) || Conflicting(all, groups[o].1)
  {
  }

  /** The first `o` of `groups`, resolved from `s0`, leave the state `s`. */
  predicate Visited(all: seq<Entry>, interactive: bool, answers: seq<string>, groups: seq<(string, seq<nat>)>,
                    s0: Resolution, o: nat, s: Resolution) {
    && s0.pos <= |answers|
    && o <= |groups|
    && AllValid(all, groups)
    && AllValid(all, groups[..o])
    && Resolve(all, interactive, answers, groups[..o], s0) == Ok(s)
  }

  /** Resolving group `o`, which is `g`, extends the visited prefix by one group, or fails the whole check. */
  lemma VisitedNext(all: seq<Entry>, interactive: bool, answers: seq<string>, groups: seq<(string, seq<nat>)>,
                    s0: Resolution, o: nat, s: Resolution, g: (string, seq<nat>))
    requires Visited(all, interactive, answers, groups, s0, o, s) && o < |groups| && groups[o] == g
    ensures s.pos <= |answers| && ValidPositions(all, g.1)
    ensures var t := ResolveGroup(all, interactive, answers, s, g);
      && (t.Ok? ==> Visited(all, interactive, answers, groups, s0, o + 1, t.value))
      && (t.Err? ==> Resolve(all, interactive, answers, groups, s0) == t)
  {
    ResolveNext(all, interactive, answers, groups, s0, o);
    var t := ResolveGroup(all, interactive, answers, s, g);
    if t.Err? {
      ResolveFails(all, interactive, answers, groups, s0, o + 1);
    }
  }

  /** The flags `cur` are the flags `orig` with those of `skipped` set, and nothing else. */
  predicate Mirrors(orig: seq<bool>, cur: seq<bool>, skipped: set<nat>) {
    && |cur| == |orig|
    && (forall q | q in skipped :: q < |orig|)
    && forall q | 0 <= q < |orig| :: cur[q] == (orig[q] || q in skipped)
  }

  lemma MirrorsNext(orig: seq<bool>, mid: seq<bool>, cur: seq<bool>, skipped: set<nat>, more: set<nat>)
    requires Mirrors(orig, mid, skipped) && skipped <= more && |cur| == |mid|
    requires forall q | q in more :: q < |orig|
    requires forall q | 0 <= q < |mid| :: cur[q] == (mid[q] || q in more)
    ensures Mirrors(orig, cur, more)
  {
  }

  /**
   * Group `o` of `groups`, which is `g`, resolved by `ResolveOne` after the groups before it:
   * the visit, the conflict flag and the `skip` flags all advance by one group.
   */
  method ResolveStep(skip: array<bool>, all: seq<Entry>, interactive: bool, answers: seq<string>,
                     g: (string, seq<nat>), chosen0: Dict<string, Entry>, next0: nat, hasIssues0: bool,
                     ghost groups: seq<(string, seq<nat>)>, ghost s0: Resolution, ghost o: nat,
                     ghost skipped0: set<nat>, ghost orig: seq<bool>)
    returns (r: Result<(bool, Dict<string, Entry>, nat)>, ghost skipped: set<nat>)
    requires skip.Length == |all| && o < |groups| && groups[o] == g
    requires Visited(all, interactive, answers, groups, s0, o, Resolution(chosen0, skipped0, next0))
    requires hasIssues0 <==> ConflictBefore(all, groups, o)
    requires Mirrors(orig, skip[..], skipped0)
    modifies skip
    ensures r.Err? ==> Resolve(all, interactive, answers, groups, s0) == Err(r.error)
    ensures r.Ok? ==>
      && Visited(all, interactive, answers, groups, s0, o + 1, Resolution(r.value.1, skipped, r.value.2))
      && (r.value.0 <==> ConflictBefore(all, groups, o + 1))
      && Mirrors(orig, skip[..], skipped)
  {
    ghost var s := Resolution(chosen0, skipped0, next0);
    VisitedNext(all, interactive, answers, groups, s0, o, s, g);
    ghost var t := ResolveGroup(all, interactive, answers, s, g);
    ghost var mid := skip[..];
    var res := ResolveOne(skip, all, interactive, answers, g.0, g.1, chosen0, next0, skipped0);
    if res.Err? {
      return Err(res.error), skipped0;
    }
    MirrorsNext(orig, mid, skip[..], skipped0, t.value.skipped);
    ConflictBeforeNext(all, groups, o);
    return Ok((hasIssues0 || res.value.0, res.value.1, res.value.2)), t.value.skipped;
  }

  /**
   * Lines 211-240 for one key: the type groups `byType` of `key`, which are the groups
   * `o0`, `o0 + 1`, ... of `Groups(all)`, resolved in turn.
   */
  method ResolveKey(skip: array<bool>, all: seq<Entry>, interactive: bool, answers: seq<string>,
                    key: string, byType: Dict<string, seq<nat>>, chosen0: Dict<string, Entry>, next0: nat,
                    hasIssues0: bool, ghost groups: seq<(string, seq<nat>)>, ghost s0: Resolution, ghost o0: nat,
                    ghost skipped0: set<nat>, ghost orig: seq<bool>)
    returns (r: Result<(bool, Dict<string, Entry>, nat)>, ghost skipped: set<nat>)
    requires skip.Length == |all|
    requires o0 + |byType| <= |groups|
    requires forall z | 0 <= z < |byType| :: groups[o0 + z] == (key, byType[z].1)
    requires Visited(all, interactive, answers, groups, s0, o0, Resolution(chosen0, skipped0, next0))
    requires hasIssues0 <==> ConflictBefore(all, groups, o0)
    requires Mirrors(orig, skip[..], skipped0)
    modifies skip
    ensures r.Err? ==> Resolve(all, interactive, answers, groups, s0) == Err(r.error)
    ensures r.Ok? ==>
      && Visited(all, interactive, answers, groups, s0, o0 + |byType|, Resolution(r.value.1, skipped, r.value.2))
      && (r.value.0 <==> ConflictBefore(all, groups, o0 + |byType|))
      && Mirrors(orig, skip[..], skipped)
  {
    var hasIssues, chosen, next := hasIssues0, chosen0, next0;
    skipped := skipped0;
    for z := 0 to |byType|
      invariant Visited(all, interactive, answers, groups, s0, o0 + z, Resolution(chosen, skipped, next))
      invariant hasIssues <==> ConflictBefore(all, groups, o0 + z)
      invariant Mirrors(orig, skip[..], skipped)
    {
      var res;
      res, skipped := ResolveStep(skip, all, interactive, answers, (key, byType[z].1), chosen, next, hasIssues,
                                  groups, s0, o0 + z, skipped, orig);
      if res.Err? {
        return Err(res.error), skipped;
      }
      hasIssues, chosen, next := res.value.0, res.value.1, res.value.2;
    }
    return Ok((hasIssues, chosen, next)), skipped;
  }

  /**
   * One pass of the outer loop (lines 204-240): key group `y` of `byKey`, whose type groups
   * are part `y` of `parts`, continues the visit of the groups `Nest(parts)` at group `o0`.
   */
  method ResolveKeyGroup(skip: array<bool>, all: seq<Entry>, interactive: bool, answers: seq<string>,
                         byKey: Dict<string, seq<nat>>, y: nat, chosen0: Dict<string, Entry>, next0: nat,
                         hasIssues0: bool, ghost parts: seq<(string, Dict<string, seq<nat>>)>, ghost s0: Resolution,
                         ghost o0: nat, ghost skipped0: set<nat>, ghost orig: seq<bool>)
    returns (r: Result<(bool, Dict<string, Entry>, nat)>, ghost skipped: set<nat>)
    requires skip.Length == |all| && y < |byKey| == |parts| && o0 == |Nest(parts[..y])|
    requires ValidPositions(all, byKey[y].1) && parts[y] == (byKey[y].0, EntriesByType(all, byKey[y].1))
    requires Visited(all, interactive, answers, Nest(parts), s0, o0, Resolution(chosen0, skipped0, next0))
    requires hasIssues0 <==> ConflictBefore(all, Nest(parts), o0)
    requires Mirrors(orig, skip[..], skipped0)
    modifies skip
    ensures r.Err? ==> Resolve(all, interactive, answers, Nest(parts), s0) == Err(r.error)
    ensures r.Ok? ==>
      && var o := |Nest(parts[..y + 1])|;
      && Visited(all, interactive, answers, Nest(parts), s0, o, Resolution(r.value.1, skipped, r.value.2))
      && (r.value.0 <==> ConflictBefore(all, Nest(parts), o))
      && Mirrors(orig, skip[..], skipped)
  {
    var byType := GroupByType(all, byKey[y].1);
    NestVisit(parts, o0, y);
    r, skipped := ResolveKey(skip, all, interactive, answers, byKey[y].0, byType, chosen0, next0, hasIssues0,
                             Nest(parts), s0, o0, skipped0, orig);
  }

  /**
   * Lines 204-240 over the key groups `byKey`, whose type groups are the parts `parts`;
   * the groups visited are `Nest(parts)`.
   */
  method ResolveAll(skip: array<bool>, all: seq<Entry>, interactive: bool, answers: seq<string>, pos: nat,
                    byKey: Dict<string, seq<nat>>, ghost parts: seq<(string, Dict<string, seq<nat>>)>)
    returns (r: Result<(bool, Dict<string, Entry>, nat)>, ghost skipped: set<nat>)
    requires skip.Length == |all| && pos <= |answers|
    requires |parts| == |byKey| && AllValid(all, Nest(parts))
    requires forall y | 0 <= y < |byKey| ::
      ValidPositions(all, byKey[y].1) && parts[y] == (byKey[y].0, EntriesByType(all, byKey[y].1))
    modifies skip
    ensures r.Err? ==> Resolve(all, interactive, answers, Nest(parts), Resolution([], {}, pos)) == Err(r.error)
    ensures r.Ok? ==>
      && Visited(all, interactive, answers, Nest(parts), Resolution([], {}, pos), |Nest(parts)|,
                 Resolution(r.value.1, skipped, r.value.2))
      && (r.value.0 <==> ConflictBefore(all, Nest(parts), |Nest(parts)|))
      && Mirrors(old(skip[..]), skip[..], skipped)
  {
    ghost var s0 := Resolution([], {}, pos);
    var hasIssues := false;
    var chosen: Dict<string, Entry> := [];
    var next := pos;
    skipped := {};
    ghost var orig := skip[..];
    assert Nest(parts)[..0] == [];
    for y := 0 to |byKey|
      invariant orig == old(skip[..])
      invariant Visited(all, interactive, answers, Nest(parts), s0, |Nest(parts[..y])|, Resolution(chosen, skipped, next))
      invariant hasIssues <==> ConflictBefore(all, Nest(parts), |Nest(parts[..y])|)
      invariant Mirrors(orig, skip[..], skipped)
    {
      var res;
      res, skipped := ResolveKeyGroup(skip, all, interactive, answers, byKey, y, chosen, next, hasIssues,
                                      parts, s0, |Nest(parts[..y])|, skipped, orig);
      if res.Err? {
        return Err(res.error), skipped;
      }
      hasIssues, chosen, next := res.value.0, res.value.1, res.value.2;
    }
    assert parts[..|parts|] == parts;
    return Ok((hasIssues, chosen, next)), skipped;
  }

  /**
   * `check_same_key_different_titles` (lines 198-248): `has_issues`, `key_to_chosen_entry`
   * and the position of the next unread answer; the `skip` flags it sets are those of
   * `SameKeyCheck`. `has_issues` holds exactly when two entries of one key and type have
   * different lower-cased titles.
   */
  method CheckSameKeyDifferentTitles(skip: array<bool>, all: seq<Entry>, interactive: bool, answers: seq<string>, pos: nat)
    returns (r: Result<(bool, Dict<string, Entry>, nat)>)
    requires skip.Length == |all| && pos <= |answers|
    modifies skip
    ensures var spec := SameKeyCheck(all, interactive, answers, pos);
      && (r.Err? <==> spec.Err?)
      && (r.Err? ==> r.error == spec.error)
      && (r.Ok? ==> r.value == (SameKeyDifferentTitle(all), spec.value.chosen, spec.value.pos))
      && (r.Ok? ==> forall q | 0 <= q < |all| :: skip[q] == (old(skip[q]) || q in spec.value.skipped))
  {
    GroupsWellFormed(all);
    EntriesByKeyValid(all);
    var byKey := GroupByKey(all);
    ghost var parts := Parts(all);
    forall y | 0 <= y < |byKey|
      ensures ValidPositions(all, byKey[y].1) && parts[y] == (byKey[y].0, EntriesByType(all, byKey[y].1))
    {
      var ps := PartAt(all, y);
    }
    ghost var skipped;
    r, skipped := ResolveAll(skip, all, interactive, answers, pos, byKey, parts);
    if r.Ok? {
      ghost var groups := Groups(all);
      assert groups[..|groups|] == groups;
      HasIssuesIff(all);
      assert r.value.0 == HasIssues(all);
      forall q | 0 <= q < |all| ensures skip[q] == (old(skip[q]) || q in skipped) {
        assert skip[..][q] == skip[q] && old(skip[..])[q] == old(skip[q]);
      }
    }
  }
}
