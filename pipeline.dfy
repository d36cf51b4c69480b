/**
 * `merge_bib_files` (bib-merger.py:270-359) without its file system and console: the
 * input files are given as their names and entry matches, the operator's answers as a
 * list of lines, and the iteration order of a Python `set` as the parameter `order`.
 * It parses every file, runs the two consistency checks, merges, sorts and renders.
 */
module Pipeline {
  import opened Outcomes
  import opened Dicts
  import opened Records
  import Text
  import Collect
  import TitleCheck
  import KeyCheck
  import Merge
  import Output

  /**
   * What a merge produces: the entries written, the text written and their count;
   * `hasIssues` is the flag line 357 tests, as line 305 leaves it (the key check's alone),
   * and `anyIssues` the flag lines 302-305 evidently intend (either check's).
   */
  datatype Summary = Summary(written: seq<Entry>, text: string, count: nat, hasIssues: bool, anyIssues: bool)

  /** The verdict of `check_same_title_different_keys`. */
  predicate TitleIssues(all: seq<Entry>, byFile: seq<Dict<string, seq<string>>>) {
    || (exists f | 0 <= f < |byFile| :: TitleCheck.FileConflict(all, byFile[f]))
    || TitleCheck.CrossFileConflict(all, byFile)
  }

  /** The `skip` flags after the key check: set exactly on the positions it skipped. */
  function SkipFlags(n: nat, skipped: set<nat>): (s: seq<bool>)
    ensures |s| == n && forall q | 0 <= q < n :: s[q] == (q in skipped)
  {
    seq(n, q => q in skipped)
  }

  /**
   * Lines 301-344 on the global list and the per-file title indexes: the outcome of both
   * checks and of the merge, that is `merged_entries`, `has_issues` as line 305 rebinds it,
   * and the flag accumulated over both checks as the `|=` of line 302 intends.
   */
  function MergedFrom(all: seq<Entry>, byFile: seq<Dict<string, seq<string>>>, interactive: bool,
                      answers: seq<string>, order: set<string> -> seq<string>)
    : Result<(Dict<string, Entry>, bool, bool)>
  {
    if !TitleCheck.ResolvableAll(all, byFile) then Err(StopIteration)
    else
      match KeysThenMerge(all, byFile, interactive, answers, order)
      case Err(err) => Err(err)
      case Ok((merged, keyIssues)) => Ok((merged, keyIssues, TitleIssues(all, byFile) || keyIssues))
  }

  /**
   * Lines 305-344: the key check, then the merge pass over the entries it kept;
   * `merged_entries` and the key check's `has_issues`.
   */
  function KeysThenMerge(all: seq<Entry>, byFile: seq<Dict<string, seq<string>>>, interactive: bool,
                         answers: seq<string>, order: set<string> -> seq<string>): Result<(Dict<string, Entry>, bool)>
  {
    match KeyCheck.SameKeyCheck(all, interactive, answers, 0)
    case Err(err) => Err(err)
    case Ok(res) =>
      var p := Merge.Pass(all, SkipFlags(|all|, res.skipped), byFile, interactive, answers, order);
      match Merge.MergeUpTo(p, res.pos, |all|)
      case Err(err) => Err(err)
      case Ok(m) => Ok((FirstWins(Merge.Pairs(m.inserted)), KeyCheck.SameKeyDifferentTitle(all)))
  }

  /** `MergedFrom` on the parsed files. */
  function MergedTable(files: seq<Collect.InputFile>, interactive: bool, answers: seq<string>,
                       order: set<string> -> seq<string>): Result<(Dict<string, Entry>, bool, bool)>
  {
    var tables := MapSeq(files, Collect.ParsedTable);
    MergedFrom(Collect.Flatten(tables), MapSeq(tables, Collect.TitleIndex), interactive, answers, order)
  }

  /** Lines 346-353 and the count of line 355: `merged_entries` sorted, written and counted. */
  function Summarize(merged: Dict<string, Entry>, issues: bool, anyIssues: bool): Summary {
    var written := Output.SortEntries(ValuesOf(merged));
    Summary(written, Output.Render(written), |merged|, issues, anyIssues)
  }

  /** `merge_bib_files`: the merged table sorted, rendered and counted. */
  function MergeBib(files: seq<Collect.InputFile>, interactive: bool, answers: seq<string>,
                    order: set<string> -> seq<string>): Result<Summary>
  {
    match MergedTable(files, interactive, answers, order)
    case Err(err) => Err(err)
    case Ok((merged, issues, anyIssues)) => Ok(Summarize(merged, issues, anyIssues))
  }

  /**
   * Lines 270-359 with the console and files left out: parse, index, check titles, check
   * keys (flagging `skip`), merge, sort and write. An exception of any step ends the run.
   */
  method MergeBibFiles(files: seq<Collect.InputFile>, interactive: bool, answers: seq<string>,
                       order: set<string> -> seq<string>) returns (r: Result<Summary>)
    ensures r == MergeBib(files, interactive, answers, order)
  {
    var tables := Collect.ParseFiles(files);
    var all, byFile := Collect.CollectEntries(tables);
    var merged := CheckAndMerge(all, byFile, interactive, answers, order);
    if merged.Err? {
      return Err(merged.error);
    }
    var written := Output.SortEntries(ValuesOf(merged.value.0));
    var text := Output.WriteEntries(written);
    return Ok(Summary(written, text, |merged.value.0|, merged.value.1, merged.value.2));
  }

  /** Lines 301-344: both checks, then the merge pass over the entries the key check kept. */
  method CheckAndMerge(all: seq<Entry>, byFile: seq<Dict<string, seq<string>>>, interactive: bool,
                       answers: seq<string>, order: set<string> -> seq<string>)
    returns (r: Result<(Dict<string, Entry>, bool, bool)>)
    ensures r == MergedFrom(all, byFile, interactive, answers, order)
  {
    var titleCheck := TitleCheck.CheckSameTitleDifferentKeys(all, byFile);
    if titleCheck.Err? {
      return Err(titleCheck.error);
    }
    var rest := CheckKeysAndMerge(all, byFile, interactive, answers, order);
    match rest
    case Err(err) => return Err(err);
    case Ok((merged, keyIssues)) => return Ok((merged, keyIssues, titleCheck.value || keyIssues));
  }

  /** Lines 305-344 on fresh `skip` flags: the key check sets them, the merge pass reads them. */
  method CheckKeysAndMerge(all: seq<Entry>, byFile: seq<Dict<string, seq<string>>>, interactive: bool,
                           answers: seq<string>, order: set<string> -> seq<string>)
    returns (r: Result<(Dict<string, Entry>, bool)>)
    ensures r == KeysThenMerge(all, byFile, interactive, answers, order)
  {
    var skip := new bool[|all|](_ => false);
    var keyCheck := KeyCheck.CheckSameKeyDifferentTitles(skip, all, interactive, answers, 0);
    match keyCheck
    case Err(err) => return Err(err);
    case Ok((keyIssues, _, pos)) =>
      ghost var res := KeyCheck.SameKeyCheck(all, interactive, answers, 0).value;
      assert skip[..] == SkipFlags(|all|, res.skipped);
      var merged := Merge.MergeEntries(Merge.Pass(all, skip[..], byFile, interactive, answers, order), pos);
      match merged
      case Err(err) => return Err(err);
      case Ok((table, _)) => return Ok((table, keyIssues));
  }

  /**
   * What a successful merge writes: the merged entries, each once, sorted by (title, type,
   * key) with ties in merge order, as one text; the count printed is their number.
   */
  lemma SummarizeSpec(merged: Dict<string, Entry>, issues: bool, anyIssues: bool)
    ensures var s := Summarize(merged, issues, anyIssues);
      && multiset(s.written) == multiset(ValuesOf(merged))
      && Output.Sorted(s.written, Output.SortKeyOf)
      && (forall k: Output.SortKey ::
            Output.WithKey(s.written, Output.SortKeyOf, k) == Output.WithKey(ValuesOf(merged), Output.SortKeyOf, k))
      && |s.written| == s.count
      && s.text == Output.Render(s.written)
  {
    Output.SortEntriesSpec(ValuesOf(merged));
  }

  /**
   * The two warning flags of a run that gets through the merge: the flag as written is the
   * key check's verdict alone, the intended one is either check's, the first implies the
   * second, and they differ exactly when only the title check finds an inconsistency.
   */
  lemma IssueFlags(all: seq<Entry>, byFile: seq<Dict<string, seq<string>>>, interactive: bool,
                   answers: seq<string>, order: set<string> -> seq<string>)
    ensures var r := MergedFrom(all, byFile, interactive, answers, order);
      r.Ok? ==>
        && (r.value.1 <==> KeyCheck.SameKeyDifferentTitle(all))
        && (r.value.2 <==> TitleIssues(all, byFile) || KeyCheck.SameKeyDifferentTitle(all))
        && (r.value.1 ==> r.value.2)
        && (r.value.1 != r.value.2 <==> TitleIssues(all, byFile) && !KeyCheck.SameKeyDifferentTitle(all))
  {
  }

  /**
   * `merged_entries` holds each key once, and invents nothing: every key is the key of
   * some entry and every value is one of the entries.
   */
  lemma KeptFromInput(all: seq<Entry>, byFile: seq<Dict<string, seq<string>>>, interactive: bool,
                      answers: seq<string>, order: set<string> -> seq<string>)
    requires Merge.ListsMembers(order)
    ensures var r := KeysThenMerge(all, byFile, interactive, answers, order);
      r.Ok? ==>
        var merged := r.value.0;
        && KeysDistinct(merged)
        && forall i | 0 <= i < |merged| ::
             (exists q | 0 <= q < |all| :: all[q].key == merged[i].0) && merged[i].1 in all
  {
    var r := KeysThenMerge(all, byFile, interactive, answers, order);
    if r.Ok? {
      var res := KeyCheck.SameKeyCheck(all, interactive, answers, 0).value;
      var p := Merge.Pass(all, SkipFlags(|all|, res.skipped), byFile, interactive, answers, order);
      var ins := Merge.MergeUpTo(p, res.pos, |all|).value.inserted;
      Merge.MergeFromInput(p, res.pos);
      PairsFromInput(all, ins);
    }
  }

  lemma PairsFromInput(all: seq<Entry>, ins: seq<Merge.Insertion>)
    requires forall m | 0 <= m < |ins| ::
      (exists q | 0 <= q < |all| :: all[q].key == ins[m].key) && ins[m].entry in all
    ensures var merged := FirstWins(Merge.Pairs(ins));
      && KeysDistinct(merged)
      && forall i | 0 <= i < |merged| ::
           (exists q | 0 <= q < |all| :: all[q].key == merged[i].0) && merged[i].1 in all
  {
    var ps := Merge.Pairs(ins);
    FirstWinsItems(ps);
    var merged := FirstWins(ps);
    forall i | 0 <= i < |merged|
      ensures (exists q | 0 <= q < |all| :: all[q].key == merged[i].0) && merged[i].1 in all
    {
      var m :| 0 <= m < |ps| && ps[m] == merged[i];
      assert merged[i] == (ins[m].key, ins[m].entry);
    }
  }

  /** The two entries of the example below: `@article{x, title={t}}` and `@article{y, title={t}}` in `a.bib`. */
  function TwoKeysOneTitle(): seq<Entry> {
    [Entry("article", "x", Some("t"), "title={t}", "@article{x, title={t}}", "a.bib"),
     Entry("article", "y", Some("t"), "title={t}", "@article{y, title={t}}", "a.bib")]
  }

  /**
   * One file `a.bib` holding `@article{x, title={t}}` and `@article{y, title={t}}`: the
   * title check finds two keys for one title and type, the key check finds nothing, and
   * whatever the mode, the answers and the set order, a run that gets through says there
   * were no inconsistencies where the intended flag says there were.
   */
  lemma TitleIssuesDropped(interactive: bool, answers: seq<string>, order: set<string> -> seq<string>)
    ensures var r := MergedFrom(TwoKeysOneTitle(), [[("t", ["x", "y"])]], interactive, answers, order);
      && TitleIssues(TwoKeysOneTitle(), [[("t", ["x", "y"])]])
      && !KeyCheck.SameKeyDifferentTitle(TwoKeysOneTitle())
      && (r.Ok? ==> !r.value.1 && r.value.2)
  {
    TwoKeysOneTitleIssues();
    IssueFlags(TwoKeysOneTitle(), [[("t", ["x", "y"])]], interactive, answers, order);
  }

  /** On that input the title check reports and the key check does not. */
  lemma TwoKeysOneTitleIssues()
    ensures TitleIssues(TwoKeysOneTitle(), [[("t", ["x", "y"])]])
    ensures !KeyCheck.SameKeyDifferentTitle(TwoKeysOneTitle())
  {
    var all := TwoKeysOneTitle();
    var titles := [("t", ["x", "y"])];
    assert Text.EndsWith("a.bib", ".bib");
    assert TitleCheck.FirstBibPos(all, "x") == Some(0);
    assert TitleCheck.FirstBibPos(all, "y") == Some(1);
    var ps := TitleCheck.TitleKeyPairs(titles);
    assert ps == [("t", "x"), ("t", "y")];
    assert TitleCheck.FileConflict(all, titles) by {
      assert ps[0].0 == ps[1].0 && TitleCheck.BibTypeOf(all, ps[0].1) == TitleCheck.BibTypeOf(all, ps[1].1);
    }
    assert [titles][0] == titles;
  }
}
