/**
 * One BibTeX entry and how `parse_bib_file` builds a file's entry table from the
 * matches of its entry pattern (bib-merger.py:43-75). Matching itself, `extract_title`
 * and the reading of the file are inputs: the matches come as a sequence, each with the
 * title found in its content.
 */
module Records {
  import opened Outcomes
  import opened Text
  import opened Dicts

  /**
   * One match of the entry pattern: its three groups (entry type, key, body) and the
   * title that `extract_title` finds in the entry's normalised content.
   */
  datatype Match = Match(entryType: string, key: string, body: string, title: Option<string>)

  /** One entry as `parse_bib_file` stores it; `source` is the name of the file it came from. */
  datatype Entry = Entry(
    entryType: string,
    key: string,
    title: Option<string>,
    content: string,
    raw: string,
    source: string)

  /** `entry['title'].lower() if entry['title'] else None`: an empty title counts as none. */
  function NormTitle(e: Entry): Option<string> {
    if e.title.Some? && e.title.value != "" then Some(Lower(e.title.value)) else None
  }

  const Indent: string := "    "

  /** What one line of an entry body adds to `normalized_lines`. */
  function LineContribution(line: string): seq<string> {
    var s := Strip(line);
    if s == "" then [] else [Indent + s]
  }

  /** `normalized_lines` after the loop of lines 54-57 has run over `lines`. */
  function NormalizedLines(lines: seq<string>): seq<string> {
    if lines == [] then []
    else NormalizedLines(lines[..|lines| - 1]) + LineContribution(lines[|lines| - 1])
  }

  /** The re-indented entry content of lines 52-58. */
  function NormalizeContent(content: string): string {
    Join(NormalizedLines(Split(content, '\n')), '\n')
  }

  /** The positions of the lines that are not blank once stripped, in increasing order. */
  function NonBlankPositions(lines: seq<string>): (ps: seq<nat>)
    ensures forall j | 0 <= j < |ps| :: ps[j] < |lines|
  {
    if lines == [] then []
    else
      var n := |lines| - 1;
      var pre := NonBlankPositions(lines[..n]);
      if Strip(lines[n]) == "" then pre else pre + [n]
  }

  /** Every listed position holds a non-blank line. */
  lemma {:induction false} NonBlankPositionsSound(lines: seq<string>)
    ensures forall j | 0 <= j < |NonBlankPositions(lines)| ::
      Strip(lines[NonBlankPositions(lines)[j]]) != ""
  {
    if lines != [] {
      var n := |lines| - 1;
      var pre := lines[..n];
      NonBlankPositionsSound(pre);
      var ps0, ps := NonBlankPositions(pre), NonBlankPositions(lines);
      assert ps == if Strip(lines[n]) == "" then ps0 else ps0 + [n];
      forall j | 0 <= j < |ps|
        ensures Strip(lines[ps[j]]) != ""
      {
        if j < |ps0| {
          assert ps[j] == ps0[j] && pre[ps0[j]] == lines[ps0[j]];
        }
      }
    }
  }

  /** The positions are listed in increasing order. */
  lemma {:induction false} NonBlankPositionsIncreasing(lines: seq<string>)
    ensures forall j, k | 0 <= j < k < |NonBlankPositions(lines)| ::
      NonBlankPositions(lines)[j] < NonBlankPositions(lines)[k]
  {
    if lines != [] {
      var n := |lines| - 1;
      NonBlankPositionsIncreasing(lines[..n]);
      var ps0, ps := NonBlankPositions(lines[..n]), NonBlankPositions(lines);
      assert ps == if Strip(lines[n]) == "" then ps0 else ps0 + [n];
      forall j, k | 0 <= j < k < |ps|
        ensures ps[j] < ps[k]
      {
        assert ps[j] == ps0[j];
        if k >= |ps0| {
          assert ps[k] == n;
        }
      }
    }
  }

  /** Every non-blank line is listed. */
  lemma {:induction false} NonBlankPositionsComplete(lines: seq<string>)
    ensures var ps := NonBlankPositions(lines);
      forall i | 0 <= i < |lines| && Strip(lines[i]) != "" :: i in ps
  {
    if lines != [] {
      var n := |lines| - 1;
      var pre := lines[..n];
      NonBlankPositionsComplete(pre);
      var ps0, ps := NonBlankPositions(pre), NonBlankPositions(lines);
      forall i | 0 <= i < |lines| && Strip(lines[i]) != ""
        ensures i in ps
      {
        if i < n {
          assert pre[i] == lines[i];
          assert i in ps0;
        } else {
          assert ps == ps0 + [n];
        }
      }
    }
  }

  /**
   * Normalisation drops the blank lines and keeps the others in order: the i-th
   * output line is the i-th non-blank input line, stripped and indented by four spaces.
   */
  lemma {:induction false} NormalizedLinesKeepOrder(lines: seq<string>)
    ensures |NormalizedLines(lines)| == |NonBlankPositions(lines)|
    ensures forall j | 0 <= j < |NormalizedLines(lines)| ::
      NormalizedLines(lines)[j] == Indent + Strip(lines[NonBlankPositions(lines)[j]])
  {
    if lines != [] {
      var n := |lines| - 1;
      var pre := lines[..n];
      NormalizedLinesKeepOrder(pre);
      var nl, pos := NormalizedLines(lines), NonBlankPositions(lines);
      var nl0, pos0 := NormalizedLines(pre), NonBlankPositions(pre);
      assert nl == nl0 + LineContribution(lines[n]);
      assert pos == if Strip(lines[n]) == "" then pos0 else pos0 + [n];
      forall j | 0 <= j < |nl|
        ensures nl[j] == Indent + Strip(lines[pos[j]])
      {
        if j < |nl0| {
          assert nl[j] == nl0[j] && pos[j] == pos0[j];
          assert pre[pos0[j]] == lines[pos0[j]];
        }
      }
    }
  }

  /** Normalisation distributes over the concatenation of line lists. */
  lemma {:induction false} NormalizedLinesAppend(a: seq<string>, b: seq<string>)
    ensures NormalizedLines(a + b) == NormalizedLines(a) + NormalizedLines(b)
  {
    if b != [] {
      var n := |b| - 1;
      assert (a + b)[..|a + b| - 1] == a + b[..n];
      NormalizedLinesAppend(a, b[..n]);
    } else {
      assert a + b == a;
    }
  }

  /** An output line: four spaces, then a stripped non-blank line. */
  predicate IsIndentedLine(l: string) {
    |l| > |Indent| && l[..|Indent|] == Indent && IsStripped(l[|Indent|..])
  }

  /** Every normalised line is four spaces then a stripped non-blank text free of newlines. */
  lemma {:induction false} NormalizedLinesShape(lines: seq<string>)
    requires forall l | l in lines :: '\n' !in l
    ensures forall l | l in NormalizedLines(lines) :: IsIndentedLine(l) && '\n' !in l
  {
    if lines != [] {
      var n := |lines| - 1;
      assert forall l | l in lines[..n] :: l in lines;
      NormalizedLinesShape(lines[..n]);
      var s := Strip(lines[n]);
      NotInStrip(lines[n], '\n');
      if s != "" {
        assert (Indent + s)[|Indent|..] == s;
        assert (Indent + s)[..|Indent|] == Indent;
        assert forall k | 0 <= k < |Indent + s| :: (Indent + s)[k] != '\n' by {
          forall k | 0 <= k < |Indent + s| ensures (Indent + s)[k] != '\n' {
            if k >= |Indent| { assert (Indent + s)[k] == s[k - |Indent|]; }
          }
        }
      }
    }
  }

  /** An output line normalises to itself. */
  lemma IndentedLineContribution(l: string)
    requires IsIndentedLine(l)
    ensures LineContribution(l) == [l]
  {
    var s := l[|Indent|..];
    assert l == Indent + s;
    StripIndented(Indent, s);
  }

  /** Lines already in normal form are left unchanged by normalisation. */
  lemma {:induction false} NormalizedLinesFixpoint(lines: seq<string>)
    requires forall k | 0 <= k < |lines| :: IsIndentedLine(lines[k])
    ensures NormalizedLines(lines) == lines
  {
    if lines != [] {
      var n := |lines| - 1;
      var pre := lines[..n];
      assert forall k | 0 <= k < n :: pre[k] == lines[k];
      NormalizedLinesFixpoint(pre);
      IndentedLineContribution(lines[n]);
      Snoc(lines);
    }
  }

  /** Normalising normalised content changes nothing. */
  lemma NormalizeIdempotent(content: string)
    ensures NormalizeContent(NormalizeContent(content)) == NormalizeContent(content)
  {
    var ls := NormalizedLines(Split(content, '\n'));
    NormalizedLinesShape(Split(content, '\n'));
    if ls == [] {
      assert Split("", '\n') == [""];
      assert NormalizedLines([""]) == NormalizedLines([]) + LineContribution("");
    } else {
      SplitJoin(ls, '\n');
      assert forall k | 0 <= k < |ls| :: ls[k] in ls;
      NormalizedLinesFixpoint(ls);
    }
  }

  /**
   * Lines 52-58: strip every line, keep the non-blank ones indented by four spaces,
   * and join them with newlines.
   */
  method NormalizeIndentation(content: string) returns (r: string)
    ensures r == NormalizeContent(content)
  {
    var lines := Split(content, '\n');
    var normalized: seq<string> := [];
    for i := 0 to |lines|
      invariant normalized == NormalizedLines(lines[..i])
    {
      assert lines[..i + 1][..i] == lines[..i];
      var line := Strip(lines[i]);
      if line != "" {
        normalized := normalized + [Indent + line];
      }
    }
    assert lines[..|lines|] == lines;
    r := Join(normalized, '\n');
  }

  /** The entry lines 47-73 build from one match found in the file `source`. */
  function BuildEntry(m: Match, source: string): Entry {
    var entryType := Lower(m.entryType);
    var key := Strip(m.key);
    var content := NormalizeContent(Strip(m.body));
    Entry(entryType, key, m.title,
          content, "@" + entryType + "{" + key + ",\n" + content + "\n}", source)
  }

  /** The assignment `entries[entry_key] = {...}` of line 66 for one match. */
  function Assignment(source: string): Match -> (string, Entry) {
    (m: Match) => (Strip(m.key), BuildEntry(m, source))
  }

  /** The assignments of line 66, one per match, in order. */
  function EntryPairs(matches: seq<Match>, source: string): (ps: seq<(string, Entry)>)
    ensures |ps| == |matches|
  {
    MapSeq(matches, Assignment(source))
  }

  /** The table that the assignments of line 66 build over the matches of the file `source`. */
  function EntryTable(matches: seq<Match>, source: string): Dict<string, Entry> {
    FromPairs(EntryPairs(matches, source))
  }

  /** The `p`-th assignment stores the entry built from the `p`-th match under its stripped key. */
  lemma EntryPairsAt(matches: seq<Match>, source: string, p: nat)
    requires p < |matches|
    ensures EntryPairs(matches, source)[p] == (Strip(matches[p].key), BuildEntry(matches[p], source))
  {
    MapSeqAt(matches, Assignment(source), p);
  }

  /** The `p`-th assignment uses the `p`-th match's stripped key. */
  lemma EntryPairsKeyAt(matches: seq<Match>, source: string, p: nat)
    requires p < |matches|
    ensures EntryPairs(matches, source)[p].0 == Strip(matches[p].key)
  {
    EntryPairsAt(matches, source, p);
  }

  /** A file's table holds each key once. */
  lemma EntryTableDistinct(matches: seq<Match>, source: string)
    ensures KeysDistinct(EntryTable(matches, source))
  {
    FromPairsSpec(EntryPairs(matches, source));
    TableKeys(EntryTable(matches, source), EntryPairs(matches, source));
  }

  /** A file's table holds the stripped key of every match, and no other key. */
  lemma EntryTableKeySet(matches: seq<Match>, source: string)
    ensures var t := EntryTable(matches, source);
      && (forall p | 0 <= p < |matches| :: Strip(matches[p].key) in KeySet(t))
      && (forall i | 0 <= i < |t| :: exists p | 0 <= p < |matches| :: Strip(matches[p].key) == t[i].0)
  {
    var ps := EntryPairs(matches, source);
    var t := EntryTable(matches, source);
    FromPairsSpec(ps);
    forall p | 0 <= p < |matches|
      ensures Strip(matches[p].key) in KeySet(t)
    {
      EntryPairsKeyAt(matches, source, p);
      assert ps[p].0 in KeySet(ps);
    }
    forall i | 0 <= i < |t|
      ensures exists p | 0 <= p < |matches| :: Strip(matches[p].key) == t[i].0
    {
      var p := LastPos(ps, t[i].0);
      EntryPairsKeyAt(matches, source, p);
    }
  }

  /** The first assignment to the key of an earlier item precedes every assignment to a later one. */
  lemma FirstAssignmentsInOrder(matches: seq<Match>, source: string, i: nat, j: nat)
    requires i < j < |EntryTable(matches, source)|
    ensures var ps, t := EntryPairs(matches, source), EntryTable(matches, source);
      && t[i].0 in KeySet(ps)
      && FirstPos(ps, t[i].0) < |matches|
      && Strip(matches[FirstPos(ps, t[i].0)].key) == t[i].0
      && (forall q | 0 <= q <= FirstPos(ps, t[i].0) :: Strip(matches[q].key) != t[j].0)
  {
    var ps, t := EntryPairs(matches, source), EntryTable(matches, source);
    FromPairsSpec(ps);
    TableKeys(t, ps);
    var p := FirstPos(ps, t[i].0);
    assert p < FirstPos(ps, t[j].0);
    EntryPairsKeyAt(matches, source, p);
    forall q | 0 <= q <= p
      ensures Strip(matches[q].key) != t[j].0
    {
      EntryPairsKeyAt(matches, source, q);
    }
  }

  /** Some match assigns key `k1` before any match assigns key `k2`. */
  ghost predicate AssignedBefore(matches: seq<Match>, k1: string, k2: string) {
    exists p | 0 <= p < |matches| ::
      && Strip(matches[p].key) == k1
      && (forall q | 0 <= q <= p :: Strip(matches[q].key) != k2)
  }

  /** The keys of a file's table stand in the order of their first match. */
  lemma EntryTableOrder(matches: seq<Match>, source: string)
    ensures var t := EntryTable(matches, source);
      forall i, j | 0 <= i < j < |t| :: AssignedBefore(matches, t[i].0, t[j].0)
  {
    var t := EntryTable(matches, source);
    forall i, j | 0 <= i < j < |t|
      ensures AssignedBefore(matches, t[i].0, t[j].0)
    {
      FirstAssignmentsInOrder(matches, source, i, j);
      var p := FirstPos(EntryPairs(matches, source), t[i].0);
      assert Strip(matches[p].key) == t[i].0;
    }
  }

  /** The `i`-th item of a file's table is the last assignment to its key. */
  lemma TableItemIsLastAssignment(matches: seq<Match>, source: string, i: nat)
    requires i < |EntryTable(matches, source)|
    ensures var ps, t := EntryPairs(matches, source), EntryTable(matches, source);
      && t[i].0 in KeySet(ps)
      && LastPos(ps, t[i].0) < |matches|
      && t[i] == ps[LastPos(ps, t[i].0)]
      && Strip(matches[LastPos(ps, t[i].0)].key) == t[i].0
      && (forall q | LastPos(ps, t[i].0) < q < |matches| :: Strip(matches[q].key) != t[i].0)
  {
    var ps, t := EntryPairs(matches, source), EntryTable(matches, source);
    FromPairsSpec(ps);
    var p := LastPos(ps, t[i].0);
    EntryPairsKeyAt(matches, source, p);
    forall q | p < q < |matches|
      ensures Strip(matches[q].key) != t[i].0
    {
      EntryPairsKeyAt(matches, source, q);
    }
  }

  /**
   * The value under each key of a file's table: the entry built from the LAST match with
   * that key.
   */
  lemma EntryTableValues(matches: seq<Match>, source: string)
    ensures var t := EntryTable(matches, source);
      forall i | 0 <= i < |t| ::
        exists p | 0 <= p < |matches| ::
          && Strip(matches[p].key) == t[i].0
          && t[i].1 == BuildEntry(matches[p], source)
          && (forall q | p < q < |matches| :: Strip(matches[q].key) != t[i].0)
  {
    var ps, t := EntryPairs(matches, source), EntryTable(matches, source);
    forall i | 0 <= i < |t|
      ensures exists p | 0 <= p < |matches| ::
        && Strip(matches[p].key) == t[i].0
        && t[i].1 == BuildEntry(matches[p], source)
        && (forall q | p < q < |matches| :: Strip(matches[q].key) != t[i].0)
    {
      TableItemIsLastAssignment(matches, source, i);
      EntryPairsAt(matches, source, LastPos(ps, t[i].0));
    }
  }

  /** Every entry of a file's table carries its own key and the file's name. */
  lemma EntryTableFields(matches: seq<Match>, source: string)
    ensures var t := EntryTable(matches, source);
      forall i | 0 <= i < |t| :: t[i].1.key == t[i].0 && t[i].1.source == source
  {
    EntryTableValues(matches, source);
  }

  /**
   * `parse_bib_file` after the regex (lines 43-75): builds the file's entry table,
   * normalising each match and assigning it under its stripped key.
   */
  method ParseEntries(matches: seq<Match>, source: string)
    returns (entries: Dict<string, Entry>)
    ensures entries == EntryTable(matches, source)
  {
    entries := [];
    for i := 0 to |matches|
      invariant entries == EntryTable(matches[..i], source)
    {
      var m := matches[i];
      var entryType := Lower(m.entryType);
      var key := Strip(m.key);
      var body := Strip(m.body);
      var content := NormalizeIndentation(body);
      var raw := "@" + entryType + "{" + key + ",\n" + content + "\n}";
      var entry := Entry(entryType, key, m.title, content, raw, source);
      assert (key, entry) == Assignment(source)(m);
      assert matches[..i + 1][..i] == matches[..i];
      entries := Put(entries, key, entry);
    }
    assert matches[..|matches|] == matches;
  }
}
