# bib-merger in Dafny

A model of `bib-merger.py`, the BibTeX merger: it reads several `.bib` files, warns about
entries that share a title but not a key or a key but not a title, resolves the latter by
flagging losing entries `skip` (asking the operator, or by a tie-break on the key's file
index), merges the unskipped entries under their effective keys (first one wins), and
writes them sorted by (title, type, key).

The model starts where the regular expressions have done their work: each input file is
its name and the sequence of matches of the entry pattern, each match carrying the title
`extract_title` finds. The operator is a sequence of typed answer lines; the iteration
order of a Python `set` is a function parameter `order`. The rest follows the code step by
step, with two exceptions, both listed under "## Findings": the global entry list keeps
every parsed entry where line 293 can overwrite one, and the run reports its warning flag
both as line 305 leaves it and as lines 302-305 evidently intend.

Modules, one per part of the program:

- `Outcomes`: `Option`, `Result` and the exceptions and exits that end a run
  (`ValueError`, `StopIteration`, `EOFError`, the operator's `q`).
- `Text`: the Python string operations used (`strip`, `lower`, `split`/`join`, `int()`,
  `str(n)`, `endswith`, string ordering).
- `Dicts`: Python dicts as insertion-ordered lists of pairs, assignment (`d[k] = v`),
  first-wins insertion (`if k not in d: d[k] = v`) and `defaultdict(list)` appends.
- `Records`: the entry record and `parse_bib_file`'s table building and re-indentation.
- `Collect`: the ingestion loop of `merge_bib_files` and the per-file title indexes.
- `TitleCheck`: `check_same_title_different_keys`, within files and across files.
- `TieBreak`: `choose_entry_from_smallest_index`.
- `Prompts`: `get_user_choice` and `get_user_choice_for_same_key` on an answer sequence.
- `KeyGroups`, `KeyCheck`: `check_same_key_different_titles`, its grouping by key then
  type, and the `skip` flags it sets in an array parallel to the entries.
- `Merge`: the merge pass of `merge_bib_files`.
- `Output`: the stable sort and the text written.
- `Pipeline`: `merge_bib_files` end to end.

Loops of the source are methods with loop invariants, each proved equal to a recursive
function that states what the loop computes; the properties are lemmas about those
functions.

## Model

| member | source | states |
|---|---|---|
| Text.Strip | bib-merger.py:55 | the result has no leading or trailing white space and is no longer than the input |
| Text.StripIsSlice | bib-merger.py:55 | `strip()` removes exactly a white-space prefix and a white-space suffix |
| Text.StripOfStripped | bib-merger.py:55 | stripping a stripped string changes nothing |
| Text.StripIndented | bib-merger.py:57 | stripping four spaces plus a stripped non-empty line gives the line back |
| Text.Split | bib-merger.py:52 | `split` yields at least one part and no part contains the separator |
| Text.SplitJoin | bib-merger.py:52-58 | splitting a join of separator-free parts gives the parts back |
| Text.JoinSplit | bib-merger.py:52-58 | joining the parts of a split gives the string back |
| Text.Lower | bib-merger.py:47 | lower-casing keeps the length |
| Text.ParseInt | bib-merger.py:192 | `int()` accepts only a string with something besides white space |
| Text.ParseIntNatToString | bib-merger.py:192 | `int(str(n)) == n` for every natural `n` |
| Text.NatToString | bib-merger.py:292 | `str(n)` is a non-empty string of digits |
| Text.LexLeTotal | bib-merger.py:347-348 | any two strings are comparable |
| Text.LexLeTrans | bib-merger.py:347-348 | string order is transitive |
| Text.LexLeAntisym | bib-merger.py:347-348 | string order is antisymmetric |
| Records.NonBlankPositionsSound | bib-merger.py:54-56 | every kept line is non-blank after stripping |
| Records.NonBlankPositionsIncreasing | bib-merger.py:54-56 | kept lines keep their input order |
| Records.NonBlankPositionsComplete | bib-merger.py:54-56 | every non-blank input line is kept |
| Records.NormalizedLinesKeepOrder | bib-merger.py:54-57 | the j-th output line is four spaces plus the stripped j-th non-blank input line |
| Records.NormalizedLinesAppend | bib-merger.py:54-57 | re-indenting two blocks of lines is re-indenting each |
| Records.NormalizedLinesShape | bib-merger.py:54-57 | every output line is four spaces, then a stripped non-empty text with no newline |
| Records.NormalizedLinesFixpoint | bib-merger.py:54-57 | lines already in that shape are left unchanged |
| Records.NormalizeIdempotent | bib-merger.py:52-58 | normalising the content twice equals normalising it once |
| Records.NormalizeIndentation | bib-merger.py:52-58 | the loop over the lines computes the normalised content |
| Records.EntryPairsAt | bib-merger.py:47-73 | the p-th assignment stores the entry built from the p-th match under its stripped key |
| Records.EntryTableDistinct | bib-merger.py:66 | each key appears once in a file's table |
| Records.EntryTableKeySet | bib-merger.py:66 | the table's keys are exactly the stripped keys of the matches |
| Records.FirstAssignmentsInOrder | bib-merger.py:66 | each key sits where it was first assigned, earlier first assignments first |
| Records.EntryTableOrder | bib-merger.py:66 | table order is the order of first assignment |
| Records.TableItemIsLastAssignment | bib-merger.py:66 | each key maps to the entry of its last match and no later match has that key |
| Records.EntryTableValues | bib-merger.py:66-73 | every stored entry is built from a match with its key, and no later match has that key |
| Records.EntryTableFields | bib-merger.py:66-72 | every stored entry carries its table key and the file name as source |
| Records.ParseEntries | bib-merger.py:43-75 | the loop over the matches builds the table of dict assignments |
| Collect.ParseFiles | bib-merger.py:281-282 | every file is parsed, in order |
| Collect.AddFile | bib-merger.py:283-293 | one file's entries are appended to the global list and its title index built |
| Collect.CollectEntries | bib-merger.py:275-296 | the global list is the concatenation of the tables; one title index per file |
| Collect.TitleIndexSnoc | bib-merger.py:286-289 | a titled entry appends its key under its lower-cased title; an untitled one adds nothing |
| Collect.SelectTitledKeys | bib-merger.py:286-289 | the keys listed for a title are the keys of the file's entries with that title |
| Collect.TitledKeysKeySet | bib-merger.py:286-289 | every titled entry's title is indexed |
| Collect.TitledKeysTitle | bib-merger.py:286-289 | every indexed title has an entry |
| Collect.TitleIndexSpec | bib-merger.py:286-289 | each title once, listing exactly its entries' keys (never none), and every title indexed |
| Collect.FlattenLength | bib-merger.py:281-296 | the global list has as many entries as all tables together |
| Collect.FlattenAt | bib-merger.py:281-296 | entry i of file f sits at offset(f) + i of the global list |
| Collect.UniquePairsValues | bib-merger.py:287-293 | the values assigned under the "unique" keys are the concatenated tables |
| Collect.AsWrittenWhenDistinct | bib-merger.py:287-293 | when those keys are distinct, the dict as written holds every entry |
| Collect.CollidingKeys | bib-merger.py:292 | key "a" of file 0 "1_b.bib" and key "a_0" of file 1 "b.bib" get the same unique key |
| Collect.UniqueKeyCollision | bib-merger.py:287-293 | for those two files the dict as written keeps one entry where two were parsed |
| TieBreak.FileIndexOf | bib-merger.py:187-193 | the only failure of `get_file_index` is `ValueError` |
| TieBreak.InfinityIffNoUnderscore | bib-merger.py:190-193 | a key counts as infinite exactly when it holds no `_` |
| TieBreak.FileIndexOfKey | bib-merger.py:190-192 | a key `x_n_y` (y without `_`) has file index n |
| TieBreak.FileIndexOfParsed | bib-merger.py:190-192 | a key whose second-to-last part parses as n has index n |
| TieBreak.KeyIndices | bib-merger.py:196 | the indices exist exactly when every key parses, and are each entry's index |
| TieBreak.SmallestPosition | bib-merger.py:196 | `min` picks a position no other is below, and everything before it is above it |
| TieBreak.ChooseEntryFromSmallestIndex | bib-merger.py:184-196 | on a non-empty list of parsable keys it returns the first entry of minimal index, else `ValueError` |
| TieBreak.SameKeyChoosesFirst | bib-merger.py:184-196 | when all entries share one parsable key the first entry is chosen |
| Prompts.SameKeyAnswer | bib-merger.py:172-182 | an answer consumes at least one line, and a choice is in range |
| Prompts.SameKeyAnswerEof | bib-merger.py:172-182 | it fails only with `EOFError`, after every remaining line was rejected |
| Prompts.SameKeyAnswerSkips | bib-merger.py:172-182 | the lines before the accepted one were all rejected |
| Prompts.SameKeyAnswerDecides | bib-merger.py:174-179 | keep-all exactly on a blank line; otherwise the line parses to the choice plus one |
| Prompts.GetUserChoiceForSameKey | bib-merger.py:162-182 | returns the chosen entry, none for a blank line, or the failure |
| Prompts.IsQuitLower | bib-merger.py:152 | the quit test is `answer.lower() == 'q'` |
| Prompts.TitleAnswer | bib-merger.py:150-160 | an answer consumes at least one line and its choice is in range |
| Prompts.TitleAnswerEof | bib-merger.py:150-160 | failures are `EOFError` or the quit; `EOFError` only after every line was rejected |
| Prompts.TitleAnswerQuit | bib-merger.py:151-153 | a quit comes from a `q` line after rejected lines only |
| Prompts.TitleAnswerChoice | bib-merger.py:150-157 | an accepted line is no quit and parses to the choice plus one, after rejected lines only |
| Prompts.GetUserChoice | bib-merger.py:141-160 | returns the chosen key or the failure |
| Dicts.FromPairsSpec | bib-merger.py:66 | assigning pairs in turn keeps each key once, at its first position, with its last value |
| Dicts.FromDistinctPairs | bib-merger.py:66 | assigning pairs with distinct keys gives those pairs |
| Dicts.FirstWinsSpec | bib-merger.py:343-344 | inserting only absent keys keeps each key once, at its first position, with its first value |
| Dicts.FirstWinsItems | bib-merger.py:343-344 | first-wins insertion keeps distinct keys and invents no item |
| Dicts.AppendSpec | bib-merger.py:206 | a `defaultdict(list)` append extends the key's list in place, or adds the key last |
| Dicts.GroupBySpec | bib-merger.py:204-206 | appending pairs in turn lists each key once, in order of first appearance, with all its values in order |
| Dicts.GroupBySelects | bib-merger.py:204-206 | every group holds exactly its key's values, and none is empty |
| Dicts.GroupByFold | bib-merger.py:115-121 | the appends done one by one give the grouping |
| Dicts.GroupByLong | bib-merger.py:101 | some group has two or more values exactly when two pairs share a key |
| Dicts.GroupByDiverse | bib-merger.py:126 | some group holds two different first components exactly when two pairs share a key with different first components |
| Dicts.SelectTwo | bib-merger.py:101 | a key has at least two values exactly when two pairs carry it |
| KeyGroups.InPositionsWithKey | bib-merger.py:205-206 | a position is in a key's group exactly when its entry has that key |
| KeyGroups.InPositionsWithType | bib-merger.py:213-214 | a position is in a type group exactly when it was in the key's group and has that type |
| KeyGroups.EntriesByKeySpec | bib-merger.py:204-206 | each key group lists exactly the positions with that key, and is not empty |
| KeyGroups.EntriesByTypeSpec | bib-merger.py:212-214 | each type group lists exactly the positions of that type, and is not empty |
| KeyGroups.ByKeyThenType | bib-merger.py:210-214 | each key's entries grouped by type, key after key |
| KeyGroups.GroupByKey | bib-merger.py:204-206 | the loop builds `entries_by_key` |
| KeyGroups.GroupByType | bib-merger.py:212-214 | the loop builds `entries_by_type` |
| KeyGroups.GroupExact | bib-merger.py:210-217 | every group visited is exactly the positions of one (key, type) |
| KeyGroups.GroupOfEntry | bib-merger.py:210-217 | every entry lies in a visited group, its own (key, type) group |
| KeyGroups.GroupsWellFormed | bib-merger.py:210-217 | the visited groups are exact, non-empty and each labelled with its key |
| KeyCheck.ConflictingIff | bib-merger.py:218-219 | more than one title in a group exactly when two members' titles differ |
| KeyCheck.EntriesAt | bib-merger.py:226 | `type_entries` holds the group's entries in order |
| KeyCheck.ResolveGroup | bib-merger.py:218-240 | one group never un-skips an entry and consumes answers forward |
| KeyCheck.Resolve | bib-merger.py:210-240 | the same for the groups visited in turn |
| KeyCheck.HasIssuesIff | bib-merger.py:204-220 | `has_issues` holds exactly when two entries of one key and type differ in lower-cased title (none counting as `None`) |
| KeyCheck.GroupTieBreak | bib-merger.py:235 | on a key group the tie-break picks the first member, or raises when the key does not parse |
| KeyCheck.NonInteractiveFails | bib-merger.py:233-240 | non-interactively the check fails exactly on a conflicting group with an unparsable key, with `ValueError`, reading no answer |
| KeyCheck.NonInteractiveSkips | bib-merger.py:233-240 | non-interactively the skipped positions are exactly those losing in their conflicting group |
| KeyCheck.LosesInGroups | bib-merger.py:233-240 | losing within the visited groups is differing from the first entry of one's own conflicting (key, type) group |
| KeyCheck.UnparsableGroups | bib-merger.py:235 | some visited group is unparsable exactly when some entry of a conflicting group has a key that does not parse |
| KeyCheck.NonInteractiveCheck | bib-merger.py:198-248 | non-interactive: fails exactly as above; otherwise skipped exactly the non-chosen members of conflicting groups, others untouched |
| KeyCheck.ChoiceSticks | bib-merger.py:225-228 | a chosen entry of a key is never replaced |
| KeyCheck.GroupChoice | bib-merger.py:224-240 | a group changes `key_to_chosen_entry` only by recording one entry for its key |
| KeyCheck.DecidedKeyIsSilent | bib-merger.py:225 | a key with a recorded choice prompts no more (a blank answer records nothing, so a later type group of the same key prompts again) |
| KeyCheck.BlankAnswersKeepAll | bib-merger.py:174-175 | blank answers choose nothing and skip nothing |
| KeyCheck.InteractiveSkips | bib-merger.py:224-232 | interactively every skipped entry differs from the entry chosen for its key, in a conflicting group |
| KeyCheck.InteractiveCheck | bib-merger.py:224-232 | the same for the whole check |
| KeyCheck.SkipOthers | bib-merger.py:229-232 | sets `skip` on exactly the group members differing from the chosen entry, leaves the rest |
| KeyCheck.ResolveOne | bib-merger.py:219-240 | one group's conflict test, prompt or tie-break and flags, as `ResolveGroup` |
| KeyCheck.ResolveStep | bib-merger.py:217-240 | one type group in the nested loops, as `ResolveGroup` |
| KeyCheck.ResolveKey | bib-merger.py:212-240 | one key's type groups, as `Resolve` |
| KeyCheck.ResolveKeyGroup | bib-merger.py:210-240 | one key of `entries_by_key`, as `Resolve` |
| KeyCheck.ResolveAll | bib-merger.py:210-246 | all keys, as `Resolve` |
| KeyCheck.CheckSameKeyDifferentTitles | bib-merger.py:198-248 | the result and the `skip` flags are those of `SameKeyCheck`; `has_issues` as in `HasIssuesIff` |
| TitleCheck.FirstBibPos | bib-merger.py:95 | a found position is inside the list |
| TitleCheck.FirstBibPosSpec | bib-merger.py:95 | `next` finds the first entry with the key from a `.bib` file, and fails exactly when there is none |
| TitleCheck.PairsBeforeAt | bib-merger.py:93-94 | key j of title i is visited right after the earlier titles' keys |
| TitleCheck.TitleKeyPairsAt | bib-merger.py:93-94 | the same within the whole file |
| TitleCheck.Typed | bib-merger.py:95-96 | each (title, key) is filed under (type of the key's first `.bib` entry, title) |
| TitleCheck.TypedStep | bib-merger.py:92-96 | one more key appends it to its (type, title) list |
| TitleCheck.GroupFileByType | bib-merger.py:92-96 | fails with `StopIteration` exactly when a key has no `.bib` entry; else builds the grouping |
| TitleCheck.AnyLongGroup | bib-merger.py:99-102 | finds a group with more than one key exactly when there is one |
| TitleCheck.PairsConflictGroups | bib-merger.py:92-102 | a file's grouping has a long group exactly when two of its keys share title and type |
| TitleCheck.TypedSharedKey | bib-merger.py:92-102 | two typed pairs share a slot exactly when two keys share title and type |
| TitleCheck.FileOccurrences | bib-merger.py:116-118 | one file's (title, key) pairs tagged with its index |
| TitleCheck.OccurrencesAt | bib-merger.py:116-118 | pair c of file f is visited right after the earlier files' pairs |
| TitleCheck.PooledAt | bib-merger.py:116-118 | key j of title i of file f is visited at its offset |
| TitleCheck.PooledResolvable | bib-merger.py:119 | once every file's keys were found by the first pass, the second pass finds them too |
| TitleCheck.CrossPrefix | bib-merger.py:119-121 | each visited key becomes ((type, title), (key, file index)) |
| TitleCheck.KeyItems | bib-merger.py:119-121 | what line 121 appends for the keys of one title |
| TitleCheck.TitlePooled | bib-merger.py:117-121 | a title's keys are the pooled items at its offset, all resolvable |
| TitleCheck.PoolTitle | bib-merger.py:118-121 | the appends for one title continue the pooling |
| TitleCheck.PoolTitleAt | bib-merger.py:117-121 | one title of one file, pooled at its offset |
| TitleCheck.PoolFile | bib-merger.py:116-121 | one file's titles, pooled after the earlier files' keys |
| TitleCheck.PoolByType | bib-merger.py:115-121 | the nested loops build the grouping of all visited (key, index) pairs by (type, title); the guard of line 120 never blocks |
| TitleCheck.AnyDiverseGroup | bib-merger.py:124-127 | finds a group with two distinct keys exactly when there is one |
| TitleCheck.OccurrencesConflictGroups | bib-merger.py:115-127 | some group has two distinct keys exactly when two different visited keys share title and type |
| TitleCheck.CheckFile | bib-merger.py:92-102 | for one file: `StopIteration` exactly when a key has no `.bib` entry, else the verdict of a same-(type, title) pair |
| TitleCheck.CheckWithinFiles | bib-merger.py:90-112 | the within-file verdict over all files, or `StopIteration` |
| TitleCheck.CheckAcrossFiles | bib-merger.py:115-137 | the across-files verdict |
| TitleCheck.CheckSameTitleDifferentKeys | bib-merger.py:85-139 | true exactly when a (type, lower-cased title) gathers two different keys within a file or across files; `StopIteration` when a key has no `.bib` entry |
| TitleCheck.WithinFileIsAcrossFiles | bib-merger.py:90-127 | a within-file conflict over distinct keys is also an across-files conflict |
| TitleCheck.TwoPairsAcrossFiles | bib-merger.py:115-127 | two different keys of one title and type in a file make an across-files conflict |
| Merge.KeyPos | bib-merger.py:327 | `next` finds the first entry with the key, and fails exactly when there is none |
| Merge.GatherFound | bib-merger.py:324-329 | the lookups succeed exactly when every key has an entry |
| Merge.GatherKeysOfType | bib-merger.py:323-329 | `all_keys` is the set of gathered keys whose first entry has the visited entry's type |
| Merge.GatherLast | bib-merger.py:327 | `entry` is rebound to the first entry of the last key looked up, and only when a key was |
| Merge.GatherPrefix | bib-merger.py:324-329 | a failed lookup fails the whole gathering |
| Merge.LookupAll | bib-merger.py:339 | the list comprehension finds one entry per key, with that key |
| Merge.Effective | bib-merger.py:310-341 | the effective-key computation reads answers forward only |
| Merge.MergeStep | bib-merger.py:309-344 | one pass of the loop reads answers forward |
| Merge.MergeUpTo | bib-merger.py:309-344 | the loop reads answers forward |
| Merge.MergeVisitsUnskipped | bib-merger.py:315-316 | the insertions come from exactly the unskipped entries, each once, in order |
| Merge.LookupAllFound | bib-merger.py:339 | the lookups of the comprehension all succeed where every key has an entry |
| Merge.NonInteractiveTieBreak | bib-merger.py:337-341 | non-interactively, a (type, title) gathering several keys takes the first key of `list(all_keys)` of least file index; it fails only with `ValueError`, exactly when some gathered key's index does not parse |
| Merge.TieBreakOverListed | bib-merger.py:339-341 | the tie-break over the entries looked up for `list(all_keys)` succeeds exactly when every key parses, and picks the first listed key of least index |
| Merge.LeastListed | bib-merger.py:341 | the entry `min` picks is the first listed key of least index among all the keys |
| Merge.EffectiveOk | bib-merger.py:318-341 | an untitled entry keeps its own key and is stored; a titled one gets its own key or a member of `all_keys`, storing itself or the last looked-up entry |
| Merge.MergeEffects | bib-merger.py:309-344 | every insertion satisfies the previous row |
| Merge.EffectFromInput | bib-merger.py:318-344 | an effective key is some entry's key and the stored entry is one of the entries |
| Merge.MergeFromInput | bib-merger.py:309-344 | every insertion offers an existing key and an existing entry |
| Merge.NonInteractiveRecordsNothing | bib-merger.py:335 | non-interactively `title_to_chosen_key` stays empty and no answer is read |
| Merge.ChosenTitleIsSilent | bib-merger.py:318-320 | a (type, title) already decided reuses its key and asks nothing |
| Merge.PutKeepsGathered | bib-merger.py:335 | recording a gathered key keeps every recorded choice among the gathered keys |
| Merge.GatherKeys | bib-merger.py:323-329 | the nested loops compute `all_keys` and the rebound `entry` |
| Merge.GatherFile | bib-merger.py:325-329 | one file's keys continue the gathering |
| Merge.FindKey | bib-merger.py:327 | the search is `KeyPos` |
| Merge.ResolveEntry | bib-merger.py:310-341 | one entry's effective key, as `Effective` |
| Merge.MergeOne | bib-merger.py:309-344 | one pass of the loop, as `MergeStep` |
| Merge.MergeEntries | bib-merger.py:308-344 | `merged_entries` is the first-wins table of the insertions of `MergeUpTo`, or its failure |
| Merge.MergeFails | bib-merger.py:309-344 | a failure ends the pass |
| Output.KeyLeTotal | bib-merger.py:347-348 | any two sort keys are comparable |
| Output.KeyLeAntisym | bib-merger.py:347-348 | the order on sort keys is antisymmetric |
| Output.KeyLeTrans | bib-merger.py:347-348 | the order on sort keys is transitive |
| Output.Insert | bib-merger.py:347-348 | inserting adds exactly the element |
| Output.SortBy | bib-merger.py:347-348 | sorting permutes its input |
| Output.InsertSorted | bib-merger.py:347-348 | inserting into a sorted list keeps it sorted |
| Output.InsertWithKey | bib-merger.py:347-348 | an inserted element follows its equals |
| Output.SortBySpec | bib-merger.py:347-348 | the sort is ordered and stable |
| Output.SortEntriesSpec | bib-merger.py:347-348 | the written entries are a permutation of the merged ones, non-decreasing in (title or "", type, key), equal keys in merge order |
| Output.RenderConcat | bib-merger.py:351-353 | the text of two lists is the texts one after the other |
| Output.WriteEntries | bib-merger.py:351-353 | the loop writes each `raw` followed by a blank line, in order |
| Pipeline.SkipFlags | bib-merger.py:232 | the flags are set exactly on the skipped positions |
| Pipeline.MergeBibFiles | bib-merger.py:270-359 | the run parses, checks, merges, sorts and writes as `MergeBib`, returning `has_issues` as line 305 leaves it and the flag over both checks |
| Pipeline.CheckAndMerge | bib-merger.py:299-344 | both checks then the merge, as `MergedFrom`: the key check's flag, as line 305 rebinds it, and the title check's or the key check's |
| Pipeline.CheckKeysAndMerge | bib-merger.py:305-344 | the key check on fresh flags, then the merge over them |
| Pipeline.SummarizeSpec | bib-merger.py:346-355 | what is written is the merged entries, sorted and stable, rendered; the count is their number |
| Pipeline.IssueFlags | bib-merger.py:299-305 | the flag as written is the key check's verdict alone, the intended flag either check's; the first implies the second, and they differ exactly when only the title check finds an inconsistency |
| Pipeline.KeptFromInput | bib-merger.py:343-344 | `merged_entries` holds each key once, every key some entry's key, every value an entry |
| Pipeline.PairsFromInput | bib-merger.py:343-344 | first-wins insertion of input-drawn pairs keeps keys distinct and draws from the input |
| Pipeline.TitleIssuesDropped | bib-merger.py:302-305 | one file with two keys for one title and type, in any mode: the title check finds the issue, the key check does not, and a run that gets through has the flag as written false and the intended flag true |

## Left out

- File I/O: reading the input files, `os.path.exists`, writing the output (lines 35-40 and 351). The output is the text written.
- `check_output_file` (lines 250-268), argparse and `__main__` (lines 362-378): process plumbing.
- The entry pattern and `extract_title` (lines 45-46, 77-83): each file's matches and each match's title are inputs.
- Console output: every `print`, the colours, and the `raw[:100]` and `raw[:300]` previews. The `next` lookups used only for messages (lines 103-104, 131-132, 146) find the key the earlier lookups already found.
- `sys.exit(1)` at a `q` answer is the failure `Quit`; an exhausted answer sequence is `EOFError`.
- The iteration order of the `set` `all_keys` (lines 334 and 339) is the parameter `order`; `ListsMembers(order)` says it lists every member exactly once.
- `key_to_chosen_entry`, returned at line 248, is modelled but unused, as in `merge_bib_files`.
- Text.Lower: lower-cases ASCII letters only; Python's `str.lower` also folds other letters.
- Text.ParseInt: accepts ASCII digits only; Python's `int()` also accepts other Unicode decimal digits.
- Collect.CollectEntries: the global list keeps every parsed entry, file after file; where two (key, file) pairs give the same line-292 key, line 293 overwrites the earlier entry, and the code as written can then also raise `StopIteration` at the `next` calls of lines 95, 119 and 327 for the lost key. That behaviour is modelled only by Collect.UniqueKeyCollision, and Pipeline.MergeBibFiles runs on the list that keeps every entry (see Findings).
- Pipeline.MergeBibFiles: its `hasIssues` is `has_issues` as line 305 leaves it, the key check's flag alone, which decides the message of line 357; its `anyIssues` is the flag over both checks that line 302 evidently intends (see Findings). Pipeline.CheckAndMerge returns the same two flags.

## Findings

| source | as written | input that shows it | evidently intended | confidence | as-written member | corrected member |
|---|---|---|---|---|---|---|
| bib-merger.py:292 | entries are keyed by `f"{key}_{file_count}_{input_file}"`, which two different (key, file) pairs can share, so a later entry replaces an earlier one | key `a` in file 0 named `1_b.bib` and key `a_0` in file 1 named `b.bib` both give `a_0_1_b.bib`; one of the two entries is lost | every parsed entry kept, file after file | not executed | Collect.UniqueKeyCollision | Collect.CollectEntries |
| bib-merger.py:305 | `has_issues, key_to_chosen_entry = ...` rebinds `has_issues`, discarding what the title check found at line 302 | one file `a.bib` with `@article{x, title={t}}` and `@article{y, title={t}}`: the title check reports, the key check does not, and "No inconsistencies found!" is printed | the warning reflects both checks | not executed | Pipeline.TitleIssuesDropped | Pipeline.IssueFlags |
