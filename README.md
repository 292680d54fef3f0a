# Place-name trie index, modelled in Dafny

This project models the place-lookup core of a three-tier airport lookup system (`places_trie.cpp`).
One fixed-width line of the places file becomes a record (city name, state, coordinates).
The loaded records are sorted case-insensitively by name and then by state.
They are stored once in an array, and a character trie is built over that array.
Each trie node holds either the index range `[first, second)` of the records whose name ends at that node, or the unset sentinel.
Each of its children is labelled with the next lowercased character.

A query does the following:
- it descends one lowercased character per level, binary-searching the children;
- once the query is used up, it turns the node reached into a range of the array plus an ambiguity flag (`getFirstCompletion`, `getAmbiguousHints`);
- `queryPlace` then applies the optional state hint with the erase-remove idiom.

Modules, in dependency order:

- `Ascii` (`ascii.dfy`): `tolower`, `isspace` and `strcasecmp` in their ASCII meaning.
  `CaseCompare` is `strcasecmp` reduced to the sign of its result.
  Its contract says it is 0 exactly when the lowercased strings are equal.
  It is antisymmetric, and it orders the character after a common prefix.
- `Places` (`places.dfy`): the record, the `std::sort` comparator, and `Sorted`.
  Sortedness is taken as a precondition; `std::sort` is not modelled.
- `PlaceLines` (`place_lines.dfy`): `trimRight`, `removeLastWord` and `cityRecordFromLine`.
  These are imperative methods, each proved against a function on strings.
- `TrieBuilder` (`trie_builder.dfy`): `endOfSameLetterRange`, and `construct` as a method with its `while` loop.
  `construct` is proved to build a node satisfying the invariant `Covers`:
  - every record under the node starts with the path;
  - the node's range is set exactly when a name ends at this depth, and then holds exactly those names;
  - the remaining records split into consecutive maximal runs, one child per run, labelled with the run's character;
  - children are strictly ascending by label at every level (`Ordered`).
- `TrieIndex` (`trie_index.dfy`): `lower_bound`, `query`, `getFirstCompletion`, `getAmbiguousHints` and the `PlacesTrie` constructor.
  `QueryNodeFacts` proves that every query result is a `QueryOutcome`:
  - a range that starts at the first record matching the query;
  - it holds only matches, and it is empty (not found, unambiguous) exactly when nothing matches;
  - unambiguous and non-empty, it is the complete block of one name, and every match starts with that name;
  - ambiguous exactly when, non-empty, no matching record has a name that every match starts with (`QueryFlag`); then no record has exactly the name queried;
  - ambiguous, as written it starts at the first match and stops before a later match with another name; corrected, it is exactly the matches, its first and last names differing.
- `Resolver` (`resolver.dfy`): `queryPlace`.
  It is a method whose state filter runs the erase-remove idiom in place on an array.
  It is proved equal to the function `Resolve` of the trie's result.
  End-to-end lemmas cover three things:
  - a record looked up by its own name and state is found (with the record itself, unambiguous);
  - lookups are case-insensitive;
  - how not-found comes back without a state.

Two departures from the source are selected by a parameter, so that both behaviours are in one model:
- `TrieIndex.RightBound` picks where the ambiguous hints end:
  - `StartOfRightmost` is what the code does: the rightmost range's `first`;
  - `EndOfRightmost` is what the comments at places_trie.cpp:207 and :217 ("leftmost" and "rightmost of matched prefix") evidently intend: the end of the records under the node.
- `Resolver.NoStateRule` picks how a result without a state hint is flagged:
  - `AlwaysAmbiguous` is what the code does;
  - `AmbiguousIfSeveral` is what the comment at places_trie.cpp:49 gives as the reason: ambiguous when the same city appears more than once.

What the code does in a few cases a reader might expect otherwise, as the model follows it:
- A query for a name that is also the prefix of a longer name returns the node's own range, unambiguous. The children are ignored. For example, "spring" with both "Spring" and "Springfield" stored gives just "Spring".
- With the ambiguous hints as written, a prefix of several names does not return all the records under it.
  `"spring"` over Springdale AR, Springfield IL and Springfield MO gives `[0, 1)`: only Springdale.
- Looking up "springfield" with state "MO" over that data gives the MO record with the flag false, since the trie result for an exact name is unambiguous (see `Resolver.ResolveFindsRecord`).
- The longitude field is columns `[153, 163)` (`substr(153, 10)`), not `[153, 164)`.
- A name consisting of a single word loses that word: `removeLastWord` leaves it empty. The loader then drops that record, as it drops "CDP" records.

## Model

| member | source | states |
|---|---|---|
| Ascii.ToLower | places_trie.cpp:166 | tolower maps NUL and only NUL to NUL, and never yields an upper-case letter |
| Ascii.CharAt | places_trie.cpp:242 | the lowercased character at a depth is the lowercased name's character there; for a NUL-free name it is NUL exactly at and past the end, where `operator[]` yields `'\0'` |
| Ascii.CaseCompare | places_trie.cpp:133 | strcasecmp's sign is -1, 0 or 1, and is 0 exactly when the two names agree once lowercased |
| Ascii.CaseCompareAntisymmetric | places_trie.cpp:133-136 | swapping the two operands of strcasecmp negates its result, so two different names are ordered one way only |
| Ascii.IsSpace | places_trie.cpp:70-71 | isspace in the C locale, the predicate trimRight and removeLastWord test; IsSpaceChars lists the characters it holds for |
| Ascii.IsSpaceChars | places_trie.cpp:70-71 | isspace holds exactly for blank, tab, newline, vertical tab, form feed and carriage return |
| Ascii.CaseCompareAtCommonPrefix | places_trie.cpp:131-137 | of two names sharing a lowercased prefix, the one not comparing above the other has the smaller character right after the prefix, a name ending there counting as smallest |
| Places.RecordLess | places_trie.cpp:131-137 | the comparator: records it orders differ in name or state once lowercased, and records with different names are ordered exactly one way |
| Places.Sorted | places_trie.cpp:131-137 | what std::sort leaves: no record comes after one it is RecordLess than; its consequences are SortedByName and CharAtMonotone |
| Places.SortedByName | places_trie.cpp:131-137 | in an array sorted by the comparator, city names never decrease under strcasecmp |
| Places.CharAtMonotone | places_trie.cpp:131-137 | in a sorted array, records sharing a lowercased prefix are in ascending order of the character after it |
| PlaceLines.TrimmedLength | places_trie.cpp:68-75 | the kept length leaves only whitespace after it, and the last kept character is not whitespace |
| PlaceLines.WordStart | places_trie.cpp:79-82 | the last word starts after the last whitespace, and no whitespace follows that point |
| PlaceLines.LastWord | places_trie.cpp:79-83 | the word removeLastWord returns, defined through TrimmedLength and WordStart; its properties are LastWordHasNoSpace, LastWordSplit and LastWordGap |
| PlaceLines.WithoutLastWord | places_trie.cpp:84-85 | the string removeLastWord leaves; its properties are RestIsTrimmed and LastWordGap |
| PlaceLines.TrimRight | places_trie.cpp:68-75 | trimRight's loop erases exactly the trailing whitespace |
| PlaceLines.RemoveLastWord | places_trie.cpp:77-87 | the word returned is the whitespace-free tail of the trimmed input; the string left is the part before it, trimmed again |
| PlaceLines.LastWordHasNoSpace | places_trie.cpp:79-83 | the word removeLastWord returns holds no whitespace |
| PlaceLines.RestIsTrimmed | places_trie.cpp:85 | the string removeLastWord leaves behind has no trailing whitespace |
| PlaceLines.LastWordSplit | places_trie.cpp:78-84 | the word is empty exactly when the input is all whitespace; without inner whitespace the whole trimmed input is the word and nothing is left |
| PlaceLines.LastWordGap | places_trie.cpp:77-87 | the rest, a gap of whitespace and the word, concatenated, give back the trimmed input |
| PlaceLines.CityRecordFromLine | places_trie.cpp:89-110 | error exactly for lines not 164 characters long (the `std::stod` errors are not modelled); the empty record when the last word of columns [9, 73) is "CDP"; otherwise name without its last word, state [0, 2), coordinates [143, 153) and [153, 163) |
| TrieBuilder.RunEnd | places_trie.cpp:256-264 | the end of the maximal run from fm: inside (fm, to], every index before it has fm's label, the index at it (if below to) another |
| TrieBuilder.RunEndFrom | places_trie.cpp:259-263 | the scan from i keeps the run property and stops at the first differing label or at to |
| TrieBuilder.RunBounds | places_trie.cpp:237-253 | the run starts of [b, e) followed by e: start at b, end at e, strictly increasing, inside [b, e] |
| TrieBuilder.EndOfSameLetterRange | places_trie.cpp:256-264 | endOfSameLetterRange's loop returns the end of the maximal same-label run: fm < r <= to, all of [fm, r) share fm's label, r (if below to) differs |
| TrieBuilder.LabelsAscend | places_trie.cpp:131-137 | in a sorted array, two records that share a path and differ in the label after it are in ascending label order |
| TrieBuilder.ExtendPrefix | places_trie.cpp:242-248 | a record whose label after path is a character (not the end) starts with path plus that character |
| TrieBuilder.RunFacts | places_trie.cpp:240-248 | the run at idx is either all names ending at this depth (label NUL) or all names going on with the run's label |
| TrieBuilder.ChildrenCoverAppend | places_trie.cpp:247-248 | appending the child built for the next run keeps every child covering its own run, the last one up to the run's end |
| TrieBuilder.RunsFromStep | places_trie.cpp:238-252 | the run starts visited so far, followed by idx, are the run starts up to the end of idx's run |
| TrieBuilder.RunsFromComplete | places_trie.cpp:238-253 | when the loop reaches end, the runs it visited are exactly the runs that partition the range |
| TrieBuilder.BuiltStart | places_trie.cpp:236-237 | the empty node with no range establishes construct's loop invariant at idx = begin |
| TrieBuilder.BuiltEndOfNames | places_trie.cpp:243-245 | the run of names ending here becomes the node's range and the loop invariant holds after it |
| TrieBuilder.BuiltAddChild | places_trie.cpp:246-248 | a run going on with a character, built one level deeper, becomes the next child and the invariant holds after it |
| TrieBuilder.AddChildRange | places_trie.cpp:246-248 | adding a child leaves the node's range and its meaning unchanged over the longer prefix |
| TrieBuilder.AddChildChildren | places_trie.cpp:247-248 | adding a child extends the covered runs by the child's run |
| TrieBuilder.AddChildOrder | places_trie.cpp:247 | the new child's label is above every earlier child's and below the next run's, so children stay strictly ascending |
| TrieBuilder.BuiltDone | places_trie.cpp:238-254 | once idx reaches end the node covers [begin, end) and is ordered |
| TrieBuilder.DoneCovers | places_trie.cpp:238-254 | the children built cover exactly the runs of [begin, end) after the names ending here |
| TrieBuilder.Construct | places_trie.cpp:234-254 | construct over sorted, NUL-free records all starting with path builds a node that satisfies Covers and Ordered |
| TrieIndex.LowerBoundIn | places_trie.cpp:167-170 | the binary search returns a position with every label before it below ch and every label from it on not below ch |
| TrieIndex.LowerBound | places_trie.cpp:167-170 | lower_bound over strictly ascending children: the first child whose label is not below ch, or the end |
| TrieIndex.LabelAtLowerBound | places_trie.cpp:173 | it->c, defined only when lower_bound is not at `next.end()`: not below ch, and equal to ch exactly when some child carries ch; it stands alone, since `QueryNode` tests for the end before reading the label |
| TrieIndex.LeftmostStart | places_trie.cpp:207-215 | the first range start down the first children, none at a rangeless leaf; LeftmostStartIsBegin places it at the node's first record |
| TrieIndex.RightmostStart | places_trie.cpp:217-225 | the first range start down the last children, none at a rangeless leaf; RightmostStartInside places it inside the last run |
| TrieIndex.AmbiguousHints | places_trie.cpp:205-232 | getAmbiguousHints as a function; GetAmbiguousHints is proved equal to it and AmbiguousHintsFacts states its result on a built trie |
| TrieIndex.RightmostEnd | places_trie.cpp:217-229 | the corrected right end: the end of the last range down the last children; RightmostEndIsEnd places it at the node's last record |
| TrieIndex.CoveringHints | places_trie.cpp:225-229 | the corrected hints; CoveringHintsExact proves they are exactly the records under the node |
| TrieIndex.Hints | places_trie.cpp:198 | the hints getFirstCompletion returns at a branching node, as written or corrected |
| TrieIndex.FirstCompletion | places_trie.cpp:180-203 | getFirstCompletion's four branches; FirstCompletionFacts states its result on a built trie |
| TrieIndex.QueryNode | places_trie.cpp:159-178 | query's descent, not found when lower_bound reaches the end or another label; QueryNodeFacts states its result on a built trie |
| TrieIndex.GetAmbiguousHints | places_trie.cpp:205-232 | the two pointer-chasing loops compute AmbiguousHints: the first range start down the first children to the first range start down the last children, ambiguous, or not found on a rangeless leaf |
| TrieIndex.LocateRun | places_trie.cpp:238-253 | the runs partition the range: every index inside lies in a run |
| TrieIndex.InSomeChild | places_trie.cpp:242-248 | a record under a node whose name goes on past the path lies in some child's run and carries that child's label |
| TrieIndex.InChildSegment | places_trie.cpp:247-248 | a record going on with a child's label lies in that child's run |
| TrieIndex.ChildExactly | places_trie.cpp:246-248 | the child labelled c holds exactly the records whose name starts with path plus c |
| TrieIndex.LeftmostStartIsBegin | places_trie.cpp:207-215 | following first children from a node over a non-empty range reaches a range starting at the node's first record |
| TrieIndex.RightmostStartInside | places_trie.cpp:217-225 | following last children reaches a range start inside the node's records, in the last run |
| TrieIndex.RightmostEndIsEnd | places_trie.cpp:217-229 | following last children to a leaf reaches the end of the node's records |
| TrieIndex.AmbiguousHintsFacts | places_trie.cpp:205-232 | on a branching node without a range, the hints as written start at its first record and stop before its last, at a record matching too whose name differs from the first |
| TrieIndex.FirstChildStart | places_trie.cpp:207-215 | the first-child path ends at the node's first record, which goes on with the first label |
| TrieIndex.LastChildStart | places_trie.cpp:217-225 | the last-child path ends strictly inside the node's records, at a record going on with the last label |
| TrieIndex.CoveringHintsExact | places_trie.cpp:225-229 | the corrected hints are exactly the node's records, ambiguous |
| TrieIndex.LastChildEnd | places_trie.cpp:217-229 | the node's last record goes on with the last child's label |
| TrieIndex.CoveringHintsFacts | places_trie.cpp:205-232 | on a branching node without a range the corrected hints cover all its records, whose first and last names differ |
| TrieIndex.RangeCompletion | places_trie.cpp:183-189 | a node's own range is its first records, exactly those whose name equals the path, and every record under it starts with that name |
| TrieIndex.FirstCompletionFacts | places_trie.cpp:180-203 | getFirstCompletion: not found on an empty range; a non-empty part starting at the first record; unambiguous means the block of one name that every record under the node starts with; ambiguous means no record's name is one every record under the node starts with, and the range ends before a later differing name as written or at the end when corrected |
| TrieIndex.NoCommonName | places_trie.cpp:197-198 | at a branching node without a range, no record under the node has a name that every record under it starts with, so the ambiguous flag set there is deserved |
| TrieIndex.OnlyChild | places_trie.cpp:201-202 | the only child of a rangeless node covers all of the node's records |
| TrieIndex.OutcomeInBlock | places_trie.cpp:163 | a completion over exactly the records matching the query is a query outcome, its flag included |
| TrieIndex.SharedNameExactly | places_trie.cpp:163 | over the exact block of matches, a name the block shares is one the matches share, and back |
| TrieIndex.CompletionOutcome | places_trie.cpp:163 | once the query is used up, getFirstCompletion of the node reached is a query outcome |
| TrieIndex.NoChildNoMatch | places_trie.cpp:165-174 | when no child carries the next lowercased character, no record matches the query |
| TrieIndex.ChildFacts | places_trie.cpp:176-177 | the child descended into covers exactly the records starting with the path one character longer |
| TrieIndex.NotFoundOutcome | places_trie.cpp:172-174 | the empty, unambiguous result is the outcome of a query nothing matches |
| TrieIndex.QueryNodeFacts | places_trie.cpp:159-178 | query from a node covering exactly the records starting with the query's first depth characters returns a query outcome: a range of matches starting at the first, empty exactly when nothing matches, unambiguous and non-empty only as the block of a name every match starts with, ambiguous only when the matches share no such name |
| TrieIndex.QueryNodeCaseInsensitive | places_trie.cpp:166 | query sees the query string only through its lowercased characters |
| TrieIndex.Build | places_trie.cpp:145-148 | the constructor builds from the root, labelled NUL, over the whole array at depth 0, a trie that covers the records and is ordered |
| TrieIndex.QueryFacts | places_trie.cpp:150-153 | query from the root returns a query outcome, with the range and the flag as QueryNodeFacts states them |
| TrieIndex.OutcomeFlag | places_trie.cpp:180-203 | a non-empty query outcome is ambiguous exactly when no matching record has a name every match starts with |
| TrieIndex.QueryFlag | places_trie.cpp:150-153 | a query that finds something is ambiguous exactly when no matching record has a name that every match starts with; a prefix reaching one stored name through single children is unambiguous |
| TrieIndex.QueryRange | places_trie.cpp:150-153 | the result range holds only matches, is empty exactly when nothing matches, and empty is unambiguous |
| TrieIndex.QueryExactName | places_trie.cpp:150-153 | a query for a stored name is unambiguous and gives exactly the records with that name |
| TrieIndex.Query | places_trie.cpp:150-153 | every record returned starts with the query, the result is empty exactly when nothing matches, and empty is unambiguous |
| TrieIndex.QueryCaseInsensitive | places_trie.cpp:166 | queries that agree once lowercased give the same result |
| TrieIndex.RightBoundDropsMatch | places_trie.cpp:225-229 | over "Ab" and "Ac" the query "a" matches both, but the result as written is only the first |
| TrieIndex.CorrectedBoundKeepsMatches | places_trie.cpp:225-229 | with the corrected bound the same query gives both records |
| TrieIndex.EndIteratorReached | places_trie.cpp:167-173 | over the single name "a", lower_bound for 'b' at the root lands past the last child, where it->c is read |
| Resolver.SameState | places_trie.cpp:58 | strcasecmp of the states is 0: exactly when the states agree once lowercased |
| Resolver.KeepState | places_trie.cpp:55-60 | what erase(remove_if(...)) leaves, never longer than the records; KeepStateMembers and KeepStateAppend state which records and in what order |
| Resolver.KeepStateMembers | places_trie.cpp:55-60 | erase-remove keeps exactly the records in the state, each as often as before, and none of the others |
| Resolver.KeepStateAppend | places_trie.cpp:57-60 | the filter preserves order: it works piecewise on a concatenation |
| Resolver.KeepStateCaseInsensitive | places_trie.cpp:58 | states that agree once lowercased keep the same records |
| Resolver.Resolve | places_trie.cpp:41-63 | one match or an ambiguous result is returned unchanged; otherwise an empty state keeps the records and sets the flag (always as written, for several records as intended); a state keeps exactly KeepState of the records, a sub-multiset all in that state, with the flag unchanged |
| Resolver.EraseOtherStates | places_trie.cpp:56-60 | the remove_if loop over an array, followed by erase, leaves exactly KeepState of the records |
| Resolver.FilterStep | places_trie.cpp:57-58 | one remove_if step moves the record down when it is in the state and keeps the loop invariant |
| Resolver.QueryPlace | places_trie.cpp:41-63 | queryPlace returns Resolve of the trie's result |
| Resolver.SameStateReflexive | places_trie.cpp:58 | a record's state compares equal to itself |
| Resolver.ResolveWithOwnState | places_trie.cpp:55-62 | an unambiguous result holding a record, filtered by that record's state, keeps it, stays unambiguous and keeps exactly the records in that state |
| Resolver.ResolveFindsRecord | places_trie.cpp:41-63 | looking a record up by its name and non-empty state gives, unambiguously, the record and exactly the records with that name and state |
| Resolver.ResolveCaseInsensitive | places_trie.cpp:41-63 | lookups whose city and state agree once lowercased give the same answer |
| Resolver.ResolveFlagsNotFound | places_trie.cpp:46-52 | as written, a city nobody has, looked up without a state, comes back empty and ambiguous |
| Resolver.ResolveIntendedNotFound | places_trie.cpp:46-52 | with the intended rule the same lookup is not found: empty and unambiguous |
| Resolver.ResolveIntendedNoState | places_trie.cpp:50-52 | with the intended rule a stateless answer is ambiguous exactly when it holds several records or the trie flagged it |

## Left out

- File input: loadPlacesFromFile's `ifstream`/`getline` loop, and its dropping of records with an empty name, are I/O around `CityRecordFromLine`. Its growth and `shrink_to_fit` are memory management.
- `std::sort`: sortedness under the comparator is a precondition (`Places.Sorted`), not proved of a sorting routine.
- `std::stod`: the coordinates stay the two 10-character text fields handed to it. Floating point is not modelled.
- PlaceLines.CityRecordFromLine: the `std::invalid_argument` and `std::out_of_range` that `std::stod` throws on a 164-character line whose coordinate field does not parse are not modelled; such a line gives a record here.
- The global `trie` singleton, `initTrie`, `log_printf` and `size()`: global state and logging. The index is an explicit `PlacesTrie` value.
- The XDR marshalling routines, which only call a foreign RPC library.
- Locale: `tolower`, `isspace` and `strcasecmp` are their ASCII versions. Characters are compared as code points in both the sort and `lower_bound`, so the signedness of `char` in the C++ comparisons is not modelled.
- Names are taken to contain no NUL character (`Places.NulFree`): a C string ends at its first NUL, and the model has no such split.
- TrieBuilder.Construct: `construct` fills a node passed by reference and appends to its `next` vector. The model returns the node as a value in the loop's variable, so aliasing of the node is not modelled.
- TrieIndex.GetAmbiguousHints: the `curr` pointer becomes a node value, so the child links are followed by value and not by address.
- Resolver.EraseOtherStates: `TFoundPlaces` holds references into the array, which the model replaces by copies of the records. The filter runs on a fresh array of them rather than on the vector of references.
- TrieIndex.LabelAtLowerBound: the read from `next.end()` has no value in the model, so its precondition excludes it; `TrieIndex.EndIteratorReached` shows the case arises.

## Findings

| source | as written | input that shows it | evidently intended | confidence | as-written member | corrected member |
|---|---|---|---|---|---|---|
| places_trie.cpp:225-229 | the right end of the ambiguous range is `idxRange.first` of the node reached down the last children, so that node's own records are left out | records "Ab" WA and "Ac" WA, query "a": both match, the result is `[0, 1)` | end at the last record under the node, so the range holds every record under the prefix | not executed | TrieIndex.RightBoundDropsMatch | TrieIndex.CorrectedBoundKeepsMatches |
| places_trie.cpp:173 | `it->c` is read even when `lower_bound` returns `next.end()` | the single record "a", query "b": lower_bound at the root lands past its only child | report not found when `it == next.end()` before comparing labels | not executed | TrieIndex.EndIteratorReached | TrieIndex.NoChildNoMatch |
| places_trie.cpp:50-52 | with an empty state a result that is not a single match is flagged ambiguous, including an empty one | any city no record matches, looked up with an empty state | ambiguous only when several records remain, so not found stays unambiguous | not executed | Resolver.ResolveFlagsNotFound | Resolver.ResolveIntendedNotFound |
