# dblp-conf-tools, modelled in Dafny

dblp-conf-tools helps a programme committee find conflicts of interest. It has
three parts, and this project models each of them:

- **The DBLP indexer** (`dblp_data.py`). It makes one forward pass over the
  elements of the DBLP XML dump. The pass builds `authors` (author name ->
  publication keys) and `publications` (publication key -> author names).
  Module `DblpData`.
- **Two name resolvers.** Each one fills in the DBLP id of every roster row
  that lacks one.
  - `match_dblp.py` (module `MatchDblp`) tries three sources in turn, and the
    first that answers wins: an exact name -> id table, a disambiguation page,
    then a live author search. It reduces the candidates to one: a single
    candidate, a unique affiliation match, or an answer typed at the terminal.
    It then completes the row's name and affiliations from the author record.
  - `easychair_match_authors.py` (module `EasychairMatchAuthors`) is the older
    variant. It has only the exact table and the search.
  - Both use the row helpers in `CsvRows`.
- **Two conflict finders.** Both build the same maps first: publications by
  resolved author id, resolved ids by publication, and the committee tables
  (module `ConflictMaps`).
  - `find_conflicts.py` (module `FindConflicts`) appends a justification
    "<publication> with <author name>" under each key (submission #,
    committee id). It reports the keys in sorted order.
  - `easychair_identify_conflicts.py` (module `EasychairIdentifyConflicts`)
    collects the set of pairs (author id, committee id).

Module `Text` models the Python string operations the code relies on: `strip`,
`lower`, `in`, `join`, `int()` and string `<`. `Wrappers` holds Option and
Result; `Seqs` holds two facts about sequence prefixes.

Calls to the outside world are parameters of the model. These are the DBLP
service (`load_disambiguation`, the author search, `load_author`) and `input()`,
given per row as a `Services` value. A call that raised or returned nothing
becomes `None`. Code that updates a row dictionary in place becomes a method on
a `CsvRow` object with `modifies` clauses. Every such method is proved equal to
a function of the old row, and the properties are proved about those
functions.

A Python exception that aborts a run is a `Failure` in the model. This covers
the uncaught search error and the uncaught IndexError in
`easychair_match_authors.py:29,45`, and the two defects listed under Findings.

In `easychair_match_authors.py` the search at line 29 is not guarded, and
lines 44-47 catch only ValueError, so a failing search or an out-of-range
index aborts the run. The model follows the code: see
`EasychairMatchAuthors.Typed` and `EasychairMatchAuthors.MatchRow`.

## Model

| member | source | states |
|---|---|---|
| DblpData.ParserEntities | dblp_data.py:25-27 | the parser's entity table is the standard table plus `umml`, which is bound to the text of `uuml`; every other entity is unchanged |
| DblpData.CustomEntityLookup | dblp_data.py:18-22 | `umml` is looked up as `uuml`; any other name as itself; a missing name is an error (KeyError) |
| DblpData.AuthorNames | dblp_data.py:105 | the author names are the non-empty author texts, no more than there are texts, and every non-empty text is among them |
| DblpData.AddPubToAllSpec | dblp_data.py:107-110 | after the author loop, each listed name has gained the key, new names have entries, and no other entry has changed |
| DblpData.Step | dblp_data.py:98-113 | an element that is not a record kind, or has no key or an empty key, leaves both maps unchanged |
| DblpData.AddKeyToAuthors | dblp_data.py:107-110 | the in-place loop adds the key to the set of every listed name, creating missing sets; the result equals the specification fold over the names |
| DblpData.GetAuthorsAndPubs | dblp_data.py:88-115 | the first end event is taken as the root and skipped; the maps returned are the fold of the remaining elements |
| DblpData.FoldValid | dblp_data.py:97-113 | after any prefix of the pass: every author listed under a publication lists that publication back; author entries have non-empty names and at least one key; every key under an author is a publication; no key is empty |
| DblpData.FoldGrows | dblp_data.py:97-113 | as the pass goes on, no publication leaves an author's set and no publication key disappears |
| DblpData.FoldPublicationKeys | dblp_data.py:103-106 | a key is in `publications` exactly when some kept record carries it |
| DblpData.FoldAuthors | dblp_data.py:103-110 | `p in authors[a]` exactly when some kept record with key `p` lists `a` as an author |
| DblpData.FoldPublicationLast | dblp_data.py:106 | `publications[p]` holds the author names of the last record with key `p` |
| DblpData.UniqueKeysConsistent | dblp_data.py:106-110 | when no key repeats, `p in authors[a]` implies `a in publications[p]` (the two maps are converse) |
| DblpData.PublicationOverwritten | dblp_data.py:106 | with a repeated key the converse fails: the second record replaces the author set, while `authors` keeps the first record's author |
| CsvRows.EnsureColumn | match_dblp.py:28-33 | the header ends up containing the column, keeps its old columns in order, and gains at most that one column |
| CsvRows.Position | match_dblp.py:126 | `iloc[k]` picks a row exactly when `-n <= k < n`, counting a negative `k` from the end |
| MatchDblp.FormatAffiliations | match_dblp.py:96 | `'; '.join(affs) or '[None Listed]'` is never empty |
| MatchDblp.FormatAffiliationsPlaceholder | match_dblp.py:96 | the placeholder appears exactly for `[]` and `[""]`; otherwise the cell is the join and contains every affiliation |
| MatchDblp.AffiliationMatchIgnoresCase | match_dblp.py:98 | the affiliation test is case-insensitive on both sides: row affiliations equal once lowered, against candidates whose affiliations are equal once lowered, give the same answer |
| MatchDblp.AffiliationMatchLowered | match_dblp.py:98 | lowering the row's affiliation first does not change the test |
| MatchDblp.EmptyAffiliationMatchesAny | match_dblp.py:98 | a missing or empty row affiliation matches exactly the candidates that list some affiliation |
| MatchDblp.AffiliationMatches | match_dblp.py:98 | the filtered candidates are exactly those among the candidates that pass the test |
| MatchDblp.AffiliationMatchesSingle | match_dblp.py:98-99 | when only candidate `k` passes, the filter yields `[m[k]]` |
| MatchDblp.FirstWithDocno | match_dblp.py:117-119 | finds a candidate with the typed id exactly when one exists, and it is the first candidate with that id |
| MatchDblp.Decide | match_dblp.py:86-131 | a taken candidate is one of the matches; a typed id contains '/' and equals the stripped input; an entered id or an invalid answer happens only among several candidates |
| MatchDblp.ById | match_dblp.py:115-123 | an answer with '/' takes the candidate with that id, or is stored as the bare id |
| MatchDblp.ByIndex | match_dblp.py:124-131 | the answer is invalid exactly when it does not parse as an integer or the integer is no valid position; otherwise it takes the candidate at that position |
| MatchDblp.Apply | match_dblp.py:94-131 | applying a decision changes at most the three DBLP columns |
| MatchDblp.Choose | match_dblp.py:85-131 | only the DBLP columns change; no candidates leave the row as it was; a single candidate is written |
| MatchDblp.ChooseWritesCandidateOrInput | match_dblp.py:85-131 | the row is unchanged, holds one of the candidates, or holds the typed id with name and affiliations cleared |
| MatchDblp.ChooseAsWrittenAgrees | match_dblp.py:124-131 | the code as written raises exactly on an invalid selection, and otherwise agrees with the corrected choice |
| MatchDblp.InvalidSelectionRaises | match_dblp.py:124-131 | an invalid answer among several candidates makes the code as written raise, where the intended outcome leaves the row unchanged |
| MatchDblp.UniqueAffiliationTaken | match_dblp.py:98-103 | among several candidates, the only one that passes the affiliation test is written, interactive or not |
| MatchDblp.AmbiguousUnchanged | match_dblp.py:98-112 | when no candidate passes, or two pass, the row is unchanged outside interactive mode |
| MatchDblp.NoUniqueMatchKeeps | match_dblp.py:99-112 | without a unique affiliation match, the row is unchanged outside interactive mode |
| MatchDblp.TypedChoice | match_dblp.py:112-131 | a blank answer skips; an answer with '/' is stored as the id, with the name and affiliations of the candidate that has it, or cleared when none has it; any other answer that is a valid index takes the candidate at that position, and an invalid one skips |
| MatchDblp.Resolve | match_dblp.py:38-63 | a row that already has an id is untouched; otherwise only the DBLP columns change |
| MatchDblp.CompleteFromRecord | match_dblp.py:64-75 | the id never changes, a filled DBLP cell is never overwritten, and only the DBLP columns change |
| MatchDblp.CompleteFromRecordWrites | match_dblp.py:64-75 | a failed lookup leaves the row as it was; otherwise an empty name cell gets the record's name and an empty affiliations cell gets the record's affiliations as `FormatAffiliations` joins them |
| MatchDblp.ProcessRow | match_dblp.py:37-75 | only the DBLP columns change, and an id already present survives |
| MatchDblp.ExactMatchFirst | match_dblp.py:40-44 | an exact name match writes the table's id and the name, leaves affiliations empty, and does not depend on any service or on the terminal |
| MatchDblp.ResolveByCandidates | match_dblp.py:45-63 | with no id and no exact match, the row goes to the candidate reduction with the candidates from the disambiguation page, or else from the search |
| MatchDblp.SearchAsFallback | match_dblp.py:46-63 | when the name has no disambiguation page, or the page yields no candidates, the search's answer is reduced |
| MatchDblp.SearchOnlyAsFallback | match_dblp.py:54-55 | when the disambiguation page yields candidates, the search's answer does not matter |
| MatchDblp.ProcessRowAsWrittenAgrees | match_dblp.py:36-76 | for one row, where the code as written does not raise, it computes the corrected row |
| MatchDblp.UpdateRowsAsWrittenCons | match_dblp.py:36-76 | a run as written succeeds exactly when its first row and the rest succeed, and then yields their rows in order |
| MatchDblp.UpdateRowsAsWrittenAgrees | match_dblp.py:36-76 | where the loop as written gets through, it yields the rows of the corrected loop |
| MatchDblp.FirstPreResolvedRowRaises | match_dblp.py:64-65 | a roster whose first row has an id but no name makes the code as written raise, where the corrected loop completes that row from the author record |
| MatchDblp.ProcessRowsElements | match_dblp.py:36-76 | the corrected loop yields one row per input row, in order, each processed with its own service answers |
| MatchDblp.ChooseDblpFromCandidates | match_dblp.py:85-131 | the in-place update leaves the row equal to the corrected choice |
| MatchDblp.ReadSelection | match_dblp.py:112-131 | the row after the typed answer equals the decision applied to the row |
| MatchDblp.SelectById | match_dblp.py:115-123 | an id answer writes the id with its candidate's data, or with both other cells cleared |
| MatchDblp.SelectByIndex | match_dblp.py:124-131 | an answer that parses to a valid position writes the candidate at that position; any other answer leaves the row as it was |
| MatchDblp.ProcessRowInPlace | match_dblp.py:37-75 | the in-place row ends up equal to the processed row |
| MatchDblp.ResolveInPlace | match_dblp.py:38-63 | the in-place resolution chain ends equal to `Resolve` |
| MatchDblp.CompleteInPlace | match_dblp.py:64-75 | the in-place completion ends equal to `CompleteFromRecord`, so it leaves the row unchanged on a failed lookup and writes the record's name and affiliations into empty cells (`CompleteFromRecordWrites`) |
| MatchDblp.AddDblpColumns | match_dblp.py:27-33 | each missing DBLP column is appended to the header, in this order |
| MatchDblp.UpdateCsvWithDblp | match_dblp.py:18-76 | the header gains the DBLP columns; the output rows are the input rows in order, each resolved and completed |
| MatchDblp.ProcessOneRow | match_dblp.py:36-76 | one loop iteration on a fresh row dictionary yields the processed row |
| EasychairMatchAuthors.Typed | easychair_match_authors.py:38-47 | a typed answer gives either an id that contains '/' or a result's id; an error happens only for an integer index without '/' |
| EasychairMatchAuthors.TypedCases | easychair_match_authors.py:38-47 | a blank or non-integer answer skips; an answer with '/' is taken as given; an index in range (negative from the end) picks that result; an index out of range raises |
| EasychairMatchAuthors.MatchRow | easychair_match_authors.py:24-52 | a row that has `dblp` is unchanged; only `dblp` is written; errors happen only after an exact-table miss |
| EasychairMatchAuthors.WrittenIdHasASource | easychair_match_authors.py:24-47 | an id written into an empty cell comes from the exact table, from a search result, or from the terminal |
| EasychairMatchAuthors.ExactHitNoSearch | easychair_match_authors.py:26-27 | an exact hit writes the table's id and depends neither on the search nor on the terminal |
| EasychairMatchAuthors.SearchOutcome | easychair_match_authors.py:28-52 | without an exact hit: a failed search raises; one result is taken; no results, or several outside interactive mode, leave the row as it was |
| EasychairMatchAuthors.TypedOutcome | easychair_match_authors.py:34-47 | with several results in interactive mode, the typed answer decides: skip, write, or abort |
| EasychairMatchAuthors.MatchRowInPlace | easychair_match_authors.py:24-52 | the in-place row equals `MatchRow` on success, and is unchanged with the error returned on failure |
| EasychairMatchAuthors.MatchOneRow | easychair_match_authors.py:22-53 | one iteration yields the matched row or the error |
| EasychairMatchAuthors.AddDblpColumn | easychair_match_authors.py:17-19 | the header gains `dblp` when it lacks it |
| EasychairMatchAuthors.CollectSpec | easychair_match_authors.py:22-53 | the run succeeds exactly when every row succeeds, and then yields the rows in order; otherwise it fails with the first row's error |
| EasychairMatchAuthors.CollectFailureStays | easychair_match_authors.py:22-53 | once a prefix of the rows has failed, the whole run fails with the same error |
| EasychairMatchAuthors.UpdateCsvWithDblp | easychair_match_authors.py:9-53 | the header gains `dblp`; the rows out are the collected row outcomes, or the first error aborts the run |
| ConflictMaps.IdsOfStep | find_conflicts.py:19-21 | visiting one more name adds its id, if it has one |
| ConflictMaps.Id2PubsStep | find_conflicts.py:10-14 | visiting one more name merges its publications under its id, creating the entry if needed |
| ConflictMaps.AddPubs | find_conflicts.py:12-14 | the id's set is created if missing, then the publications are added to it |
| ConflictMaps.BuildId2Pubs | find_conflicts.py:9-14 | the loop, in any visiting order, builds `Id2Pubs` |
| ConflictMaps.Id2PubsKeys | find_conflicts.py:9-14 | an id is a key of `id2pubs` exactly when some name with publications maps to it |
| ConflictMaps.Id2PubsValues | find_conflicts.py:9-14 | `id2pubs[id]` holds exactly the publications of the names that map to `id` |
| ConflictMaps.MappedIds | find_conflicts.py:18-21 | the ids of a publication are exactly the ids of its mapped authors |
| ConflictMaps.AddId | find_conflicts.py:20-21 | one author's id joins the ids of the authors visited before it |
| ConflictMaps.BuildPub2Ids | find_conflicts.py:16-21 | the loop, in any visiting order, builds `Pub2Ids` |
| ConflictMaps.Pub2IdsMembers | find_conflicts.py:16-21 | every publication is a key, and its value holds exactly the ids of its mapped authors |
| ConflictMaps.BuildCommittee | find_conflicts.py:24-31 | the loop builds `committee_ids` and `person_num_mapping` as the row-by-row specification does |
| ConflictMaps.LastDeclaringSpec | find_conflicts.py:29-30 | the last row that declares an id is found, or -1 when no row declares it |
| ConflictMaps.CommitteeIdsLastWins | find_conflicts.py:29-30 | an id is a committee id exactly when some row declares it, and then it maps to the member number of the last such row |
| ConflictMaps.CommitteeNumbersNamed | find_conflicts.py:30-31 | every member number in `committee_ids` has a name, so line 53 does not raise KeyError |
| ConflictMaps.PersonNamesGrow | find_conflicts.py:31 | a member number named by a prefix of the rows stays named |
| ConflictMaps.CommitteeStep | find_conflicts.py:29-31 | one more committee row adds its id (when filled) and its member number's name, overwriting earlier entries |
| ConflictMaps.LastNumberedSpec | find_conflicts.py:31 | `LastNumbered` is a row with that member number and no later row has it, or -1 when no row has it |
| ConflictMaps.PersonNamesCover | find_conflicts.py:31 | every committee row's member number is named |
| ConflictMaps.PersonNamesLastWins | find_conflicts.py:31 | a member number is named exactly when some row carries it, and then it maps to the name of the last such row |
| ConflictMaps.IndexPubsAreKeys | find_conflicts.py:44-45 | for the maps of the DBLP pass, every publication in `id2pubs` is a key of `pub2ids` (line 45 does not raise) |
| ConflictMaps.OwnPublicationsListId | find_conflicts.py:9-21 | when the publication map lists every author under their publications, an id's own publications list that id |
| FindConflicts.JustifyInjective | find_conflicts.py:46 | for one author name, different publications give different justifications |
| FindConflicts.AppendBag | find_conflicts.py:46 | an append to the defaultdict adds one justification under its own key and changes no other key |
| FindConflicts.AppendConflicts | find_conflicts.py:45-46 | one publication's justification is appended once under the key of each listed committee member |
| FindConflicts.PubsEntriesStep | find_conflicts.py:44-46 | one more publication adds its justification to each key whose member it lists |
| FindConflicts.AddPubsConflicts | find_conflicts.py:43-46 | the publication loop adds, under each key, one justification per publication that lists the member |
| FindConflicts.AddRowConflicts | find_conflicts.py:39-46 | one author row adds what its id's publications call for, or nothing when its id has no publications |
| FindConflicts.CollectConflicts | find_conflicts.py:33-46 | under each key, `cois` holds exactly the justifications the author rows call for, with their multiplicities; no list is empty |
| FindConflicts.RowEntriesNonEmpty | find_conflicts.py:39-46 | an author row adds something under a key exactly when one of its publications lists the key's member |
| FindConflicts.ExpectedNonEmpty | find_conflicts.py:37-46 | a key is present exactly when some author row of that submission has a publication that lists the committee member |
| FindConflicts.NoConflictAddsNothing | find_conflicts.py:42-46 | an author row none of whose publications lists a committee member adds nothing, whatever its `submission #` |
| FindConflicts.UnresolvedRowAddsNothing | find_conflicts.py:39-46 | an author row with a missing or empty `dblp_id` adds nothing, as long as the empty string is not a key of `id2pubs` |
| FindConflicts.ConflictsAreCommittee | find_conflicts.py:45-52 | a key's member is always a committee id, so line 52 does not raise |
| FindConflicts.SelfConflict | find_conflicts.py:43-46 | a committee member who is also a submission author conflicts with their own submission |
| FindConflicts.KeyLessTransitive | find_conflicts.py:51 | the key order of `sorted` is transitive |
| FindConflicts.KeyLessTotal | find_conflicts.py:51 | the key order of `sorted` is total |
| FindConflicts.KeyLessIrreflexive | find_conflicts.py:51 | the key order of `sorted` is irreflexive |
| FindConflicts.InsertKey | find_conflicts.py:51 | inserting a new key keeps the list sorted, adds exactly that key, and grows the list by one |
| FindConflicts.SortKeys | find_conflicts.py:51 | `sorted(cois)` lists every key once, in increasing order |
| FindConflicts.Report | find_conflicts.py:48-59 | one report row per key, in sorted order, with the member's number and name, the submission, and the '; '-joined justifications |
| FindConflicts.FindConflicts | find_conflicts.py:6-59 | the justifications under every key are those the author rows call for; the report covers every key in sorted order, and every member number and name lookup succeeds |
| EasychairIdentifyConflicts.AddConflicts | easychair_identify_conflicts.py:40-41 | adds one pair per committee member listed by a publication |
| EasychairIdentifyConflicts.PubsPairsStep | easychair_identify_conflicts.py:39-41 | one more publication adds the pairs of the committee members it lists |
| EasychairIdentifyConflicts.AddPubsConflicts | easychair_identify_conflicts.py:39-41 | the publication loop adds the pairs of every publication of the author |
| EasychairIdentifyConflicts.CollectConflicts | easychair_identify_conflicts.py:32-41 | the row loop builds `Pairs` |
| EasychairIdentifyConflicts.PairsMembers | easychair_identify_conflicts.py:35-41 | (d, c) is a conflict exactly when some author row has id `d` and a publication whose resolved authors include committee member `c` |
| EasychairIdentifyConflicts.PairsComponents | easychair_identify_conflicts.py:38-41 | every conflict pairs an author id that has publications with a committee id |
| EasychairIdentifyConflicts.IdentifyConflicts | easychair_identify_conflicts.py:5-41 | the conflicts are the pairs the author rows call for, with committee ids read from the `dblp` column |
| Text.StripSpec | match_dblp.py:39 | `strip()` removes exactly the whitespace at both ends: the result is a slice whose ends are not whitespace, and the cut-off characters are whitespace |
| Text.LowerSpec | match_dblp.py:98 | `lower()` keeps the length and lowers each character on its own |
| Text.LowerIdempotent | match_dblp.py:98 | lowering twice is lowering once |
| Text.LowerChar | match_dblp.py:98 | a lowered character is never an upper-case ASCII letter, and only upper-case letters change |
| Text.ContainsAt | match_dblp.py:98 | `needle in hay` holds exactly when the needle occurs at some position |
| Text.JoinEmpty | match_dblp.py:96 | with a non-empty separator, the join is empty only for `[]` and `[""]` |
| Text.JoinContainsEach | match_dblp.py:96 | every joined element appears in the result |
| Text.ParseIntSpec | match_dblp.py:126 | `int(s)` accepts exactly an optional sign followed by digits |
| Text.ParseShowInt | match_dblp.py:126 | reading back the decimal rendering of any integer gives that integer |
| Text.StrLessTransitive | find_conflicts.py:51 | Python's string `<` is transitive |
| Text.StrLessTotal | find_conflicts.py:51 | Python's string `<` is total |
| Text.StrLessIff | find_conflicts.py:51 | Python's string `<` is the lexicographic order: a proper prefix, or a smaller character at the first difference |

## Left out

- dblp_data.py:30-85: downloading the dump, ETag and MD5 checks. These are network and file I/O.
- dblp_data.py:93-97, 112-113: gzip decompression, `iterparse` and `clear()`. The model reads the parsed elements as a sequence, in the order their end events arrive.
- DblpData.CustomEntityLookup: `chr` of the code point is not taken; the result is the code point itself.
- `get_author2id`, `get_disambiguation2id`, `get_author2pubs` and `get_pub2authors` are imported from `dblp_data` but not defined in dblp_data.py. Their results are parameters. import_conflicts.py is not part of this model.
- CSV reading and writing, argparse, logging, `tqdm` and `print`. This includes the candidate listing of match_dblp.py:105-111, whose `author2pubs` and `pub_re` serve only that display. Rows are given as maps from column to string.
- A cell that `csv.DictReader` fills with `None` (a short line) is not modelled; every present cell is a string.
- The DBLP service (`DblpApi`) and `input()` are parameters given per row. The search's `num_results=30` cap belongs to the service.
- MatchDblp.FormatAffiliations: candidate affiliations are modelled as strings. The source allows a `None` entry: the test at match_dblp.py:98 reads it as `''`, but the joins at match_dblp.py:96, 103, 111, 120 and 131 and at easychair_match_authors.py:37 raise TypeError on it. The model does not capture that entry or that error.
- MatchDblp.CompleteFromRecord: an author record that is present but empty (falsy) is modelled like a failed call (`None`).
- find_conflicts.py:40 looks up the row's `dblp_id` as it is, so an empty id would match if `""` were a key of `id2pubs`. The model does not prove that `id2pubs` lacks that key; `FindConflicts.UnresolvedRowAddsNothing` states that rows without an id add nothing only under that condition.
- find_conflicts.py:34,41: the `author_ids` map is built and never read. Only its KeyError condition (`person #` present when the id is filled) is kept, as a precondition.
- FindConflicts.FindConflicts: requires every author row to have the name columns of line 42 and, when its id is filled, the `person #` column of line 41; requires the `submission #` column of line 46 only of rows that have a conflict; and requires `pub2ids` to have every publication of a reached id. The source raises KeyError otherwise; the model does not produce that error. `ConflictMaps.IndexPubsAreKeys` proves the second condition for the maps of the DBLP pass.
- EasychairIdentifyConflicts.IdentifyConflicts: requires `pub2ids` to have every publication of a reached id (KeyError in the source otherwise).
- ConflictMaps.BuildCommittee: requires every committee row to have `person #`, `first name` and `last name` (KeyError in the source otherwise).
- FindConflicts.CollectConflicts: fixes the justifications under each key as a multiset, not their order. Python visits the sets of lines 44-45 in an unspecified order.
- easychair_identify_conflicts.py:42-43: the `pdb` breakpoint; the model returns the set instead.
- Text.Strip, Text.Lower and Text.ParseInt cover ASCII only: ASCII whitespace, ASCII letters and ASCII digits. Text.ParseInt also rejects digit-group underscores ("1_0"), which Python's `int()` accepts.
- The order of entries in Python dicts is not modelled. The report order is fixed by `sorted`.

## Findings

| source | as written | input that shows it | evidently intended | confidence | as-written member | corrected member |
|---|---|---|---|---|---|---|
| match_dblp.py:124-131 | After "Invalid selection, skipping." the code falls through to line 129. There it indexes `record`, which is still the namedtuple from the loop at line 107, with `'docno'`, which raises TypeError and aborts the run. | several candidates, no unique affiliation match, interactive mode, typed answer "7" for two candidates or "x" | skip the row and leave it unchanged | high, not executed | MatchDblp.ChooseAsWritten, MatchDblp.InvalidSelectionRaises | MatchDblp.Choose, MatchDblp.ChooseWritesCandidateOrInput |
| match_dblp.py:64-65 | The log message at line 65 reads `name`, which only line 39 assigns, and only for a row without an id. If no earlier row has assigned it, the read raises UnboundLocalError. | a roster whose first row has `dblp_id` "1/1" and no `dblp_name` | complete that row from the author record | high, not executed | MatchDblp.UpdateRowsAsWritten, MatchDblp.FirstPreResolvedRowRaises | MatchDblp.ProcessRow, MatchDblp.UpdateCsvWithDblp |
