# Reporter scripts of metadata-health-data-science, modelled in Dafny

This project models the data-processing core of the "reporter" scripts of the
NIH-GREI metadata-health-data-science repository, with proofs of the
properties that core promises. The scripts link NIH RePORTER publication
records to DataCite DOIs and tabulate them. Four pieces are modelled:

- **DOI exact matching** (`find_overlapping_reporter_datacite_dois.py`):
  - `load_mappings` keeps the DOI rows of the mapping table (module `Mappings`).
  - `build_aho_corasick_automaton` builds the pattern table, keyed by the trimmed DOI (module `PatternTable`). The automaton itself is modelled as a finite map from pattern to `(doi, row)`, with a reference enumeration of all occurrences (module `PatternAutomaton`).
  - `iter_datacite_records` is the chunked line splitter with a carry-over buffer (module `RecordDecoder`).
  - `find_matches_in_record` turns automaton hits that span a whole field into match events (module `MatchExtractor`).
- **Activity-code grouping** (`count_split_by_activity_codes.py`): works are grouped by the first letter and the first three characters of the project number, and a sorted statistics table is built (module `ActivityCodes`).
- **PubMed identifier extraction** (`parse_article_ids_from_pubmed_files.py`): `is_in_reference` and `extract_ids_from_pubmed_article` over an XML element tree (module `PubmedIds`). Nodes are addressed by paths of child indices.
- **Left join** (`merge_reporter_data_w_article_ids.py`): `read_csv_file_2` groups the identifier rows by PMID and `reconcile_data` joins the reporter rows against that grouping (module `ArticleMerge`).

Shared modules:

- `Wrappers` holds `Option` and `Result`.
- `Text` holds Python's `str.strip`, `bytes.strip` and `str.lower`, and the code-point order that `sorted` uses on `str`.
- `Grouping` models two idioms for grouping rows into lists: `d = defaultdict(list)` then `d[k].append(v)`, and `if k not in d: d[k] = []` then `d[k].append(v)`. A Python dict keeps first-insertion order, so it is modelled as an association list with distinct keys.

Source paths below are relative to the repository root.

## Model

| member | source | states |
|---|---|---|
| Text.LowerIsDoi | reporter/find_overlapping_reporter_datacite_dois/find_overlapping_reporter_datacite_dois.py:38 | a string lower-cases to `doi` exactly when it spells d, o, i in either case |
| Text.TrimStartTextSpec | reporter/find_overlapping_reporter_datacite_dois/find_overlapping_reporter_datacite_dois.py:51 | stripping the front leaves a suffix that does not start with whitespace, and only whitespace is removed |
| Text.TrimEndTextSpec | reporter/find_overlapping_reporter_datacite_dois/find_overlapping_reporter_datacite_dois.py:51 | stripping the end leaves a prefix that does not end with whitespace, and only whitespace is removed |
| Text.StripTextSpec | reporter/find_overlapping_reporter_datacite_dois/find_overlapping_reporter_datacite_dois.py:51-53 | a string strips to empty exactly when it is all whitespace; otherwise the result has no whitespace at either end |
| Text.StripTextIdempotent | reporter/find_overlapping_reporter_datacite_dois/find_overlapping_reporter_datacite_dois.py:116 | stripping an already stripped value, as the scan does to a stored DOI, changes nothing |
| Text.LexTransitive | reporter/count_split_by_activity_codes/count_split_by_activity_codes.py:73 | Python's string `<` is transitive |
| Text.LexTotal | reporter/count_split_by_activity_codes/count_split_by_activity_codes.py:73 | any two distinct strings are ordered one way or the other |
| Text.LexLeqTransitive | reporter/count_split_by_activity_codes/count_split_by_activity_codes.py:82 | string `<=` is transitive |
| Text.LexNotLess | reporter/count_split_by_activity_codes/count_split_by_activity_codes.py:82 | `not a < b` implies `b <= a` |
| Grouping.FindIndex | reporter/merge_reporter_data_w_article_ids/merge_reporter_data_w_article_ids.py:28 | with distinct keys, a lookup succeeds exactly when an entry has the key, and returns that entry's list |
| Grouping.AddTo | reporter/merge_reporter_data_w_article_ids/merge_reporter_data_w_article_ids.py:28-30 | appending under a key extends that key's list by the value, or adds a one-element group at the end when the key is new; every other key keeps its list and every existing group keeps its position; keys stay distinct and groups non-empty |
| Grouping.GroupBy | reporter/count_split_by_activity_codes/count_split_by_activity_codes.py:58-66 | keys are distinct and groups non-empty; each key's group is exactly the items with that key, in input order; items without a key are in no group |
| Grouping.LastIndex | reporter/find_overlapping_reporter_datacite_dois/find_overlapping_reporter_datacite_dois.py:54 | the index of the last item with a key (or -1), no later item having it |
| Mappings.LoadMappings | reporter/find_overlapping_reporter_datacite_dois/find_overlapping_reporter_datacite_dois.py:37-39 | the filter never yields more rows than it reads |
| Mappings.LoadMappingsSpec | reporter/find_overlapping_reporter_datacite_dois/find_overlapping_reporter_datacite_dois.py:37-39 | every kept row is a DOI row of the input with a non-empty type, and every DOI row of the input is kept |
| Mappings.LoadMappingsAppend | reporter/find_overlapping_reporter_datacite_dois/find_overlapping_reporter_datacite_dois.py:37-39 | the filter distributes over concatenation, so kept rows stay in input order |
| Mappings.DoiRowSpelling | reporter/find_overlapping_reporter_datacite_dois/find_overlapping_reporter_datacite_dois.py:38 | a row counts as a DOI row exactly when its type is present and, once trimmed, spells d, o, i in either case |
| Mappings.LoadMappingsSingle | reporter/find_overlapping_reporter_datacite_dois/find_overlapping_reporter_datacite_dois.py:38 | a single row is kept exactly when its type, trimmed and lower-cased, reads `doi` |
| PatternAutomaton.HitsEndingAtSpec | reporter/find_overlapping_reporter_datacite_dois/find_overlapping_reporter_datacite_dois.py:101 | the hits ending at one index are exactly the stored patterns occurring there |
| PatternAutomaton.IterFromSpec | reporter/find_overlapping_reporter_datacite_dois/find_overlapping_reporter_datacite_dois.py:101 | the hits from an index on are real occurrences of stored patterns, and every occurrence ending at that index or later is among them |
| PatternAutomaton.Iter | reporter/find_overlapping_reporter_datacite_dois/find_overlapping_reporter_datacite_dois.py:119 | `automaton.iter(t)` reports only real occurrences of stored patterns and every such occurrence, with the stored value |
| PatternAutomaton.FullSpanAppend | reporter/find_overlapping_reporter_datacite_dois/find_overlapping_reporter_datacite_dois.py:102-103 | the full-span filter distributes over concatenated hit lists |
| PatternAutomaton.FullSpanNone | reporter/find_overlapping_reporter_datacite_dois/find_overlapping_reporter_datacite_dois.py:120-121 | hits that do not span the whole text are all dropped |
| PatternAutomaton.NoFullSpanBeforeEnd | reporter/find_overlapping_reporter_datacite_dois/find_overlapping_reporter_datacite_dois.py:102-103 | no hit ending before the last index of the text passes the filter |
| PatternAutomaton.FullSpanOnlyLastEnd | reporter/find_overlapping_reporter_datacite_dois/find_overlapping_reporter_datacite_dois.py:102-103 | only hits ending at the last index can pass the filter |
| PatternAutomaton.FullSpanIsExactMatch | reporter/find_overlapping_reporter_datacite_dois/find_overlapping_reporter_datacite_dois.py:101-103 | of all occurrences, the full-span test keeps the stored value of the text itself if it is a key and nothing else; a stored strict prefix, suffix or infix never passes |
| PatternAutomaton.FieldMatches | reporter/find_overlapping_reporter_datacite_dois/find_overlapping_reporter_datacite_dois.py:119-121 | a scanned field yields one entry exactly when it equals a stored DOI, else none |
| PatternTable.TrimmedDoi | reporter/find_overlapping_reporter_datacite_dois/find_overlapping_reporter_datacite_dois.py:49-53 | a row contributes a pattern only if it is non-empty |
| PatternTable.InsertAll | reporter/find_overlapping_reporter_datacite_dois/find_overlapping_reporter_datacite_dois.py:48-55 | the inserted table maps each pattern to an entry carrying that same DOI |
| PatternTable.InsertAllKeepsLastRows | reporter/find_overlapping_reporter_datacite_dois/find_overlapping_reporter_datacite_dois.py:48-55 | after all inserts, a DOI is a key exactly when some row contributes it, and its value holds the last such row |
| PatternTable.EmptyIffNoDois | reporter/find_overlapping_reporter_datacite_dois/find_overlapping_reporter_datacite_dois.py:56-57 | the table is empty exactly when no row contributes a DOI |
| PatternTable.BuildAutomaton | reporter/find_overlapping_reporter_datacite_dois/find_overlapping_reporter_datacite_dois.py:43-61 | fails with "no valid DOIs" exactly when no row has a non-empty trimmed `mapped_id`; otherwise the keys are the contributed DOIs and each value holds the last row for its DOI |
| RecordDecoder.Split | reporter/find_overlapping_reporter_datacite_dois/find_overlapping_reporter_datacite_dois.py:74 | splitting always gives at least one piece, even for empty input |
| RecordDecoder.SplitSpec | reporter/find_overlapping_reporter_datacite_dois/find_overlapping_reporter_datacite_dois.py:74 | no piece contains the separator, and joining the pieces with it gives back the input |
| RecordDecoder.SplitJoin | reporter/find_overlapping_reporter_datacite_dois/find_overlapping_reporter_datacite_dois.py:74 | splitting the join of separator-free pieces gives the pieces back |
| RecordDecoder.SplitAppend | reporter/find_overlapping_reporter_datacite_dois/find_overlapping_reporter_datacite_dois.py:72-75 | splitting `x + y` gives the complete pieces of `x`, then the split of `x`'s unterminated tail followed by `y` |
| RecordDecoder.ChunkStep | reporter/find_overlapping_reporter_datacite_dois/find_overlapping_reporter_datacite_dois.py:72-75 | feeding a chunk to the carry-over buffer completes exactly the lines that splitting the longer prefix completes, and leaves the same tail |
| RecordDecoder.DecodeLinesAppend | reporter/find_overlapping_reporter_datacite_dois/find_overlapping_reporter_datacite_dois.py:77-84 | records are produced line by line, in line order |
| RecordDecoder.MalformedLineSkipped | reporter/find_overlapping_reporter_datacite_dois/find_overlapping_reporter_datacite_dois.py:81-84 | a line that fails to parse adds no record, and the lines after it are still decoded |
| RecordDecoder.DecodeCompleteLines | reporter/find_overlapping_reporter_datacite_dois/find_overlapping_reporter_datacite_dois.py:77-84 | the loop over the completed lines yields their records in order |
| RecordDecoder.FeedChunk | reporter/find_overlapping_reporter_datacite_dois/find_overlapping_reporter_datacite_dois.py:72-84 | one chunk read decodes every line the buffer completes and keeps a newline-free tail |
| RecordDecoder.FinalLine | reporter/find_overlapping_reporter_datacite_dois/find_overlapping_reporter_datacite_dois.py:85-89 | at a normal end, the leftover buffer is decoded as the last line |
| RecordDecoder.DecodeRecords | reporter/find_overlapping_reporter_datacite_dois/find_overlapping_reporter_datacite_dois.py:64-91 | the records are those of the `\n`-separated lines of the whole decompressed stream, whatever the chunking; blank and malformed lines are skipped; after a read error only the newline-terminated lines count |
| MatchExtractor.ScanField | reporter/find_overlapping_reporter_datacite_dois/find_overlapping_reporter_datacite_dois.py:119-130 | one event for a field equal to a stored DOI, carrying that entry's provenance, else none |
| MatchExtractor.RelatedEvents | reporter/find_overlapping_reporter_datacite_dois/find_overlapping_reporter_datacite_dois.py:114-130 | there is one event per related identifier whose trimmed value is a stored DOI |
| MatchExtractor.RelatedEventsSound | reporter/find_overlapping_reporter_datacite_dois/find_overlapping_reporter_datacite_dois.py:114-130 | every related event names the record's DOI and carries the provenance of the stored entry it matched |
| MatchExtractor.RelatedEventsComplete | reporter/find_overlapping_reporter_datacite_dois/find_overlapping_reporter_datacite_dois.py:115-130 | every related identifier whose trimmed value is stored has its event, with its relation and resource type defaulting to "" |
| MatchExtractor.FindMatches | reporter/find_overlapping_reporter_datacite_dois/find_overlapping_reporter_datacite_dois.py:94-132 | a record that is not findable, including one without attributes, gives nothing; otherwise the event count is one for a stored own DOI plus one per stored related identifier; every event names the record's DOI and carries the matched entry's PMID, project number and type |
| MatchExtractor.SameEventFirst | reporter/find_overlapping_reporter_datacite_dois/find_overlapping_reporter_datacite_dois.py:99-113 | a stored own DOI gives the first event, with relation `Same` and the record's resource type (default ""); an empty, absent or unknown DOI gives no `Same` event; related events follow |
| MatchExtractor.RelatedEventsAppend | reporter/find_overlapping_reporter_datacite_dois/find_overlapping_reporter_datacite_dois.py:115-130 | related identifiers are scanned in list order |
| MatchExtractor.StoredDoiFoundAgain | reporter/find_overlapping_reporter_datacite_dois/find_overlapping_reporter_datacite_dois.py:114-116 | a related identifier whose value is a DOI exactly as the builder stored it (trimmed) reads back as that DOI and is a stored key |
| MatchExtractor.RelatedEventSingle | reporter/find_overlapping_reporter_datacite_dois/find_overlapping_reporter_datacite_dois.py:116-121 | a related identifier matches exactly when its value, trimmed, is a stored DOI |
| ActivityCodes.ExtractActivityCodes | reporter/count_split_by_activity_codes/count_split_by_activity_codes.py:57-67 | both tables have distinct keys and non-empty groups; each letter or code group is exactly the works with that key, in input order |
| ActivityCodes.ShortProjectNumberDropped | reporter/count_split_by_activity_codes/count_split_by_activity_codes.py:62 | a work whose project number has fewer than three characters is in no group |
| ActivityCodes.SelectMultiplicity | reporter/count_split_by_activity_codes/count_split_by_activity_codes.py:60-66 | a group holds each work with its key as often as the input does, and no other work |
| ActivityCodes.SumWhereAddTo | reporter/count_split_by_activity_codes/count_split_by_activity_codes.py:66 | appending a work to a code group adds one to the total of the code's letter |
| ActivityCodes.LetterCountIsSumOfCodeCounts | reporter/count_split_by_activity_codes/count_split_by_activity_codes.py:63-66 | a letter's count equals the summed sizes of the code groups whose code starts with it |
| ActivityCodes.LetterGroupIsSumOfCodeGroups | reporter/count_split_by_activity_codes/count_split_by_activity_codes.py:63-66 | the same, over the two tables as returned |
| ActivityCodes.InsertSorted | reporter/count_split_by_activity_codes/count_split_by_activity_codes.py:73 | inserting into a sorted list keeps it sorted |
| ActivityCodes.InsertMultiset | reporter/count_split_by_activity_codes/count_split_by_activity_codes.py:73 | insertion adds exactly the one entry |
| ActivityCodes.SortByKey | reporter/count_split_by_activity_codes/count_split_by_activity_codes.py:82 | `sorted(d.items())` is ascending by key in Python's string order and a permutation of the entries |
| ActivityCodes.LetterBlock | reporter/count_split_by_activity_codes/count_split_by_activity_codes.py:73-81 | one row per letter group, ascending, each counting its group |
| ActivityCodes.CodeBlock | reporter/count_split_by_activity_codes/count_split_by_activity_codes.py:82-95 | one row per code group, ascending, each counting its group and labelled from the program data |
| ActivityCodes.GenerateStatistics | reporter/count_split_by_activity_codes/count_split_by_activity_codes.py:70-96 | the row count is letters plus codes; letter rows come first and code rows after, each block ascending; every group has its row with its size, and every row comes from a group |
| ActivityCodes.StatRowLabels | reporter/count_split_by_activity_codes/count_split_by_activity_codes.py:74-94 | a listed code copies title, category and description; an unlisted one gets "Unknown Program", "Unknown" and the default description; letter rows read "Multiple" and `All {L} Programs` |
| PubmedIds.NodeAppend | reporter/parse_article_ids_from_pubmed_files/parse_article_ids_from_pubmed_files.py:41 | a path below the article, followed from the article, leads to the same node as the joined path from the document root |
| PubmedIds.IsInReference | reporter/parse_article_ids_from_pubmed_files/parse_article_ids_from_pubmed_files.py:24-31 | true exactly when some strict ancestor in the document has tag `Reference`; the element's own tag is not considered |
| PubmedIds.Under | reporter/parse_article_ids_from_pubmed_files/parse_article_ids_from_pubmed_files.py:41 | the paths below one child are exactly the paths starting at that child's index whose remainder is one of the given paths, one for each |
| PubmedIds.Subtree | reporter/parse_article_ids_from_pubmed_files/parse_article_ids_from_pubmed_files.py:41 | the traversal lists exactly the nodes of the subtree, the root first, in document order |
| PubmedIds.ChildSubtrees | reporter/parse_article_ids_from_pubmed_files/parse_article_ids_from_pubmed_files.py:41 | the subtrees of the children from one index on are listed completely and in document order |
| PubmedIds.Descendants | reporter/parse_article_ids_from_pubmed_files/parse_article_ids_from_pubmed_files.py:36 | `.//` searches exactly the proper descendants, in document order |
| PubmedIds.FirstTagged | reporter/parse_article_ids_from_pubmed_files/parse_article_ids_from_pubmed_files.py:36 | `find` returns the first path with the tag, none earlier having it, or none when no path has it |
| PubmedIds.PmidOf | reporter/parse_article_ids_from_pubmed_files/parse_article_ids_from_pubmed_files.py:36-39 | the PMID comes from the first `PMID` descendant: none if there is no such element or its text is missing or empty, else its stripped text |
| PubmedIds.IdRows | reporter/parse_article_ids_from_pubmed_files/parse_article_ids_from_pubmed_files.py:41-47 | every tuple carries the PMID and a non-empty id type other than `pubmed`, and every reported `ArticleId` yields its tuple |
| PubmedIds.IdRowsAppend | reporter/parse_article_ids_from_pubmed_files/parse_article_ids_from_pubmed_files.py:41-47 | tuples come out in the order of the paths |
| PubmedIds.IdRowsSound | reporter/parse_article_ids_from_pubmed_files/parse_article_ids_from_pubmed_files.py:42-47 | every tuple comes from a reported `ArticleId` |
| PubmedIds.ExtractIds | reporter/parse_article_ids_from_pubmed_files/parse_article_ids_from_pubmed_files.py:34-47 | nothing without a usable PMID; every tuple carries the article's PMID and a valid id type; every `ArticleId` below the article with no `Reference` ancestor and a valid type yields its tuple, with the trimmed text or "" as `mapped_id` |
| PubmedIds.ExtractIdsSound | reporter/parse_article_ids_from_pubmed_files/parse_article_ids_from_pubmed_files.py:41-47 | every tuple comes from an `ArticleId` below the article with no `Reference` ancestor |
| ArticleMerge.ReadFile2 | reporter/merge_reporter_data_w_article_ids/merge_reporter_data_w_article_ids.py:22-31 | each PMID of the second file has a non-empty group holding its pairs in file order, and no other PMID has a group |
| ArticleMerge.PairsForNonEmpty | reporter/merge_reporter_data_w_article_ids/merge_reporter_data_w_article_ids.py:27-30 | a PMID has pairs exactly when some row of the second file carries it |
| ArticleMerge.Expand | reporter/merge_reporter_data_w_article_ids/merge_reporter_data_w_article_ids.py:38-44 | a reporter row yields max(1, k) rows, all with its PMID and project number |
| ArticleMerge.ReconcileSound | reporter/merge_reporter_data_w_article_ids/merge_reporter_data_w_article_ids.py:34-45 | every output row carries the PMID and project number of some reporter row, so identifier rows of other PMIDs contribute nothing |
| ArticleMerge.ReconcileAppend | reporter/merge_reporter_data_w_article_ids/merge_reporter_data_w_article_ids.py:36-45 | output order follows the first file |
| ArticleMerge.ReconcileIsLeftJoin | reporter/merge_reporter_data_w_article_ids/merge_reporter_data_w_article_ids.py:34-45 | reconciling against the grouped second file equals the left join of the two files on the PMID |
| ArticleMerge.LeftJoinSize | reporter/merge_reporter_data_w_article_ids/merge_reporter_data_w_article_ids.py:36-44 | the output length is the sum over reporter rows of max(1, k) |
| ArticleMerge.SingleRowJoin | reporter/merge_reporter_data_w_article_ids/merge_reporter_data_w_article_ids.py:37-44 | a reporter row with k pairs gives exactly k rows in group order; one with none gives exactly the placeholder row |

## Left out

- Command-line parsing, file and directory I/O, the CSV readers and writers, `gzip.open`, `rglob`, logging and the `main` driver loops of all four scripts. These are I/O plumbing. The inputs are modelled as sequences of rows, byte chunks or an element tree.
- `load_program_data`, `load_funded_works`, `create_file_structure` and `write_entries_to_file` (count_split_by_activity_codes.py). They do CSV loading and the output directory layout. The program data is a map parameter of `GenerateStatistics`.
- The Aho-Corasick automaton of `pyahocorasick` (trie, failure links, `make_automaton`). Its source is not part of this model. It is stood in for by its contract: `add_word` overwrites, and `iter` reports every occurrence of a stored pattern, by end index, with the stored value.
- Gzip decompression and `orjson` decoding. The stream is given as its decompressed chunks, and the parser is a function parameter returning `None` on a decode error.
- Where a read error happens. Any exception while reading or decompressing is modelled as happening after the last complete chunk (the `fails` flag). The reader then drops its buffer and stops.
- JSON values of unexpected types. A record is modelled with only the fields it reads, each a string, an object or absent. In the source `main` calls `find_matches_in_record` without a `try` (line 163), so each of the following raises and aborts the whole run rather than skipping the record; the model has no such records: a line that decodes to something other than an object (`record.get`, line 96); `attributes` null or not an object (lines 96-97); a truthy `doi` that is not a string (`automaton.iter`, line 101); `resourceType` null or not an object once the record's own DOI matches (line 111); a truthy `relatedIdentifiers` that is not a list, or an entry of it that is not an object (lines 114-116).
- A `relatedIdentifier` that is null or not a string: `str()` turns it into text such as `"None"`, which is then scanned (line 116). The model reads only string values, and a missing one as `""`. An explicit null `doi`, `relationType` or `resourceTypeGeneral` is written by the CSV writer as an empty field, the same as the `""` default the model uses.
- The unmatched branch of `reconcile_data` (merge_reporter_data_w_article_ids.py:44) does not parse as written. Its two identifier values are kept abstract as the `placeholder` parameter.
- Text.Lower: lower-cases ASCII letters only; Python's full Unicode case mapping is not modelled. This is exact for the comparison with `doi`, but a non-ASCII `IdType` would be lower-cased differently.
- `is_in_reference` runs on the tree lxml's `iterparse` has built so far, and earlier articles are cleared from it (parse_article_ids_from_pubmed_files.py:52-71). The model takes the whole document tree. Clearing earlier siblings removes no ancestor of the current article.
- The `try`/`except` of `extract_ids_from_pubmed_article` (lines 48-49). Nothing in the modelled body raises.
- The multiprocessing pool, temporary files and the final merge of `parse_article_ids_from_pubmed_files.py`, which are concurrency and I/O.
- `get_relationship_type_counts.py` and `zenodo-cff/create_zenodo_deposit_from_cff.py` are not part of this model. The first is a thin pandas wrapper; the second does network calls through stub functions.
- Missing CSV columns that would raise `KeyError` (`project_number`, `PMID`, `pmid`). Rows carry those fields by construction.
- CSV rows shorter than their header. `csv.DictReader` fills the missing fields with `None`, but the model's rows hold strings, so such rows are excluded. In count_split_by_activity_codes.py, a funded work without its `project_number` reaches `len(project_num)` with `None` (line 62). The resulting `TypeError` is caught in `main` (lines 155-157), which prints an error and returns 1, so the whole run fails. A short program-data row stores `None` as its category, title or description (lines 34-38). In merge_reporter_data_w_article_ids.py a short row gives a `None` key (lines 27 and 37), and such rows group and join under that `None` key like any other.
