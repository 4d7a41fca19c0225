# ImmuneMetAtlas text mining and HMDB preprocessing, in Dafny

This project models the two pure cores of the ImmuneMetAtlas pipeline. It
states their behaviour as contracts and proves them.

**Co-occurrence mining (`inst/Python/Textmining.py`).**
- The Europe PMC query URL (`query_builder`).
- The cursor-pagination loop of `search`. The server is a sequence of page
  outcomes, one per request; its length is the loop's fuel.
- `search_all` as a sequential fold over the submitted searches.
- `can_be_found`.
- The QuickGO client `EBI`: `get_descendants`, `get_go_names` and
  `get_ancestors`, with their batches of 50 ids. The service is a function
  parameter.
- The cross join `find_overlap`.
- The ancestor fan-out `get_expanded_df`.

**HMDB preprocessing (`inst/Python/Preprocessing_hmdb.py`).**
- The line pattern and output files set up by `set_variables` and
  `set_files`.
- The row format of `write`, with a reader that proves the round trip.
- The line chunker `chunk`.
- The drug test `is_drug` and the record filter of `parse_hmdb`.
- `process_metabolite`: single rows, repeated children, the ChEBI pair and
  pathway pairing.
- The `parse_hmdb` loop over the parsed records.

**How Python is rendered.**
- A Python exception becomes `Wrappers.Result` with an `Exception` value:
  `KeyError(key)`, `IndexError`, `TypeError`, `AttributeError`,
  `RequestFailed`, `RuntimeError` or `UnboundLocalError`.
- An output file is its text so far.
- An ElementTree record is a `HmdbRecords.Record`: its direct children, and
  the descendants of its `pathway` elements in document order.
- Python set iteration order is modelled as first-occurrence order, or
  left free where a contract states only membership. One result depends on
  it: `is_drug` joins the set of terms before an order-sensitive regular
  expression search (see "## Left out").

Modules and files:
- `wrappers.dfy` (`Option`, `Result`, `Exception`)
- `strings.dfy` (join, split, substring, replace)
- `seqs.dfy` (flatten, dedup, zip to a map)
- `query.dfy`, `pagination.dfy`, `dispatch.dfy`, `overlap.dfy`,
  `batching.dfy`, `ontology.dfy`, `expansion.dfy` (Textmining.py)
- `hmdb_config.dfy`, `chunker.dfy`, `hmdb_records.dfy` (Preprocessing_hmdb.py)

## Model

| member | source | states |
|---|---|---|
| Query.FieldDisjunctionIsJoin | inst/Python/Textmining.py:44 | The field part of the query is the OR-join of six clauses `FIELD:"term"`, one per full-text field ABSTRACT, RESULTS, METHODS, TABLE, SUPPL, FIG, in that order |
| Query.QueryNamesEveryField | inst/Python/Textmining.py:42-47 | Every URL contains `FIELD:"term"` for each of the six full-text fields, whatever the category and cursor |
| Query.QueryScopedByCategory | inst/Python/Textmining.py:36-45 | After the field clauses comes the scope: `CHEBITERM:"t"` for Metabolite, `GOTERM:"t"` for GO, the bare term for any other category. The article, source and organism restrictions follow it |
| Query.QueryFixedParameters | inst/Python/Textmining.py:46-47 | Every URL asks for synonyms, an id list and pages of 1000, and ends with the cursor followed by `&format=json` |
| Query.QueryCursorInjective | inst/Python/Textmining.py:46-47 | Two URLs for the same term and category are equal only when their cursors are equal: the cursor can be read back |
| Pagination.PaginateFrom | inst/Python/Textmining.py:69-80 | From any request number, the loop's cursors, ids and stopping point agree with the request-indexed reference definitions |
| Pagination.SearchSpec | inst/Python/Textmining.py:69-80 | `search` requests until the first parsed page with no hits or with the cursor just used. The ids are the in-order concatenation of every parsed page's ids, the final page included. It finishes iff such a page exists within the fuel |
| Pagination.RetryKeepsCursor | inst/Python/Textmining.py:72-82 | A failed request, or a page without `nextCursorMark`, is retried with the same cursor. Otherwise the next request uses the page's next cursor |
| Pagination.RetriedPageDuplicatesIds | inst/Python/Textmining.py:75-76 | Ids are appended before the cursor is read, so a page without `nextCursorMark` contributes its ids twice |
| Pagination.RepeatedCursorStops | inst/Python/Textmining.py:76-80 | A server that hands back the same cursor twice stops the loop at the second page, with both pages' ids |
| Dispatch.CollectFinishes | inst/Python/Textmining.py:100-108 | The fold returns iff every search finishes. `processed` then grows by the number of searches and `papers` by their final hitCounts |
| Dispatch.CollectKeys | inst/Python/Textmining.py:102-107 | The map's keys are exactly the terms whose search found at least one id |
| Dispatch.CollectValues | inst/Python/Textmining.py:102-107 | A term is mapped to the ids of its last occurrence that found ids |
| Dispatch.SearchAllSpec | inst/Python/Textmining.py:87-109 | `search_all` returns iff every search ends, giving the keys and values above. The object afterwards has the new category, `processed` and `total` equal to the term count, and `papers` equal to the sum of the final hitCounts |
| Dispatch.SearchAllDistinct | inst/Python/Textmining.py:102-107 | With distinct terms, a term is a key iff its search found ids, and it maps to exactly those ids |
| Dispatch.CountFoundSpec | inst/Python/Textmining.py:113 | The count succeeds iff every first request succeeds. It then equals the number of terms whose first page reports hits, and is at most the term count |
| Dispatch.CanBeFoundSpec | inst/Python/Textmining.py:111-113 | `can_be_found` sets the category and counts the terms with hits, failing when any request fails |
| Overlap.Shared | inst/Python/Textmining.py:210 | A paper is shared iff it is among the GO term's ids and among the metabolite's ids |
| Overlap.FindOverlap | inst/Python/Textmining.py:197-212 | A row (GO term, metabolite, paper), GO first, is emitted iff the paper is in both id lists. No row is emitted twice |
| Overlap.WorkedExample | inst/Python/Textmining.py:203-211 | A concrete pair of result maps gives exactly its three expected rows |
| Batching.Batches | inst/Python/Textmining.py:147-148 | The batches concatenate back to the id list. There are ceil(n/50) of them, and each holds 1 to 50 ids |
| Batching.BatchesAreSlices | inst/Python/Textmining.py:163-164 | Batch i is the slice starting at 50·i, and every batch but the last is full |
| Batching.HundredTwentyIds | inst/Python/Textmining.py:147-148 | 120 ids make three requests, of 50, 50 and 20 ids |
| Ontology.Descendants | inst/Python/Textmining.py:133-139 | The call succeeds iff the request answers a nonempty list; an empty list is IndexError. The result's elements are the first record's descendants plus the id itself, the id last, and the descendants part has no duplicates |
| Ontology.FetchSpec | inst/Python/Textmining.py:147-149 | The batched lookup succeeds iff every batch request does. It then returns every batch's answer, concatenated in batch order, so a record is returned iff some batch's answer holds it |
| Ontology.GoNamesSpec | inst/Python/Textmining.py:141-151 | It fails iff one of the ceil(n/50) batch requests fails. The map's keys are exactly the names of the records returned, and a name's id is that of its last record |
| Ontology.GoNamesAnswered | inst/Python/Textmining.py:146-150 | The map's keys are exactly the names of the records that some batch request answered |
| Ontology.CatalogueMaps | inst/Python/Textmining.py:160-161 | `id_names` has exactly the first len(names) ids as keys, and `names_id` has exactly the names. On a duplicate entry the later one wins |
| Ontology.Resolve | inst/Python/Textmining.py:162 | Resolution succeeds iff every searched name is in the catalogue, giving each name's id in order. Otherwise it raises KeyError on a missing name |
| Ontology.Kept | inst/Python/Textmining.py:167 | It succeeds iff every allowed ancestor has a name; otherwise it is KeyError on an allowed ancestor without one. Every kept element is the name of an allowed ancestor, and every allowed ancestor's name is kept |
| Ontology.ChainsContent | inst/Python/Textmining.py:165-167 | Storing one answer succeeds iff every record's id, and every allowed ancestor of it, has a catalogue name; otherwise it is KeyError. The keys are then the old keys plus the names of the records' ids. A name maps to the allowed ancestors' names of its last record, in answer order, followed by the name. Keys no record names keep their chains |
| Ontology.WalkChains | inst/Python/Textmining.py:163-167 | When every request answers, the request loop equals storing all answered records, concatenated in batch order. When a request fails, the loop fails |
| Ontology.AncestorsContent | inst/Python/Textmining.py:153-168 | `get_ancestors` succeeds iff the catalogue has an id per name, the searched names' ids are all answered, and every answered record can be stored. The result maps the name of each answered record's id, and nothing else, to its allowed ancestors' names in answer order, followed by the name. The last record answered for a name wins |
| Ontology.AncestorsErrors | inst/Python/Textmining.py:160-162 | A catalogue with fewer ids than names raises IndexError. A searched name missing from the catalogue raises KeyError on a name in the search list that is absent from the catalogue |
| Ontology.AncestorsChains | inst/Python/Textmining.py:160-167 | Over the catalogue: every key is a catalogue name. Every chain is nonempty, ends with its key and consists of catalogue names, each element but the last being the name of a catalogue id |
| Expansion.ExpandRowsSpec | inst/Python/Textmining.py:190-193 | With tab-free chains the expansion succeeds iff every GO term has a chain (KeyError otherwise), and equals the block-by-block reference expansion |
| Expansion.ReferenceRows | inst/Python/Textmining.py:193 | Every expanded row keeps an input row's metabolite and paper with a term of that row's chain. Every chain term appears with its row's metabolite and paper |
| Expansion.ExpandedRows | inst/Python/Textmining.py:190-194 | Over chains of tab-free catalogue names ending with their key, every input row survives unchanged and every output term is a catalogue name |
| Expansion.ExpandSpec | inst/Python/Textmining.py:181-195 | When catalogue names hold no tab, a successful `get_expanded_df` is the reference expansion over the ancestor chains. Each input row, in order, becomes one row per element of its GO term's chain, with metabolite and paper unchanged. So the original GO term is among them and every term is a catalogue name |
| Expansion.TabInNameSplits | inst/Python/Textmining.py:190-193 | A catalogue name containing a tab is split apart, giving more rows than the chain has entries |
| HmdbConfig.LineRoundTrip | inst/Python/Preprocessing_hmdb.py:64 | A row written from values without double quotes reads back as exactly those values |
| HmdbConfig.EmbeddedQuoteBreaksRow | inst/Python/Preprocessing_hmdb.py:64 | Quotes are not escaped: a value holding a double quote does not read back |
| HmdbConfig.WriteSpec | inst/Python/Preprocessing_hmdb.py:60-64 | `write` succeeds iff the field has a file and no value is None; a missing file is KeyError. Only that file changes: it keeps its text and gains one row. When the values are nonempty and hold no double quote, that row reads back as the values |
| HmdbConfig.SetFilesSpec | inst/Python/Preprocessing_hmdb.py:33-41 | Files are opened for exactly the fields not excluded, each holding only the header row `ID,<field>`. A file already open for such a field is replaced by a header-only file. Files of other fields are left alone |
| HmdbConfig.SetFilesKeys | inst/Python/Preprocessing_hmdb.py:38-41 | The set of open files is the old set plus the fields not excluded |
| HmdbConfig.PatternSpec | inst/Python/Preprocessing_hmdb.py:27-30 | The chunk tags are `<tag` and `</tag`. The pattern is `(` + the `\|`-join of the two tags and every `field>` + `)`; with no fields it ends in an empty branch |
| HmdbConfig.PatternBranches | inst/Python/Preprocessing_hmdb.py:29-30 | When no name holds `\|`, splitting the pattern's inside on `\|` gives back exactly the branches |
| HmdbConfig.PatternMatchesClosingLines | inst/Python/Preprocessing_hmdb.py:27-30 | Read as a search for its branches, the pattern matches every line holding the closing tag. This is the assumption about closing-tag lines that the chunker's shape property needs |
| HmdbConfig.PatternGroupsWellFormed | inst/Python/Preprocessing_hmdb.py:26-57 | Chunking a file of two or more lines with the pattern and closing tag of `set_variables` succeeds. Every group ends with its only closing-tag line and holds only lines the pattern matches |
| Chunker.UntilEmptySpec | inst/Python/Preprocessing_hmdb.py:52-58 | The lines read form a prefix of the file with no empty line, ended by the end of the file or an empty line |
| Chunker.GroupCount | inst/Python/Preprocessing_hmdb.py:53-57 | One group is emitted per closing-tag line |
| Chunker.GroupContents | inst/Python/Preprocessing_hmdb.py:53-57 | The groups concatenated are the buffer followed by the matching lines up to the last closing-tag line. Later lines are never emitted |
| Chunker.GroupShape | inst/Python/Preprocessing_hmdb.py:53-57 | When closing-tag lines match, each group ends with its own closing-tag line, holds no other one, and holds only matching lines |
| Chunker.ChunkSpec | inst/Python/Preprocessing_hmdb.py:44-58 | A file of fewer than two lines is RuntimeError. Otherwise, over the lines after the first two, the count, contents and shape above hold |
| Chunker.UnmatchedClosingLine | inst/Python/Preprocessing_hmdb.py:54-56 | A closing-tag line that does not match still ends its group, but is not in it |
| HmdbRecords.IsDrugSpec | inst/Python/Preprocessing_hmdb.py:83-93 | `is_drug` holds iff none of its three tests raises and at least one holds |
| HmdbRecords.MissingIupacHidesDrugTag | inst/Python/Preprocessing_hmdb.py:85-93 | The tests are built eagerly, so a `Drug`-tagged record with no IUPAC name is not a drug |
| HmdbRecords.SelectedSpec | inst/Python/Preprocessing_hmdb.py:113-115 | A record is processed iff it has a biological role or natural process term and kingdom "Organic compounds", and either one of the drug tests raises or all three fail |
| HmdbRecords.PathwayNamesSpec | inst/Python/Preprocessing_hmdb.py:140-143 | A pathway name is written iff the element right after it is a `kegg_map_id` with text. There are at most half as many names as elements |
| HmdbRecords.WriteEachSpec | inst/Python/Preprocessing_hmdb.py:133-134 | The writes of one tag succeed iff there is nothing to write, or the file exists and the accession and every value are present. Only that file grows, by one row per value |
| HmdbRecords.WriteTagsSpec | inst/Python/Preprocessing_hmdb.py:132-134 | Each repeated tag's file gains one row per child with that tag, in order; other files are unchanged |
| HmdbRecords.NameRowRoundTrip | inst/Python/Preprocessing_hmdb.py:128 | Double quotes in a name become single quotes, and nothing else changes. With a quote-free accession the name row reads back as accession and cleaned name |
| HmdbRecords.WriteSinglesSpec | inst/Python/Preprocessing_hmdb.py:126-130 | The name, class and super_class rows succeed iff the accession is present and the three files exist. Each file gains its row and nothing else changes |
| HmdbRecords.PathwayStep | inst/Python/Preprocessing_hmdb.py:140-143 | The pathway file gains one row per paired name; every other file is unchanged |
| HmdbRecords.WriteRestSpec | inst/Python/Preprocessing_hmdb.py:132-143 | The repeated-tag rows, the ChEBI pair (`CHEBI:` + id, only when `chebi_id` is present) and the pathway rows are appended. Success requires every value to be present |
| HmdbRecords.ProcessOutcome | inst/Python/Preprocessing_hmdb.py:122-144 | A record without a name is AttributeError. A successful call returns 1 for a complete record. With every file open, a complete record always succeeds |
| HmdbRecords.ProcessEffect | inst/Python/Preprocessing_hmdb.py:122-144 | A successful call appends to every file exactly that record's rows for its field, and appends the ChEBI pair. Nothing else changes |
| HmdbRecords.ProcessUpToOutcome | inst/Python/Preprocessing_hmdb.py:112-116 | With every written field open, the loop succeeds iff every kept record is complete. It counts exactly the kept records and keeps the set of files |
| HmdbRecords.ProcessUpToFile | inst/Python/Preprocessing_hmdb.py:112-116 | After the loop, each file holds its old text followed by the rows of the kept records, in record order |
| HmdbRecords.ProcessUpToEffect | inst/Python/Preprocessing_hmdb.py:112-116 | The loop appends the kept records' ChEBI pairs in order. It changes neither the set of files nor the tags and pattern |
| HmdbRecords.ProcessUpToOutput | inst/Python/Preprocessing_hmdb.py:112-116 | A successful loop gives every file its old text followed by the kept records' rows, and appends their ChEBI pairs |
| HmdbRecords.HeaderedOutput | inst/Python/Preprocessing_hmdb.py:112-116 | Starting from header-only files and an empty mapping, each file ends as its header followed by the kept records' rows |
| HmdbRecords.FieldsNotExcluded | inst/Python/Preprocessing_hmdb.py:107-110 | The fields read and not excluded are accession, uniprot_id, class, super_class, biospecimen, cellular, name, pathway and kingdom |
| HmdbRecords.HmdbFileKeys | inst/Python/Preprocessing_hmdb.py:106-110 | `parse_hmdb` opens files for exactly those nine fields |
| HmdbRecords.HmdbWritable | inst/Python/Preprocessing_hmdb.py:106-110 | Every field `process_metabolite` writes to has a file |
| HmdbRecords.HmdbHeaders | inst/Python/Preprocessing_hmdb.py:106-110 | Each file opened holds only its header row |
| HmdbRecords.SelectionOutcome | inst/Python/Preprocessing_hmdb.py:112-116 | With the line-115 filter, the loop succeeds iff every selected record is complete. It counts exactly the selected records |
| HmdbRecords.ParseHmdbOutcome | inst/Python/Preprocessing_hmdb.py:96-119 | `parse_hmdb` succeeds iff the file has a record and every selected record is complete. With no record, the final log message raises UnboundLocalError because `n` was never bound. The count is the number of selected records |
| HmdbRecords.ParseHmdbOutput | inst/Python/Preprocessing_hmdb.py:96-119 | After `parse_hmdb` every file is its header row followed by the selected records' rows in file order, and the mapping holds their ChEBI pairs |

## Left out

- HTTP requests and JSON decoding (`request_query`, `get_request`, the HMDB zip download) are foreign calls. Server answers are parameters: a sequence of page outcomes for Europe PMC, a function for QuickGO.
- The thread pool, tqdm progress bars and progress printing are concurrency and UI. `search_all` is a fold in submission order, and the unsynchronised `+=` on the counters from worker threads is not modelled.
- pandas is not modelled: CSV reading, the data frames of `find_overlap` and `get_expanded_df`, `get_chebi_mapping` with its `drop_duplicates`, and `write_counts`. Tables are sequences of rows.
- yaml configuration, directory creation, `main`, the `pip` auto-installer and the string-literal bacteria block at the end of Textmining.py are I/O plumbing or dead code.
- ElementTree parsing of a chunk, `findtext` and `findall` are library calls. A parsed record is a `Record` given as input, and `ParseHmdb` takes the records in file order rather than parsing the groups `Chunk` emits.
- The regular-expression engine is a parameter: `matches` for line matching in `chunk`, and `RegexSearch` for the pathway test of `is_drug`, where `None` stands for an invalid pattern.
- HmdbConfig.PatternMatcher: reads the `set_variables` pattern as a search for any branch as a literal substring. This is exact only when the chunk tag and field names hold no regular-expression metacharacter and there is at least one field, as for the literals of `parse_hmdb`. With no field, the pattern `(<tag|</tag|)` ends in an empty branch that matches every line, and `Branches` omits that branch.
- HmdbRecords.TermSubject: joins the set of terms in first-occurrence order, one of the orders Python may use. The third test of `is_drug` searches the joined text with an order-sensitive pattern, name or IUPAC name first and then `action`/`metabolism pathway`. Another iteration order can change `IsDrug` and `RegexTest`: take a record named "glucose" whose IUPAC name occurs in neither of its terms {"glucose", "insulin action pathway"}. Those terms match in one order and not in the other.
- HmdbRecords.Lower: `str.lower()` is modelled for ASCII letters only.
- Opening, flushing and closing files: a file is its text. The header row of `set_files` is the row `write` would give.
- HmdbRecords.ProcessUpTo: when `process_metabolite` raises partway, the rows already written before the exception are not kept, since the model returns only the error.
- Logging is not modelled. The one exception is the final message of `parse_hmdb`, whose unbound `n` raises on a file without records. Its count is the last chunk index `n`, not the number of chunks.
- HmdbRecords.ParseHmdb: on a file without records, the files hold their header rows when the final message raises. The model returns only the error, so it does not keep those files.
- Pagination.Search: the source retries a failing request forever. The model bounds the loop by the number of outcomes supplied and reports `OutOfFuel` when they run out.
- Python's set iteration order (`get_descendants`, `get_ancestors`, `find_overlap`) is not modelled exactly. The descendants are chosen in any order, the search names in first-occurrence order, and the overlap rows in any order. Two results depend on the chosen order, beyond `is_drug` above. First, when two searched ids share a catalogue name, `get_ancestors` keeps the chain of the record answered last; `AncestorsContent` states this for the model's first-occurrence order, and Python's set order may pick the other record. Second, the row order of `find_overlap` comes from dict iteration over the result maps as well as from the set intersection; `FindOverlap` states only which rows appear and that none repeats.
