# Corpus indexing and feature derivation, modelled in Dafny

This project models the core of the `Corpus` class in `processing/corpus.py`. A
`Corpus` holds a table of word tokens, one row per token. Rows are keyed by
`(doc, sent, word)`: the document id, the sentence ordinal within the document
and the word ordinal within the sentence. The class:

- rebuilds that key from a flat token stream (`_idx_sentences`);
- copies the key levels into columns (`add_locators`);
- joins each sentence back into text (`zip_sents`);
- derives group-local lag windows (`lag_cols`);
- derives first/last markers (`mark_first_last`) and capital-letter flags (`mark_capitals`);
- truncates POS tags to two characters (`add_pos_stem`);
- resolves dependency heads into parent rows (`parse_deprel`);
- keeps only a chosen set of documents (`downsample`);
- picks methods by name (`process`) and a file format by extension (`save`).

The model has one module per concern:

- `Table` (`table.dfy`): the shared vocabulary.
  - Keys, cell values, and columns as a map from name to a sequence of cells.
  - Faults, and `Attempt`. An `Attempt` is a result that keeps the state already committed when a step fails part-way.
  - Group projections, and the running count within a group (`cumcount`).
  - The well-keyed invariant: rows in `(doc, sent)` order, unique keys, and word ordinals 1, 2, … with no gaps inside each sentence.
- `SentenceIndex` (`sentence_index.dfy`): `_idx_sentences`.
  - Four loop methods, one per pandas pass (shift, backward fill, expanding sum, cumulative count), each proved against a specification function.
  - The closed form of the sentence ordinal, and the proof that the keys it builds are well keyed.
- `Windows` (`windows.dfy`): `lag_cols`.
  - The group-local shift, the generated column names, and the column-by-offset loop.
  - A fault keeps the columns already added.
- `Markers` (`markers.dfy`): `add_locators`, `mark_first_last`, and the case flags and `near_cap` of `mark_capitals`.
- `Deprel` (`deprel.dfy`): `parse_deprel`.
  - Distance to parent, the parent row address, and the `par_` columns with the `_` reset.
  - The contiguity argument that makes the address arithmetic correct.
- `Text` (`text.dfy`): `zip_sents` (sentence runs, `' '.join`) and `add_pos_stem`.
- `Dispatch` (`dispatch.dfy`): the extension choice of `save` and the name selection of `process`.
- `CorpusModel` (`corpus.dfy`): the `Corpus` class.
  - Its fields are the index, the token series, the table's columns, `doc_ids` and `n_docs`.
  - Each step is a method that updates those fields in place and is proved against the functions above.
  - `downsample` takes the chosen documents as a parameter.

The model follows the code, including these behaviours that are easy to miss:

- **Shift direction.** Positive offsets read earlier rows, as pandas' `shift` does: `shift(d)` with `d > 0` reads the row `d` positions *earlier* in the group (`Windows.LagSourceCorrect`, `Windows.LagByDoc`).
- **Lag-name collisions.** A generated lag name that already exists is silently overwritten, not rejected (`Windows.LagEachCorrect`). `w = 0` adds nothing, and `w < 0` fails when `0` is removed from an empty range.
- **Documents that open with `.`.** The backward fill runs over the whole shifted column. A document whose first token is `.` therefore has every sentence ordinal raised by one: its first sentence is numbered 2 (`SentenceIndex.SentClosedForm`, `CorpusModel.DotOpenedDocHasNoFirstSentence`).
- **Single-token documents.** A one-token document takes its ordinal from the next document's first token (`SentenceIndex.SingletonDocBorrowsNext`). A one-token *last* document leaves a missing value that the integer cast rejects (`SentenceIndex.IndexFailsIff`).
- **`mark_first_last`.** Only a missing `sent_id` raises the "add locators" error; a missing `sent_loc` is a plain missing-column failure. A column named `doc` or `sent` makes the grouping ambiguous and fails before anything is written (`Markers.MarkFirstLastFaults`).
- **Key levels as columns.** `add_locators` and `parse_deprel` reset the index, which fails when a column is already named `doc`, `sent` or `word` (`Markers.AddLocators`, `Deprel.AttachParents`).
- **`parse_deprel` bounds.** An address outside the table fails as a missing row label. An address inside the table but in another sentence is *not* detected (`Deprel.HeadOutsideSentence`, `Deprel.AddressLeavesSentence`).
- **No transaction.** Steps are not all-or-nothing. `dist_to_parent` is committed before the parent lookup can fail, and `lag_cols` keeps the lag columns it added before a fault.

## Model

| member | source | states |
|---|---|---|
| SentenceIndex.ShiftBreaks | processing/corpus.py:298-300 | the per-row break mark moved one row down within each document (`groupby('doc').shift(1)`), missing at each document's first row |
| SentenceIndex.BackFill | processing/corpus.py:300 | the loop fills every missing value from the next present value below it, over the whole column |
| SentenceIndex.BFillSpec | processing/corpus.py:300 | a present value is kept; a filled value is the first present value at or after the row; it stays missing iff nothing below is present |
| SentenceIndex.BFillIdempotent | processing/corpus.py:300 | filling twice is the same as filling once |
| SentenceIndex.NextSomeSpec | processing/corpus.py:300 | the first present value at or after a position: missing iff all later values are missing, otherwise the earliest present one |
| SentenceIndex.ExpandingSums | processing/corpus.py:300-301 | the per-document running sum of the filled marks, and the integer-cast failure when a sum is still missing |
| SentenceIndex.CumCounts | processing/corpus.py:305-306 | row i gets the number of earlier rows of its (doc, sent) group |
| SentenceIndex.IndexSentences | processing/corpus.py:294-313 | the keys installed are exactly `IndexKeys`: the document, 1 + the running sentence count, 1 + the word count in the sentence; or the cast failure |
| SentenceIndex.ExpSumNoneIff | processing/corpus.py:300-301 | a running sum is missing exactly when the filled mark of that row is missing |
| SentenceIndex.IndexFailsIff | processing/corpus.py:300-301 | indexing fails iff the last document has exactly one token |
| SentenceIndex.ExpSumClosedForm | processing/corpus.py:298-301 | inside a document of at least two tokens, the running sum at row i is the first token's break mark plus the number of `.` tokens strictly before i |
| SentenceIndex.SentClosedForm | processing/corpus.py:298-303 | the sentence ordinal of row i is 1 + (1 if the document opens with `.`) + the number of `.` tokens before i in the document |
| SentenceIndex.SingletonDocBorrowsNext | processing/corpus.py:300 | a one-token document followed by a longer one takes its ordinal from that next document's first token |
| SentenceIndex.SentStep | processing/corpus.py:300-303 | within a document the sentence ordinal grows by one exactly after a `.` token |
| SentenceIndex.SentAdvance | processing/corpus.py:300-303 | between two rows of a document the ordinal grows by the number of `.` tokens between them |
| SentenceIndex.PairsContiguous | processing/corpus.py:303-306 | every (doc, sent) group is one contiguous run of rows |
| SentenceIndex.DotClosesSentence | processing/corpus.py:298-306 | after a `.` the next row of the document opens the next sentence at word 1; otherwise it continues the sentence with the next word ordinal |
| SentenceIndex.DotIsLastWord | processing/corpus.py:305-306 | a `.` token carries the largest word ordinal of its sentence |
| SentenceIndex.IndexKeys | processing/corpus.py:294-313 | one key per token, its document, sentence ordinal and word ordinal, both ordinals counting from 1; the only failure is the integer cast of a missing sentence ordinal |
| SentenceIndex.IndexWellKeyed | processing/corpus.py:294-313 | the built keys are ordered by (doc, sent), unique, and word ordinals run 1, 2, … with no gaps in each sentence |
| Table.CumCountInjective | processing/corpus.py:305-306 | two rows of one group never get the same running count |
| Table.CumCountDistance | processing/corpus.py:305-306 | in contiguous groups, running counts differ by exactly the row distance |
| Table.DocGroups | processing/corpus.py:180 | grouping by `doc` puts two rows together exactly when their documents are equal |
| Table.SentGroups | processing/corpus.py:181 | grouping by `(doc, sent)` puts two rows together exactly when they share a sentence |
| Windows.LagColumn | processing/corpus.py:129 | one cell per row of the source column |
| Windows.LagColumnLocal | processing/corpus.py:129 | every cell is the filled value of the row of its own group d group positions earlier, or the fill value when the group has no row there |
| Windows.LagSourceCorrect | processing/corpus.py:129 | a lag reads the row of the same group exactly d group positions earlier; when there is none, no row of the group is at that position |
| Windows.LagContiguous | processing/corpus.py:129 | with contiguous groups the lag reads row i - d exactly when it exists and lies in the same group |
| Windows.OrderedGroupsContiguous | processing/corpus.py:129 | on an ordered index the doc groups and (doc, sent) groups are contiguous |
| Windows.LagByDoc | processing/corpus.py:129 | the lag column grouped by `doc` holds row i - d's value when that row is in the same document, and the fill value otherwise |
| Windows.ThreeTokenExample | processing/corpus.py:129 | in the document [the, cat, .] with w = 1 the boundary lags are the fill value and the inner ones read `cat` |
| Windows.LagName | processing/corpus.py:129 | the name is longer than the source column name plus `_LAG` |
| Windows.LagNameShape | processing/corpus.py:129 | the name is the upper-cased column name, then `_LAG`, then the offset in decimal, with a leading `-` exactly for negative offsets |
| Windows.LagNameInjective | processing/corpus.py:129 | different offsets give different names, and no generated name equals its source column |
| Windows.LagNamesDistinct | processing/corpus.py:124-129 | the 2w names of one column are pairwise distinct |
| Windows.LagOffsetsSpec | processing/corpus.py:124-125 | the offsets are -w..w without 0, increasing |
| Windows.LagEachCorrect | processing/corpus.py:128-129 | one column's loop adds exactly its lag names, each holding the group-local shift with fill, and changes no other column |
| Windows.LagAllKeys | processing/corpus.py:127-129 | with every source column present the loop completes, adding exactly the generated names |
| Windows.LagAllFrame | processing/corpus.py:127-129 | a column that is not a generated name is unchanged |
| Windows.LagAllValue | processing/corpus.py:127-129 | when generated names do not collide with sources, each lag column holds the shift of its source column |
| Windows.LagCols | processing/corpus.py:123-130 | a negative window fails before anything is added; in every outcome no column is dropped and every column keeps one cell per row |
| Windows.LagColsSpec | processing/corpus.py:123-130 | w < 0 fails with nothing added, w = 0 adds nothing, and w > 0 adds 2w columns per source column holding the group-local shifts |
| Markers.LocatorColumns | processing/corpus.py:84-88 | `sent_id` and `sent_loc` hold each row's sentence and word ordinals |
| Markers.AddLocators | processing/corpus.py:84-88 | fails, naming the level, iff a column is already named `doc`, `sent` or `word`; otherwise sets `sent_id` and `sent_loc` to each row's sentence and word ordinals and keeps every other column |
| Markers.LocatorsThenMarkers | processing/corpus.py:84-88 | once `add_locators` has succeeded, `mark_first_last` succeeds on its result |
| Markers.MaxIn | processing/corpus.py:180-181 | the maximum over a group's rows is present iff the group has a row; it bounds every row's value and is attained |
| Markers.GroupMax | processing/corpus.py:180-181 | the group maximum broadcast to a row bounds its group and is attained in it |
| Markers.FirstLastColumns | processing/corpus.py:180-186 | exactly the four marker columns, one cell per row |
| Markers.MarkFirstLast | processing/corpus.py:174-187 | on success, exactly the four marker columns are added and every other column is kept |
| Markers.MarkFirstLastFaults | processing/corpus.py:177-181 | without `sent_id` the step fails with the locator error; then a `doc` or a `sent` column fails as an ambiguous grouping; then a missing `sent_loc` fails as a missing column; it succeeds iff `sent_id` and `sent_loc` are present, hold integers, and no column is named `doc` or `sent` |
| Markers.FirstFlagsMeaning | processing/corpus.py:183-185 | `first_sent` holds iff `sent_id` is 1 and `first_word` iff `sent_loc` is 1 |
| Markers.LastSentMeaning | processing/corpus.py:180-184 | `last_sent` holds iff the row's `sent_id` is the largest of its document |
| Markers.LastWordMeaning | processing/corpus.py:181-186 | `last_word` holds iff the row's `sent_loc` is the largest of its sentence |
| Markers.OneFirstOneLastWord | processing/corpus.py:174-187 | on a well-keyed table with locators and no `doc` or `sent` column, every sentence has exactly one `first_word` row and exactly one `last_word` row |
| Markers.LastSentOfDoc | processing/corpus.py:180-184 | with locators and no `doc` or `sent` column, every document has `last_sent` rows, and all of them belong to one sentence |
| Markers.CaseFlagsExclusive | processing/corpus.py:144-146 | no token is both upper and lower case, nor both title and lower case |
| Markers.CountIn | processing/corpus.py:149 | a group's count of flagged rows is at least 1 iff some row of the group is flagged |
| Markers.NearCap | processing/corpus.py:148-149 | `near_cap` holds at a row iff some token of its sentence is upper case |
| Markers.NearCapPerSentence | processing/corpus.py:148-149 | `near_cap` is the same on every row of a sentence |
| Markers.CapitalColumns | processing/corpus.py:143-151 | the four columns hold the case tests of each token and the per-sentence `near_cap` flag |
| Deprel.Dist | processing/corpus.py:238 | the distance is 0 for a root and the absolute ordinal difference otherwise, never negative |
| Deprel.Target | processing/corpus.py:240-241 | the parent address is the row itself for a root, else the row plus (head - sent_loc) |
| Deprel.DistIsOffset | processing/corpus.py:238-241 | the distance equals how far the parent address lies from the row |
| Deprel.OwnParentIff | processing/corpus.py:240-244 | a row addresses itself iff its head is 0 or its own word ordinal |
| Deprel.FirstOutside | processing/corpus.py:243 | the first row whose address leaves the table, or none iff every address is in range |
| Deprel.FirstAbsent | processing/corpus.py:247 | the first requested feature that is not a `par_` column, or none iff all are present |
| Deprel.AttachParents | processing/corpus.py:241-248 | fails, with the table unchanged, iff a key level clashes with a column, an address is out of range, or a feature is missing; other columns are kept |
| Deprel.ParseDeprel | processing/corpus.py:237-257 | without integer `head` and `sent_loc` nothing changes; otherwise `dist_to_parent` is committed even when the parent lookup then fails |
| Deprel.ParseDeprelFaults | processing/corpus.py:237-248 | the step fails after `dist_to_parent` exactly on a level clash, an out-of-range address, or a missing feature |
| Deprel.DistToParent | processing/corpus.py:238 | each `dist_to_parent` cell is 0 or the absolute difference, and equals the distance to the parent address |
| Deprel.ParentColumn | processing/corpus.py:243-244 | one cell per row: `_` where the row is its own parent, otherwise the addressed row's cell of the reset column |
| Deprel.ParentColumns | processing/corpus.py:243-248 | on success every address is in range and each requested `par_` column holds the parent row's cell, or `_` where a row is its own parent |
| Deprel.WordDistance | processing/corpus.py:240-241 | in a well-keyed table, two rows of a sentence are as many rows apart as their word ordinals |
| Deprel.ParentInSentence | processing/corpus.py:240-243 | a head naming a word of the row's own sentence addresses exactly that word's row |
| Deprel.TargetInSentence | processing/corpus.py:240-243 | an address that lands in the row's sentence lands on the word its head names |
| Deprel.HeadOutsideSentence | processing/corpus.py:240-243 | on a well-keyed table, a non-root head naming no word of its sentence (one beyond the last word, say) never addresses a row of that sentence: the address leaves the table or lands in another sentence |
| Deprel.AddressLeavesSentence | processing/corpus.py:240-243 | an example: in the well-keyed table of the sentences "a b ." and "c", a head of 4 on "b" addresses the first row of the next sentence |
| Text.Runs | processing/corpus.py:82 | the runs of equal (doc, sent) rows: flattened they give back the tokens and the row labels |
| Text.RunsIncreasing | processing/corpus.py:82 | on an ordered index the runs come in strictly increasing (doc, sent) order |
| Text.RunsCoverLabels | processing/corpus.py:82 | every row's sentence label has a run |
| Text.RunsDistinct | processing/corpus.py:82 | on an ordered index no two runs share a sentence label |
| Text.ZipSents | processing/corpus.py:79-82 | on a table ordered by (doc, sent): one text per sentence run, in strictly increasing (doc, sent) order, every row's sentence among them, each text the run's tokens joined by single spaces |
| Text.SplitJoin | processing/corpus.py:82 | splitting the joined text at spaces gives back the tokens, for tokens without spaces |
| Text.Join | processing/corpus.py:82 | the joined text is empty for no tokens; otherwise it starts with the first token and its length is the tokens' lengths plus one separator between each pair |
| Text.StemCell | processing/corpus.py:104 | a string tag becomes its prefix of length min(2, length); a missing cell stays missing |
| Text.AddPosStem | processing/corpus.py:102-108 | fails with the POS error iff neither `xpos` nor `nltkpos` is present |
| Text.StemIdempotent | processing/corpus.py:104-106 | stemming a stemmed column changes nothing |
| Text.AddPosStemSpec | processing/corpus.py:102-108 | adds `xpos_stem` from `xpos`, else overwrites `nltkpos`, keeping every other column; applying it twice is applying it once |
| Dispatch.Extension | processing/corpus.py:275 | the extension has no dot, is a suffix of the path, and is preceded by a dot unless it is the whole path |
| Dispatch.ExtensionAfterDot | processing/corpus.py:275 | the text after the last dot is the extension, whatever precedes it |
| Dispatch.SaveFormat | processing/corpus.py:276-283 | the parquet, pickle and CSV writers are chosen exactly for the extensions `parquet`, `pickle` and `csv`; any other extension gets none |
| Dispatch.SaveByExtension | processing/corpus.py:274-283 | after any base name, `.parquet`, `.pickle` and `.csv` choose their writers, and every other dot-free extension is reported unsupported |
| Dispatch.BareNameIsExtension | processing/corpus.py:275 | a path without a dot is its own extension |
| Dispatch.Matching | processing/corpus.py:73 | the names kept are exactly the attributes that contain the argument |
| Dispatch.Selected | processing/corpus.py:71-73 | only attribute names are selected, at most one per attribute and argument |
| Dispatch.SelectMethods | processing/corpus.py:71-73 | the loop collects the matches argument by argument, in order |
| Dispatch.SelectedIff | processing/corpus.py:71-73 | a name is selected iff it is an attribute containing one of the arguments |
| Dispatch.EmptyArgumentSelectsAll | processing/corpus.py:73 | an empty argument selects every attribute |
| Dispatch.SelectedAtLeastOnce | processing/corpus.py:71-73 | an attribute containing one of the arguments is selected at least once |
| Dispatch.SelectedAtLeastTwice | processing/corpus.py:71-75 | an attribute containing two of the arguments is selected, and so called, at least twice |
| Dispatch.SelectedTwice | processing/corpus.py:71-75 | an example: `mark_capitals` contains both `mark` and `cap`, so it is selected twice |
| CorpusModel.Corpus.Indexed | processing/corpus.py:21-26 | a corpus over an already well-keyed series: its token column, renamed `token` from `Word`, and its document set and count |
| CorpusModel.Corpus.New | processing/corpus.py:21-31 | builds the corpus and installs the computed keys, which are well keyed, or fails exactly as the indexing does |
| CorpusModel.Corpus.AddLocators | processing/corpus.py:84-88 | the table becomes what `Markers.AddLocators` gives, or is unchanged and the level clash is reported when a column is named `doc`, `sent` or `word` |
| CorpusModel.Corpus.LagCols | processing/corpus.py:123-130 | the nested loop leaves exactly the columns `Windows.LagCols` describes, and reports its fault |
| CorpusModel.Corpus.LagColumnAll | processing/corpus.py:128-129 | the inner loop adds one source column's lag columns, stopping at a fault |
| CorpusModel.Corpus.MarkFirstLast | processing/corpus.py:174-187 | the table gains the four markers, or is unchanged and the fault is reported |
| CorpusModel.Corpus.MarkCapitals | processing/corpus.py:143-151 | the table gains the case flags and `near_cap` |
| CorpusModel.Corpus.ParseDeprel | processing/corpus.py:237-257 | the table becomes the state `Deprel.ParseDeprel` describes, including the partial commit on failure |
| CorpusModel.Corpus.AddPosStem | processing/corpus.py:102-108 | the table gains the stem column, or is unchanged and the POS error is reported |
| CorpusModel.Corpus.ZipSents | processing/corpus.py:79-82 | one text per sentence of the corpus, in strictly increasing (doc, sent) order, every row's sentence among them, each text its tokens joined by single spaces |
| CorpusModel.Corpus.Downsample | processing/corpus.py:52-67 | index, tokens and every column keep exactly the rows of the selected documents; `doc_ids` is the selection and `n_docs` its size |
| CorpusModel.KeptSpec | processing/corpus.py:61 | the kept positions are exactly the rows of selected documents, once each, in increasing order |
| CorpusModel.DownsampleState | processing/corpus.py:52-67 | keeping the rows of distinct selected documents leaves a well-keyed index over exactly those documents, as many as were selected |
| CorpusModel.KeptDocs | processing/corpus.py:61-66 | the documents left are exactly the selected ones |
| CorpusModel.DistinctCard | processing/corpus.py:66-67 | a selection without repeats has as many documents as entries |
| CorpusModel.DownsampleWellKeyed | processing/corpus.py:52-67 | keeping whole documents keeps the table well keyed, so parent addressing stays valid |
| CorpusModel.DotOpenedDocHasNoFirstSentence | processing/corpus.py:300 | in a document of two or more tokens that opens with `.`, no row is marked `first_sent` |

## Left out

- File input and output: `from_tarfile`, `from_parquet`, `load_df`, the writers called by `save`, and the caches of `load_embeddings`, `load_CoNLL` and `load_sentiments`. Only the format choice of `save` is modelled.
- External models and libraries: the NLTK stemmer, tagger and stop words; TextBlob; FastText; the CoNLL parser; the `decimal` grammar of `mark_decimal`. The `head` column is an input of `parse_deprel`.
- TF-IDF (`add_tfidf`): the weights are floats computed by `processing/tfidf.py`, which is not part of this model.
- `mark_stopwords`, `mark_punctuation`, `mark_numeric`, `add_stem`, `add_pos` and `copy` depend on external libraries or are plain copies.
- The random choice in `downsample`: the selected documents are a parameter. `random.sample` over a set is also refused by recent Python versions; that is not modelled.
- The `getattr` calls and the `print` of `process`, the `print` diagnostics elsewhere, and the `__main__` script.
- `from_frame`, which replaces the table wholesale, and the `indexed=True` constructor's further use of the series' own index.
- SentenceIndex.IndexSentences: requires the rows to be grouped by document in increasing id order. The realignment by `.values` after `groupby('doc').expanding()` is only correct in that order, and other orders are not modelled.
- CorpusModel.Corpus.New: builds the keys first and then the corpus. The source rewrites the index of an existing object in place; the resulting state is the same.
- CorpusModel.Corpus.Downsample: keeps the kept rows in their original order. The order pandas' label lookup yields for a list of ids is not modelled. `doc_ids` becomes a set, where the source stores the selected list.
- Markers.CapitalColumns: `isupper`, `islower` and `istitle` are ASCII stand-ins for Python's Unicode case tests.
- Markers.CapitalColumns: `near_cap` is added unconditionally, because the modelled index always has a `sent` level.
- Markers.CapitalColumns: the per-sentence sum is broadcast to the rows of each sentence, which is the alignment pandas performs.
- Markers.MarkFirstLast: a non-integer locator cell is reported as a fault, where pandas would compare mixed values.
- Deprel.ParseDeprel: a non-integer `head` or `sent_loc` cell is likewise reported as a fault before anything changes.
- Deprel.AttachParents: a requested `par_` column that already exists is replaced, where `pd.concat` would hold two columns of that name. A feature requested twice likewise yields two columns of one name in the source and one in the model.
- Windows.Upper: upper-cases ASCII letters only, as a stand-in for Python's Unicode `str.upper()`.
- CorpusModel.Corpus.Indexed: requires a well-keyed series (ordered by (doc, sent), unique keys, gap-free word ordinals). For other series `zip_sents` would regroup and sort rows and `downsample` would repeat rows of repeated keys; that is not modelled.
- Text.ZipSents: requires a table ordered by (doc, sent), which every modelled corpus is. The regrouping `groupby` performs on unordered rows is not modelled.
- Windows.LagColumn: keeps integer cells as integers. On an integer column, pandas' shift inserts NaN and turns the column to floats, so after `fillna` a 3 becomes 3.0; value types are not modelled.
- Windows.LagCols: grouping levels are `doc`, `sent` and `word`. An empty level list is the "no group keys" failure, and level names outside the index are not modelled.
- Integer widths: every count and ordinal is an unbounded integer. The source's 64-bit integers do not overflow at corpus sizes.
