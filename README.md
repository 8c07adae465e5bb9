# Korean mnemonics manager, modelled in Dafny

This project models `KoreanMnemonicsManager` from `krmnemonic.py`. The
manager keeps a table of vocabulary records in memory. Each record has a
Korean word, its romanization, its meaning, a mnemonic, a visual cue, notes
and a timestamp. The table is mirrored to a CSV file. The model covers:

- loading, including the ascending sort by timestamp;
- deduplicating insertion (`add_mnemonic`), which saves after a successful add;
- the import loop of `bulk_add_from_json`;
- `get_recent`;
- the selection made by `recall_mnemonic`;
- the (Front, Back) cards of `export_to_anki_csv`;
- the integer statistics of `get_stats`.

Layout:

- `options.dfy` (`Options`): an optional value, used for cells that may be
  missing and for a file that may not exist.
- `seqs.dfy` (`Seqs`): sequence helpers for the pandas operations the manager
  uses: `drop_duplicates` (`Dedup`), substring search (`Contains`) and the
  distinct present values of a column (`Present`).
- `records.dfy` (`Records`): the record, an import entry, the row
  `add_mnemonic` builds, and the timestamp sort.
- `table.dfy` (`Table`): `_is_duplicate`, insertion and the import loop as
  functions on the rows, and the table's invariant (no two rows share both
  word and meaning). Also the lemmas about these.
- `recall.dfy` (`Recall`), `recent.dfy` (`Recent`), `export.dfy`
  (`Export`), `stats.dfy` (`Stats`): the operations that report on the
  table. Each is a function of the table's rows. (`get_stats` also adds a
  `date` column to the table; see "Left out".)
- `manager.dfy` (`Manager`): the class `MnemonicsManager`. Its field `rows`
  is `self.df` and its field `stored` is the CSV file. Its methods change
  these fields and are proved against the functions of `Table`.

How pandas behaviour is represented:

- A missing cell (NaN) is `None`.
- The element-wise `==` used by `_is_duplicate` never matches a missing cell.
  It also never matches a missing argument.
- `str.contains(..., na=False)` never matches a missing cell.
- `nunique` and `dropna` skip missing cells.
- `fillna('')` renders a missing cell as the empty string.
- Timestamps are integer epoch seconds.
- Reading the CSV file is a constructor argument: the rows that were read,
  or `None` when there is no file. Reading the JSON file is the arguments of
  `BulkAddFromJson`: the file's timestamp and its entries. A `Malformed`
  entry is one that does not carry exactly the parameters of `add_mnemonic`.
- The case-insensitive match is a parameter `fold` applied to both the cell
  and the query. It is not a real case-folding function.

Three behaviours of the code worth knowing:

- Recall drops duplicates by row contents (`drop_duplicates`,
  krmnemonic.py:92): two rows with equal cells are shown once.
- Recall lists the word matches before the meaning-only matches, each group
  in table order.
- `add_mnemonic` returns a boolean: true when the row was added, false when
  it was skipped as a duplicate.

`Manager.DuplicateIsSkipped` is a worked scenario rather than a property: it
builds a manager with no file, adds a mnemonic, and adds the same word and
meaning again; its assertions state that the second add returns false and
that one row is left.

## Model

| member | source | states |
|---|---|---|
| Seqs.Dedup | krmnemonic.py:92 | `drop_duplicates` keeps exactly the values of its input, in input order (a subsequence), and never makes it longer |
| Seqs.DedupNoRepeats | krmnemonic.py:92 | after `drop_duplicates` no value occurs twice |
| Seqs.DedupAppend | krmnemonic.py:92 | de-duplicating `a + b` gives de-duplicated `a` followed by the de-duplicated values of `b` that `a` lacks |
| Seqs.Without | krmnemonic.py:92 | holds exactly the values of the first sequence that the second lacks, in the order of the first (a subsequence) |
| Seqs.ContainsAt | krmnemonic.py:85-86 | the substring test holds exactly when the query occurs at some offset of the cell |
| Seqs.Present | krmnemonic.py:103-104 | the distinct non-missing values of a column are exactly the values some cell holds, and there are no more of them than cells |
| Records.NewRow | krmnemonic.py:31 | the new row keeps the given fields and the timestamp; a missing or empty note becomes `''`, any other note is kept |
| Records.SortByTime | krmnemonic.py:19 | the loaded table is sorted by timestamp, ascending, with rows lacking a timestamp last, and is a permutation of the rows read |
| Table.CountKey | krmnemonic.py:45-46 | the number of rows with this word and this meaning is at most the table size, and it is positive exactly when such a row exists |
| Table.TakeWellformed | krmnemonic.py:42-43 | the loop reaches exactly the entries before the first malformed one |
| Table.TakeWellformedUnique | krmnemonic.py:42-43 | any run of well-formed entries that ends at the end of the file or at a malformed entry is exactly what the loop reaches |
| Table.IsDuplicate | krmnemonic.py:45-46 | `_is_duplicate` holds exactly when some row has this word and this meaning; a missing word or meaning is never a duplicate |
| Table.Insert | krmnemonic.py:27-35 | the rows after `add_mnemonic`: a duplicate leaves them unchanged; otherwise exactly the new row is appended at the end, with the old rows unchanged in front; the invariant is kept |
| Table.AppendKeepsNoDuplicateKeys | krmnemonic.py:28-32 | appending a row that `_is_duplicate` does not report as a duplicate keeps the invariant |
| Table.NoDuplicateKeysIff | krmnemonic.py:27-35 | the invariant `NoDuplicateKeys` (no two rows share word and meaning) holds exactly when every row is one `add_mnemonic` would have accepted after the rows before it |
| Table.NoDuplicateKeysPermutation | krmnemonic.py:19 | the invariant does not depend on row order: any reordering of a duplicate-free table, such as the sort on loading, is duplicate-free |
| Table.InsertAll | krmnemonic.py:42-43 | the rows after the import loop: the table grows by at most one row per entry, and the invariant is kept |
| Table.InsertKeepsKey | krmnemonic.py:28-32 | a word and meaning already present stay present after an insertion |
| Table.InsertHasKey | krmnemonic.py:28-32 | after `add_mnemonic` of a row with a word and a meaning, that pair is present, whether the row was added or skipped |
| Table.InsertAllShape | krmnemonic.py:40-43 | the import loop keeps the old rows in front; it grows the table by at most one row per entry; every added row has the file's timestamp |
| Table.InsertAllInOrder | krmnemonic.py:42-43 | the rows added by the import loop are the new rows of some of the entries, in file order |
| Table.InsertAllHasKeys | krmnemonic.py:42-46 | when every entry has a word and a meaning: after the loop, the word and meaning of every entry are in the table |
| Table.InsertAllOfPresentKeys | krmnemonic.py:42-46 | entries whose keys are all present add nothing |
| Table.ReimportAddsNothing | krmnemonic.py:37-46 | when every entry has a word and a meaning: importing the same entries again, with any timestamp, leaves the table unchanged |
| Recall.CellContains | krmnemonic.py:85-86 | `str.contains(..., na=False)` on one cell: a missing cell never matches; a present one matches exactly when the query (folded on both sides when not case-sensitive) occurs in it at some offset |
| Recall.ColumnMatches | krmnemonic.py:85-86 | one column's mask selects exactly the rows whose cell contains the query, in table order (a subsequence), with as many copies of each such row as the table holds |
| Recall.RecallMnemonic | krmnemonic.py:85-92 | the rows shown are exactly the rows whose word or meaning contains the query; the outcome is "no match" exactly when there are none |
| Recall.FoldKeepsOccurrence | krmnemonic.py:85-86 | a fold that maps strings character by character keeps every occurrence of the query, folded, in the folded cell |
| Recall.RecallFindsSubstring | krmnemonic.py:85-92 | in both modes, with a character-by-character fold, any substring of a row's word or meaning recalls that row: the outcome is a match and the row is among those shown |
| Recall.RecallNoRepeats | krmnemonic.py:92 | no row is shown twice |
| Recall.RecallWordMatchesFirst | krmnemonic.py:85-92 | the de-duplicated word matches come first, in table order; the later rows are meaning matches in table order (a subsequence of the meaning mask), and each matches by meaning and not by word |
| Recent.Tail | krmnemonic.py:52 | `tail(n)` is a suffix of the table; its length is `min(n, len)` for `n >= 0` and `max(len + n, 0)` for negative `n` |
| Recent.GetRecent | krmnemonic.py:51-54 | one recall per recent row, in table order; each recall finds its own row |
| Recent.RecentAreLatest | krmnemonic.py:19 | on the sorted table, no row that `get_recent` leaves out comes after a row it shows |
| Export.ExportCards | krmnemonic.py:56-76 | one card per row, in table order |
| Export.DefaultBack | krmnemonic.py:69-75 | the default back contains the romanization, meaning, mnemonic, visual and notes as written, and ends with the `Notes: ` label and the notes |
| Export.ReverseBack | krmnemonic.py:61-66 | the reversed back contains the word, romanization, mnemonic, visual and notes as written, and ends with the `Notes: ` label and the notes |
| Export.ToCard | krmnemonic.py:58-75 | the front is the word (default) or the meaning (reversed); the back contains every other study field and ends with the notes |
| Export.MissingRendersEmpty | krmnemonic.py:58 | a missing cell renders exactly as an empty one |
| Export.NoNotesEndsWithLabel | krmnemonic.py:58-75 | a card without notes ends in the bare `Notes: ` label, with no null marker |
| Export.ExampleCard | krmnemonic.py:68-75 | the example row gives front "안녕" and a back with its meaning, mnemonic and visual and an empty note |
| Stats.Latest | krmnemonic.py:120-122 | the most recent timestamp is a timestamp of the table, and no timestamp is larger |
| Stats.GetStats | krmnemonic.py:102-122 | the total is the row count; the distinct words and meanings are each at most the total; there are between one and total sessions, one per distinct timestamp; the most recent is their maximum |
| Stats.SingleSession | krmnemonic.py:118-122 | rows sharing one timestamp form one session, and that timestamp is the most recent |
| Stats.ThreeSessions | krmnemonic.py:102-122 | three rows imported at 100, 200 and 300 give 3 rows and 3 sessions, the most recent being 300 |
| Stats.ThreeDistinct | krmnemonic.py:103-104 | three rows with three distinct words and three distinct meanings count 3 distinct words and 3 distinct meanings |
| Stats.TotalBoundedByDistinctPairs | krmnemonic.py:102-104 | under the invariant, with every word and meaning present, total ≤ distinct words × distinct meanings |
| Manager.MnemonicsManager.constructor | krmnemonic.py:15-25 | the table is the file's rows (none if there is no file), sorted by timestamp ascending, and a permutation of them; a duplicate-free file gives a duplicate-free table |
| Manager.MnemonicsManager.Save | krmnemonic.py:48-49 | the file holds the current rows |
| Manager.MnemonicsManager.AddMnemonic | krmnemonic.py:27-35 | returns false and changes nothing for a duplicate; otherwise appends one row, saves, and returns true; keeps the invariant |
| Manager.MnemonicsManager.BulkAddFromJson | krmnemonic.py:37-43 | the table becomes the result of the import loop up to the first malformed entry; the file is saved if a row was added; keeps the invariant |

## Left out

- File I/O is not modelled: `pd.read_csv`, `to_csv`, `json.load` and the CSV layout of the export. Loading is a constructor argument, and saving replaces the `stored` field.
- `print` output is not modelled. This covers the recall report, the "Added"/"Skipping" messages, `show_all` and the statistics text.
- `main` is not modelled: argument parsing and directory creation are glue.
- The floating-point statistics are not modelled: standard deviation, words per day, words per session, the average gap and the weekly trend. The same goes for the formatting of the most recent date.
- Stats.GetStats: leaves the rows unchanged. The source also adds a `date` column (the timestamps as dates) to the table while computing the weekly trend. A later save would write that column to the CSV file. The model's records have a fixed set of fields, so it does not capture this.
- `missing_notes` in `get_stats` is not modelled. It is computed but never reported.
- The code after the `return` in `get_stats` is not modelled, because it never runs.
- `fix_import_json.py` is not part of this model. It only rewrites files and sets a fixed local-time timestamp.
- Weighted random sampling for quizzes is not part of this model. It is not in this source file.
- Stats.GetStats: requires at least one timestamp. With none, the source fails before it reports anything, so the model claims nothing for that case.
- Stats.GetStats: returns statistics for every integer timestamp. The source fails when the latest timestamp is outside the range of `datetime.fromtimestamp` (krmnemonic.py:124; a millisecond epoch such as 1700000000000 is past year 9999), or when a timestamp is past pandas' nanosecond date range, about 9.2e9 seconds (krmnemonic.py:141). The model has no bound on timestamps.
- Recent.GetRecent: requires every row it shows to have a word. For a row without one, the source calls `str.contains` with NaN, which fails.
- Recent.GetRecent: "each recall finds its own row" holds for the plain-substring match of the model only. The source's `str.contains` reads the word as a regular expression: a word such as `(으)로` does not match itself, and a word with an unbalanced `(` or `[` makes the call fail.
- Recall.RecallMnemonic: the query is a plain substring, not a regular expression. A query holding regular-expression syntax selects other rows in the source, or makes it fail. Case-insensitive matching goes through the abstract `fold` parameter and not through real Unicode case folding. That a substring recalls its row (`Recall.RecallFindsSubstring`) is proved only for a fold that maps strings character by character (`FoldsPerCharacter`); an arbitrary `fold` does not promise it.
- Recall.RecallMnemonic: when the word or the meaning column holds no string at all after `pd.read_csv` (for instance a file whose every meaning is empty, so pandas reads that column as floats), `.str.contains` fails. The model returns an outcome in this case, so `--recall` and `--recent` failing on such a file is not captured.
- Records.SortByTime: the order of rows with equal timestamps is stable insertion order. pandas' default sort does not fix that order.
- Timestamps are integers. A fractional epoch timestamp is not modelled.
- A non-string value in a text column is not modelled. Only strings or missing cells are.
- An import file without `timestamp` or without `mnemonics` fails before the loop starts. In the model this is the caller not calling `BulkAddFromJson`.
- Manager.MnemonicsManager.BulkAddFromJson: takes the file's timestamp as an integer. A file with `"timestamp": null` (krmnemonic.py:39-42) adds rows whose timestamp is missing; the model cannot express that import, although its rows (`Cell` timestamps) can hold such rows once loaded.
- Manager.MnemonicsManager.Save: the file is modelled as holding exactly the current rows, and the constructor reads back exactly what was stored. `pd.read_csv` does not return what `to_csv` wrote: an empty note, or a cell that reads `None`, `NA` or `null`, comes back as a missing cell. So a row whose meaning reads back as missing is not a duplicate of its own re-import in a later run, and is added again; the model's "re-import adds nothing" holds within one run only.
