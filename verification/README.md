# oc-memory store, modelled in Dafny

oc-memory keeps an agent's long-term memory in one SQLite file. Each
memory is a *cell* (scene, type, salience, content, source, tags, optional
embedding, access count, timestamps) in `mem_cells`. An FTS5 keyword index
`mem_fts` mirrors each cell's content, scene, type and tags. `mem_scenes`
holds one summary row per *scene*, the named group that cells belong to.

This project models three parts of the system:

- the `MemoryDB` class, which inserts, tags, searches, decays, deletes,
  lists and counts cells;
- the pure logic of the command-line front end: storing cells with
  optional embeddings, vector search with a keyword fallback, and scene
  consolidation with a fallback summary;
- the backup manager's markdown export and JSON restore.

The whole database is one immutable value, `MemoryDb.Store`. It holds:

- the cells table, as a map from row id;
- the keyword index, as a map from row id;
- the scene table, as a map from scene name;
- a counter of the rows the store's own statements have written on the connection, standing for SQLite's `total_changes`.

Every public operation is a pure function or method from one `Store` to
the next. `Mirrored` is the invariant that the index holds exactly one
entry per cell, agreeing with the cell's indexed columns. Every operation
that changes the store is proved to preserve it.

Modules, one file each:

| module | file | contents |
|---|---|---|
| `Wrappers` | wrappers.dfy | `Option`, `Result` |
| `Text` | text.dfy | ASCII lower/strip; the alphanumeric tokenizer `[a-zA-Z0-9]+`; Python's string order; substring; prefix `[:n]`; `join`; decimal rendering |
| `Ranking` | ranking.dfy | descending sort, top-n, `LIMIT` and slice lengths, ascending id order |
| `Tags` | tags.dfy | tag normalisation and the sorted, de-duplicated merge |
| `TagCodec` | tag_codec.dfy | `json.dumps` of a list of strings with its default ASCII escaping, and a reader for exactly that spelling |
| `MemoryDb` | memory_db.dfy | the store, schema opening and backfill, insert, tag, update embedding, delete, salience ranking |
| `Search` | search.dfy | keyword, vector and tag search |
| `Scenes` | scenes.dfy | scene rows, `get_scene`, `list_scenes`, live scene counts |
| `Decay` | decay.dfy | salience decay |
| `Views` | views.dfy | `all_cells`, `cells_without_embeddings`, `stats` |
| `Cli` | cli.dfy | storing, searching and consolidating, as the front end does them |
| `Backup` | backup.dfy | markdown export, JSON restore |

The parts of the system outside the model are passed in as parameters:

- the embedding service is a function from text to an optional vector;
- the summarising language model is a function from a scene's cells to text;
- cosine similarity against the query is a function from a vector to a real;
- the clock is a `now` parameter, a count of seconds;
- the export date is a string.

The code and its documentation disagree in a few places. The model
follows the code:

- Insert stores salience unclamped and tags as given; it does not normalise them.
- `tag_cell` normalises only the new tags, not the stored ones.
- `update_embedding` leaves `updated_at` alone.
- Tag search does not count accesses.
- Tag search looks for the tag as typed, while the tags column holds JSON with non-ASCII characters escaped.
- Decay can take a cell below the 0.1 floor, because the floor only stops further decay.
- A restore inserts every exported cell again as a new cell. It drops the embeddings, access counts and timestamps.
- A keyword query containing a bare `AND`, `OR` or `NOT` is an error result, as the index rejects it; it is not a precondition.

## Model

| member | source | states |
|---|---|---|
| MemoryDb.NextId | oc_memory/db.py:103 | the row id given to a new cell is unused and larger than every existing id; it is 1 in an empty table |
| MemoryDb.Open | oc_memory/db.py:57-75 | opening keeps the cells and scenes; a current index is kept untouched; a missing or pre-tags index is rebuilt, one entry per cell, so the index mirrors the cells, and the rebuilt rows are counted as changes of the new connection |
| MemoryDb.InsertCell | oc_memory/db.py:79-109 | a new cell under a fresh id and no other cell changes; absent keys take the defaults "fact", 0.5 and "", with access count 0 and both timestamps `now`; the index entry is added with it, so the mirror invariant is kept; the store's own statements write two rows |
| MemoryDb.TagCell | oc_memory/db.py:111-133 | a missing id changes nothing; the call fails exactly when the stored tags are unreadable; otherwise it succeeds, only that cell changes, its new tag list is strictly sorted and holds exactly the old tags and the normalised new ones, its update time is `now`, and the index follows |
| MemoryDb.TagCellIdempotent | oc_memory/db.py:116-118 | tagging again with the same tags succeeds and leaves the tag list as the first call wrote it; only the update time moves |
| MemoryDb.UpdateEmbedding | oc_memory/db.py:146-152 | only the named cell's embedding changes; the key set, index and scenes stay; a missing id changes nothing |
| MemoryDb.DeleteCell | oc_memory/db.py:255-259 | the id leaves both the cells and the index, every other row is kept, and a missing id is a no-op |
| MemoryDb.InsertThenDelete | oc_memory/db.py:79-109 | deleting the cell just inserted gives back the original cells, index and scenes |
| MemoryDb.InsertAll | oc_memory/cli.py:65-73 | inserting a list in order gives one distinct fresh id per input, cell `i` built from input `i`; earlier cells are kept, and the key set grows by exactly the new ids |
| MemoryDb.BySalience | oc_memory/db.py:138-143 | `ORDER BY salience DESC LIMIT n`: distinct ids from the matching set, as many as the limit allows (all of them for a negative limit), non-increasing in salience, and none left out outranks one taken |
| Text.TokensAreMaximalRuns | oc_memory/db.py:156 | a string is a query token exactly when it is a maximal run of ASCII letters and digits in the query |
| Text.NoTokensIffNoAlnum | oc_memory/db.py:156-158 | the query has no token exactly when it has no ASCII letter or digit |
| Tags.Merge | oc_memory/db.py:117 | the merged tag list is strictly sorted and holds exactly the old tags and the lower-cased, stripped new ones |
| Tags.MergeIdempotent | oc_memory/db.py:117 | merging the same new tags a second time changes nothing |
| TagCodec.DecodeIffEncode | oc_memory/db.py:116-118 | the model's reader gives list `l` exactly when the text is the `json.dumps` spelling of `l` |
| TagCodec.DecodedIsEncoding | oc_memory/db.py:116-118 | any text the model's reader accepts is the `json.dumps` spelling of what it read |
| TagCodec.EncodeIsAscii | oc_memory/db.py:118 | the JSON written for a tag list is pure ASCII: every other character is escaped |
| TagCodec.RoundTrip | oc_memory/db.py:116-118 | the JSON written for a tag list reads back as that list |
| TagCodec.QuotedItemInEncoding | oc_memory/db.py:118 | every tag of a list occurs in the list's JSON text as its JSON string literal, escapes included |
| Search.SearchFts | oc_memory/db.py:154-177 | no token gives no hits and no change; a reserved operator word is a query error; otherwise the hits are matching cells, distinct, by salience, `LIMIT`-many, none left out outranking one shown, and exactly the returned cells gain one access |
| Search.SearchVector | oc_memory/db.py:179-216 | no embedded cell gives no hits; otherwise the hits are embedded cells carrying their similarity and the score 0.7·similarity + 0.3·salience, distinct, non-increasing in score, slice-many, none left out scoring higher than one shown, and exactly the returned cells gain one access |
| Search.SearchFtsReturnsAll | oc_memory/db.py:154-177 | a query of plain words with a limit at least the number of matches returns every matching cell |
| Search.InsertThenSearchFts | tests/test_db.py:14-23 | after inserting a cell, a query sharing a word with its content finds it; with a large enough limit the cell is among the hits |
| Search.SearchByTag | oc_memory/db.py:135-144 | the hits are the cells whose tags text contains the quoted, normalised tag as typed (ASCII case-insensitively), distinct, by salience, `LIMIT`-many, none left out outranking one shown |
| Search.StoredTagIsFound | oc_memory/db.py:135-144 | a cell whose stored tag list holds the normalised tag is matched by tag search, when the tag is printable ASCII other than `"` and `\` |
| Search.TagThenSearch | oc_memory/db.py:111-144 | after `tag_cell` adds a tag, tag search for it matches that cell, when the tag is printable ASCII other than `"` and `\` |
| Search.NonAsciiTagNotFound | oc_memory/db.py:111-144 | after `tag_cell` on a cell whose stored tags are readable, tag search for a tag whose normalised form holds a non-ASCII character never matches that cell, whatever tags it holds (normalisation is ASCII-only, see Left out) |
| Search.SearchByTagEncoded | oc_memory/db.py:135-144 | tag search with the pattern written as `json.dumps` writes the tag: the cells whose tags text contains it, distinct, by salience, `LIMIT`-many, none left out outranking one shown |
| Search.TagThenSearchEncoded | oc_memory/db.py:111-144 | after `tag_cell` adds any tag, the corrected tag search for it matches that cell |
| Scenes.UpsertScene | oc_memory/db.py:237-253 | the scene's row is created or replaced with the summary, its embedding, the live number of the scene's cells and `now`; every other scene row and all cells stay |
| Scenes.CountAfterInsert | oc_memory/db.py:239-241 | inserting a cell adds one to its own scene's live count and leaves every other scene's count unchanged |
| Scenes.CountAfterDelete | oc_memory/db.py:239-241 | deleting a cell takes one off its own scene's live count and nothing else |
| Scenes.SceneCells | oc_memory/db.py:221-225 | a scene's cell list has one entry per cell of the scene, each carrying that cell's columns, distinct, non-increasing in salience |
| Scenes.SceneCellsComplete | oc_memory/db.py:221-225 | every cell of the scene appears in its cell list |
| Scenes.GetScene | oc_memory/db.py:218-226 | the scene row is returned exactly when it exists, together with the scene's cell list |
| Scenes.ListScenes | oc_memory/db.py:228-235 | every scene row exactly once, with its own columns, most recently updated first |
| Decay.ApplyDecay | oc_memory/db.py:268-273 | exactly the old, rarely read cells above the floor have their salience multiplied by the factor and their update time set; every other cell, the index and scenes stay; one change per decayed cell |
| Decay.Decay | oc_memory/db.py:261-276 | the decay as written: the store as `ApplyDecay` leaves it, and a reported count of every row changed on the connection, never less than the number decayed |
| Decay.DecayCounted | oc_memory/db.py:261-276 | the same store as `decay`, reporting exactly the number of decayed cells; for a factor other than 1 that is the number of cells whose row changed |
| Decay.DecayLowersSalience | oc_memory/db.py:268-273 | with a factor in [0, 1), every decayed cell ends strictly below its old salience |
| Decay.FloorIsStable | oc_memory/db.py:271 | a cell at or below 0.1 is never decayed again, whatever the clock and factor |
| Decay.StepCanCrossFloor | oc_memory/db.py:262-271 | one step with the default factor takes a cell at 0.105 to 0.0945, below the 0.1 floor the documentation names |
| Decay.DecayReportsRebuiltRows | oc_memory/db.py:261-276 | after an index rebuild on opening, a decay that changes nothing still reports the rebuilt row, while the corrected count is 0 |
| Views.AllCells | oc_memory/db.py:278-286 | every cell exactly once, with its own columns, in increasing id order |
| Views.CellsWithoutEmbeddings | oc_memory/db.py:288-295 | exactly the cells without an embedding, each once, with their content |
| Views.EmbeddedOrPending | oc_memory/db.py:288-303 | embedded and pending cells partition all cells |
| Views.EmbeddingClearsPending | oc_memory/db.py:146-152 | embedding a pending cell moves it from the pending set to the embedded set and moves nothing else |
| Views.GetStats | oc_memory/db.py:297-316 | cell, embedded-cell and scene-row totals; for each type present, the number of cells of that type; the ten scenes with most cells (fewer if there are fewer), distinct, most first, none left out having more |
| Cli.StoreCells | oc_memory/cli.py:60-88 | one cell or a list is stored in order, each under a distinct fresh id, with the embedding computed for its content when the service gives one; earlier cells stay |
| Cli.StoredWithoutEmbedderArePending | oc_memory/cli.py:62-73 | without the embedding service, the pending set grows by exactly the newly stored ids |
| Cli.SearchWithFallback | oc_memory/cli.py:114-139 | vector results are shown exactly when the query could be embedded and some cell is embedded, and then there are between 1 and 10 of them; otherwise the keyword search's results or its error are shown |
| Cli.ConsolidateTargets | oc_memory/cli.py:159-170 | a non-empty name gives that one scene; otherwise every scene some cell belongs to, each once |
| Cli.SummaryTop | oc_memory/cli.py:180 | the summary is built from the ten most salient cells (fewer if there are fewer), by salience, none left out more salient than one taken, each taken at most as often as it occurs |
| Cli.FallbackSummary | oc_memory/cli.py:180-181 | the summary without the model is the "; "-join of at most ten pieces, each of at most 100 characters, cut to exactly 300 characters when longer and kept whole otherwise |
| Cli.TopLeadsWithMostSalient | oc_memory/cli.py:180 | a non-empty scene's summary list opens with a cell no other cell outranks |
| Cli.FallbackLeadsWithTop | oc_memory/cli.py:180-181 | the fallback summary opens with the first 100 characters of the first summarised cell |
| Cli.FallbackLeadsWithMostSalient | oc_memory/cli.py:180-181 | a fallback summary opens with the first 100 characters of a most salient cell |
| Cli.ShortSingleCellSummary | oc_memory/cli.py:180-181 | a one-cell scene whose content has at most 100 characters is summarised by that content |
| Cli.ConsolidateOne | oc_memory/cli.py:173-190 | a scene without cells is skipped; otherwise only its row is rewritten with the summary, its embedding, the live count and `now` |
| Cli.Consolidate | oc_memory/cli.py:172-191 | after the loop, every target scene with cells holds its fresh summary row; every other row, all cells and the index are unchanged |
| Cli.ConsolidateCommand | oc_memory/cli.py:158-191 | with no name or an empty one, every scene with cells gets its fresh row (summary, its embedding, current count, `now`), rows of scenes that have lost all their cells are kept, and no row is created for a scene without cells; with a name, that scene gets its fresh row when it has cells, the scene rows are unchanged when it has none, and no other scene row changes |
| Backup.Sanitize | oc_memory/backup.py:55 | the file-safe name has the same length, only `[a-zA-Z0-9_-]`, and keeps a character exactly when it is safe |
| Backup.SanitizeIdempotent | oc_memory/backup.py:55 | sanitising twice is sanitising once |
| Backup.SanitizeFixedIff | oc_memory/backup.py:55 | a name is unchanged exactly when all its characters are safe |
| Backup.DistinctScenesShareFile | oc_memory/backup.py:53-69 | two different scenes ("a b" and "a_b") are written to the same file |
| Backup.IndexLineShape | oc_memory/backup.py:47-49 | an index line names the scene right after the bullet and ends with at most 80 characters of its summary |
| Backup.ExportMarkdown | oc_memory/backup.py:38-71 | the index has the dated header and then one line per scene row; each scene row has its own line and file in the same position, every scene is listed once, and the count returned is the number of scene rows |
| Backup.RestoreRows | oc_memory/backup.py:97-99 | each exported row becomes a new cell under a distinct fresh id with the same scene, type, salience, content, source and tags, no embedding, no accesses and `now` timestamps; existing cells stay, and the table grows by the number of rows |
| Backup.RestoreFromJson | oc_memory/backup.py:93-100 | a file without cells restores nothing and returns 0; otherwise every row is restored and their number is returned |
| Backup.ExportRestoreKeepsColumns | oc_memory/backup.py:93-100 | restoring an export adds, for each exported cell, a new cell with the same scene, type, salience, content, source and tags |
| Backup.RestoreOwnExportDuplicates | oc_memory/backup.py:93-100 | restoring a store's own export doubles its number of cells |

## Left out

- File and terminal I/O are not modelled. This covers reading arguments, stdin and environment variables, printing, and writing export files. The markdown export is modelled as the lines and file names it would write.
- The per-scene file body (summary, count, date and one line per cell, with `:.2f` salience) is not modelled. Its floating-point formatting is out of scope; the file name and index lines are modelled.
- Floating point is not modelled:
  - salience and scores are reals;
  - cosine similarity is an abstract function `sim`;
  - the `round(..., 4)` on reported similarity and score is not modelled;
  - embeddings are sequences of reals, not float32 byte blobs.
- Timestamps are a seconds clock, not ISO-8601 text. Ordering the clock and ordering the text agree.
- Keyword search does not model FTS5 internals:
  - only the tokenizer's alphanumeric, ASCII case-folded matching and the `OR` query are modelled;
  - `NEAR` and other operators besides `AND`, `OR` and `NOT` are treated as plain words.
- MemoryDb.BySalience, Search.SearchFts, Search.SearchByTag, Scenes.SceneCells and Search.SearchVector: rows of equal salience (equal score for vector search) come out in increasing id order. SQLite leaves that order open for `ORDER BY salience DESC`, and Python's stable sort keeps whatever order it gets. Their contracts hold for any tie order. The fallback summary in `Cli.Consolidated` follows the order of `Scenes.SceneCells`, so for a scene with equal saliences the model fixes one of the summaries the source may write.
- Search.SearchByTag: `%` and `_` in a tag act as `LIKE` wildcards in the source; the model matches them literally. `LIKE` folds ASCII case only, as the model does.
- Search.StoredTagIsFound and Search.TagThenSearch: stated only for tags of printable ASCII other than `"` and `\`, because `search_by_tag` as written misses every other tag (see Findings).
- TagCodec.DecodeIffEncode: the reader accepts only the exact `json.dumps` spelling; `json.loads` also accepts other whitespace, other escapes (`\/`, upper-case hex, escaped ASCII) and non-list values, which the model does not read.
- MemoryDb.TagCell: stored tags text that `json.loads` would accept but that is not in `json.dumps` spelling (such as `["a","b"]`, which `insert_cell` stores verbatim when the tags field is a string) is treated as unreadable, a `MalformedTags` error, where the source merges.
- MemoryDb.Store: the change counter counts the rows the store's own statements write. SQLite's `total_changes` also counts the rows FTS5 writes into its internal tables, so the real counter is at least the modelled one; the change counts stated for insert, tag, delete, decay and open are lower bounds on the real ones.
- Lower-casing and stripping are ASCII only; Unicode case folding and whitespace are not modelled.
- Search.NonAsciiTagNotFound: it speaks of the tag after the model's ASCII-only normalisation. Python's `lower()` and `strip()` can turn some non-ASCII tags into ASCII ones (a trailing no-break space is stripped, the Kelvin sign lowers to `k`), and such tags are found by the source.
- Non-string `content` is carried already JSON-serialised; `json.dumps` of arbitrary values is not modelled.
- Export is the only route into restore: `restore_from_json` reads rows as `all_cells` produces them, and malformed JSON files are not modelled.
- `export_json`, `backup_sqlite` (ssh/scp), the `embed` and `extract` commands, the extractor and the embeddings HTTP clients are not modelled. They are I/O or calls into services.
- Exceptions are modelled only where the code catches them:
  - a failing embedding call gives no embedding;
  - a dimension mismatch in `search_vector` is not modelled;
  - an exception from the summarising model is not modelled.
- Cli.Consolidate: does not state the connection's change count after the loop.
- Views.GetStats: `by_type` and `top_scenes` are dictionaries in the source; their insertion order is not modelled, and ties among equal counts are broken arbitrarily.
- The `ALTER TABLE` migration that adds the tags column is not modelled: every modelled cell already has a tags column.
- Cli.ConsolidateTargets: the distinct scenes come out in an unspecified order, as `SELECT DISTINCT` without `ORDER BY` gives them.
- Views.CellsWithoutEmbeddings: the query has no `ORDER BY`; the model returns ids in increasing order.

## Findings

| source | as written | input that shows it | evidently intended | confidence | as-written member | corrected member |
|---|---|---|---|---|---|---|
| oc_memory/db.py:274 | `decay` returns `self.db.total_changes`, the number of rows changed on the connection since it was opened | open a file whose keyword index predates the tags column and holds one cell created just now; the index rebuild writes at least one row; `decay(30, 0.9)` then decays no cell and returns at least 1 | the number of cells decayed by this call (the `UPDATE`'s row count) | not executed | Decay.Decay, Decay.DecayReportsRebuiltRows | Decay.DecayCounted |
| oc_memory/db.py:137 | `search_by_tag` looks for the lower-cased, stripped tag in double quotes, but `tag_cell` stores the tags with `json.dumps`, which escapes every non-ASCII character (and `"`, `\` and control characters) | `tag_cell(1, ["café"])` stores `["caf\u00e9"]`; `search_by_tag("café")` then looks for `"café"` and returns no row | the pattern built from the tag as `json.dumps` writes it, so that a tag just added is found | not executed | Search.SearchByTag, Search.NonAsciiTagNotFound | Search.SearchByTagEncoded, Search.TagThenSearchEncoded |
