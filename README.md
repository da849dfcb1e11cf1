# File search over Elasticsearch: the decision logic, in Dafny

This project models the sequential decision code of a command-line tool and
web API that index `.txt` and `.pdf` files into an Elasticsearch index and
search them. Storage and search belong to Elasticsearch. What is modelled is
the logic around those calls:

- **Incremental update** (`UpdateCommand`). The `update` command diffs the
  freshly scanned documents against the store's `path -> {id, lastModified}`
  map, popping the map as it goes. It finds the documents to index, the
  added, updated and removed paths, and the ids to delete. A matched document
  carries over the store's id. The plan is then applied, indexing first and
  deleting second, and the closing line is reported.
- **Credential gate** (`Config`, `WebApp`). `has_credentials` and
  `auth_kwargs` decide whether any mechanism is configured and which single
  mechanism the store client uses (API key, then bearer token, then
  username/password). `require_auth` is the check every web endpoint runs.
- **Store payloads** (`StoreService`). This covers:
  - `Document.to_source`;
  - the bulk index and delete actions, where an empty input sends nothing;
  - the path map folded from a scan of the index;
  - the largest node uptime in `stats`;
  - the lazily built client that `close` drops, as a class whose methods
    record the bulk requests sent.
- **Configuration helpers** (`Config`). `_deep_merge` of nested
  dictionaries, `_clean_dict`, `_try_int` and the base URL.
- **File scanning** (`FileIndexer`). The supported-suffix filter,
  `_split_keywords`, `_decode_pdf_value`, the loop of
  `extract_pdf_metadata` over the information dictionaries, `extract_document`
  and the skip counting of `collect_documents`.
- **Statistics output** (`StatsCommand`). `_to_csv` and `_escape_csv_value`,
  with fields quoted as in section 2 (rules 6 and 7) of RFC 4180. It also
  covers the case-insensitive choice between JSON, CSV and the table for
  printing and for exporting.
- **Upload and search helpers** (`WebApp`). The validation of an index
  request, the document built from an upload, and `_extract_total_hits`.

Supporting modules model the pieces of Python the code relies on:

- `OrderedDict`: `dict`, insertion-ordered, with distinct keys.
- `PyText`: `str.strip`, `str.lower`, `str(int)`, `int(str)` and `rfind`.
- `PurePath`: `pathlib` `name` and `suffix`.
- `Wrappers`: `Option`/`Result` and Python truthiness of optional strings.

**Loops.** Each loop of the source is a Dafny `method` with a `while` loop.
It is proved equal to a recursive specification function. The lemmas state
what the source promises about that function.

**Impure code.** Everything impure is a parameter:
- the directory walk and what reading each file yields;
- the scan hits and statistics answers the store returns;
- the success count of a bulk request;
- `_parse_pdf_date`;
- the clock.

**Two behaviours of the code worth noting:**
- A scanned document with no stored record keeps its own id. The code at
  `src/cli/commands/update.py:63-66` does not set it to its path.
- A credential made only of whitespace still counts as configured. The code
  only tests truthiness.

## Model

Rows are listed per characterising lemma or method: a function such as
`HasCredentials`, `Url`, `ParseInt`, `ExtractDocument`, `DeepMerge`,
`CleanDict` or `SplitKeywords` has no row of its own and is stated by the
rows that name it (`AuthKwargs`, `UrlShape`, `ParseDecimalString`,
`ExtractDocumentSpec`, `DeepMergeSpec`, `CleanDictSpec`, `SplitKeywordsShape`).

| member | source | states |
|---|---|---|
| UpdateCommand.Reconcile | src/cli/commands/update.py:56-79 | The popping loop builds exactly the plan `PlanOf` describes: documents with carried ids, documents to index, added, updated, removed paths and ids to delete |
| UpdateCommand.ScanRemaining | src/cli/commands/update.py:61-62 | After the scan, the records left in the working map are the stored records at paths no document was scanned at, in stored order, with their stored values |
| UpdateCommand.ScanCounts | src/cli/commands/update.py:61-71 | One output document per scanned document; to_index has as many entries as added and updated paths together; every added or updated path was scanned |
| UpdateCommand.IdsOfLength | src/cli/commands/update.py:73-79 | Ids are only taken from records that have one, so there are never more delete ids than removed paths |
| UpdateCommand.PlanSpec | src/cli/commands/update.py:56-79 | Removed paths are exactly the stored paths not scanned, in stored order; delete ids are the non-empty stored ids of those paths and no more numerous; len(to_index) == len(added) + len(updated); added and updated paths were scanned and are never removed |
| UpdateCommand.ScanMatchesReference | src/cli/commands/update.py:61-71 | With distinct scanned paths, the loop agrees with a direct reference: a document is added iff the store has no record at its path, updated iff its stored time (empty when absent) differs from its own, and a matched document takes the stored id, else its own, else its path |
| UpdateCommand.PlanPartition | src/cli/commands/update.py:56-79 | With distinct scanned paths, added, updated and removed paths are pairwise disjoint |
| UpdateCommand.DuplicatePathAdded | src/cli/commands/update.py:62-66 | A stored record is popped only once: a second document at an already matched path is treated as added |
| UpdateCommand.PlanOfOneChanged | src/cli/commands/update.py:62-71 | A single stored document with another time is re-indexed and updated under its carried id, and its record leaves the working map |
| UpdateCommand.Summary | src/cli/commands/update.py:97-107 | The "no changes" line is printed iff no path was added, updated or removed |
| UpdateCommand.ApplyPlan | src/cli/commands/update.py:81-87 | Index request only when there is something to index, delete request only when there are ids, in that order; the deleted count is 0 when nothing is deleted |
| UpdateCommand.Update | src/cli/commands/update.py:27-107 | Without credentials the command fails before touching the store; otherwise the requests sent are exactly the plan's, and the summary reports the plan, the deleted count and the skip count |
| UpdateCommand.TestScenario | tests/test_cli.py:137-177 | The stored id `existing-id` is kept on the re-indexed document, and exactly `["old-id"]` is deleted |
| Config.UrlShape | src/core/config.py:44-47 | The URL starts with `scheme://` and the text after its last `:` reads back as the port |
| Config.AuthKwargs | src/core/config.py:49-67 | Exactly one mechanism, API key before bearer token before the username/password pair, each only when set; no mechanism iff `has_credentials` is false |
| Config.ApiKeyTakesPrecedence | src/core/config.py:61-62 | A configured API key is chosen whatever else is configured |
| Config.TryInt | src/core/config.py:140-148 | `None` stays `None`; a string is read as `int()` reads ASCII text, `None` where it raises |
| Config.TryIntReadsIntegers | src/core/config.py:140-148 | `_try_int(str(n)) == n` for every integer |
| Config.TryIntRejectsText | src/core/config.py:145-148 | A string holding an ASCII character that is not a digit, sign, underscore or whitespace gives `None` |
| Config.ComputeDeepMerge | src/core/config.py:79-92 | The loop over the override yields the deep merge |
| Config.StoreMerged | src/core/config.py:84-91 | The loop body stores the merged value: recursive merge when both sides are dictionaries, the override's value otherwise |
| Config.MergeFromUnique | src/core/config.py:82-92 | Merging keeps keys distinct |
| Config.MergeFromAbsent | src/core/config.py:83-91 | A key the rest of the override does not hold keeps its value |
| Config.MergeFromPresent | src/core/config.py:83-91 | A key of the override gets the merge of the value before and the override's value |
| Config.DeepMergeSpec | src/core/config.py:79-92 | The result has the keys of both sides; base-only keys keep their value; override keys take the override's value, except that two dictionaries are merged recursively |
| Config.ComputeCleanDict | src/core/config.py:151-162 | The loop yields the cleaned dictionary |
| Config.StoreCleaned | src/core/config.py:155-161 | A nested dictionary is cleaned and kept only when non-empty; `None` is dropped; anything else is kept |
| Config.CleanUpToTidy | src/core/config.py:151-162 | The result has no `None` value and no empty nested dictionary at any depth, distinct keys at every depth, and only keys of the input |
| Config.CleanUpToFixes | src/core/config.py:151-162 | A dictionary that is already tidy is returned unchanged |
| Config.CleanDictSpec | src/core/config.py:151-162 | The result is tidy, holds only input keys, and cleaning twice equals cleaning once |
| Config.CleanUpToGet | src/core/config.py:155-161 | Each key seen holds what is kept of its value; keys not yet seen are absent |
| Config.CleanDictGet | src/core/config.py:151-162 | A key of the result holds what is kept of the input's value, and no other key appears |
| Config.EnvOverridesYaml | src/core/config.py:109-131 | A plain value the environment sets in a section survives cleaning and merging and wins over whatever the YAML file held |
| WebApp.RequireAuth | src/web/app.py:67-99 | Allowed iff the API key, the bearer token or the basic pair is configured and matched; otherwise 401, "not configured" with no headers when nothing is configured, else "Unauthorized" with exactly the Basic challenge as headers when basic is configured and no headers otherwise |
| WebApp.AnonymousRejected | src/web/app.py:75-99 | A request presenting nothing is always rejected with 401 |
| WebApp.GateMatchesClient | src/web/app.py:75-83 | Every request is rejected exactly when the client has no authentication mechanism |
| WebApp.ClientCredentialsAdmitted | src/web/app.py:84-94 | Presenting the credentials the client is built with passes the gate |
| WebApp.ApiKeyAlone | src/web/app.py:84-86 | Over the parsed headers, a matching API key is accepted whatever bearer or basic credentials are also presented |
| WebApp.WrongPasswordRejected | src/web/app.py:90-99 | Basic authentication rejects a wrong password with a Basic challenge |
| WebApp.TestScenario | tests/test_web_api.py:57-75 | With user `elastic`/`changeme`, no headers gets 401 with a Basic challenge, and the right pair gets through |
| WebApp.ValidateIndexRequest | src/web/app.py:115-137 | A folder is indexed iff it is non-empty, exists and is a directory; otherwise an upload needs a non-empty name and a lower-cased suffix `.txt` or `.pdf`; with neither, a 400 |
| WebApp.UploadAgreesWithIndexer | src/web/app.py:135-137 | A named upload is accepted exactly when the indexer reads files of its type |
| WebApp.NamedUpload | src/web/app.py:131-137 | A named upload with a supported suffix is accepted with that suffix |
| WebApp.UploadTxtAccepted | tests/test_web_api.py:101-110 | `upload.txt` is accepted as a text upload |
| WebApp.UploadDocument | src/web/app.py:144-158 | The uploaded document's path and id are the file name, its name the final component, its size the bytes received, its time the request's; the rest comes from extraction |
| WebApp.UploadStoredUnderFilename | src/web/app.py:146-151 | An uploaded document is stored under its file name |
| WebApp.IntOf | src/web/app.py:201-204 | Python `int()` on a JSON value: integers and booleans convert; text that parses gives the number it denotes and other text raises `ValueError`; anything else raises `TypeError` |
| WebApp.ExtractTotalHits | src/web/app.py:198-205 | The `value` of an object that has one, converted by `int()`; an integer itself; a boolean as 1 or 0; 0 otherwise; only an object's value can raise |
| WebApp.TotalHitsOfCount | src/web/app.py:198-205 | `{"value": n}`, `{"relation": ..., "value": n}` and `n` all give `n` |
| WebApp.TotalHitsOfText | src/web/app.py:201-202 | A `value` written as the decimal text of `n` gives `n` |
| StoreService.ToSource | src/services/elasticsearch_service.py:34-58 | The loop builds the body `Source` describes |
| StoreService.SourceFields | src/services/elasticsearch_service.py:34-58 | Distinct keys; path, content, size and lastModified first, with the document's values; each optional field present iff not `None`, with the same value; no other key |
| StoreService.SourceShape | src/services/elasticsearch_service.py:37-56 | The body's keys are distinct, start with the four mandatory names, and include no other names than the ten fields |
| StoreService.MandatoryGet | src/services/elasticsearch_service.py:37-42 | The four mandatory fields hold the document's values |
| StoreService.OptionalGet | src/services/elasticsearch_service.py:44-56 | Each optional field is present iff it is not `None`, with the same value |
| StoreService.PresentGet | src/services/elasticsearch_service.py:53-56 | The entries kept from the optional fields are exactly those holding a value |
| StoreService.StoreId | src/services/elasticsearch_service.py:150 | The `_id` is the document's id when non-empty, else its path |
| StoreService.IndexActions | src/services/elasticsearch_service.py:146-154 | One index action per document, in order, with the store id and the document's body |
| StoreService.DeleteActions | src/services/elasticsearch_service.py:181-188 | One delete action per id, in order |
| StoreService.DeleteActionIds | src/services/elasticsearch_service.py:181-188 | The delete actions name the given ids, in order |
| StoreService.PathMapSpec | src/services/elasticsearch_service.py:304-317 | One entry per non-empty path; a path maps to the id and time of the last hit carrying it |
| StoreService.MaxUptime | src/services/elasticsearch_service.py:237-240 | At least 0 and every node's uptime; equal to one of them unless 0 |
| StoreService.LargestUptime | src/services/elasticsearch_service.py:237-240 | The loop computes the largest uptime, 0 for no nodes |
| StoreService.ElasticsearchService.constructor | src/services/elasticsearch_service.py:64-66 | A new service has its settings and no client |
| StoreService.ElasticsearchService.Connect | src/services/elasticsearch_service.py:68-75 | The client is built from the URL and the chosen mechanism on first use, then reused |
| StoreService.ElasticsearchService.IndexDocuments | src/services/elasticsearch_service.py:141-163 | No documents: nothing sent, 0 returned; otherwise one bulk request with the index actions, and its success count returned |
| StoreService.ElasticsearchService.DeleteDocuments | src/services/elasticsearch_service.py:171-193 | No ids: nothing sent, 0 returned; otherwise one bulk request with the delete actions |
| StoreService.ElasticsearchService.ExistingDocuments | src/services/elasticsearch_service.py:299-320 | The loop over the hits yields the path map |
| StoreService.ElasticsearchService.Stats | src/services/elasticsearch_service.py:230-277 | The statistics carry the store's figures and the largest node uptime |
| StoreService.ElasticsearchService.Close | src/services/elasticsearch_service.py:322-327 | An open client is closed once and dropped; with none open nothing happens, so a second close changes nothing |
| FileIndexer.SplitOn | src/services/file_indexer.py:200 | Splitting always yields at least one piece |
| FileIndexer.SplitOnPieces | src/services/file_indexer.py:200 | No piece holds a separator |
| FileIndexer.SplitJoin | src/services/file_indexer.py:200 | Splitting undoes joining, for pieces free of separators |
| FileIndexer.KeepStrippedItems | src/services/file_indexer.py:198-202 | Every kept item is stripped, non-empty and free of `,` and `;` |
| FileIndexer.KeepStrippedClean | src/services/file_indexer.py:198-202 | Items that are already clean are kept as they are |
| FileIndexer.SplitKeywordsShape | src/services/file_indexer.py:192-204 | `None` for a missing or empty value; a result is a non-empty list of clean items |
| FileIndexer.KeywordsRoundTrip | src/services/file_indexer.py:192-204 | Clean keywords joined by commas split back to themselves |
| FileIndexer.CleanText | src/services/file_indexer.py:161-162 | A cleaned value is non-empty and neither starts nor ends with `/` |
| FileIndexer.DecodePdfValue | src/services/file_indexer.py:151-163 | `None` stays `None`; text and decoded bytes are cleaned; any other value is its `str` |
| FileIndexer.DecodeClean | src/services/file_indexer.py:161-162 | A clean value decodes to itself |
| FileIndexer.DecodeName | src/services/file_indexer.py:161-162 | A PDF name such as `/Author` decodes to the name without its slash |
| FileIndexer.ApplyKind | src/services/file_indexer.py:133-144 | Author, title and language take a non-empty value only; a date only when it parses; keywords are always replaced; nothing else changes |
| FileIndexer.ExtractPdfMetadata | src/services/file_indexer.py:111-144 | The nested loop applies every entry of every information dictionary in order, from empty fields |
| FileIndexer.ApplyInfo | src/services/file_indexer.py:127-144 | The inner loop applies one dictionary's entries in order |
| FileIndexer.ApplyEntriesConcat | src/services/file_indexer.py:126-144 | Applying two runs of entries is applying one after the other |
| FileIndexer.LastAuthorWins | src/services/file_indexer.py:126-134 | The author is the value of the last author entry with a value, with the key matched in any case; with none it is unchanged |
| FileIndexer.AuthorStep | src/services/file_indexer.py:128-134 | An author entry with a value sets the author; any other entry leaves it |
| FileIndexer.KeywordsOverwrite | src/services/file_indexer.py:143-144 | A keywords entry always replaces the keywords with the split of its value, and changes nothing else |
| FileIndexer.ApplyEntryNonEmpty | src/services/file_indexer.py:133-142 | One entry never stores empty text |
| FileIndexer.FieldsNonEmpty | src/services/file_indexer.py:126-142 | Author, title, date and language only ever hold non-empty text |
| FileIndexer.ExtractDocumentSpec | src/services/file_indexer.py:79-105 | An unsupported lower-cased suffix is an error; otherwise the text and metadata are extracted; the name is the file name; a text file is dated by its modification time and has no other field; a PDF takes its five fields from applying its information dictionaries' entries in order, and its author, title, date and language are never empty |
| FileIndexer.ReadDocument | src/services/file_indexer.py:79-105 | Extraction as the source runs it, reading a PDF's fields with the metadata loop, gives what `ExtractDocument` describes |
| FileIndexer.CollectDocuments | src/services/file_indexer.py:31-68 | The loop yields the documents and the skip count `Collected` describes |
| FileIndexer.ScanExtracted | src/services/file_indexer.py:43-66 | A file that extracts is appended as a document, whatever came before |
| FileIndexer.CollectedAccounts | src/services/file_indexer.py:37-66 | Each supported file becomes a document or is counted as skipped; non-files and unsupported files are neither; each document's id is its path |
| FileIndexer.CollectOneTextFile | tests/test_file_indexer.py:7-21 | One readable `example.txt` gives one document named `example.txt`, with its resolved path as id, a date, no language and no keywords, and nothing skipped |
| StatsCommand.DoubleQuotes | src/cli/commands/stats.py:83 | Doubling quotes adds no new character |
| StatsCommand.EscapeCsv | src/cli/commands/stats.py:80-84 | Text needing no quotes is unchanged; otherwise the result is wrapped in double quotes and adds no character besides `"` |
| StatsCommand.EscapeRoundTrip | src/cli/commands/stats.py:80-84 | Unescaping (dropping the outer quotes and collapsing `""`) recovers the text |
| StatsCommand.CsvLines | src/cli/commands/stats.py:73-76 | The header `metric,value`, then one `key,escaped value` line per statistic, in dictionary order |
| StatsCommand.ToCsv | src/cli/commands/stats.py:73-77 | The loop builds the lines and joins them with line breaks |
| StatsCommand.LineRoundTrip | src/cli/commands/stats.py:76 | A key without commas and its value's text are read back from the line |
| StatsCommand.PlainLines | src/cli/commands/stats.py:73-77 | No line of the CSV of plain statistics holds a line break |
| StatsCommand.CsvRoundTrip | src/cli/commands/stats.py:73-77 | Reading the CSV of plain statistics back gives every key with its value's text, in order |
| StatsCommand.RenderOutput | src/cli/commands/stats.py:54-61 | A CSV printout is the CSV text |
| StatsCommand.ExportStats | src/cli/commands/stats.py:64-70 | A CSV export is the CSV text |
| StatsCommand.FormatSelection | src/cli/commands/stats.py:54-70 | The format's case does not matter; the export is JSON iff the printout is; a table printout exports CSV |
| StatsCommand.FormatExamples | src/cli/commands/stats.py:54-70 | `CSV` prints CSV, `Table` prints the table, and `table` exports CSV |
| StatsCommand.Stats | src/cli/commands/stats.py:35-51 | The statistics are printed in the chosen format and exported as well when a path is given |
| PyText.StripShape | src/services/file_indexer.py:199 | `strip` returns the middle slice, and everything cut off is in the stripped set |
| PyText.StripIdempotent | src/services/file_indexer.py:199 | Stripping twice strips nothing more |
| PyText.LowerIdempotent | src/services/file_indexer.py:131 | Lower-casing twice is lower-casing once |
| PyText.ParseDecimalString | src/core/config.py:146 | `int(str(n)) == n` |
| PyText.ParseIntRejectsForeignChar | src/core/config.py:145-148 | An ASCII character that is no digit, sign, underscore or whitespace makes `int()` fail |
| PurePath.NameShape | src/services/file_indexer.py:87 | The name is the tail after the last `/` and holds no `/` |
| PurePath.SuffixShape | src/services/file_indexer.py:82 | A suffix is empty or a dot with at least one more character and no further dot, a proper tail of the name |
| PurePath.SuffixOfExtension | src/services/file_indexer.py:82 | `stem.ext` has suffix `.ext` |
| PurePath.NoDotNoSuffix | src/services/file_indexer.py:82 | A name without a dot past its first character has no suffix |
| OrderedDict.Put | src/core/config.py:89-91 | `d[k] = v`: `k` maps to `v`, other keys unchanged, an existing key keeps its place, a new one is appended |
| OrderedDict.Remove | src/cli/commands/update.py:62 | `pop`: the key is gone, other keys keep their values and their order |

## Left out

- Elasticsearch itself: every call to the store is replaced by what it answers, given as a parameter. This covers the bulk success count, the scan hits and the statistics figures.
- The retry decorators, with their attempts and exponential backoff. This is third-party timing and exception behaviour.
- `ensure_index` and its settings and mappings literal. This is static configuration with no decision logic.
- `search`, `count_documents` and `analyze_text`, and the search and stats endpoints beyond `_extract_total_hits`. These are plain store calls.
- `average_query_time_ms` in `stats`, and floats in `_extract_total_hits` (`int(float)`). This is floating point. The modelled statistics dictionary has no such entry.
- Exceptions raised by the store mid-command, and the error messages that wrap them. The model follows the path on which the store answers.
- File I/O, pdfminer text extraction, the directory walk, `stat`, UTF-8 decoding of bytes and `NamedTemporaryFile`. Their results are parameters: a list of directory entries with their read text, or the decoded text of a bytes value.
- `_parse_pdf_date`, `datetime.fromtimestamp` and `datetime.now`. These are library date parsing and clock reads, given as a parameter or as ISO text.
- `load_config`'s YAML and `.env` reading and `os.getenv`. These are environment and file I/O. The merge of the two dictionaries they produce is modelled.
- Logging, click and FastAPI plumbing (routing, dependency injection, multipart parsing, `lifespan`), JSON encoding and table rendering. These are framework and terminal output. Printed and exported output is a datatype naming the format and its content.
- WebApp.RequireAuth: `secrets.compare_digest` is string equality. Its constant-time behaviour cannot be expressed. Credentials are taken to be ASCII: on non-ASCII text `compare_digest` raises `TypeError`, which the service answers with a 500, and the model does not have that path.
- WebApp.ApiKeyAlone: the gate sees headers already parsed. A malformed `Authorization: Basic` header is answered with a 401 by FastAPI's `HTTPBasic` before the gate runs, and that parsing is not modelled.
- Config.TryInt: only ASCII digits are read. Python's `int()` also reads other Unicode decimal digits (`int("١") == 1`), and the 4300-digit limit on `int`/`str` conversion is not modelled.
- PyText.ParseInt: only ASCII digits are read. Other Unicode decimal digits and the 4300-digit limit on `int`/`str` conversion are not modelled.
- FileIndexer.ExtractDocument: a pdfminer failure part-way through the information dictionaries is modelled by a directory entry that holds only the dictionaries read before it; `_parse_pdf_date` is a parameter.
- PyText.Lower: only ASCII letters are lower-cased. Unicode case mapping is outside the model.
- PurePath.Name: paths are `/`-separated text without normalisation. `expanduser`, `resolve` and `exists` are given as parameters.
- UpdateCommand.ScanMatchesReference: the agreement is proved only for distinct scanned paths. Two scanned files can resolve to one path through symbolic links.
- UpdateCommand.PlanPartition: disjointness is proved only for distinct scanned paths. With a repeated path the same path can be both updated and added, as UpdateCommand.DuplicatePathAdded shows.
- UpdateCommand.Reconcile: the in-place `doc.doc_id = ...` is modelled by returning the documents with their new ids. Aliasing of the caller's documents is not captured.
- StatsCommand.StrOf: `str(value)` covers integers, text and `None` only.
