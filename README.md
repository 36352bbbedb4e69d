# Snowhack upload chunking, modelled in Dafny

Snowhack is a Streamlit application on Snowflake. A signed-in user uploads a
document, asks questions about it and gets answers from Snowflake Cortex.
This project models the upload step, `process_and_upload_file`, in the two
revisions the repository holds:

- **The text revision** PUTs the file on a named stage (`DOCS` by default)
  and asks `CORTEX.PARSE_DOCUMENT` for its text. If the parse returns text, it
  writes one `UPLOADED_FILES_METADATA` row. It then writes one
  `DOCS_CHUNKS_TABLE` row per 8192-character window of the text.
- **The binary revision** PUTs the file and writes the metadata row. It then
  writes one chunk row per 8192-byte window of the raw content, storing the
  window as `chunk.hex()`.

In both revisions every chunk row carries:

- the original file name (`RELATIVE_PATH`);
- the window's length (`SIZE`);
- the stage location `@stage/safe_filename` (`FILE_URL`), where
  `safe_filename` replaces each space by an underscore;
- the window itself (`CHUNK`);
- the user and the login session.

The viewing code reads a stored chunk back with `bytes.fromhex(...)` and falls
back to a `Binary content: ...` line when the chunk is not hex. Previews are
truncated to 1000, 100 or 200 characters with a trailing `...`.

The files of the model:

- `chunking.dfy` holds the generic windowing of `range(0, len, n)` with
  clamped slices, with the chunk count as the ceiling of len / n.
- `hex.dfy` holds `bytes.hex` and `bytes.fromhex` with Python 3.7+ semantics:
  - both digit cases are accepted;
  - ASCII whitespace is skipped before a digit pair;
  - any other character, or a dangling digit, is an error, modelled as `None`.
- `naming.dfy` holds `safe_filename` and `FILE_URL`.
- `preview.dfy` holds the truncations and the decoding of a stored chunk.
- `store.dfy` models the Snowflake connection as a `Connection` class:
  - the statements it accepted form a log;
  - the stage is a map from location to bytes;
  - a failure point `failAt` makes every `cursor.execute` from some point on
    raise;
  - the two tables are projections of the log;
  - the `Ran` predicate says what issuing a list of statements one after the
    other does: stop at the first one that raises.
- `ingest.dfy` holds:
  - the rows and statement plans each revision issues, as functions;
  - the two chunk loops, and both revisions of `process_and_upload_file`, as
    methods over the connection, proved against those plans;
  - the lemmas about rows, tables and ordering.

## Model

| member | source | states |
|---|---|---|
| Chunking.Chunk | snowhack.py:55-56 | The windows of `content[i:i + n]` for i in `range(0, len, n)`, defined as the first clamped window followed by the windows of the rest (also lines 216-217). Its contract: there is no window iff the content is empty. |
| Chunking.WindowCount | snowhack.py:55 | The number of offsets `range(0, len, n)` visits is the least k with len <= k*n. It is zero exactly for empty content. |
| Chunking.ChunkSizes | snowhack.py:55-56 | Every window is non-empty and at most n long, and every window but the last is exactly n long. Empty content, and only empty content, has no window. |
| Chunking.ChunkReconstructs | snowhack.py:55-56 | Concatenating the windows in creation order gives back the content exactly. |
| Chunking.ChunkCount | snowhack.py:216-217 | There are exactly ceil(len / n) windows. |
| Chunking.ChunkAt | snowhack.py:216-217 | The k-th window is the slice `content[k*n : k*n+n]` clamped to the end, and k*n lies inside the content. |
| Hex.ToHex | snowhack.py:227 | `chunk.hex()` writes two characters per byte. |
| Hex.ToHexIsLowerHex | snowhack.py:227 | `chunk.hex()` writes only lower-case hex digits. |
| Hex.FromHex | snowhack.py:243 | `bytes.fromhex` yields at most half as many bytes as the string has characters. |
| Hex.FromHexToHex | snowhack.py:227 | Decoding what `hex()` wrote gives back the bytes (`bytes.fromhex(b.hex()) == b`). |
| Hex.ToHexFromHex | snowhack.py:243 | An even-length lower-case hex string decodes, and it is exactly the encoding of what it decodes to. |
| Hex.EvenLowerHexDecodes | snowhack.py:243 | `bytes.fromhex` accepts every even-length string of lower-case hex digits. |
| Hex.LowerHexDecodesIffEven | snowhack.py:310 | A lower-case hex digit string decodes iff its length is even. This is the exact line between a decoded stored chunk and the fallback. |
| Hex.FromHexRejectsOddLength | snowhack.py:310 | A lower-case digit string of odd length raises ValueError, modelled as `None`. |
| Naming.SafeFilename | snowhack.py:188 | `replace(" ", "_")` keeps the name's length. |
| Naming.SafeFilenameReplacesSpaces | snowhack.py:14 | No space is left: each space becomes `_` and every other character is kept. |
| Naming.SafeFilenameIdempotent | snowhack.py:188 | Sanitising a safe filename again changes nothing. |
| Naming.SafeFilenameCollides | snowhack.py:14 | Two names share a safe filename iff they have the same length and differ only by space against underscore. |
| Naming.FileUrl | snowhack.py:64 | The f-string `@{stage_name}/{safe_filename}` (also line 226). Its contract gives the length: the stage, the safe filename and two separators. |
| Naming.DefaultStageUrl | snowhack.py:174 | With the default stage `DOCS`, FILE_URL starts with `@DOCS/` and holds no space. |
| Naming.FileUrlParts | snowhack.py:64 | FILE_URL is `@`, the stage, `/` and the safe filename, at the stated positions. |
| Naming.FileUrlInjective | snowhack.py:226 | For stage names without a slash, the FILE_URL determines both the stage and the safe filename. |
| Naming.FileUrlSameStage | snowhack.py:226 | On one stage, two FILE_URLs are equal iff the safe filenames are. |
| Naming.StageLocationCollides | snowhack.py:22 | Two files on one stage get the same PUT target and FILE_URL iff their names agree up to spaces against underscores. |
| Preview.Truncate | snowhack.py:75 | `s[:n] + "..." if len(s) > n else s` (also lines 85, 244 and 423). Its contract: the result is never more than three characters over the limit, nor more than three over the input. |
| Preview.PreviewLimits | snowhack.py:75-85 | With the source's limits, the extracted text preview is at most 1003 characters, a chunk preview at most 103 and a decoded chunk at most 203 (line 423). |
| Preview.TruncateBounded | snowhack.py:75 | A string within the limit is shown as is. A longer one keeps its first `limit` characters followed by `...`. The result is at most limit+3 long. |
| Preview.TruncateIdempotent | snowhack.py:85 | Truncating a preview again with the same limit changes nothing. |
| Preview.BinaryFallback | snowhack.py:246 | The fallback line starts with `Binary content: ` and is 19 to 119 characters long. |
| Preview.FallbackShownWhole | snowhack.py:317-318 | The 200-character truncation of search results never cuts a fallback line (lines 317-318 and 423). |
| Preview.DecodeChunk | snowhack.py:243-246 | `bytes.fromhex(chunk).decode(...)`, or the fallback line on ValueError (also lines 310-318). Its contract: a lower-case hex chunk is decoded when its length is even and shown as the fallback when it is odd. |
| Preview.DecodeWrittenChunk | snowhack.py:243 | A chunk written by `hex()` always decodes to its window and never reaches the fallback. |
| Store.ChunkTable | snowhack.py:219-230 | DOCS_CHUNKS_TABLE as the executed statements leave it: the rows of the chunk inserts, in execution order. Its contract: never more rows than statements. |
| Store.MetadataTable | snowhack.py:201-210 | UPLOADED_FILES_METADATA as the executed statements leave it: the rows of the metadata inserts, in execution order. Its contract: never more rows than statements. |
| Store.Connection.Ran | snowhack.py:195-252 | Issuing a plan inside the `try`, where the first statement that raises ends the upload with False. The log gains a prefix of the plan whose statements were accepted, and ok means the whole plan ran. Its contract: the log only grows, and on success it gains exactly the plan. |
| Store.TablesAppend | snowhack.py:219-230 | Executing more statements only appends rows to both tables. |
| Store.TablesOfOne | snowhack.py:201-210 | A single INSERT adds exactly its row to its own table and nothing to the other. |
| Store.Connection.Execute | snowhack.py:197 | An accepted statement is appended to the log, and a PUT stores the data under its location. A refused one changes nothing. |
| Store.Connection.RanCompleted | snowhack.py:197-231 | A run of a plan goes through exactly the statements before the failure point. |
| Store.Connection.RanThen | snowhack.py:197-231 | A plan that went through whole, followed by a second run, makes one run of the concatenated plan. |
| Store.Connection.RanStep | snowhack.py:216-231 | One more accepted statement extends the run by one. A refused one ends the whole plan as failed. |
| Store.Connection.RanStopped | snowhack.py:250-252 | Once a statement raises, no later statement of the plan is issued. |
| Ingest.TextRows | snowhack.py:55-68 | The DOCS_CHUNKS_TABLE rows the text revision builds: one per window of the extracted text, with the file name, SIZE, FILE_URL, window, user and session. Its contract: there are no rows iff the text is empty. |
| Ingest.BinaryRows | snowhack.py:216-230 | The same for the binary revision, with the window's hex as CHUNK. Its contract: there are no rows iff the file is empty. |
| Ingest.ParsedTextPlan | snowhack.py:40-68 | The statements issued once the parse returned text: the metadata insert, then one chunk insert per row. Its contract: one more statement than there are rows. |
| Ingest.TextPlan | snowhack.py:21-68 | All the statements the text revision issues, in order: PUT, PARSE_DOCUMENT, then the parsed plan if text came back. Its contract: 2 statements, or 3 plus the row count. |
| Ingest.BinaryPlan | snowhack.py:196-230 | All the statements the binary revision issues, in order: PUT, the metadata insert, then the chunk inserts. Its contract: 2 statements plus the row count. |
| Ingest.TextRowsShape | snowhack.py:52-69 | There are ceil(len / 8192) text rows. Each carries the file name, FILE_URL, user and session, and has SIZE equal to its chunk's length, between 1 and 8192. All but the last have SIZE 8192. |
| Ingest.BinaryRowsShape | snowhack.py:213-231 | The same for the binary rows, where each CHUNK is 2*SIZE lower-case hex digits. |
| Ingest.TextRowAt | snowhack.py:55-68 | The k-th text row holds `content[8192k : 8192k+8192]`. |
| Ingest.BinaryRowAt | snowhack.py:216-230 | The k-th binary row holds the hex of `file_content[8192k : 8192k+8192]`. |
| Ingest.TextRowsReconstruct | snowhack.py:55-65 | Joining the CHUNK column of the text rows in order gives back the extracted text. |
| Ingest.BinaryRowsDecode | snowhack.py:227 | Each binary CHUNK decodes to exactly its window, whose length is its SIZE. |
| Ingest.ReadBackHexRows | snowhack.py:243 | Decoding rows written with `hex()` and joining them gives the windows joined. |
| Ingest.BinaryRowsReadBack | snowhack.py:216-227 | Decoding all binary rows in creation order and joining them gives back the uploaded bytes. |
| Ingest.EmptyContentNoRows | snowhack.py:216 | There are no chunk rows iff the content is empty, so no empty chunk is ever stored. |
| Ingest.ChunkInsertsTables | snowhack.py:57-68 | The chunk inserts add exactly their rows to DOCS_CHUNKS_TABLE and nothing to the metadata table. |
| Ingest.ChunksAfterHead | snowhack.py:219-230 | The chunk inserts append their rows after whatever the earlier statements wrote. |
| Ingest.ChunkInsertsPosition | snowhack.py:216-231 | After a head with no chunk insert, the chunk inserts are exactly the statements past the head. |
| Ingest.NoRows | snowhack.py:22-33 | The PUT and the parse write no table row. |
| Ingest.MetadataThenChunks | snowhack.py:201-231 | A plan of PUT/parse, one metadata insert and then chunk inserts adds exactly that metadata row and those chunk rows. |
| Ingest.MetadataThenChunksOrder | snowhack.py:200-219 | In such a plan the metadata insert comes right after the prefix, and the chunk inserts are exactly the later statements. |
| Ingest.MetadataThenChunksPrefix | snowhack.py:201-231 | After the first k statements of such a plan, the metadata row is present once the prefix has run, and the chunk rows are the first k-prefix-1. |
| Ingest.BinaryPlanTables | snowhack.py:196-231 | A completed binary upload issues ceil(len/8192)+2 statements. It adds one metadata row then its chunk rows: statement 1 is the metadata insert, and exactly statements 2.. are chunk inserts. |
| Ingest.TextPlanTables | snowhack.py:21-69 | A completed text upload issues 2 statements when the parse gives nothing, else ceil(len/8192)+3. It adds no row in the first case. Otherwise it adds the metadata row (statement 2) and then exactly the chunk rows (statements 3..). |
| Ingest.BinaryPartialTables | snowhack.py:196-231 | A binary upload stopped after k statements leaves the metadata row iff k >= 2, and the first k-2 chunk rows. No chunk row exists without the metadata row. |
| Ingest.TextPartialTables | snowhack.py:21-69 | A text upload stopped after k statements leaves the metadata row iff text was parsed and k >= 3, and the first k-3 chunk rows. |
| Ingest.BinaryUploadTables | snowhack.py:196-231 | A completed binary upload appends its metadata row and its chunk rows to the existing tables. |
| Ingest.TextUploadTables | snowhack.py:21-69 | A completed text upload appends its metadata row and chunk rows, or nothing when the parse returns nothing. |
| Ingest.ReuploadDuplicates | snowhack.py:200-231 | Nothing guards against duplicates: uploading the same file twice writes two metadata rows and two copies of the chunk rows. |
| Ingest.InsertTextChunks | snowhack.py:52-69 | The text chunk loop issues exactly the planned chunk inserts in order, stopping at the first that raises. `chunks_created` counts the accepted ones and equals ceil(len/8192) on success. The stage is untouched. |
| Ingest.InsertBinaryChunks | snowhack.py:213-231 | The same for the binary chunk loop, with the hex of each byte window. |
| Ingest.ProcessBinaryFile | snowhack.py:174-252 | The binary revision runs its plan (PUT, metadata, chunks) up to the first failure and succeeds iff all of it went through. The stage holds the file under its FILE_URL iff the PUT was accepted. |
| Ingest.StoreParsedText | snowhack.py:36-69 | With parsed text, the metadata insert and then the chunk loop run as one plan. |
| Ingest.ProcessTextFile | snowhack.py:1-93 | The text revision runs its plan (PUT, parse, and then metadata and chunks if text came back) up to the first failure. The stage holds the file iff the PUT was accepted. `chunks_created` is 0 with no text, else ceil(len/8192). |

## Left out

- Streamlit: the UI calls, messages and session state are left out. The user
  name and session id are the `Scope` parameter.
- Snowflake itself: SQL text, the network and result sets are left out. A
  statement is a `Statement` value, the tables are projections of the
  connection's log and the stage is a map.
- The failure model is a single point after which every execute raises. It
  cannot express a failure followed by a success within one upload, which the
  code never retries anyway.
- Temporary files: `os.makedirs`, the local copy and its removal in `finally`
  are left out. A failure to create the copy returns False before any
  statement is issued, and that path is not modelled. A failure to remove it
  is swallowed.
- The steps after the chunk loop:
  - the success messages;
  - the display of the extracted text and chunks;
  - `get_chunks_for_file`, which orders rows by SIZE and does not filter by
    session.

  They issue no write. Only the truncations and the hex decoding they use are
  modelled, in `Preview`. An exception raised there makes the function return
  False after all rows were written, which is not modelled.
- PARSE_DOCUMENT's output is the `parsed` parameter: `None` when the result is
  falsy, otherwise the `content` field. The parser's behaviour is not part of
  this model.
- UTF-8 decoding with `errors='ignore'` is the `utf8` parameter of
  `Preview.DecodeChunk`.
- authenticate, register, sha256, search_documents' Cortex calls and
  EXTRACT_ANSWER are left out, as they are outside the upload step.
- The code has no duplicate-upload guard, text normaliser, sentence-aware
  chunker or retry loop, so none is modelled. `Ingest.ReuploadDuplicates`
  states the duplicate rows that result.
- SIZE means characters in the text revision and bytes in the binary revision.
  Each is modelled as the revision computes it.
- Hex.FromHex: models Python 3.7 and later, where whitespace is accepted only
  before a digit pair. Older Pythons rejected different inputs.
- Naming.FileUrlInjective: holds only for stage names without a slash. A
  slash in the stage name can make two (stage, file) pairs share a FILE_URL.
