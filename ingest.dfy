/**
  process_and_upload_file, in its two revisions. Both upload the file to the
  stage, write one UPLOADED_FILES_METADATA row and then one DOCS_CHUNKS_TABLE
  row per 8192-element window of the content, counting them in
  `chunks_created`.

  - The text revision asks PARSE_DOCUMENT for the file's text and chunks that
    text; a row's CHUNK is the text window and its SIZE the window's length
    in characters. When the parser returns nothing, no row is written and the
    upload still succeeds.
  - The binary revision chunks the raw bytes; a row's CHUNK is the window as
    `bytes.hex()` and its SIZE the window's length in bytes.

  The user and session the rows are scoped by are passed in as a `Scope`;
  the text PARSE_DOCUMENT returns is a parameter.
*/
module Ingest {
  import opened Wrappers
  import opened Chunking
  import opened Hex
  import opened Naming
  import opened Store

  /** `chunk_size = 8192`, in both revisions. */
  const ChunkSize: nat := 8192

  /** The user and login session every row is written for. */
  datatype Scope = Scope(username: string, sessionId: string)

  function MetadataRow(scope: Scope, stageName: string, fileName: string): FileMetadata {
    FileMetadata(scope.username, scope.sessionId, stageName, fileName)
  }

  /** The DOCS_CHUNKS_TABLE row the text revision writes for one window of extracted text. */
  function TextRow(fileName: string, url: string, scope: Scope, window: string): ChunkRow {
    ChunkRow(fileName, |window|, url, window, scope.username, scope.sessionId)
  }

  /** The DOCS_CHUNKS_TABLE row the binary revision writes for one window of the file's bytes. */
  function HexRow(fileName: string, url: string, scope: Scope, window: seq<byte>): ChunkRow {
    ChunkRow(fileName, |window|, url, ToHex(window), scope.username, scope.sessionId)
  }

  function TextRowsOf(fileName: string, url: string, scope: Scope, windows: seq<string>): seq<ChunkRow> {
    seq(|windows|, k requires 0 <= k < |windows| => TextRow(fileName, url, scope, windows[k]))
  }

  function HexRowsOf(fileName: string, url: string, scope: Scope, windows: seq<seq<byte>>): seq<ChunkRow> {
    seq(|windows|, k requires 0 <= k < |windows| => HexRow(fileName, url, scope, windows[k]))
  }

  /** The rows the text revision writes for extracted text `content`, in creation order. */
  function TextRows(fileName: string, stageName: string, scope: Scope, content: string): (rows: seq<ChunkRow>)
    ensures rows == [] <==> content == []
  {
    TextRowsOf(fileName, FileUrl(stageName, SafeFilename(fileName)), scope, Chunk(content, ChunkSize))
  }

  /** The rows the binary revision writes for file bytes `data`, in creation order. */
  function BinaryRows(fileName: string, stageName: string, scope: Scope, data: seq<byte>): (rows: seq<ChunkRow>)
    ensures rows == [] <==> data == []
  {
    HexRowsOf(fileName, FileUrl(stageName, SafeFilename(fileName)), scope, Chunk(data, ChunkSize))
  }

  /** The CHUNK column of some rows, in order. */
  function Contents(rows: seq<ChunkRow>): seq<string> {
    seq(|rows|, k requires 0 <= k < |rows| => rows[k].chunk)
  }

  /** Decoding every CHUNK with `bytes.fromhex` and joining the results, None if one is not hex. */
  function ReadBack(rows: seq<ChunkRow>): Option<seq<byte>> {
    if rows == [] then Some([])
    else
      match FromHex(rows[0].chunk)
      case None => None
      case Some(first) =>
        match ReadBack(rows[1..])
        case None => None
        case Some(others) => Some(first + others)
  }

  function ChunkInserts(rows: seq<ChunkRow>): seq<Statement> {
    seq(|rows|, k requires 0 <= k < |rows| => InsertChunk(rows[k]))
  }

  /** The statements the text revision issues once the parse has returned `content`. */
  function ParsedTextPlan(fileName: string, stageName: string, scope: Scope, content: string): (plan: seq<Statement>)
    ensures |plan| == 1 + |TextRows(fileName, stageName, scope, content)|
  {
    [InsertMetadata(MetadataRow(scope, stageName, fileName))] + ChunkInserts(TextRows(fileName, stageName, scope, content))
  }

  /** The statements the text revision issues, in order, when none of them fails. */
  function TextPlan(fileName: string, data: seq<byte>, stageName: string, scope: Scope, parsed: Option<string>): (plan: seq<Statement>)
    ensures |plan| == if parsed.None? then 2 else 3 + |TextRows(fileName, stageName, scope, parsed.value)|
  {
    var safeFilename := SafeFilename(fileName);
    [Put(FileUrl(stageName, safeFilename), data), ParseDocument(stageName, safeFilename)]
    + if parsed.None? then [] else ParsedTextPlan(fileName, stageName, scope, parsed.value)
  }

  /** The statements the binary revision issues, in order, when none of them fails. */
  function BinaryPlan(fileName: string, data: seq<byte>, stageName: string, scope: Scope): (plan: seq<Statement>)
    ensures |plan| == 2 + |BinaryRows(fileName, stageName, scope, data)|
  {
    [Put(FileUrl(stageName, SafeFilename(fileName)), data), InsertMetadata(MetadataRow(scope, stageName, fileName))]
    + ChunkInserts(BinaryRows(fileName, stageName, scope, data))
  }

  // ---------------------------------------------------------------------
  // What the rows promise

  /**
    There are ceil(|content| / 8192) text rows. All carry the file's name,
    stage location, user and session; each SIZE is its CHUNK's length in
    characters, between 1 and 8192, and exactly 8192 for all but the last.
  */
  lemma TextRowsShape(fileName: string, stageName: string, scope: Scope, content: string)
    ensures var rows := TextRows(fileName, stageName, scope, content);
      && |rows| == WindowCount(|content|, ChunkSize)
      && (forall k :: 0 <= k < |rows| ==>
        && rows[k].relativePath == fileName
        && rows[k].fileUrl == FileUrl(stageName, SafeFilename(fileName))
        && rows[k].username == scope.username && rows[k].sessionId == scope.sessionId)
      && (forall k :: 0 <= k < |rows| ==> rows[k].size == |rows[k].chunk| && 0 < rows[k].size <= ChunkSize)
      && (forall k :: 0 <= k < |rows| - 1 ==> rows[k].size == ChunkSize)
  {
    ChunkSizes(content, ChunkSize);
    ChunkCount(content, ChunkSize);
  }

  /**
    There are ceil(|data| / 8192) binary rows. All carry the file's name,
    stage location, user and session; each SIZE is between 1 and 8192,
    exactly 8192 for all but the last, and each CHUNK is 2 * SIZE lower-case
    hex digits.
  */
  lemma BinaryRowsShape(fileName: string, stageName: string, scope: Scope, data: seq<byte>)
    ensures var rows := BinaryRows(fileName, stageName, scope, data);
      && |rows| == WindowCount(|data|, ChunkSize)
      && (forall k :: 0 <= k < |rows| ==>
        && rows[k].relativePath == fileName
        && rows[k].fileUrl == FileUrl(stageName, SafeFilename(fileName))
        && rows[k].username == scope.username && rows[k].sessionId == scope.sessionId)
      && (forall k :: 0 <= k < |rows| ==>
        |rows[k].chunk| == 2 * rows[k].size && IsLowerHex(rows[k].chunk) && 0 < rows[k].size <= ChunkSize)
      && (forall k :: 0 <= k < |rows| - 1 ==> rows[k].size == ChunkSize)
  {
    ChunkSizes(data, ChunkSize);
    ChunkCount(data, ChunkSize);
    var rows, chunks := BinaryRows(fileName, stageName, scope, data), Chunk(data, ChunkSize);
    forall k | 0 <= k < |rows| ensures IsLowerHex(rows[k].chunk) {
      ToHexIsLowerHex(chunks[k]);
    }
  }

  /** The k-th text row holds the slice `content[i:i + 8192]` at the k-th offset i = 8192 * k. */
  lemma TextRowAt(fileName: string, stageName: string, scope: Scope, content: string, k: nat)
    requires k < |TextRows(fileName, stageName, scope, content)|
    ensures k * ChunkSize < |content|
    ensures TextRows(fileName, stageName, scope, content)[k] ==
      TextRow(fileName, FileUrl(stageName, SafeFilename(fileName)), scope, content[k * ChunkSize..Min(k * ChunkSize + ChunkSize, |content|)])
  {
    ChunkAt(content, ChunkSize, k);
  }

  /** The k-th binary row holds the hex of the slice `file_content[i:i + 8192]` at the k-th offset i = 8192 * k. */
  lemma BinaryRowAt(fileName: string, stageName: string, scope: Scope, data: seq<byte>, k: nat)
    requires k < |BinaryRows(fileName, stageName, scope, data)|
    ensures k * ChunkSize < |data|
    ensures BinaryRows(fileName, stageName, scope, data)[k] ==
      HexRow(fileName, FileUrl(stageName, SafeFilename(fileName)), scope, data[k * ChunkSize..Min(k * ChunkSize + ChunkSize, |data|)])
  {
    ChunkAt(data, ChunkSize, k);
  }

  /** Joining the CHUNK column of the text rows in creation order gives back the extracted text. */
  lemma TextRowsReconstruct(fileName: string, stageName: string, scope: Scope, content: string)
    ensures Concat(Contents(TextRows(fileName, stageName, scope, content))) == content
  {
    assert Contents(TextRows(fileName, stageName, scope, content)) == Chunk(content, ChunkSize);
    ChunkReconstructs(content, ChunkSize);
  }

  /** Each binary row's CHUNK decodes to exactly the byte window it was made from, whose length is its SIZE. */
  lemma BinaryRowsDecode(fileName: string, stageName: string, scope: Scope, data: seq<byte>)
    ensures forall k :: 0 <= k < |BinaryRows(fileName, stageName, scope, data)| ==>
      var row := BinaryRows(fileName, stageName, scope, data)[k];
      FromHex(row.chunk) == Some(Chunk(data, ChunkSize)[k]) && |Chunk(data, ChunkSize)[k]| == row.size
  {
    var rows, chunks := BinaryRows(fileName, stageName, scope, data), Chunk(data, ChunkSize);
    forall k | 0 <= k < |rows|
      ensures FromHex(rows[k].chunk) == Some(chunks[k])
    {
      FromHexToHex(chunks[k]);
    }
  }

  /** Decoding rows written with `bytes.hex()` and joining them gives the windows joined. */
  lemma {:induction false} ReadBackHexRows(fileName: string, url: string, scope: Scope, windows: seq<seq<byte>>)
    ensures ReadBack(HexRowsOf(fileName, url, scope, windows)) == Some(Concat(windows))
  {
    if windows != [] {
      var rows := HexRowsOf(fileName, url, scope, windows);
      assert rows[1..] == HexRowsOf(fileName, url, scope, windows[1..]);
      ReadBackHexRows(fileName, url, scope, windows[1..]);
      FromHexToHex(windows[0]);
    }
  }

  /** Reading the binary rows back in creation order gives back the uploaded bytes. */
  lemma BinaryRowsReadBack(fileName: string, stageName: string, scope: Scope, data: seq<byte>)
    ensures ReadBack(BinaryRows(fileName, stageName, scope, data)) == Some(data)
  {
    ReadBackHexRows(fileName, FileUrl(stageName, SafeFilename(fileName)), scope, Chunk(data, ChunkSize));
    ChunkReconstructs(data, ChunkSize);
  }

  /** Empty content yields no chunk row at all, so no empty chunk is ever stored. */
  lemma EmptyContentNoRows(fileName: string, stageName: string, scope: Scope, content: string, data: seq<byte>)
    ensures TextRows(fileName, stageName, scope, content) == [] <==> content == []
    ensures BinaryRows(fileName, stageName, scope, data) == [] <==> data == []
  {
    ChunkSizes(content, ChunkSize);
    ChunkSizes(data, ChunkSize);
  }

  // ---------------------------------------------------------------------
  // What the statements promise

  lemma {:induction false} ChunkInsertsTables(rows: seq<ChunkRow>)
    ensures ChunkTable(ChunkInserts(rows)) == rows
    ensures MetadataTable(ChunkInserts(rows)) == []
  {
    if rows != [] {
      var front := rows[..|rows| - 1];
      ChunkInsertsTables(front);
      assert ChunkInserts(rows)[..|rows| - 1] == ChunkInserts(front);
    }
  }

  /** The statements before the chunk inserts write no chunk row. */
  lemma ChunksAfterHead(head: seq<Statement>, rows: seq<ChunkRow>)
    ensures ChunkTable(head + ChunkInserts(rows)) == ChunkTable(head) + rows
    ensures MetadataTable(head + ChunkInserts(rows)) == MetadataTable(head)
  {
    TablesAppend(head, ChunkInserts(rows));
    ChunkInsertsTables(rows);
  }

  /** In a head without chunk inserts followed by chunk inserts, the chunk inserts are exactly the statements past the head. */
  lemma ChunkInsertsPosition(head: seq<Statement>, rows: seq<ChunkRow>)
    requires forall j :: 0 <= j < |head| ==> !head[j].InsertChunk?
    ensures forall j :: 0 <= j < |head + ChunkInserts(rows)| ==>
      ((head + ChunkInserts(rows))[j].InsertChunk? <==> j >= |head|)
  {
    var plan := head + ChunkInserts(rows);
    forall j | 0 <= j < |plan| ensures plan[j].InsertChunk? <==> j >= |head| {
      if j >= |head| {
        assert plan[j] == ChunkInserts(rows)[j - |head|];
      } else {
        assert plan[j] == head[j];
      }
    }
  }

  /** Statements that write no table row: the PUT and the parse. */
  lemma {:induction false} NoRows(prefix: seq<Statement>)
    requires forall j :: 0 <= j < |prefix| ==> prefix[j].Put? || prefix[j].ParseDocument?
    ensures ChunkTable(prefix) == [] && MetadataTable(prefix) == []
  {
    if prefix != [] {
      NoRows(prefix[..|prefix| - 1]);
    }
  }

  /**
    A plan made of statements that write no row, one metadata insert and
    then chunk inserts adds that metadata row and those chunk rows.
  */
  lemma MetadataThenChunks(prefix: seq<Statement>, meta: FileMetadata, rows: seq<ChunkRow>)
    requires forall j :: 0 <= j < |prefix| ==> prefix[j].Put? || prefix[j].ParseDocument?
    ensures ChunkTable(prefix + [InsertMetadata(meta)] + ChunkInserts(rows)) == rows
    ensures MetadataTable(prefix + [InsertMetadata(meta)] + ChunkInserts(rows)) == [meta]
  {
    NoRows(prefix);
    TablesAppend(prefix, [InsertMetadata(meta)]);
    TablesOfOne(InsertMetadata(meta));
    ChunksAfterHead(prefix + [InsertMetadata(meta)], rows);
  }

  /**
    In such a plan the metadata insert comes right after the prefix, and
    the chunk inserts are exactly the statements past it.
  */
  lemma MetadataThenChunksOrder(prefix: seq<Statement>, meta: FileMetadata, rows: seq<ChunkRow>)
    requires forall j :: 0 <= j < |prefix| ==> prefix[j].Put? || prefix[j].ParseDocument?
    ensures var plan := prefix + [InsertMetadata(meta)] + ChunkInserts(rows);
      && plan[|prefix|] == InsertMetadata(meta)
      && (forall j :: 0 <= j < |plan| ==> (plan[j].InsertChunk? <==> j > |prefix|))
  {
    var head := prefix + [InsertMetadata(meta)];
    forall j | 0 <= j < |head| ensures !head[j].InsertChunk? {
      if j < |prefix| {
        assert head[j] == prefix[j];
      }
    }
    ChunkInsertsPosition(head, rows);
  }

  /**
    The first k statements of such a plan: the metadata row appears once
    the prefix is through, and the chunk rows written so far are the first
    ones, never without the metadata row.
  */
  lemma MetadataThenChunksPrefix(prefix: seq<Statement>, meta: FileMetadata, rows: seq<ChunkRow>, k: nat)
    requires forall j :: 0 <= j < |prefix| ==> prefix[j].Put? || prefix[j].ParseDocument?
    requires k <= |prefix| + 1 + |rows|
    ensures var plan := prefix + [InsertMetadata(meta)] + ChunkInserts(rows);
      && MetadataTable(plan[..k]) == (if k > |prefix| then [meta] else [])
      && ChunkTable(plan[..k]) == (if k > |prefix| then rows[..k - |prefix| - 1] else [])
  {
    var plan := prefix + [InsertMetadata(meta)] + ChunkInserts(rows);
    if k <= |prefix| {
      assert plan[..k] == prefix[..k];
      assert forall j :: 0 <= j < k ==> prefix[..k][j] == prefix[j];
      NoRows(prefix[..k]);
    } else {
      var d := k - |prefix| - 1;
      assert plan[..k] == prefix + [InsertMetadata(meta)] + ChunkInserts(rows[..d]);
      MetadataThenChunks(prefix, meta, rows[..d]);
    }
  }

  /**
    A completed binary upload issues ceil(|data| / 8192) + 2 statements and
    adds exactly one metadata row and then its chunk rows: the statement
    after the PUT is the metadata insert, and every later statement, and only
    those, is a chunk insert.
  */
  lemma BinaryPlanTables(fileName: string, data: seq<byte>, stageName: string, scope: Scope)
    ensures |BinaryPlan(fileName, data, stageName, scope)| == 2 + WindowCount(|data|, ChunkSize)
    ensures ChunkTable(BinaryPlan(fileName, data, stageName, scope)) == BinaryRows(fileName, stageName, scope, data)
    ensures MetadataTable(BinaryPlan(fileName, data, stageName, scope)) == [MetadataRow(scope, stageName, fileName)]
    ensures BinaryPlan(fileName, data, stageName, scope)[1] == InsertMetadata(MetadataRow(scope, stageName, fileName))
    ensures forall j :: 0 <= j < |BinaryPlan(fileName, data, stageName, scope)| ==>
      (BinaryPlan(fileName, data, stageName, scope)[j].InsertChunk? <==> j >= 2)
  {
    var prefix := [Put(FileUrl(stageName, SafeFilename(fileName)), data)];
    var meta := MetadataRow(scope, stageName, fileName);
    var rows := BinaryRows(fileName, stageName, scope, data);
    ChunkCount(data, ChunkSize);
    assert BinaryPlan(fileName, data, stageName, scope) == prefix + [InsertMetadata(meta)] + ChunkInserts(rows);
    MetadataThenChunks(prefix, meta, rows);
    MetadataThenChunksOrder(prefix, meta, rows);
  }

  /**
    A completed text upload with parsed content issues
    ceil(|content| / 8192) + 3 statements and adds exactly one metadata row
    and then its chunk rows, the metadata insert coming right after the PUT
    and the parse; one whose parse returned nothing issues just the PUT and
    the parse and adds no row.
  */
  lemma TextPlanTables(fileName: string, data: seq<byte>, stageName: string, scope: Scope, parsed: Option<string>)
    ensures |TextPlan(fileName, data, stageName, scope, parsed)| ==
      if parsed.None? then 2 else 3 + WindowCount(|parsed.value|, ChunkSize)
    ensures ChunkTable(TextPlan(fileName, data, stageName, scope, parsed)) ==
      if parsed.None? then [] else TextRows(fileName, stageName, scope, parsed.value)
    ensures MetadataTable(TextPlan(fileName, data, stageName, scope, parsed)) ==
      if parsed.None? then [] else [MetadataRow(scope, stageName, fileName)]
    ensures parsed.Some? ==> TextPlan(fileName, data, stageName, scope, parsed)[2] == InsertMetadata(MetadataRow(scope, stageName, fileName))
    ensures forall j :: 0 <= j < |TextPlan(fileName, data, stageName, scope, parsed)| ==>
      (TextPlan(fileName, data, stageName, scope, parsed)[j].InsertChunk? <==> j >= 3)
  {
    var safeFilename := SafeFilename(fileName);
    var prefix := [Put(FileUrl(stageName, safeFilename), data), ParseDocument(stageName, safeFilename)];
    var plan := TextPlan(fileName, data, stageName, scope, parsed);
    if parsed.Some? {
      var meta := MetadataRow(scope, stageName, fileName);
      var rows := TextRows(fileName, stageName, scope, parsed.value);
      ChunkCount(parsed.value, ChunkSize);
      assert plan == prefix + [InsertMetadata(meta)] + ChunkInserts(rows);
      MetadataThenChunks(prefix, meta, rows);
      MetadataThenChunksOrder(prefix, meta, rows);
    } else {
      assert plan == prefix;
      NoRows(prefix);
    }
  }

  /**
    A binary upload interrupted after k statements leaves the metadata row
    once the PUT went through and, after it, the first k - 2 chunk rows:
    the rows already written stay, and no chunk row is ever stored without
    the file's metadata row.
  */
  lemma BinaryPartialTables(fileName: string, data: seq<byte>, stageName: string, scope: Scope, k: nat)
    requires k <= |BinaryPlan(fileName, data, stageName, scope)|
    ensures MetadataTable(BinaryPlan(fileName, data, stageName, scope)[..k]) ==
      if k >= 2 then [MetadataRow(scope, stageName, fileName)] else []
    ensures ChunkTable(BinaryPlan(fileName, data, stageName, scope)[..k]) ==
      if k >= 2 then BinaryRows(fileName, stageName, scope, data)[..k - 2] else []
  {
    var prefix := [Put(FileUrl(stageName, SafeFilename(fileName)), data)];
    var meta := MetadataRow(scope, stageName, fileName);
    var rows := BinaryRows(fileName, stageName, scope, data);
    assert BinaryPlan(fileName, data, stageName, scope) == prefix + [InsertMetadata(meta)] + ChunkInserts(rows);
    MetadataThenChunksPrefix(prefix, meta, rows, k);
  }

  /**
    A text upload interrupted after k statements leaves the metadata row
    once the PUT and the parse went through and the parse returned text,
    and after it the first k - 3 chunk rows; with no text it leaves no row.
  */
  lemma TextPartialTables(fileName: string, data: seq<byte>, stageName: string, scope: Scope, parsed: Option<string>, k: nat)
    requires k <= |TextPlan(fileName, data, stageName, scope, parsed)|
    ensures MetadataTable(TextPlan(fileName, data, stageName, scope, parsed)[..k]) ==
      if parsed.Some? && k >= 3 then [MetadataRow(scope, stageName, fileName)] else []
    ensures ChunkTable(TextPlan(fileName, data, stageName, scope, parsed)[..k]) ==
      if parsed.Some? && k >= 3 then TextRows(fileName, stageName, scope, parsed.value)[..k - 3] else []
  {
    var safeFilename := SafeFilename(fileName);
    var prefix := [Put(FileUrl(stageName, safeFilename), data), ParseDocument(stageName, safeFilename)];
    var plan := TextPlan(fileName, data, stageName, scope, parsed);
    if parsed.Some? {
      var meta := MetadataRow(scope, stageName, fileName);
      var rows := TextRows(fileName, stageName, scope, parsed.value);
      assert plan == prefix + [InsertMetadata(meta)] + ChunkInserts(rows);
      MetadataThenChunksPrefix(prefix, meta, rows, k);
    } else {
      assert plan[..k] == prefix[..k];
      assert forall j :: 0 <= j < k ==> prefix[..k][j] == prefix[j];
      NoRows(prefix[..k]);
    }
  }

  /** Every statement of a completed binary upload lands after what the log already held. */
  lemma BinaryUploadTables(log: seq<Statement>, fileName: string, data: seq<byte>, stageName: string, scope: Scope)
    ensures ChunkTable(log + BinaryPlan(fileName, data, stageName, scope)) ==
      ChunkTable(log) + BinaryRows(fileName, stageName, scope, data)
    ensures MetadataTable(log + BinaryPlan(fileName, data, stageName, scope)) ==
      MetadataTable(log) + [MetadataRow(scope, stageName, fileName)]
  {
    TablesAppend(log, BinaryPlan(fileName, data, stageName, scope));
    BinaryPlanTables(fileName, data, stageName, scope);
  }

  /** Every statement of a completed text upload lands after what the log already held. */
  lemma TextUploadTables(log: seq<Statement>, fileName: string, data: seq<byte>, stageName: string, scope: Scope, parsed: Option<string>)
    ensures ChunkTable(log + TextPlan(fileName, data, stageName, scope, parsed)) ==
      ChunkTable(log) + if parsed.None? then [] else TextRows(fileName, stageName, scope, parsed.value)
    ensures MetadataTable(log + TextPlan(fileName, data, stageName, scope, parsed)) ==
      MetadataTable(log) + if parsed.None? then [] else [MetadataRow(scope, stageName, fileName)]
  {
    TablesAppend(log, TextPlan(fileName, data, stageName, scope, parsed));
    TextPlanTables(fileName, data, stageName, scope, parsed);
  }

  /**
    There is no duplicate guard: uploading the same file twice in the same
    session writes a second metadata row and a second set of chunk rows.
  */
  lemma ReuploadDuplicates(log: seq<Statement>, fileName: string, data: seq<byte>, stageName: string, scope: Scope)
    ensures var plan := BinaryPlan(fileName, data, stageName, scope);
      var rows := BinaryRows(fileName, stageName, scope, data);
      && MetadataTable(log + plan + plan) == MetadataTable(log) + [MetadataRow(scope, stageName, fileName), MetadataRow(scope, stageName, fileName)]
      && ChunkTable(log + plan + plan) == ChunkTable(log) + rows + rows
  {
    var plan := BinaryPlan(fileName, data, stageName, scope);
    BinaryUploadTables(log, fileName, data, stageName, scope);
    BinaryUploadTables(log + plan, fileName, data, stageName, scope);
  }

  // ---------------------------------------------------------------------
  // The two revisions of process_and_upload_file

  /**
    The chunk loop of the text revision: one insert per window of `content`,
    counted in `chunksCreated`, stopping at the first insert that raises.
  */
  method InsertTextChunks(conn: Connection, fileName: string, stageName: string, scope: Scope, content: string)
    returns (ok: bool, chunksCreated: nat)
    modifies conn
    ensures conn.Ran(old(conn.log), conn.log, ChunkInserts(TextRows(fileName, stageName, scope, content)), ok)
    ensures chunksCreated == |conn.log| - |old(conn.log)|
    ensures ok ==> chunksCreated == WindowCount(|content|, ChunkSize)
    ensures conn.stage == old(conn.stage)
  {
    var url := FileUrl(stageName, SafeFilename(fileName));
    ghost var windows := Chunk(content, ChunkSize);
    ghost var inserts := ChunkInserts(TextRows(fileName, stageName, scope, content));
    ChunkCount(content, ChunkSize);
    assert |inserts| == |windows|;
    ok, chunksCreated := true, 0;
    var i := 0;
    while i < |content|
      invariant i == chunksCreated * ChunkSize
      invariant chunksCreated <= |windows|
      invariant conn.Ran(old(conn.log), conn.log, inserts[..chunksCreated], true)
      invariant conn.stage == old(conn.stage)
      decreases |content| - i
    {
      var chunk := content[i..Min(i + ChunkSize, |content|)];
      ChunkAt(content, ChunkSize, chunksCreated);
      assert inserts[chunksCreated] == InsertChunk(ChunkRow(fileName, |chunk|, url, chunk, scope.username, scope.sessionId));
      ghost var before := conn.log;
      ok := conn.Execute(InsertChunk(ChunkRow(fileName, |chunk|, url, chunk, scope.username, scope.sessionId)));
      conn.RanStep(old(conn.log), before, conn.log, inserts, chunksCreated, ok);
      if !ok {
        return;
      }
      chunksCreated := chunksCreated + 1;
      i := i + ChunkSize;
    }
    assert inserts[..chunksCreated] == inserts;
  }

  /**
    The chunk loop of the binary revision: one insert of `chunk.hex()` per
    window of `data`, counted in `chunksCreated`, stopping at the first
    insert that raises.
  */
  method InsertBinaryChunks(conn: Connection, fileName: string, stageName: string, scope: Scope, data: seq<byte>)
    returns (ok: bool, chunksCreated: nat)
    modifies conn
    ensures conn.Ran(old(conn.log), conn.log, ChunkInserts(BinaryRows(fileName, stageName, scope, data)), ok)
    ensures chunksCreated == |conn.log| - |old(conn.log)|
    ensures ok ==> chunksCreated == WindowCount(|data|, ChunkSize)
    ensures conn.stage == old(conn.stage)
  {
    var url := FileUrl(stageName, SafeFilename(fileName));
    ghost var windows := Chunk(data, ChunkSize);
    ghost var inserts := ChunkInserts(BinaryRows(fileName, stageName, scope, data));
    ChunkCount(data, ChunkSize);
    assert |inserts| == |windows|;
    ok, chunksCreated := true, 0;
    var i := 0;
    while i < |data|
      invariant i == chunksCreated * ChunkSize
      invariant chunksCreated <= |windows|
      invariant conn.Ran(old(conn.log), conn.log, inserts[..chunksCreated], true)
      invariant conn.stage == old(conn.stage)
      decreases |data| - i
    {
      var chunk := data[i..Min(i + ChunkSize, |data|)];
      ChunkAt(data, ChunkSize, chunksCreated);
      assert inserts[chunksCreated] == InsertChunk(ChunkRow(fileName, |chunk|, url, ToHex(chunk), scope.username, scope.sessionId));
      ghost var before := conn.log;
      ok := conn.Execute(InsertChunk(ChunkRow(fileName, |chunk|, url, ToHex(chunk), scope.username, scope.sessionId)));
      conn.RanStep(old(conn.log), before, conn.log, inserts, chunksCreated, ok);
      if !ok {
        return;
      }
      chunksCreated := chunksCreated + 1;
      i := i + ChunkSize;
    }
    assert inserts[..chunksCreated] == inserts;
  }

  /**
    The binary revision. On success every statement of the plan went
    through; on failure the statements before the failing one did, so the
    rows already written stay behind.
  */
  method ProcessBinaryFile(conn: Connection, fileName: string, data: seq<byte>, stageName: string, scope: Scope)
    returns (ok: bool, chunksCreated: nat)
    modifies conn
    ensures conn.Ran(old(conn.log), conn.log, BinaryPlan(fileName, data, stageName, scope), ok)
    ensures conn.stage == if conn.Accepts(|old(conn.log)|)
      then old(conn.stage)[FileUrl(stageName, SafeFilename(fileName)) := data]
      else old(conn.stage)
    ensures ok ==> chunksCreated == WindowCount(|data|, ChunkSize)
  {
    var safeFilename := SafeFilename(fileName);
    var url := FileUrl(stageName, safeFilename);
    ghost var put := Put(url, data);
    ghost var meta := InsertMetadata(MetadataRow(scope, stageName, fileName));
    ghost var inserts := ChunkInserts(BinaryRows(fileName, stageName, scope, data));
    assert BinaryPlan(fileName, data, stageName, scope) == [put] + [meta] + inserts;
    chunksCreated := 0;

    ok := conn.Execute(Put(url, data));
    if !ok {
      conn.RanStopped(old(conn.log), conn.log, [put], [meta] + inserts);
      return;
    }
    ghost var afterPut := conn.log;
    ok := conn.Execute(InsertMetadata(FileMetadata(scope.username, scope.sessionId, stageName, fileName)));
    conn.RanThen(old(conn.log), afterPut, conn.log, [put], [meta], ok);
    if !ok {
      conn.RanStopped(old(conn.log), conn.log, [put] + [meta], inserts);
      return;
    }
    ghost var afterMeta := conn.log;
    ok, chunksCreated := InsertBinaryChunks(conn, fileName, stageName, scope, data);
    conn.RanThen(old(conn.log), afterMeta, conn.log, [put] + [meta], inserts, ok);
  }

  /**
    The `if parsed_content ...` branch of the text revision: the metadata
    insert, then the chunk loop over the extracted text.
  */
  method StoreParsedText(conn: Connection, fileName: string, stageName: string, scope: Scope, content: string)
    returns (ok: bool, chunksCreated: nat)
    modifies conn
    ensures conn.Ran(old(conn.log), conn.log, ParsedTextPlan(fileName, stageName, scope, content), ok)
    ensures conn.stage == old(conn.stage)
    ensures ok ==> chunksCreated == WindowCount(|content|, ChunkSize)
  {
    ghost var meta := InsertMetadata(MetadataRow(scope, stageName, fileName));
    ghost var inserts := ChunkInserts(TextRows(fileName, stageName, scope, content));
    chunksCreated := 0;
    ok := conn.Execute(InsertMetadata(FileMetadata(scope.username, scope.sessionId, stageName, fileName)));
    if !ok {
      conn.RanStopped(old(conn.log), conn.log, [meta], inserts);
      return;
    }
    ghost var afterMeta := conn.log;
    ok, chunksCreated := InsertTextChunks(conn, fileName, stageName, scope, content);
    conn.RanThen(old(conn.log), afterMeta, conn.log, [meta], inserts, ok);
  }

  /**
    The text revision. The parse result comes from PARSE_DOCUMENT, after the
    stage upload; None stands for an empty answer, on which the upload
    succeeds without writing any row.
  */
  method ProcessTextFile(conn: Connection, fileName: string, data: seq<byte>, stageName: string, scope: Scope, parsed: Option<string>)
    returns (ok: bool, chunksCreated: nat)
    modifies conn
    ensures conn.Ran(old(conn.log), conn.log, TextPlan(fileName, data, stageName, scope, parsed), ok)
    ensures conn.stage == if conn.Accepts(|old(conn.log)|)
      then old(conn.stage)[FileUrl(stageName, SafeFilename(fileName)) := data]
      else old(conn.stage)
    ensures ok ==> chunksCreated == if parsed.None? then 0 else WindowCount(|parsed.value|, ChunkSize)
  {
    var safeFilename := SafeFilename(fileName);
    var url := FileUrl(stageName, safeFilename);
    ghost var put := Put(url, data);
    ghost var parse := ParseDocument(stageName, safeFilename);
    ghost var parsedPlan := if parsed.None? then [] else ParsedTextPlan(fileName, stageName, scope, parsed.value);
    assert TextPlan(fileName, data, stageName, scope, parsed) == [put] + [parse] + parsedPlan;
    chunksCreated := 0;

    ok := conn.Execute(Put(url, data));
    if !ok {
      conn.RanStopped(old(conn.log), conn.log, [put], [parse] + parsedPlan);
      return;
    }
    ghost var afterPut := conn.log;
    ok := conn.Execute(ParseDocument(stageName, safeFilename));
    conn.RanThen(old(conn.log), afterPut, conn.log, [put], [parse], ok);
    if !ok {
      conn.RanStopped(old(conn.log), conn.log, [put] + [parse], parsedPlan);
      return;
    }
    if parsed.None? {
      assert [put] + [parse] + parsedPlan == [put] + [parse];
      return;
    }
    ghost var afterParse := conn.log;
    ok, chunksCreated := StoreParsedText(conn, fileName, stageName, scope, parsed.value);
    conn.RanThen(old(conn.log), afterParse, conn.log, [put] + [parse], parsedPlan, ok);
  }
}
