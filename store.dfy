/**
  The database connection the upload code writes through. Every
  `cursor.execute` is one statement; the connection keeps the statements it
  accepted in order, so the rows of UPLOADED_FILES_METADATA and
  DOCS_CHUNKS_TABLE are projections of that log, and a PUT stores the file on
  the named stage under its FILE_URL. A failing connection (network loss,
  a rejected statement) is modelled by `failAt`: the execute issued once
  `failAt` statements have gone through raises, and so does every later one.
*/
module Store {
  import opened Wrappers
  import opened Hex

  /** A row of UPLOADED_FILES_METADATA. */
  datatype FileMetadata = FileMetadata(username: string, sessionId: string, stageName: string, fileName: string)

  /** A row of DOCS_CHUNKS_TABLE. */
  datatype ChunkRow = ChunkRow(
    relativePath: string,
    size: nat,
    fileUrl: string,
    chunk: string,
    username: string,
    sessionId: string)

  /** One `cursor.execute` call. */
  datatype Statement =
    | Put(location: string, data: seq<byte>)
    | ParseDocument(stageName: string, fileName: string)
    | InsertMetadata(meta: FileMetadata)
    | InsertChunk(row: ChunkRow)

  /** DOCS_CHUNKS_TABLE as the statements in `log` leave it, rows in insertion order. */
  function ChunkTable(log: seq<Statement>): (rows: seq<ChunkRow>)
    ensures |rows| <= |log|
  {
    if log == [] then []
    else
      var last := log[|log| - 1];
      ChunkTable(log[..|log| - 1]) + if last.InsertChunk? then [last.row] else []
  }

  /** UPLOADED_FILES_METADATA as the statements in `log` leave it, rows in insertion order. */
  function MetadataTable(log: seq<Statement>): (rows: seq<FileMetadata>)
    ensures |rows| <= |log|
  {
    if log == [] then []
    else
      var last := log[|log| - 1];
      MetadataTable(log[..|log| - 1]) + if last.InsertMetadata? then [last.meta] else []
  }

  /** Executing more statements only appends to the two tables. */
  lemma {:induction false} TablesAppend(a: seq<Statement>, b: seq<Statement>)
    ensures ChunkTable(a + b) == ChunkTable(a) + ChunkTable(b)
    ensures MetadataTable(a + b) == MetadataTable(a) + MetadataTable(b)
  {
    if b == [] {
      assert a + b == a;
    } else {
      var front := b[..|b| - 1];
      assert (a + b)[..|a + b| - 1] == a + front;
      assert (a + b)[|a + b| - 1] == b[|b| - 1];
      TablesAppend(a, front);
    }
  }

  /** The tables after one statement. */
  lemma TablesOfOne(s: Statement)
    ensures ChunkTable([s]) == if s.InsertChunk? then [s.row] else []
    ensures MetadataTable([s]) == if s.InsertMetadata? then [s.meta] else []
  {
    assert [s][..0] == [];
  }

  class Connection {
    /** The statements executed so far, in order. */
    var log: seq<Statement>
    /** The files on the named stages, keyed by `@stage/name`. */
    var stage: map<string, seq<byte>>
    /** The number of statements after which every execute raises, if the connection fails at all. */
    const failAt: Option<nat>

    constructor (failAt: Option<nat>)
      ensures log == [] && stage == map[] && this.failAt == failAt
    {
      log := [];
      stage := map[];
      this.failAt := failAt;
    }

    /** Whether the execute issued after n statements goes through. */
    predicate Accepts(n: nat) {
      failAt.None? || n < failAt.value
    }

    /** How many of `planned` statements, issued one after another from `start`, go through. */
    function Completed(start: nat, planned: nat): (done: nat)
      ensures done <= planned
      ensures done < planned ==> !Accepts(start + done)
      ensures done > 0 ==> Accepts(start + done - 1)
    {
      if failAt.None? || start + planned <= failAt.value then planned
      else if failAt.value <= start then 0
      else failAt.value - start
    }

    /**
      Issuing the statements of `plan` one after another, stopping at the
      first one that raises, took the log from `before` to `after`: the log
      gained a prefix of the plan, whose last statement was accepted; `ok`
      says the whole plan went through, and otherwise the next statement was
      refused.
    */
    predicate Ran(before: seq<Statement>, after: seq<Statement>, plan: seq<Statement>, ok: bool)
      ensures Ran(before, after, plan, ok) ==> before <= after
      ensures Ran(before, after, plan, ok) && ok ==> after == before + plan
    {
      && |before| <= |after| <= |before| + |plan|
      && after == before + plan[..|after| - |before|]
      && (|after| > |before| ==> Accepts(|after| - 1))
      && (ok <==> |after| == |before| + |plan|)
      && (!ok ==> !Accepts(|after|))
    }

    /** A run goes through exactly the statements `Completed` counts, so its outcome is determined by the plan. */
    lemma RanCompleted(before: seq<Statement>, after: seq<Statement>, plan: seq<Statement>, ok: bool)
      requires Ran(before, after, plan, ok)
      ensures |after| == |before| + Completed(|before|, |plan|)
      ensures after == before + plan[..Completed(|before|, |plan|)]
    {
    }

    /** A plan that went through whole, followed by another: the two run as one plan. */
    lemma RanThen(a: seq<Statement>, b: seq<Statement>, c: seq<Statement>, first: seq<Statement>, second: seq<Statement>, ok: bool)
      requires Ran(a, b, first, true) && Ran(b, c, second, ok)
      ensures Ran(a, c, first + second, ok)
    {
      assert (first + second)[..|c| - |a|] == first + second[..|c| - |b|];
    }

    /** One more statement of a plan issued after the first k went through. */
    lemma RanStep(a: seq<Statement>, b: seq<Statement>, c: seq<Statement>, plan: seq<Statement>, k: nat, ok: bool)
      requires k < |plan|
      requires Ran(a, b, plan[..k], true) && Ran(b, c, [plan[k]], ok)
      ensures ok ==> Ran(a, c, plan[..k + 1], true)
      ensures !ok ==> Ran(a, c, plan, false)
    {
      assert plan[..k + 1] == plan[..k] + [plan[k]];
      RanThen(a, b, c, plan[..k], [plan[k]], ok);
      if !ok {
        RanStopped(a, c, plan[..k + 1], plan[k + 1..]);
        assert plan[..k + 1] + plan[k + 1..] == plan;
      }
    }

    /** A plan that stopped early leaves every later statement unissued. */
    lemma RanStopped(a: seq<Statement>, b: seq<Statement>, first: seq<Statement>, rest: seq<Statement>)
      requires Ran(a, b, first, false)
      ensures Ran(a, b, first + rest, false)
    {
      assert (first + rest)[..|b| - |a|] == first[..|b| - |a|];
    }

    /** `cursor.execute(statement)`: false where the connection raises. */
    method Execute(statement: Statement) returns (ok: bool)
      modifies this
      ensures ok == Accepts(|old(log)|)
      ensures log == if ok then old(log) + [statement] else old(log)
      ensures Ran(old(log), log, [statement], ok)
      ensures stage == if ok && statement.Put? then old(stage)[statement.location := statement.data] else old(stage)
    {
      ok := Accepts(|log|);
      if ok {
        log := log + [statement];
        if statement.Put? {
          stage := stage[statement.location := statement.data];
        }
      }
    }
  }
}
