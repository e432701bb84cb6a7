/**
 * The import-and-reconcile run of the importer, on an abstract database holding
 * the staging table, the live table and the log of bulk INSERT statements sent.
 * The storage's answers (which statements it rejects or refuses) and the id of a staged row
 * are parameters; file access, logging and SQL text are not modelled here.
 */
module Importer {
  import opened RowDecoder
  import opened BatchStager
  import opened Promoter
  import opened Overlay
  import opened InsertStatement

  /** The live table a successful run leaves: the staged rows promoted (unless the REPLACE
      statement failed), the edit log replayed, then the deletion table applied. */
  function Reconciled(live: Table, staged: seq<Row>, idOf: nat -> Key, replaceFails: bool,
                      edits: seq<Edit>, refuses: Edit -> bool, deleted: set<Key>): (r: Table)
    ensures forall k | k in deleted :: k !in r
    ensures forall k | k !in deleted && k in live :: k in r
    ensures !replaceFails ==> forall i | 0 <= i < |staged| && idOf(i) !in deleted :: idOf(i) in r
  {
    var promoted := if replaceFails then live else Upsert(live, staged, idOf);
    UpsertKeys(live, staged, idOf);
    Purge(Replay(promoted, edits, refuses), deleted)
  }

  /** What a successful run leaves under one key that is not deleted: every column holds the
      value of the last edit writing it, otherwise the last staged row with that key, otherwise
      the row the live table had before. */
  lemma ReconciledAt(live: Table, staged: seq<Row>, idOf: nat -> Key, edits: seq<Edit>,
                     deleted: set<Key>, k: Key, c: nat, refuses: Edit -> bool)
    requires k !in deleted
    requires Lookup(live, staged, idOf, k).Some?
    requires c < |Lookup(live, staged, idOf, k).value|
    ensures k in Reconciled(live, staged, idOf, false, edits, refuses, deleted)
    ensures |Reconciled(live, staged, idOf, false, edits, refuses, deleted)[k]| == |Lookup(live, staged, idOf, k).value|
    ensures Reconciled(live, staged, idOf, false, edits, refuses, deleted)[k][c] ==
              match LastWrite(edits, k, c, refuses)
              case Some(v) => v
              case None => Lookup(live, staged, idOf, k).value[c]
  {
    var promoted := Upsert(live, staged, idOf);
    UpsertLookup(live, staged, idOf, k);
    ReplayAt(promoted, edits, k, c, refuses);
  }

  /** Encodes one data row and appends its tuple to the statement text, which already ends with
      the separating comma unless the statement has no tuple yet. */
  method AddTuple(ghost head: string, text: string, ghost rows: seq<Row>, data: seq<string>, now: string,
                  formatDate: string -> string) returns (next: string)
    requires QuoteFreeClock(now, formatDate)
    requires WellFormed(rows)
    requires text == if rows == [] then StatementText(head, rows) else StatementText(head, rows) + ","
    ensures next == StatementText(head, rows + [RowValues(data, now, formatDate)])
    ensures WellFormed(rows + [RowValues(data, now, formatDate)])
  {
    var str := EncodeRow(data, now, formatDate);
    ghost var row := RowValues(data, now, formatDate);
    RowValuesQuoteFree(data, now, formatDate);
    WellFormedSnoc(rows, row);
    StatementSnoc(head, rows, row);
    next := text + "(" + str + ")";
  }

  /** The database the importer runs against. */
  class Database {
    /** The staging table `pmc_db_tmp`, rows in insertion order. */
    var staging: seq<Row>
    /** The live table `pmc_db`, keyed by id. */
    var live: Table
    /** Every batch sent to the staging table, accepted or not, in the order sent. */
    var flushed: seq<seq<Row>>
    /** The text every bulk INSERT into the staging table starts with: the importer builds its
        statements from it and the database reads them against it. */
    const insertHead: string

    constructor (live0: Table, staging0: seq<Row>)
      ensures insertHead == InsertHead()
      ensures live == live0 && staging == staging0 && flushed == []
    {
      insertHead := InsertHead();
      live := live0;
      staging := staging0;
      flushed := [];
    }

    /** Sends one bulk INSERT statement to the staging table. The database reads the rows the
        statement carries; a malformed statement (one with no tuple) always fails, and `rejected`
        says whether the storage refuses a well-formed one. */
    method Flush(statement: string, rejected: bool) returns (ok: bool)
      modifies this
      ensures ok <==> ReadStatement(insertHead, statement).Some? && !rejected
      ensures flushed == old(flushed) + [Carried(insertHead, statement)]
      ensures staging == old(staging) + (if rejected then [] else Carried(insertHead, statement))
      ensures live == old(live)
    {
      var read := ReadStatement(insertHead, statement);
      flushed := flushed + [Carried(insertHead, statement)];
      ok := read.Some? && !rejected;
      if ok {
        staging := staging + read.value;
      }
    }

    /** Sends the statement `text` built for `batch`, with the semicolon the read loop appends
        when `terminated`: the statement carries exactly the batch, and fails when the batch is
        empty or the storage rejects it. */
    method SendBatch(text: string, ghost batch: seq<Row>, terminated: bool, rejected: bool) returns (ok: bool)
      requires text == StatementText(insertHead, batch) && WellFormed(batch)
      modifies this
      ensures ok <==> batch != [] && !rejected
      ensures flushed == old(flushed) + [batch]
      ensures staging == old(staging) + (if rejected then [] else batch)
      ensures live == old(live)
    {
      CarriedRows(insertHead, batch, terminated);
      ok := Flush(text + (if terminated then ";" else ""), rejected);
    }

    /** The flush inside the read loop: sends the pending statement, terminated by a semicolon,
        and ignores its result. The batches sent so far are `p.sent` and the statement carries
        `p.pending`; `ordinal` numbers the flush among all flushes of the run. */
    method FlushPending(text: string, ghost p: Progress<Row>, ghost logBase: seq<seq<Row>>,
                        ghost stagedBase: seq<Row>, ordinal: nat, rejected: set<nat>)
      requires text == StatementText(insertHead, p.pending) && WellFormed(p.pending)
      requires ordinal == |p.sent|
      requires flushed == logBase + p.sent
      requires staging == stagedBase + Accepted(p.sent, rejected)
      modifies this
      ensures flushed == logBase + (p.sent + [p.pending])
      ensures staging == stagedBase + Accepted(p.sent + [p.pending], rejected)
      ensures live == old(live)
    {
      AcceptedAfterFlush(stagedBase, p.sent, p.pending, rejected);
      assert logBase + p.sent + [p.pending] == logBase + (p.sent + [p.pending]);
      var ignored := SendBatch(text, p.pending, true, ordinal in rejected);
    }

    /** One pass of the read loop for data row number `count`, whose CSV fields are `data`: when
        `count` is a multiple of BatchSize the pending statement is sent (its failure ignored) and
        a new one begun, otherwise a comma is added after the previous tuple; then the row's tuple
        is appended. `values` are the encoded data rows and `p` the loop's progress before. */
    method TakeRow(data: seq<string>, now: string, formatDate: string -> string, rejected: set<nat>,
                   count: nat, text: string, flushes: nat, ghost values: seq<Row>, ghost p: Progress<Row>,
                   ghost logBase: seq<seq<Row>>, ghost stagedBase: seq<Row>)
      returns (next: string, flushesNext: nat)
      requires QuoteFreeClock(now, formatDate)
      requires count < |values| && values[count] == RowValues(data, now, formatDate)
      requires p == ProgressAfter(values[..count])
      requires text == StatementText(insertHead, p.pending) && WellFormed(p.pending)
      requires flushes == |p.sent|
      requires flushed == logBase + p.sent
      requires staging == stagedBase + Accepted(p.sent, rejected)
      modifies this
      ensures var q := ProgressAfter(values[..count + 1]);
              next == StatementText(insertHead, q.pending) && WellFormed(q.pending) &&
              flushesNext == |q.sent| && flushed == logBase + q.sent &&
              staging == stagedBase + Accepted(q.sent, rejected)
      ensures live == old(live)
    {
      ProgressStep(values, count);
      ghost var q := p;
      next := text;
      flushesNext := flushes;
      if count % BatchSize == 0 {
        FlushPending(text, p, logBase, stagedBase, flushes, rejected);
        next := insertHead;
        flushesNext := flushes + 1;
        q := Progress(p.sent + [p.pending], []);
        EmptyStatement(insertHead);
      } else if count > 0 {
        next := text + ",";
      }
      next := AddTuple(insertHead, next, q.pending, data, now, formatDate);
    }

    /** The read loop: encodes the data rows of `csv` one by one into the statement text and,
        before adding row `count`, sends the pending statement whenever `count` is a multiple of
        BatchSize (so the bare head, at the first row). Those flushes are numbered from 0 by
        `flushes` and their failures are ignored; the last statement is left in `text`. */
    method ReadLoop(csv: seq<seq<string>>, now: string, formatDate: string -> string, rejected: set<nat>)
      returns (count: nat, text: string, flushes: nat)
      requires QuoteFreeClock(now, formatDate)
      modifies this
      ensures count == |EncodeDataRows(csv, now, formatDate)|
      ensures text == StatementText(insertHead, ProgressAfter(EncodeDataRows(csv, now, formatDate)).pending)
      ensures WellFormed(ProgressAfter(EncodeDataRows(csv, now, formatDate)).pending)
      ensures flushes == |ProgressAfter(EncodeDataRows(csv, now, formatDate)).sent|
      ensures flushed == old(flushed) + ProgressAfter(EncodeDataRows(csv, now, formatDate)).sent
      ensures staging == old(staging) + Accepted(ProgressAfter(EncodeDataRows(csv, now, formatDate)).sent, rejected)
      ensures live == old(live)
    {
      ghost var values := EncodeDataRows(csv, now, formatDate);
      EmptyStatement(insertHead);
      text := insertHead;
      flushes := 0;
      count := 0;
      while count + 1 < |csv|
        invariant 0 <= count <= |values|
        invariant text == StatementText(insertHead, ProgressAfter(values[..count]).pending)
        invariant WellFormed(ProgressAfter(values[..count]).pending)
        invariant flushes == |ProgressAfter(values[..count]).sent|
        invariant flushed == old(flushed) + ProgressAfter(values[..count]).sent
        invariant staging == old(staging) + Accepted(ProgressAfter(values[..count]).sent, rejected)
        invariant live == old(live)
      {
        text, flushes := TakeRow(csv[count + 1], now, formatDate, rejected, count, text, flushes,
                                 values, ProgressAfter(values[..count]), old(flushed), old(staging));
        count := count + 1;
      }
      assert values[..count] == values;
    }

    /** Stages the data rows of `csv`: the read loop, then one last flush of the pending statement
        when any row was read. Only the failure of that last flush aborts the run. */
    method StageRows(csv: seq<seq<string>>, now: string, formatDate: string -> string, rejected: set<nat>)
      returns (aborted: bool)
      requires QuoteFreeClock(now, formatDate)
      modifies this
      ensures flushed == old(flushed) + Flushes(EncodeDataRows(csv, now, formatDate))
      ensures staging == old(staging) + Accepted(Flushes(EncodeDataRows(csv, now, formatDate)), rejected)
      ensures aborted <==> |csv| > 1 && |Flushes(EncodeDataRows(csv, now, formatDate))| - 1 in rejected
      ensures live == old(live)
    {
      ghost var values := EncodeDataRows(csv, now, formatDate);
      var count, text, flushes := ReadLoop(csv, now, formatDate, rejected);
      aborted := false;
      if count > 0 {
        FinalFlushAccepted(old(staging), values, rejected);
        LoopThenFinalFlush(values);
        var ok := SendBatch(text, ProgressAfter(values).pending, false, flushes in rejected);
        aborted := !ok;
      }
    }

    /** `REPLACE INTO pmc_db (SELECT * FROM pmc_db_tmp)` followed by `TRUNCATE TABLE pmc_db_tmp`.
        Neither result is checked: when the REPLACE fails the staging table is emptied all the same.
        The staged rows are upserted in the order they were inserted. */
    method Promote(idOf: nat -> Key, replaceFails: bool)
      modifies this
      ensures live == if replaceFails then old(live) else Upsert(old(live), old(staging), idOf)
      ensures staging == [] && flushed == old(flushed)
    {
      if !replaceFails {
        live := Upsert(live, staging, idOf);
      }
      staging := [];
    }

    /** `UPDATE pmc_db SET <changes> WHERE id=<target>`: a column the table does not have makes the
        statement fail, so does a refusal by the server, and an id the table does not hold matches
        no row. A failure changes nothing and is ignored. */
    method UpdateRow(target: Key, changes: map<string, string>, refuses: Edit -> bool)
      requires changes != map[]
      modifies this
      ensures live == ApplyEdit(old(live), Edit(target, changes), refuses)
      ensures staging == old(staging) && flushed == old(flushed)
    {
      if changes.Keys <= ColumnNames() && !refuses(Edit(target, changes)) && target in live {
        live := live[target := SetFields(live[target], changes)];
      }
    }

    /** Replays the edit log in order; an entry with an empty mapping issues no statement. */
    method ApplyEdits(edits: seq<Edit>, refuses: Edit -> bool)
      modifies this
      ensures live == Replay(old(live), edits, refuses)
      ensures staging == old(staging) && flushed == old(flushed)
    {
      var n := 0;
      while n < |edits|
        invariant 0 <= n <= |edits|
        invariant live == Replay(old(live), edits[..n], refuses)
        invariant staging == old(staging) && flushed == old(flushed)
      {
        var e := edits[n];
        ReplayStep(old(live), edits, n, refuses);
        if e.changes != map[] {
          UpdateRow(e.target, e.changes, refuses);
        }
        n := n + 1;
      }
      assert edits[..n] == edits;
    }

    /** `DELETE FROM pmc_db WHERE id IN (SELECT id FROM pmc_db_deleted)`, one set-based statement. */
    method DeleteMarked(deleted: set<Key>)
      modifies this
      ensures live == Purge(old(live), deleted)
      ensures staging == old(staging) && flushed == old(flushed)
    {
      live := live - deleted;
    }

    /** The whole run: stage, promote, replay the edit log, then delete. An aborted run stops
        right after staging, leaving the live table untouched and the staged rows in place. */
    method Run(csv: seq<seq<string>>, now: string, formatDate: string -> string, rejected: set<nat>,
               idOf: nat -> Key, replaceFails: bool, edits: seq<Edit>, refuses: Edit -> bool,
               deleted: set<Key>)
      returns (aborted: bool)
      requires QuoteFreeClock(now, formatDate)
      modifies this
      ensures aborted <==> |csv| > 1 && |Flushes(EncodeDataRows(csv, now, formatDate))| - 1 in rejected
      ensures flushed == old(flushed) + Flushes(EncodeDataRows(csv, now, formatDate))
      ensures aborted ==> live == old(live)
      ensures aborted ==> staging == old(staging) + Accepted(Flushes(EncodeDataRows(csv, now, formatDate)), rejected)
      ensures !aborted ==> staging == []
      ensures !aborted ==> live == Reconciled(old(live),
                                   old(staging) + Accepted(Flushes(EncodeDataRows(csv, now, formatDate)), rejected),
                                   idOf, replaceFails, edits, refuses, deleted)
    {
      aborted := StageRows(csv, now, formatDate, rejected);
      if aborted {
        return;
      }
      Promote(idOf, replaceFails);
      ApplyEdits(edits, refuses);
      DeleteMarked(deleted);
    }
  }
}
