/**
 * The overlay phase of the importer: every edit-log entry is replayed as an
 * `UPDATE ... SET field='value', ... WHERE id=<key>` on the live table, in the order
 * the server returns the log, and then every key of the deletion table is removed in one
 * statement. A statement the server refuses changes nothing, and the replay goes on.
 */
module Overlay {
  import opened RowDecoder
  import opened Promoter

  /** One edit-log entry: the live key it targets and its decoded field-to-value mapping. */
  datatype Edit = Edit(target: Key, changes: map<string, string>)

  /** The names of the live table's columns. */
  function ColumnNames(): (names: set<string>)
    ensures forall i | 0 <= i < |Columns| :: Columns[i] in names
    ensures forall c | c in names :: c in Columns
  {
    set c | c in Columns
  }

  /** An entry is issued as a statement only when its mapping is not empty, and the statement
      takes effect only when every field it names is a column of the table and the server does
      not refuse it. `refuses` is the server's answer to the statement of an entry: in strict mode
      a value its column's type does not take, a value longer than its column, or an empty id
      (which leaves `WHERE id=` without an operand) makes the statement fail, and the run goes on. */
  predicate Effective(e: Edit, refuses: Edit -> bool) {
    e.changes != map[] && e.changes.Keys <= ColumnNames() && !refuses(e)
  }

  /** `row` with the listed columns set to their new values. */
  function SetFields(row: Row, changes: map<string, string>): (r: Row)
    ensures |r| == |row|
    ensures forall i | 0 <= i < |row| && i < |Columns| && Columns[i] in changes :: r[i] == changes[Columns[i]]
    ensures forall i | 0 <= i < |row| && !(i < |Columns| && Columns[i] in changes) :: r[i] == row[i]
  {
    seq(|row|, i requires 0 <= i < |row| =>
      if i < |Columns| && Columns[i] in changes then changes[Columns[i]] else row[i])
  }

  /** The live table after one edit-log entry is replayed. */
  function ApplyEdit(live: Table, e: Edit, refuses: Edit -> bool): (r: Table)
    ensures r.Keys == live.Keys
    ensures !Effective(e, refuses) || e.target !in live ==> r == live
    ensures forall k | k in live && k != e.target :: r[k] == live[k]
    ensures Effective(e, refuses) && e.target in live ==> r[e.target] == SetFields(live[e.target], e.changes)
  {
    if Effective(e, refuses) && e.target in live then live[e.target := SetFields(live[e.target], e.changes)]
    else live
  }

  /** Replaying the same entry a second time leaves the table as the first replay left it. */
  lemma ApplyEditIdempotent(live: Table, e: Edit, refuses: Edit -> bool)
    ensures ApplyEdit(ApplyEdit(live, e, refuses), e, refuses) == ApplyEdit(live, e, refuses)
  {
    if Effective(e, refuses) && e.target in live {
      var row := SetFields(live[e.target], e.changes);
      assert SetFields(row, e.changes) == row;
    }
  }

  /** The live table after the entries are replayed in the order the server returns the log. */
  function Replay(live: Table, edits: seq<Edit>, refuses: Edit -> bool): (r: Table)
    ensures r.Keys == live.Keys
    ensures forall k | k in live :: |r[k]| == |live[k]|
  {
    if edits == [] then live
    else ApplyEdit(Replay(live, edits[..|edits| - 1], refuses), edits[|edits| - 1], refuses)
  }

  /** Replaying one more entry of the log applies it to the table replayed so far. */
  lemma ReplayStep(live: Table, edits: seq<Edit>, n: nat, refuses: Edit -> bool)
    requires n < |edits|
    ensures Replay(live, edits[..n + 1], refuses) == ApplyEdit(Replay(live, edits[..n], refuses), edits[n], refuses)
  {
    assert edits[..n + 1][..n] == edits[..n];
  }

  /** Whether entry `e` writes column `i` of the row with key `k`. */
  predicate Writes(e: Edit, k: Key, i: nat, refuses: Edit -> bool) {
    Effective(e, refuses) && e.target == k && i < |Columns| && Columns[i] in e.changes
  }

  /** Reference reading: the value the last entry writing column `i` of key `k` sets, if any does. */
  function LastWrite(edits: seq<Edit>, k: Key, i: nat, refuses: Edit -> bool): Option<string>
  {
    if edits == [] then None
    else
      var e := edits[|edits| - 1];
      if Writes(e, k, i, refuses) then Some(e.changes[Columns[i]]) else LastWrite(edits[..|edits| - 1], k, i, refuses)
  }

  /** After replay, each column of each live row holds the value of the last entry writing it,
      and its old value when no entry writes it. */
  lemma {:induction false} ReplayAt(live: Table, edits: seq<Edit>, k: Key, i: nat, refuses: Edit -> bool)
    requires k in live && i < |live[k]|
    ensures |Replay(live, edits, refuses)[k]| == |live[k]|
    ensures Replay(live, edits, refuses)[k][i] == match LastWrite(edits, k, i, refuses)
                                         case Some(v) => v
                                         case None => live[k][i]
  {
    if edits != [] {
      ReplayAt(live, edits[..|edits| - 1], k, i, refuses);
    }
  }

  lemma {:induction false} LastWriteIsLast(edits: seq<Edit>, j: nat, k: Key, i: nat, refuses: Edit -> bool)
    requires j < |edits| && Writes(edits[j], k, i, refuses)
    requires forall m | j < m < |edits| :: !Writes(edits[m], k, i, refuses)
    ensures LastWrite(edits, k, i, refuses) == Some(edits[j].changes[Columns[i]])
  {
    if j < |edits| - 1 {
      LastWriteIsLast(edits[..|edits| - 1], j, k, i, refuses);
    }
  }

  lemma {:induction false} LastWriteNone(edits: seq<Edit>, k: Key, i: nat, refuses: Edit -> bool)
    requires forall m | 0 <= m < |edits| :: !Writes(edits[m], k, i, refuses)
    ensures LastWrite(edits, k, i, refuses) == None
  {
    if edits != [] {
      LastWriteNone(edits[..|edits| - 1], k, i, refuses);
    }
  }

  /** Later entries override earlier ones on the same key and field: the column holds the value
      of the last entry that writes it. */
  lemma ReplayLastWins(live: Table, edits: seq<Edit>, j: nat, i: nat, refuses: Edit -> bool)
    requires j < |edits| && edits[j].target in live && i < |live[edits[j].target]|
    requires Writes(edits[j], edits[j].target, i, refuses)
    requires forall m | j < m < |edits| :: !Writes(edits[m], edits[j].target, i, refuses)
    ensures Replay(live, edits, refuses)[edits[j].target][i] == edits[j].changes[Columns[i]]
  {
    ReplayAt(live, edits, edits[j].target, i, refuses);
    LastWriteIsLast(edits, j, edits[j].target, i, refuses);
  }

  /** A column that no effective entry writes keeps its value. */
  lemma ReplayKeepsUnwritten(live: Table, edits: seq<Edit>, k: Key, i: nat, refuses: Edit -> bool)
    requires k in live && i < |live[k]|
    requires forall m | 0 <= m < |edits| :: !Writes(edits[m], k, i, refuses)
    ensures Replay(live, edits, refuses)[k][i] == live[k][i]
  {
    ReplayAt(live, edits, k, i, refuses);
    LastWriteNone(edits, k, i, refuses);
  }

  /** Two tables agree when they have the same keys and every column of every row reads the same. */
  lemma SameTable(a: Table, b: Table)
    requires a.Keys == b.Keys
    requires forall k | k in a :: |a[k]| == |b[k]|
    requires forall k, i | k in a && 0 <= i < |a[k]| :: a[k][i] == b[k][i]
    ensures a == b
  {
    forall k | k in a
      ensures a[k] == b[k]
    {
      assert a[k] == b[k];
    }
  }

  /** Replaying the whole edit log a second time, as every run does, changes nothing. */
  lemma ReplayIdempotent(live: Table, edits: seq<Edit>, refuses: Edit -> bool)
    ensures Replay(Replay(live, edits, refuses), edits, refuses) == Replay(live, edits, refuses)
  {
    var once := Replay(live, edits, refuses);
    var twice := Replay(once, edits, refuses);
    forall k, i | k in once && 0 <= i < |once[k]|
      ensures twice[k][i] == once[k][i]
    {
      ReplayAt(live, edits, k, i, refuses);
      ReplayAt(once, edits, k, i, refuses);
    }
    SameTable(twice, once);
  }

  /** The live table after the deletion statement: every key of the deletion table removed. */
  function Purge(live: Table, deleted: set<Key>): (r: Table)
    ensures r.Keys == live.Keys - deleted
    ensures forall k | k in r :: r[k] == live[k]
  {
    live - deleted
  }

  /** The entries whose target is not marked for deletion, in the order the server returns the log. */
  function Surviving(edits: seq<Edit>, deleted: set<Key>): (r: seq<Edit>)
    ensures forall e | e in r :: e in edits && e.target !in deleted
    ensures forall e | e in edits && e.target !in deleted :: e in r
  {
    if edits == [] then []
    else
      var e := edits[|edits| - 1];
      Surviving(edits[..|edits| - 1], deleted) + (if e.target in deleted then [] else [e])
  }

  /** Dropping the entries to deleted keys from a log made of two parts drops them from each
      part: what survives keeps its order. */
  lemma {:induction false} SurvivingAppend(a: seq<Edit>, b: seq<Edit>, deleted: set<Key>)
    ensures Surviving(a + b, deleted) == Surviving(a, deleted) + Surviving(b, deleted)
  {
    if b == [] {
      assert a + b == a;
    } else {
      var front := b[..|b| - 1];
      var e := b[|b| - 1];
      var tail := if e.target in deleted then [] else [e];
      assert (a + b)[..|a + b| - 1] == a + front;
      assert (a + b)[|a + b| - 1] == e;
      SurvivingAppend(a, front, deleted);
      calc {
        Surviving(a + b, deleted);
        Surviving(a + front, deleted) + tail;
        Surviving(a, deleted) + Surviving(front, deleted) + tail;
        Surviving(a, deleted) + (Surviving(front, deleted) + tail);
      }
    }
  }

  /** A single entry survives exactly when its target is not deleted. */
  lemma SurvivingOne(e: Edit, deleted: set<Key>)
    ensures Surviving([e], deleted) == if e.target in deleted then [] else [e]
  {
    assert [e][..0] == [];
  }

  lemma {:induction false} LastWriteSurviving(edits: seq<Edit>, deleted: set<Key>, k: Key, i: nat, refuses: Edit -> bool)
    requires k !in deleted
    ensures LastWrite(Surviving(edits, deleted), k, i, refuses) == LastWrite(edits, k, i, refuses)
  {
    if edits != [] {
      var front := edits[..|edits| - 1];
      var e := edits[|edits| - 1];
      LastWriteSurviving(front, deleted, k, i, refuses);
      var s := Surviving(edits, deleted);
      if e.target in deleted {
        assert s == Surviving(front, deleted);
        assert !Writes(e, k, i, refuses);
      } else {
        assert s == Surviving(front, deleted) + [e];
        assert s[..|s| - 1] == Surviving(front, deleted);
      }
    }
  }

  /** Edits to keys that are deleted afterwards leave no trace: the final table is the one
      obtained by dropping those entries from the log altogether. */
  lemma DeletedEditsLeaveNoTrace(live: Table, edits: seq<Edit>, deleted: set<Key>, refuses: Edit -> bool)
    ensures Purge(Replay(live, edits, refuses), deleted) == Purge(Replay(live, Surviving(edits, deleted), refuses), deleted)
  {
    var a := Purge(Replay(live, edits, refuses), deleted);
    var b := Purge(Replay(live, Surviving(edits, deleted), refuses), deleted);
    forall k | k in a
      ensures |a[k]| == |b[k]|
      ensures forall i | 0 <= i < |a[k]| :: a[k][i] == b[k][i]
    {
      forall i | 0 <= i < |a[k]|
        ensures a[k][i] == b[k][i]
      {
        ReplayAt(live, edits, k, i, refuses);
        ReplayAt(live, Surviving(edits, deleted), k, i, refuses);
        LastWriteSurviving(edits, deleted, k, i, refuses);
      }
    }
    SameTable(a, b);
  }

  /** Deleting before the edits would give the same table as deleting after them: an edit to a
      deleted key can only touch a row that is removed anyway. */
  lemma PurgeCommutesWithReplay(live: Table, edits: seq<Edit>, deleted: set<Key>, refuses: Edit -> bool)
    ensures Purge(Replay(live, edits, refuses), deleted) == Replay(Purge(live, deleted), edits, refuses)
  {
    var a := Purge(Replay(live, edits, refuses), deleted);
    var b := Replay(Purge(live, deleted), edits, refuses);
    var p := Purge(live, deleted);
    forall k | k in a
      ensures |a[k]| == |b[k]|
      ensures forall i | 0 <= i < |a[k]| :: a[k][i] == b[k][i]
    {
      forall i | 0 <= i < |a[k]|
        ensures a[k][i] == b[k][i]
      {
        ReplayAt(live, edits, k, i, refuses);
        ReplayAt(p, edits, k, i, refuses);
      }
    }
    SameTable(a, b);
  }
}
