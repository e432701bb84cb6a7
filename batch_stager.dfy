/**
 * The batching of encoded rows into bulk INSERT statements: the importer sends
 * an empty statement when it reads the first data row, one statement per 500
 * rows after that, and one last statement after the file ends. This module
 * describes that sequence of batches and what the staging table receives.
 */
module BatchStager {

  const BatchSize: nat := 500

  /** `s` cut into consecutive pieces of BatchSize elements, the last piece possibly shorter. */
  function Chunks<T>(s: seq<T>): (r: seq<seq<T>>)
    ensures r == [] <==> s == []
    decreases |s|
  {
    if s == [] then []
    else if |s| <= BatchSize then [s]
    else [s[..BatchSize]] + Chunks(s[BatchSize..])
  }

  /** The batches the importer sends for `rows`, in order: nothing for no data rows; otherwise the
      empty statement issued at the first row, then the rows in chunks of BatchSize. */
  function Flushes<T>(rows: seq<T>): (r: seq<seq<T>>)
    ensures rows == [] <==> r == []
    ensures r != [] ==> r[0] == []
  {
    if rows == [] then [] else [[]] + Chunks(rows)
  }

  /** All batches joined in order. */
  function Concat<T>(bs: seq<seq<T>>): seq<T>
  {
    if bs == [] then [] else Concat(bs[..|bs| - 1]) + bs[|bs| - 1]
  }

  /** What the staging table receives from `bs`: the batches whose ordinal the storage did not reject, in order. */
  function Accepted<T>(bs: seq<seq<T>>, rejected: set<nat>): (r: seq<T>)
    ensures |r| <= |Concat(bs)|
  {
    if bs == [] then []
    else Accepted(bs[..|bs| - 1], rejected) + (if |bs| - 1 in rejected then [] else bs[|bs| - 1])
  }

  lemma {:induction false} ConcatAppend<T>(a: seq<seq<T>>, b: seq<seq<T>>)
    ensures Concat(a + b) == Concat(a) + Concat(b)
  {
    if b == [] {
      assert a + b == a;
    } else {
      var front := b[..|b| - 1];
      var last := b[|b| - 1];
      assert (a + b)[..|a + b| - 1] == a + front;
      assert (a + b)[|a + b| - 1] == last;
      ConcatAppend(a, front);
      assert Concat(a) + Concat(front) + last == Concat(a) + (Concat(front) + last);
    }
  }

  lemma {:induction false} ConcatChunks<T>(s: seq<T>)
    ensures Concat(Chunks(s)) == s
  {
    if |s| > BatchSize {
      ConcatAppend([s[..BatchSize]], Chunks(s[BatchSize..]));
      assert Concat([s[..BatchSize]]) == s[..BatchSize] by {
        assert [s[..BatchSize]][..0] == [];
      }
      ConcatChunks(s[BatchSize..]);
      assert s[..BatchSize] + s[BatchSize..] == s;
    } else if s != [] {
      assert [s][..0] == [];
    }
  }

  /** Concatenating the batches in the order they are sent gives back exactly the rows, in file order:
      none is lost, duplicated or reordered by the partition. */
  lemma FlushesPartitionRows<T>(rows: seq<T>)
    ensures Concat(Flushes(rows)) == rows
  {
    if rows != [] {
      var empty: seq<seq<T>> := [[]];
      ConcatAppend(empty, Chunks(rows));
      assert Concat(empty) == [] by {
        assert empty[..0] == [];
      }
      ConcatChunks(rows);
    }
  }

  lemma {:induction false} ChunkSizes<T>(s: seq<T>)
    ensures |Chunks(s)| == (|s| + BatchSize - 1) / BatchSize
    ensures forall k | 0 <= k < |Chunks(s)| - 1 :: |Chunks(s)[k]| == BatchSize
    ensures s != [] ==> 0 < |Chunks(s)[|Chunks(s)| - 1]| <= BatchSize
  {
    if |s| > BatchSize {
      var rest := s[BatchSize..];
      ChunkSizes(rest);
      assert Chunks(s) == [s[..BatchSize]] + Chunks(rest);
      assert (|s| + BatchSize - 1) / BatchSize == 1 + (|rest| + BatchSize - 1) / BatchSize;
    }
  }

  /** The batch sizes: with no data rows nothing is sent; otherwise the first statement holds no
      row, every later statement sent from inside the loop holds exactly BatchSize rows, and the
      final one holds between 1 and BatchSize rows. There is one in-loop flush per started batch. */
  lemma FlushSizes<T>(rows: seq<T>)
    ensures rows == [] ==> Flushes(rows) == []
    ensures rows != [] ==> |Flushes(rows)| == (|rows| - 1) / BatchSize + 2
    ensures rows != [] ==> Flushes(rows)[0] == []
    ensures forall k | 1 <= k < |Flushes(rows)| - 1 :: |Flushes(rows)[k]| == BatchSize
    ensures rows != [] ==> 1 <= |Flushes(rows)[|Flushes(rows)| - 1]| <= BatchSize
  {
    if rows != [] {
      ChunkSizes(rows);
      var f := Flushes(rows);
      forall k | 1 <= k < |f| - 1
        ensures |f[k]| == BatchSize
      {
        assert f[k] == Chunks(rows)[k - 1];
      }
    }
  }

  /** A sequence holding at least one whole batch begins with that batch. */
  lemma ChunksFront<T>(a: seq<T>)
    requires |a| >= BatchSize
    ensures Chunks(a) == [a[..BatchSize]] + Chunks(a[BatchSize..])
  {
    if |a| == BatchSize {
      assert a[BatchSize..] == [];
      assert a[..BatchSize] == a;
    }
  }

  lemma {:induction false} ChunksAppend<T>(a: seq<T>, b: seq<T>)
    requires |a| % BatchSize == 0
    ensures Chunks(a + b) == Chunks(a) + Chunks(b)
    decreases |a|
  {
    if a == [] {
      assert a + b == b;
    } else if b == [] {
      assert a + b == a;
    } else {
      assert (a + b)[..BatchSize] == a[..BatchSize];
      assert (a + b)[BatchSize..] == a[BatchSize..] + b;
      ChunksFront(a + b);
      ChunksFront(a);
      ChunksAppend(a[BatchSize..], b);
      assert [a[..BatchSize]] + Chunks(a[BatchSize..]) + Chunks(b) == [a[..BatchSize]] + (Chunks(a[BatchSize..]) + Chunks(b));
    }
  }

  /** Appending one batch of at most BatchSize rows after whole batches adds exactly that batch. */
  lemma ChunksSnoc<T>(a: seq<T>, b: seq<T>)
    requires |a| % BatchSize == 0 && 0 < |b| <= BatchSize
    ensures Chunks(a + b) == Chunks(a) + [b]
  {
    ChunksAppend(a, b);
  }

  /** The flush inside the loop at row `i` closes the batch begun at `start`. */
  lemma BatchBoundary<T>(values: seq<T>, start: nat, i: nat)
    requires start % BatchSize == 0 && i % BatchSize == 0
    requires start < i <= start + BatchSize && i <= |values|
    ensures Chunks(values[..start]) + [values[start..i]] == Chunks(values[..i])
  {
    var front, last := values[..start], values[start..i];
    assert front + last == values[..i];
    ChunksSnoc(front, last);
  }

  /** The flush after the loop closes the last batch. */
  lemma FinalBatch<T>(values: seq<T>, start: nat)
    requires start % BatchSize == 0 && start < |values| <= start + BatchSize
    ensures Chunks(values[..start]) + [values[start..]] == Chunks(values)
  {
    var front, last := values[..start], values[start..];
    assert front + last == values;
    ChunksSnoc(front, last);
  }

  lemma AcceptedSnoc<T>(bs: seq<seq<T>>, b: seq<T>, rejected: set<nat>)
    ensures Accepted(bs + [b], rejected) == Accepted(bs, rejected) + (if |bs| in rejected then [] else b)
  {
    assert (bs + [b])[..|bs|] == bs;
  }

  /** A table that already held `before` plus what the batches `bs` delivered, after the next
      batch is sent, holds `before` plus what `bs + [b]` delivers. */
  lemma AcceptedAfterFlush<T>(before: seq<T>, bs: seq<seq<T>>, b: seq<T>, rejected: set<nat>)
    ensures before + Accepted(bs, rejected) + (if |bs| in rejected then [] else b)
            == before + Accepted(bs + [b], rejected)
  {
    AcceptedSnoc(bs, b, rejected);
  }

  /** Where the read loop stands after some rows: the batches it has sent and the rows of the
      statement it is building. */
  datatype Progress<T> = Progress(sent: seq<seq<T>>, pending: seq<T>)

  /** The read loop, one row at a time: before adding row `n` it sends the pending statement
      whenever `n` is a multiple of BatchSize. */
  function ProgressAfter<T>(rows: seq<T>): (p: Progress<T>)
    ensures rows != [] ==> p.pending != []
  {
    if rows == [] then Progress([], [])
    else
      var p := ProgressAfter(rows[..|rows| - 1]);
      var row := rows[|rows| - 1];
      if (|rows| - 1) % BatchSize == 0 then Progress(p.sent + [p.pending], [row])
      else Progress(p.sent, p.pending + [row])
  }

  /** One more row, as the loop reads it: first the pending statement is sent when `n` is a
      multiple of BatchSize, then the row is added to the pending one. */
  lemma ProgressStep<T>(rows: seq<T>, n: nat)
    requires n < |rows|
    ensures var p := ProgressAfter(rows[..n]);
            var q := if n % BatchSize == 0 then Progress(p.sent + [p.pending], []) else p;
            ProgressAfter(rows[..n + 1]) == Progress(q.sent, q.pending + [rows[n]])
  {
    assert rows[..n + 1][..n] == rows[..n];
    var empty: seq<T> := [];
    assert empty + [rows[n]] == [rows[n]];
  }

  /** Where the last batch of `n` rows begins: the greatest multiple of BatchSize below `n`. */
  function LastBatchStart(n: nat): (start: nat)
    requires n > 0
    ensures start % BatchSize == 0 && start < n <= start + BatchSize
  {
    (n - 1) / BatchSize * BatchSize
  }

  /** Adding row `n` starts a new batch exactly when `n` is a multiple of BatchSize. */
  lemma BatchStartStep(n: nat)
    requires n > 0
    ensures LastBatchStart(n + 1) == if n % BatchSize == 0 then n else LastBatchStart(n)
  {
  }

  /** The loop's state, in terms of the partition: the empty first statement and the whole batches
      sent, and the rows since the last batch boundary pending. */
  lemma {:induction false} ProgressShape<T>(rows: seq<T>)
    requires rows != []
    ensures var start := LastBatchStart(|rows|);
            ProgressAfter(rows) == Progress([[]] + Chunks(rows[..start]), rows[start..])
  {
    var n := |rows| - 1;
    var front := rows[..n];
    if n > 0 {
      ProgressShape(front);
      var start := LastBatchStart(n);
      assert front[..start] == rows[..start];
      BatchStartStep(n);
      if n % BatchSize == 0 {
        BatchBoundary(rows, start, n);
        assert rows[n..] == [rows[n]];
      } else {
        assert front[start..] + [rows[n]] == rows[start..];
      }
    } else {
      assert rows[0..] == [rows[0]];
    }
  }

  /** Once the loop ends, the batches sent and the final flush of the pending rows are exactly the
      partition of the rows. */
  lemma LoopThenFinalFlush<T>(rows: seq<T>)
    requires rows != []
    ensures ProgressAfter(rows).sent + [ProgressAfter(rows).pending] == Flushes(rows)
  {
    ProgressShape(rows);
    FinalBatch(rows, LastBatchStart(|rows|));
  }

  /** What the final flush adds to the staging table completes what the staging table receives
      from the whole partition; its ordinal is the number of batches the loop sent. */
  lemma FinalFlushAccepted<T>(before: seq<T>, rows: seq<T>, rejected: set<nat>)
    requires rows != []
    ensures |Flushes(rows)| - 1 == |ProgressAfter(rows).sent|
    ensures before + Accepted(ProgressAfter(rows).sent, rejected)
              + (if |ProgressAfter(rows).sent| in rejected then [] else ProgressAfter(rows).pending)
            == before + Accepted(Flushes(rows), rejected)
  {
    var p := ProgressAfter(rows);
    LoopThenFinalFlush(rows);
    AcceptedAfterFlush(before, p.sent, p.pending, rejected);
  }

  /** With no statement rejected the staging table receives every row, in file order. */
  lemma {:induction false} AcceptedAll<T>(bs: seq<seq<T>>, rejected: set<nat>)
    requires forall k | 0 <= k < |bs| :: k !in rejected
    ensures Accepted(bs, rejected) == Concat(bs)
  {
    if bs != [] {
      AcceptedAll(bs[..|bs| - 1], rejected);
    }
  }

  /** The concatenation splits around any one batch. */
  lemma ConcatSplit<T>(bs: seq<seq<T>>, k: nat)
    requires k < |bs|
    ensures Concat(bs) == Concat(bs[..k]) + bs[k] + Concat(bs[k + 1..])
  {
    var upTo := bs[..k + 1];
    var after := bs[k + 1..];
    assert upTo + after == bs;
    ConcatAppend(upTo, after);
    assert upTo[..|upTo| - 1] == bs[..k];
    assert upTo[|upTo| - 1] == bs[k];
  }

  /** One rejected statement loses exactly its own rows: the staging table receives the batches
      before it and the batches after it, in order. */
  lemma {:induction false} AcceptedDropsOne<T>(bs: seq<seq<T>>, k: nat)
    requires k < |bs|
    ensures Accepted(bs, {k}) == Concat(bs[..k]) + Concat(bs[k + 1..])
    ensures |Accepted(bs, {k})| == |Concat(bs)| - |bs[k]|
  {
    var front := bs[..|bs| - 1];
    var last := bs[|bs| - 1];
    if k == |bs| - 1 {
      AcceptedAll(front, {k});
      assert bs[..k] == front;
      assert bs[k + 1..] == [];
    } else {
      AcceptedDropsOne(front, k);
      assert bs[..k] == front[..k];
      var after := front[k + 1..];
      assert bs[k + 1..] == after + [last];
      assert (after + [last])[..|after|] == after;
      assert Concat(bs[..k]) + Concat(after) + last == Concat(bs[..k]) + (Concat(after) + last);
    }
    ConcatSplit(bs, k);
  }

  /** A rejected in-loop statement (any after the empty first one and before the final one) silently
      loses a full batch of rows. It does not stop the run: StageRows aborts only when the ordinal
      of the final statement is rejected. */
  lemma InLoopRejectionLosesBatch<T>(rows: seq<T>, k: nat)
    requires 1 <= k < |Flushes(rows)| - 1
    ensures |Accepted(Flushes(rows), {k})| == |rows| - BatchSize
  {
    FlushSizes(rows);
    AcceptedDropsOne(Flushes(rows), k);
    FlushesPartitionRows(rows);
  }
}
