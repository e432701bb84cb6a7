/**
 * Promotion of the staging table into the live table: `REPLACE INTO live SELECT * FROM staging`
 * inserts every staged row, replacing a live row that has the same key. The key is the `id`
 * column, which the INSERT statements never write: the staging table assigns it. So the key of
 * the staged row at position `i` is a parameter `idOf(i)`, not a function of the row's values,
 * and two staged rows with equal values may carry different keys.
 */
module Promoter {
  import opened RowDecoder

  type Key = int

  /** A keyed table: the live table, keyed by its `id`. */
  type Table = map<Key, Row>

  /** The live table after the staged rows are upserted one by one, in the order of `staged`. */
  function Upsert(live: Table, staged: seq<Row>, idOf: nat -> Key): (r: Table)
    ensures forall k | k in live :: k in r
    ensures forall i | 0 <= i < |staged| :: idOf(i) in r
    ensures |staged| > 0 ==> r[idOf(|staged| - 1)] == staged[|staged| - 1]
  {
    if staged == [] then live
    else
      Upsert(live, staged[..|staged| - 1], idOf)[idOf(|staged| - 1) := staged[|staged| - 1]]
  }

  /** The keys the staged rows carry, one per position. */
  function StagedKeys(staged: seq<Row>, idOf: nat -> Key): (ks: set<Key>)
    ensures forall i | 0 <= i < |staged| :: idOf(i) in ks
    ensures forall k | k in ks :: exists i | 0 <= i < |staged| :: idOf(i) == k
  {
    set i | 0 <= i < |staged| :: idOf(i)
  }

  /** Reference reading of one key after promotion: the last staged row carrying it, otherwise the live row. */
  function Lookup(live: Table, staged: seq<Row>, idOf: nat -> Key, k: Key): Option<Row>
  {
    if staged == [] then (if k in live then Some(live[k]) else None)
    else if idOf(|staged| - 1) == k then Some(staged[|staged| - 1])
    else Lookup(live, staged[..|staged| - 1], idOf, k)
  }

  /** The upsert agrees with the reference reading on every key. */
  lemma {:induction false} UpsertLookup(live: Table, staged: seq<Row>, idOf: nat -> Key, k: Key)
    ensures k in Upsert(live, staged, idOf) <==> Lookup(live, staged, idOf, k).Some?
    ensures k in Upsert(live, staged, idOf) ==> Upsert(live, staged, idOf)[k] == Lookup(live, staged, idOf, k).value
  {
    if staged != [] {
      UpsertLookup(live, staged[..|staged| - 1], idOf, k);
    }
  }

  lemma {:induction false} LookupUnstaged(live: Table, staged: seq<Row>, idOf: nat -> Key, k: Key)
    requires forall i | 0 <= i < |staged| :: idOf(i) != k
    ensures Lookup(live, staged, idOf, k) == if k in live then Some(live[k]) else None
  {
    if staged != [] {
      LookupUnstaged(live, staged[..|staged| - 1], idOf, k);
    }
  }

  lemma {:induction false} LookupLast(live: Table, staged: seq<Row>, idOf: nat -> Key, i: nat)
    requires i < |staged|
    requires forall j | i < j < |staged| :: idOf(j) != idOf(i)
    ensures Lookup(live, staged, idOf, idOf(i)) == Some(staged[i])
  {
    if i < |staged| - 1 {
      LookupLast(live, staged[..|staged| - 1], idOf, i);
    }
  }

  /** For a staged key the reading does not depend on the table underneath. */
  lemma {:induction false} LookupStagedIgnoresLive(a: Table, b: Table, staged: seq<Row>, idOf: nat -> Key, k: Key)
    requires k in StagedKeys(staged, idOf)
    ensures Lookup(a, staged, idOf, k) == Lookup(b, staged, idOf, k)
  {
    if idOf(|staged| - 1) != k {
      LookupStagedIgnoresLive(a, b, staged[..|staged| - 1], idOf, k);
    }
  }

  /** A live row whose key no staged row carries is left exactly as it was, and no such key appears. */
  lemma UpsertKeepsUnstaged(live: Table, staged: seq<Row>, idOf: nat -> Key, k: Key)
    requires k !in StagedKeys(staged, idOf)
    ensures k in Upsert(live, staged, idOf) <==> k in live
    ensures k in live ==> Upsert(live, staged, idOf)[k] == live[k]
  {
    UpsertLookup(live, staged, idOf, k);
    LookupUnstaged(live, staged, idOf, k);
  }

  /** Every staged key ends up holding the last staged row that carries it. */
  lemma UpsertLastWins(live: Table, staged: seq<Row>, idOf: nat -> Key, i: nat)
    requires i < |staged|
    requires forall j | i < j < |staged| :: idOf(j) != idOf(i)
    ensures idOf(i) in Upsert(live, staged, idOf)
    ensures Upsert(live, staged, idOf)[idOf(i)] == staged[i]
  {
    UpsertLookup(live, staged, idOf, idOf(i));
    LookupLast(live, staged, idOf, i);
  }

  /** The keys after promotion are the old keys and the staged keys. */
  lemma UpsertKeys(live: Table, staged: seq<Row>, idOf: nat -> Key)
    ensures Upsert(live, staged, idOf).Keys == live.Keys + StagedKeys(staged, idOf)
  {
    var u := Upsert(live, staged, idOf);
    forall k
      ensures k in u <==> k in live || k in StagedKeys(staged, idOf)
    {
      UpsertLookup(live, staged, idOf, k);
      if k in StagedKeys(staged, idOf) {
        var i :| 0 <= i < |staged| && idOf(i) == k;
        LookupStagedIgnoresLive(live, map[], staged, idOf, k);
        LookupSomeWhenStaged(staged, idOf, i);
      } else {
        LookupUnstaged(live, staged, idOf, k);
      }
    }
  }

  lemma {:induction false} LookupSomeWhenStaged(staged: seq<Row>, idOf: nat -> Key, i: nat)
    requires i < |staged|
    ensures Lookup(map[], staged, idOf, idOf(i)).Some?
  {
    if idOf(|staged| - 1) != idOf(i) {
      LookupSomeWhenStaged(staged[..|staged| - 1], idOf, i);
    }
  }

  /** Promoting the same staging contents a second time changes nothing. */
  lemma UpsertIdempotent(live: Table, staged: seq<Row>, idOf: nat -> Key)
    ensures Upsert(Upsert(live, staged, idOf), staged, idOf) == Upsert(live, staged, idOf)
  {
    var once := Upsert(live, staged, idOf);
    var twice := Upsert(once, staged, idOf);
    forall k
      ensures (k in twice <==> k in once) && (k in twice ==> twice[k] == once[k])
    {
      UpsertLookup(live, staged, idOf, k);
      UpsertLookup(once, staged, idOf, k);
      if k in StagedKeys(staged, idOf) {
        LookupStagedIgnoresLive(live, once, staged, idOf, k);
      } else {
        LookupUnstaged(live, staged, idOf, k);
        LookupUnstaged(once, staged, idOf, k);
      }
    }
  }
}
