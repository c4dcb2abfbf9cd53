/**
 * The `messages` table of the browser database, reduced to what the analyzer relies on: a
 * map from primary key (`id`) to record, written by `bulkPut`.
 */
module MessageTable {

  /** `bulkPut` of a batch: each record, in batch order, replaces or adds the entry of its id. */
  function Upsert<R>(m: map<string, R>, batch: seq<R>, id: R -> string): (r: map<string, R>)
    ensures r.Keys == m.Keys + set x | x in batch :: id(x)
  {
    if batch == [] then m
    else
      var init := batch[..|batch| - 1];
      var x := batch[|batch| - 1];
      assert (set y | y in batch :: id(y)) == (set y | y in init :: id(y)) + {id(x)};
      Upsert(m, init, id)[id(x) := x]
  }

  /** The position of the last record of the batch with the given id, or -1 when there is none. */
  function LastWithId<R>(batch: seq<R>, id: R -> string, k: string): (i: int)
    ensures -1 <= i < |batch|
    ensures i >= 0 ==> id(batch[i]) == k
    ensures forall j :: i < j < |batch| ==> id(batch[j]) != k
  {
    if batch == [] then -1
    else if id(batch[|batch| - 1]) == k then |batch| - 1
    else LastWithId(batch[..|batch| - 1], id, k)
  }

  /**
   * After `bulkPut`, an id written by the batch holds the batch's last record with that id
   * (an existing record is replaced), and every other id keeps its old record.
   */
  lemma {:induction false} UpsertAt<R>(m: map<string, R>, batch: seq<R>, id: R -> string, k: string)
    ensures LastWithId(batch, id, k) >= 0 ==>
      k in Upsert(m, batch, id) && Upsert(m, batch, id)[k] == batch[LastWithId(batch, id, k)]
    ensures LastWithId(batch, id, k) < 0 ==>
      (k in Upsert(m, batch, id) <==> k in m) && (k in m ==> Upsert(m, batch, id)[k] == m[k])
  {
    if batch != [] {
      UpsertAt(m, batch[..|batch| - 1], id, k);
    }
  }

  /** Writing the same batch twice leaves the table as one write does. */
  lemma UpsertIdempotent<R>(m: map<string, R>, batch: seq<R>, id: R -> string)
    ensures Upsert(Upsert(m, batch, id), batch, id) == Upsert(m, batch, id)
  {
    var once := Upsert(m, batch, id);
    var twice := Upsert(once, batch, id);
    forall k | k in twice ensures k in once && twice[k] == once[k] {
      UpsertAt(m, batch, id, k);
      UpsertAt(once, batch, id, k);
    }
    assert twice.Keys == once.Keys;
  }

  /** The `messages` table. */
  class Table<R> {
    var rows: map<string, R>
    const id: R -> string

    /** An empty table whose records are keyed by `id`. */
    constructor(id: R -> string)
      ensures rows == map[] && this.id == id
    {
      rows := map[];
      this.id := id;
    }

    /** `bulkPut(records)`: every record is stored under its id, later ones overriding earlier ones. */
    method BulkPut(batch: seq<R>)
      modifies this
      ensures rows == Upsert(old(rows), batch, id)
    {
      var i := 0;
      while i < |batch|
        invariant 0 <= i <= |batch|
        invariant rows == Upsert(old(rows), batch[..i], id)
      {
        assert batch[..i + 1][..i] == batch[..i];
        rows := rows[id(batch[i]) := batch[i]];
        i := i + 1;
      }
      assert batch[..i] == batch;
    }
  }
}
