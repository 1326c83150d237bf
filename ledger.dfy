/** The `sync` table: rows keyed by comment id, each with the time it was
    written. `save_last_synced_comment` upserts a row stamped "now";
    `get_last_synced_comment` returns the id of the row with the latest stamp.
    Time is an abstract counter that every write advances. */
module Ledger {
  import opened Records

  /** The table's contents: `id TEXT PRIMARY KEY` to `synced_at`. */
  type Rows = map<string, nat>

  /** Every stamp was written before the clock's current reading. */
  ghost predicate StampsBelow(rows: Rows, clock: nat)
  {
    forall id :: id in rows ==> rows[id] < clock
  }

  /** No two rows carry the same stamp. */
  ghost predicate StampsDistinct(rows: Rows)
  {
    forall i, j :: i in rows && j in rows && i != j ==> rows[i] != rows[j]
  }

  /** `id` is a row that `ORDER BY synced_at DESC LIMIT 1` may return. */
  ghost predicate IsLatest(rows: Rows, id: string)
  {
    id in rows && forall j :: j in rows ==> rows[j] <= rows[id]
  }

  /** Among the `keys` of a table, some key carries the greatest stamp. */
  lemma {:induction false} MaximumExists(rows: Rows, keys: set<string>)
    requires keys != {} && keys <= rows.Keys
    ensures exists k :: k in keys && forall j :: j in keys ==> rows[j] <= rows[k]
    decreases keys
  {
    var k :| k in keys;
    var rest := keys - {k};
    assert keys == rest + {k};
    if rest != {} {
      MaximumExists(rows, rest);
      var m :| m in rest && forall j :: j in rest ==> rows[j] <= rows[m];
      if rows[m] < rows[k] {
        assert forall j :: j in keys ==> rows[j] <= rows[k];
      } else {
        assert forall j :: j in keys ==> rows[j] <= rows[m];
      }
    }
  }

  /** A table with rows has a latest row. */
  lemma LatestExists(rows: Rows)
    requires rows != map[]
    ensures exists id :: IsLatest(rows, id)
  {
    MaximumExists(rows, rows.Keys);
    var id :| id in rows.Keys && forall j :: j in rows.Keys ==> rows[j] <= rows[id];
    assert IsLatest(rows, id);
  }

  /** What `get_last_synced_comment` answers: None for an empty table,
      otherwise an id whose stamp is the greatest. */
  ghost function Latest(rows: Rows): (last: Option<string>)
    ensures last.None? <==> rows == map[]
    ensures last.Some? ==> IsLatest(rows, last.value)
  {
    if rows == map[] then None
    else
      LatestExists(rows);
      var id :| IsLatest(rows, id);
      Some(id)
  }

  /** With distinct stamps the latest row is unique. */
  lemma LatestUnique(rows: Rows, a: string, b: string)
    requires StampsDistinct(rows)
    requires IsLatest(rows, a) && IsLatest(rows, b)
    ensures a == b
  {
  }

  /** The table after saving `ids` in order, the first at time `clock`, the
      next one tick later, and so on. */
  function SaveAll(rows: Rows, clock: nat, ids: seq<string>): (after: Rows)
    decreases |ids|
  {
    if ids == [] then rows
    else SaveAll(rows, clock, ids[..|ids| - 1])[ids[|ids| - 1] := clock + |ids| - 1]
  }

  /** Saving one more id stamps it with the next tick. */
  lemma SaveAllStep(rows: Rows, clock: nat, ids: seq<string>, id: string)
    ensures SaveAll(rows, clock, ids + [id]) == SaveAll(rows, clock, ids)[id := clock + |ids|]
  {
    assert (ids + [id])[..|ids|] == ids;
  }

  /** Saving a list of ids adds exactly those ids as keys, gives each of them
      a stamp from the ticks used, leaves every other row alone, and keeps
      the stamps below the advanced clock and distinct. */
  lemma {:induction false} SaveAllRows(rows: Rows, clock: nat, ids: seq<string>)
    ensures SaveAll(rows, clock, ids).Keys == rows.Keys + set i | 0 <= i < |ids| :: ids[i]
    ensures forall j :: j in rows && j !in ids ==> SaveAll(rows, clock, ids)[j] == rows[j]
    ensures forall j :: j in ids ==> clock <= SaveAll(rows, clock, ids)[j] < clock + |ids|
    ensures StampsBelow(rows, clock) ==> StampsBelow(SaveAll(rows, clock, ids), clock + |ids|)
    ensures StampsBelow(rows, clock) && StampsDistinct(rows) ==> StampsDistinct(SaveAll(rows, clock, ids))
    decreases |ids|
  {
    if ids != [] {
      var front := ids[..|ids| - 1];
      var x := ids[|ids| - 1];
      SaveAllRows(rows, clock, front);
      assert ids == front + [x];
      assert (set i | 0 <= i < |ids| :: ids[i]) == (set i | 0 <= i < |front| :: front[i]) + {x};
      assert forall j :: j in ids && j != x ==> j in front;
    }
  }

  /** After saving at least one id from a table whose stamps are all before
      `clock`, the latest row is the id saved last. */
  lemma LatestAfterSaves(rows: Rows, clock: nat, ids: seq<string>)
    requires StampsBelow(rows, clock) && StampsDistinct(rows)
    requires ids != []
    ensures Latest(SaveAll(rows, clock, ids)) == Some(ids[|ids| - 1])
  {
    var after := SaveAll(rows, clock, ids);
    SaveAllRows(rows, clock, ids);
    assert after[ids[|ids| - 1]] == clock + |ids| - 1;
    assert IsLatest(after, ids[|ids| - 1]);
    LatestUnique(after, Latest(after).value, ids[|ids| - 1]);
  }

  /** One upsert stamped `clock`: `id` becomes a key (an id already present
      leaves the key set as it was), its stamp is `clock`, every other row
      is unchanged, and with all earlier stamps below `clock` the row just
      written is the latest. */
  lemma SaveOneRow(rows: Rows, clock: nat, id: string)
    ensures rows[id := clock].Keys == rows.Keys + {id}
    ensures id in rows ==> rows[id := clock].Keys == rows.Keys
    ensures rows[id := clock][id] == clock
    ensures forall j :: j in rows && j != id ==> rows[id := clock][j] == rows[j]
    ensures StampsBelow(rows, clock) ==> IsLatest(rows[id := clock], id)
  {
  }

  /** The `sync` table of the database file, with the clock that
      CURRENT_TIMESTAMP reads. `saves` records every id saved, in order. */
  class SyncTable {
    var rows: Rows
    var clock: nat
    ghost var saves: seq<string>

    ghost predicate Valid()
      reads this
    {
      StampsBelow(rows, clock) && StampsDistinct(rows)
    }

    /** `init_db` on a database file that has no `sync` table yet. */
    constructor ()
      ensures Valid()
      ensures rows == map[] && saves == []
    {
      rows := map[];
      clock := 0;
      saves := [];
    }

    /** `save_last_synced_comment(id)`: INSERT OR REPLACE a row for `id`
        stamped with the current time; the clock then moves on. */
    method Save(id: string)
      requires Valid()
      modifies this
      ensures Valid()
      ensures rows == old(rows)[id := old(clock)]
      ensures clock == old(clock) + 1
      ensures saves == old(saves) + [id]
    {
      rows := rows[id := clock];
      clock := clock + 1;
      saves := saves + [id];
    }

    /** `get_last_synced_comment()`: the id of the row with the latest stamp,
        or None when the table is empty. */
    method GetLastSynced() returns (last: Option<string>)
      requires Valid()
      ensures last.None? <==> rows == map[]
      ensures last.Some? ==> IsLatest(rows, last.value)
      ensures last == Latest(rows)
    {
      var pending := rows.Keys;
      last := None;
      while pending != {}
        invariant pending <= rows.Keys
        invariant last.None? <==> pending == rows.Keys
        invariant last.Some? ==> last.value in rows
        invariant last.Some? ==> forall j :: j in rows && j !in pending ==> rows[j] <= rows[last.value]
        decreases pending
      {
        var id :| id in pending;
        if last.None? || rows[last.value] < rows[id] {
          last := Some(id);
        }
        pending := pending - {id};
      }
      if last.Some? {
        LatestUnique(rows, last.value, Latest(rows).value);
      } else {
        assert rows.Keys == {};
      }
    }
  }
}
