/** `MpaDbStorage`: read-only queries over the MPA rating reference table. */
module MpaDbStorage {
  import opened Common
  import opened Model
  import Ids

  /** The MPA table, `mpa_id -> name`. */
  type MpaTable = map<int, string>

  /** The row of `table` with key `id`, as the row mapper builds it. */
  function Row(table: MpaTable, id: int): Mpa
    requires id in table
  {
    Mpa(Some(id), Some(table[id]))
  }

  /** The rows for `keys`, in the order of `keys`. */
  function RowsFor(table: MpaTable, keys: seq<int>): (r: seq<Mpa>)
    requires forall k :: k in keys ==> k in table
    ensures |r| == |keys|
    ensures forall i :: 0 <= i < |r| ==> r[i] == Row(table, keys[i])
  {
    if keys == [] then [] else [Row(table, keys[0])] + RowsFor(table, keys[1..])
  }

  /** `findAll` (`SELECT * FROM mpa ORDER BY mpa_id`): every rating once, in
      strictly ascending id order; empty exactly when the table is. */
  function FindAll(table: MpaTable): (r: seq<Mpa>)
    ensures |r| == |table|
    ensures forall i :: 0 <= i < |r| ==> r[i].id.Some? && r[i].id.value in table && r[i] == Row(table, r[i].id.value)
    ensures forall i, j :: 0 <= i < j < |r| ==> r[i].id.value < r[j].id.value
    ensures forall id :: id in table ==> Row(table, id) in r
  {
    var keys := Ids.SortedIds(table.Keys);
    var r := RowsFor(table, keys);
    forall id | id in table ensures Row(table, id) in r {
      assert id in keys;
      var i :| 0 <= i < |keys| && keys[i] == id;
      assert r[i] == Row(table, id);
    }
    r
  }

  /** `findById`: the rating with that id, or NotFound. */
  function FindById(table: MpaTable, id: int): (r: Result<Mpa>)
    ensures r.Ok? <==> id in table
    ensures r.Ok? ==> r.value.id == Some(id) && r.value.name == Some(table[id])
    ensures r.Err? ==> r.error == NotFound
  {
    if id in table then Ok(Row(table, id)) else Err(NotFound)
  }

  /** What `findById` returns is exactly what `findAll` lists. */
  lemma FoundIffListed(table: MpaTable, id: int)
    ensures FindById(table, id).Ok? ==> FindById(table, id).value in FindAll(table)
    ensures forall m :: m in FindAll(table) ==> m.id.Some? && FindById(table, m.id.value) == Ok(m)
  {
    var all := FindAll(table);
    forall m | m in all ensures m.id.Some? && FindById(table, m.id.value) == Ok(m) {
      var i :| 0 <= i < |all| && all[i] == m;
    }
  }

  /** A table keyed by positive ids answers NotFound for 0 and -1. */
  lemma NonPositiveIdsNotFound(table: MpaTable)
    requires forall k :: k in table ==> k > 0
    ensures FindById(table, 0) == Err(NotFound)
    ensures FindById(table, -1) == Err(NotFound)
  {
  }
}
