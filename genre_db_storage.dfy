/** `GenreDbStorage`: read-only queries over the genre reference table. */
module GenreDbStorage {
  import opened Common
  import opened Model
  import Ids

  /** The genre table, `genre_id -> name`. */
  type GenreTable = map<int, string>

  /** The row of `table` with key `id`, as the row mapper builds it. */
  function Row(table: GenreTable, id: int): Genre
    requires id in table
  {
    Genre(Some(id), Some(table[id]))
  }

  /** The rows for `keys`, in the order of `keys`. */
  function RowsFor(table: GenreTable, keys: seq<int>): (r: seq<Genre>)
    requires forall k :: k in keys ==> k in table
    ensures |r| == |keys|
    ensures forall i :: 0 <= i < |r| ==> r[i] == Row(table, keys[i])
  {
    if keys == [] then [] else [Row(table, keys[0])] + RowsFor(table, keys[1..])
  }

  /** Rows built for strictly ascending keys are in strictly ascending id
      order, and the row of every key is among them. */
  lemma RowsForAscending(table: GenreTable, keys: seq<int>)
    requires forall k :: k in keys ==> k in table
    requires Ids.StrictlyAscending(keys)
    ensures GenreIdsAscending(RowsFor(table, keys))
    ensures forall k :: k in keys ==> Row(table, k) in RowsFor(table, keys)
  {
    var r := RowsFor(table, keys);
    forall i, j | 0 <= i < j < |r| ensures r[i].id.value < r[j].id.value {
      assert r[i] == Row(table, keys[i]) && r[j] == Row(table, keys[j]);
    }
    forall k | k in keys ensures Row(table, k) in r {
      var i :| 0 <= i < |keys| && keys[i] == k;
      assert r[i] == Row(table, k);
    }
  }

  /** The rows whose ids lie in `ids`, ordered by id: the shape of both
      `SELECT * FROM genre ORDER BY genre_id` and the film-genre join. */
  function RowsWithIds(table: GenreTable, ids: set<int>): (r: seq<Genre>)
    ensures GenreIdsAscending(r)
    ensures |r| == |ids * table.Keys|
    ensures forall i :: 0 <= i < |r| ==>
      r[i].id.Some? && r[i].id.value in ids && r[i].id.value in table && r[i] == Row(table, r[i].id.value)
    ensures forall id :: id in ids && id in table ==> Row(table, id) in r
  {
    var keys := Ids.SortedIds(ids * table.Keys);
    RowsForAscending(table, keys);
    var r := RowsFor(table, keys);
    forall i | 0 <= i < |r| ensures r[i].id == Some(keys[i]) && keys[i] in ids * table.Keys {
      assert keys[i] in keys;
    }
    forall id | id in ids && id in table ensures Row(table, id) in r {
      assert id in ids * table.Keys;
    }
    r
  }

  /** `findAll`: every genre, in strictly ascending id order; empty exactly
      when the table is. */
  function FindAll(table: GenreTable): (r: seq<Genre>)
    ensures GenreIdsAscending(r)
    ensures |r| == |table|
    ensures forall g :: g in r <==> g.id.Some? && g.id.value in table && g == Row(table, g.id.value)
  {
    var keys := table.Keys;
    assert keys * table.Keys == keys;
    var r := RowsWithIds(table, keys);
    assert |keys| == |table|;
    r
  }

  /** The genres of `gs` whose ids lie in `ids`, in their order: the
      `WHERE` of a join over the rows `gs`. */
  function Only(gs: seq<Genre>, ids: set<int>): (r: seq<Genre>)
    ensures forall g :: g in r <==> g in gs && g.id.Some? && g.id.value in ids
  {
    if gs == [] then []
    else
      var rest := Only(gs[1..], ids);
      assert forall g :: g in gs <==> g == gs[0] || g in gs[1..];
      if gs[0].id.Some? && gs[0].id.value in ids then [gs[0]] + rest else rest
  }

  /** Selecting from rows in strictly ascending id order keeps the order. */
  lemma {:induction false} OnlyAscending(gs: seq<Genre>, ids: set<int>)
    requires GenreIdsAscending(gs)
    ensures GenreIdsAscending(Only(gs, ids))
  {
    if gs != [] {
      AscendingTail(gs);
      OnlyAscending(gs[1..], ids);
      if gs[0].id.value in ids {
        AscendingCons(gs[0], Only(gs[1..], ids));
      }
    }
  }

  /** `findById`: the genre with that id, or NotFound. */
  function FindById(table: GenreTable, id: int): (r: Result<Genre>)
    ensures r.Ok? <==> id in table
    ensures r.Ok? ==> r.value.id == Some(id) && r.value.name == Some(table[id])
    ensures r.Err? ==> r.error == NotFound
  {
    if id in table then Ok(Row(table, id)) else Err(NotFound)
  }

  /** `existsById`: whether a row with that id exists (`COUNT(*) > 0`). */
  function ExistsById(table: GenreTable, id: int): bool
  {
    id in table
  }

  /** `existsById` agrees with `findById`, and what `findById` returns is
      exactly what `findAll` lists. */
  lemma ExistsIffFound(table: GenreTable, id: int)
    ensures ExistsById(table, id) <==> FindById(table, id).Ok?
    ensures FindById(table, id).Ok? ==> FindById(table, id).value in FindAll(table)
    ensures forall g :: g in FindAll(table) ==> g.id.Some? && FindById(table, g.id.value) == Ok(g)
  {
    var all := FindAll(table);
    forall g | g in all ensures g.id.Some? && FindById(table, g.id.value) == Ok(g) {
      var i :| 0 <= i < |all| && all[i] == g;
    }
  }

  /** A table keyed by positive ids answers NotFound for 0 and negative ids. */
  lemma NonPositiveIdsNotFound(table: GenreTable, id: int)
    requires forall k :: k in table ==> k > 0
    requires id <= 0
    ensures FindById(table, id) == Err(NotFound)
    ensures !ExistsById(table, id)
  {
  }
}
