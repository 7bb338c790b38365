/** `InMemoryFilmStorage`: films kept in a hash map keyed by id, with ids
    allocated as "largest key + 1". */
module InMemoryFilmStorage {
  import opened Common
  import opened Model
  import Ids

  /** The message `remove` returns on success. */
  const RemovedMessage: string := "Фильм удален"

  /** `update`'s partial overwrite of a stored film by `patch`: each of name,
      description, release date and duration is taken from `patch` when that
      field is non-null there. */
  function Patched(existing: Film, patch: Film): (r: Film)
    ensures r.id == existing.id && r.mpa == existing.mpa
    ensures r.genres == existing.genres && r.likes == existing.likes
  {
    existing.(
      name := if patch.name.Some? then patch.name else existing.name,
      description := if patch.description.Some? then patch.description else existing.description,
      releaseDate := if patch.releaseDate.Some? then patch.releaseDate else existing.releaseDate,
      duration := if patch.duration.Some? then patch.duration else existing.duration)
  }

  /** A non-null field of the patch always lands in the result, a null one
      never erases the stored value, and patching twice is patching once. */
  lemma PatchedFields(existing: Film, patch: Film)
    ensures patch.name.Some? ==> Patched(existing, patch).name == patch.name
    ensures patch.name.None? ==> Patched(existing, patch).name == existing.name
    ensures patch.description.Some? ==> Patched(existing, patch).description == patch.description
    ensures patch.description.None? ==> Patched(existing, patch).description == existing.description
    ensures patch.releaseDate.Some? ==> Patched(existing, patch).releaseDate == patch.releaseDate
    ensures patch.releaseDate.None? ==> Patched(existing, patch).releaseDate == existing.releaseDate
    ensures patch.duration.Some? ==> Patched(existing, patch).duration == patch.duration
    ensures patch.duration.None? ==> Patched(existing, patch).duration == existing.duration
    ensures Patched(Patched(existing, patch), patch) == Patched(existing, patch)
  {
  }

  /** A patch whose four updatable fields are all null changes nothing. */
  lemma NullPatchIsIdentity(existing: Film, patch: Film)
    requires patch.name.None? && patch.description.None?
    requires patch.releaseDate.None? && patch.duration.None?
    ensures Patched(existing, patch) == existing
  {
  }

  class InMemoryFilmStorage {
    /** The `films` hash map. */
    var films: map<int, Film>

    /** Every stored film carries its own key as its id. */
    ghost predicate Valid()
      reads this
    {
      FilmsKeyed(films)
    }

    constructor ()
      ensures Valid() && films == map[]
    {
      films := map[];
    }

    /** `validateFilmExists`: the stored film, or FilmNotFound (also for a
        null id, which `HashMap.get` maps to null). */
    function ValidateFilmExists(id: Option<int>): (r: Result<Film>)
      reads this
      ensures r.Ok? <==> id.Some? && id.value in films
      ensures r.Ok? ==> r.value == films[id.value]
      ensures r.Err? ==> r.error == FilmNotFound
    {
      if id.Some? && id.value in films then Ok(films[id.value]) else Err(FilmNotFound)
    }

    /** `filmById`: the stored film for an existing key, else FilmNotFound. */
    function FilmById(id: int): (r: Result<Film>)
      reads this
      ensures r.Ok? <==> id in films
      ensures r.Ok? ==> r.value == films[id]
      ensures Valid() && r.Ok? ==> r.value.id == Some(id)
      ensures r.Err? ==> r.error == FilmNotFound
    {
      ValidateFilmExists(Some(id))
    }

    /** `create`: rejects a release date before 1895-12-28 (or a null one)
        without touching the map; otherwise stores the film under a fresh id
        and leaves every other entry as it was. */
    method Create(film: Film) returns (r: Result<Film>)
      requires Valid()
      modifies this
      ensures Valid()
      ensures CheckReleaseDate(film).Some? ==>
        r == Err(CheckReleaseDate(film).value) && films == old(films)
      ensures CheckReleaseDate(film).None? ==>
        var id := Ids.NextId(old(films).Keys);
        && id !in old(films)
        && r == Ok(film.(id := Some(id)))
        && films == old(films)[id := film.(id := Some(id))]
    {
      var invalid := CheckReleaseDate(film);
      if invalid.Some? {
        return Err(invalid.value);
      }
      var newId := Ids.NextId(films.Keys);
      var created := film.(id := Some(newId));
      films := films[newId := created];
      return Ok(created);
    }

    /** `update`: FilmNotFound for an unknown or null id; otherwise the
        stored film gets the patch's non-null fields and no other entry
        changes. */
    method Update(newFilm: Film) returns (r: Result<Film>)
      requires Valid()
      modifies this
      ensures Valid()
      ensures r.Ok? <==> newFilm.id.Some? && newFilm.id.value in old(films)
      ensures r.Err? ==> r.error == FilmNotFound && films == old(films)
      ensures r.Ok? ==>
        var id := newFilm.id.value;
        && r.value == Patched(old(films)[id], newFilm)
        && films == old(films)[id := r.value]
    {
      var existing := ValidateFilmExists(newFilm.id);
      if existing.Err? {
        return Err(existing.error);
      }
      var updated := Patched(existing.value, newFilm);
      films := films[newFilm.id.value := updated];
      return Ok(updated);
    }

    /** `remove`: deletes exactly that key, or throws FilmNotFound and
        changes nothing. */
    method Remove(id: int) returns (r: Result<string>)
      requires Valid()
      modifies this
      ensures Valid()
      ensures r.Ok? <==> id in old(films)
      ensures r.Err? ==> r.error == FilmNotFound && films == old(films)
      ensures r.Ok? ==> r.value == RemovedMessage && films == old(films) - {id}
    {
      var existing := ValidateFilmExists(Some(id));
      if existing.Err? {
        return Err(existing.error);
      }
      films := films - {id};
      return Ok(RemovedMessage);
    }
  }
}
