/** `FilmService`: likes go through existence checks on the film and the
    user, and a new film is validated against the reference tables before
    it is stored. */
module FilmService {
  import opened Common
  import opened Model
  import GenreDbStorage
  import MpaDbStorage
  import FilmDbStorage
  import UserDbStorage

  /** A genre `create` accepts: its id is set and `existsById` finds it. */
  predicate GenreKnown(table: GenreDbStorage.GenreTable, g: Genre)
  {
    g.id.Some? && GenreDbStorage.ExistsById(table, g.id.value)
  }

  /** The exception for a genre `create` rejects: ValidationException for a
      null id, NotFoundException for an id the genre table lacks. */
  function GenreError(g: Genre): (e: Error)
    ensures e == Validation <==> g.id.None?
    ensures e == NotFound <==> g.id.Some?
  {
    if g.id.None? then Validation else NotFound
  }

  /** The genre loop of `create`: the error of the first rejected genre in
      iteration order, or none when every genre is accepted. */
  function GenreCheck(table: GenreDbStorage.GenreTable, gs: seq<Genre>): (e: Option<Error>)
    ensures e.None? <==> forall i :: 0 <= i < |gs| ==> GenreKnown(table, gs[i])
    ensures e.Some? ==>
      exists k ::
        && 0 <= k < |gs|
        && (forall i :: 0 <= i < k ==> GenreKnown(table, gs[i]))
        && !GenreKnown(table, gs[k])
        && e.value == GenreError(gs[k])
  {
    if gs == [] then None
    else if !GenreKnown(table, gs[0]) then Some(GenreError(gs[0]))
    else
      var e := GenreCheck(table, gs[1..]);
      assert forall i :: 1 <= i < |gs| ==> gs[i] == gs[1..][i - 1];
      e
  }

  /** The checks `create` runs before it stores anything, in their order:
      the release date, then the presence of the rating and its id
      (ValidationException), then the rating's existence (NotFound), then
      the genres. */
  function CreateCheck(film: Film, mpaTable: MpaDbStorage.MpaTable,
                       genreTable: GenreDbStorage.GenreTable): (e: Option<Error>)
    ensures e.None? <==>
      && CheckReleaseDate(film).None?
      && film.mpa.Some? && film.mpa.value.id.Some? && film.mpa.value.id.value in mpaTable
      && (film.genres.Some? ==> forall i :: 0 <= i < |film.genres.value| ==> GenreKnown(genreTable, film.genres.value[i]))
    ensures CheckReleaseDate(film).Some? ==> e == CheckReleaseDate(film)
    ensures CheckReleaseDate(film).None? && (film.mpa.None? || film.mpa.value.id.None?) ==> e == Some(Validation)
    ensures
      (CheckReleaseDate(film).None? && film.mpa.Some? && film.mpa.value.id.Some? &&
       film.mpa.value.id.value !in mpaTable) ==> e == Some(NotFound)
  {
    if CheckReleaseDate(film).Some? then CheckReleaseDate(film)
    else if film.mpa.None? || film.mpa.value.id.None? then Some(Validation)
    else if MpaDbStorage.FindById(mpaTable, film.mpa.value.id.value).Err? then Some(NotFound)
    else if film.genres.Some? && |film.genres.value| > 0 then GenreCheck(genreTable, film.genres.value)
    else None
  }

  /** A film `create` lets through has a release date on or after the first
      screening, a rating present in the mpa table and only genres present
      in the genre table; a film without a release date fails the first
      check, whatever its rating and genres. */
  lemma CreateCheckAdmits(film: Film, mpaTable: MpaDbStorage.MpaTable, genreTable: GenreDbStorage.GenreTable)
    ensures CreateCheck(film, mpaTable, genreTable).None? ==>
      && film.releaseDate.Some? && !IsBefore(film.releaseDate.value, MinReleaseDate)
      && MpaDbStorage.FindById(mpaTable, film.mpa.value.id.value).Ok?
      && GenreIds(FilmDbStorage.GenresToSave(film)) <= genreTable.Keys
    ensures film.releaseDate.None? ==> CreateCheck(film, mpaTable, genreTable) == Some(NullReference)
  {
    if CreateCheck(film, mpaTable, genreTable).None? {
      var gs := FilmDbStorage.GenresToSave(film);
      forall id | id in GenreIds(gs) ensures id in genreTable {
        var i :| 0 <= i < |gs| && gs[i].id == Some(id);
        assert GenreKnown(genreTable, gs[i]);
      }
    }
  }

  /** The loop over the genres, stopping at the first rejected one. */
  method CheckGenres(table: GenreDbStorage.GenreTable, gs: seq<Genre>) returns (e: Option<Error>)
    ensures e == GenreCheck(table, gs)
  {
    var i := 0;
    while i < |gs|
      invariant 0 <= i <= |gs|
      invariant forall j :: 0 <= j < i ==> GenreKnown(table, gs[j])
    {
      var genre := gs[i];
      if genre.id.None? {
        return Some(Validation);
      }
      if !GenreDbStorage.ExistsById(table, genre.id.value) {
        return Some(NotFound);
      }
      i := i + 1;
    }
    return None;
  }

  class FilmService {
    const filmStorage: FilmDbStorage.FilmDbStorage
    const userStorage: UserDbStorage.UserDbStorage

    constructor (films: FilmDbStorage.FilmDbStorage, users: UserDbStorage.UserDbStorage)
      ensures filmStorage == films && userStorage == users
    {
      filmStorage := films;
      userStorage := users;
    }

    /** `addLike`: NotFound when the film (checked first) or the user is
        unknown, with the likes untouched; otherwise the one pair is stored. */
    method AddLike(filmId: int, userId: int) returns (r: Result<()>)
      modifies filmStorage
      ensures filmStorage.films == old(filmStorage.films)
      ensures filmStorage.filmGenres == old(filmStorage.filmGenres)
      ensures filmStorage.nextKey == old(filmStorage.nextKey)
      ensures filmId !in old(filmStorage.JoinedIds()) || userId !in userStorage.users ==>
        r == Err(NotFound) && filmStorage.likes == old(filmStorage.likes)
      ensures filmId in old(filmStorage.JoinedIds()) && userId in userStorage.users ==>
        r == Ok(()) && filmStorage.likes == old(filmStorage.likes) + {(filmId, userId)}
    {
      var film := filmStorage.ValidateFilmExists(Some(filmId));
      if film.Err? {
        return Err(film.error);
      }
      var user := userStorage.ValidateUserExists(Some(userId));
      if user.Err? {
        return Err(user.error);
      }
      filmStorage.AddLike(filmId, userId);
      return Ok(());
    }

    /** `removeLike`: the same checks in the same order; otherwise the one
        pair is deleted, a no-op when it is absent. */
    method RemoveLike(filmId: int, userId: int) returns (r: Result<()>)
      modifies filmStorage
      ensures filmStorage.films == old(filmStorage.films)
      ensures filmStorage.filmGenres == old(filmStorage.filmGenres)
      ensures filmStorage.nextKey == old(filmStorage.nextKey)
      ensures filmId !in old(filmStorage.JoinedIds()) || userId !in userStorage.users ==>
        r == Err(NotFound) && filmStorage.likes == old(filmStorage.likes)
      ensures filmId in old(filmStorage.JoinedIds()) && userId in userStorage.users ==>
        r == Ok(()) && filmStorage.likes == old(filmStorage.likes) - {(filmId, userId)}
    {
      var film := filmStorage.ValidateFilmExists(Some(filmId));
      if film.Err? {
        return Err(film.error);
      }
      var user := userStorage.ValidateUserExists(Some(userId));
      if user.Err? {
        return Err(user.error);
      }
      filmStorage.RemoveLike(filmId, userId);
      return Ok(());
    }

    /** `getTopFilms`: the storage's answer for the same `count`, as is. */
    method GetTopFilms(count: nat) returns (r: seq<Film>)
      ensures filmStorage.IsTopFilms(count, r)
    {
      r := filmStorage.GetTopFilms(count);
    }

    /** `create`: the checks of `CreateCheck` in their order, each failure
        leaving the tables untouched; then the storage's insert, which can
        still throw on a null duration. */
    method Create(film: Film) returns (r: Result<Film>)
      requires filmStorage.Valid()
      modifies filmStorage
      ensures filmStorage.Valid()
      ensures filmStorage.likes == old(filmStorage.likes)
      ensures CreateCheck(film, filmStorage.mpaTable, filmStorage.genreTable).Some? ==>
        && r == Err(CreateCheck(film, filmStorage.mpaTable, filmStorage.genreTable).value)
        && filmStorage.films == old(filmStorage.films)
        && filmStorage.filmGenres == old(filmStorage.filmGenres)
        && filmStorage.nextKey == old(filmStorage.nextKey)
      ensures CreateCheck(film, filmStorage.mpaTable, filmStorage.genreTable).None? && film.duration.None? ==>
        && r == Err(NullReference)
        && filmStorage.films == old(filmStorage.films)
        && filmStorage.filmGenres == old(filmStorage.filmGenres)
        && filmStorage.nextKey == old(filmStorage.nextKey)
      ensures r.Ok? <==>
        CreateCheck(film, filmStorage.mpaTable, filmStorage.genreTable).None? && film.duration.Some?
      ensures r.Ok? ==>
        var k := old(filmStorage.nextKey);
        && k !in old(filmStorage.films)
        && r.value == film.(id := Some(k))
        && filmStorage.films == old(filmStorage.films)[k := FilmDbStorage.RowOf(film)]
        && filmStorage.filmGenres == old(filmStorage.filmGenres) + FilmDbStorage.LinksFor(k, FilmDbStorage.GenresToSave(film))
    {
      var dateError := CheckReleaseDate(film);
      if dateError.Some? {
        return Err(dateError.value);
      }
      if film.mpa.Some? && film.mpa.value.id.Some? {
        var mpa := MpaDbStorage.FindById(filmStorage.mpaTable, film.mpa.value.id.value);
        if mpa.Err? {
          return Err(mpa.error);
        }
      } else {
        return Err(Validation);
      }
      if film.genres.Some? && |film.genres.value| > 0 {
        var genreError := CheckGenres(filmStorage.genreTable, film.genres.value);
        if genreError.Some? {
          return Err(genreError.value);
        }
      }
      r := filmStorage.Create(film);
    }
  }
}
