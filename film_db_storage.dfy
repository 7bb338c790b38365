/** `FilmDbStorage`: the `film` table, the `film_genres` and `film_likes`
    link tables, and the queries that assemble a `Film` from them by
    joining the `mpa` and `genre` reference tables. */
module FilmDbStorage {
  import opened Common
  import opened Model
  import Ids
  import GenreDbStorage
  import MpaDbStorage

  /** The `film_likes` table: (film_id, user_id) pairs, keyed by both. */
  type LikeTable = set<(int, int)>

  /** The `film_genres` table: (film_id, genre_id) pairs. */
  type GenreLinks = set<(int, int)>

  /** A row of the `film` table. */
  datatype FilmRow = FilmRow(
    name: Option<string>,
    description: Option<string>,
    releaseDate: Option<Date>,
    duration: Option<int>,
    mpaId: int)

  /** The message `remove` returns on success. */
  const RemovedMessage: string := "Фильм удален"

  /** `COUNT(fl.user_id)` of the `LEFT JOIN film_likes`: zero for a film
      nobody likes. */
  function LikeCount(likes: LikeTable, f: int): nat
  {
    |Ids.Targets(likes, f)|
  }

  /** A like moves its film's count up by one unless the pair was already
      stored, and leaves every other film's likes alone. */
  lemma AddLikeCount(likes: LikeTable, f: int, u: int)
    ensures LikeCount(likes + {(f, u)}, f) == LikeCount(likes, f) + (if (f, u) in likes then 0 else 1)
    ensures forall g :: g != f ==> Ids.Targets(likes + {(f, u)}, g) == Ids.Targets(likes, g)
  {
    Ids.TargetsAfterInsert(likes, f, u);
  }

  /** Withdrawing a like moves its film's count down by one if the pair was
      stored, and leaves every other film's likes alone. */
  lemma RemoveLikeCount(likes: LikeTable, f: int, u: int)
    ensures LikeCount(likes - {(f, u)}, f) == LikeCount(likes, f) - (if (f, u) in likes then 1 else 0)
    ensures forall g :: g != f ==> Ids.Targets(likes - {(f, u)}, g) == Ids.Targets(likes, g)
  {
    Ids.TargetsAfterDelete(likes, f, u);
  }

  /** Film ids in non-increasing order of like count. */
  ghost predicate RankedByLikes(likes: LikeTable, s: seq<int>)
  {
    forall i, j :: 0 <= i < j < |s| ==> LikeCount(likes, s[i]) >= LikeCount(likes, s[j])
  }

  /** No id occurs twice. */
  ghost predicate Distinct(s: seq<int>)
  {
    forall i, j :: 0 <= i < j < |s| ==> s[i] != s[j]
  }

  /** A sequence whose multiset of ids holds each id at most once has no
      repeats. */
  lemma MultisetDistinct(s: seq<int>)
    requires forall y :: multiset(s)[y] <= 1
    ensures Distinct(s)
  {
    forall i, j | 0 <= i < j < |s| ensures s[i] != s[j] {
      assert s == s[..j] + s[j..];
      assert s[i] in multiset(s[..j]) && s[j] in multiset(s[j..]);
      assert multiset(s)[s[j]] == multiset(s[..j])[s[j]] + multiset(s[j..])[s[j]];
    }
  }

  /** Places `x` into a sequence after every film with at least as many
      likes. */
  function InsertByLikes(likes: LikeTable, x: int, s: seq<int>): (r: seq<int>)
    ensures |r| == |s| + 1
    ensures multiset(r) == multiset(s) + multiset{x}
  {
    if s == [] then [x]
    else if LikeCount(likes, x) > LikeCount(likes, s[0]) then [x] + s
    else
      assert s == [s[0]] + s[1..];
      [s[0]] + InsertByLikes(likes, x, s[1..])
  }

  /** A film liked at least as much as every film of a ranked sequence can
      head it. */
  lemma RankedCons(likes: LikeTable, a: int, s: seq<int>)
    requires RankedByLikes(likes, s)
    requires forall i :: 0 <= i < |s| ==> LikeCount(likes, a) >= LikeCount(likes, s[i])
    ensures RankedByLikes(likes, [a] + s)
  {
    var r := [a] + s;
    forall i, j | 0 <= i < j < |r| ensures LikeCount(likes, r[i]) >= LikeCount(likes, r[j]) {
      assert r[j] == s[j - 1];
      if i > 0 {
        assert r[i] == s[i - 1];
      }
    }
  }

  /** Insertion keeps a ranked sequence ranked. */
  lemma {:induction false} InsertKeepsRanking(likes: LikeTable, x: int, s: seq<int>)
    requires RankedByLikes(likes, s)
    ensures RankedByLikes(likes, InsertByLikes(likes, x, s))
  {
    if s == [] {
    } else if LikeCount(likes, x) > LikeCount(likes, s[0]) {
      RankedCons(likes, x, s);
    } else {
      var tail := s[1..];
      assert RankedByLikes(likes, tail) by {
        forall i, j | 0 <= i < j < |tail| ensures LikeCount(likes, tail[i]) >= LikeCount(likes, tail[j]) {
          assert tail[i] == s[i + 1] && tail[j] == s[j + 1];
        }
      }
      InsertKeepsRanking(likes, x, tail);
      var rest := InsertByLikes(likes, x, tail);
      forall i | 0 <= i < |rest| ensures LikeCount(likes, s[0]) >= LikeCount(likes, rest[i]) {
        assert rest[i] in multiset(tail) + multiset{x};
        if rest[i] != x {
          var j :| 0 <= j < |tail| && tail[j] == rest[i];
          assert s[j + 1] == rest[i];
        }
      }
      RankedCons(likes, s[0], rest);
    }
  }

  /** The film ids of `ids` ranked by like count, `ORDER BY COUNT(...)
      DESC`; the model breaks ties by ascending id. */
  function RankIds(likes: LikeTable, ids: set<int>): (r: seq<int>)
    ensures |r| == |ids|
    ensures multiset(r) == multiset(ids)
    decreases |ids|
  {
    if ids == {} then []
    else
      var m := Ids.MaxKey(ids);
      assert ids == (ids - {m}) + {m};
      InsertByLikes(likes, m, RankIds(likes, ids - {m}))
  }

  /** The ranking is ordered by like count and, being a permutation of a
      set, has no repeats. */
  lemma {:induction false} RankIdsRanked(likes: LikeTable, ids: set<int>)
    ensures RankedByLikes(likes, RankIds(likes, ids))
    ensures Distinct(RankIds(likes, ids))
    decreases |ids|
  {
    if ids != {} {
      var m := Ids.MaxKey(ids);
      RankIdsRanked(likes, ids - {m});
      InsertKeepsRanking(likes, m, RankIds(likes, ids - {m}));
    }
    MultisetDistinct(RankIds(likes, ids));
  }

  /** The ids `getTopFilms(count)` returns: the joinable films ranked by
      like count, cut at `count` (`LIMIT ?`). */
  function TopIds(likes: LikeTable, ids: set<int>, count: nat): (r: seq<int>)
    ensures |r| == if count < |ids| then count else |ids|
    ensures forall i :: 0 <= i < |r| ==> r[i] in ids
  {
    var ranked := RankIds(likes, ids);
    var r := ranked[..if count < |ids| then count else |ids|];
    assert forall i :: 0 <= i < |r| ==> r[i] in multiset(ranked);
    r
  }

  /** What `getTopFilms` promises of its order: distinct films, the most
      liked first. */
  lemma {:induction false} TopIdsRanked(likes: LikeTable, ids: set<int>, count: nat)
    ensures Distinct(TopIds(likes, ids, count))
    ensures RankedByLikes(likes, TopIds(likes, ids, count))
  {
    var ranked := RankIds(likes, ids);
    RankIdsRanked(likes, ids);
    var n := if count < |ids| then count else |ids|;
    assert TopIds(likes, ids, count) == ranked[..n];
  }

  /** What `getTopFilms` promises of its cut: every film it leaves out is
      liked no more than any it returns, and all films, those without likes
      included, are returned once `count` reaches their number. */
  lemma {:induction false} TopIdsCut(likes: LikeTable, ids: set<int>, count: nat)
    ensures forall x, i :: x in ids && x !in TopIds(likes, ids, count) && 0 <= i < |TopIds(likes, ids, count)| ==>
      LikeCount(likes, x) <= LikeCount(likes, TopIds(likes, ids, count)[i])
    ensures count >= |ids| ==> forall x :: x in ids ==> x in TopIds(likes, ids, count)
  {
    var ranked := RankIds(likes, ids);
    RankIdsRanked(likes, ids);
    var n := if count < |ids| then count else |ids|;
    var r := TopIds(likes, ids, count);
    assert r == ranked[..n];
    forall x | x in ids ensures x in ranked {
      assert x in multiset(ids);
    }
    forall x, i | x in ids && x !in r && 0 <= i < |r|
      ensures LikeCount(likes, x) <= LikeCount(likes, r[i])
    {
      var k :| 0 <= k < |ranked| && ranked[k] == x;
      assert k >= n by {
        assert forall j :: 0 <= j < n ==> ranked[j] == r[j] && r[j] in r;
      }
      assert r[i] == ranked[i];
    }
  }

  /** The `film_genres` rows `saveGenres` inserts for one film: a pair for
      each genre id of the collection. */
  function LinksFor(filmId: int, genres: seq<Genre>): (r: GenreLinks)
    ensures forall p :: p in r ==> p.0 == filmId
    ensures forall id {:trigger (filmId, id) in r} {:trigger id in GenreIds(genres)} ::
      (filmId, id) in r <==> id in GenreIds(genres)
  {
    set id | id in GenreIds(genres) :: (filmId, id)
  }

  /** The `film_genres` rows of one film replaced by the rows for `genres`;
      the rows of every other film are kept. */
  function RelinkedGenres(links: GenreLinks, filmId: int, genres: seq<Genre>): (r: GenreLinks)
    ensures Ids.Targets(r, filmId) == GenreIds(genres)
    ensures forall f, g {:trigger (f, g) in r} {:trigger (f, g) in links} ::
      f != filmId ==> ((f, g) in r <==> (f, g) in links)
  {
    WithoutFilm(links, filmId) + LinksFor(filmId, genres)
  }

  /** The `film_likes` or `film_genres` rows left once a film is deleted. */
  function WithoutFilm(links: set<(int, int)>, filmId: int): (r: set<(int, int)>)
    ensures Ids.Targets(r, filmId) == {}
    ensures forall f, x {:trigger (f, x) in r} {:trigger (f, x) in links} ::
      f != filmId ==> ((f, x) in r <==> (f, x) in links)
  {
    set p | p in links && p.0 != filmId
  }

  /** The genre collection as `create` and `update` pass it to `saveGenres`:
      a null or empty collection writes no rows. */
  function GenresToSave(film: Film): (gs: seq<Genre>)
    ensures film.genres.Some? ==> gs == film.genres.value
    ensures film.genres.None? ==> gs == []
  {
    if film.genres.Some? then film.genres.value else []
  }

  /** The `film` row `create` and `update` write for `film`. */
  function RowOf(film: Film): (row: FilmRow)
    requires film.mpa.Some? && film.mpa.value.id.Some?
    ensures row.mpaId == film.mpa.value.id.value
    ensures row.name == film.name && row.description == film.description
    ensures row.releaseDate == film.releaseDate && row.duration == film.duration
  {
    FilmRow(film.name, film.description, film.releaseDate, film.duration, film.mpa.value.id.value)
  }

  class FilmDbStorage {
    /** The `mpa` reference table the film queries join with. */
    const mpaTable: MpaDbStorage.MpaTable
    /** The `genre` reference table `loadGenresForFilm` joins with. */
    const genreTable: GenreDbStorage.GenreTable
    /** The `film` table, by `film_id`. */
    var films: map<int, FilmRow>
    /** The `film_genres` table. */
    var filmGenres: GenreLinks
    /** The `film_likes` table. */
    var likes: LikeTable
    /** The next value of the identity column. */
    var nextKey: int

    /** Every film key was issued by the identity column, so the next value
        is fresh. */
    ghost predicate Valid()
      reads this
    {
      nextKey >= 1 && forall k :: k in films ==> k < nextKey
    }

    constructor (mpa: MpaDbStorage.MpaTable, genre: GenreDbStorage.GenreTable)
      ensures Valid()
      ensures mpaTable == mpa && genreTable == genre
      ensures films == map[] && filmGenres == {} && likes == {} && nextKey == 1
    {
      mpaTable := mpa;
      genreTable := genre;
      films := map[];
      filmGenres := {};
      likes := {};
      nextKey := 1;
    }

    /** `loadGenresForFilm`: the genres linked to the film, joined with the
        genre table and ordered by id. */
    function LoadGenres(filmId: int): (r: seq<Genre>)
      reads this
      ensures GenreIdsAscending(r)
      ensures GenreIds(r) == Ids.Targets(filmGenres, filmId) * genreTable.Keys
    {
      var all := GenreDbStorage.FindAll(genreTable);
      var ids := Ids.Targets(filmGenres, filmId);
      GenreDbStorage.OnlyAscending(all, ids);
      var r := GenreDbStorage.Only(all, ids);
      assert GenreIds(r) == ids * genreTable.Keys by {
        forall id | id in GenreIds(r) ensures id in ids * genreTable.Keys {
          var i :| 0 <= i < |r| && r[i].id == Some(id);
          assert r[i] in r;
        }
        forall id | id in ids * genreTable.Keys ensures id in GenreIds(r) {
          var g := GenreDbStorage.Row(genreTable, id);
          assert g in all && g in r;
          var i :| 0 <= i < |r| && r[i] == g;
        }
      }
      r
    }

    /** `loadLikesForFilm`: the ids of the users who like the film. */
    function LoadLikes(filmId: int): (r: set<int>)
      reads this
      ensures forall u {:trigger u in r} {:trigger (filmId, u) in likes} :: u in r <==> (filmId, u) in likes
    {
      Ids.Targets(likes, filmId)
    }

    /** The films the `JOIN mpa` of the film queries can return: those whose
        rating exists in the mpa table. */
    function JoinedIds(): (r: set<int>)
      reads this
      ensures forall k :: k in r <==> k in films && films[k].mpaId in mpaTable
    {
      set k | k in films && films[k].mpaId in mpaTable
    }

    /** The film `filmById` assembles for a joinable row: the row with its
        rating, its genres by ascending id and the users who like it. */
    function Loaded(id: int): (f: Film)
      reads this
      requires id in JoinedIds()
      ensures f.id == Some(id)
      ensures f.mpa == Some(MpaDbStorage.Row(mpaTable, films[id].mpaId))
      ensures RowOf(f) == films[id]
      ensures f.genres == Some(LoadGenres(id)) && f.likes == LoadLikes(id)
    {
      var row := films[id];
      Film(Some(id), row.name, row.description, row.releaseDate, row.duration,
        Some(MpaDbStorage.Row(mpaTable, row.mpaId)), Some(LoadGenres(id)), LoadLikes(id))
    }

    /** `filmById`: NotFound unless the row exists and joins with its
        rating; otherwise the loaded film. */
    function FilmById(id: int): (r: Result<Film>)
      reads this
      ensures r.Ok? <==> id in JoinedIds()
      ensures r.Err? ==> r.error == NotFound
      ensures r.Ok? ==> r.value == Loaded(id)
    {
      if id !in films || films[id].mpaId !in mpaTable then Err(NotFound) else Ok(Loaded(id))
    }

    /** `validateFilmExists`: NotFound when `COUNT(*)` is zero (a null id
        matches no row); then the film as `filmById` loads it, which can still
        fail when the row's rating is missing from the mpa table. */
    method ValidateFilmExists(id: Option<int>) returns (r: Result<Film>)
      ensures r.Ok? <==> id.Some? && id.value in JoinedIds()
      ensures r.Err? ==> r.error == NotFound
      ensures r.Ok? ==> r.value == Loaded(id.value)
    {
      if id.None? || id.value !in films {
        return Err(NotFound);
      }
      r := FilmById(id.value);
    }

    /** `saveGenres`: one `film_genres` row per genre, in iteration order. */
    method SaveGenres(filmId: int, genres: seq<Genre>)
      modifies this
      ensures filmGenres == old(filmGenres) + LinksFor(filmId, genres)
      ensures films == old(films) && likes == old(likes) && nextKey == old(nextKey)
    {
      var i := 0;
      while i < |genres|
        invariant 0 <= i <= |genres|
        invariant filmGenres == old(filmGenres) + LinksFor(filmId, genres[..i])
        invariant films == old(films) && likes == old(likes) && nextKey == old(nextKey)
      {
        assert genres[..i + 1] == genres[..i] + [genres[i]];
        if genres[i].id.Some? {
          filmGenres := filmGenres + {(filmId, genres[i].id.value)};
        }
        i := i + 1;
      }
      assert genres[..i] == genres;
    }

    /** `create`: IllegalArgumentException for a null rating or rating id; a
        null release date or duration throws while the insert is prepared.
        Otherwise the row is inserted under the identity column's next value
        and the genre links are saved; the film is returned with its new id. */
    method Create(film: Film) returns (r: Result<Film>)
      requires Valid()
      modifies this
      ensures Valid()
      ensures likes == old(likes)
      ensures film.mpa.None? || film.mpa.value.id.None? ==>
        r == Err(IllegalArgument) && films == old(films) && filmGenres == old(filmGenres) && nextKey == old(nextKey)
      ensures film.mpa.Some? && film.mpa.value.id.Some? && (film.releaseDate.None? || film.duration.None?) ==>
        r == Err(NullReference) && films == old(films) && filmGenres == old(filmGenres) && nextKey == old(nextKey)
      ensures r.Ok? <==>
        film.mpa.Some? && film.mpa.value.id.Some? && film.releaseDate.Some? && film.duration.Some?
      ensures r.Ok? ==>
        var k := old(nextKey);
        && k !in old(films)
        && r.value == film.(id := Some(k))
        && films == old(films)[k := RowOf(film)]
        && filmGenres == old(filmGenres) + LinksFor(k, GenresToSave(film))
        && nextKey == k + 1
    {
      if film.mpa.None? || film.mpa.value.id.None? {
        return Err(IllegalArgument);
      }
      if film.releaseDate.None? || film.duration.None? {
        return Err(NullReference);
      }
      var key := nextKey;
      nextKey := nextKey + 1;
      films := films[key := RowOf(film)];
      var created := film.(id := Some(key));
      if film.genres.Some? && |film.genres.value| > 0 {
        SaveGenres(key, film.genres.value);
      } else {
        assert LinksFor(key, GenresToSave(film)) == {};
      }
      return Ok(created);
    }

    /** `update`: IllegalArgumentException for a null rating or rating id,
        checked before the film's existence (NotFound). Otherwise every column
        of the row is overwritten, nulls included, and the film's genre links
        are replaced by exactly those of `film`. */
    method Update(film: Film) returns (r: Result<Film>)
      requires Valid()
      modifies this
      ensures Valid()
      ensures likes == old(likes) && nextKey == old(nextKey)
      ensures film.mpa.None? || film.mpa.value.id.None? ==>
        r == Err(IllegalArgument) && films == old(films) && filmGenres == old(filmGenres)
      ensures film.mpa.Some? && film.mpa.value.id.Some? && !(film.id.Some? && film.id.value in old(JoinedIds())) ==>
        r == Err(NotFound) && films == old(films) && filmGenres == old(filmGenres)
      ensures r.Ok? <==>
        film.mpa.Some? && film.mpa.value.id.Some? && film.id.Some? && film.id.value in old(JoinedIds())
      ensures r.Ok? ==>
        && r.value == film
        && films == old(films)[film.id.value := RowOf(film)]
        && filmGenres == RelinkedGenres(old(filmGenres), film.id.value, GenresToSave(film))
    {
      if film.mpa.None? || film.mpa.value.id.None? {
        return Err(IllegalArgument);
      }
      var existing := ValidateFilmExists(film.id);
      if existing.Err? {
        return Err(existing.error);
      }
      Overwrite(film.id.value, film);
      return Ok(film);
    }

    /** The writes of `update` once the film is known to exist: the row's
        columns are overwritten, the film's genre links deleted and those of
        `film` saved. */
    method Overwrite(id: int, film: Film)
      requires Valid() && id in films
      requires film.mpa.Some? && film.mpa.value.id.Some?
      modifies this
      ensures Valid()
      ensures likes == old(likes) && nextKey == old(nextKey)
      ensures films == old(films)[id := RowOf(film)]
      ensures filmGenres == RelinkedGenres(old(filmGenres), id, GenresToSave(film))
    {
      var kept := WithoutFilm(filmGenres, id);
      films := films[id := RowOf(film)];
      filmGenres := kept;
      if film.genres.Some? && |film.genres.value| > 0 {
        SaveGenres(id, film.genres.value);
      } else {
        assert LinksFor(id, GenresToSave(film)) == {};
      }
      assert filmGenres == kept + LinksFor(id, GenresToSave(film));
    }

    /** `remove`: NotFound unless `validateFilmExists` succeeds; otherwise the
        row is deleted and the film's likes and genre links go with it. */
    method Remove(id: int) returns (r: Result<string>)
      requires Valid()
      modifies this
      ensures Valid()
      ensures nextKey == old(nextKey)
      ensures r.Ok? <==> id in old(JoinedIds())
      ensures r.Err? ==>
        r.error == NotFound && films == old(films) && filmGenres == old(filmGenres) && likes == old(likes)
      ensures r.Ok? ==>
        && r.value == RemovedMessage
        && films == old(films) - {id}
        && likes == WithoutFilm(old(likes), id)
        && filmGenres == WithoutFilm(old(filmGenres), id)
    {
      var existing := ValidateFilmExists(Some(id));
      if existing.Err? {
        return Err(existing.error);
      }
      films := films - {id};
      likes := WithoutFilm(likes, id);
      filmGenres := WithoutFilm(filmGenres, id);
      return Ok(RemovedMessage);
    }

    /** `addLike`: `MERGE ... KEY(film_id, user_id)` stores the pair at most
        once; nothing is checked here. */
    method AddLike(filmId: int, userId: int)
      modifies this
      ensures likes == old(likes) + {(filmId, userId)}
      ensures films == old(films) && filmGenres == old(filmGenres) && nextKey == old(nextKey)
    {
      likes := likes + {(filmId, userId)};
    }

    /** `removeLike`: deletes that one pair, a no-op when it is absent. */
    method RemoveLike(filmId: int, userId: int)
      modifies this
      ensures likes == old(likes) - {(filmId, userId)}
      ensures films == old(films) && filmGenres == old(filmGenres) && nextKey == old(nextKey)
    {
      likes := likes - {(filmId, userId)};
    }

    /** `r` holds the loaded films of `ids`, position by position. */
    ghost predicate LoadedAll(ids: seq<int>, r: seq<Film>)
      reads this
      requires forall i :: 0 <= i < |ids| ==> ids[i] in JoinedIds()
    {
      |r| == |ids| && forall i :: 0 <= i < |ids| ==> r[i] == Loaded(ids[i])
    }

    /** `r` is the list `getTopFilms(count)` returns: the films of the ranked
        ids, each loaded with its genres and likes. */
    ghost predicate IsTopFilms(count: nat, r: seq<Film>)
      reads this
    {
      LoadedAll(TopIds(likes, JoinedIds(), count), r)
    }

    /** `getTopFilms`: the ranked ids, each film then loaded with its genres
        and likes (the `forEach` over the query result). */
    method GetTopFilms(count: nat) returns (r: seq<Film>)
      ensures IsTopFilms(count, r)
      ensures |r| == if count < |JoinedIds()| then count else |JoinedIds()|
    {
      var ids := TopIds(likes, JoinedIds(), count);
      r := LoadAll(ids);
    }

    /** The `forEach` of `getTopFilms`: each row of the query result, read
        by the row mapper, gets its genres and its likes in turn. */
    method LoadAll(ids: seq<int>) returns (r: seq<Film>)
      requires forall i :: 0 <= i < |ids| ==> ids[i] in JoinedIds()
      ensures LoadedAll(ids, r)
    {
      r := [];
      var i := 0;
      while i < |ids|
        invariant 0 <= i <= |ids|
        invariant |r| == i
        invariant forall j :: 0 <= j < i ==> r[j] == Loaded(ids[j])
      {
        r := r + [Loaded(ids[i])];
        i := i + 1;
      }
    }

    /** Each loaded top film carries its ranked id and its likes. */
    lemma TopFilmsCarryIds(count: nat, r: seq<Film>)
      requires IsTopFilms(count, r)
      ensures forall i :: 0 <= i < |r| ==>
        && r[i].id == Some(TopIds(likes, JoinedIds(), count)[i])
        && |r[i].likes| == LikeCount(likes, TopIds(likes, JoinedIds(), count)[i])
    {
    }

    /** The loaded top films are distinct joinable films, the most liked
        first; a joinable film left out has no more likes than any returned
        one, and with `count` at least the number of films all are returned,
        films without likes included. */
    lemma TopFilmsRanked(count: nat, r: seq<Film>)
      requires IsTopFilms(count, r)
      ensures forall i :: 0 <= i < |r| ==> r[i].id.Some? && r[i].id.value in JoinedIds()
      ensures forall i, j :: 0 <= i < j < |r| ==> r[i].id != r[j].id && |r[i].likes| >= |r[j].likes|
      ensures forall k, i :: k in JoinedIds() && (forall j :: 0 <= j < |r| ==> r[j].id != Some(k)) && 0 <= i < |r| ==>
        |r[i].likes| >= |LoadLikes(k)|
      ensures count >= |JoinedIds()| ==> forall k :: k in JoinedIds() ==> exists i :: 0 <= i < |r| && r[i].id == Some(k)
    {
      var ids := TopIds(likes, JoinedIds(), count);
      TopIdsRanked(likes, JoinedIds(), count);
      TopIdsCut(likes, JoinedIds(), count);
      TopFilmsCarryIds(count, r);
      forall i, j | 0 <= i < j < |r| ensures r[i].id != r[j].id && |r[i].likes| >= |r[j].likes| {
        assert LikeCount(likes, ids[i]) >= LikeCount(likes, ids[j]);
        assert ids[i] != ids[j];
      }
      forall k, i | k in JoinedIds() && (forall j :: 0 <= j < |r| ==> r[j].id != Some(k)) && 0 <= i < |r|
        ensures |r[i].likes| >= |LoadLikes(k)|
      {
        assert k !in ids by {
          forall j | 0 <= j < |ids| ensures ids[j] != k {
            assert r[j].id != Some(k);
          }
        }
        assert LikeCount(likes, k) <= LikeCount(likes, ids[i]);
      }
      if count >= |JoinedIds()| {
        forall k | k in JoinedIds() ensures exists i :: 0 <= i < |r| && r[i].id == Some(k) {
          var i :| 0 <= i < |ids| && ids[i] == k;
          assert r[i].id == Some(k);
        }
      }
    }
  }
}
