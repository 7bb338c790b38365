/** The two pieces of `FilmController` with logic of their own: the
    `sortGenres` normalisation applied to every film it returns, and the
    popular-films endpoint with its default `count`. */
module FilmController {
  import opened Common
  import opened Model
  import FilmDbStorage
  import FilmService

  /** `@RequestParam(defaultValue = "10") Integer count`. */
  const DefaultPopularCount := 10

  /** `x` is the first genre of `gs` with its id: the element a `TreeSet`
      ordered by id keeps, since `add` ignores a later element with an id
      already present. */
  ghost predicate FirstById(gs: seq<Genre>, x: Genre)
  {
    exists k :: 0 <= k < |gs| && gs[k] == x && forall j :: 0 <= j < k ==> gs[j].id != x.id
  }

  /** Every genre carries an id. */
  predicate AllIdentified(gs: seq<Genre>)
  {
    forall i :: 0 <= i < |gs| ==> gs[i].id.Some?
  }

  /** Adds `g` to a genre sequence ordered by id, replacing the element with
      the same id if there is one. */
  function Put(g: Genre, s: seq<Genre>): (r: seq<Genre>)
    requires g.id.Some? && GenreIdsAscending(s)
    ensures GenreIdsAscending(r)
    ensures forall x :: x in r <==> x == g || (x in s && x.id != g.id)
  {
    if s == [] then [g]
    else
      AscendingTail(s);
      if g.id.value < s[0].id.value then
        AscendingCons(g, s);
        [g] + s
      else if g.id == s[0].id then
        AscendingCons(g, s[1..]);
        [g] + s[1..]
      else
        var rest := Put(g, s[1..]);
        AscendingCons(s[0], rest);
        [s[0]] + rest
  }

  /** The `TreeSet` `sortGenres` builds: the first genre of each id, in
      ascending id order. Adding the elements from the last to the first
      with replacement keeps the same elements as adding them from the first
      to the last without it. */
  function SortedGenres(gs: seq<Genre>): (r: seq<Genre>)
    requires AllIdentified(gs)
    ensures GenreIdsAscending(r)
    ensures forall x :: x in r <==> FirstById(gs, x)
  {
    if gs == [] then []
    else
      FirstByIdCons(gs);
      Put(gs[0], SortedGenres(gs[1..]))
  }

  /** The first genre of each id in `gs`: its head, then those of its tail
      whose id differs from the head's. */
  lemma FirstByIdCons(gs: seq<Genre>)
    requires gs != []
    ensures forall x :: FirstById(gs, x) <==> x == gs[0] || (FirstById(gs[1..], x) && x.id != gs[0].id)
  {
    var tail := gs[1..];
    forall x ensures FirstById(gs, x) <==> x == gs[0] || (FirstById(tail, x) && x.id != gs[0].id) {
      if FirstById(gs, x) && x != gs[0] {
        var k :| 0 <= k < |gs| && gs[k] == x && forall j :: 0 <= j < k ==> gs[j].id != x.id;
        assert tail[k - 1] == x;
        assert forall j :: 0 <= j < k - 1 ==> tail[j] == gs[j + 1];
      }
      if x != gs[0] && FirstById(tail, x) && x.id != gs[0].id {
        var k :| 0 <= k < |tail| && tail[k] == x && forall j :: 0 <= j < k ==> tail[j].id != x.id;
        assert gs[k + 1] == x;
        assert forall j :: 1 <= j < k + 1 ==> gs[j] == tail[j - 1];
      }
      if x == gs[0] {
        assert FirstById(gs, x);
      }
    }
  }

  /** `sortGenres`: a null or empty genre set is left as it is; a genre
      with a null id makes the id comparator throw; otherwise the genres are
      replaced by the sorted, id-deduplicated set. */
  function SortGenres(film: Film): (r: Result<Film>)
    ensures film.genres.None? || film.genres.value == [] ==> r == Ok(film)
    ensures film.genres.Some? && !AllIdentified(film.genres.value) ==> r == Err(NullReference)
    ensures r.Ok? ==> r.value == film.(genres := r.value.genres)
    ensures r.Ok? && film.genres.Some? ==>
      && r.value.genres.Some?
      && (film.genres.value != [] ==> GenreIdsAscending(r.value.genres.value))
      && GenreIds(r.value.genres.value) == GenreIds(film.genres.value)
  {
    if film.genres.None? || film.genres.value == [] then Ok(film)
    else if !AllIdentified(film.genres.value) then Err(NullReference)
    else
      var gs := film.genres.value;
      var sorted := SortedGenres(gs);
      assert GenreIds(sorted) == GenreIds(gs) by {
        forall id | id in GenreIds(gs) ensures id in GenreIds(sorted) {
          var i :| 0 <= i < |gs| && gs[i].id == Some(id);
          FirstOfIdExists(gs, i);
          var x :| FirstById(gs, x) && x.id == Some(id);
          var k :| 0 <= k < |sorted| && sorted[k] == x;
        }
        forall id | id in GenreIds(sorted) ensures id in GenreIds(gs) {
          var i :| 0 <= i < |sorted| && sorted[i].id == Some(id);
          assert FirstById(gs, sorted[i]);
        }
      }
      Ok(film.(genres := Some(sorted)))
  }

  /** Whenever some genre has a given id, one of them is the first with it. */
  lemma {:induction false} FirstOfIdExists(gs: seq<Genre>, i: int)
    requires 0 <= i < |gs|
    ensures exists x :: FirstById(gs, x) && x.id == gs[i].id
    decreases i
  {
    if forall j :: 0 <= j < i ==> gs[j].id != gs[i].id {
      assert FirstById(gs, gs[i]);
    } else {
      var j :| 0 <= j < i && gs[j].id == gs[i].id;
      FirstOfIdExists(gs, j);
    }
  }

  /** Genres already in strictly ascending id order, as `filmById` loads
      them, come out of `sortGenres` unchanged. */
  lemma {:induction false} SortedGenresOfAscending(gs: seq<Genre>)
    requires GenreIdsAscending(gs)
    ensures SortedGenres(gs) == gs
  {
    if gs != [] {
      var tail := gs[1..];
      AscendingTail(gs);
      SortedGenresOfAscending(tail);
      if tail != [] {
        assert gs[0].id.value < tail[0].id.value;
      }
      assert gs == [gs[0]] + tail;
    }
  }

  /** `sortGenres` applied twice is applied once. */
  lemma SortGenresIdempotent(film: Film)
    requires SortGenres(film).Ok?
    ensures SortGenres(SortGenres(film).value) == SortGenres(film)
  {
    var once := SortGenres(film).value;
    if film.genres.Some? && film.genres.value != [] {
      SortedGenresOfAscending(once.genres.value);
    }
  }

  /** The `count` the popular-films endpoint passes on. */
  function PopularCount(count: Option<int>): (n: int)
    ensures count.None? ==> n == DefaultPopularCount
    ensures count.Some? ==> n == count.value
  {
    if count.Some? then count.value else DefaultPopularCount
  }

  /** `getPopularFilms`: the service's top films for the requested or the
      default `count`, each passed through `sortGenres`. Films loaded from
      the tables already carry their genres in ascending id order, so the
      list is exactly the service's. */
  method GetPopularFilms(service: FilmService.FilmService, count: Option<int>) returns (r: seq<Film>)
    requires count.None? || count.value >= 0
    ensures service.filmStorage.IsTopFilms(PopularCount(count), r)
  {
    var films := service.GetTopFilms(PopularCount(count));
    LoadedFilmsAreSorted(service.filmStorage, PopularCount(count), films);
    r := SortAll(films);
    assert r == films;
  }

  /** The loop of `getPopularFilms` passing each film through `sortGenres`,
      position by position. */
  method SortAll(films: seq<Film>) returns (r: seq<Film>)
    requires forall i :: 0 <= i < |films| ==> SortGenres(films[i]).Ok?
    ensures |r| == |films|
    ensures forall i :: 0 <= i < |r| ==> r[i] == SortGenres(films[i]).value
  {
    r := [];
    var i := 0;
    while i < |films|
      invariant 0 <= i <= |films|
      invariant |r| == i
      invariant forall j :: 0 <= j < i ==> r[j] == SortGenres(films[j]).value
    {
      var sorted := SortGenres(films[i]);
      r := r + [sorted.value];
      i := i + 1;
    }
  }

  /** The films of the top list are left alone by `sortGenres`. */
  lemma LoadedFilmsAreSorted(storage: FilmDbStorage.FilmDbStorage, count: nat, films: seq<Film>)
    requires storage.IsTopFilms(count, films)
    ensures forall i :: 0 <= i < |films| ==> SortGenres(films[i]) == Ok(films[i])
  {
    var ids := FilmDbStorage.TopIds(storage.likes, storage.JoinedIds(), count);
    forall i | 0 <= i < |films| ensures SortGenres(films[i]) == Ok(films[i]) {
      assert films[i] == storage.Loaded(ids[i]);
      var gs := storage.LoadGenres(ids[i]);
      if gs != [] {
        SortedGenresOfAscending(gs);
      }
    }
  }
}
