/** The catalog's records (`Film`, `User`, `Genre`, `Mpa`) and the field
    constraints their bean-validation annotations declare. Every reference
    field of the Java records may be null, so it is an `Option` here. */
module Model {
  import opened Common

  /** A genre tag: `id` and `name` columns of the genre table. */
  datatype Genre = Genre(id: Option<int>, name: Option<string>)

  /** An MPA age rating: `id` and `name` columns of the mpa table. */
  datatype Mpa = Mpa(id: Option<int>, name: Option<string>)

  /** A film. `genres` is the genre collection in its iteration order;
      `likes` holds the ids of the users who like the film. */
  datatype Film = Film(
    id: Option<int>,
    name: Option<string>,
    description: Option<string>,
    releaseDate: Option<Date>,
    duration: Option<int>,
    mpa: Option<Mpa>,
    genres: Option<seq<Genre>>,
    likes: set<int>)

  /** A registered user. */
  datatype User = User(
    id: Option<int>,
    email: Option<string>,
    login: Option<string>,
    name: Option<string>,
    birthday: Option<Date>)

  /** A user table in which every row carries its own key as its id. */
  predicate UsersKeyed(users: map<int, User>)
  {
    forall k {:trigger users[k]} {:trigger k in users} :: k in users ==> users[k].id == Some(k)
  }

  /** A film table in which every row carries its own key as its id. */
  predicate FilmsKeyed(films: map<int, Film>)
  {
    forall k {:trigger films[k]} {:trigger k in films} :: k in films ==> films[k].id == Some(k)
  }

  /** The non-null genre ids of a genre collection. */
  function GenreIds(genres: seq<Genre>): (r: set<int>)
    ensures forall id {:trigger id in r} :: id in r <==> exists i :: 0 <= i < |genres| && genres[i].id == Some(id)
  {
    set g | g in genres && g.id.Some? :: g.id.value
  }

  /** Every genre carries an id and the ids strictly ascend (so no id repeats). */
  predicate GenreIdsAscending(gs: seq<Genre>)
  {
    && (forall i :: 0 <= i < |gs| ==> gs[i].id.Some?)
    && (forall i, j :: 0 <= i < j < |gs| ==> gs[i].id.value < gs[j].id.value)
  }

  /** A genre below every genre of an ascending sequence can head it. */
  lemma AscendingCons(g: Genre, s: seq<Genre>)
    requires g.id.Some? && GenreIdsAscending(s)
    requires forall x :: x in s ==> g.id.value < x.id.value
    ensures GenreIdsAscending([g] + s)
  {
    var r := [g] + s;
    forall i, j | 0 <= i < j < |r| ensures r[i].id.value < r[j].id.value {
      assert r[j] == s[j - 1] && r[j] in s;
      if i > 0 {
        assert r[i] == s[i - 1];
      }
    }
  }

  /** The tail of an ascending sequence is ascending and lies above its head. */
  lemma AscendingTail(s: seq<Genre>)
    requires s != [] && GenreIdsAscending(s)
    ensures GenreIdsAscending(s[1..])
    ensures forall x :: x in s[1..] ==> s[0].id.value < x.id.value
  {
    var tail := s[1..];
    forall x | x in tail ensures s[0].id.value < x.id.value {
      var j :| 0 <= j < |tail| && tail[j] == x;
      assert s[j + 1] == x;
    }
    forall i, j | 0 <= i < j < |tail| ensures tail[i].id.value < tail[j].id.value {
      assert tail[i] == s[i + 1] && tail[j] == s[j + 1];
    }
  }

  /** The longest description `@Size(max = 200)` admits, in UTF-16 code
      units (`CharSequence.length()`). */
  const MaxDescriptionLength := 200

  /** A film as the no-argument constructor leaves it: every field null
      except the two collections, which start empty. */
  function NewFilm(): (f: Film)
    ensures f.genres == Some([]) && f.likes == {}
    ensures f.id.None? && f.name.None? && f.mpa.None?
    ensures f.description.None? && f.releaseDate.None? && f.duration.None?
  {
    Film(None, None, None, None, None, None, Some([]), {})
  }

  /** The constraints on `Film`: `@NotBlank` name, `@Size(max = 200)`
      description measured in UTF-16 code units (a null description
      passes), `@NotNull` release date and
      `@NotNull @Positive` duration. */
  predicate ValidFilm(f: Film)
  {
    && NotBlank(f.name)
    && (f.description.None? || Utf16Length(f.description.value) <= MaxDescriptionLength)
    && f.releaseDate.Some?
    && f.duration.Some? && f.duration.value > 0
  }

  /** `@Pattern(regexp = "^\\S+$")`: null passes; otherwise one or more
      characters, none of them a regex space. */
  predicate MatchesLoginPattern(s: Option<string>)
  {
    s.None? || (|s.value| > 0 && forall i :: 0 <= i < |s.value| ==> !IsRegexSpace(s.value[i]))
  }

  /** `@Email`, reduced to its one visible demand: the address holds an '@'
      (a null address passes; `@NotBlank` rejects it). */
  predicate HasAtSign(s: Option<string>)
  {
    s.None? || '@' in s.value
  }

  /** The constraints on `User`, with the current date as a parameter:
      `@NotBlank @Email` email, `@NotBlank @Pattern("^\\S+$")` login,
      an unconstrained name and a `@NotNull @Past` birthday. */
  predicate ValidUser(u: User, today: Date)
  {
    && NotBlank(u.email) && HasAtSign(u.email)
    && NotBlank(u.login) && MatchesLoginPattern(u.login)
    && u.birthday.Some? && IsBefore(u.birthday.value, today)
  }

  /** `validateFilmInTheFuture`, which film creation runs in both the
      service and the in-memory storage: `getReleaseDate().isBefore(...)`
      dereferences the date, so a null date throws before the comparison. */
  function CheckReleaseDate(f: Film): (e: Option<Error>)
    ensures e.None? <==> f.releaseDate.Some? && !IsBefore(f.releaseDate.value, MinReleaseDate)
    ensures e.Some? ==> e.value == (if f.releaseDate.None? then NullReference else Validation)
  {
    if f.releaseDate.None? then Some(NullReference)
    else if IsBefore(f.releaseDate.value, MinReleaseDate) then Some(Validation)
    else None
  }

  /** The oldest admissible release date is admitted; the day before is not. */
  lemma ReleaseDateBoundary(f: Film)
    ensures CheckReleaseDate(f.(releaseDate := Some(MinReleaseDate))).None?
    ensures CheckReleaseDate(f.(releaseDate := Some(Date(1895, 12, 27)))) == Some(Validation)
  {
  }

  /** Among otherwise valid films, the description decides validity exactly
      by its length in UTF-16 code units: 200 pass and 201 do not. For text
      inside the Basic Multilingual Plane that is 200 characters; for text
      of characters outside it, such as emoji, only 100. */
  lemma DescriptionLimit(f: Film, d: string)
    requires ValidFilm(f)
    ensures ValidFilm(f.(description := Some(d))) <==> Utf16Length(d) <= 200
    ensures (forall i :: 0 <= i < |d| ==> d[i] as int < 0x1_0000) ==>
      (ValidFilm(f.(description := Some(d))) <==> |d| <= 200)
    ensures (forall i :: 0 <= i < |d| ==> d[i] as int >= 0x1_0000) ==>
      (ValidFilm(f.(description := Some(d))) <==> |d| <= 100)
  {
    Utf16LengthPlanes(d);
  }

  /** A valid film's name holds a character above U+0020, one that `trim`
      keeps, so the empty name and a name of spaces, tabs or line breaks are
      all rejected. */
  lemma ValidFilmName(f: Film)
    requires ValidFilm(f)
    ensures f.name.Some? && f.name.value != []
    ensures exists i :: 0 <= i < |f.name.value| && f.name.value[i] > ' '
  {
  }

  /** A valid film has a positive duration; zero and negatives are rejected. */
  lemma ValidFilmDuration(f: Film, d: int)
    requires ValidFilm(f)
    ensures ValidFilm(f.(duration := Some(d))) <==> d > 0
    ensures !ValidFilm(f.(duration := None)) && !ValidFilm(f.(releaseDate := None))
  {
  }

  /** A valid user's login is non-blank (it holds a character above U+0020,
      one that `trim` keeps) and a run without `\s` characters (space,
      tab, line feed, vertical tab, form feed, carriage return), the email holds
      an '@', and the birthday lies strictly before today. */
  lemma ValidUserFields(u: User, today: Date)
    requires ValidUser(u, today)
    ensures u.login.Some? && |u.login.value| > 0 && ' ' !in u.login.value
    ensures forall i :: 0 <= i < |u.login.value| ==> !IsRegexSpace(u.login.value[i])
    ensures exists i :: 0 <= i < |u.login.value| && u.login.value[i] > ' '
    ensures u.email.Some? && '@' in u.email.value
    ensures u.birthday.Some? && IsBefore(u.birthday.value, today)
    ensures u.birthday.Some? && u.birthday.value != today
  {
  }

  /** The name is unconstrained: replacing it, even with null, never changes
      whether a user is valid. */
  lemma UserNameUnconstrained(u: User, today: Date, n: Option<string>)
    ensures ValidUser(u, today) <==> ValidUser(u.(name := n), today)
  {
  }
}
