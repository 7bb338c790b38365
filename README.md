# Filmorate catalog core in Dafny

This is a model of the core of *java-filmorate*, a Spring service for a film catalog. The catalog has two relations:
- a **friendship** relation between users;
- a **like** relation between users and films. Films are ranked by their like count.

Around the relations sit four things:
- the keyed stores for films and users, both in memory and in database tables;
- the two read-only reference tables, genres and MPA age ratings;
- the field constraints of the `Film` and `User` records;
- the genre normalisation that the film controller applies to popular films.

The modules follow the source files:

| module (file) | models |
|---|---|
| `Common` (common.dfy) | nullable references (`Option`), the thrown exceptions (`Error`, `Result`), dates and `isBefore`, the whitespace notions of `trim`, `isBlank` and `\s` |
| `Ids` (ids.dfy) | the "largest key + 1" allocator; keys in ascending order; lookups in two-column link tables |
| `Model` (model.dfy) | `Film`, `User`, `Genre`, `Mpa` and their validation constraints |
| `GenreDbStorage`, `MpaDbStorage` | the reference tables as maps and their sorted queries |
| `FilmDbStorage` | class `FilmDbStorage` with fields for the tables `film`, `film_genres` and `film_likes`; film assembly; the top-films ranking |
| `UserDbStorage` | class `UserDbStorage` with fields for the `users` table and the directed `friends` table |
| `InMemoryFilmStorage`, `InMemoryUserStorage` | the hash-map stores as classes with a `map` field |
| `UserService` | class `UserService` with the symmetric `friends` map |
| `FilmService` | the like checks and the `create` validation sequence |
| `FilmController` | `sortGenres` and the popular-films endpoint |

Modelling choices:
- A Java `null` is `None`.
- Each exception the code throws is an `Err(...)` result. This includes the `NullPointerException`s that the code raises by dereferencing a null field.
- A database table is a class field: a `map` keyed by id, or a `set` of pairs.
- An identity column is a counter, `nextKey`, which never reuses a value.
- `UserService` reaches its user storage through a `UserDirectory` value. That value holds the stored users and the exception the storage throws for an unknown id.

## Model

| member | source | states |
|---|---|---|
| Ids.MaxKey | src/main/java/ru/yandex/practicum/filmorate/storage/film/InMemoryFilmStorage.java:89-98 | the result is a key of the store and no key exceeds it |
| Ids.NextId | src/main/java/ru/yandex/practicum/filmorate/storage/user/InMemoryUserStorage.java:82-91 | `getNextId`: 1 for an empty store, otherwise one more than the largest key; the id is fresh and above every key |
| Ids.NextIdAfterInsert | src/main/java/ru/yandex/practicum/filmorate/storage/film/InMemoryFilmStorage.java:89-98 | after storing under the new id, the next id is one higher: ids are allocated consecutively |
| Ids.SortedIds | src/main/java/ru/yandex/practicum/filmorate/storage/genre/GenreDbStorage.java:19-22 | `ORDER BY id`: every key once, in strictly ascending order |
| Ids.Targets | src/main/java/ru/yandex/practicum/filmorate/storage/film/FilmDbStorage.java:166-170 | `SELECT b FROM rel WHERE a = k`: `b` is returned iff `(k, b)` is stored |
| Ids.TargetsAfterInsert | src/main/java/ru/yandex/practicum/filmorate/storage/film/FilmDbStorage.java:124-128 | inserting `(a, b)` adds `b` to `a`'s targets and changes no other key's targets |
| Ids.TargetsAfterDelete | src/main/java/ru/yandex/practicum/filmorate/storage/film/FilmDbStorage.java:130-134 | deleting `(a, b)` removes `b` from `a`'s targets and changes no other key's targets |
| Model.GenreIds | src/main/java/ru/yandex/practicum/filmorate/model/Film.java:29 | an id is listed iff some genre of the collection carries it |
| Model.NewFilm | src/main/java/ru/yandex/practicum/filmorate/model/Film.java:11-33 | a new film has empty `genres` and `likes`; its other fields are null |
| Model.CheckReleaseDate | src/main/java/ru/yandex/practicum/filmorate/service/FilmService.java:87-95 | `validateFilmInTheFuture`: passes iff the date is present and not before 1895-12-28; a null date throws NullReference, an early date Validation |
| Model.ReleaseDateBoundary | src/main/java/ru/yandex/practicum/filmorate/storage/film/InMemoryFilmStorage.java:81-87 | 1895-12-28 is accepted and 1895-12-27 is rejected |
| Common.Utf16Length | src/main/java/ru/yandex/practicum/filmorate/model/Film.java:17-18 | the length `@Size` measures (`CharSequence.length()`, UTF-16 code units): between one and two units per character |
| Common.Utf16LengthPlanes | src/main/java/ru/yandex/practicum/filmorate/model/Film.java:17-18 | one unit per character inside the Basic Multilingual Plane, two per character outside it |
| Model.DescriptionLimit | src/main/java/ru/yandex/practicum/filmorate/model/Film.java:17-18 | an otherwise valid film is valid iff its description has at most 200 UTF-16 code units: 200 BMP characters pass and 201 fail; for characters outside the BMP (emoji) the limit is 100 |
| Model.ValidFilmName | src/main/java/ru/yandex/practicum/filmorate/model/Film.java:14-15 | a valid film's name is non-null and holds a character above U+0020 (one that `trim` keeps), so names of only spaces, tabs or line breaks are invalid |
| Model.ValidFilmDuration | src/main/java/ru/yandex/practicum/filmorate/model/Film.java:20-25 | an otherwise valid film is valid iff its duration is positive; a null duration or null release date is invalid |
| Model.ValidUserFields | src/main/java/ru/yandex/practicum/filmorate/model/User.java:12-23 | a valid user has a non-blank login (some character above U+0020) free of `\s` characters (space, `\t`, `\n`, `\x0B`, `\f`, `\r`), an email with '@', and a birthday strictly before today |
| Model.UserNameUnconstrained | src/main/java/ru/yandex/practicum/filmorate/model/User.java:20 | replacing the name, even by null, never changes validity |
| Model.AscendingCons | src/main/java/ru/yandex/practicum/filmorate/controller/FilmController.java:78-79 | a genre below every genre of an ascending sequence can head it |
| Model.AscendingTail | src/main/java/ru/yandex/practicum/filmorate/controller/FilmController.java:78-79 | the tail of an ascending sequence is ascending and lies above its head |
| GenreDbStorage.RowsFor | src/main/java/ru/yandex/practicum/filmorate/storage/genre/GenreDbStorage.java:19-22 | the row mapper applied to each key, position by position |
| GenreDbStorage.RowsForAscending | src/main/java/ru/yandex/practicum/filmorate/storage/genre/GenreDbStorage.java:19-22 | rows built from ascending keys are in ascending id order and include the row of every key |
| GenreDbStorage.RowsWithIds | src/main/java/ru/yandex/practicum/filmorate/storage/film/FilmDbStorage.java:158-164 | exactly the table's rows whose ids are selected, in strictly ascending id order |
| GenreDbStorage.FindAll | src/main/java/ru/yandex/practicum/filmorate/storage/genre/GenreDbStorage.java:19-22 | every genre once, in strictly ascending id order; its length is the table's size, so it is empty iff the table is |
| GenreDbStorage.Only | src/main/java/ru/yandex/practicum/filmorate/storage/film/FilmDbStorage.java:158-162 | the `WHERE fg.film_id = ?` of the join: a row is kept iff its id is linked |
| GenreDbStorage.OnlyAscending | src/main/java/ru/yandex/practicum/filmorate/storage/film/FilmDbStorage.java:162 | selecting rows keeps their ascending id order |
| GenreDbStorage.FindById | src/main/java/ru/yandex/practicum/filmorate/storage/genre/GenreDbStorage.java:25-32 | the genre with that id and its name, or NotFound iff the id is absent |
| GenreDbStorage.ExistsIffFound | src/main/java/ru/yandex/practicum/filmorate/storage/genre/GenreDbStorage.java:34-38 | `existsById` is true iff `findById` succeeds; what `findById` returns is exactly what `findAll` lists |
| GenreDbStorage.NonPositiveIdsNotFound | src/main/java/ru/yandex/practicum/filmorate/storage/genre/GenreDbStorage.java:25-32 | with positive keys, 0 and negative ids are NotFound and do not exist |
| MpaDbStorage.RowsFor | src/main/java/ru/yandex/practicum/filmorate/storage/mpa/MpaDbStorage.java:19-22 | the row mapper applied to each key, position by position |
| MpaDbStorage.FindAll | src/main/java/ru/yandex/practicum/filmorate/storage/mpa/MpaDbStorage.java:19-22 | every rating once, in strictly ascending id order; its length is the table's size |
| MpaDbStorage.FindById | src/main/java/ru/yandex/practicum/filmorate/storage/mpa/MpaDbStorage.java:25-32 | the rating with that id and its name, or NotFound iff the id is absent |
| MpaDbStorage.FoundIffListed | src/main/java/ru/yandex/practicum/filmorate/storage/mpa/MpaDbStorage.java:19-32 | what `findById` returns is exactly what `findAll` lists |
| MpaDbStorage.NonPositiveIdsNotFound | src/main/java/ru/yandex/practicum/filmorate/storage/mpa/MpaDbStorage.java:28-30 | with positive keys, ids 0 and -1 are NotFound |
| FilmDbStorage.AddLikeCount | src/main/java/ru/yandex/practicum/filmorate/storage/film/FilmDbStorage.java:124-128 | `MERGE`: a like raises the film's count by one unless already stored; other films' likes are unchanged |
| FilmDbStorage.RemoveLikeCount | src/main/java/ru/yandex/practicum/filmorate/storage/film/FilmDbStorage.java:130-134 | deleting a like lowers the count by one iff it was stored; other films' likes are unchanged |
| FilmDbStorage.MultisetDistinct | src/main/java/ru/yandex/practicum/filmorate/storage/film/FilmDbStorage.java:140 | a sequence holding each id at most once (as `GROUP BY f.film_id` yields) has no repeats |
| FilmDbStorage.InsertByLikes | src/main/java/ru/yandex/practicum/filmorate/storage/film/FilmDbStorage.java:141 | inserting into a ranking adds exactly that id (multiset) |
| FilmDbStorage.RankedCons | src/main/java/ru/yandex/practicum/filmorate/storage/film/FilmDbStorage.java:141 | a film liked at least as much as every ranked film can head the ranking |
| FilmDbStorage.InsertKeepsRanking | src/main/java/ru/yandex/practicum/filmorate/storage/film/FilmDbStorage.java:141 | insertion keeps the order of non-increasing like count |
| FilmDbStorage.RankIds | src/main/java/ru/yandex/practicum/filmorate/storage/film/FilmDbStorage.java:137-141 | the ranking is a permutation of the film ids |
| FilmDbStorage.RankIdsRanked | src/main/java/ru/yandex/practicum/filmorate/storage/film/FilmDbStorage.java:140-141 | `ORDER BY COUNT(fl.user_id) DESC` over grouped films: non-increasing like counts, no repeats |
| FilmDbStorage.TopIds | src/main/java/ru/yandex/practicum/filmorate/storage/film/FilmDbStorage.java:136-143 | `LIMIT ?`: `min(count, number of films)` ids, all of joinable films |
| FilmDbStorage.TopIdsRanked | src/main/java/ru/yandex/practicum/filmorate/storage/film/FilmDbStorage.java:139-142 | the returned ids are distinct and in non-increasing like count |
| FilmDbStorage.TopIdsCut | src/main/java/ru/yandex/practicum/filmorate/storage/film/FilmDbStorage.java:139-142 | an omitted film has no more likes than any returned one; with `count` at least the number of films, every film (zero likes included, the `LEFT JOIN`) is returned |
| FilmDbStorage.LinksFor | src/main/java/ru/yandex/practicum/filmorate/storage/film/FilmDbStorage.java:151-156 | the rows `saveGenres` inserts: `(film, g)` iff `g` is a genre id of the collection, and only for that film |
| FilmDbStorage.RelinkedGenres | src/main/java/ru/yandex/practicum/filmorate/storage/film/FilmDbStorage.java:71-74 | after relinking, the film's genre ids are exactly the given ones (none for an empty set); other films' links are unchanged |
| FilmDbStorage.WithoutFilm | src/main/java/ru/yandex/practicum/filmorate/storage/film/FilmDbStorage.java:71 | deleting a film's rows leaves it none and keeps every other film's rows |
| FilmDbStorage.FilmDbStorage.LoadGenres | src/main/java/ru/yandex/practicum/filmorate/storage/film/FilmDbStorage.java:158-164 | `loadGenresForFilm`: strictly ascending ids, exactly the linked ids present in the genre table |
| FilmDbStorage.FilmDbStorage.LoadLikes | src/main/java/ru/yandex/practicum/filmorate/storage/film/FilmDbStorage.java:166-170 | `loadLikesForFilm`: user `u` is listed iff `(film, u)` is a stored like |
| FilmDbStorage.FilmDbStorage.JoinedIds | src/main/java/ru/yandex/practicum/filmorate/storage/film/FilmDbStorage.java:89-92 | the films the `JOIN mpa` keeps: stored rows whose rating exists |
| FilmDbStorage.FilmDbStorage.Loaded | src/main/java/ru/yandex/practicum/filmorate/storage/film/FilmDbStorage.java:96-99 | the assembled film carries its id, the stored row's columns, its joined rating, its loaded genres and its likes |
| FilmDbStorage.FilmDbStorage.FilmById | src/main/java/ru/yandex/practicum/filmorate/storage/film/FilmDbStorage.java:88-100 | succeeds iff the row exists and joins its rating (NotFound otherwise), returning the loaded film |
| FilmDbStorage.FilmDbStorage.ValidateFilmExists | src/main/java/ru/yandex/practicum/filmorate/storage/film/FilmDbStorage.java:115-122 | NotFound for a null or unknown id; otherwise `filmById`'s result |
| FilmDbStorage.FilmDbStorage.SaveGenres | src/main/java/ru/yandex/practicum/filmorate/storage/film/FilmDbStorage.java:151-156 | the loop adds exactly `LinksFor(film, genres)`; the other tables are unchanged |
| FilmDbStorage.FilmDbStorage.Create | src/main/java/ru/yandex/practicum/filmorate/storage/film/FilmDbStorage.java:29-54 | IllegalArgument before any write for a null rating or rating id; NullReference for a null date or duration; otherwise a fresh key, the row and the genre links are stored |
| FilmDbStorage.FilmDbStorage.Update | src/main/java/ru/yandex/practicum/filmorate/storage/film/FilmDbStorage.java:57-77 | the rating is checked before existence (IllegalArgument, then NotFound), with no writes on error; otherwise every column is overwritten and the genre links are replaced |
| FilmDbStorage.FilmDbStorage.Overwrite | src/main/java/ru/yandex/practicum/filmorate/storage/film/FilmDbStorage.java:62-74 | the row becomes `film`'s columns; the film's genre links are exactly `film`'s; likes are unchanged |
| FilmDbStorage.FilmDbStorage.Remove | src/main/java/ru/yandex/practicum/filmorate/storage/film/FilmDbStorage.java:80-85 | NotFound with no change for an unknown film; otherwise the row, its likes and its genre links are deleted |
| FilmDbStorage.FilmDbStorage.AddLike | src/main/java/ru/yandex/practicum/filmorate/storage/film/FilmDbStorage.java:124-128 | the likes become the old set plus the one pair; nothing else changes |
| FilmDbStorage.FilmDbStorage.RemoveLike | src/main/java/ru/yandex/practicum/filmorate/storage/film/FilmDbStorage.java:130-134 | the likes become the old set minus the one pair; nothing else changes |
| FilmDbStorage.FilmDbStorage.GetTopFilms | src/main/java/ru/yandex/practicum/filmorate/storage/film/FilmDbStorage.java:136-149 | the loaded films of the ranked ids, `min(count, number of films)` of them |
| FilmDbStorage.FilmDbStorage.LoadAll | src/main/java/ru/yandex/practicum/filmorate/storage/film/FilmDbStorage.java:144-147 | the `forEach` loop: position `i` holds the loaded film of the `i`-th id |
| FilmDbStorage.FilmDbStorage.TopFilmsCarryIds | src/main/java/ru/yandex/practicum/filmorate/storage/film/FilmDbStorage.java:144-147 | each top film carries its ranked id, and its likes number that film's like count |
| FilmDbStorage.FilmDbStorage.TopFilmsRanked | src/main/java/ru/yandex/practicum/filmorate/storage/film/FilmDbStorage.java:136-149 | the top films are distinct joinable films in non-increasing like count; an omitted film has no more likes than any returned one; all films are returned once `count` reaches their number |
| InMemoryFilmStorage.Patched | src/main/java/ru/yandex/practicum/filmorate/storage/film/InMemoryFilmStorage.java:33-48 | id, rating, genres and likes are never patched |
| InMemoryFilmStorage.PatchedFields | src/main/java/ru/yandex/practicum/filmorate/storage/film/InMemoryFilmStorage.java:33-48 | each of the four fields is taken from the patch iff it is non-null there; patching is idempotent |
| InMemoryFilmStorage.NullPatchIsIdentity | src/main/java/ru/yandex/practicum/filmorate/storage/film/InMemoryFilmStorage.java:33-48 | an all-null patch changes nothing |
| InMemoryFilmStorage.InMemoryFilmStorage.ValidateFilmExists | src/main/java/ru/yandex/practicum/filmorate/storage/film/InMemoryFilmStorage.java:67-73 | the stored film, or FilmNotFound iff the id is null or unknown |
| InMemoryFilmStorage.InMemoryFilmStorage.FilmById | src/main/java/ru/yandex/practicum/filmorate/storage/film/InMemoryFilmStorage.java:62-64 | the stored value for an existing key, carrying that key as its id |
| InMemoryFilmStorage.InMemoryFilmStorage.Create | src/main/java/ru/yandex/practicum/filmorate/storage/film/InMemoryFilmStorage.java:21-28 | a release-date failure leaves the map unchanged; otherwise exactly one entry is added under the fresh id `getNextId` gives |
| InMemoryFilmStorage.InMemoryFilmStorage.Update | src/main/java/ru/yandex/practicum/filmorate/storage/film/InMemoryFilmStorage.java:31-51 | FilmNotFound for an unknown or null id; otherwise only that entry changes, to the patched film |
| InMemoryFilmStorage.InMemoryFilmStorage.Remove | src/main/java/ru/yandex/practicum/filmorate/storage/film/InMemoryFilmStorage.java:54-59 | deletes exactly that key and returns "Фильм удален", or FilmNotFound with no change |
| InMemoryUserStorage.WithDefaultName | src/main/java/ru/yandex/practicum/filmorate/storage/user/InMemoryUserStorage.java:20-23 | a null name becomes the login; any other name, blank included, is kept; nothing else changes |
| InMemoryUserStorage.Patched | src/main/java/ru/yandex/practicum/filmorate/storage/user/InMemoryUserStorage.java:33-48 | the id is never patched |
| InMemoryUserStorage.PatchedFields | src/main/java/ru/yandex/practicum/filmorate/storage/user/InMemoryUserStorage.java:33-48 | each of email, login, name and birthday is taken from the patch iff it is non-null there; patching is idempotent |
| InMemoryUserStorage.InMemoryUserStorage.ValidateUserExists | src/main/java/ru/yandex/practicum/filmorate/storage/user/InMemoryUserStorage.java:62-74 | the stored user, or Validation (not NotFound) iff the id is null or unknown |
| InMemoryUserStorage.InMemoryUserStorage.Create | src/main/java/ru/yandex/practicum/filmorate/storage/user/InMemoryUserStorage.java:19-28 | exactly one entry is added, under `getNextId`'s fresh id, holding the name-defaulted user |
| InMemoryUserStorage.InMemoryUserStorage.Update | src/main/java/ru/yandex/practicum/filmorate/storage/user/InMemoryUserStorage.java:31-51 | Validation for an unknown or null id; otherwise only that entry changes, to the patched user |
| InMemoryUserStorage.InMemoryUserStorage.Remove | src/main/java/ru/yandex/practicum/filmorate/storage/user/InMemoryUserStorage.java:54-59 | deletes exactly that key and returns "Пользователь успешно удален", or Validation with no change |
| UserService.PutIfAbsent | src/main/java/ru/yandex/practicum/filmorate/service/UserService.java:29-30 | adds the key with an empty set if it is missing; existing sets are kept |
| UserService.AddStepsLink | src/main/java/ru/yandex/practicum/filmorate/service/UserService.java:29-32 | the two `putIfAbsent`s and two `add`s build exactly the two-way link |
| UserService.LinkedKeepsInvariant | src/main/java/ru/yandex/practicum/filmorate/service/UserService.java:29-32 | adding a friendship keeps the map symmetric and irreflexive |
| UserService.LinkedBothWays | src/main/java/ru/yandex/practicum/filmorate/service/UserService.java:31-32 | after adding, each user is in the other's set |
| UserService.LinkedIdempotent | src/main/java/ru/yandex/practicum/filmorate/service/UserService.java:29-32 | adding the same friendship twice is adding it once |
| UserService.UnlinkedProperties | src/main/java/ru/yandex/practicum/filmorate/service/UserService.java:39-42 | removal keeps symmetry and irreflexivity and leaves neither direction |
| UserService.UnlinkAbsentIsNoop | src/main/java/ru/yandex/practicum/filmorate/service/UserService.java:39 | removing a friendship that does not exist changes nothing |
| UserService.Resolve | src/main/java/ru/yandex/practicum/filmorate/service/UserService.java:50-52 | `map(userStorage::userById)`: the users behind the ids, or the storage's error iff some id is unknown; empty ids give empty users |
| UserService.ResolvedIds | src/main/java/ru/yandex/practicum/filmorate/service/UserService.java:50-52 | the resolved users' ids are exactly the requested ids |
| UserService.UserService.AddFriend | src/main/java/ru/yandex/practicum/filmorate/service/UserService.java:23-34 | the existence checks come before the self check; no change on any error; on success the map becomes the two-way link and stays symmetric and irreflexive |
| UserService.UserService.RemoveFriend | src/main/java/ru/yandex/practicum/filmorate/service/UserService.java:36-44 | the existence checks come first; then both directions are dropped; no change and no error when the two are not friends |
| UserService.UserService.GetFriends | src/main/java/ru/yandex/practicum/filmorate/service/UserService.java:46-53 | the storage's error for an unknown user; otherwise the users behind the stored ids (none without an entry) |
| UserService.UserService.GetCommonFriends | src/main/java/ru/yandex/practicum/filmorate/service/UserService.java:55-66 | both users are checked; then the users behind the intersection of the two sets |
| UserService.UserService.CommonFriendsCommute | src/main/java/ru/yandex/practicum/filmorate/service/UserService.java:58-61 | common friends do not depend on the order of the two users |
| UserDbStorage.NamedForInsert | src/main/java/ru/yandex/practicum/filmorate/storage/user/UserDbStorage.java:27-29 | a null or blank name becomes the login; otherwise the user is unchanged |
| UserDbStorage.FriendRowsIds | src/main/java/ru/yandex/practicum/filmorate/storage/user/UserDbStorage.java:121-127 | the returned friends' ids are exactly the stored users `v` with `(u, v)`; none without pairs |
| UserDbStorage.CommonIsIntersection | src/main/java/ru/yandex/practicum/filmorate/storage/user/UserDbStorage.java:129-137 | the double join is the intersection of the two friend lists and is symmetric in the two ids |
| UserDbStorage.AddPairIsOneWay | src/main/java/ru/yandex/practicum/filmorate/storage/user/UserDbStorage.java:102-108 | inserting `(u, f)` gives `u` one more friend, leaves `f`'s friends as they were, and never creates `(f, u)` |
| UserDbStorage.RemovePairIsOneWay | src/main/java/ru/yandex/practicum/filmorate/storage/user/UserDbStorage.java:111-118 | deleting `(u, f)` removes `f` from `u`'s friends only |
| UserDbStorage.UserDbStorage.UserById | src/main/java/ru/yandex/practicum/filmorate/storage/user/UserDbStorage.java:71-78 | the stored row, or NotFound iff the id is unknown |
| UserDbStorage.UserDbStorage.ValidateUserExists | src/main/java/ru/yandex/practicum/filmorate/storage/user/UserDbStorage.java:87-94 | NotFound iff the id is null or unknown; otherwise `userById`'s row |
| UserDbStorage.UserDbStorage.Create | src/main/java/ru/yandex/practicum/filmorate/storage/user/UserDbStorage.java:26-46 | NullReference with no change for a null birthday; otherwise the name-defaulted user is stored under a fresh key |
| UserDbStorage.UserDbStorage.Update | src/main/java/ru/yandex/practicum/filmorate/storage/user/UserDbStorage.java:49-60 | NotFound with no change for an unknown id; otherwise the row is overwritten, nulls included |
| UserDbStorage.UserDbStorage.Remove | src/main/java/ru/yandex/practicum/filmorate/storage/user/UserDbStorage.java:63-68 | NotFound with no change for an unknown id; otherwise exactly that row is deleted |
| UserDbStorage.UserDbStorage.AddFriend | src/main/java/ru/yandex/practicum/filmorate/storage/user/UserDbStorage.java:96-109 | NotFound, then IllegalArgument for self, with no change; otherwise exactly the directed pair is added, and a repeated add is a no-op |
| UserDbStorage.UserDbStorage.RemoveFriend | src/main/java/ru/yandex/practicum/filmorate/storage/user/UserDbStorage.java:111-119 | NotFound with no change; otherwise exactly the directed pair is deleted (a no-op if absent) |
| UserDbStorage.UserDbStorage.GetFriends | src/main/java/ru/yandex/practicum/filmorate/storage/user/UserDbStorage.java:121-127 | NotFound iff the user is unknown; otherwise users whose ids are exactly the out-neighbours present in the table |
| UserDbStorage.UserDbStorage.GetCommonFriends | src/main/java/ru/yandex/practicum/filmorate/storage/user/UserDbStorage.java:129-137 | NotFound iff either user is unknown; otherwise the intersection of the two users' friends |
| UserDbStorage.UserDbStorage.CommonFriendsCommute | src/main/java/ru/yandex/practicum/filmorate/storage/user/UserDbStorage.java:129-137 | common friends do not depend on the order of the two users |
| FilmService.GenreError | src/main/java/ru/yandex/practicum/filmorate/service/FilmService.java:64-69 | Validation iff the genre id is null, NotFound iff it is set |
| FilmService.GenreCheck | src/main/java/ru/yandex/practicum/filmorate/service/FilmService.java:62-71 | no error iff every genre is known; otherwise the error of the first unknown genre |
| FilmService.CheckGenres | src/main/java/ru/yandex/practicum/filmorate/service/FilmService.java:63-70 | the genre loop's result is `GenreCheck`'s |
| FilmService.CreateCheck | src/main/java/ru/yandex/practicum/filmorate/service/FilmService.java:55-73 | no error iff the date, rating and genres all pass; the errors come in the order date, null rating (Validation), unknown rating (NotFound), genres |
| FilmService.CreateCheckAdmits | src/main/java/ru/yandex/practicum/filmorate/service/FilmService.java:55-73 | an admitted film has a date on or after 1895-12-28, a known rating and known genres; a null date fails first |
| FilmService.FilmService.AddLike | src/main/java/ru/yandex/practicum/filmorate/service/FilmService.java:34-38 | NotFound with likes unchanged if the film or the user is unknown; otherwise only the one pair is added |
| FilmService.FilmService.RemoveLike | src/main/java/ru/yandex/practicum/filmorate/service/FilmService.java:40-44 | NotFound with likes unchanged if the film or the user is unknown; otherwise only the one pair is removed |
| FilmService.FilmService.GetTopFilms | src/main/java/ru/yandex/practicum/filmorate/service/FilmService.java:46-49 | the storage's top films for the same `count`, as they are |
| FilmService.FilmService.Create | src/main/java/ru/yandex/practicum/filmorate/service/FilmService.java:55-73 | stores nothing unless every check passes, returning the first check's error; otherwise the storage's insert |
| FilmController.Put | src/main/java/ru/yandex/practicum/filmorate/controller/FilmController.java:78-79 | an insert into an id-ordered set replaces the element with the same id; the result stays ascending |
| FilmController.SortedGenres | src/main/java/ru/yandex/practicum/filmorate/controller/FilmController.java:78-79 | the `TreeSet`: strictly ascending ids, holding exactly the first genre of each id |
| FilmController.FirstByIdCons | src/main/java/ru/yandex/practicum/filmorate/controller/FilmController.java:79 | the first genre of each id is the head, or a later genre whose id differs from the head's |
| FilmController.FirstOfIdExists | src/main/java/ru/yandex/practicum/filmorate/controller/FilmController.java:79 | every id present has a first genre carrying it |
| FilmController.SortGenres | src/main/java/ru/yandex/practicum/filmorate/controller/FilmController.java:76-82 | a null or empty collection is left as it is; a null id throws; otherwise the genres become ascending with the same id set, and nothing else changes |
| FilmController.SortedGenresOfAscending | src/main/java/ru/yandex/practicum/filmorate/controller/FilmController.java:78-80 | genres already in ascending id order are left as they are |
| FilmController.SortGenresIdempotent | src/main/java/ru/yandex/practicum/filmorate/controller/FilmController.java:76-82 | sorting twice is sorting once |
| FilmController.PopularCount | src/main/java/ru/yandex/practicum/filmorate/controller/FilmController.java:55-56 | `count` defaults to 10 when absent |
| FilmController.GetPopularFilms | src/main/java/ru/yandex/practicum/filmorate/controller/FilmController.java:55-61 | exactly the service's top films for the requested or default count |
| FilmController.SortAll | src/main/java/ru/yandex/practicum/filmorate/controller/FilmController.java:59 | the `forEach(sortGenres)` loop: position `i` holds `sortGenres` of the `i`-th film |
| FilmController.LoadedFilmsAreSorted | src/main/java/ru/yandex/practicum/filmorate/controller/FilmController.java:59 | every film of the top list is left unchanged by `sortGenres` |

## Left out

- JDBC mechanics are not modelled: `JdbcTemplate`, key holders, prepared statements, the row mappers and logging. Each table is a field, and a generated key is the next value of a counter.
- Constraints whose DDL is not part of this model are left out: foreign keys, unique email, the duration `CHECK`, and any cascade on user removal. `UserDbStorage.UserDbStorage.Remove` keeps the friends rows that name the deleted user, and the join of the friend queries skips them.
- FilmDbStorage.FilmDbStorage.Remove deletes the film's likes and genre links together with the row. The Java code issues only the `DELETE FROM film`; the removal of the links relies on a database cascade.
- FilmDbStorage.RankIds breaks ties in like count by ascending id, because the SQL has no secondary sort key. The contracts about the top films promise no order among equal counts.
- FilmDbStorage.FilmDbStorage.GetTopFilms takes `count` as a `nat`. A negative `LIMIT` is dialect behaviour, so `FilmController.GetPopularFilms` requires a non-negative count.
- FilmDbStorage.FilmDbStorage.SaveGenres skips a genre with a null id. The insert of a NULL `genre_id` depends on the schema, and no join can match such a row.
- The `findAll` operations of the film and user stores and of the two services are not modelled. They list rows in an unspecified order and have no other logic.
- The pass-through methods of `FilmService` and `UserService` are not modelled: `update`, `remove`, `filmById`, `userById` and `create` of users each forward a single call.
- Ids are unbounded integers. The 32-bit overflow of `Integer` ids and of `getNextId` is not modelled.
- Model.HasAtSign reduces `@Email` to "contains '@'". The full address grammar is not modelled.
- Model.ValidUser takes today's date as a parameter in place of `LocalDate.now()`.
- Several operations keep or change the caller's object, where the model works on values, so aliasing between the caller's object and the stored one is not captured:
  - the in-memory stores' `update` mutates the stored object in place, and the model replaces the map entry with the patched value;
  - the in-memory stores' `create` stores the caller's object itself and sets its id (and, for users, its name);
  - `FilmDbStorage.create` sets the generated id on the caller's film;
  - `UserDbStorage.create` replaces the caller's null or blank name by the login before the null-birthday check, so the caller's user is changed even when `create` fails. The model's `Create` leaves no trace on error.
- UserService.UserService.GetFriends and UserService.UserService.GetCommonFriends return a set of users, where the Java code collects a `List`. The list cannot hold duplicates, because the ids come from a set.
- UserDbStorage.UserDbStorage.GetFriends and UserDbStorage.UserDbStorage.GetCommonFriends return a set of users, where the Java code collects a `List` from a query without `ORDER BY`. The order of that list is unspecified, and each friend row joins one user, so the set loses only the order.
- Null id arguments are modelled only where a `validate…Exists` check or `update` receives them (`Option<int>` there). Elsewhere (`filmById`, `remove`, `addFriend`, `addLike`, `findById` and the like) the id parameter is a plain `int`, so a null id passed there is not modelled.
- The service's user storage is a `UserDirectory` value: the stored users plus the exception for an unknown id. The storage's own state changes are not part of `UserService`.
- The model uses one `Validation` error for two exception classes: `jakarta.validation.ValidationException`, which `FilmService` throws, and the project's own `exception.ValidationException`, which `UserService` and the in-memory stores throw. No modelled operation throws both. The error handler maps only the jakarta class to a status, and that mapping is not modelled.
- The HTTP layer, `@Valid` wiring, JSON and the exception-to-status mapping are not modelled.
