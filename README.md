# LMS catalog core: a Dafny model

This project models the data-access core of LMS, a personal media-library
server. It covers three parts.

- **The Release query engine** (`database/Release.cpp`). The catalog is an
  in-memory store: a release table, a track table (each track has a nullable
  release reference, a nullable artist reference and a duration) and the set of
  artist ids. The model covers:
  - the constructor that cuts the name to the maximum name length;
  - lookup by name, which cuts the query name the same way;
  - lookup by id;
  - the lazily created `"<None>"` sentinel;
  - `create`;
  - the paginated listing with its artist filter and `groupBy`;
  - the duration aggregate;
  - the orphan scan by left-outer anti-join.
- **The authentication service's two user-table operations**
  (`AuthServiceBase.cpp`): find-or-create a user by login name, where the first
  user of an empty table becomes administrator, and stamping the last-login time.
- **The scoped foreign-key guard** (`Db.hpp`). Its constructor turns
  referential-integrity enforcement off. Its destructor turns it on.

Files:

- `dbo.dfy`, module `Dbo`: what the object-relational mapper's queries mean. A
  `where` filter over a table is `Where`. Reading a query as one row pointer
  (`resultValue`) is `Find`, which gives a null pointer, the single matching
  row, or the no-unique-result exception. `UniqueKeys` says a column is
  unique in a table, and `KeyIs` is the condition that binds such a column.
- `releases.dfy`, module `Releases`: the release and track rows, the pure
  queries as functions, and a `Catalog` class. Its methods `Create` and
  `GetNone` update the store in place. `GetDuration` sums with a loop, as the
  source does.
- `auth_service.dfy`, module `AuthService`: the user rows and a `UserTable`
  class holding the two operations.
- `db.dfy`, module `Database`: a `Db` class with a `foreignKeys` flag and the
  `ScopedNoForeignKeys` guard class.

Modelling decisions:

- `_maxNameLength` is declared in a header that is not part of this model. It
  is `Catalog.maxNameLength`, a constant fixed when the store is opened and
  required to be positive.
- Query results come back in table order. SQL leaves that order undefined.
- `offset`/`limit` follow the mapper and the store: a negative offset skips
  nothing and a negative limit keeps every remaining row.
- Every stored release name fits the maximum name length: it holds for the
  tables a store is opened with and `create` keeps it (`Catalog.Valid`).
- Ids of new rows come from a counter held by the store (`nextReleaseId`,
  `nextUserId`). Every existing id is below that counter.
- Durations are natural numbers of ticks. The current time for
  `onUserAuthenticated` is a parameter.

Behaviour of the code the model keeps:

- **The artist filter of `getAll` requires every listed id.** The code adds one
  `where("a.id = ?")` per requested id (database/Release.cpp:74-75). The mapper
  joins these with AND, so each id must equal the artist of one joined row. With
  two different ids nothing is listed (`DistinctArtistIdsListNothing`). With one
  id, the listing holds the releases that have a track by that artist
  (`SingleArtistFilter`). The model reads the two joins
  (database/Release.cpp:68-69) as joining `track` before `artist`. As written,
  the first join's condition names `t` before `t` is introduced. The model
  assumes the store resolves the join that way.
- **`size` and `offset` go to the query unchecked.** A negative offset then
  skips nothing and a negative size lists every remaining release (`Window`).
- **Names may repeat.** `create` stores the truncated name whether or not a row
  already carries it. If two rows carry the truncated name, `getByName` (and so
  `getNone`) fails with the mapper's no-unique-result exception. The model gives
  that case its own result, `NoUniqueResult`. From a state where at most one
  `"<None>"` row exists, `getNone` returns a row and leaves exactly one.
- **The guard's destructor sets enforcement on unconditionally.** Enforcement is
  on after the guard even when it was off before the guard was taken. With
  nested guards, the inner destructor turns it on while the outer guard is still
  alive (`NestedScopes`).

## Model

| member | source | states |
|---|---|---|
| `Dbo.Find` | database/Release.cpp:36 | Reading a `where` query as a pointer gives null exactly when no row matches. A row it gives matches, and every matching row equals it. It gives the no-unique-result exception exactly when two distinct positions of the table match. |
| `Dbo.Where` | database/Release.cpp:36 | A `where` filter keeps exactly the rows that satisfy the condition, never adds a row, and keeps a duplicate-free table duplicate-free. |
| `Releases.Truncate` | database/Release.cpp:29 | The truncated name is a prefix of the argument, of length min(length, maximum). |
| `Releases.NewRelease` | database/Release.cpp:28-31 | A constructed release has the given id. Its name is a prefix of the argument of length min(length, maximum), and is the argument itself when that fits. |
| `Releases.TruncateAgree` | database/Release.cpp:29-36 | Two names truncate alike exactly when they are equal, or both reach the maximum length and agree on their first maximum-length characters. |
| `Releases.FindByName` | database/Release.cpp:33-37 | `getByName` compares stored names with the truncated query name. Null means no row has that name. A row means it is the only row with that name. Two positions of the table carrying that name, and only they, make the lookup fail with no-unique-result. |
| `Releases.FindById` | database/Release.cpp:39-43 | `getById` is null exactly when no release has the id, so always for a negative id; a row it returns has that id. With unique ids it is never ambiguous. |
| `Releases.FindAfterCreate` | database/Release.cpp:33-59 | After a row is created for a name, `getByName` is not null for any query name that truncates alike, including names longer than the maximum. If no row had that name before, it gives the new row alone. |
| `Releases.StoredNameFound` | database/Release.cpp:28-36 | In a valid store, where every name was cut to the maximum when its row was made, looking up the stored name of any release is not null. |
| `Releases.Catalog.Create` | database/Release.cpp:55-59 | `create` appends exactly one release with a fresh id and the truncated name, and leaves the earlier releases, the tracks and the artists unchanged. `getByName` of that name is then not null, and gives the new row alone when the name was unused. |
| `Releases.Catalog.GetNone` | database/Release.cpp:45-53 | With no `"<None>"` row, `getNone` creates one and returns it, adding exactly one release. Otherwise it returns the lookup's result and changes nothing. It never returns null. After it returns a row, a lookup of `"<None>"` yields that same row. |
| `Releases.GetNoneTwice` | database/Release.cpp:45-53 | Two calls of `getNone` return the same result. The release count grows by at most one, and grows exactly when no `"<None>"` row existed. |
| `Releases.TracksOf` | database/Release.cpp:85-89 | The release's track collection holds exactly the tracks whose release reference is the release's id. |
| `Releases.Catalog.GetDuration` | database/Release.cpp:82-93 | The loop's result is the sum of the durations of the release's tracks. |
| `Releases.TotalDurationAppend` | database/Release.cpp:89-90 | The sum of durations over two track lists together is the sum of the two sums. |
| `Releases.DurationWithoutTracks` | database/Release.cpp:87-92 | A release that no track refers to has duration zero. |
| `Releases.DurationAfterAddingTrack` | database/Release.cpp:87-92 | Adding a track adds its duration to its own release's total and leaves every other release's total unchanged. |
| `Releases.AntiJoinIsOrphanFilter` | database/Release.cpp:98 | The left outer join of releases to tracks (`LeftOuterJoin`), keeping rows with no track (`UnmatchedReleases`), yields exactly the releases no track refers to, in table order. |
| `Releases.GetAllOrphans` | database/Release.cpp:95-99 | `getAllOrphans` lists a release exactly when it is in the table and no track refers to it. It lists each release once when the table has no duplicates. |
| `Releases.OrphanAdopted` | database/Release.cpp:98 | An orphan is listed. Once a track referring to it is added, it is no longer listed. |
| `Releases.InnerJoin` | database/Release.cpp:68-69 | The joined rows pair each release with exactly the tracks that refer to it and name an existing artist. Each row carries that track's artist id. |
| `Releases.GroupBy` | database/Release.cpp:77 | `groupBy("r")` keeps every release of the selection, and only those, once each. |
| `Releases.Window` | database/Release.cpp:72 | `offset`/`limit` keep the rows from position `offset` on, at most `size` of them: the full page `s[offset..offset+size]` when it fits, the rest `s[offset..]` when it does not or the limit is negative. A negative offset starts at the first row. An offset past the end yields nothing. The page length is stated for every offset and size. |
| `Releases.QualifyingSelected` | database/Release.cpp:64-75 | Before grouping, the query (`Selected`: the bare table, or `SELECT r` over the filtered `InnerJoin`) selects exactly the releases that qualify: every release without artist ids; otherwise those joined to a track whose artist matches every requested id. |
| `Releases.GetAll` | database/Release.cpp:61-80 | `getAll` returns releases without duplicates, each qualifying for the artist filter. With `n` qualifying releases and `k` the offset clamped to `0..n`, it returns `n - k` of them for a negative size and `min(size, n - k)` otherwise. With offset at most zero and a size of at least `n` (or negative), it returns every qualifying release. |
| `Releases.GetAllUnfiltered` | database/Release.cpp:64-79 | Without artist ids, `getAll` returns the release table's page in table order: the slice of length `size` from `offset` when it fits, the rest of the table from `offset` when it does not or the size is negative, the first `size` rows (or all of them) for a negative offset, and nothing for an offset past the end. |
| `Releases.SingleArtistFilter` | database/Release.cpp:66-75 | With one artist id, a release qualifies exactly when the artist exists and one of the release's tracks is by that artist. |
| `Releases.NegativeArtistIdListsNothing` | database/Release.cpp:62-75 | A negative artist id in the list makes `getAll` return nothing, because no artist row has a negative id. |
| `Releases.DistinctArtistIdsListNothing` | database/Release.cpp:74-75 | With two different artist ids in the list, `getAll` returns nothing, because the repeated `where` clauses are joined with AND. |
| `AuthService.FindByLogin` | src/libs/services/auth/impl/AuthServiceBase.cpp:41 | Finding a user by login name is null exactly when no user has that name; a user it returns has that name. With unique login names it is never ambiguous. |
| `AuthService.FindById` | src/libs/services/auth/impl/AuthServiceBase.cpp:61 | Finding a user by id is null exactly when no user has that id; a user it returns has that id. With unique ids it is never ambiguous. |
| `AuthService.NewUserType` | src/libs/services/auth/impl/AuthServiceBase.cpp:44 | A new user is an administrator exactly when the user count is zero. |
| `AuthService.UserTable.GetOrCreateUser` | src/libs/services/auth/impl/AuthServiceBase.cpp:35-53 | If a user has the login name, its id is returned and nothing changes. Otherwise exactly one user is appended: a fresh id, that login name, no last login, and administrator exactly when the table was empty. Its id is returned. Afterwards the login name finds the returned id. The table grows by at most one. |
| `AuthService.UserTable.OnUserAuthenticated` | src/libs/services/auth/impl/AuthServiceBase.cpp:55-64 | The user with the id gets `lastLogin` set to the supplied time. Every other field and every other user stays the same. An unknown id leaves the table unchanged. |
| `Database.Db.ExecuteSql` | src/libs/database/include/database/Db.hpp:59 | After `foreign_keys=ON` enforcement is on; after `foreign_keys=OFF` it is off. Only the flag changes. |
| `Database.ScopedNoForeignKeys.constructor` | src/libs/database/include/database/Db.hpp:45-48 | Taking the guard turns enforcement off on the referenced `Db` and changes nothing else. |
| `Database.ScopedNoForeignKeys.Destroy` | src/libs/database/include/database/Db.hpp:49-52 | Destroying the guard turns enforcement on and changes nothing else. |
| `Database.GuardedScope` | src/libs/database/include/database/Db.hpp:42-57 | Inside a guarded scope enforcement is off. After the scope it is on, whatever it was before the guard was taken. |
| `Database.NestedScopes` | src/libs/database/include/database/Db.hpp:49-52 | With nested guards, enforcement is already on between the inner and the outer destructor. |

## Left out

- Connection pool, shared mutex and thread-local session (`Db.hpp:39-40`, `Db.hpp:61-62`, `getTLSSession`): concurrency plumbing. Every operation is modelled as running atomically on the store.
- Read and write transactions, with commit and rollback: each operation is one atomic step on the store. A store failure inside a transaction is not modelled.
- The `Db` constructor and the body of `executeSql` are not part of this model. The handle's initial enforcement is a constructor parameter. `executeSql` is modelled only for the two statements the guard sends.
- The work a program does while holding the guard is not modelled. Only the flag's value inside and after the scope is. The destructor running on an exception path is covered because it sets the flag unconditionally.
- The other Release columns (years, disc count, release artists, clusters) and the other entities: no modelled operation reads them.
- The SQL text and the mapper's lazy pointers and collections: only their relational meaning is modelled.
- Names are sequences of characters. The source truncates a byte string, which can cut a multi-byte UTF-8 character. This is not modelled.
- Durations are unbounded naturals. The source's 64-bit tick count and its overflow are not modelled.
- The user row is created with its final type in one step. The source creates it, then sets its type (`AuthServiceBase.cpp:48-49`), and the default type of `User`'s constructor is not part of this model.
- Logging (`LMS_LOG`) and the wall clock (`currentDateTime`): the time is a parameter.
- The user interface files (release view, audio player, home and login widgets): presentation, playback and I/O.
- Releases.GetAll: its contract does not fix the order of the listed releases. Only the lemma `GetAllUnfiltered` ties the unfiltered listing to table order, because SQL leaves the order of a grouped query undefined.
- Releases.GetAll: the multi-artist case is modelled as the code's AND of `where` clauses, under the join-order assumption above. Union semantics are not modelled.
