/**
 * The Release queries of the music catalog (database/Release.cpp): name
 * truncation, lookup by name and by id, the lazily created "<None>"
 * sentinel, creation, the paginated listing with its artist filter, the
 * duration aggregate and the orphan scan. The store is a release table, a
 * track table and the set of artist ids; every query reads those tables as
 * the session would see them inside one transaction.
 */
module Releases {
  import opened Dbo

  type Id = nat

  /** A row of the release table. */
  datatype Release = Release(id: Id, name: string)

  /** A row of the track table: a nullable release reference, a nullable artist reference, a duration in ticks. */
  datatype Track = Track(id: Id, releaseId: Option<Id>, artistId: Option<Id>, duration: nat)

  /** Every stored name fits the maximum, as the truncating constructor ensures. */
  predicate NamesWithin(releases: seq<Release>, maxLength: nat) {
    forall r :: r in releases ==> |r.name| <= maxLength
  }

  /** The reserved name of the sentinel release. */
  const NoneName: string := "<None>"

  function Min(a: nat, b: nat): nat {
    if a <= b then a else b
  }

  /** The primary-key column of the release table, read as the signed id type the queries bind. */
  function ReleaseId(r: Release): int {
    r.id
  }

  // ---------------------------------------------------------------------------
  // Names

  /** The name cut to at most `maxLength` characters, as `std::string(name, 0, maxLength)` does. */
  function Truncate(name: string, maxLength: nat): (t: string)
    ensures |t| == Min(|name|, maxLength)
    ensures t <= name
  {
    if |name| <= maxLength then name else name[..maxLength]
  }

  /** Two names are looked up as one exactly when they are equal or agree on their first `maxLength` characters. */
  lemma TruncateAgree(a: string, b: string, maxLength: nat)
    ensures Truncate(a, maxLength) == Truncate(b, maxLength) <==>
              a == b || (|a| >= maxLength && |b| >= maxLength && a[..maxLength] == b[..maxLength])
  {
  }

  /** The Release constructor: the stored name is the argument cut to `maxLength`. */
  function NewRelease(id: Id, name: string, maxLength: nat): (r: Release)
    ensures r.id == id
    ensures |r.name| == Min(|name|, maxLength) && r.name <= name
    ensures |name| <= maxLength ==> r.name == name
  {
    Release(id, Truncate(name, maxLength))
  }

  // ---------------------------------------------------------------------------
  // Lookups

  function NamedAs(key: string): Release -> bool {
    (r: Release) => r.name == key
  }

  /** `getByName`: the rows whose stored name equals the truncated query name. */
  function FindByName(releases: seq<Release>, name: string, maxLength: nat): (p: Pointer<Release>)
    ensures p.Null? <==>
              forall i :: 0 <= i < |releases| ==> releases[i].name != Truncate(name, maxLength)
    ensures p.Ptr? ==> p.value in releases && p.value.name == Truncate(name, maxLength)
    ensures p.Ptr? ==> forall r :: r in releases && r.name == Truncate(name, maxLength) ==> r == p.value
    ensures p.NoUniqueResult? <==>
              exists i, j :: 0 <= i < j < |releases| &&
                releases[i].name == Truncate(name, maxLength) && releases[j].name == Truncate(name, maxLength)
  {
    Find(releases, NamedAs(Truncate(name, maxLength)))
  }

  /** `getById`: the row with that id, or a null pointer (always for a negative id); ids are unique, so never ambiguous. */
  function FindById(releases: seq<Release>, id: int): (p: Pointer<Release>)
    ensures UniqueKeys(releases, ReleaseId) ==> !p.NoUniqueResult?
    ensures p.Null? <==> forall r :: r in releases ==> r.id != id
    ensures p.Ptr? ==> p.value in releases && p.value.id == id
    ensures id < 0 ==> p.Null?
  {
    var p := Find(releases, KeyIs(ReleaseId, id));
    assert p.Null? ==> forall r :: r in releases ==> r.id != id by {
      if p.Null? {
        forall r | r in releases ensures r.id != id {
          var i :| 0 <= i < |releases| && releases[i] == r;
          assert !KeyIs(ReleaseId, id)(releases[i]);
          assert ReleaseId(releases[i]) == releases[i].id;
        }
      }
    }
    p
  }

  /**
   * A row created with `name` is found by every query name that truncates
   * alike; when no row had that name before, it is the unique result.
   */
  lemma {:induction false} FindAfterCreate(releases: seq<Release>, id: Id, name: string, query: string, maxLength: nat)
    requires Truncate(query, maxLength) == Truncate(name, maxLength)
    ensures FindByName(releases + [NewRelease(id, name, maxLength)], query, maxLength) != Null
    ensures FindByName(releases, query, maxLength).Null? ==>
              FindByName(releases + [NewRelease(id, name, maxLength)], query, maxLength) == Ptr(NewRelease(id, name, maxLength))
  {
    var r := NewRelease(id, name, maxLength);
    var after := releases + [r];
    var key := Truncate(query, maxLength);
    assert after[|releases|] == r;
  }

  // ---------------------------------------------------------------------------
  // Duration

  /** The sum of the tracks' durations. */
  function TotalDuration(tracks: seq<Track>): nat {
    if tracks == [] then 0 else tracks[0].duration + TotalDuration(tracks[1..])
  }

  lemma {:induction false} TotalDurationAppend(a: seq<Track>, b: seq<Track>)
    ensures TotalDuration(a + b) == TotalDuration(a) + TotalDuration(b)
  {
    if a == [] {
      assert a + b == b;
    } else {
      assert (a + b)[0] == a[0];
      assert (a + b)[1..] == a[1..] + b;
      TotalDurationAppend(a[1..], b);
    }
  }

  function RefersTo(id: Id): Track -> bool {
    (t: Track) => t.releaseId == Some(id)
  }

  /** The release's `_tracks` collection: the tracks whose release reference is that id, in table order. */
  function TracksOf(tracks: seq<Track>, id: Id): (r: seq<Track>)
    ensures forall t :: t in r ==> t in tracks && t.releaseId == Some(id)
    ensures forall t :: t in tracks && t.releaseId == Some(id) ==> t in r
  {
    Where(tracks, RefersTo(id))
  }

  /** A release that no track refers to lasts zero. */
  lemma DurationWithoutTracks(tracks: seq<Track>, id: Id)
    requires forall t :: t in tracks ==> t.releaseId != Some(id)
    ensures TotalDuration(TracksOf(tracks, id)) == 0
  {
  }

  /** Adding a track adds its duration to its own release and to no other. */
  lemma {:induction false} DurationAfterAddingTrack(tracks: seq<Track>, t: Track, id: Id)
    ensures TotalDuration(TracksOf(tracks + [t], id)) ==
              TotalDuration(TracksOf(tracks, id)) + (if t.releaseId == Some(id) then t.duration else 0)
  {
    WhereAppend(tracks, [t], RefersTo(id));
    TotalDurationAppend(TracksOf(tracks, id), Where([t], RefersTo(id)));
    assert [t][1..] == [];
  }

  // ---------------------------------------------------------------------------
  // Orphans

  /** No track refers to the release. */
  predicate IsOrphan(r: Release, tracks: seq<Track>) {
    forall t :: t in tracks ==> t.releaseId != Some(r.id)
  }

  function OrphanIn(tracks: seq<Track>): Release -> bool {
    (r: Release) => IsOrphan(r, tracks)
  }

  /** A row of `release r LEFT OUTER JOIN track t ON r.id = t.release_id`; `track` is absent for an unmatched release. */
  datatype OuterRow = OuterRow(release: Release, track: Option<Track>)

  /** The rows pairing one release with each matching track, or with no track at all. */
  function OuterRowsOf(r: Release, matches: seq<Track>): seq<OuterRow> {
    if matches == [] then [OuterRow(r, None)]
    else seq(|matches|, i requires 0 <= i < |matches| => OuterRow(r, Some(matches[i])))
  }

  function LeftOuterJoin(releases: seq<Release>, tracks: seq<Track>): seq<OuterRow> {
    if releases == [] then []
    else OuterRowsOf(releases[0], TracksOf(tracks, releases[0].id)) + LeftOuterJoin(releases[1..], tracks)
  }

  /** `WHERE t.id IS NULL`, selecting `r`. */
  function UnmatchedReleases(rows: seq<OuterRow>): seq<Release> {
    if rows == [] then []
    else (if rows[0].track.None? then [rows[0].release] else []) + UnmatchedReleases(rows[1..])
  }

  lemma {:induction false} UnmatchedAppend(a: seq<OuterRow>, b: seq<OuterRow>)
    ensures UnmatchedReleases(a + b) == UnmatchedReleases(a) + UnmatchedReleases(b)
  {
    if a == [] {
      assert a + b == b;
    } else {
      assert (a + b)[0] == a[0];
      assert (a + b)[1..] == a[1..] + b;
      UnmatchedAppend(a[1..], b);
    }
  }

  lemma {:induction false} UnmatchedOfMatched(rows: seq<OuterRow>)
    requires forall k :: 0 <= k < |rows| ==> rows[k].track.Some?
    ensures UnmatchedReleases(rows) == []
  {
    if rows != [] {
      UnmatchedOfMatched(rows[1..]);
    }
  }

  /** The anti-join keeps, in table order, exactly the releases no track refers to. */
  lemma {:induction false} AntiJoinIsOrphanFilter(releases: seq<Release>, tracks: seq<Track>)
    ensures UnmatchedReleases(LeftOuterJoin(releases, tracks)) == Where(releases, OrphanIn(tracks))
  {
    if releases != [] {
      var r := releases[0];
      var matches := TracksOf(tracks, r.id);
      UnmatchedAppend(OuterRowsOf(r, matches), LeftOuterJoin(releases[1..], tracks));
      AntiJoinIsOrphanFilter(releases[1..], tracks);
      if matches == [] {
        assert [OuterRow(r, None)][1..] == [];
      } else {
        UnmatchedOfMatched(OuterRowsOf(r, matches));
        assert matches[0] in matches;
        assert !IsOrphan(r, tracks);
      }
    }
  }

  /** `getAllOrphans`: every release that no track refers to, each once, in table order. */
  function GetAllOrphans(releases: seq<Release>, tracks: seq<Track>): (r: seq<Release>)
    ensures r == Where(releases, OrphanIn(tracks))
    ensures forall x :: x in r ==> x in releases && IsOrphan(x, tracks)
    ensures forall x :: x in releases && IsOrphan(x, tracks) ==> x in r
    ensures NoDuplicates(releases) ==> NoDuplicates(r)
  {
    AntiJoinIsOrphanFilter(releases, tracks);
    UnmatchedReleases(LeftOuterJoin(releases, tracks))
  }

  /** A track referring to an orphan takes it out of the orphan list; without that track it is back. */
  lemma OrphanAdopted(releases: seq<Release>, tracks: seq<Track>, t: Track, r: Release)
    requires r in releases && IsOrphan(r, tracks) && t.releaseId == Some(r.id)
    ensures r in GetAllOrphans(releases, tracks)
    ensures r !in GetAllOrphans(releases, tracks + [t])
  {
  }

  // ---------------------------------------------------------------------------
  // Listing

  /** A row of `release r INNER JOIN track t ON t.release_id = r.id INNER JOIN artist a ON a.id = t.artist_id`. */
  datatype JoinedRow = JoinedRow(release: Release, track: Track, artistId: Id)

  /** The track belongs to the release and its artist reference names a row of the artist table. */
  predicate Joins(r: Release, t: Track, artists: set<Id>) {
    t.releaseId == Some(r.id) && t.artistId.Some? && t.artistId.value in artists
  }

  function JoinedRowsOf(r: Release, tracks: seq<Track>, artists: set<Id>): (rows: seq<JoinedRow>)
    ensures forall row :: row in rows ==>
              row.release == r && row.track in tracks && Joins(r, row.track, artists) && row.track.artistId == Some(row.artistId)
    ensures forall t :: t in tracks && Joins(r, t, artists) ==> JoinedRow(r, t, t.artistId.value) in rows
  {
    if tracks == [] then []
    else
      var t := tracks[0];
      (if Joins(r, t, artists) then [JoinedRow(r, t, t.artistId.value)] else []) + JoinedRowsOf(r, tracks[1..], artists)
  }

  function InnerJoin(releases: seq<Release>, tracks: seq<Track>, artists: set<Id>): (rows: seq<JoinedRow>)
    ensures forall row :: row in rows ==>
              row.release in releases && row.track in tracks && Joins(row.release, row.track, artists) &&
              row.track.artistId == Some(row.artistId)
    ensures forall r, t :: r in releases && t in tracks && Joins(r, t, artists) ==> JoinedRow(r, t, t.artistId.value) in rows
  {
    if releases == [] then []
    else JoinedRowsOf(releases[0], tracks, artists) + InnerJoin(releases[1..], tracks, artists)
  }

  /** One `where("a.id = ?")` per requested artist id; the mapper joins them with AND. */
  predicate MatchesEvery(row: JoinedRow, artistIds: seq<int>) {
    forall k :: 0 <= k < |artistIds| ==> artistIds[k] == row.artistId
  }

  function ArtistFilter(artistIds: seq<int>): JoinedRow -> bool {
    (row: JoinedRow) => MatchesEvery(row, artistIds)
  }

  /** `SELECT r`. */
  function SelectRelease(rows: seq<JoinedRow>): (r: seq<Release>)
    ensures |r| == |rows|
    ensures forall k :: 0 <= k < |rows| ==> r[k] == rows[k].release
  {
    seq(|rows|, k requires 0 <= k < |rows| => rows[k].release)
  }

  /** `groupBy("r")`: one row per release, kept where it first appears. */
  function GroupBy(s: seq<Release>): (r: seq<Release>)
    ensures forall x :: x in r ==> x in s
    ensures forall x :: x in s ==> x in r
    ensures NoDuplicates(r)
  {
    if s == [] then []
    else
      var rest := GroupBy(s[..|s| - 1]);
      var last := s[|s| - 1];
      assert s == s[..|s| - 1] + [last];
      if last in rest then rest else rest + [last]
  }

  /** Grouping rows that are already distinct keeps them as they are. */
  lemma {:induction false} GroupByDistinct(s: seq<Release>)
    requires NoDuplicates(s)
    ensures GroupBy(s) == s
  {
    if s != [] {
      var init := s[..|s| - 1];
      assert NoDuplicates(init);
      GroupByDistinct(init);
      assert s[|s| - 1] !in init;
      assert s == init + [s[|s| - 1]];
    }
  }

  /** A duplicate-free selection has as many rows as distinct releases. */
  lemma {:induction false} DistinctCard(a: seq<Release>)
    requires NoDuplicates(a)
    ensures |set x | x in a| == |a|
  {
    if a != [] {
      var init := a[..|a| - 1];
      var last := a[|a| - 1];
      assert NoDuplicates(init);
      DistinctCard(init);
      assert a == init + [last];
      assert last !in init;
      assert (set x | x in a) == (set x | x in init) + {last};
    }
  }

  /** The number of rows an offset skips in a result of `n` rows: none when negative, at most all of them. */
  function Skipped(offset: int, n: nat): (k: nat)
    ensures k <= n
    ensures offset <= 0 ==> k == 0
    ensures 0 <= offset <= n ==> k == offset
    ensures offset >= n ==> k == n
  {
    if offset < 0 then 0 else Min(offset, n)
  }

  /**
   * `offset(offset).limit(size)`: the rows from position `offset` on, at
   * most `size` of them. A negative offset skips nothing and a negative
   * limit keeps every remaining row.
   */
  function Window(s: seq<Release>, offset: int, size: int): (r: seq<Release>)
    ensures |r| == if size < 0 then |s| - Skipped(offset, |s|) else Min(size, |s| - Skipped(offset, |s|))
    ensures forall x :: x in r ==> x in s
    ensures NoDuplicates(s) ==> NoDuplicates(r)
    ensures 0 <= offset && 0 <= size && offset + size <= |s| ==> r == s[offset..offset + size]
    ensures 0 <= offset <= |s| && (size < 0 || offset + size > |s|) ==> r == s[offset..]
    ensures offset < 0 && 0 <= size <= |s| ==> r == s[..size]
    ensures offset < 0 && (size < 0 || size > |s|) ==> r == s
    ensures offset >= |s| ==> r == []
  {
    var start := Skipped(offset, |s|);
    var end := if size < 0 then |s| else Min(start + size, |s|);
    s[start..end]
  }

  /** The releases of the table that `getAll` lists before pagination. */
  function Qualifying(releases: seq<Release>, tracks: seq<Track>, artists: set<Id>, artistIds: seq<int>): set<Release> {
    set x | x in releases && Qualifies(x, tracks, artists, artistIds)
  }

  /** The release is listed by `getAll(artistIds, ...)` before pagination. */
  predicate Qualifies(r: Release, tracks: seq<Track>, artists: set<Id>, artistIds: seq<int>) {
    artistIds == [] ||
    exists t :: t in tracks && Joins(r, t, artists) && forall k :: 0 <= k < |artistIds| ==> artistIds[k] == t.artistId.value
  }

  /**
   * `getAll(artistIds, offset, size)`: without artist ids, every release;
   * with them, the releases joined to a track whose artist row carries every
   * requested id; grouped by release, then paginated.
   */
  function GetAll(releases: seq<Release>, tracks: seq<Track>, artists: set<Id>, artistIds: seq<int>, offset: int, size: int)
    : (r: seq<Release>)
    ensures var n := |Qualifying(releases, tracks, artists, artistIds)|;
              |r| == if size < 0 then n - Skipped(offset, n) else Min(size, n - Skipped(offset, n))
    ensures NoDuplicates(r)
    ensures forall x :: x in r ==> x in releases && Qualifies(x, tracks, artists, artistIds)
    ensures offset <= 0 && (size < 0 || size >= |Qualifying(releases, tracks, artists, artistIds)|) ==>
              forall x :: x in releases && Qualifies(x, tracks, artists, artistIds) ==> x in r
  {
    var grouped := GroupBy(Selected(releases, tracks, artists, artistIds));
    QualifyingSelected(releases, tracks, artists, artistIds);
    DistinctCard(grouped);
    assert (set x | x in grouped) == Qualifying(releases, tracks, artists, artistIds);
    Window(grouped, offset, size)
  }

  /** The rows `SELECT r` yields before grouping: the bare release table, or the filtered three-way join. */
  function Selected(releases: seq<Release>, tracks: seq<Track>, artists: set<Id>, artistIds: seq<int>): seq<Release> {
    if artistIds == [] then releases
    else SelectRelease(Where(InnerJoin(releases, tracks, artists), ArtistFilter(artistIds)))
  }

  /** The pre-grouping selection holds exactly the qualifying releases of the table. */
  lemma QualifyingSelected(releases: seq<Release>, tracks: seq<Track>, artists: set<Id>, artistIds: seq<int>)
    ensures forall x :: x in Selected(releases, tracks, artists, artistIds) <==>
              x in releases && Qualifies(x, tracks, artists, artistIds)
  {
  }

  /** Without artist ids the listing is a plain window of the release table. */
  lemma GetAllUnfiltered(releases: seq<Release>, tracks: seq<Track>, artists: set<Id>, offset: int, size: int)
    requires UniqueKeys(releases, ReleaseId)
    ensures 0 <= offset && 0 <= size && offset + size <= |releases| ==>
              GetAll(releases, tracks, artists, [], offset, size) == releases[offset..offset + size]
    ensures 0 <= offset <= |releases| && (size < 0 || offset + size > |releases|) ==>
              GetAll(releases, tracks, artists, [], offset, size) == releases[offset..]
    ensures offset < 0 && 0 <= size <= |releases| ==> GetAll(releases, tracks, artists, [], offset, size) == releases[..size]
    ensures offset < 0 && (size < 0 || size > |releases|) ==> GetAll(releases, tracks, artists, [], offset, size) == releases
    ensures offset >= |releases| ==> GetAll(releases, tracks, artists, [], offset, size) == []
  {
    UniqueKeysNoDuplicates(releases, ReleaseId);
    GroupByDistinct(releases);
  }

  /** No artist row has a negative id, so a negative id in the list leaves nothing to list. */
  lemma NegativeArtistIdListsNothing(releases: seq<Release>, tracks: seq<Track>, artists: set<Id>, artistIds: seq<int>, offset: int, size: int)
    requires exists k :: 0 <= k < |artistIds| && artistIds[k] < 0
    ensures GetAll(releases, tracks, artists, artistIds, offset, size) == []
  {
  }

  /** With one artist id, a release qualifies exactly when one of its tracks is by that (existing) artist. */
  lemma SingleArtistFilter(r: Release, tracks: seq<Track>, artists: set<Id>, artistId: Id)
    ensures Qualifies(r, tracks, artists, [artistId]) <==>
              artistId in artists && exists t :: t in tracks && t.releaseId == Some(r.id) && t.artistId == Some(artistId)
  {
    var ids := [artistId];
    if artistId in artists && exists t :: t in tracks && t.releaseId == Some(r.id) && t.artistId == Some(artistId) {
      var t :| t in tracks && t.releaseId == Some(r.id) && t.artistId == Some(artistId);
      assert Joins(r, t, artists);
    }
    if Qualifies(r, tracks, artists, ids) {
      var t :| t in tracks && Joins(r, t, artists) && forall k :: 0 <= k < |ids| ==> ids[k] == t.artistId.value;
      assert ids[0] == t.artistId.value;
    }
  }

  /**
   * Because every requested id must equal the artist of one joined row,
   * two different ids in the list leave nothing to list.
   */
  lemma DistinctArtistIdsListNothing(releases: seq<Release>, tracks: seq<Track>, artists: set<Id>, artistIds: seq<int>, offset: int, size: int)
    requires exists i, j :: 0 <= i < |artistIds| && 0 <= j < |artistIds| && artistIds[i] != artistIds[j]
    ensures GetAll(releases, tracks, artists, artistIds, offset, size) == []
  {
  }

  // ---------------------------------------------------------------------------
  // The store

  /**
   * The release and track tables of one store, with the name limit fixed at
   * construction and the id the store hands to the next created row.
   */
  class Catalog {
    const maxNameLength: nat
    var releases: seq<Release>
    var tracks: seq<Track>
    var artists: set<Id>
    var nextReleaseId: Id

    ghost predicate Valid()
      reads this
    {
      && maxNameLength > 0
      && UniqueKeys(releases, ReleaseId)
      && NamesWithin(releases, maxNameLength)
      && (forall r :: r in releases ==> r.id < nextReleaseId)
    }

    /** Opens a store holding the given tables. */
    constructor (maxNameLength: nat, releases: seq<Release>, tracks: seq<Track>, artists: set<Id>, nextReleaseId: Id)
      requires maxNameLength > 0 && UniqueKeys(releases, ReleaseId) && NamesWithin(releases, maxNameLength)
      requires forall r :: r in releases ==> r.id < nextReleaseId
      ensures Valid()
      ensures this.maxNameLength == maxNameLength && this.releases == releases && this.tracks == tracks
      ensures this.artists == artists && this.nextReleaseId == nextReleaseId
    {
      this.maxNameLength := maxNameLength;
      this.releases := releases;
      this.tracks := tracks;
      this.artists := artists;
      this.nextReleaseId := nextReleaseId;
    }

    /** `create(name)`: appends one release with a fresh id and the truncated name; nothing else changes. */
    method Create(name: string) returns (r: Release)
      requires Valid()
      modifies this
      ensures Valid()
      ensures r == NewRelease(old(nextReleaseId), name, maxNameLength)
      ensures forall x :: x in old(releases) ==> x.id != r.id
      ensures releases == old(releases) + [r]
      ensures nextReleaseId == old(nextReleaseId) + 1
      ensures tracks == old(tracks) && artists == old(artists)
      ensures FindByName(releases, name, maxNameLength) != Null
      ensures old(FindByName(releases, name, maxNameLength)).Null? ==> FindByName(releases, name, maxNameLength) == Ptr(r)
    {
      r := NewRelease(nextReleaseId, name, maxNameLength);
      FindAfterCreate(releases, r.id, name, name, maxNameLength);
      releases := releases + [r];
      nextReleaseId := nextReleaseId + 1;
    }

    /**
     * `getNone()`: the "<None>" row if one exists, otherwise a freshly
     * created one. Several existing rows of that name make the lookup, and
     * so the call, fail with the no-unique-result exception.
     */
    method GetNone() returns (res: Pointer<Release>)
      requires Valid()
      modifies this
      ensures Valid()
      ensures tracks == old(tracks) && artists == old(artists)
      ensures old(FindByName(releases, NoneName, maxNameLength)).Null? ==>
                && res == Ptr(NewRelease(old(nextReleaseId), NoneName, maxNameLength))
                && releases == old(releases) + [res.value]
                && nextReleaseId == old(nextReleaseId) + 1
      ensures !old(FindByName(releases, NoneName, maxNameLength)).Null? ==>
                && res == old(FindByName(releases, NoneName, maxNameLength))
                && releases == old(releases) && nextReleaseId == old(nextReleaseId)
      ensures !res.Null?
      ensures res.Ptr? ==> FindByName(releases, NoneName, maxNameLength) == res
    {
      res := FindByName(releases, NoneName, maxNameLength);
      if res.Null? {
        var r := Create(NoneName);
        res := Ptr(r);
      }
    }

    /** `getDuration()`: the durations of the release's tracks, added up one track at a time. */
    method GetDuration(release: Release) returns (d: nat)
      ensures d == TotalDuration(TracksOf(tracks, release.id))
    {
      var ts := TracksOf(tracks, release.id);
      d := 0;
      var i := 0;
      while i < |ts|
        invariant 0 <= i <= |ts|
        invariant d == TotalDuration(ts[..i])
      {
        TotalDurationAppend(ts[..i], [ts[i]]);
        assert ts[..i + 1] == ts[..i] + [ts[i]];
        d := d + ts[i].duration;
        i := i + 1;
      }
      assert ts[..i] == ts;
    }
  }

  /** Every row of a store is found again by looking up its stored name. */
  lemma StoredNameFound(c: Catalog, r: Release)
    requires c.Valid() && r in c.releases
    ensures FindByName(c.releases, r.name, c.maxNameLength) != Null
  {
  }

  /** A second `getNone()` returns the row the first returned and creates nothing. */
  method GetNoneTwice(c: Catalog) returns (first: Pointer<Release>, second: Pointer<Release>)
    requires c.Valid()
    modifies c
    ensures c.Valid()
    ensures second == first
    ensures |c.releases| <= |old(c.releases)| + 1
    ensures |c.releases| == |old(c.releases)| + 1 <==> old(FindByName(c.releases, NoneName, c.maxNameLength)).Null?
  {
    first := c.GetNone();
    ghost var afterFirst := c.releases;
    second := c.GetNone();
    assert c.releases == afterFirst;
  }
}
