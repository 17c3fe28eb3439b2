/** The movie plugin's rules as values: the store of movies, releases and
    quality profiles, and what `restatus`, `delete`, `add` and
    `availableChars` make of it; plus the request parsing of `list`. */
module MovieRules {
  import opened Optional
  import opened Statuses
  import opened Records

  /** What the movie plugin hands to other plugins. */
  datatype MovieEvent =
    | LibraryUpdate(identifier: string, defaultTitle: string)   // `library.update`
    | SearchMovie(movieId: int)                                 // `searcher.single`

  /** The tables the movie plugin reads and writes; `profiles` maps a profile
      id to its quality types. */
  datatype Store = Store(
    movies: map<int, Media>,
    releases: map<int, Release>,
    profiles: map<int, seq<QualityType>>,
    events: seq<MovieEvent>)

  /** The ids of the releases that belong to a movie. */
  function ReleasesOf(releases: map<int, Release>, movieId: int): (ids: set<int>)
    ensures ids <= releases.Keys
    ensures forall r :: r in ids <==> r in releases && releases[r].mediaId == movieId
  {
    set r | r in releases && releases[r].mediaId == movieId
  }

  /** The release table without the given rows. */
  function Without(releases: map<int, Release>, gone: set<int>): (r: map<int, Release>)
    ensures r.Keys == releases.Keys - gone
    ensures forall k :: k in r ==> r[k] == releases[k]
  {
    map k | k in releases && k !in gone :: releases[k]
  }

  /** Removing rows one batch after another is removing them all at once. */
  lemma WithoutTwice(releases: map<int, Release>, a: set<int>, b: set<int>)
    ensures Without(Without(releases, a), b) == Without(releases, a + b)
  {
  }

  // ------------------------------------------------------------ restatus

  /** Some `finish` type of the profile has a done release of its quality. */
  ghost predicate FinishedBy(types: seq<QualityType>, releases: map<int, Release>, movieId: int) {
    exists k, r :: 0 <= k < |types| && r in releases && releases[r].mediaId == movieId &&
      types[k].finish && types[k].qualityId == releases[r].qualityId && releases[r].status == Done
  }

  /** The status `restatus` gives a movie: done without a profile, done when
      its profile is finished by a done release, active otherwise. */
  ghost function RestatusTarget(st: Store, movieId: int): (s: Status)
    requires movieId in st.movies
    ensures s == Active || s == Done
    ensures s == Active <==> (st.movies[movieId].profileId in st.profiles &&
      !FinishedBy(st.profiles[st.movies[movieId].profileId], st.releases, movieId))
  {
    var m := st.movies[movieId];
    if m.profileId !in st.profiles then Done
    else if FinishedBy(st.profiles[m.profileId], st.releases, movieId) then Done
    else Active
  }

  /** `restatus(movie_id)`; the flag is false when the call raises (no such
      movie, or a movie without titles, whose first title it logs), and then
      nothing changes. */
  ghost function Restatused(st: Store, movieId: int): (r: (Store, bool))
    ensures r.1 <==> movieId in st.movies && st.movies[movieId].titles != []
    ensures !r.1 ==> r.0 == st
    ensures r.1 ==> r.0.movies.Keys == st.movies.Keys && r.0.movies[movieId].status == RestatusTarget(st, movieId)
    ensures r.0.releases == st.releases && r.0.profiles == st.profiles && r.0.events == st.events
    ensures forall k :: k in st.movies && k != movieId ==> k in r.0.movies && r.0.movies[k] == st.movies[k]
  {
    if movieId !in st.movies || st.movies[movieId].titles == [] then (st, false)
    else (st.(movies := st.movies[movieId := st.movies[movieId].(status := RestatusTarget(st, movieId))]), true)
  }

  /** The rule does not look at the movie's current status, so restatus twice
      is restatus once. */
  lemma RestatusIdempotent(st: Store, movieId: int)
    ensures Restatused(Restatused(st, movieId).0, movieId) == Restatused(st, movieId)
  {
    var (st1, ok) := Restatused(st, movieId);
    if ok {
      var m := st.movies[movieId];
      assert st1.movies[movieId].profileId == m.profileId;
      assert RestatusTarget(st1, movieId) == RestatusTarget(st, movieId);
      assert st1.movies[movieId := st1.movies[movieId].(status := RestatusTarget(st1, movieId))] == st1.movies;
    }
  }

  /** A done release of a finishing quality keeps a movie with a profile done,
      whatever other releases it has. */
  lemma FinishedStaysDone(st: Store, movieId: int, releaseId: int, k: int)
    requires movieId in st.movies && st.movies[movieId].profileId in st.profiles
    requires 0 <= k < |st.profiles[st.movies[movieId].profileId]|
    requires releaseId in st.releases && st.releases[releaseId].mediaId == movieId
    requires st.profiles[st.movies[movieId].profileId][k].finish
    requires st.profiles[st.movies[movieId].profileId][k].qualityId == st.releases[releaseId].qualityId
    requires st.releases[releaseId].status == Done
    ensures RestatusTarget(st, movieId) == Done
  {
    assert FinishedBy(st.profiles[st.movies[movieId].profileId], st.releases, movieId);
  }

  // ------------------------------------------------------------ delete

  /** `delete_from` as the loop reads it. */
  datatype DeleteMode = WholeMovie | Wanted | Manage | OtherMode

  function ModeOf(from: Option<string>): DeleteMode {
    if from == Some("all") then WholeMovie
    else if from == Some("wanted") then Wanted
    else if from == Some("manage") then Manage
    else OtherMode
  }

  /** The releases `delete` removes in a mode: the ones not done for 'wanted',
      the done ones for 'manage', none for anything else. */
  function Doomed(releases: map<int, Release>, movieId: int, mode: DeleteMode): (d: set<int>)
    ensures d <= ReleasesOf(releases, movieId)
    ensures forall r :: r in d <==> r in releases && releases[r].mediaId == movieId && Condemned(mode, releases[r].status)
  {
    set r | r in releases && releases[r].mediaId == movieId && Condemned(mode, releases[r].status)
  }

  predicate Condemned(mode: DeleteMode, s: Status) {
    (mode == Wanted && s != Done) || (mode == Manage && s == Done)
  }

  /** The status the loop settles on: set only when there is a release to loop over. */
  function DeleteTarget(mode: DeleteMode, hasReleases: bool): (t: Option<Status>)
    ensures t.Some? <==> hasReleases && (mode == Wanted || mode == Manage)
  {
    if !hasReleases then None
    else if mode == Wanted then Some(Done)
    else if mode == Manage then Some(Active)
    else None
  }

  /** `delete(movie_id, delete_from)`. 'all' drops the movie with its
      releases; otherwise the doomed releases go, then the movie goes when
      none is left, or takes the loop's target status, or is restatused. */
  ghost function Deleted(st: Store, movieId: int, from: Option<string>): (r: Store)
    ensures r.profiles == st.profiles && r.events == st.events
    ensures movieId !in st.movies ==> r == st
    ensures r.movies.Keys <= st.movies.Keys
    ensures forall k :: k in st.movies && k != movieId ==> k in r.movies && r.movies[k] == st.movies[k]
    ensures movieId in st.movies ==>
      r.releases == Without(st.releases, if from == Some("all") then ReleasesOf(st.releases, movieId) else Doomed(st.releases, movieId, ModeOf(from)))
    ensures forall k :: k in st.releases && st.releases[k].mediaId != movieId ==> k in r.releases && r.releases[k] == st.releases[k]
    ensures movieId in st.movies ==>
      (movieId !in r.movies <==> from == Some("all") || Doomed(st.releases, movieId, ModeOf(from)) == ReleasesOf(st.releases, movieId))
  {
    if movieId !in st.movies then st
    else if from == Some("all") then
      st.(movies := st.movies - {movieId}, releases := Without(st.releases, ReleasesOf(st.releases, movieId)))
    else
      var own := ReleasesOf(st.releases, movieId);
      var doomed := Doomed(st.releases, movieId, ModeOf(from));
      var st1 := st.(releases := Without(st.releases, doomed));
      if doomed == own then st1.(movies := st1.movies - {movieId})
      else match DeleteTarget(ModeOf(from), own != {})
        case Some(s) => st1.(movies := st1.movies[movieId := st1.movies[movieId].(status := s)])
        case None => Restatused(st1, movieId).0
  }

  /** 'all' removes the movie and every one of its releases, nothing else. */
  lemma DeleteAll(st: Store, movieId: int)
    requires movieId in st.movies
    ensures Deleted(st, movieId, Some("all")).movies == st.movies - {movieId}
    ensures ReleasesOf(Deleted(st, movieId, Some("all")).releases, movieId) == {}
    ensures forall r :: r in st.releases && st.releases[r].mediaId != movieId ==>
      r in Deleted(st, movieId, Some("all")).releases
  {
  }

  /** 'wanted' removes exactly the releases not done; if the movie stays, it
      is done and so is every release it keeps. */
  lemma {:induction false} DeleteWanted(st: Store, movieId: int)
    requires movieId in st.movies
    ensures var r := Deleted(st, movieId, Some("wanted"));
      r.releases.Keys == st.releases.Keys - Doomed(st.releases, movieId, Wanted) &&
      (forall k :: k in ReleasesOf(r.releases, movieId) ==> r.releases[k].status == Done) &&
      (movieId in r.movies ==> r.movies[movieId].status == Done)
  {
    var own := ReleasesOf(st.releases, movieId);
    var doomed := Doomed(st.releases, movieId, Wanted);
    if doomed != own {
      assert own != {};
    }
  }

  /** 'manage' removes exactly the done releases; if the movie stays, it is
      active and none of the releases it keeps is done. */
  lemma {:induction false} DeleteManage(st: Store, movieId: int)
    requires movieId in st.movies
    ensures var r := Deleted(st, movieId, Some("manage"));
      r.releases.Keys == st.releases.Keys - Doomed(st.releases, movieId, Manage) &&
      (forall k :: k in ReleasesOf(r.releases, movieId) ==> r.releases[k].status != Done) &&
      (movieId in r.movies ==> r.movies[movieId].status == Active)
  {
    var own := ReleasesOf(st.releases, movieId);
    var doomed := Doomed(st.releases, movieId, Manage);
    if doomed != own {
      assert own != {};
    }
  }

  /** A movie without releases is deleted whatever the mode. */
  lemma DeleteWithoutReleases(st: Store, movieId: int, from: Option<string>)
    requires movieId in st.movies && ReleasesOf(st.releases, movieId) == {}
    ensures movieId !in Deleted(st, movieId, from).movies
  {
  }

  /** Any other mode keeps every release and restatuses a movie that has some. */
  lemma DeleteOtherRestatuses(st: Store, movieId: int, from: Option<string>)
    requires movieId in st.movies && ReleasesOf(st.releases, movieId) != {}
    requires from != Some("all") && from != Some("wanted") && from != Some("manage")
    ensures Deleted(st, movieId, from) == Restatused(st, movieId).0
  {
    assert Doomed(st.releases, movieId, ModeOf(from)) == {};
    assert Without(st.releases, {}) == st.releases;
  }

  // ------------------------------------------------------------ add

  /** The parameters `add` reads: the library row `library.add` returns
      (its id and simple titles), and `identifier`, `title`, `profile_id`. */
  datatype AddRequest = AddRequest(
    libraryId: int,
    libraryTitles: seq<string>,
    identifier: string,
    title: string,        // '' when absent
    profileId: Option<int>)

  ghost predicate UniqueLibraries(movies: map<int, Media>) {
    forall a, b :: a in movies && b in movies && movies[a].libraryId == movies[b].libraryId ==> a == b
  }

  ghost predicate IdsBelow(movies: map<int, Media>, next: int) {
    forall k :: k in movies ==> k < next
  }

  /** The movie on a library, if any. */
  ghost function MovieOn(movies: map<int, Media>, libraryId: int): (r: Option<int>)
    ensures r.Some? ==> r.value in movies && movies[r.value].libraryId == libraryId
    ensures r.None? ==> forall k :: k in movies ==> movies[k].libraryId != libraryId
  {
    if exists k :: k in movies && movies[k].libraryId == libraryId then
      var k :| k in movies && movies[k].libraryId == libraryId; Some(k)
    else None
  }

  function ProfileOf(req: AddRequest, defaultProfile: int): int {
    match req.profileId
    case Some(p) => p
    case None => defaultProfile
  }

  /** The ids of a movie's releases in a given status. */
  function InStatus(releases: map<int, Release>, movieId: int, s: Status): (ids: set<int>)
    ensures ids <= ReleasesOf(releases, movieId)
    ensures forall r :: r in ids <==> r in releases && releases[r].mediaId == movieId && releases[r].status == s
  {
    set r | r in releases && releases[r].mediaId == movieId && releases[r].status == s
  }

  /** `add(params, force_readd)` with the movie id it settles on: a new movie
      (numbered `next`) is created active, asks for a library update and is
      searched; an existing one is left alone, or with `force_readd` loses
      its snatched releases, takes the requested profile and turns active and
      is searched. Available releases are dropped in every case. */
  ghost function Added(st: Store, req: AddRequest, force: bool, defaultProfile: int, next: int, now: int): (r: (Store, int))
    requires next !in st.movies
  {
    match MovieOn(st.movies, req.libraryId)
    case None =>
      var m := Media(req.libraryId, ProfileOf(req, defaultProfile), Active, now, req.libraryTitles);
      var st1 := st.(movies := st.movies[next := m],
                     events := st.events + [LibraryUpdate(req.identifier, req.title)]);
      var st2 := st1.(releases := Without(st1.releases, InStatus(st1.releases, next, Available)));
      (st2.(events := st2.events + [SearchMovie(next)]), next)
    case Some(id) =>
      var m := st.movies[id];
      var st1 := if force then
          st.(releases := Without(st.releases, InStatus(st.releases, id, Snatched)),
              movies := st.movies[id := m.(profileId := ProfileOf(req, defaultProfile), status := Active)])
        else st;
      var st2 := st1.(releases := Without(st1.releases, InStatus(st1.releases, id, Available)));
      (if force then st2.(events := st2.events + [SearchMovie(id)]) else st2, id)
  }

  /** After `add` the movie exists on the library and has no available release. */
  lemma AddLeavesNoAvailable(st: Store, req: AddRequest, force: bool, defaultProfile: int, next: int, now: int)
    requires next !in st.movies
    ensures var (r, id) := Added(st, req, force, defaultProfile, next, now);
      id in r.movies && r.movies[id].libraryId == req.libraryId && InStatus(r.releases, id, Available) == {}
  {
  }

  /** A new movie is active, on the requested (or default) profile, and searched. */
  lemma AddNew(st: Store, req: AddRequest, force: bool, defaultProfile: int, next: int, now: int)
    requires next !in st.movies && MovieOn(st.movies, req.libraryId).None?
    ensures var (r, id) := Added(st, req, force, defaultProfile, next, now);
      id == next && r.movies == st.movies[next := Media(req.libraryId, ProfileOf(req, defaultProfile), Active, now, req.libraryTitles)] &&
      r.events == st.events + [LibraryUpdate(req.identifier, req.title), SearchMovie(next)]
  {
  }

  /** A forced re-add keeps no snatched or available release, takes the
      requested profile, turns active and is searched. */
  lemma AddForced(st: Store, req: AddRequest, defaultProfile: int, next: int, now: int, id: int)
    requires next !in st.movies && MovieOn(st.movies, req.libraryId) == Some(id)
    ensures var r := Added(st, req, true, defaultProfile, next, now).0;
      r.movies[id].status == Active && r.movies[id].profileId == ProfileOf(req, defaultProfile) &&
      InStatus(r.releases, id, Snatched) == {} && r.events == st.events + [SearchMovie(id)]
    ensures var r := Added(st, req, true, defaultProfile, next, now).0;
      && r.movies == st.movies[id := st.movies[id].(profileId := ProfileOf(req, defaultProfile), status := Active)]
      && r.releases == Without(st.releases, InStatus(st.releases, id, Snatched) + InStatus(st.releases, id, Available))
  {
    var snatched := InStatus(st.releases, id, Snatched);
    var rest := Without(st.releases, snatched);
    assert InStatus(rest, id, Available) == InStatus(st.releases, id, Available);
    WithoutTwice(st.releases, snatched, InStatus(st.releases, id, Available));
  }

  /** Without `force_readd` an existing movie keeps its row, and only its
      available releases go. */
  lemma AddKeeps(st: Store, req: AddRequest, defaultProfile: int, next: int, now: int, id: int)
    requires next !in st.movies && MovieOn(st.movies, req.libraryId) == Some(id)
    ensures var r := Added(st, req, false, defaultProfile, next, now).0;
      r.movies == st.movies && r.events == st.events &&
      r.releases.Keys == st.releases.Keys - InStatus(st.releases, id, Available)
  {
  }

  // ------------------------------------------------------------ availableChars

  predicate IsLower(c: char) {
    'a' <= c <= 'z'
  }

  /** The index character of a title: its first letter, or '#' for anything else. */
  function Initial(title: string): (c: char)
    requires title != []
    ensures IsLower(c) || c == '#'
  {
    if IsLower(title[0]) then title[0] else '#'
  }

  /** A movie the `availableChars` query returns: in one of the statuses and
      with a title to join. */
  predicate Listed(m: Media, statuses: set<Status>) {
    m.status in statuses && m.titles != []
  }

  /** `availableChars` over the query's rows in order; None when a listed
      movie's first title is empty (the index raises). */
  function Chars(rows: seq<Media>, statuses: set<Status>): Option<string>
    decreases |rows|
  {
    if rows == [] then Some("")
    else
      match Chars(rows[..|rows| - 1], statuses)
      case None => None
      case Some(acc) =>
        var m := rows[|rows| - 1];
        if !Listed(m, statuses) then Some(acc)
        else if m.titles[0] == "" then None
        else if Initial(m.titles[0]) in acc then Some(acc)
        else Some(acc + [Initial(m.titles[0])])
  }

  /** The characters of the listed rows. */
  function Initials(rows: seq<Media>, statuses: set<Status>): set<char> {
    set i | 0 <= i < |rows| && Listed(rows[i], statuses) && rows[i].titles[0] != "" :: Initial(rows[i].titles[0])
  }

  predicate Distinct(s: string) {
    forall i, j :: 0 <= i < j < |s| ==> s[i] != s[j]
  }

  /** Each character at most once, each a letter or '#', exactly the
      characters of the listed movies; the call fails exactly when a listed
      movie's first title is empty. */
  lemma {:induction false} CharsFacts(rows: seq<Media>, statuses: set<Status>)
    ensures Chars(rows, statuses).None? <==>
      exists i :: 0 <= i < |rows| && Listed(rows[i], statuses) && rows[i].titles[0] == ""
    ensures Chars(rows, statuses).Some? ==>
      var s := Chars(rows, statuses).value;
      Distinct(s) && (forall i :: 0 <= i < |s| ==> IsLower(s[i]) || s[i] == '#') &&
      (forall c :: c in s <==> c in Initials(rows, statuses))
    decreases |rows|
  {
    if rows != [] {
      var front := rows[..|rows| - 1];
      var m := rows[|rows| - 1];
      CharsFacts(front, statuses);
      if Chars(front, statuses).Some? && Listed(m, statuses) && m.titles[0] != "" {
        InitialsStep(rows, statuses);
      } else if Chars(front, statuses).Some? && !Listed(m, statuses) {
        InitialsStep(rows, statuses);
      } else if Chars(front, statuses).None? {
        var i :| 0 <= i < |front| && Listed(front[i], statuses) && front[i].titles[0] == "";
        assert rows[i] == front[i];
      }
    }
  }

  /** The characters of the rows are those of all rows but the last, plus the last one's. */
  lemma InitialsStep(rows: seq<Media>, statuses: set<Status>)
    requires rows != []
    ensures var m := rows[|rows| - 1];
      Initials(rows, statuses) == Initials(rows[..|rows| - 1], statuses) +
        (if Listed(m, statuses) && m.titles[0] != "" then {Initial(m.titles[0])} else {})
  {
    var front := rows[..|rows| - 1];
    var m := rows[|rows| - 1];
    var extra: set<char> := if Listed(m, statuses) && m.titles[0] != "" then {Initial(m.titles[0])} else {};
    forall c | c in Initials(rows, statuses) ensures c in Initials(front, statuses) + extra {
      var i :| 0 <= i < |rows| && Listed(rows[i], statuses) && rows[i].titles[0] != "" && Initial(rows[i].titles[0]) == c;
      if i < |front| { assert front[i] == rows[i]; }
    }
    forall c | c in Initials(front, statuses) ensures c in Initials(rows, statuses) {
      var i :| 0 <= i < |front| && Listed(front[i], statuses) && front[i].titles[0] != "" && Initial(front[i].titles[0]) == c;
      assert rows[i] == front[i];
    }
  }

  /** More rows only add characters at the end: the characters come in the
      order their first movie appears. */
  lemma {:induction false} CharsGrow(rows: seq<Media>, n: nat, statuses: set<Status>)
    requires n <= |rows| && Chars(rows, statuses).Some?
    ensures Chars(rows[..n], statuses).Some?
    ensures Chars(rows[..n], statuses).value <= Chars(rows, statuses).value
    decreases |rows|
  {
    if n < |rows| {
      var front := rows[..|rows| - 1];
      assert front[..n] == rows[..n];
      CharsGrow(front, n, statuses);
    } else {
      assert rows[..n] == rows;
    }
  }

  // ------------------------------------------------------------ list: starts_with

  const AsciiLowercase: string := "abcdefghijklmnopqrstuvwxyz"

  lemma LowercaseLetters()
    ensures forall i :: 0 <= i < |AsciiLowercase| ==> IsLower(AsciiLowercase[i])
  {
    assert |AsciiLowercase| == 26;
    forall i | 0 <= i < 26
      ensures IsLower(AsciiLowercase[i])
    {
      assert AsciiLowercase[i] == ('a' as int + i) as char;
    }
  }

  /** ASCII lower-casing, as `lower` does on ASCII text. */
  function Lower(s: string): (t: string)
    ensures |t| == |s|
    ensures forall i :: 0 <= i < |s| ==> t[i] == (if 'A' <= s[i] <= 'Z' then (s[i] as int + 32) as char else s[i])
  {
    seq(|s|, i requires 0 <= i < |s| => if 'A' <= s[i] <= 'Z' then (s[i] as int + 32) as char else s[i])
  }

  /** Python's `p in s` on strings: p occurs somewhere in s. */
  predicate Occurs(p: string, s: string)
    decreases |s|
  {
    p <= s || (s != [] && Occurs(p, s[1..]))
  }

  lemma {:induction false} OccursAt(p: string, s: string, k: nat)
    requires k + |p| <= |s| && s[k..k + |p|] == p
    ensures Occurs(p, s)
    decreases k
  {
    if k > 0 {
      assert s[1..][k - 1..k - 1 + |p|] == s[k..k + |p|];
      OccursAt(p, s[1..], k - 1);
    }
  }

  /** Whatever occurs in a text of lowercase letters is made of them. */
  lemma {:induction false} OccursLower(p: string, s: string)
    requires forall i :: 0 <= i < |s| ==> IsLower(s[i])
    ensures Occurs(p, s) ==> forall i :: 0 <= i < |p| ==> IsLower(p[i])
    decreases |s|
  {
    if s != [] {
      OccursLower(p, s[1..]);
    }
  }

  /** How `list` filters on `starts_with`. */
  datatype TitleFilter =
    | AnyTitle               // no starts_with
    | LetterPrefix(p: string) // titles starting with p
    | NonLetter              // titles not starting with a letter

  /** `starts_with` lowered, a prefix filter when it occurs in
      `ascii_lowercase`, the "not a letter" filter otherwise. */
  function Classify(startsWith: string): (f: TitleFilter)
    ensures startsWith == "" <==> f == AnyTitle
    ensures f.LetterPrefix? ==> f.p == Lower(startsWith) && f.p != "" && forall i :: 0 <= i < |f.p| ==> IsLower(f.p[i])
  {
    if startsWith == "" then AnyTitle
    else if Occurs(Lower(startsWith), AsciiLowercase) then
      LowercaseLetters(); OccursLower(Lower(startsWith), AsciiLowercase); LetterPrefix(Lower(startsWith))
    else NonLetter
  }

  predicate Selects(f: TitleFilter, title: string) {
    match f
    case AnyTitle => true
    case LetterPrefix(p) => p <= title
    case NonLetter => title == [] || !IsLower(title[0])
  }

  /** A run of consecutive lowercase letters, the only strings that occur in
      the alphabet. */
  predicate AlphabetRun(p: string) {
    && p != []
    && (forall i :: 0 <= i < |p| ==> IsLower(p[i]))
    && (forall i :: 0 <= i < |p| - 1 ==> p[i + 1] as int == p[i] as int + 1)
  }

  lemma AlphabetCodes()
    ensures |AsciiLowercase| == 26
    ensures forall i :: 0 <= i < 26 ==> AsciiLowercase[i] as int == 'a' as int + i
  {
    forall i | 0 <= i < 26
      ensures AsciiLowercase[i] as int == 'a' as int + i
    {
      assert AsciiLowercase[i] == ('a' as int + i) as char;
    }
  }

  /** Where `p in s` finds `p`. */
  lemma {:induction false} OccursWhere(p: string, s: string) returns (k: nat)
    requires Occurs(p, s)
    ensures k + |p| <= |s| && s[k..k + |p|] == p
    decreases |s|
  {
    if p <= s {
      k := 0;
    } else {
      var k' := OccursWhere(p, s[1..]);
      k := k' + 1;
      assert s[1..][k'..k' + |p|] == s[k..k + |p|];
    }
  }

  /** Consecutive codes climb one per position. */
  lemma {:induction false} RunCodes(p: string, n: nat)
    requires p != [] && n < |p|
    requires forall i :: 0 <= i < |p| - 1 ==> p[i + 1] as int == p[i] as int + 1
    ensures p[n] as int == p[0] as int + n
  {
    if n > 0 {
      RunCodes(p, n - 1);
    }
  }

  /** Whatever occurs in the alphabet is a run of consecutive letters. */
  lemma OccursIsRun(p: string)
    requires p != [] && Occurs(p, AsciiLowercase)
    ensures AlphabetRun(p)
  {
    AlphabetCodes();
    var k := OccursWhere(p, AsciiLowercase);
    forall i | 0 <= i < |p|
      ensures p[i] as int == 'a' as int + k + i
    {
      assert p[i] == AsciiLowercase[k + i];
    }
  }

  /** Every run of consecutive letters occurs in the alphabet. */
  lemma RunOccurs(p: string)
    requires AlphabetRun(p)
    ensures Occurs(p, AsciiLowercase)
  {
    AlphabetCodes();
    var k := p[0] as int - 'a' as int;
    forall i | 0 <= i < |p|
      ensures p[i] as int == 'a' as int + k + i
    {
      RunCodes(p, i);
    }
    assert IsLower(p[|p| - 1]);
    assert AsciiLowercase[k..k + |p|] == p by {
      forall i | 0 <= i < |p|
        ensures AsciiLowercase[k..k + |p|][i] == p[i]
      {
        assert AsciiLowercase[k + i] as int == p[i] as int;
      }
    }
    OccursAt(p, AsciiLowercase, k);
  }

  /** `Classify` without `Occurs`: a non-empty parameter filters on a prefix
      exactly when, lowered, it is a run of consecutive letters, and on "not
      a letter" otherwise. */
  lemma ClassifyLetters(s: string)
    requires s != ""
    ensures Classify(s).LetterPrefix? <==> AlphabetRun(Lower(s))
    ensures Classify(s) == NonLetter <==> !AlphabetRun(Lower(s))
  {
    if Occurs(Lower(s), AsciiLowercase) {
      OccursIsRun(Lower(s));
    }
    if AlphabetRun(Lower(s)) {
      RunOccurs(Lower(s));
    }
  }

  /** Letters out of alphabetical order are not a letter filter. */
  lemma UnorderedIsNonLetter()
    ensures Classify("ba") == NonLetter
  {
    var s := "ba";
    ClassifyLetters(s);
    assert Lower(s)[0] == 'b' && Lower(s)[1] == 'a';
    assert !AlphabetRun(Lower(s));
  }

  /** A single letter, either case, filters on its lower-case form. */
  lemma {:induction false} LetterFilters(c: char)
    requires IsLower(c) || 'A' <= c <= 'Z'
    ensures Classify([c]) == LetterPrefix(Lower([c]))
    ensures IsLower(c) ==> Lower([c]) == [c]
  {
    var l := Lower([c])[0];
    assert Lower([c]) == [l];
    var k := l as int - 'a' as int;
    assert AsciiLowercase[k] == l;
    assert AsciiLowercase[k..k + 1] == [l];
    OccursAt([l], AsciiLowercase, k);
  }

  /** '#' filters on "not a letter". */
  lemma HashFilters()
    ensures Classify("#") == NonLetter
  {
    assert Lower("#") == "#";
    LowercaseLetters();
    OccursLower("#", AsciiLowercase);
    assert !IsLower("#"[0]);
  }

  /** Choosing the character `availableChars` shows for a title lists
      exactly the titles with that character: '#' the ones not starting with
      a letter, a letter the ones starting with it. */
  lemma IndexCharSelects(t: string, u: string)
    requires t != [] && u != []
    ensures Selects(Classify([Initial(t)]), u) <==> Initial(u) == Initial(t)
  {
    var c := Initial(t);
    if IsLower(c) {
      LetterFilters(c);
      assert [c] <= u <==> u[0] == c;
    } else {
      HashFilters();
    }
  }

  // ------------------------------------------------------------ list: limit_offset

  /** The characters `strip` removes from ASCII text. */
  predicate IsSpace(c: char) {
    c == ' ' || '\t' <= c <= '\r'
  }

  function StripLeft(s: string): (t: string)
    ensures |t| <= |s| && t == s[|s| - |t|..]
    ensures t == [] || !IsSpace(t[0])
    ensures forall k :: 0 <= k < |s| - |t| ==> IsSpace(s[k])
    decreases |s|
  {
    if s != [] && IsSpace(s[0]) then StripLeft(s[1..]) else s
  }

  function StripRight(s: string): (t: string)
    ensures |t| <= |s| && t == s[..|t|]
    ensures t == [] || !IsSpace(t[|t| - 1])
    ensures forall k :: |t| <= k < |s| ==> IsSpace(s[k])
    decreases |s|
  {
    if s != [] && IsSpace(s[|s| - 1]) then StripRight(s[..|s| - 1]) else s
  }

  /** `x.strip()`. */
  function Strip(s: string): string {
    StripRight(StripLeft(s))
  }

  /** Stripping removes exactly the white space around a piece. */
  lemma {:induction false} StripPadding(pre: string, x: string, post: string)
    requires forall k :: 0 <= k < |pre| ==> IsSpace(pre[k])
    requires forall k :: 0 <= k < |post| ==> IsSpace(post[k])
    requires x == [] || (!IsSpace(x[0]) && !IsSpace(x[|x| - 1]))
    ensures Strip(pre + x + post) == x
  {
    var s := pre + x + post;
    if x != [] {
      assert s == pre + (x + post);
      StripLeftPadding(pre, x + post);
      StripRightPadding(x, post);
    } else {
      assert forall k :: 0 <= k < |s| ==> IsSpace(s[k]) by {
        forall k | 0 <= k < |s| ensures IsSpace(s[k]) {
          if k < |pre| { assert s[k] == pre[k]; } else { assert s[k] == post[k - |pre|]; }
        }
      }
      assert |StripLeft(s)| == 0;
    }
  }

  lemma StripLeftPadding(pre: string, rest: string)
    requires forall k :: 0 <= k < |pre| ==> IsSpace(pre[k])
    requires rest != [] && !IsSpace(rest[0])
    ensures StripLeft(pre + rest) == rest
  {
    var s := pre + rest;
    assert !IsSpace(s[|pre|]);
    assert forall k :: 0 <= k < |pre| ==> IsSpace(s[k]);
    assert |StripLeft(s)| == |rest|;
  }

  lemma StripRightPadding(x: string, post: string)
    requires forall k :: 0 <= k < |post| ==> IsSpace(post[k])
    requires x != [] && !IsSpace(x[|x| - 1])
    ensures StripRight(x + post) == x
  {
    var s := x + post;
    assert !IsSpace(s[|x| - 1]);
    assert forall k :: |x| <= k < |s| ==> IsSpace(s[k]);
    assert |StripRight(s)| == |x|;
  }

  /** The first comma. */
  function CommaIndex(s: string): (k: nat)
    requires ',' in s
    ensures k < |s| && s[k] == ',' && ',' !in s[..k]
  {
    if s[0] == ',' then 0
    else
      assert ',' in s[1..] by {
        var i :| 0 <= i < |s| && s[i] == ',';
        assert s[1..][i - 1] == ',';
      }
      var k := CommaIndex(s[1..]) + 1;
      assert s[..k] == [s[0]] + s[1..][..k - 1];
      k
  }

  /** `s.split(',')`. */
  function Split(s: string): (parts: seq<string>)
    ensures |parts| >= 1
    ensures forall i :: 0 <= i < |parts| ==> ',' !in parts[i]
    ensures Join(parts) == s
    decreases |s|
  {
    if ',' !in s then [s]
    else
      var k := CommaIndex(s);
      var rest := Split(s[k + 1..]);
      var parts := [s[..k]] + rest;
      assert parts[1..] == rest;
      assert s == s[..k] + "," + s[k + 1..];
      parts
  }

  /** `','.join(parts)`. */
  function Join(parts: seq<string>): string
    requires |parts| >= 1
  {
    if |parts| == 1 then parts[0] else parts[0] + "," + Join(parts[1..])
  }

  /** The first comma after a comma-free piece is the one that ends it. */
  lemma {:induction false} CommaAfter(a: string, b: string)
    requires ',' !in a
    ensures CommaIndex(a + "," + b) == |a|
    decreases |a|
  {
    var s := a + "," + b;
    if a != [] {
      assert s[0] == a[0];
      assert s[1..] == a[1..] + "," + b;
      CommaAfter(a[1..], b);
    }
  }

  /** Splitting what was joined from comma-free pieces gives the pieces back. */
  lemma {:induction false} SplitJoin(parts: seq<string>)
    requires |parts| >= 1 && forall i :: 0 <= i < |parts| ==> ',' !in parts[i]
    ensures Split(Join(parts)) == parts
    decreases |parts|
  {
    if |parts| > 1 {
      var rest := Join(parts[1..]);
      var s := parts[0] + "," + rest;
      assert Join(parts) == s;
      CommaAfter(parts[0], rest);
      assert s[..|parts[0]|] == parts[0];
      assert s[|parts[0]| + 1..] == rest;
      SplitJoin(parts[1..]);
      assert parts == [parts[0]] + parts[1..];
    } else {
      assert ',' !in Join(parts);
    }
  }

  /** A `limit_offset` of "N" or "N,M": the limit text, and the offset text
      or None for the integer 0. */
  datatype Window = Window(limit: string, offset: Option<string>)

  /** The window `list` applies; None when `limit_offset` is empty. */
  function ParseLimitOffset(limitOffset: string): (w: Option<Window>)
    ensures w.None? <==> limitOffset == ""
  {
    if limitOffset == "" then None
    else
      var parts := Split(limitOffset);
      Some(Window(Strip(parts[0]), if |parts| == 1 then None else Some(Strip(parts[1]))))
  }

  /** "N" gives limit N and offset 0. */
  lemma LimitOnly(n: string)
    requires n != "" && ',' !in n
    ensures ParseLimitOffset(n) == Some(Window(Strip(n), None))
  {
  }

  /** "N,M" (and "N,M,..." alike) gives limit N and offset M, stripped. */
  lemma LimitAndOffset(parts: seq<string>)
    requires |parts| >= 2 && forall i :: 0 <= i < |parts| ==> ',' !in parts[i]
    ensures ParseLimitOffset(Join(parts)) == Some(Window(Strip(parts[0]), Some(Strip(parts[1]))))
  {
    SplitJoin(parts);
    JoinNonEmpty(parts);
    ParsePieces(Join(parts));
  }

  lemma JoinNonEmpty(parts: seq<string>)
    requires |parts| >= 2
    ensures Join(parts) != ""
  {
    assert Join(parts) == parts[0] + "," + Join(parts[1..]);
  }

  lemma ParsePieces(s: string)
    requires s != "" && |Split(s)| >= 2
    ensures ParseLimitOffset(s) == Some(Window(Strip(Split(s)[0]), Some(Strip(Split(s)[1]))))
  {
  }
}
