/** The movie plugin as an object over its tables: each method changes the
    movie, release and event fields the way the matching rule in
    `MovieRules` says. */
module Movies {
  import opened Optional
  import opened Statuses
  import opened Records
  import opened MovieRules

  class MoviePlugin {
    var movies: map<int, Media>
    var releases: map<int, Release>
    var events: seq<MovieEvent>
    var nextMovieId: int
    const profiles: map<int, seq<QualityType>>

    function Snapshot(): Store
      reads this
    {
      Store(movies, releases, profiles, events)
    }

    /** One movie per library, and fresh ids above every movie id. */
    ghost predicate Valid()
      reads this
    {
      UniqueLibraries(movies) && IdsBelow(movies, nextMovieId)
    }

    constructor (movies0: map<int, Media>, releases0: map<int, Release>, profiles0: map<int, seq<QualityType>>, nextId0: int)
      requires UniqueLibraries(movies0) && IdsBelow(movies0, nextId0)
      ensures Valid() && Snapshot() == Store(movies0, releases0, profiles0, []) && nextMovieId == nextId0
    {
      movies, releases, profiles, events, nextMovieId := movies0, releases0, profiles0, [], nextId0;
    }

    // ---------------------------------------------------------- restatus

    /** Whether some release among `ids` is a done release of `t`'s quality
        with `t` a finishing type. */
    static method AnyFinishing(t: QualityType, releases: map<int, Release>, ids: set<int>) returns (found: bool)
      requires ids <= releases.Keys
      ensures found <==> exists r :: r in ids && t.finish && t.qualityId == releases[r].qualityId && releases[r].status == Done
    {
      found := false;
      var todo := ids;
      while todo != {}
        invariant todo <= ids
        invariant found <==> exists r :: r in ids - todo && t.finish && t.qualityId == releases[r].qualityId && releases[r].status == Done
        decreases |todo|
      {
        var r := Pick(todo);
        if t.finish && t.qualityId == releases[r].qualityId && releases[r].status == Done {
          found := true;
        }
        todo := todo - {r};
      }
    }

    /** `restatus(movie_id)`: false (and no change) when the call raises. */
    method Restatus(movieId: int) returns (ok: bool)
      requires Valid()
      modifies this
      ensures Valid() && nextMovieId == old(nextMovieId)
      ensures (Snapshot(), ok) == Restatused(old(Snapshot()), movieId)
    {
      if movieId !in movies || movies[movieId].titles == [] {
        return false;
      }
      var m := movies[movieId];
      var target := Done;
      if m.profileId in profiles {
        var types := profiles[m.profileId];
        var rels := releases;
        var own := ReleasesOf(rels, movieId);
        var moveToWanted := true;
        for k := 0 to |types|
          modifies {}
          invariant moveToWanted <==>
            !exists j, r :: 0 <= j < k && r in own && types[j].finish && types[j].qualityId == rels[r].qualityId && rels[r].status == Done
        {
          var found := AnyFinishing(types[k], rels, own);
          if found {
            moveToWanted := false;
          }
        }
        assert moveToWanted <==> !FinishedBy(types, releases, movieId);
        target := if moveToWanted then Active else Done;
      }
      movies := movies[movieId := m.(status := target)];
      return true;
    }

    // ---------------------------------------------------------- delete

    /** `delete(movie_id, delete_from)`: always True. */
    method Delete(movieId: int, from: Option<string>) returns (r: bool)
      requires Valid()
      modifies this
      ensures r
      ensures Valid() && nextMovieId == old(nextMovieId)
      ensures Snapshot() == Deleted(old(Snapshot()), movieId, from)
    {
      if movieId !in movies {
        return true;
      }
      if from == Some("all") {
        movies := movies - {movieId};
        releases := Without(releases, ReleasesOf(releases, movieId));
        return true;
      }
      ghost var own := ReleasesOf(releases, movieId);
      ghost var doomed := Doomed(releases, movieId, ModeOf(from));
      var totalReleases, totalDeleted, target, kept := DeleteLoop(releases, movieId, ModeOf(from));
      releases := kept;
      if totalReleases == totalDeleted {
        SameSizeSubset(doomed, own);
        movies := movies - {movieId};
      } else if target.Some? {
        movies := movies[movieId := movies[movieId].(status := target.value)];
      } else {
        var _ := Restatus(movieId);
      }
      return true;
    }

    /** The loop of `delete`: counts the movie's releases, removes the doomed
        ones while counting them, and settles the target status. */
    static method DeleteLoop(rels: map<int, Release>, movieId: int, mode: DeleteMode)
      returns (totalReleases: int, totalDeleted: int, target: Option<Status>, kept: map<int, Release>)
      ensures totalReleases == |ReleasesOf(rels, movieId)| && totalDeleted == |Doomed(rels, movieId, mode)|
      ensures target == DeleteTarget(mode, ReleasesOf(rels, movieId) != {})
      ensures kept == Without(rels, Doomed(rels, movieId, mode))
    {
      var own := ReleasesOf(rels, movieId);
      totalReleases := |own|;
      totalDeleted, target, kept := DeleteRows(rels, own, Doomed(rels, movieId, mode), mode);
    }

    /** The loop itself, over the movie's release rows `own`, of which
        `doomed` are those the mode condemns. */
    static method DeleteRows(rels: map<int, Release>, own: set<int>, doomed: set<int>, mode: DeleteMode)
      returns (totalDeleted: int, target: Option<Status>, kept: map<int, Release>)
      requires own <= rels.Keys && doomed <= own
      requires forall id :: id in own ==> (id in doomed <==> Condemned(mode, rels[id].status))
      ensures totalDeleted == |doomed| && target == DeleteTarget(mode, own != {})
      ensures kept == Without(rels, doomed)
    {
      totalDeleted := 0;
      target := None;
      kept := rels;
      var todo := own;
      while todo != {}
        invariant todo <= own
        invariant kept.Keys == rels.Keys - (doomed - todo)
        invariant forall k :: k in kept ==> kept[k] == rels[k]
        invariant totalDeleted == |doomed - todo|
        invariant target == DeleteTarget(mode, todo != own)
        decreases |todo|
      {
        var id := Pick(todo);
        totalDeleted, target, kept := DeleteOne(rels, own, doomed, mode, todo, id, totalDeleted, target, kept);
        todo := todo - {id};
      }
      assert doomed - todo == doomed;
      SameRows(kept, rels, doomed);
    }

    static lemma SameRows(kept: map<int, Release>, rels: map<int, Release>, gone: set<int>)
      requires kept.Keys == rels.Keys - gone
      requires forall k :: k in kept ==> kept[k] == rels[k]
      ensures kept == Without(rels, gone)
    {
      var w := Without(rels, gone);
      assert kept.Keys == w.Keys;
      assert forall k :: k in kept ==> kept[k] == w[k];
    }

    /** One round of the loop of `delete`, for release row `id`. */
    static method DeleteOne(rels: map<int, Release>, own: set<int>, doomed: set<int>, mode: DeleteMode,
                            todo: set<int>, id: int, deleted0: int, target0: Option<Status>, kept0: map<int, Release>)
      returns (totalDeleted: int, target: Option<Status>, kept: map<int, Release>)
      requires own <= rels.Keys && doomed <= own
      requires forall id :: id in own ==> (id in doomed <==> Condemned(mode, rels[id].status))
      requires id in todo && todo <= own
      requires kept0.Keys == rels.Keys - (doomed - todo)
      requires forall k :: k in kept0 ==> kept0[k] == rels[k]
      requires deleted0 == |doomed - todo|
      requires target0 == DeleteTarget(mode, todo != own)
      ensures kept.Keys == rels.Keys - (doomed - (todo - {id}))
      ensures forall k :: k in kept ==> kept[k] == rels[k]
      ensures totalDeleted == |doomed - (todo - {id})|
      ensures target == DeleteTarget(mode, todo - {id} != own)
    {
      totalDeleted, target, kept := deleted0, target0, kept0;
      TakeOne(doomed, todo, id);
      // 'wanted' drops what is not done and aims at done; 'manage' drops
      // what is done and aims at active; other modes do neither.
      if mode == Wanted || mode == Manage {
        if Condemned(mode, rels[id].status) {
          kept := kept - {id};
          totalDeleted := totalDeleted + 1;
        }
        target := DeleteTarget(mode, true);
      }
    }

    /** Taking one id off the to-do set moves it among the done ones. */
    static lemma TakeOne(doomed: set<int>, todo: set<int>, id: int)
      requires id in todo
      ensures id in doomed ==> doomed - (todo - {id}) == (doomed - todo) + {id} && id !in doomed - todo
      ensures id !in doomed ==> doomed - (todo - {id}) == doomed - todo
    {
    }

    static lemma SameSizeSubset(a: set<int>, b: set<int>)
      requires a <= b && |a| == |b|
      ensures a == b
    {
      assert b == a + (b - a);
      assert |b| == |a| + |b - a|;
      assert b - a == {};
    }

    // ---------------------------------------------------------- add

    /** The movie on a library, as `filter_by(library_id).first()` finds it. */
    method MovieOnLibrary(libraryId: int) returns (r: Option<int>)
      requires Valid()
      ensures r == MovieOn(movies, libraryId)
    {
      if exists k :: k in movies && movies[k].libraryId == libraryId {
        var k :| k in movies && movies[k].libraryId == libraryId;
        return Some(k);
      }
      return None;
    }

    /** Delete the releases of a movie that are in a given status. */
    method DropReleases(movieId: int, s: Status)
      modifies this
      ensures movies == old(movies) && events == old(events) && nextMovieId == old(nextMovieId)
      ensures releases == Without(old(releases), InStatus(old(releases), movieId, s))
    {
      var rels := releases;
      var gone := InStatus(rels, movieId, s);
      var kept := rels;
      var own := ReleasesOf(rels, movieId);
      assert gone <= own;
      var todo := own;
      while todo != {}
        modifies {}
        invariant todo <= own && gone <= own && own <= rels.Keys
        invariant kept == Without(rels, gone - todo)
        decreases |todo|
      {
        var id := Pick(todo);
        WithoutTwice(rels, gone - todo, {id});
        if rels[id].status == s {
          kept := Without(kept, {id});
          assert gone - (todo - {id}) == (gone - todo) + {id};
        } else {
          assert gone - (todo - {id}) == gone - todo;
        }
        todo := todo - {id};
      }
      releases := kept;
    }

    /** `add(params, force_readd)`, returning the id of the movie added or found. */
    method Add(req: AddRequest, force: bool, defaultProfile: int, now: int) returns (movieId: int)
      requires Valid()
      modifies this
      ensures Valid()
      ensures (Snapshot(), movieId) == Added(old(Snapshot()), req, force, defaultProfile, old(nextMovieId), now)
    {
      var found := MovieOnLibrary(req.libraryId);
      var profile := match req.profileId case Some(p) => p case None => defaultProfile;
      match found {
        case None =>
          movieId := nextMovieId;
          movies := movies[movieId := Media(req.libraryId, profile, Active, now, req.libraryTitles)];
          nextMovieId := nextMovieId + 1;
          events := events + [LibraryUpdate(req.identifier, req.title)];
        case Some(id) =>
          movieId := id;
          if force {
            DropReleases(id, Snatched);
            movies := movies[id := movies[id].(profileId := profile, status := Active)];
          }
      }
      DropReleases(movieId, Available);
      if force || found.None? {
        events := events + [SearchMovie(movieId)];
      }
    }

    // ---------------------------------------------------------- availableChars

    /** The query's rows, in the order given. */
    function RowsOf(order: seq<int>): (rows: seq<Media>)
      reads this
      requires forall i :: 0 <= i < |order| ==> order[i] in movies
      ensures |rows| == |order| && forall i :: 0 <= i < |order| ==> rows[i] == movies[order[i]]
    {
      var ms := movies;
      seq(|order|, i requires 0 <= i < |order| => ms[order[i]])
    }

    /** `availableChars(status)` over the movies in `order`; None when the
        call raises on an empty title. */
    method AvailableChars(order: seq<int>, statuses: set<Status>) returns (chars: Option<string>)
      requires forall i :: 0 <= i < |order| ==> order[i] in movies
      ensures chars == Chars(RowsOf(order), statuses)
    {
      var rows := RowsOf(order);
      var acc := "";
      for i := 0 to |rows|
        invariant Chars(rows[..i], statuses) == Some(acc)
      {
        assert rows[..i + 1][..i] == rows[..i];
        var m := rows[i];
        if Listed(m, statuses) {
          if m.titles[0] == "" {
            NoneStays(rows, i + 1, statuses);
            return None;
          }
          var c := Initial(m.titles[0]);
          if c !in acc {
            acc := acc + [c];
          }
        }
      }
      assert rows[..|rows|] == rows;
      return Some(acc);
    }

    /** Once the characters of a prefix fail, so do those of the whole. */
    static lemma {:induction false} NoneStays(rows: seq<Media>, n: nat, statuses: set<Status>)
      requires n <= |rows| && Chars(rows[..n], statuses).None?
      ensures Chars(rows, statuses).None?
      decreases |rows| - n
    {
      if n < |rows| {
        assert rows[..n + 1][..n] == rows[..n];
        NoneStays(rows, n + 1, statuses);
      } else {
        assert rows[..n] == rows;
      }
    }
  }
}
