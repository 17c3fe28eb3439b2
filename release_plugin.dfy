/** The release plugin as an object: the store of releases and media, the
    files on disk, the trace of collaborator calls and the `checking_snatched`
    latch are fields its methods update in place. Each method is proved to
    leave the state that the matching function of ReleaseRules, TagMarkers or
    Reconcile describes. */
module Releases {
  import opened Optional
  import opened Statuses
  import opened Records
  import opened TagMarkers
  import opened ReleaseRules
  import opened Reconcile

  class ReleasePlugin {
    var releases: map<int, Release>
    var media: map<int, Media>
    var files: set<string>
    var events: seq<Event>
    var checkingSnatched: bool
    var nextReleaseId: int
    const dirs: set<string>
    const config: Config

    function Snapshot(): State
      reads this
    {
      State(releases, media, files, events)
    }

    ghost predicate Valid()
      reads this
    {
      UniqueIdentifiers(releases) && IdsBelow(releases, nextReleaseId)
    }

    /** The latch starts cleared. */
    constructor (releases0: map<int, Release>, media0: map<int, Media>, files0: set<string>, dirs0: set<string>,
                 nextId0: int, config0: Config)
      requires UniqueIdentifiers(releases0) && IdsBelow(releases0, nextId0)
      ensures Valid() && Snapshot() == State(releases0, media0, files0, [])
      ensures !checkingSnatched && nextReleaseId == nextId0 && dirs == dirs0 && config == config0
    {
      releases, media, files, events := releases0, media0, files0, [];
      checkingSnatched, nextReleaseId := false, nextId0;
      dirs, config := dirs0, config0;
    }

    // ---------------------------------------------------------- status changes

    /** `updateStatus(id, status)`: False for a missing status, otherwise True. */
    method UpdateStatus(id: int, status: Option<Status>, now: int) returns (ok: bool)
      requires Valid()
      modifies this
      ensures Valid() && checkingSnatched == old(checkingSnatched) && nextReleaseId == old(nextReleaseId)
      ensures ok <==> status.Some?
      ensures status.None? ==> Snapshot() == old(Snapshot())
      ensures status.Some? ==> Snapshot() == StatusUpdated(old(Snapshot()), id, status.value, now)
    {
      if status.None? {
        return false;
      }
      if id in releases && releases[id].status != status.value {
        releases := releases[id := releases[id].(status := status.value, lastEdit := now)];
        events := events + [StatusChanged(id, status.value)];
      }
      return true;
    }

    /** `ignore(id)`: always reports success. */
    method Ignore(id: int, now: int) returns (success: bool)
      requires Valid()
      modifies this
      ensures Valid() && checkingSnatched == old(checkingSnatched) && nextReleaseId == old(nextReleaseId)
      ensures success
      ensures Snapshot() == IgnoreFlipped(old(Snapshot()), id, now)
    {
      if id in releases {
        var current := releases[id].status;
        var target := if current == Ignored || current == Failed then Available else Ignored;
        var _ := UpdateStatus(id, Some(target), now);
      }
      return true;
    }

    /** `delete(id)`: True iff the release existed. */
    method Delete(id: int) returns (deleted: bool)
      requires Valid()
      modifies this
      ensures Valid() && checkingSnatched == old(checkingSnatched) && nextReleaseId == old(nextReleaseId)
      ensures deleted <==> id in old(releases)
      ensures releases == old(releases) - {id}
      ensures media == old(media) && files == old(files) && events == old(events)
    {
      if id in releases {
        releases := releases - {id};
        return true;
      }
      return false;
    }

    /** `clean(id)`: True iff the release existed. */
    method Clean(id: int) returns (found: bool)
      requires Valid()
      modifies this
      ensures Valid() && checkingSnatched == old(checkingSnatched) && nextReleaseId == old(nextReleaseId)
      ensures (Snapshot(), found) == Cleaned(old(Snapshot()), id)
    {
      if id !in releases {
        return false;
      }
      var kept := FilesOnDisk(releases[id].files, files);
      ghost var before := Snapshot();
      releases := releases[id := releases[id].(files := kept)];
      if kept == {} {
        var _ := Delete(id);
        assert releases == before.releases - {id};
      }
      return true;
    }

    /** The loop of `clean`: the release's files that still exist. */
    static method FilesOnDisk(owned: set<string>, disk: set<string>) returns (kept: set<string>)
      ensures kept == owned * disk
    {
      kept := owned;
      var pending := owned;
      while pending != {}
        invariant pending <= owned
        invariant kept == (owned - pending) * disk + pending
        decreases |pending|
      {
        var f := Pick(pending);
        if f !in disk {
          kept := kept - {f};
        }
        pending := pending - {f};
      }
    }

    /** `cleanDone()`: the dashboard sweep over media done for more than `CleanAge`. */
    method CleanDone(now: int)
      requires Valid()
      modifies this
      ensures Valid() && checkingSnatched == old(checkingSnatched) && nextReleaseId == old(nextReleaseId)
      ensures releases == AfterCleanDone(old(releases), old(media), now)
      ensures media == old(media) && files == old(files)
      ensures old(events) <= events
      ensures multiset(events[|old(events)|..]) == multiset(IgnoreNotices(old(releases), StaleReleases(old(releases), old(media), now)))
    {
      var stale := StaleReleases(releases, media, now);
      SweepAll(stale, now);
    }

    /** The `cleanDone` loop over the releases in `stale`. */
    method SweepAll(stale: set<int>, now: int)
      requires Valid() && stale <= releases.Keys
      modifies this
      ensures Valid() && checkingSnatched == old(checkingSnatched) && nextReleaseId == old(nextReleaseId)
      ensures releases == Swept(old(releases), stale, now)
      ensures media == old(media) && files == old(files)
      ensures old(events) <= events
      ensures multiset(events[|old(events)|..]) == multiset(IgnoreNotices(old(releases), stale))
    {
      var pending := stale;
      ghost var r0 := releases;
      ghost var done: set<int> := {};
      ghost var added: seq<Event> := [];
      while pending != {}
        invariant done + pending == stale && done !! pending
        invariant Valid() && nextReleaseId == old(nextReleaseId) && checkingSnatched == old(checkingSnatched)
        invariant media == old(media) && files == old(files)
        invariant releases == Swept(r0, done, now)
        invariant events == old(events) + added
        invariant NoticesSent(added, r0, done)
        decreases |pending|
      {
        var id := Pick(pending);
        ghost var n := IgnoreNotice(r0[id], id);
        SweepOne(id, now, r0, done);
        NoticesStep(r0, done, id, added);
        assert events == old(events) + (added + n) by {
          SeqAppendAssoc(old(events), added, n);
        }
        added := added + n;
        done := done + {id};
        pending := pending - {id};
      }
      assert events[|old(events)|..] == added;
    }

    static lemma SeqAppendAssoc<T>(a: seq<T>, b: seq<T>, c: seq<T>)
      ensures (a + b) + c == a + (b + c)
    {
    }

    /** The notices sent so far are those of a sweep over `done`, in some order. */
    static ghost predicate NoticesSent(added: seq<Event>, r0: map<int, Release>, done: set<int>) {
      multiset(added) == multiset(IgnoreNotices(r0, done))
    }

    static lemma NoticesStep(r0: map<int, Release>, done: set<int>, id: int, added: seq<Event>)
      requires id !in done && id in r0 && NoticesSent(added, r0, done)
      ensures NoticesSent(added + IgnoreNotice(r0[id], id), r0, done + {id})
    {
      IgnoreNoticesAdd(r0, done, id);
    }

    /** The body of the `cleanDone` loop for one release of a stale media. */
    method SweepOne(id: int, now: int, ghost r0: map<int, Release>, ghost done: set<int>)
      requires Valid() && id in r0 && id !in done && releases == Swept(r0, done, now)
      modifies this
      ensures Valid() && checkingSnatched == old(checkingSnatched) && nextReleaseId == old(nextReleaseId)
      ensures releases == Swept(r0, done + {id}, now)
      ensures media == old(media) && files == old(files)
      ensures events == old(events) + IgnoreNotice(r0[id], id)
    {
      assert id in releases && releases[id] == r0[id];
      SweptAdd(r0, done, id, now);
      if releases[id].status == Available {
        var _ := Delete(id);
      } else if releases[id].status == Snatched || releases[id].status == Downloaded {
        var _ := UpdateStatus(id, Some(Ignored), now);
      }
    }

    // ---------------------------------------------------------- download

    /** The release row with this identifier, if any. */
    method LookupByIdentifier(ident: Identifier) returns (r: Option<int>)
      requires Valid()
      ensures r == FindRelease(releases, ident)
    {
      if exists id :: id in releases && releases[id].identifier == ident {
        var id :| id in releases && releases[id].identifier == ident;
        return Some(id);
      }
      return None;
    }

    /** `download(data, media, manual)`: hand one result to the downloaders. */
    method Download(c: Candidate, m: MediaView, manual: bool, gw: Gateway, now: int) returns (a: Attempt)
      requires Valid()
      modifies this
      ensures Valid() && checkingSnatched == old(checkingSnatched) && nextReleaseId == old(nextReleaseId)
      ensures (Snapshot(), a) == ReleaseRules.Download(old(Snapshot()), c, m, manual, gw, config.renamerEnabled, now)
    {
      if !gw.enabled(c, manual) {
        return NoSnatch;
      }
      if c.hasDownloadFn {
        events := events + [Fetched(c.url)];
        if gw.transport(c) == TryNextSentinel {
          return TryNext;
        }
      }
      events := events + [Submitted(c.url)];
      var result := gw.submit(c);
      if !Truthy(result) {
        return NoSnatch;
      }
      NoteSnatch(c, m, result, now);
      return Snatch;
    }

    /** The bookkeeping of `download` after a downloader took the result. */
    method NoteSnatch(c: Candidate, m: MediaView, result: Submission, now: int)
      requires Valid()
      modifies this
      ensures Valid() && checkingSnatched == old(checkingSnatched) && nextReleaseId == old(nextReleaseId)
      ensures Snapshot() == RecordSnatch(old(Snapshot()), c, m, result, config.renamerEnabled, now)
    {
      var found := LookupByIdentifier(UrlDigest(c.url));
      if found.Some? {
        var id := found.value;
        var quality := releases[id].qualityId;
        if result.AcceptedWith? {
          releases := releases[id := releases[id].(info := WithDownloadInfo(releases[id].info, result.details))];
        }
        events := events + [SnatchNotice(id)];
        if config.renamerEnabled {
          var _ := UpdateStatus(id, Some(Snatched), now);
        } else if m.status == Active {
          MarkFinished(id, quality, m, now);
        }
      }
    }

    /** The renamer-off branch of `download`: for each finishing profile type
        of the release's quality, mark the release and the media done. */
    method MarkFinished(id: int, quality: int, m: MediaView, now: int)
      requires Valid() && id in releases && releases[id].qualityId == quality
      modifies this
      ensures Valid() && checkingSnatched == old(checkingSnatched) && nextReleaseId == old(nextReleaseId)
      ensures !FinishesProfile(m, quality) ==> Snapshot() == old(Snapshot())
      ensures FinishesProfile(m, quality) ==>
        var st3 := StatusUpdated(old(Snapshot()), id, Done, now);
        Snapshot() == if m.id in st3.media then st3.(media := st3.media[m.id := st3.media[m.id].(status := Done, lastEdit := now)]) else st3
    {
      var i := 0;
      ghost var st0 := Snapshot();
      while i < |m.profileTypes|
        invariant 0 <= i <= |m.profileTypes|
        invariant Valid() && checkingSnatched == old(checkingSnatched) && nextReleaseId == old(nextReleaseId)
        invariant (forall k :: 0 <= k < i ==> !(m.profileTypes[k].qualityId == quality && m.profileTypes[k].finish)) ==> Snapshot() == st0
        invariant (exists k :: 0 <= k < i && m.profileTypes[k].qualityId == quality && m.profileTypes[k].finish) ==>
          var st3 := StatusUpdated(st0, id, Done, now);
          Snapshot() == if m.id in st3.media then st3.(media := st3.media[m.id := st3.media[m.id].(status := Done, lastEdit := now)]) else st3
      {
        var t := m.profileTypes[i];
        if t.qualityId == quality && t.finish {
          var _ := UpdateStatus(id, Some(Done), now);
          if m.id !in media {
            // the media row is gone: the source's attribute error ends the loop
            return;
          }
          media := media[m.id := media[m.id].(status := Done, lastEdit := now)];
        }
        i := i + 1;
      }
    }

    /** `tryDownloadResult(results, media, quality_type, manual)`. */
    method TryDownloadResult(cs: seq<Candidate>, m: MediaView, qt: QualityType, manual: bool, gw: Gateway, now: int)
      returns (snatched: bool)
      requires Valid()
      modifies this
      ensures Valid() && checkingSnatched == old(checkingSnatched) && nextReleaseId == old(nextReleaseId)
      ensures (Snapshot(), snatched) == TryFrom(old(Snapshot()), cs, m, qt, manual, gw, config.renamerEnabled, now)
    {
      var i := 0;
      while i < |cs|
        invariant 0 <= i <= |cs|
        invariant Valid() && checkingSnatched == old(checkingSnatched) && nextReleaseId == old(nextReleaseId)
        invariant TryFrom(old(Snapshot()), cs, m, qt, manual, gw, config.renamerEnabled, now)
               == TryFrom(Snapshot(), cs[i..], m, qt, manual, gw, config.renamerEnabled, now)
      {
        var c := cs[i];
        assert cs[i..][0] == c && cs[i..][1..] == cs[i + 1..];
        if Waiting(c, qt) {
          i := i + 1;
          continue;
        }
        if c.status == Ignored || c.status == Failed {
          i := i + 1;
          continue;
        }
        if c.score <= 0 {
          i := i + 1;
          continue;
        }
        var a := Download(c, m, manual, gw, now);
        if a == Snatch {
          return true;
        } else if a != TryNext {
          return false;
        }
        i := i + 1;
      }
      return false;
    }

    // ---------------------------------------------------------- createFromSearch

    /** The scalar fields of one search result, collected key by key. */
    method ScalarInfoOf(r: SearchResult) returns (info: Info)
      ensures info == ScalarInfo(r)
    {
      var entries: map<string, string> := map[];
      var pending := r.fields.Keys;
      while pending != {}
        invariant pending <= r.fields.Keys
        invariant forall k :: k in entries <==> k in r.fields && k !in pending && r.fields[k].Scalar?
        invariant forall k :: k in entries ==> entries[k] == r.fields[k].text
        decreases |pending|
      {
        var k :| k in pending;
        if r.fields[k].Scalar? {
          entries := entries[k := r.fields[k].text];
        }
        pending := pending - {k};
      }
      info := InfoMap(entries);
      assert info.entries == ScalarInfo(r).entries;
    }

    /** `createFromSearch(results, media, quality_type)`: the identifiers in
        input order, and the status written back into each result. */
    method CreateFromSearch(rs: seq<SearchResult>, mediaId: int, qualityId: int, now: int)
      returns (found: seq<Identifier>, statuses: seq<Status>)
      requires Valid() && forall i :: 0 <= i < |rs| ==> HasUrl(rs[i])
      modifies this
      ensures Valid() && checkingSnatched == old(checkingSnatched)
      ensures (releases, nextReleaseId) == SaveResults(old(releases), old(nextReleaseId), rs, mediaId, qualityId, now)
      ensures media == old(media) && files == old(files) && events == old(events)
      ensures |found| == |rs| && forall i :: 0 <= i < |rs| ==> found[i] == UrlDigest(Url(rs[i]))
      ensures |statuses| == |rs|
      ensures forall i :: 0 <= i < |rs| ==>
        FindRelease(releases, found[i]).Some? && statuses[i] == releases[FindRelease(releases, found[i]).value].status
    {
      found, statuses := [], [];
      var i := 0;
      while i < |rs|
        invariant 0 <= i <= |rs|
        invariant Valid() && checkingSnatched == old(checkingSnatched)
        invariant media == old(media) && files == old(files) && events == old(events)
        invariant SaveResults(old(releases), old(nextReleaseId), rs, mediaId, qualityId, now)
               == SaveResults(releases, nextReleaseId, rs[i..], mediaId, qualityId, now)
        invariant |found| == i && |statuses| == i
        invariant forall k :: 0 <= k < i ==> found[k] == UrlDigest(Url(rs[k]))
        invariant forall k :: 0 <= k < i ==>
          FindRelease(releases, found[k]).Some? && statuses[k] == releases[FindRelease(releases, found[k]).value].status
      {
        assert rs[i..][0] == rs[i] && rs[i..][1..] == rs[i + 1..];
        ghost var before, beforeNext := releases, nextReleaseId;
        var ident, status := SaveOne(rs[i], mediaId, qualityId, now);
        forall k | 0 <= k < i
          ensures FindRelease(releases, found[k]).Some? && statuses[k] == releases[FindRelease(releases, found[k]).value].status
        {
          SaveResultKeepsFound(before, beforeNext, rs[i], mediaId, qualityId, now, found[k]);
        }
        found, statuses := found + [ident], statuses + [status];
        i := i + 1;
      }
      assert rs[i..] == [];
    }

    /** The loop body of `createFromSearch`: update or insert the row for one
        result, and read back its status. */
    method SaveOne(r: SearchResult, mediaId: int, qualityId: int, now: int) returns (ident: Identifier, status: Status)
      requires Valid() && HasUrl(r)
      modifies this
      ensures Valid() && checkingSnatched == old(checkingSnatched)
      ensures media == old(media) && files == old(files) && events == old(events)
      ensures (releases, nextReleaseId) == SaveResult(old(releases), old(nextReleaseId), r, mediaId, qualityId, now)
      ensures ident == UrlDigest(Url(r))
      ensures FindRelease(releases, ident).Some? && status == releases[FindRelease(releases, ident).value].status
    {
      ident := UrlDigest(Url(r));
      SaveResultFacts(releases, nextReleaseId, r, mediaId, qualityId, now);
      var existing := LookupByIdentifier(ident);
      var info := ScalarInfoOf(r);
      var id: int;
      if existing.None? {
        id := nextReleaseId;
        releases := releases[id := Release(ident, mediaId, qualityId, Available, info, {}, now)];
        nextReleaseId := nextReleaseId + 1;
      } else {
        id := existing.value;
        releases := releases[id := releases[id].(info := info, lastEdit := now)];
      }
      assert releases[id].identifier == ident;
      status := releases[id].status;
    }

    // ---------------------------------------------------------- tag markers

    /** `tagRelease(tag, group or release_download)`: create the missing markers. */
    method TagRelease(tag: string, src: TagSource)
      requires ValidSource(src)
      modifies this`files
      ensures files == Tagged(old(files), dirs, tag, src)
    {
      if tag == "" {
        return;
      }
      var candidates := TagCandidates(files, dirs, src);
      TagFiles(candidates, tag);
    }

    /** The loop of `tagRelease` over its `tag_files`: skip `.ignore` files,
        create each missing marker. */
    method TagFiles(candidates: set<string>, tag: string)
      modifies this`files
      ensures files == old(files) + MarkersOf(candidates, tag)
    {
      var disk := files;
      var pending := candidates;
      ghost var done: set<string> := {};
      while pending != {}
        modifies {}
        invariant done + pending == candidates
        invariant disk == old(files) + MarkersOf(done, tag)
        decreases |pending|
      {
        var f := Pick(pending);
        MarkersAdd(done, f, tag);
        if Ext(f) != ".ignore" {
          var marker := MarkerName(f, tag);
          if marker !in disk {
            disk := disk + {marker};
          }
        }
        done := done + {f};
        pending := pending - {f};
      }
      files := disk;
    }

    /** `untagRelease(release_download, tag)`: remove the markers of the record's files. */
    method UntagRelease(rd: DownloadRecord, tag: string)
      modifies this`files
      ensures files == Untagged(old(files), dirs, tag, rd)
    {
      if rd.folder !in dirs {
        return;
      }
      var targets := TargetFiles(files, dirs, rd);
      var ignores := IgnoreFiles(files, dirs, rd.folder, tag);
      var pending := targets;
      while pending != {}
        invariant pending <= targets
        invariant files == old(files) - (set g | g in ignores && exists f :: f in targets - pending && Matches(g, f, tag))
        decreases |pending|
      {
        var f := Pick(pending);
        ghost var done := targets - pending;
        var hits := set g | g in ignores && Matches(g, f, tag);
        files := files - hits;
        pending := pending - {f};
        assert targets - pending == done + {f};
      }
      assert targets - pending == targets;
    }

    /** `hastagRelease(release_download, tag)`. */
    method HastagRelease(rd: DownloadRecord, tag: string) returns (tagged: bool)
      ensures tagged == HasTag(files, dirs, tag, rd)
    {
      if rd.folder !in dirs {
        return false;
      }
      var targets := TargetFiles(files, dirs, rd);
      var ignores := IgnoreFiles(files, dirs, rd.folder, tag);
      var pending := targets;
      while pending != {}
        invariant pending <= targets
        invariant forall f, g :: f in targets - pending && g in ignores ==> !Matches(g, f, tag)
        decreases |pending|
      {
        var f := Pick(pending);
        if exists g :: g in ignores && Matches(g, f, tag) {
          return true;
        }
        pending := pending - {f};
      }
      return false;
    }

    // ---------------------------------------------------------- checkSnatched

    /** The inner loop of `checkSnatched` that looks for the release's report. */
    static method FindDownload(ds: seq<DownloadRecord>, key: DownloadKey) returns (found: Option<nat>)
      ensures found == FirstMatch(ds, key)
    {
      var i := 0;
      while i < |ds|
        invariant 0 <= i <= |ds|
        invariant forall k :: 0 <= k < i ==> KeyOf(ds[k]) != key
      {
        if ds[i].id == key.id && ds[i].downloader == key.downloader {
          return Some(i);
        }
        i := i + 1;
      }
      return None;
    }

    /** The reconciliation loop's body for release `id`; `aborted` reports the
        exception that ends the loop. */
    method ReconcileRelease(id: int, ds: seq<DownloadRecord>, queue: seq<nat>, scanRequired: bool, svc: Services, now: int)
      returns (ds': seq<DownloadRecord>, queue': seq<nat>, scanRequired': bool, aborted: bool)
      requires Valid() && id in releases && QueueOk(Pass(Snapshot(), ds, queue, scanRequired, false))
      modifies this
      ensures Valid() && checkingSnatched == old(checkingSnatched) && nextReleaseId == old(nextReleaseId)
      ensures Pass(Snapshot(), ds', queue', scanRequired', aborted)
           == Step(Pass(old(Snapshot()), ds, queue, scanRequired, false), id, config, dirs, svc, now)
    {
      var rel := releases[id];
      ds', queue', scanRequired', aborted := ds, queue, scanRequired, false;
      if rel.info.NotAMapping? {
        var _ := UpdateStatus(id, Some(Ignored), now);
        return;
      }
      if !HasValue(rel.info, "download_id") {
        if "name" !in rel.info.entries {
          aborted := true;
        } else {
          scanRequired' := true;
        }
        return;
      }
      if "download_downloader" !in rel.info.entries {
        aborted := true;
        return;
      }
      var found := FindDownload(ds, DownloadKey(rel.info.entries["download_id"], rel.info.entries["download_downloader"]));
      if found.None? {
        if rel.status == Missing {
          if rel.lastEdit < now - MissingGrace {
            var _ := UpdateStatus(id, Some(Ignored), now);
          }
        } else {
          var _ := UpdateStatus(id, Some(Missing), now);
        }
        return;
      }
      ds', queue', scanRequired' := ApplyReport(id, found.value, ds, queue, scanRequired, svc, now);
    }

    /** The status branches of the reconciliation loop for a matched report. */
    method ApplyReport(id: int, j: nat, ds: seq<DownloadRecord>, queue: seq<nat>, scanRequired: bool, svc: Services, now: int)
      returns (ds': seq<DownloadRecord>, queue': seq<nat>, scanRequired': bool)
      requires Valid() && id in releases && j < |ds| && QueueOk(Pass(Snapshot(), ds, queue, scanRequired, false))
      modifies this
      ensures Valid() && checkingSnatched == old(checkingSnatched) && nextReleaseId == old(nextReleaseId)
      ensures Pass(Snapshot(), ds', queue', scanRequired', false)
           == HandleReport(Pass(old(Snapshot()), ds, queue, scanRequired, false), id, j, config, dirs, svc, now)
    {
      var rel := releases[id];
      var rd := ds[j];
      ds', queue', scanRequired' := ds, queue, scanRequired;
      match rd.status {
        case Busy =>
          var _ := UpdateStatus(id, Some(Snatched), now);
          if svc.inFrom(rd.folder) {
            TagRelease("downloading", FromDownload(rd));
          }
        case Seed =>
          if config.fileAction != "move" && rel.status != Seeding && StatusInfoComplete(rd) {
            UntagRelease(rd, "downloading");
            ds' := ds[j := rd.(pause := true, scan := true, processComplete := false)];
            queue' := queue + [j];
          } else {
            var _ := UpdateStatus(id, Some(Seeding), now);
          }
        case Fail =>
          var _ := UpdateStatus(id, Some(Failed), now);
          events := events + [RemoveFailed(j)];
          if config.nextOnFailed {
            events := events + [TryNextRelease(rel.mediaId)];
          }
        case Complete =>
          if StatusInfoComplete(rd) {
            if rel.status == Seeding {
              if config.fileAction != "move" {
                var _ := UpdateStatus(id, Some(Downloaded), now);
                ds' := ds[j := rd.(pause := false, scan := false, processComplete := true)];
              } else {
                ds' := ds[j := rd.(pause := false, scan := true, processComplete := true)];
              }
              queue' := queue + [j];
            } else {
              var _ := UpdateStatus(id, Some(Snatched), now);
              UntagRelease(rd, "downloading");
              ds' := ds[j := rd.(pause := false, scan := true, processComplete := true)];
              queue' := queue + [j];
            }
          } else {
            scanRequired' := true;
          }
        case Unrecognised =>
      }
    }

    /** One entry of the end-of-pass batch. */
    method FlushEntry(ds: seq<DownloadRecord>, j: nat, svc: Services)
      requires Valid() && j < |ds|
      modifies this
      ensures Valid() && checkingSnatched == old(checkingSnatched) && nextReleaseId == old(nextReleaseId)
      ensures Snapshot() == FlushOne(old(Snapshot()), ds, j, config, dirs, svc)
    {
      var rd := ds[j];
      var pausing := rd.pause && config.fileAction == "link";
      if rd.scan {
        if pausing {
          events := events + [PauseDownload(j, true)];
        }
        events := events + [ScanDownload(j)];
        files := svc.renamer(ScanOne(rd), files);
        if pausing {
          events := events + [PauseDownload(j, false)];
        }
        assert events == old(events) + ScanEvents(rd, j, config);
      }
      if rd.processComplete {
        var failed := HastagRelease(rd, "failed_rename");
        if !failed {
          UntagRelease(rd, "renamed_already");
          events := events + [ProcessComplete(j)];
        }
      }
    }

    /** `checkSnatched()`: one reconciliation pass over the in-flight releases,
        listed in `order` as the store returns them. */
    method CheckSnatched(order: seq<int>, svc: Services, now: int) returns (ok: bool)
      requires Valid() && ListsInFlight(releases, order)
      modifies this
      ensures Valid() && nextReleaseId == old(nextReleaseId)
      ensures PassResult(checkingSnatched, Snapshot(), ok) == RunPass(old(checkingSnatched), old(Snapshot()), order, config, dirs, svc, now)
    {
      if checkingSnatched {
        return false;
      }
      checkingSnatched := true;
      if |order| == 0 {
        checkingSnatched := false;
        return true;
      }

      var collected := CollectDownloadIds(order);
      if collected.None? {
        return false;
      }
      var keys := collected.value;
      events := events + [Polled(keys)];
      var ds := svc.poll(keys);
      if |ds| == 0 {
        events := events + [ScanAll];
        files := svc.renamer(ScanEverything, files);
        checkingSnatched := false;
        return true;
      }
      var queue, scanRequired;
      ds, queue, scanRequired := ReconcileReleases(order, ds, svc, now);
      FlushQueue(ds, queue, svc);
      if scanRequired {
        events := events + [ScanAll];
        files := svc.renamer(ScanEverything, files);
      }
      checkingSnatched := false;
      return true;
    }

    /** The loop that collects `{id, downloader}` for the status poll; None
        when it raises. */
    method CollectDownloadIds(order: seq<int>) returns (keys: Option<seq<DownloadKey>>)
      requires forall i :: 0 <= i < |order| ==> order[i] in releases
      ensures keys == CollectKeys(releases, order)
    {
      var collected: seq<DownloadKey> := [];
      var i := 0;
      while i < |order|
        invariant 0 <= i <= |order|
        invariant CollectKeys(releases, order[..i]) == Some(collected)
      {
        assert order[..i + 1][..i] == order[..i];
        var info := releases[order[i]].info;
        if info.NotAMapping? {
          CollectFailurePersists(releases, order, i + 1);
          return None;
        }
        if HasValue(info, "download_id") {
          if "download_downloader" !in info.entries {
            CollectFailurePersists(releases, order, i + 1);
            return None;
          }
          collected := collected + [DownloadKey(info.entries["download_id"], info.entries["download_downloader"])];
        }
        i := i + 1;
      }
      assert order[..i] == order;
      return Some(collected);
    }

    /** The loop over in-flight releases, up to the first exception. */
    method ReconcileReleases(order: seq<int>, ds: seq<DownloadRecord>, svc: Services, now: int)
      returns (ds': seq<DownloadRecord>, queue: seq<nat>, scanRequired: bool)
      requires Valid() && forall i :: 0 <= i < |order| ==> order[i] in releases
      modifies this
      ensures Valid() && checkingSnatched == old(checkingSnatched) && nextReleaseId == old(nextReleaseId)
      ensures var p := ReconcileAll(Pass(old(Snapshot()), ds, [], false, false), order, config, dirs, svc, now);
        Snapshot() == p.st && ds' == p.downloads && queue == p.queue && scanRequired == p.scanRequired
    {
      ghost var p0 := Pass(Snapshot(), ds, [], false, false);
      ds', queue, scanRequired := ds, [], false;
      var aborted := false;
      var i := 0;
      while i < |order| && !aborted
        invariant 0 <= i <= |order|
        invariant Valid() && nextReleaseId == old(nextReleaseId) && checkingSnatched == old(checkingSnatched)
        invariant Pass(Snapshot(), ds', queue, scanRequired, aborted) == ReconcileAll(p0, order[..i], config, dirs, svc, now)
      {
        ReconcileAllNext(p0, order, i, config, dirs, svc, now);
        ds', queue, scanRequired, aborted := ReconcileRelease(order[i], ds', queue, scanRequired, svc, now);
        i := i + 1;
      }
      if aborted {
        AbortPersists(p0, order, i, config, dirs, svc, now);
      } else {
        assert order[..i] == order;
      }
    }

    /** The end-of-pass batch over `scan_releases`. */
    method FlushQueue(ds: seq<DownloadRecord>, queue: seq<nat>, svc: Services)
      requires Valid() && forall k :: 0 <= k < |queue| ==> queue[k] < |ds|
      modifies this
      ensures Valid() && checkingSnatched == old(checkingSnatched) && nextReleaseId == old(nextReleaseId)
      ensures Snapshot() == Flush(old(Snapshot()), ds, queue, config, dirs, svc)
    {
      var k := 0;
      while k < |queue|
        invariant 0 <= k <= |queue|
        invariant Valid() && nextReleaseId == old(nextReleaseId) && checkingSnatched == old(checkingSnatched)
        invariant Snapshot() == Flush(old(Snapshot()), ds, queue[..k], config, dirs, svc)
      {
        assert queue[..k + 1][..k] == queue[..k];
        FlushEntry(ds, queue[k], svc);
        k := k + 1;
      }
      assert queue[..k] == queue;
    }
  }
}
