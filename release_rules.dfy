/** The release plugin's rules as functions of the store: status updates, the
    ignore toggle, the cleanup sweeps, one download attempt and the walk over
    ranked candidates. The class in module Releases is proved against these. */
module ReleaseRules {
  import opened Optional
  import opened Statuses
  import opened Records

  /** What the plugin asks of its collaborators, in order. */
  datatype Event =
    | StatusChanged(releaseId: int, status: Status)   // frontend notice from updateStatus
    | Fetched(url: string)                            // the candidate's own download function
    | Submitted(url: string)                          // the download gateway
    | SnatchNotice(releaseId: int)                    // '<type>.snatched'
    | Polled(keys: seq<DownloadKey>)                  // 'download.status'
    | ScanAll                                         // 'renamer.scan' without a record
    | ScanDownload(index: nat)                        // 'renamer.scan' for polled record #index
    | PauseDownload(index: nat, pause: bool)          // 'download.pause'
    | RemoveFailed(index: nat)                        // 'download.remove_failed'
    | TryNextRelease(mediaId: int)                    // 'movie.searcher.try_next_release'
    | ProcessComplete(index: nat)                     // 'download.process_complete'

  datatype DownloadKey = DownloadKey(id: string, downloader: string)

  /** The part of the world the plugin changes. */
  datatype State = State(
    releases: map<int, Release>,
    media: map<int, Media>,
    files: set<string>,
    events: seq<Event>)

  /** The store keeps release identifiers unique (the lookup by identifier relies on it). */
  ghost predicate UniqueIdentifiers(releases: map<int, Release>) {
    forall a, b :: a in releases && b in releases && releases[a].identifier == releases[b].identifier ==> a == b
  }

  ghost function FindRelease(releases: map<int, Release>, ident: Identifier): (r: Option<int>)
    ensures r.Some? ==> r.value in releases && releases[r.value].identifier == ident
    ensures r.None? ==> forall id :: id in releases ==> releases[id].identifier != ident
  {
    if exists id :: id in releases && releases[id].identifier == ident then
      var id :| id in releases && releases[id].identifier == ident; Some(id)
    else None
  }

  // ------------------------------------------------------------ updateStatus

  /** The state after `updateStatus(id, status)` with a truthy status. */
  function StatusUpdated(st: State, id: int, s: Status, now: int): (r: State)
    ensures r.media == st.media && r.files == st.files
    ensures r.releases.Keys == st.releases.Keys
    ensures forall k :: k in st.releases && k != id ==> r.releases[k] == st.releases[k]
    ensures id in st.releases ==> r.releases[id].status == s
    ensures id in st.releases && st.releases[id].status != s ==>
      r.releases[id] == st.releases[id].(status := s, lastEdit := now) && r.events == st.events + [StatusChanged(id, s)]
    ensures id !in st.releases || st.releases[id].status == s ==> r == st
  {
    if id in st.releases && st.releases[id].status != s then
      st.(releases := st.releases[id := st.releases[id].(status := s, lastEdit := now)],
          events := st.events + [StatusChanged(id, s)])
    else st
  }

  /** A repeated update is a no-op. */
  lemma StatusUpdateIdempotent(st: State, id: int, s: Status, now: int, later: int)
    ensures StatusUpdated(StatusUpdated(st, id, s, now), id, s, later) == StatusUpdated(st, id, s, now)
  {
  }

  // ------------------------------------------------------------ ignore, delete, clean

  /** `ignore(id)`: toggle between ignored and available (failed counts as ignored). */
  function IgnoreFlipped(st: State, id: int, now: int): (r: State)
    ensures id in st.releases ==> r == StatusUpdated(st, id, IgnoreToggle(st.releases[id].status), now)
    ensures id !in st.releases ==> r == st
  {
    if id in st.releases then StatusUpdated(st, id, IgnoreToggle(st.releases[id].status), now) else st
  }

  /** Ignoring twice gives back an available or ignored release's status. */
  lemma {:induction false} IgnoreTwiceRestores(st: State, id: int, now: int, later: int)
    requires id in st.releases && (st.releases[id].status == Available || st.releases[id].status == Ignored)
    ensures IgnoreFlipped(IgnoreFlipped(st, id, now), id, later).releases[id].status == st.releases[id].status
  {
    ToggleTwice(st.releases[id].status);
  }

  /** A failed release comes back as available, not failed. */
  lemma IgnoreFailedMakesAvailable(st: State, id: int, now: int)
    requires id in st.releases && st.releases[id].status == Failed
    ensures IgnoreFlipped(st, id, now).releases[id].status == Available
  {
  }

  /** `clean(id)`: forget the release's files that are gone from disk, and
      delete the release when none remain. */
  function Cleaned(st: State, id: int): (r: (State, bool))
    ensures r.1 <==> id in st.releases
    ensures r.0.media == st.media && r.0.files == st.files && r.0.events == st.events
    ensures id in st.releases && st.releases[id].files * st.files == {} ==> r.0.releases == st.releases - {id}
    ensures id in st.releases && st.releases[id].files * st.files != {} ==>
      id in r.0.releases && r.0.releases[id].files == st.releases[id].files * st.files &&
      forall f :: f in r.0.releases[id].files ==> f in st.files
    ensures forall k :: k in st.releases && k != id ==> k in r.0.releases && r.0.releases[k] == st.releases[k]
  {
    if id !in st.releases then (st, false)
    else
      var kept := st.releases[id].files * st.files;
      if kept == {} then (st.(releases := st.releases - {id}), true)
      else (st.(releases := st.releases[id := st.releases[id].(files := kept)]), true)
  }

  /** Cleaning twice changes nothing more. */
  lemma CleanIdempotent(st: State, id: int)
    ensures Cleaned(Cleaned(st, id).0, id).0 == Cleaned(st, id).0
  {
    var (st1, _) := Cleaned(st, id);
    if id in st1.releases {
      assert st1.releases[id].files * st.files == st1.releases[id].files;
    }
  }

  // ------------------------------------------------------------ cleanDone

  /** `week` as the source writes it: 262080 seconds, about three days. */
  const CleanAge := 262080

  /** Media marked done longer than `CleanAge` seconds ago. */
  function StaleMedia(media: map<int, Media>, now: int): set<int> {
    set m | m in media && media[m].status == Done && media[m].lastEdit < now - CleanAge
  }

  /** The releases `cleanDone` deletes: available releases of stale media. */
  function SweptAway(st: State, now: int): set<int> {
    set id | id in st.releases && st.releases[id].mediaId in StaleMedia(st.media, now) && st.releases[id].status == Available
  }

  /** The releases `cleanDone` marks ignored: snatched or downloaded releases of stale media. */
  function SweptToIgnored(st: State, now: int): set<int> {
    set id | id in st.releases && st.releases[id].mediaId in StaleMedia(st.media, now)
                                && (st.releases[id].status == Snatched || st.releases[id].status == Downloaded)
  }

  /** The sweep applied to the releases in `ids`: available ones are
      deleted, snatched and downloaded ones become ignored. */
  function Swept(releases: map<int, Release>, ids: set<int>, now: int): map<int, Release> {
    map id | id in releases && !(id in ids && releases[id].status == Available) ::
      if id in ids && (releases[id].status == Snatched || releases[id].status == Downloaded)
      then releases[id].(status := Ignored, lastEdit := now) else releases[id]
  }

  /** The sweep can be done one release at a time. */
  lemma SweptAdd(releases: map<int, Release>, ids: set<int>, id: int, now: int)
    requires id !in ids && id in releases
    ensures Swept(Swept(releases, ids, now), {id}, now) == Swept(releases, ids + {id}, now)
  {
    var a := Swept(Swept(releases, ids, now), {id}, now);
    var b := Swept(releases, ids + {id}, now);
    assert id in Swept(releases, ids, now) && Swept(releases, ids, now)[id] == releases[id];
    assert a.Keys == b.Keys;
    forall k | k in a ensures a[k] == b[k] {
    }
  }

  /** The releases of stale media. */
  function StaleReleases(releases: map<int, Release>, media: map<int, Media>, now: int): set<int> {
    set id | id in releases && releases[id].mediaId in StaleMedia(media, now)
  }

  /** The release rows after `cleanDone`. */
  function AfterCleanDone(releases: map<int, Release>, media: map<int, Media>, now: int): (r: map<int, Release>)
    ensures r.Keys == releases.Keys - SweptAway(State(releases, media, {}, []), now)
    ensures forall id :: id in r && id in SweptToIgnored(State(releases, media, {}, []), now) ==>
      r[id] == releases[id].(status := Ignored, lastEdit := now)
    ensures forall id :: id in r && id !in SweptToIgnored(State(releases, media, {}, []), now) ==> r[id] == releases[id]
    ensures forall id :: id in r && r[id].mediaId in StaleMedia(media, now) ==>
      r[id].status != Available && r[id].status != Snatched && r[id].status != Downloaded
  {
    Swept(releases, StaleReleases(releases, media, now), now)
  }

  /** The status notices a sweep over `ids` sends: one per snatched or downloaded release. */
  function IgnoreNotices(releases: map<int, Release>, ids: set<int>): set<Event> {
    set id | id in ids && id in releases && (releases[id].status == Snatched || releases[id].status == Downloaded) :: StatusChanged(id, Ignored)
  }

  /** The notice the sweep sends for one release. */
  function IgnoreNotice(rel: Release, id: int): seq<Event> {
    if rel.status == Snatched || rel.status == Downloaded then [StatusChanged(id, Ignored)] else []
  }

  lemma IgnoreNoticesAdd(releases: map<int, Release>, ids: set<int>, id: int)
    requires id !in ids && id in releases
    ensures multiset(IgnoreNotices(releases, ids + {id})) == multiset(IgnoreNotices(releases, ids)) + multiset(IgnoreNotice(releases[id], id))
  {
    var before := IgnoreNotices(releases, ids);
    var after := IgnoreNotices(releases, ids + {id});
    if id in releases && (releases[id].status == Snatched || releases[id].status == Downloaded) {
      assert StatusChanged(id, Ignored) !in before;
      assert after == before + {StatusChanged(id, Ignored)};
    } else {
      assert after == before;
    }
  }

  /** A second sweep at the same time changes no release. */
  lemma CleanDoneIdempotent(releases: map<int, Release>, media: map<int, Media>, now: int)
    ensures AfterCleanDone(AfterCleanDone(releases, media, now), media, now) == AfterCleanDone(releases, media, now)
  {
  }

  /** Only media done for more than `CleanAge` seconds are swept. */
  lemma CleanDoneSparesRecent(releases: map<int, Release>, media: map<int, Media>, now: int, id: int)
    requires id in releases && releases[id].mediaId in media
    requires media[releases[id].mediaId].status != Done || media[releases[id].mediaId].lastEdit >= now - CleanAge
    ensures id in AfterCleanDone(releases, media, now) && AfterCleanDone(releases, media, now)[id] == releases[id]
  {
  }

  // ------------------------------------------------------------ download

  /** What the candidate's own download function returns, when it has one. */
  datatype Transport = Payload | TryNextSentinel

  /** What the download gateway returns: falsy, truthy, or a dict of details. */
  datatype Submission = Rejected | Accepted | AcceptedWith(details: map<string, string>)

  /** Python truthiness of the gateway's answer: an empty dict is falsy. */
  predicate Truthy(result: Submission) {
    result.Accepted? || (result.AcceptedWith? && result.details != map[])
  }

  /** The three results of `download`: True, 'try_next', False. */
  datatype Attempt = Snatch | TryNext | NoSnatch

  /** A ranked search result as `tryDownloadResult` sees it. `age` is absent
      when the provider gave none; `status` is the one `createFromSearch` wrote back. */
  datatype Candidate = Candidate(
    url: string,
    name: string,
    age: Option<int>,
    score: int,
    status: Status,
    hasDownloadFn: bool)

  /** The media dict passed along with a download. */
  datatype MediaView = MediaView(id: int, status: Status, profileTypes: seq<QualityType>)

  /** The collaborators a download talks to. */
  datatype Gateway = Gateway(
    enabled: (Candidate, bool) -> bool,
    transport: Candidate -> Transport,
    submit: Candidate -> Submission)

  /** The result `download` reports, which does not depend on the store. */
  function Outcome(c: Candidate, manual: bool, gw: Gateway): Attempt {
    if !gw.enabled(c, manual) then NoSnatch
    else if c.hasDownloadFn && gw.transport(c) == TryNextSentinel then TryNext
    else if !Truthy(gw.submit(c)) then NoSnatch
    else Snatch
  }

  /** The `download_<key>` info entries saved from the gateway's details. */
  function WithDownloadInfo(info: Info, details: map<string, string>): Info {
    match info
    case NotAMapping => NotAMapping
    case InfoMap(m) => InfoMap(m + map k | k in details :: DownloadInfoKey(k) := details[k])
  }

  /** `'download_%s' % key`; the key can be read back from it. */
  function DownloadInfoKey(key: string): (r: string)
    ensures |r| >= 9 && r[9..] == key
  {
    "download_" + key
  }

  /** Some finishing profile target has the release's quality. */
  predicate FinishesProfile(media: MediaView, qualityId: int) {
    exists t :: t in media.profileTypes && t.qualityId == qualityId && t.finish
  }

  /** The bookkeeping after the gateway accepted: save details, notify, then
      snatched (renamer on) or done for release and media (renamer off, media
      active, a finishing target of that quality). */
  ghost function RecordSnatch(st: State, c: Candidate, media: MediaView, result: Submission,
                              renamerEnabled: bool, now: int): State
  {
    match FindRelease(st.releases, UrlDigest(c.url))
    case None => st
    case Some(id) =>
      var rel := st.releases[id];
      var st1 := if result.AcceptedWith? then st.(releases := st.releases[id := rel.(info := WithDownloadInfo(rel.info, result.details))]) else st;
      var st2 := st1.(events := st1.events + [SnatchNotice(id)]);
      if renamerEnabled then StatusUpdated(st2, id, Snatched, now)
      else if media.status == Active && FinishesProfile(media, rel.qualityId) then
        var st3 := StatusUpdated(st2, id, Done, now);
        if media.id in st3.media then st3.(media := st3.media[media.id := st3.media[media.id].(status := Done, lastEdit := now)])
        else st3
      else st2
  }

  /** One `download` call: its new state and its result. */
  ghost function Download(st: State, c: Candidate, media: MediaView, manual: bool, gw: Gateway,
                          renamerEnabled: bool, now: int): (r: (State, Attempt))
    ensures r.1 == Outcome(c, manual, gw)
    ensures st.events <= r.0.events
    ensures r.1 != Snatch ==> r.0.releases == st.releases && r.0.media == st.media
    ensures r.0.files == st.files
    ensures r.0.releases.Keys == st.releases.Keys
    ensures gw.enabled(c, manual) ==> Submitted(c.url) in r.0.events || r.1 == TryNext
  {
    if !gw.enabled(c, manual) then (st, NoSnatch)
    else
      var st1 := if c.hasDownloadFn then st.(events := st.events + [Fetched(c.url)]) else st;
      if c.hasDownloadFn && gw.transport(c) == TryNextSentinel then (st1, TryNext)
      else
        var st2 := st1.(events := st1.events + [Submitted(c.url)]);
        var result := gw.submit(c);
        if !Truthy(result) then (st2, NoSnatch)
        else
          var st3 := RecordSnatch(st2, c, media, result, renamerEnabled, now);
          SnatchKeepsEvents(st2, c, media, result, renamerEnabled, now);
          assert Submitted(c.url) in st3.events;
          (st3, Snatch)
  }

  lemma SnatchKeepsEvents(st: State, c: Candidate, media: MediaView, result: Submission, renamerEnabled: bool, now: int)
    ensures st.events <= RecordSnatch(st, c, media, result, renamerEnabled, now).events
    ensures st.files == RecordSnatch(st, c, media, result, renamerEnabled, now).files
    ensures st.releases.Keys == RecordSnatch(st, c, media, result, renamerEnabled, now).releases.Keys
  {
  }

  /** The bookkeeping only sends the snatch notice and status notices. */
  lemma SnatchSendsNotices(st: State, c: Candidate, media: MediaView, result: Submission, renamerEnabled: bool, now: int)
    ensures var es := RecordSnatch(st, c, media, result, renamerEnabled, now).events;
      |st.events| <= |es| && forall e :: e in es[|st.events|..] ==> e.SnatchNotice? || e.StatusChanged?
  {
    match FindRelease(st.releases, UrlDigest(c.url))
    case None =>
    case Some(id) =>
      var rel := st.releases[id];
      var st1 := if result.AcceptedWith? then st.(releases := st.releases[id := rel.(info := WithDownloadInfo(rel.info, result.details))]) else st;
      var st2 := st1.(events := st1.events + [SnatchNotice(id)]);
      var r := RecordSnatch(st, c, media, result, renamerEnabled, now);
      var s := if renamerEnabled then Snatched else Done;
      if renamerEnabled || (media.status == Active && FinishesProfile(media, rel.qualityId)) {
        var st3 := StatusUpdated(st2, id, s, now);
        assert r.events == st3.events;
        if st2.releases[id].status != s {
          assert r.events[|st.events|..] == [SnatchNotice(id), StatusChanged(id, s)];
        } else {
          assert r.events[|st.events|..] == [SnatchNotice(id)];
        }
      } else {
        assert r.events[|st.events|..] == [SnatchNotice(id)];
      }
  }

  /** The events `download` sends up to the submission. */
  lemma SubmissionSent(st: State, c: Candidate, gw: Gateway)
    ensures var st1 := if c.hasDownloadFn then st.(events := st.events + [Fetched(c.url)]) else st;
      var st2 := st1.(events := st1.events + [Submitted(c.url)]);
      |st.events| <= |st2.events| && Submitted(c.url) in st2.events[|st.events|..]
  {
    var st1 := if c.hasDownloadFn then st.(events := st.events + [Fetched(c.url)]) else st;
    var st2 := st1.(events := st1.events + [Submitted(c.url)]);
    assert st2.events[|st.events|..] == (if c.hasDownloadFn then [Fetched(c.url)] else []) + [Submitted(c.url)];
  }

  /** An accepted submission stays in the trace after the bookkeeping. */
  lemma AcceptedTrace(st: State, c: Candidate, media: MediaView, manual: bool, gw: Gateway, renamerEnabled: bool, now: int)
    requires gw.enabled(c, manual) && !(c.hasDownloadFn && gw.transport(c) == TryNextSentinel) && Truthy(gw.submit(c))
    ensures Submitted(c.url) in Download(st, c, media, manual, gw, renamerEnabled, now).0.events[|st.events|..]
  {
    var st1 := if c.hasDownloadFn then st.(events := st.events + [Fetched(c.url)]) else st;
    var st2 := st1.(events := st1.events + [Submitted(c.url)]);
    var st3 := RecordSnatch(st2, c, media, gw.submit(c), renamerEnabled, now);
    SubmissionSent(st, c, gw);
    SnatchKeepsEvents(st2, c, media, gw.submit(c), renamerEnabled, now);
    assert st3.events[|st.events|..] == st2.events[|st.events|..] + st3.events[|st2.events|..];
  }

  /** A submission stays in the trace, and a refusal adds nothing after it. */
  lemma SubmittedTrace(st: State, c: Candidate, media: MediaView, manual: bool, gw: Gateway, renamerEnabled: bool, now: int)
    requires gw.enabled(c, manual) && !(c.hasDownloadFn && gw.transport(c) == TryNextSentinel)
    ensures var (r, a) := Download(st, c, media, manual, gw, renamerEnabled, now);
      var sent := r.events[|st.events|..];
      && Submitted(c.url) in sent && Fetched(c.url) != Submitted(c.url)
      && a == (if Truthy(gw.submit(c)) then Snatch else NoSnatch)
  {
    if Truthy(gw.submit(c)) {
      AcceptedTrace(st, c, media, manual, gw, renamerEnabled, now);
    } else {
      SubmissionSent(st, c, gw);
    }
  }

  /** The result of `download` can be read off what it sent: a snatch is an
      accepted submission, 'try_next' a fetch with no submission, and a
      refusal either nothing at all or a submission the gateway turned down. */
  lemma DownloadTrace(st: State, c: Candidate, media: MediaView, manual: bool, gw: Gateway, renamerEnabled: bool, now: int)
    ensures var (r, a) := Download(st, c, media, manual, gw, renamerEnabled, now);
      var sent := r.events[|st.events|..];
      && (a == Snatch <==> Submitted(c.url) in sent && Truthy(gw.submit(c)))
      && (a == TryNext <==> Fetched(c.url) in sent && Submitted(c.url) !in sent)
      && (a == NoSnatch <==> sent == [] || (Submitted(c.url) in sent && !Truthy(gw.submit(c))))
  {
    var r := Download(st, c, media, manual, gw, renamerEnabled, now).0;
    if !gw.enabled(c, manual) {
      assert r.events[|st.events|..] == [];
    } else if c.hasDownloadFn && gw.transport(c) == TryNextSentinel {
      assert r.events[|st.events|..] == [Fetched(c.url)];
    } else {
      SubmittedTrace(st, c, media, manual, gw, renamerEnabled, now);
    }
  }

  /** A snatch saves the gateway's details into the release's info as
      `download_<key>` entries; a bare acceptance leaves the info alone. */
  lemma SnatchSavesDetails(st: State, c: Candidate, media: MediaView, manual: bool, gw: Gateway, renamerEnabled: bool, now: int, id: int)
    requires UniqueIdentifiers(st.releases)
    requires id in st.releases && st.releases[id].identifier == UrlDigest(c.url)
    requires Outcome(c, manual, gw) == Snatch
    ensures var info := Download(st, c, media, manual, gw, renamerEnabled, now).0.releases[id].info;
      info == (if gw.submit(c).AcceptedWith? then WithDownloadInfo(st.releases[id].info, gw.submit(c).details) else st.releases[id].info)
  {
  }

  /** With the renamer off, a snatch that does not finish the media (media not
      active, or no finishing target of that quality) keeps the release's
      status and the media row. */
  lemma SnatchKeepsStatus(st: State, c: Candidate, media: MediaView, manual: bool, gw: Gateway, now: int, id: int)
    requires UniqueIdentifiers(st.releases)
    requires id in st.releases && st.releases[id].identifier == UrlDigest(c.url)
    requires Outcome(c, manual, gw) == Snatch
    requires !(media.status == Active && FinishesProfile(media, st.releases[id].qualityId))
    ensures var r := Download(st, c, media, manual, gw, false, now).0;
      r.releases[id].status == st.releases[id].status && r.media == st.media
  {
  }

  /** A successful download with the renamer on leaves the release snatched. */
  lemma SnatchWithRenamer(st: State, c: Candidate, media: MediaView, manual: bool, gw: Gateway, now: int, id: int)
    requires UniqueIdentifiers(st.releases)
    requires id in st.releases && st.releases[id].identifier == UrlDigest(c.url)
    requires Outcome(c, manual, gw) == Snatch
    ensures Download(st, c, media, manual, gw, true, now).0.releases[id].status == Snatched
  {
  }

  /** With the renamer off, a snatch of a finishing quality for active media
      marks the release done and, when the media row exists, the media done. */
  lemma SnatchWithoutRenamer(st: State, c: Candidate, media: MediaView, manual: bool, gw: Gateway, now: int, id: int)
    requires UniqueIdentifiers(st.releases)
    requires id in st.releases && st.releases[id].identifier == UrlDigest(c.url)
    requires Outcome(c, manual, gw) == Snatch
    requires media.status == Active && FinishesProfile(media, st.releases[id].qualityId)
    ensures Download(st, c, media, manual, gw, false, now).0.releases[id].status == Done
    ensures media.id in st.media ==> Download(st, c, media, manual, gw, false, now).0.media[media.id].status == Done
  {
  }

  // ------------------------------------------------------------ tryDownloadResult

  /** Python 2 ordering: a missing age (None) is below every number. */
  predicate AgeAtMost(age: Option<int>, days: int) {
    age.None? || age.value <= days
  }

  /** The wait_for rule: a non-finishing target with a wait skips young results. */
  predicate Waiting(c: Candidate, qt: QualityType) {
    !qt.finish && qt.waitFor > 0 && AgeAtMost(c.age, qt.waitFor)
  }

  /** The three skip filters of `tryDownloadResult`. */
  predicate Eligible(c: Candidate, qt: QualityType) {
    !Waiting(c, qt) && c.status != Ignored && c.status != Failed && c.score > 0
  }

  /** Once a result is older than the wait, only status and score can skip it. */
  lemma AgedBecomesEligible(c: Candidate, qt: QualityType, age: int)
    requires age > qt.waitFor && c.status != Ignored && c.status != Failed && c.score > 0
    ensures Eligible(c.(age := Some(age)), qt)
  {
  }

  /** The state and result of `tryDownloadResult` over the remaining candidates. */
  ghost function TryFrom(st: State, cs: seq<Candidate>, media: MediaView, qt: QualityType, manual: bool,
                         gw: Gateway, renamerEnabled: bool, now: int): (State, bool)
    decreases |cs|
  {
    if cs == [] then (st, false)
    else if !Eligible(cs[0], qt) then TryFrom(st, cs[1..], media, qt, manual, gw, renamerEnabled, now)
    else
      var (st1, a) := Download(st, cs[0], media, manual, gw, renamerEnabled, now);
      if a == Snatch then (st1, true)
      else if a == TryNext then TryFrom(st1, cs[1..], media, qt, manual, gw, renamerEnabled, now)
      else (st1, false)
  }

  /** The candidates `tryDownloadResult` hands to `download`, in order. */
  function Attempted(cs: seq<Candidate>, qt: QualityType, manual: bool, gw: Gateway): seq<Candidate> {
    if cs == [] then []
    else if !Eligible(cs[0], qt) then Attempted(cs[1..], qt, manual, gw)
    else if Outcome(cs[0], manual, gw) == TryNext then [cs[0]] + Attempted(cs[1..], qt, manual, gw)
    else [cs[0]]
  }

  /** The eligible candidates, in order. */
  function EligibleOnes(cs: seq<Candidate>, qt: QualityType): seq<Candidate> {
    if cs == [] then []
    else if Eligible(cs[0], qt) then [cs[0]] + EligibleOnes(cs[1..], qt)
    else EligibleOnes(cs[1..], qt)
  }

  /** Downloads run one after the other, results ignored. */
  ghost function DownloadAll(st: State, cs: seq<Candidate>, media: MediaView, manual: bool, gw: Gateway,
                             renamerEnabled: bool, now: int): State
    decreases |cs|
  {
    if cs == [] then st
    else DownloadAll(Download(st, cs[0], media, manual, gw, renamerEnabled, now).0, cs[1..], media, manual, gw, renamerEnabled, now)
  }

  /** `tryDownloadResult` downloads exactly the attempted candidates and
      succeeds iff the last of them was snatched. */
  lemma {:induction false} TryFromIsAttempts(st: State, cs: seq<Candidate>, media: MediaView, qt: QualityType,
                                             manual: bool, gw: Gateway, renamerEnabled: bool, now: int)
    ensures var a := Attempted(cs, qt, manual, gw);
      && TryFrom(st, cs, media, qt, manual, gw, renamerEnabled, now).0 == DownloadAll(st, a, media, manual, gw, renamerEnabled, now)
      && TryFrom(st, cs, media, qt, manual, gw, renamerEnabled, now).1 == (|a| > 0 && Outcome(a[|a| - 1], manual, gw) == Snatch)
    decreases |cs|
  {
    if cs != [] {
      var st1 := Download(st, cs[0], media, manual, gw, renamerEnabled, now).0;
      if !Eligible(cs[0], qt) {
        TryFromIsAttempts(st, cs[1..], media, qt, manual, gw, renamerEnabled, now);
      } else if Outcome(cs[0], manual, gw) == TryNext {
        TryFromIsAttempts(st1, cs[1..], media, qt, manual, gw, renamerEnabled, now);
        var rest := Attempted(cs[1..], qt, manual, gw);
        assert Attempted(cs, qt, manual, gw) == [cs[0]] + rest;
        assert ([cs[0]] + rest)[1..] == rest;
        if |rest| > 0 {
          assert ([cs[0]] + rest)[|rest|] == rest[|rest| - 1];
        }
      } else {
        assert Attempted(cs, qt, manual, gw) == [cs[0]];
        assert DownloadAll(st1, [], media, manual, gw, renamerEnabled, now) == st1;
      }
    }
  }

  /** Every attempted candidate passed the three filters; every attempt but
      the last returned 'try_next'; the attempts are the eligible candidates
      from the front; and fewer than all of them only when the last attempt
      did not say 'try_next'. */
  lemma {:induction false} AttemptedShape(cs: seq<Candidate>, qt: QualityType, manual: bool, gw: Gateway)
    ensures var a := Attempted(cs, qt, manual, gw);
      && (forall c :: c in a ==> Eligible(c, qt))
      && (forall i :: 0 <= i < |a| - 1 ==> Outcome(a[i], manual, gw) == TryNext)
      && a <= EligibleOnes(cs, qt)
      && (|a| < |EligibleOnes(cs, qt)| ==> |a| > 0 && Outcome(a[|a| - 1], manual, gw) != TryNext)
  {
    if cs != [] {
      AttemptedShape(cs[1..], qt, manual, gw);
      var rest := Attempted(cs[1..], qt, manual, gw);
      if Eligible(cs[0], qt) && Outcome(cs[0], manual, gw) == TryNext {
        var a := [cs[0]] + rest;
        assert Attempted(cs, qt, manual, gw) == a;
        forall i | 0 <= i < |a| - 1 ensures Outcome(a[i], manual, gw) == TryNext {
          if i > 0 { assert a[i] == rest[i - 1]; }
        }
        if |rest| > 0 { assert a[|a| - 1] == rest[|rest| - 1]; }
      }
    }
  }

  /** No candidate with a non-positive score is ever attempted. */
  lemma LowScoreNeverAttempted(cs: seq<Candidate>, qt: QualityType, manual: bool, gw: Gateway, c: Candidate)
    requires c.score <= 0 || c.status == Ignored || c.status == Failed || Waiting(c, qt)
    ensures c !in Attempted(cs, qt, manual, gw)
  {
    AttemptedShape(cs, qt, manual, gw);
  }

  // ------------------------------------------------------------ createFromSearch

  /** A search-result value: the scalars (str, int, float) are saved as info. */
  datatype SearchValue = Scalar(text: string) | NonScalar

  datatype SearchResult = SearchResult(fields: map<string, SearchValue>)

  predicate HasUrl(r: SearchResult) {
    "url" in r.fields && r.fields["url"].Scalar?
  }

  function Url(r: SearchResult): string
    requires HasUrl(r)
  {
    r.fields["url"].text
  }

  /** The info rows `createFromSearch` writes: every scalar field. */
  function ScalarInfo(r: SearchResult): (info: Info)
    ensures info.InfoMap?
    ensures forall k :: k in info.entries <==> k in r.fields && r.fields[k].Scalar?
    ensures forall k :: k in info.entries ==> info.entries[k] == r.fields[k].text
  {
    InfoMap(map k | k in r.fields && r.fields[k].Scalar? :: r.fields[k].text)
  }

  /** The release rows and next free id after saving one search result. */
  ghost function SaveResult(releases: map<int, Release>, nextId: int, r: SearchResult,
                            mediaId: int, qualityId: int, now: int): (out: (map<int, Release>, int))
    requires HasUrl(r)
  {
    match FindRelease(releases, UrlDigest(Url(r)))
    case Some(id) => (releases[id := releases[id].(info := ScalarInfo(r), lastEdit := now)], nextId)
    case None => (releases[nextId := Release(UrlDigest(Url(r)), mediaId, qualityId, Available, ScalarInfo(r), {}, now)], nextId + 1)
  }

  /** The release rows and next free id after saving results in order. */
  ghost function SaveResults(releases: map<int, Release>, nextId: int, rs: seq<SearchResult>,
                             mediaId: int, qualityId: int, now: int): (map<int, Release>, int)
    requires forall i :: 0 <= i < |rs| ==> HasUrl(rs[i])
    decreases |rs|
  {
    if rs == [] then (releases, nextId)
    else
      var (rel1, next1) := SaveResult(releases, nextId, rs[0], mediaId, qualityId, now);
      SaveResults(rel1, next1, rs[1..], mediaId, qualityId, now)
  }

  /** Ids below `nextId` are the taken ones. */
  ghost predicate IdsBelow(releases: map<int, Release>, nextId: int) {
    forall id :: id in releases ==> id < nextId
  }

  /** Saving one result keeps identifiers unique, never changes a status,
      drops no row, and leaves a row for the result's url whose info is the
      result's scalars. */
  lemma SaveResultFacts(releases: map<int, Release>, nextId: int, r: SearchResult, mediaId: int, qualityId: int, now: int)
    requires HasUrl(r) && UniqueIdentifiers(releases) && IdsBelow(releases, nextId)
    ensures var (rel1, next1) := SaveResult(releases, nextId, r, mediaId, qualityId, now);
      && UniqueIdentifiers(rel1) && IdsBelow(rel1, next1) && nextId <= next1
      && releases.Keys <= rel1.Keys
      && (forall id :: id in releases ==> rel1[id].status == releases[id].status && rel1[id].identifier == releases[id].identifier)
      && (forall id :: id in rel1 && id !in releases ==> rel1[id].status == Available)
      && FindRelease(rel1, UrlDigest(Url(r))).Some?
      && rel1[FindRelease(rel1, UrlDigest(Url(r))).value].info == ScalarInfo(r)
  {
    var (rel1, next1) := SaveResult(releases, nextId, r, mediaId, qualityId, now);
    match FindRelease(releases, UrlDigest(Url(r)))
    case Some(id) =>
      assert rel1[id].identifier == UrlDigest(Url(r));
      var f := FindRelease(rel1, UrlDigest(Url(r)));
      assert f.value == id;
    case None =>
      assert rel1[nextId].identifier == UrlDigest(Url(r));
      var f := FindRelease(rel1, UrlDigest(Url(r)));
      assert f.value == nextId;
  }

  /** A row found before saving a result is still found, with its status. */
  lemma SaveResultKeepsFound(releases: map<int, Release>, nextId: int, r: SearchResult, mediaId: int, qualityId: int, now: int,
                             ident: Identifier)
    requires HasUrl(r) && UniqueIdentifiers(releases) && IdsBelow(releases, nextId)
    requires FindRelease(releases, ident).Some?
    ensures var rel1 := SaveResult(releases, nextId, r, mediaId, qualityId, now).0;
      FindRelease(rel1, ident).Some? && rel1[FindRelease(rel1, ident).value].status == releases[FindRelease(releases, ident).value].status
  {
    SaveResultFacts(releases, nextId, r, mediaId, qualityId, now);
    var rel1 := SaveResult(releases, nextId, r, mediaId, qualityId, now).0;
    var was := FindRelease(releases, ident).value;
    assert rel1[was].identifier == ident;
  }

  /** After saving all results every url has exactly one row, no existing
      status changed, and the new rows are available. */
  lemma {:induction false} SaveResultsFacts(releases: map<int, Release>, nextId: int, rs: seq<SearchResult>,
                                            mediaId: int, qualityId: int, now: int)
    requires forall i :: 0 <= i < |rs| ==> HasUrl(rs[i])
    requires UniqueIdentifiers(releases) && IdsBelow(releases, nextId)
    ensures var (rel1, next1) := SaveResults(releases, nextId, rs, mediaId, qualityId, now);
      && UniqueIdentifiers(rel1) && IdsBelow(rel1, next1) && nextId <= next1
      && releases.Keys <= rel1.Keys
      && (forall id :: id in releases ==> rel1[id].status == releases[id].status && rel1[id].identifier == releases[id].identifier)
      && (forall id :: id in rel1 && id !in releases ==> rel1[id].status == Available)
      && (forall i :: 0 <= i < |rs| ==> FindRelease(rel1, UrlDigest(Url(rs[i]))).Some?)
    decreases |rs|
  {
    if rs != [] {
      var (rel1, next1) := SaveResult(releases, nextId, rs[0], mediaId, qualityId, now);
      SaveResultFacts(releases, nextId, rs[0], mediaId, qualityId, now);
      SaveResultsFacts(rel1, next1, rs[1..], mediaId, qualityId, now);
      var (rel2, next2) := SaveResults(rel1, next1, rs[1..], mediaId, qualityId, now);
      forall i | 0 <= i < |rs| ensures FindRelease(rel2, UrlDigest(Url(rs[i]))).Some? {
        if i == 0 {
          var id := FindRelease(rel1, UrlDigest(Url(rs[0]))).value;
          assert rel2[id].identifier == UrlDigest(Url(rs[0]));
        } else {
          assert rs[i] == rs[1..][i - 1];
        }
      }
    }
  }

  // ------------------------------------------------------------ release.add identifier

  /** `'%s.%s.%s' % (library identifier, audio or 'unknown', quality identifier)`. */
  function AddIdentifier(library: string, audio: Option<string>, quality: string): Identifier {
    Composite(library + "." + (if audio.Some? then audio.value else "unknown") + "." + quality)
  }

  predicate DotFree(s: string) {
    forall i :: 0 <= i < |s| ==> s[i] != '.'
  }

  /** The identifier starts with the library identifier (what the snatched-release lookup tests). */
  lemma AddIdentifierPrefix(library: string, audio: Option<string>, quality: string)
    ensures library + "." <= AddIdentifier(library, audio, quality).text
  {
  }

  /** The identifier determines its three parts when they contain no dots. */
  lemma AddIdentifierInjective(l1: string, a1: string, q1: string, l2: string, a2: string, q2: string)
    requires DotFree(l1) && DotFree(a1) && DotFree(l2) && DotFree(a2)
    requires AddIdentifier(l1, Some(a1), q1) == AddIdentifier(l2, Some(a2), q2)
    ensures l1 == l2 && a1 == a2 && q1 == q2
  {
    assert l1 + "." + a1 + "." + q1 == l1 + "." + (a1 + "." + q1);
    assert l2 + "." + a2 + "." + q2 == l2 + "." + (a2 + "." + q2);
    SplitAtFirstDot(l1, a1 + "." + q1, l2, a2 + "." + q2);
    SplitAtFirstDot(a1, q1, a2, q2);
  }

  /** A dot-free head is cut off at the first dot. */
  lemma SplitAtFirstDot(p: string, rest: string, q: string, rest2: string)
    requires DotFree(p) && DotFree(q) && p + "." + rest == q + "." + rest2
    ensures p == q && rest == rest2
  {
    var s := p + "." + rest;
    FirstDot(p, rest);
    FirstDot(q, rest2);
    assert p == s[..|p|] && q == s[..|q|];
    assert rest == s[|p| + 1..] && rest2 == s[|q| + 1..];
  }

  /** In `p + "." + rest` with a dot-free `p`, the first dot is at `|p|`. */
  lemma FirstDot(p: string, rest: string)
    requires DotFree(p)
    ensures FirstDotIndex(p + "." + rest) == |p|
  {
    var s := p + "." + rest;
    assert s[|p|] == '.';
    assert forall i :: 0 <= i < |p| ==> s[i] == p[i];
    FirstDotIndexSpec(s, |p|);
  }

  function FirstDotIndex(s: string): (k: nat)
    ensures k <= |s|
    ensures k < |s| ==> s[k] == '.'
    ensures forall i :: 0 <= i < k ==> s[i] != '.'
  {
    if s == [] then 0 else if s[0] == '.' then 0 else 1 + FirstDotIndex(s[1..])
  }

  lemma FirstDotIndexSpec(s: string, k: nat)
    requires k < |s| && s[k] == '.' && forall i :: 0 <= i < k ==> s[i] != '.'
    ensures FirstDotIndex(s) == k
  {
  }
}
