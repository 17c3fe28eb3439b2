/** The reconciliation pass `checkSnatched`: in-flight releases are matched
    against the downloaders' reports, moved to their next status, and the
    finished downloads are queued for the renamer. Written as functions over
    the store; the class in module Releases runs the same pass with loops. */
module Reconcile {
  import opened Optional
  import opened Statuses
  import opened Records
  import opened TagMarkers
  import opened ReleaseRules

  /** The settings the pass reads. */
  datatype Config = Config(fileAction: string, nextOnFailed: bool, renamerEnabled: bool)

  /** A renamer scan: of everything, or of one download record. */
  datatype ScanRequest = ScanEverything | ScanOne(rd: DownloadRecord)

  /** The collaborators of a pass: the from-folder test, the renamer (which
      may change files on disk) and the downloaders' status poll. */
  datatype Services = Services(
    inFrom: string -> bool,
    renamer: (ScanRequest, set<string>) -> set<string>,
    poll: seq<DownloadKey> -> seq<DownloadRecord>)

  /** How long a release may stay missing before it is ignored: 7 days in seconds. */
  const MissingGrace := 7 * 24 * 60 * 60

  /** `info.get(key)` is truthy. */
  predicate HasValue(info: Info, key: string) {
    info.InfoMap? && key in info.entries && info.entries[key] != ""
  }

  // ------------------------------------------------------------ collecting download ids

  /** The keys sent to `download.status`, or None when the collection loop
      raises (info that is not a dict, or a `download_id` without a
      `download_downloader`). Defined on prefixes, as the loop runs. */
  function CollectKeys(releases: map<int, Release>, order: seq<int>): Option<seq<DownloadKey>>
    requires forall i :: 0 <= i < |order| ==> order[i] in releases
    decreases |order|
  {
    if order == [] then Some([])
    else
      match CollectKeys(releases, order[..|order| - 1])
      case None => None
      case Some(keys) =>
        var info := releases[order[|order| - 1]].info;
        if info.NotAMapping? then None
        else if !HasValue(info, "download_id") then Some(keys)
        else if "download_downloader" !in info.entries then None
        else Some(keys + [DownloadKey(info.entries["download_id"], info.entries["download_downloader"])])
  }

  /** A release whose info breaks the collection loop. */
  predicate Faulty(rel: Release) {
    rel.info.NotAMapping? || (HasValue(rel.info, "download_id") && "download_downloader" !in rel.info.entries)
  }

  /** The collection fails exactly when some in-flight release is faulty. */
  lemma {:induction false} CollectFailsIffFaulty(releases: map<int, Release>, order: seq<int>)
    requires forall i :: 0 <= i < |order| ==> order[i] in releases
    ensures CollectKeys(releases, order).None? <==> exists i :: 0 <= i < |order| && Faulty(releases[order[i]])
    decreases |order|
  {
    if order != [] {
      var front := order[..|order| - 1];
      CollectFailsIffFaulty(releases, front);
      if exists i :: 0 <= i < |front| && Faulty(releases[front[i]]) {
        var i :| 0 <= i < |front| && Faulty(releases[front[i]]);
        assert order[i] == front[i];
      }
      if exists i :: 0 <= i < |order| && Faulty(releases[order[i]]) {
        var i :| 0 <= i < |order| && Faulty(releases[order[i]]);
        if i < |front| { assert front[i] == order[i]; }
      }
    }
  }

  /** A failure on a prefix is a failure of the whole collection. */
  lemma {:induction false} CollectFailurePersists(releases: map<int, Release>, order: seq<int>, n: nat)
    requires forall i :: 0 <= i < |order| ==> order[i] in releases
    requires n <= |order| && CollectKeys(releases, order[..n]).None?
    ensures CollectKeys(releases, order).None?
    decreases |order| - n
  {
    if n < |order| {
      assert order[..n + 1][..n] == order[..n];
      CollectFailurePersists(releases, order, n + 1);
    } else {
      assert order[..n] == order;
    }
  }

  /** Once the collection succeeded, every in-flight release has dict info,
      so the pass never takes its "faulty release" branch. */
  lemma CollectedMeansMappings(releases: map<int, Release>, order: seq<int>, i: int)
    requires forall k :: 0 <= k < |order| ==> order[k] in releases
    requires CollectKeys(releases, order).Some?
    requires 0 <= i < |order|
    ensures releases[order[i]].info.InfoMap?
  {
    CollectFailsIffFaulty(releases, order);
  }

  // ------------------------------------------------------------ matching reports

  function KeyOf(rd: DownloadRecord): DownloadKey {
    DownloadKey(rd.id, rd.downloader)
  }

  /** The first report with the release's `(id, downloader)`. */
  function FirstMatch(ds: seq<DownloadRecord>, key: DownloadKey): (r: Option<nat>)
    ensures r.Some? ==> r.value < |ds| && KeyOf(ds[r.value]) == key
    ensures r.Some? ==> forall i :: 0 <= i < r.value ==> KeyOf(ds[i]) != key
    ensures r.None? <==> forall i :: 0 <= i < |ds| ==> KeyOf(ds[i]) != key
    decreases |ds|
  {
    if ds == [] then None
    else if KeyOf(ds[0]) == key then Some(0)
    else match FirstMatch(ds[1..], key)
      case None => None
      case Some(j) => Some(j + 1)
  }

  /** A report without the flags the pass writes into it. */
  function Report(rd: DownloadRecord): DownloadRecord {
    rd.(pause := false, scan := false, processComplete := false)
  }

  predicate SameReports(a: seq<DownloadRecord>, b: seq<DownloadRecord>) {
    |a| == |b| && forall i :: 0 <= i < |a| ==> Report(a[i]) == Report(b[i])
  }

  /** Matching reads only the id and downloader, which the pass never writes. */
  lemma {:induction false} FirstMatchReports(a: seq<DownloadRecord>, b: seq<DownloadRecord>, key: DownloadKey)
    requires SameReports(a, b)
    ensures FirstMatch(a, key) == FirstMatch(b, key)
    decreases |a|
  {
    if a != [] {
      assert KeyOf(a[0]) == KeyOf(Report(a[0])) == KeyOf(Report(b[0])) == KeyOf(b[0]);
      assert forall i :: 0 <= i < |a| - 1 ==> a[1..][i] == a[i + 1] && b[1..][i] == b[i + 1];
      FirstMatchReports(a[1..], b[1..], key);
    }
  }

  // ------------------------------------------------------------ one release

  /** The pass so far: the store, the polled records (whose flags are written
      in place), the queue of record indices for the end-of-pass batch, the
      fallback-scan flag, and whether an exception ended the loop. */
  datatype Pass = Pass(st: State, downloads: seq<DownloadRecord>, queue: seq<nat>, scanRequired: bool, aborted: bool)

  predicate QueueOk(p: Pass) {
    forall k :: 0 <= k < |p.queue| ==> p.queue[k] < |p.downloads|
  }

  /** `b` extends the trace `a` without a request to scan everything. */
  predicate QuietlyExtends(a: seq<Event>, b: seq<Event>) {
    a <= b && ScanAll !in b[|a|..]
  }

  lemma QuietlyExtendsTrans(a: seq<Event>, b: seq<Event>, c: seq<Event>)
    requires QuietlyExtends(a, b) && QuietlyExtends(b, c)
    ensures QuietlyExtends(a, c)
  {
    assert c[|a|..] == b[|a|..] + c[|b|..];
  }

  /** A status update sends at most its notice, never a full scan. */
  lemma StatusUpdatedQuiet(st: State, id: int, s: Status, now: int)
    ensures QuietlyExtends(st.events, StatusUpdated(st, id, s, now).events)
  {
    assert st.events[|st.events|..] == [];
  }

  /** `release_download.update({...})` then `scan_releases.append(release_download)`. */
  function Enqueue(p: Pass, j: nat, pause: bool, scan: bool, processComplete: bool): (q: Pass)
    requires j < |p.downloads| && QueueOk(p)
    ensures QueueOk(q) && SameReports(p.downloads, q.downloads)
    ensures q.queue == p.queue + [j] && q.st == p.st && q.scanRequired == p.scanRequired && q.aborted == p.aborted
    ensures q.downloads[j].pause == pause && q.downloads[j].scan == scan && q.downloads[j].processComplete == processComplete
  {
    p.(downloads := p.downloads[j := p.downloads[j].(pause := pause, scan := scan, processComplete := processComplete)],
       queue := p.queue + [j])
  }

  /** The store changes and queue entries for release `id` matched to report `j`. */
  function HandleReport(p: Pass, id: int, j: nat, cfg: Config, dirs: set<string>, svc: Services, now: int): (q: Pass)
    requires id in p.st.releases && j < |p.downloads| && QueueOk(p) && !p.aborted
    ensures QueueOk(q) && SameReports(p.downloads, q.downloads)
    ensures q.st.releases.Keys == p.st.releases.Keys && q.st.media == p.st.media && !q.aborted
    ensures q.scanRequired == (p.scanRequired || (p.downloads[j].status == Complete && !StatusInfoComplete(p.downloads[j])))
    ensures forall k :: k in p.st.releases && k != id ==> q.st.releases[k] == p.st.releases[k]
    ensures QuietlyExtends(p.st.events, q.st.events)
  {
    var rel := p.st.releases[id];
    var rd := p.downloads[j];
    match rd.status
    case Busy =>
      var st1 := StatusUpdated(p.st, id, Snatched, now);
      StatusUpdatedQuiet(p.st, id, Snatched, now);
      p.(st := if svc.inFrom(rd.folder) then st1.(files := Tagged(st1.files, dirs, "downloading", FromDownload(rd))) else st1)
    case Seed =>
      if cfg.fileAction != "move" && rel.status != Seeding && StatusInfoComplete(rd) then
        assert p.st.events[|p.st.events|..] == [];
        Enqueue(p.(st := p.st.(files := Untagged(p.st.files, dirs, "downloading", rd))), j, true, true, false)
      else
        StatusUpdatedQuiet(p.st, id, Seeding, now);
        p.(st := StatusUpdated(p.st, id, Seeding, now))
    case Fail =>
      var st1 := StatusUpdated(p.st, id, Failed, now);
      var st2 := st1.(events := st1.events + [RemoveFailed(j)]);
      var st3 := if cfg.nextOnFailed then st2.(events := st2.events + [TryNextRelease(rel.mediaId)]) else st2;
      StatusUpdatedQuiet(p.st, id, Failed, now);
      assert QuietlyExtends(st1.events, st3.events) by {
        assert st3.events[|st1.events|..] == [RemoveFailed(j)] + (if cfg.nextOnFailed then [TryNextRelease(rel.mediaId)] else []);
      }
      QuietlyExtendsTrans(p.st.events, st1.events, st3.events);
      p.(st := st3)
    case Complete =>
      assert p.st.events[|p.st.events|..] == [];
      if !StatusInfoComplete(rd) then p.(scanRequired := true)
      else if rel.status == Seeding then
        StatusUpdatedQuiet(p.st, id, Downloaded, now);
        if cfg.fileAction != "move" then Enqueue(p.(st := StatusUpdated(p.st, id, Downloaded, now)), j, false, false, true)
        else Enqueue(p, j, false, true, true)
      else
        var st1 := StatusUpdated(p.st, id, Snatched, now);
        StatusUpdatedQuiet(p.st, id, Snatched, now);
        Enqueue(p.(st := st1.(files := Untagged(st1.files, dirs, "downloading", rd))), j, false, true, true)
    case Unrecognised =>
      assert p.st.events[|p.st.events|..] == [];
      p
  }

  /** The loop body of the pass for release `id`. */
  function Step(p: Pass, id: int, cfg: Config, dirs: set<string>, svc: Services, now: int): (q: Pass)
    requires id in p.st.releases && QueueOk(p) && !p.aborted
    ensures QueueOk(q) && SameReports(p.downloads, q.downloads)
    ensures q.st.releases.Keys == p.st.releases.Keys && q.st.media == p.st.media
    ensures forall k :: k in p.st.releases && k != id ==> q.st.releases[k] == p.st.releases[k]
    ensures q.aborted ==> q == p.(aborted := true)
    ensures !p.scanRequired ==> q.scanRequired == (!q.aborted && NeedsFallbackScan(p.st.releases[id], p.downloads))
    ensures p.scanRequired ==> q.scanRequired
    ensures QuietlyExtends(p.st.events, q.st.events)
  {
    var rel := p.st.releases[id];
    if rel.info.NotAMapping? then p.(st := StatusUpdated(p.st, id, Ignored, now))
    else if !HasValue(rel.info, "download_id") then
      if "name" in rel.info.entries then p.(scanRequired := true) else p.(aborted := true)
    else if "download_downloader" !in rel.info.entries then p.(aborted := true)
    else
      match FirstMatch(p.downloads, DownloadKey(rel.info.entries["download_id"], rel.info.entries["download_downloader"]))
      case None =>
        if rel.status != Missing then p.(st := StatusUpdated(p.st, id, Missing, now))
        else if rel.lastEdit < now - MissingGrace then p.(st := StatusUpdated(p.st, id, Ignored, now))
        else p
      case Some(j) => HandleReport(p, id, j, cfg, dirs, svc, now)
  }

  /** A release asks for the fallback scan when it has no download id, or
      when its completed report lacks id, downloader or folder. */
  predicate NeedsFallbackScan(rel: Release, ds: seq<DownloadRecord>) {
    rel.info.InfoMap? &&
    if !HasValue(rel.info, "download_id") then "name" in rel.info.entries
    else
      "download_downloader" in rel.info.entries &&
      match FirstMatch(ds, DownloadKey(rel.info.entries["download_id"], rel.info.entries["download_downloader"]))
      case None => false
      case Some(j) => ds[j].status == Complete && !StatusInfoComplete(ds[j])
  }

  // ------------------------------------------------------------ what each report does

  /** Record `j` was queued for the end-of-pass batch with these flags, and
      no other record was touched. */
  predicate QueuedWith(p: Pass, q: Pass, j: nat, pause: bool, scan: bool, processComplete: bool) {
    && q.queue == p.queue + [j] && |q.downloads| == |p.downloads| && j < |q.downloads|
    && q.downloads[j].pause == pause && q.downloads[j].scan == scan && q.downloads[j].processComplete == processComplete
    && forall k :: 0 <= k < |p.downloads| && k != j ==> q.downloads[k] == p.downloads[k]
  }

  /** Nothing was queued and no record was written. */
  predicate NothingQueued(p: Pass, q: Pass) {
    q.queue == p.queue && q.downloads == p.downloads
  }

  /** The notice `updateStatus` sends: one, when the status really changes. */
  function StatusNotice(rel: Release, id: int, s: Status): seq<Event> {
    if rel.status != s then [StatusChanged(id, s)] else []
  }

  /** 'busy': snatched, and the `downloading` tag only inside the from folder. */
  lemma HandleBusy(p: Pass, id: int, j: nat, cfg: Config, dirs: set<string>, svc: Services, now: int)
    requires id in p.st.releases && j < |p.downloads| && QueueOk(p) && !p.aborted
    requires p.downloads[j].status == Busy
    ensures var q := HandleReport(p, id, j, cfg, dirs, svc, now);
      var rel, rd := p.st.releases[id], p.downloads[j];
      && NothingQueued(p, q) && q.st.releases[id].status == Snatched
      && q.st.events == p.st.events + StatusNotice(rel, id, Snatched)
      && q.st.files == (if svc.inFrom(rd.folder) then Tagged(p.st.files, dirs, "downloading", FromDownload(rd)) else p.st.files)
  {
  }

  /** 'seeding': processed once when linking and complete (untagged, queued
      paused for a scan, status kept), otherwise left seeding. */
  lemma HandleSeed(p: Pass, id: int, j: nat, cfg: Config, dirs: set<string>, svc: Services, now: int)
    requires id in p.st.releases && j < |p.downloads| && QueueOk(p) && !p.aborted
    requires p.downloads[j].status == Seed
    ensures var q := HandleReport(p, id, j, cfg, dirs, svc, now);
      var rel, rd := p.st.releases[id], p.downloads[j];
      if cfg.fileAction != "move" && rel.status != Seeding && StatusInfoComplete(rd) then
        && QueuedWith(p, q, j, true, true, false)
        && q.st == p.st.(files := Untagged(p.st.files, dirs, "downloading", rd))
      else
        && NothingQueued(p, q) && q.st.releases[id].status == Seeding
        && q.st.events == p.st.events + StatusNotice(rel, id, Seeding) && q.st.files == p.st.files
  {
  }

  /** 'failed': failed, the failed download removed, and the next release
      tried only when `next_on_failed` is set. */
  lemma HandleFail(p: Pass, id: int, j: nat, cfg: Config, dirs: set<string>, svc: Services, now: int)
    requires id in p.st.releases && j < |p.downloads| && QueueOk(p) && !p.aborted
    requires p.downloads[j].status == Fail
    ensures var q := HandleReport(p, id, j, cfg, dirs, svc, now);
      var rel := p.st.releases[id];
      && NothingQueued(p, q) && q.st.releases[id].status == Failed && q.st.files == p.st.files
      && q.st.events == p.st.events + StatusNotice(rel, id, Failed) + [RemoveFailed(j)]
                        + (if cfg.nextOnFailed then [TryNextRelease(rel.mediaId)] else [])
  {
  }

  /** 'completed': without id, downloader and folder only the fallback scan is
      asked for; after seeding, a linked release becomes downloaded and is
      queued for clean-up only, a moved one for a scan and clean-up; any other
      release is snatched, untagged and queued for a scan and clean-up. */
  lemma HandleComplete(p: Pass, id: int, j: nat, cfg: Config, dirs: set<string>, svc: Services, now: int)
    requires id in p.st.releases && j < |p.downloads| && QueueOk(p) && !p.aborted
    requires p.downloads[j].status == Complete
    ensures var q := HandleReport(p, id, j, cfg, dirs, svc, now);
      var rel, rd := p.st.releases[id], p.downloads[j];
      if !StatusInfoComplete(rd) then q == p.(scanRequired := true)
      else if rel.status == Seeding && cfg.fileAction != "move" then
        && QueuedWith(p, q, j, false, false, true) && q.st.releases[id].status == Downloaded
        && q.st.events == p.st.events + [StatusChanged(id, Downloaded)] && q.st.files == p.st.files
      else if rel.status == Seeding then
        QueuedWith(p, q, j, false, true, true) && q.st == p.st
      else
        && QueuedWith(p, q, j, false, true, true) && q.st.releases[id].status == Snatched
        && q.st.events == p.st.events + StatusNotice(rel, id, Snatched)
        && q.st.files == Untagged(p.st.files, dirs, "downloading", rd)
  {
  }

  /** Any other report status changes nothing. */
  lemma HandleUnrecognised(p: Pass, id: int, j: nat, cfg: Config, dirs: set<string>, svc: Services, now: int)
    requires id in p.st.releases && j < |p.downloads| && QueueOk(p) && !p.aborted
    requires p.downloads[j].status == Unrecognised
    ensures HandleReport(p, id, j, cfg, dirs, svc, now) == p
  {
  }

  /** The turn of a release whose report was found is `HandleReport` on it. */
  lemma StepMatched(p: Pass, id: int, j: nat, cfg: Config, dirs: set<string>, svc: Services, now: int)
    requires id in p.st.releases && QueueOk(p) && !p.aborted
    requires var rel := p.st.releases[id];
      rel.info.InfoMap? && HasValue(rel.info, "download_id") && "download_downloader" in rel.info.entries &&
      FirstMatch(p.downloads, DownloadKey(rel.info.entries["download_id"], rel.info.entries["download_downloader"])) == Some(j)
    ensures j < |p.downloads| && Step(p, id, cfg, dirs, svc, now) == HandleReport(p, id, j, cfg, dirs, svc, now)
  {
  }

  /** A turn without a matching report queues nothing, touches no file and
      sends at most the status notice of its release. */
  lemma StepUnmatched(p: Pass, id: int, cfg: Config, dirs: set<string>, svc: Services, now: int)
    requires id in p.st.releases && QueueOk(p) && !p.aborted
    requires var rel := p.st.releases[id];
      !(rel.info.InfoMap? && HasValue(rel.info, "download_id") && "download_downloader" in rel.info.entries &&
        FirstMatch(p.downloads, DownloadKey(rel.info.entries["download_id"], rel.info.entries["download_downloader"])).Some?)
    ensures var q := Step(p, id, cfg, dirs, svc, now);
      && NothingQueued(p, q) && q.st.files == p.st.files
      && q.st.events == p.st.events + StatusNotice(p.st.releases[id], id, q.st.releases[id].status)
  {
  }

  /** A turn raises exactly when a release without a download id has no
      `name`, or one with a download id has no `download_downloader`. */
  predicate StepRaises(rel: Release) {
    rel.info.InfoMap? &&
    if !HasValue(rel.info, "download_id") then "name" !in rel.info.entries
    else "download_downloader" !in rel.info.entries
  }

  lemma StepRaisesIff(p: Pass, id: int, cfg: Config, dirs: set<string>, svc: Services, now: int)
    requires id in p.st.releases && QueueOk(p) && !p.aborted
    ensures Step(p, id, cfg, dirs, svc, now).aborted <==> StepRaises(p.st.releases[id])
  {
  }

  /** A release that needs the fallback scan does not raise. */
  lemma NeedsScanNoRaise(rel: Release, ds: seq<DownloadRecord>)
    requires NeedsFallbackScan(rel, ds)
    ensures !StepRaises(rel)
  {
  }

  /** Whether a release needs the fallback scan ignores the flags the pass writes. */
  lemma NeedsScanReports(rel: Release, a: seq<DownloadRecord>, b: seq<DownloadRecord>)
    requires SameReports(a, b)
    ensures NeedsFallbackScan(rel, a) == NeedsFallbackScan(rel, b)
  {
    if rel.info.InfoMap? && HasValue(rel.info, "download_id") && "download_downloader" in rel.info.entries {
      var key := DownloadKey(rel.info.entries["download_id"], rel.info.entries["download_downloader"]);
      FirstMatchReports(a, b, key);
      var found := FirstMatch(a, key);
      if found.Some? {
        var x, y := a[found.value], b[found.value];
        assert Report(x) == Report(y);
        assert x.status == y.status && x.id == y.id && x.downloader == y.downloader && x.folder == y.folder;
      }
    }
  }

  /** The loop over in-flight releases, stopped by the first exception. */
  function ReconcileAll(p0: Pass, order: seq<int>, cfg: Config, dirs: set<string>, svc: Services, now: int): (p: Pass)
    requires forall i :: 0 <= i < |order| ==> order[i] in p0.st.releases
    requires QueueOk(p0)
    ensures QueueOk(p) && SameReports(p0.downloads, p.downloads)
    ensures p.st.releases.Keys == p0.st.releases.Keys && p.st.media == p0.st.media
    ensures forall k :: k in p0.st.releases && k !in order ==> p.st.releases[k] == p0.st.releases[k]
    ensures p0.aborted ==> p == p0
    ensures QuietlyExtends(p0.st.events, p.st.events)
    decreases |order|
  {
    if order == [] then
      assert p0.st.events[|p0.st.events|..] == [];
      p0
    else
      var p1 := ReconcileAll(p0, order[..|order| - 1], cfg, dirs, svc, now);
      assert forall k :: k !in order ==> k !in order[..|order| - 1];
      if p1.aborted then p1
      else
        var p2 := Step(p1, order[|order| - 1], cfg, dirs, svc, now);
        QuietlyExtendsTrans(p0.st.events, p1.st.events, p2.st.events);
        p2
  }

  /** One more turn of the loop. */
  lemma ReconcileAllNext(p0: Pass, order: seq<int>, i: nat, cfg: Config, dirs: set<string>, svc: Services, now: int)
    requires forall k :: 0 <= k < |order| ==> order[k] in p0.st.releases
    requires QueueOk(p0) && i < |order|
    ensures var p := ReconcileAll(p0, order[..i], cfg, dirs, svc, now);
      && order[i] in p.st.releases && QueueOk(p)
      && ReconcileAll(p0, order[..i + 1], cfg, dirs, svc, now) == if p.aborted then p else Step(p, order[i], cfg, dirs, svc, now)
  {
    assert order[..i + 1][..i] == order[..i];
  }

  /** After an exception the rest of the loop is skipped. */
  lemma {:induction false} AbortPersists(p0: Pass, order: seq<int>, n: nat, cfg: Config, dirs: set<string>, svc: Services, now: int)
    requires forall i :: 0 <= i < |order| ==> order[i] in p0.st.releases
    requires QueueOk(p0) && n <= |order|
    requires ReconcileAll(p0, order[..n], cfg, dirs, svc, now).aborted
    ensures ReconcileAll(p0, order, cfg, dirs, svc, now) == ReconcileAll(p0, order[..n], cfg, dirs, svc, now)
    decreases |order| - n
  {
    if n < |order| {
      ReconcileAllNext(p0, order, n, cfg, dirs, svc, now);
      AbortPersists(p0, order, n + 1, cfg, dirs, svc, now);
    } else {
      assert order[..n] == order;
    }
  }

  /** Some release of `order` makes its turn raise. */
  predicate SomeRaise(releases: map<int, Release>, order: seq<int>) {
    exists i :: 0 <= i < |order| && order[i] in releases && StepRaises(releases[order[i]])
  }

  /** Some release of `order` needs the fallback scan and is reached before
      any turn raises. */
  predicate FallbackBeforeRaise(releases: map<int, Release>, ds: seq<DownloadRecord>, order: seq<int>) {
    exists i :: 0 <= i < |order| && order[i] in releases && NeedsFallbackScan(releases[order[i]], ds) && !SomeRaise(releases, order[..i])
  }

  lemma SomeRaiseSnoc(releases: map<int, Release>, order: seq<int>)
    requires order != [] && forall i :: 0 <= i < |order| ==> order[i] in releases
    ensures var front := order[..|order| - 1];
      SomeRaise(releases, order) <==> SomeRaise(releases, front) || StepRaises(releases[order[|order| - 1]])
  {
    var front := order[..|order| - 1];
    if SomeRaise(releases, order) {
      var i :| 0 <= i < |order| && order[i] in releases && StepRaises(releases[order[i]]);
      if i < |front| { assert front[i] == order[i]; }
    }
    if SomeRaise(releases, front) {
      var i :| 0 <= i < |front| && front[i] in releases && StepRaises(releases[front[i]]);
      assert order[i] == front[i];
    }
  }

  lemma FallbackSnoc(releases: map<int, Release>, ds: seq<DownloadRecord>, order: seq<int>)
    requires order != [] && forall i :: 0 <= i < |order| ==> order[i] in releases
    ensures var front := order[..|order| - 1];
      FallbackBeforeRaise(releases, ds, order) <==>
        FallbackBeforeRaise(releases, ds, front) || (NeedsFallbackScan(releases[order[|order| - 1]], ds) && !SomeRaise(releases, front))
  {
    var front := order[..|order| - 1];
    if FallbackBeforeRaise(releases, ds, order) {
      var i :| 0 <= i < |order| && order[i] in releases && NeedsFallbackScan(releases[order[i]], ds) && !SomeRaise(releases, order[..i]);
      if i < |front| {
        assert front[i] == order[i] && front[..i] == order[..i];
      } else {
        assert order[..i] == front;
      }
    }
    if FallbackBeforeRaise(releases, ds, front) {
      var i :| 0 <= i < |front| && front[i] in releases && NeedsFallbackScan(releases[front[i]], ds) && !SomeRaise(releases, front[..i]);
      assert order[i] == front[i] && order[..i] == front[..i];
    }
    if NeedsFallbackScan(releases[order[|order| - 1]], ds) && !SomeRaise(releases, front) {
      assert order[..|order| - 1] == front;
    }
  }

  /** The loop raises exactly when some in-flight release raises, and asks for
      the fallback scan exactly when a release that needs it is reached before
      the exception. */
  lemma {:induction false} ReconcileScan(p0: Pass, order: seq<int>, cfg: Config, dirs: set<string>, svc: Services, now: int)
    requires forall i :: 0 <= i < |order| ==> order[i] in p0.st.releases
    requires forall i, k :: 0 <= i < k < |order| ==> order[i] != order[k]
    requires QueueOk(p0) && !p0.aborted
    ensures var p := ReconcileAll(p0, order, cfg, dirs, svc, now);
      && (p.aborted <==> SomeRaise(p0.st.releases, order))
      && (p.scanRequired <==> p0.scanRequired || FallbackBeforeRaise(p0.st.releases, p0.downloads, order))
    decreases |order|
  {
    var releases := p0.st.releases;
    if order == [] {
    } else {
      var front := order[..|order| - 1];
      var last := order[|order| - 1];
      ReconcileScan(p0, front, cfg, dirs, svc, now);
      SomeRaiseSnoc(releases, order);
      FallbackSnoc(releases, p0.downloads, order);
      var p1 := ReconcileAll(p0, front, cfg, dirs, svc, now);
      assert last !in front;
      assert p1.st.releases[last] == releases[last];
      if !p1.aborted {
        StepRaisesIff(p1, last, cfg, dirs, svc, now);
        NeedsScanReports(releases[last], p0.downloads, p1.downloads);
        if NeedsFallbackScan(releases[last], p0.downloads) {
          NeedsScanNoRaise(releases[last], p0.downloads);
        }
      }
    }
  }

  // ------------------------------------------------------------ the verdict table

  /** The status a report moves a release to (None: unchanged), written as a
      table over (info, report, previous status) independently of the pass. */
  function Verdict(rel: Release, ds: seq<DownloadRecord>, cfg: Config, now: int): Option<Status> {
    if rel.info.NotAMapping? then Some(Ignored)
    else if !HasValue(rel.info, "download_id") || "download_downloader" !in rel.info.entries then None
    else
      var found := FirstMatch(ds, DownloadKey(rel.info.entries["download_id"], rel.info.entries["download_downloader"]));
      if found.None? then
        if rel.status != Missing then Some(Missing)
        else if rel.lastEdit < now - MissingGrace then Some(Ignored)
        else None
      else ReportVerdict(rel, ds[found.value], cfg)
  }

  /** The status a matched report `rd` moves the release to, if any. */
  function ReportVerdict(rel: Release, rd: DownloadRecord, cfg: Config): Option<Status> {
    var complete := StatusInfoComplete(rd);
    var linking := cfg.fileAction != "move";
    match rd.status
    case Busy => Some(Snatched)
    case Seed => if linking && rel.status != Seeding && complete then None else Some(Seeding)
    case Fail => Some(Failed)
    case Complete =>
      if !complete then None
      else if rel.status != Seeding then Some(Snatched)
      else if linking then Some(Downloaded)
      else None
    case Unrecognised => None
  }

  function Applied(s: Status, v: Option<Status>): Status {
    if v.Some? then v.value else s
  }

  lemma VerdictReports(rel: Release, a: seq<DownloadRecord>, b: seq<DownloadRecord>, cfg: Config, now: int)
    requires SameReports(a, b)
    ensures Verdict(rel, a, cfg, now) == Verdict(rel, b, cfg, now)
  {
    if rel.info.InfoMap? && HasValue(rel.info, "download_id") && "download_downloader" in rel.info.entries {
      var key := DownloadKey(rel.info.entries["download_id"], rel.info.entries["download_downloader"]);
      FirstMatchReports(a, b, key);
      var found := FirstMatch(a, key);
      if found.Some? {
        var x, y := a[found.value], b[found.value];
        assert Report(x) == Report(y);
        assert x.status == y.status && x.id == y.id && x.downloader == y.downloader && x.folder == y.folder;
        assert ReportVerdict(rel, x, cfg) == ReportVerdict(rel, y, cfg);
      }
    }
  }

  /** The loop body moves the release to its verdict, unless it raised. */
  lemma StepFollowsVerdict(p: Pass, id: int, cfg: Config, dirs: set<string>, svc: Services, now: int)
    requires id in p.st.releases && QueueOk(p) && !p.aborted
    ensures var q := Step(p, id, cfg, dirs, svc, now);
      !q.aborted ==> q.st.releases[id].status == Applied(p.st.releases[id].status, Verdict(p.st.releases[id], p.downloads, cfg, now))
  {
    var rel := p.st.releases[id];
    if rel.info.InfoMap? && HasValue(rel.info, "download_id") && "download_downloader" in rel.info.entries {
      var found := FirstMatch(p.downloads, DownloadKey(rel.info.entries["download_id"], rel.info.entries["download_downloader"]));
      if found.Some? {
        ReportFollowsVerdict(p, id, found.value, cfg, dirs, svc, now);
      }
    }
  }

  /** A matched report moves the release as the verdict table says. */
  lemma ReportFollowsVerdict(p: Pass, id: int, j: nat, cfg: Config, dirs: set<string>, svc: Services, now: int)
    requires id in p.st.releases && j < |p.downloads| && QueueOk(p) && !p.aborted
    requires var rel := p.st.releases[id];
      rel.info.InfoMap? && HasValue(rel.info, "download_id") && "download_downloader" in rel.info.entries &&
      FirstMatch(p.downloads, DownloadKey(rel.info.entries["download_id"], rel.info.entries["download_downloader"])) == Some(j)
    ensures HandleReport(p, id, j, cfg, dirs, svc, now).st.releases[id].status
         == Applied(p.st.releases[id].status, Verdict(p.st.releases[id], p.downloads, cfg, now))
  {
    var rel := p.st.releases[id];
    var rd := p.downloads[j];
    var q := HandleReport(p, id, j, cfg, dirs, svc, now);
    var v := Verdict(rel, p.downloads, cfg, now);
    match rd.status {
      case Busy =>
        assert v == Some(Snatched) && q.st.releases[id].status == Snatched;
      case Seed =>
        if cfg.fileAction != "move" && rel.status != Seeding && StatusInfoComplete(rd) {
          assert v == None && q.st.releases == p.st.releases;
        } else {
          assert v == Some(Seeding) && q.st.releases[id].status == Seeding;
        }
      case Fail =>
        assert v == Some(Failed) && q.st.releases[id].status == Failed;
      case Complete =>
        if !StatusInfoComplete(rd) {
          assert v == None && q.st.releases == p.st.releases;
        } else if rel.status == Seeding {
          if cfg.fileAction != "move" {
            assert v == Some(Downloaded) && q.st.releases[id].status == Downloaded;
          } else {
            assert v == None && q.st.releases == p.st.releases;
          }
        } else {
          assert v == Some(Snatched) && q.st.releases[id].status == Snatched;
        }
      case Unrecognised =>
        assert v == None && q == p;
    }
  }

  /** Every release the pass reached ends at its verdict and every other one
      is unchanged; a release after the exception keeps its status. */
  lemma {:induction false} ReconcileFollowsVerdict(p0: Pass, order: seq<int>, cfg: Config, dirs: set<string>, svc: Services, now: int)
    requires forall i :: 0 <= i < |order| ==> order[i] in p0.st.releases
    requires forall i, k :: 0 <= i < k < |order| ==> order[i] != order[k]
    requires QueueOk(p0) && !p0.aborted
    ensures var p := ReconcileAll(p0, order, cfg, dirs, svc, now);
      forall i :: 0 <= i < |order| ==>
        var old_ := p0.st.releases[order[i]];
        var verdict := Applied(old_.status, Verdict(old_, p0.downloads, cfg, now));
        && (p.st.releases[order[i]].status == old_.status || p.st.releases[order[i]].status == verdict)
        && (!p.aborted ==> p.st.releases[order[i]].status == verdict)
    decreases |order|
  {
    if order != [] {
      var front := order[..|order| - 1];
      var last := order[|order| - 1];
      ReconcileFollowsVerdict(p0, front, cfg, dirs, svc, now);
      var p1 := ReconcileAll(p0, front, cfg, dirs, svc, now);
      var p := ReconcileAll(p0, order, cfg, dirs, svc, now);
      assert last !in front;
      assert p1.st.releases[last] == p0.st.releases[last];
      if !p1.aborted {
        StepFollowsVerdict(p1, last, cfg, dirs, svc, now);
        VerdictReports(p0.st.releases[last], p0.downloads, p1.downloads, cfg, now);
      }
      forall i | 0 <= i < |order|
        ensures var old_ := p0.st.releases[order[i]];
          var verdict := Applied(old_.status, Verdict(old_, p0.downloads, cfg, now));
          && (p.st.releases[order[i]].status == old_.status || p.st.releases[order[i]].status == verdict)
          && (!p.aborted ==> p.st.releases[order[i]].status == verdict)
      {
        if i < |order| - 1 {
          assert order[i] == front[i];
          assert order[i] != last;
        }
      }
    }
  }

  /** The verdict is settled: a release left in flight by a report gets the
      same status (or none) from the same report in the next pass. */
  lemma VerdictSettles(rel: Release, ds: seq<DownloadRecord>, cfg: Config, now: int)
    requires Verdict(rel, ds, cfg, now).Some? && InFlight(Verdict(rel, ds, cfg, now).value)
    ensures var s := Verdict(rel, ds, cfg, now).value;
      Verdict(rel.(status := s, lastEdit := now), ds, cfg, now) in {None, Some(s)}
  {
  }

  /** A release that stays missing past the grace period is ignored; before it, it stays missing. */
  lemma MissingTimesOut(rel: Release, ds: seq<DownloadRecord>, cfg: Config, now: int)
    requires rel.status == Missing && rel.info.InfoMap? && HasValue(rel.info, "download_id") && "download_downloader" in rel.info.entries
    requires forall i :: 0 <= i < |ds| ==> KeyOf(ds[i]) != DownloadKey(rel.info.entries["download_id"], rel.info.entries["download_downloader"])
    ensures Verdict(rel, ds, cfg, now) == (if rel.lastEdit < now - MissingGrace then Some(Ignored) else None)
  {
  }

  // ------------------------------------------------------------ end of pass

  /** One queued record: pause, scan, unpause (pausing only when linking),
      then process-complete unless the renamer left a `failed_rename` marker. */
  function FlushOne(st: State, ds: seq<DownloadRecord>, j: nat, cfg: Config, dirs: set<string>, svc: Services): (r: State)
    requires j < |ds|
    ensures r.releases == st.releases && r.media == st.media
    ensures var rd := ds[j];
      var files1 := if rd.scan then svc.renamer(ScanOne(rd), st.files) else st.files;
      var completes := rd.processComplete && !HasTag(files1, dirs, "failed_rename", rd);
      && r.events == st.events + ScanEvents(rd, j, cfg) + (if completes then [ProcessComplete(j)] else [])
      && r.files == (if completes then Untagged(files1, dirs, "renamed_already", rd) else files1)
    ensures QuietlyExtends(st.events, r.events)
  {
    var rd := ds[j];
    var scanned := if !rd.scan then st
      else st.(events := st.events + ScanEvents(rd, j, cfg), files := svc.renamer(ScanOne(rd), st.files));
    if rd.processComplete && !HasTag(scanned.files, dirs, "failed_rename", rd) then
      scanned.(files := Untagged(scanned.files, dirs, "renamed_already", rd), events := scanned.events + [ProcessComplete(j)])
    else scanned
  }

  /** The trace of one scan request: the scan, wrapped in a pause and an
      unpause when the record asks for a pause and files are linked. */
  function ScanEvents(rd: DownloadRecord, j: nat, cfg: Config): (es: seq<Event>)
    ensures ScanCount(es) == (if rd.scan then 1 else 0) && ProcessCompleteCount(es) == 0
    ensures PauseDownload(j, true) in es <==> rd.scan && rd.pause && cfg.fileAction == "link"
    ensures PauseDownload(j, true) in es ==> es == [PauseDownload(j, true), ScanDownload(j), PauseDownload(j, false)]
    ensures ScanAll !in es
  {
    if !rd.scan then []
    else if rd.pause && cfg.fileAction == "link" then
      var es := [PauseDownload(j, true), ScanDownload(j), PauseDownload(j, false)];
      assert [PauseDownload(j, true)][..0] == [] && [ScanDownload(j)][..0] == [] && [PauseDownload(j, false)][..0] == [];
      CountsAppend([PauseDownload(j, true)], [ScanDownload(j)]);
      CountsAppend([PauseDownload(j, true), ScanDownload(j)], [PauseDownload(j, false)]);
      assert [PauseDownload(j, true)] + [ScanDownload(j)] == [PauseDownload(j, true), ScanDownload(j)];
      assert [PauseDownload(j, true), ScanDownload(j)] + [PauseDownload(j, false)] == es;
      es
    else
      assert [ScanDownload(j)][..0] == [];
      [ScanDownload(j)]
  }

  /** The batch over the queue, in queue order. */
  function Flush(st: State, ds: seq<DownloadRecord>, queue: seq<nat>, cfg: Config, dirs: set<string>, svc: Services): (r: State)
    requires forall k :: 0 <= k < |queue| ==> queue[k] < |ds|
    ensures r.releases == st.releases && r.media == st.media
    ensures QuietlyExtends(st.events, r.events)
    decreases |queue|
  {
    if queue == [] then
      assert st.events[|st.events|..] == [];
      st
    else
      var mid := Flush(st, ds, queue[..|queue| - 1], cfg, dirs, svc);
      var r := FlushOne(mid, ds, queue[|queue| - 1], cfg, dirs, svc);
      QuietlyExtendsTrans(st.events, mid.events, r.events);
      r
  }

  function ScanCount(events: seq<Event>): nat {
    if events == [] then 0 else ScanCount(events[..|events| - 1]) + (if events[|events| - 1].ScanDownload? then 1 else 0)
  }

  function ProcessCompleteCount(events: seq<Event>): nat {
    if events == [] then 0 else ProcessCompleteCount(events[..|events| - 1]) + (if events[|events| - 1].ProcessComplete? then 1 else 0)
  }

  lemma {:induction false} CountsAppend(a: seq<Event>, b: seq<Event>)
    ensures ScanCount(a + b) == ScanCount(a) + ScanCount(b)
    ensures ProcessCompleteCount(a + b) == ProcessCompleteCount(a) + ProcessCompleteCount(b)
    decreases |b|
  {
    if b != [] {
      var b' := b[..|b| - 1];
      assert (a + b)[..|a + b| - 1] == a + b';
      assert (a + b)[|a + b| - 1] == b[|b| - 1];
      assert b[..|b| - 1] == b';
      CountsAppend(a, b');
      assert ScanCount(a + b) == ScanCount(a + b') + (if b[|b| - 1].ScanDownload? then 1 else 0);
      assert ProcessCompleteCount(a + b) == ProcessCompleteCount(a + b') + (if b[|b| - 1].ProcessComplete? then 1 else 0);
    } else {
      assert a + b == a;
    }
  }

  /** The queued records asking for a scan. */
  function ScanRequests(ds: seq<DownloadRecord>, queue: seq<nat>): nat
    requires forall k :: 0 <= k < |queue| ==> queue[k] < |ds|
    decreases |queue|
  {
    if queue == [] then 0 else ScanRequests(ds, queue[..|queue| - 1]) + (if ds[queue[|queue| - 1]].scan then 1 else 0)
  }

  function CompleteRequests(ds: seq<DownloadRecord>, queue: seq<nat>): nat
    requires forall k :: 0 <= k < |queue| ==> queue[k] < |ds|
    decreases |queue|
  {
    if queue == [] then 0 else CompleteRequests(ds, queue[..|queue| - 1]) + (if ds[queue[|queue| - 1]].processComplete then 1 else 0)
  }

  /** Every queue entry with `scan` set triggers exactly one renamer scan, and
      process-complete runs at most once per entry that asks for it. */
  lemma {:induction false} FlushCounts(st: State, ds: seq<DownloadRecord>, queue: seq<nat>, cfg: Config, dirs: set<string>, svc: Services)
    requires forall k :: 0 <= k < |queue| ==> queue[k] < |ds|
    ensures ScanCount(Flush(st, ds, queue, cfg, dirs, svc).events) == ScanCount(st.events) + ScanRequests(ds, queue)
    ensures ProcessCompleteCount(Flush(st, ds, queue, cfg, dirs, svc).events) <= ProcessCompleteCount(st.events) + CompleteRequests(ds, queue)
    decreases |queue|
  {
    if queue != [] {
      var front := queue[..|queue| - 1];
      var j := queue[|queue| - 1];
      FlushCounts(st, ds, front, cfg, dirs, svc);
      var mid := Flush(st, ds, front, cfg, dirs, svc);
      var r := FlushOne(mid, ds, j, cfg, dirs, svc);
      CountsAppend(mid.events, ScanEvents(ds[j], j, cfg));
      CountsAppend(mid.events + ScanEvents(ds[j], j, cfg), [ProcessComplete(j)]);
      CountsAppend(mid.events + ScanEvents(ds[j], j, cfg), []);
      assert [ProcessComplete(j)][..0] == [];
    }
  }

  // ------------------------------------------------------------ the whole pass

  /** The new latch, store and return value of `checkSnatched`. */
  datatype PassResult = PassResult(latch: bool, st: State, ok: bool)

  /** Exactly the in-flight releases, each once, in query order. */
  ghost predicate ListsInFlight(releases: map<int, Release>, order: seq<int>) {
    && (forall i :: 0 <= i < |order| ==> order[i] in releases)
    && (forall i, k :: 0 <= i < k < |order| ==> order[i] != order[k])
    && (forall id :: id in releases ==> (InFlight(releases[id].status) <==> exists i :: 0 <= i < |order| && order[i] == id))
  }

  function ScanEverythingNow(st: State, svc: Services): State {
    st.(events := st.events + [ScanAll], files := svc.renamer(ScanEverything, st.files))
  }

  function RunPass(latch: bool, st: State, order: seq<int>, cfg: Config, dirs: set<string>, svc: Services, now: int): (r: PassResult)
    requires forall i :: 0 <= i < |order| ==> order[i] in st.releases
    ensures r.ok <==> !r.latch
    ensures latch ==> r == PassResult(true, st, false)
    ensures !r.ok ==> r.st == st
    ensures !latch ==> (!r.ok <==> |order| > 0 && CollectKeys(st.releases, order).None?)
    ensures r.st.releases.Keys == st.releases.Keys && r.st.media == st.media
    ensures !latch && order != [] && CollectKeys(st.releases, order).Some? && svc.poll(CollectKeys(st.releases, order).value) == [] ==>
      var keys := CollectKeys(st.releases, order).value;
      r == PassResult(false, st.(events := st.events + [Polled(keys), ScanAll], files := svc.renamer(ScanEverything, st.files)), true)
  {
    if latch then PassResult(true, st, false)
    else if order == [] then PassResult(false, st, true)
    else
      match CollectKeys(st.releases, order)
      case None => PassResult(true, st, false)
      case Some(keys) =>
        var st1 := st.(events := st.events + [Polled(keys)]);
        var ds := svc.poll(keys);
        if ds == [] then
          assert st1.events + [ScanAll] == st.events + [Polled(keys), ScanAll];
          PassResult(false, ScanEverythingNow(st1, svc), true)
        else
          var p := ReconcileAll(Pass(st1, ds, [], false, false), order, cfg, dirs, svc, now);
          var st2 := Flush(p.st, p.downloads, p.queue, cfg, dirs, svc);
          PassResult(false, if p.scanRequired then ScanEverythingNow(st2, svc) else st2, true)
  }

  /** A pass with nothing in flight touches nothing and clears the latch. */
  lemma NothingInFlight(st: State, cfg: Config, dirs: set<string>, svc: Services, now: int)
    ensures RunPass(false, st, [], cfg, dirs, svc, now) == PassResult(false, st, true)
  {
  }

  /** A pass that reached the reports leaves each in-flight release at its
      verdict or, after an exception, possibly unchanged. */
  lemma {:induction false} PassFollowsVerdict(st: State, order: seq<int>, cfg: Config, dirs: set<string>, svc: Services, now: int, i: int)
    requires ListsInFlight(st.releases, order)
    requires CollectKeys(st.releases, order).Some?
    requires 0 <= i < |order|
    ensures var keys := CollectKeys(st.releases, order).value;
      var ds := svc.poll(keys);
      var rel := st.releases[order[i]];
      var s := RunPass(false, st, order, cfg, dirs, svc, now).st.releases[order[i]].status;
      && (|ds| > 0 ==> (s == rel.status || s == Applied(rel.status, Verdict(rel, ds, cfg, now))))
      && (|ds| > 0 && !SomeRaise(st.releases, order) ==> s == Applied(rel.status, Verdict(rel, ds, cfg, now)))
  {
    var keys := CollectKeys(st.releases, order).value;
    var ds := svc.poll(keys);
    if |ds| > 0 {
      var st1 := st.(events := st.events + [Polled(keys)]);
      ReconcileFollowsVerdict(Pass(st1, ds, [], false, false), order, cfg, dirs, svc, now);
      ReconcileScan(Pass(st1, ds, [], false, false), order, cfg, dirs, svc, now);
    }
  }

  /** A trace that grew quietly, then perhaps got one full scan at its end. */
  lemma TrailingScan(head: seq<Event>, mid: seq<Event>, scan: bool)
    requires QuietlyExtends(head, mid)
    ensures var events := if scan then mid + [ScanAll] else mid;
      && head <= events
      && (ScanAll in events[|head|..] <==> scan)
      && (ScanAll in events[|head|..] ==> events[|events| - 1] == ScanAll && ScanAll !in events[|head|..|events| - 1])
  {
    if scan {
      var events := mid + [ScanAll];
      assert events[|head|..] == mid[|head|..] + [ScanAll];
      assert events[|head|..|events| - 1] == mid[|head|..];
    }
  }

  /** After a non-empty poll, the full scan is asked for once, as the last
      event, exactly when a release needing it is reached before any exception. */
  lemma PassFallbackScan(st: State, order: seq<int>, cfg: Config, dirs: set<string>, svc: Services, now: int)
    requires ListsInFlight(st.releases, order)
    requires order != [] && CollectKeys(st.releases, order).Some?
    requires svc.poll(CollectKeys(st.releases, order).value) != []
    ensures var keys := CollectKeys(st.releases, order).value;
      var events := RunPass(false, st, order, cfg, dirs, svc, now).st.events;
      var head := st.events + [Polled(keys)];
      && head <= events
      && (ScanAll in events[|head|..] <==> FallbackBeforeRaise(st.releases, svc.poll(keys), order))
      && (ScanAll in events[|head|..] ==> events[|events| - 1] == ScanAll && ScanAll !in events[|head|..|events| - 1])
  {
    var keys := CollectKeys(st.releases, order).value;
    var ds := svc.poll(keys);
    var st1 := st.(events := st.events + [Polled(keys)]);
    var p0 := Pass(st1, ds, [], false, false);
    var p := ReconcileAll(p0, order, cfg, dirs, svc, now);
    var st2 := Flush(p.st, p.downloads, p.queue, cfg, dirs, svc);
    assert RunPass(false, st, order, cfg, dirs, svc, now).st.events == if p.scanRequired then st2.events + [ScanAll] else st2.events;
    ReconcileScan(p0, order, cfg, dirs, svc, now);
    QuietlyExtendsTrans(st1.events, p.st.events, st2.events);
    TrailingScan(st1.events, st2.events, p.scanRequired);
  }
}
