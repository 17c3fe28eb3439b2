/** Persisted rows (releases, media) and the records a downloader poll returns. */
module Records {
  import opened Statuses
  import opened Optional

  /** A release identifier: the digest of a search result's URL, or the
      composite `<library>.<audio>.<quality>` key built when a release is added. */
  datatype Identifier = UrlDigest(url: string) | Composite(text: string)

  /** A release's info as `to_dict` shows it: normally a mapping of strings. */
  datatype Info = InfoMap(entries: map<string, string>) | NotAMapping

  datatype Release = Release(
    identifier: Identifier,
    mediaId: int,
    qualityId: int,
    status: Status,
    info: Info,
    files: set<string>,
    lastEdit: int)

  /** One target of a quality profile. */
  datatype QualityType = QualityType(qualityId: int, finish: bool, waitFor: int)

  datatype Media = Media(
    libraryId: int,
    profileId: int,
    status: Status,
    lastEdit: int,
    titles: seq<string>)   // simple titles, first one as the database returns it

  /** The `status` a downloader reports for a transfer. */
  datatype Transfer = Busy | Seed | Fail | Complete | Unrecognised

  /** One record of `download.status`. The three flags are the keys the
      reconciliation pass writes into the record before queueing it. */
  datatype DownloadRecord = DownloadRecord(
    id: string,
    downloader: string,
    name: string,
    status: Transfer,
    folder: string,
    files: seq<string>,   // the `files` field split on '|'; [] when empty
    pause: bool,
    scan: bool,
    processComplete: bool)

  /** `statusInfoComplete`: id, downloader and folder are all non-empty. */
  predicate StatusInfoComplete(rd: DownloadRecord) {
    rd.id != "" && rd.downloader != "" && rd.folder != ""
  }

  /** Some element of a non-empty set of rows: the store yields rows in an
      order the model leaves open. */
  method Pick<T>(s: set<T>) returns (x: T)
    requires s != {}
    ensures x in s
  {
    x :| x in s;
  }
}
