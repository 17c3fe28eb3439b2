# CouchPotato release and movie plugins in Dafny

A model of two plugins of CouchPotatoServer, a movie downloader written in
Python 2.

The **release plugin** keeps the release table: one row per search result or
renamed download. It covers:

- storing search results (`createFromSearch`);
- walking ranked candidates and handing one to a downloader
  (`tryDownloadResult`, `download`);
- status changes (`updateStatus`, `ignore`);
- cleanup (`clean`, `delete`, `cleanDone`);
- the `.ignore` tag marker files (`tagRelease`, `untagRelease`, `hastagRelease`);
- the periodic reconciliation pass `checkSnatched`. This pass polls the
  downloaders for every in-flight release (snatched, seeding or missing),
  moves each release to its next status and queues finished downloads for
  the renamer.

The **movie plugin** keeps the movie table. It covers:

- `add`, `delete` and `restatus`;
- the initials shown by `availableChars`;
- the `starts_with` and `limit_offset` parameters of `list`.

Each Python object is a Dafny class whose fields are the tables the object
changes: `Releases.ReleasePlugin` and `Movies.MoviePlugin`. The files on disk
are a set of paths, and the directories are a second set. Calls to other
plugins (downloaders, renamer, searcher, notifications) appear in two ways:

- as function-typed parameters, for the calls whose answers matter;
- as events appended to a trace, for the calls that only notify.

Every method that changes state is proved to leave exactly the state given by
a pure function in `ReleaseRules`, `TagMarkers`, `Reconcile` or `MovieRules`.
The properties are lemmas about those functions.

Modules:

- `Optional`, `Statuses`, `Records`: the option type, the status vocabulary,
  and the rows and downloader records.
- `TagMarkers`: marker names, `os.path.splitext`, `os.walk`, and the tag,
  untag and has-tag rules.
- `ReleaseRules`: status changes, cleanup, one download, the candidate walk,
  search results and the add identifier.
- `Reconcile`: the `checkSnatched` pass, plus an independent verdict table
  that it is proved against.
- `ReleaseOrder`: the score ordering of `forMovie`.
- `Releases`: the release plugin class.
- `MovieRules`: the movie plugin's rules and the parsing of `list` parameters.
- `Movies`: the movie plugin class.

Three points of the code that the model keeps as written:

- **The `checkSnatched` latch.** The early return at release/main.py:496-498,
  taken when collecting download ids raises, leaves the latch set. Every
  other exit clears it. `Reconcile.RunPass` states this: the pass fails iff
  some in-flight release's info is faulty, a failed pass leaves the latch
  set, and every later pass then returns False.
- **`cleanDone` age.** The code compares `last_edit` with `now - 262080`
  seconds, about three days. `ReleaseRules.CleanAge` is that constant.
- **`forMovie` score order.** Scores are sorted as stored text, not as
  numbers (see Findings).

## Model

| member | source | states |
|---|---|---|
| Statuses.IgnoreToggle | couchpotato/core/plugins/release/main.py:217-218 | ignored and failed go to available, every other status to ignored (both directions) |
| Statuses.ToggleTwice | couchpotato/core/plugins/release/main.py:211-222 | toggling an available or ignored status twice gives it back |
| TagMarkers.Splitext | couchpotato/core/plugins/release/main.py:693-696 | stem + extension is the path; the extension is empty or one dot followed by no dot or separator |
| TagMarkers.Least | couchpotato/core/plugins/release/main.py:678 | `sorted(files)[0]` is a member of the list and below every member in Python string order |
| TagMarkers.BelowTransitive | couchpotato/core/plugins/release/main.py:678 | Python string `<=` is transitive (with BelowTotal and BelowReflexive, a total order) |
| TagMarkers.Walk | couchpotato/core/plugins/release/main.py:686-688 | `os.walk(folder)` yields only existing files strictly under `folder/`, nothing for a non-directory |
| TagMarkers.Tagged | couchpotato/core/plugins/release/main.py:664-698 | tagging only adds files; an empty tag adds nothing; each new file ends in `<tag>.ignore` |
| TagMarkers.Untagged | couchpotato/core/plugins/release/main.py:700-731 | untagging only removes files, and removes nothing when the folder is not a directory |
| TagMarkers.MarkersAdd | couchpotato/core/plugins/release/main.py:690-698 | the markers of a file set can be built one file at a time |
| TagMarkers.StemUnder | couchpotato/core/plugins/release/main.py:686-696 | the marker of a file under the folder lies under the folder too |
| TagMarkers.MarkerExt | couchpotato/core/plugins/release/main.py:693-696 | a marker's own extension is `.ignore`, so it is never tagged again |
| TagMarkers.EmptyTagMatchesAny | couchpotato/core/plugins/release/main.py:726-759 | with an empty tag the `<stem>.*.ignore` pattern finds the marker of any tag |
| TagMarkers.TagThenHasTag | couchpotato/core/plugins/release/main.py:664-763 | after tagging a download's file under its folder, `hastagRelease` with that tag is true |
| TagMarkers.UntagClearsTag | couchpotato/core/plugins/release/main.py:700-763 | after `untagRelease`, `hastagRelease` with the same tag and record is false |
| TagMarkers.TagUntagHasTag | couchpotato/core/plugins/release/main.py:664-763 | tag, then untag, then has-tag gives false |
| TagMarkers.TagIdempotent | couchpotato/core/plugins/release/main.py:690-698 | tagging twice with a plain tag creates no further file |
| ReleaseRules.FindRelease | couchpotato/core/plugins/release/main.py:294 | the lookup by identifier finds a row with that identifier, or there is none |
| ReleaseRules.StatusUpdated | couchpotato/core/plugins/release/main.py:438-466 | the release takes the status; a real change stamps `last_edit` and sends one notice; a missing release or the same status changes nothing; other rows are untouched |
| ReleaseRules.StatusUpdateIdempotent | couchpotato/core/plugins/release/main.py:444 | a repeated update is a no-op |
| ReleaseRules.IgnoreFlipped | couchpotato/core/plugins/release/main.py:211-222 | `ignore` is `updateStatus` with the toggled status; a missing release is untouched |
| ReleaseRules.IgnoreTwiceRestores | couchpotato/core/plugins/release/main.py:211-222 | ignoring twice restores an available or ignored release's status |
| ReleaseRules.IgnoreFailedMakesAvailable | couchpotato/core/plugins/release/main.py:218 | ignoring a failed release makes it available |
| ReleaseRules.Cleaned | couchpotato/core/plugins/release/main.py:193-209 | True iff the release exists; it keeps exactly its files still on disk, and is deleted when none remain; other rows are untouched |
| ReleaseRules.CleanIdempotent | couchpotato/core/plugins/release/main.py:193-209 | a second `clean` changes nothing |
| ReleaseRules.SweptAdd | couchpotato/core/plugins/release/main.py:97-104 | the `cleanDone` sweep can be applied one release at a time |
| ReleaseRules.AfterCleanDone | couchpotato/core/plugins/release/main.py:80-106 | available releases of media done before `now - 262080` are deleted; their snatched and downloaded ones become ignored; everything else is kept; no release of such media is left available, snatched or downloaded |
| ReleaseRules.IgnoreNoticesAdd | couchpotato/core/plugins/release/main.py:103-104 | the sweep's status notices accumulate one release at a time |
| ReleaseRules.CleanDoneIdempotent | couchpotato/core/plugins/release/main.py:80-106 | a second sweep at the same time changes nothing |
| ReleaseRules.CleanDoneSparesRecent | couchpotato/core/plugins/release/main.py:93-95 | a release whose media is not done, or was done recently, is untouched |
| ReleaseRules.DownloadInfoKey | couchpotato/core/plugins/release/main.py:302 | the `download_<key>` info name gives the key back |
| ReleaseRules.Download | couchpotato/core/plugins/release/main.py:268-341 | the result is True, 'try_next' or False as the downloaders answer; only a snatch changes rows; the trace only grows; an enabled downloader is always asked unless the candidate's own fetch said 'try_next' |
| ReleaseRules.SnatchKeepsEvents | couchpotato/core/plugins/release/main.py:290-335 | the snatch bookkeeping only appends to the trace and creates or drops no row |
| ReleaseRules.SnatchSendsNotices | couchpotato/core/plugins/release/main.py:311-332 | the snatch bookkeeping sends only the snatch notice and status notices |
| ReleaseRules.SubmissionSent | couchpotato/core/plugins/release/main.py:282-287 | before the gateway answers, the trace has gained the submission (after a fetch when the candidate has its own download function) |
| ReleaseRules.AcceptedTrace | couchpotato/core/plugins/release/main.py:290-335 | an accepted submission is still in the trace after the bookkeeping |
| ReleaseRules.SubmittedTrace | couchpotato/core/plugins/release/main.py:282-341 | once submitted, the result is True iff the gateway's answer is truthy, False otherwise |
| ReleaseRules.DownloadTrace | couchpotato/core/plugins/release/main.py:268-341 | the result is read off the trace: True iff a submission was sent and accepted; 'try_next' iff a fetch was sent and no submission; False iff nothing was sent or the submission was refused |
| ReleaseRules.SnatchSavesDetails | couchpotato/core/plugins/release/main.py:298-306 | a snatch with a details dict saves each detail as a `download_<key>` info entry of the release; a bare acceptance leaves the info as it was |
| ReleaseRules.SnatchKeepsStatus | couchpotato/core/plugins/release/main.py:313-332 | with the renamer off, a snatch that does not finish active media keeps the release's status and every media row |
| ReleaseRules.SnatchWithRenamer | couchpotato/core/plugins/release/main.py:331-332 | with the renamer on, a snatched candidate's release is snatched |
| ReleaseRules.SnatchWithoutRenamer | couchpotato/core/plugins/release/main.py:313-328 | with the renamer off, a snatch of a finishing quality for active media marks the release done, and the media done when its row exists |
| ReleaseRules.AgedBecomesEligible | couchpotato/core/plugins/release/main.py:347-357 | a result older than `wait_for` is skipped only for its status or score |
| ReleaseRules.TryFromIsAttempts | couchpotato/core/plugins/release/main.py:343-365 | `tryDownloadResult` downloads exactly the attempted candidates in order, and returns True iff the last attempt snatched |
| ReleaseRules.AttemptedShape | couchpotato/core/plugins/release/main.py:346-363 | every attempt passed the three filters; all but the last said 'try_next'; the attempts are a prefix of the eligible candidates, cut short only by an answer other than 'try_next' |
| ReleaseRules.LowScoreNeverAttempted | couchpotato/core/plugins/release/main.py:347-357 | a candidate with score <= 0, an ignored or failed status, or still waiting is never handed to `download` |
| ReleaseRules.ScalarInfo | couchpotato/core/plugins/release/main.py:395-406 | the saved info holds exactly the result's scalar fields, with their values |
| ReleaseRules.SaveResultFacts | couchpotato/core/plugins/release/main.py:374-410 | saving one result keeps identifiers unique, changes no existing status, drops no row, makes new rows available, and leaves one row for the url carrying the result's scalars |
| ReleaseRules.SaveResultsFacts | couchpotato/core/plugins/release/main.py:367-412 | after all results, every url has a row, no existing status changed, and the new rows are available |
| ReleaseRules.SaveResultKeepsFound | couchpotato/core/plugins/release/main.py:374-410 | saving a later result keeps every earlier identifier found, with the same status |
| ReleaseRules.AddIdentifierPrefix | couchpotato/core/plugins/release/main.py:112-132 | the add identifier starts with `<library identifier>.`, which the snatched-release lookup tests |
| ReleaseRules.AddIdentifierInjective | couchpotato/core/plugins/release/main.py:112 | with dot-free library and audio parts, the identifier determines all three parts |
| ReleaseRules.FirstDotIndex | couchpotato/core/plugins/release/main.py:112 | the index of the first dot, or the length when there is none |
| Reconcile.CollectFailsIffFaulty | couchpotato/core/plugins/release/main.py:490-498 | collecting download ids fails iff some in-flight release has non-dict info, or a download id without a downloader |
| Reconcile.CollectFailurePersists | couchpotato/core/plugins/release/main.py:491-498 | a failure on a prefix of the releases fails the whole collection |
| Reconcile.CollectedMeansMappings | couchpotato/core/plugins/release/main.py:490-521 | once collection succeeded every in-flight info is a dict, so the faulty-release branch at 518-521 cannot be reached |
| Reconcile.FirstMatch | couchpotato/core/plugins/release/main.py:534-545 | the first report with the release's id and downloader, or None iff there is none |
| Reconcile.FirstMatchReports | couchpotato/core/plugins/release/main.py:534-540 | matching is unaffected by the flags the pass writes into records |
| Reconcile.Enqueue | couchpotato/core/plugins/release/main.py:583-584 | the record gets exactly the three flags and is appended to the queue; nothing else changes |
| Reconcile.HandleReport | couchpotato/core/plugins/release/main.py:565-632 | a matched report creates or drops no row, touches no other release and sends no full scan; it asks for the fallback scan iff the report is complete without id, downloader or folder; the per-status effects are HandleBusy to HandleUnrecognised |
| Reconcile.HandleBusy | couchpotato/core/plugins/release/main.py:566-572 | 'busy': nothing queued; the release becomes snatched with at most one notice; the `downloading` tag is added iff the folder is in the from folder |
| Reconcile.HandleSeed | couchpotato/core/plugins/release/main.py:574-590 | 'seeding': when not moving, not already seeding and complete, the `downloading` tag is removed and the record queued with pause, scan and no process-complete, status unchanged; otherwise nothing queued and the release becomes seeding |
| Reconcile.HandleFail | couchpotato/core/plugins/release/main.py:592-599 | 'failed': nothing queued; the release becomes failed, the download is removed, and the next release is tried iff `next_on_failed` |
| Reconcile.HandleComplete | couchpotato/core/plugins/release/main.py:601-632 | 'completed': without id, downloader or folder only the fallback scan is asked for; after seeding, linking makes it downloaded and queues clean-up only, moving queues scan and clean-up; otherwise it becomes snatched, is untagged and queued for scan and clean-up |
| Reconcile.HandleUnrecognised | couchpotato/core/plugins/release/main.py:565-632 | any other report status changes nothing |
| Reconcile.Step | couchpotato/core/plugins/release/main.py:513-632 | one release's turn touches no other release and sends no full scan; an exception leaves the pass unchanged; the fallback-scan flag is set exactly when `NeedsFallbackScan` says so |
| Reconcile.StepMatched | couchpotato/core/plugins/release/main.py:534-540 | a release whose report was found by id and downloader gets exactly `HandleReport` of that report |
| Reconcile.StepUnmatched | couchpotato/core/plugins/release/main.py:518-559 | a turn without a matching report queues nothing, touches no file and sends at most its status notice |
| Reconcile.StepRaisesIff | couchpotato/core/plugins/release/main.py:513-537 | a turn raises iff a release without download id has no `name`, or one with a download id has no `download_downloader` |
| Reconcile.NeedsScanNoRaise | couchpotato/core/plugins/release/main.py:524-526 | a release that asks for the fallback scan does not raise |
| Reconcile.NeedsScanReports | couchpotato/core/plugins/release/main.py:534-632 | whether a release asks for the fallback scan ignores the flags the pass writes into records |
| Reconcile.ReconcileAll | couchpotato/core/plugins/release/main.py:513-635 | the loop keeps the queue valid, changes no release outside the in-flight list, sends no full scan, and is skipped once aborted |
| Reconcile.ReconcileAllNext | couchpotato/core/plugins/release/main.py:513-635 | the loop runs one release more per turn, stopping after an exception |
| Reconcile.AbortPersists | couchpotato/core/plugins/release/main.py:634-635 | after an exception the remaining releases are not visited |
| Reconcile.ReconcileScan | couchpotato/core/plugins/release/main.py:513-635 | the loop ends in an exception iff some in-flight release raises, and asks for the fallback scan iff a release needing it comes before every raising one |
| Reconcile.VerdictReports | couchpotato/core/plugins/release/main.py:534-632 | the verdict ignores the flags the pass writes into records |
| Reconcile.StepFollowsVerdict | couchpotato/core/plugins/release/main.py:513-632 | unless it raised, a release's turn moves it to the status in the verdict table |
| Reconcile.ReportFollowsVerdict | couchpotato/core/plugins/release/main.py:565-632 | each report status moves the release as the verdict table says |
| Reconcile.ReconcileFollowsVerdict | couchpotato/core/plugins/release/main.py:513-635 | every in-flight release ends at its verdict or, after an exception, possibly unchanged |
| Reconcile.VerdictSettles | couchpotato/core/plugins/release/main.py:547-632 | a release left in flight gets the same status or none from the same report in the next pass |
| Reconcile.MissingTimesOut | couchpotato/core/plugins/release/main.py:550-556 | a release missing for longer than 7 days becomes ignored; before that it stays missing |
| Reconcile.FlushOne | couchpotato/core/plugins/release/main.py:639-652 | one queued record sends its scan events, then process-complete iff it asks for it and the files after the scan carry no `failed_rename` marker, in which case the `renamed_already` marker is removed; no row changes and no full scan is sent |
| Reconcile.ScanEvents | couchpotato/core/plugins/release/main.py:640-645 | one scan per record asking for one, never a full scan; the pause wraps the scan iff it asks for a pause and files are linked |
| Reconcile.Flush | couchpotato/core/plugins/release/main.py:638-652 | the end-of-pass batch changes no row and only appends to the trace, never a full scan |
| Reconcile.CountsAppend | couchpotato/core/plugins/release/main.py:638-652 | scan and process-complete counts add up over concatenated traces |
| Reconcile.FlushCounts | couchpotato/core/plugins/release/main.py:638-652 | each queued record with `scan` set triggers exactly one renamer scan, and process-complete runs at most once per record asking for it (FlushOne states when exactly) |
| Reconcile.RunPass | couchpotato/core/plugins/release/main.py:468-658 | a set latch returns False with no change; otherwise the pass fails iff collection fails; a failed pass changes nothing and leaves the latch set; a successful pass clears it; an empty poll records the poll and sends one full scan; no row is created or dropped |
| Reconcile.NothingInFlight | couchpotato/core/plugins/release/main.py:484-487 | with nothing in flight the pass returns True, clears the latch and touches nothing |
| Reconcile.PassFollowsVerdict | couchpotato/core/plugins/release/main.py:468-658 | when the downloaders report anything, each in-flight release ends unchanged or at its verdict, and at its verdict whenever no release raises |
| Reconcile.PassFallbackScan | couchpotato/core/plugins/release/main.py:500-655 | after a non-empty poll the trace extends the poll; a full scan follows iff a release needing it came before every raising one, and then exactly once, as the last event |
| ReleaseOrder.KeyBelowTotal | couchpotato/core/plugins/release/main.py:425 | Python 2 order on score keys (numbers below strings) is total |
| ReleaseOrder.KeyBelowTransitive | couchpotato/core/plugins/release/main.py:425 | the order on score keys is transitive |
| ReleaseOrder.SortDescending | couchpotato/core/plugins/release/main.py:425 | `sorted(..., reverse=True)` is a permutation of its input |
| ReleaseOrder.InsertDescending | couchpotato/core/plugins/release/main.py:425 | one insertion step adds exactly the new row |
| ReleaseOrder.InsertKeepsDescending | couchpotato/core/plugins/release/main.py:425 | inserting into a descending list keeps it descending |
| ReleaseOrder.SortIsDescending | couchpotato/core/plugins/release/main.py:425 | the sort's output is in descending key order |
| ReleaseOrder.ForMovieAsWritten | couchpotato/core/plugins/release/main.py:414-427 | as written: a permutation of the movie's releases, descending by stored score text; fails iff some info is not a dict |
| ReleaseOrder.ValueBelowPower | couchpotato/core/plugins/release/main.py:425 | a k-digit numeral is below 10^k |
| ReleaseOrder.SameLengthAgrees | couchpotato/core/plugins/release/main.py:425 | for numerals of equal length, text order and numeric order agree |
| ReleaseOrder.DecimalInjective | couchpotato/core/plugins/release/main.py:425 | distinct numerals of one length have distinct values |
| ReleaseOrder.BelowPrefix | couchpotato/core/plugins/release/main.py:425 | for equal-length texts the prefix decides, and the last character breaks ties |
| ReleaseOrder.ForMovie | couchpotato/core/plugins/release/main.py:414-427 | corrected: a permutation of the movie's releases with non-increasing numeric score; fails iff some info is not a dict |
| ReleaseOrder.NineAboveTen | couchpotato/core/plugins/release/main.py:425 | as written, scores "10" and "9" come out as 9 then 10 |
| ReleaseOrder.TenAboveNine | couchpotato/core/plugins/release/main.py:425 | corrected, scores "10" and "9" come out as 10 then 9 |
| Releases.ReleasePlugin.UpdateStatus | couchpotato/core/plugins/release/main.py:438-466 | False and no change for a missing status; otherwise True and the state `StatusUpdated` gives |
| Releases.ReleasePlugin.Ignore | couchpotato/core/plugins/release/main.py:211-222 | always reports success, and leaves the state `IgnoreFlipped` gives |
| Releases.ReleasePlugin.Delete | couchpotato/core/plugins/release/main.py:181-191 | True iff the release existed; exactly that row is removed |
| Releases.ReleasePlugin.Clean | couchpotato/core/plugins/release/main.py:193-209 | its result and new state are those of `Cleaned` |
| Releases.ReleasePlugin.FilesOnDisk | couchpotato/core/plugins/release/main.py:199-202 | the loop keeps exactly the release's files that are still on disk |
| Releases.ReleasePlugin.CleanDone | couchpotato/core/plugins/release/main.py:80-106 | releases become `AfterCleanDone`; the trace gains exactly one ignore notice per snatched or downloaded release of stale media |
| Releases.ReleasePlugin.SweepAll | couchpotato/core/plugins/release/main.py:97-104 | the loop over the stale releases leaves them `Swept` and sends one ignore notice per snatched or downloaded one, in any order |
| Releases.ReleasePlugin.SweepOne | couchpotato/core/plugins/release/main.py:98-104 | the loop body: an available release is deleted; a snatched or downloaded one is ignored, with its notice; the sweep grows by one release |
| Releases.ReleasePlugin.LookupByIdentifier | couchpotato/core/plugins/release/main.py:294 | the row the lookup by identifier finds |
| Releases.ReleasePlugin.Download | couchpotato/core/plugins/release/main.py:268-341 | its result and new state are those of `ReleaseRules.Download` |
| Releases.ReleasePlugin.NoteSnatch | couchpotato/core/plugins/release/main.py:291-331 | after a downloader took the result, the new state is `RecordSnatch` of the old |
| Releases.ReleasePlugin.MarkFinished | couchpotato/core/plugins/release/main.py:316-328 | with a finishing type of the quality, the release and the media row become done; otherwise nothing changes |
| Releases.ReleasePlugin.TryDownloadResult | couchpotato/core/plugins/release/main.py:343-365 | its result and new state are those of `TryFrom` |
| Releases.ReleasePlugin.ScalarInfoOf | couchpotato/core/plugins/release/main.py:395-406 | the info rows are `ScalarInfo` of the result |
| Releases.ReleasePlugin.CreateFromSearch | couchpotato/core/plugins/release/main.py:367-412 | returns the identifiers in input order and each result's stored status; the rows are those of `SaveResults` |
| Releases.ReleasePlugin.SaveOne | couchpotato/core/plugins/release/main.py:374-410 | one result is saved as `SaveResult` says; returns its identifier and the status now stored for it |
| Releases.ReleasePlugin.TagRelease | couchpotato/core/plugins/release/main.py:664-698 | the files become `Tagged` |
| Releases.ReleasePlugin.TagFiles | couchpotato/core/plugins/release/main.py:690-698 | the loop adds exactly the markers of the candidates |
| Releases.ReleasePlugin.UntagRelease | couchpotato/core/plugins/release/main.py:700-731 | the files become `Untagged` |
| Releases.ReleasePlugin.HastagRelease | couchpotato/core/plugins/release/main.py:733-763 | the result is `HasTag` |
| Releases.ReleasePlugin.FindDownload | couchpotato/core/plugins/release/main.py:534-545 | the inner search loop finds `FirstMatch` |
| Releases.ReleasePlugin.ReconcileRelease | couchpotato/core/plugins/release/main.py:513-632 | one turn of the loop leaves the pass `Step` gives |
| Releases.ReleasePlugin.ApplyReport | couchpotato/core/plugins/release/main.py:565-632 | the status branches leave the pass `HandleReport` gives |
| Releases.ReleasePlugin.FlushEntry | couchpotato/core/plugins/release/main.py:639-652 | one batch entry leaves the state `FlushOne` gives |
| Releases.ReleasePlugin.CheckSnatched | couchpotato/core/plugins/release/main.py:468-658 | latch, state and result are those of `RunPass` |
| Releases.ReleasePlugin.CollectDownloadIds | couchpotato/core/plugins/release/main.py:489-498 | the collected keys are `CollectKeys`, None when the loop raises |
| Releases.ReleasePlugin.ReconcileReleases | couchpotato/core/plugins/release/main.py:513-635 | the loop leaves the state, records, queue and scan flag of `ReconcileAll` |
| Releases.ReleasePlugin.FlushQueue | couchpotato/core/plugins/release/main.py:637-652 | the batch leaves the state `Flush` gives |
| MovieRules.ReleasesOf | couchpotato/core/plugins/movie/main.py:399 | exactly the movie's releases |
| MovieRules.Without | couchpotato/core/plugins/movie/main.py:402 | deleting rows removes exactly those keys and changes no other row |
| MovieRules.WithoutTwice | couchpotato/core/plugins/movie/main.py:297-315 | two deletions are one deletion of the union |
| MovieRules.RestatusTarget | couchpotato/core/plugins/movie/main.py:434-444 | the new status is active or done: active iff the movie has a profile and no done release of a finishing quality |
| MovieRules.Restatused | couchpotato/core/plugins/movie/main.py:424-446 | raises (False, no change) iff the movie or its first title is missing; otherwise only the movie's status changes, to `RestatusTarget` |
| MovieRules.RestatusIdempotent | couchpotato/core/plugins/movie/main.py:424-446 | restatusing twice is restatusing once |
| MovieRules.FinishedStaysDone | couchpotato/core/plugins/movie/main.py:439-444 | a done release of a finishing quality keeps the movie done |
| MovieRules.Doomed | couchpotato/core/plugins/movie/main.py:399-409 | exactly the movie's releases the mode deletes |
| MovieRules.DeleteTarget | couchpotato/core/plugins/movie/main.py:398-409 | a target status exists iff the mode is 'wanted' or 'manage' and the movie has releases |
| MovieRules.Deleted | couchpotato/core/plugins/movie/main.py:384-422 | a missing movie changes nothing; otherwise exactly the doomed releases go (all of the movie's for 'all'), every release of another movie is kept, and the movie is deleted iff the mode is 'all' or all of its releases were deleted |
| MovieRules.DeleteAll | couchpotato/core/plugins/movie/main.py:390-392 | 'all' removes the movie and all its releases and keeps every other release |
| MovieRules.DeleteWanted | couchpotato/core/plugins/movie/main.py:400-418 | 'wanted' removes exactly the releases not done; a movie that stays is done and keeps only done releases |
| MovieRules.DeleteManage | couchpotato/core/plugins/movie/main.py:405-418 | 'manage' removes exactly the done releases; a movie that stays is active and keeps no done release |
| MovieRules.DeleteWithoutReleases | couchpotato/core/plugins/movie/main.py:412-414 | a movie without releases is deleted whatever the mode |
| MovieRules.DeleteOtherRestatuses | couchpotato/core/plugins/movie/main.py:419-420 | any other mode keeps every release and restatuses a movie that has some |
| MovieRules.MovieOn | couchpotato/core/plugins/movie/main.py:284 | the movie on the library, or None iff there is none |
| MovieRules.InStatus | couchpotato/core/plugins/movie/main.py:297-314 | exactly the movie's releases in a status |
| MovieRules.AddLeavesNoAvailable | couchpotato/core/plugins/movie/main.py:273-322 | after `add` the returned movie is on the library and has no available release |
| MovieRules.AddNew | couchpotato/core/plugins/movie/main.py:286-320 | a new movie is active, on the requested or default profile, library-updated and searched |
| MovieRules.AddForced | couchpotato/core/plugins/movie/main.py:295-320 | a forced re-add removes exactly the movie's snatched and available releases, updates only the movie's row to the profile and active, and sends one search |
| MovieRules.AddKeeps | couchpotato/core/plugins/movie/main.py:302-315 | without force an existing movie keeps its row and loses only available releases |
| MovieRules.Initial | couchpotato/core/plugins/movie/main.py:198-199 | the initial is a lowercase ASCII letter or '#' |
| MovieRules.CharsFacts | couchpotato/core/plugins/movie/main.py:180-203 | fails iff a listed movie's first title is empty; otherwise distinct characters, each a letter or '#', exactly the listed movies' initials |
| MovieRules.InitialsStep | couchpotato/core/plugins/movie/main.py:197-201 | the initials grow by the last listed row's initial |
| MovieRules.CharsGrow | couchpotato/core/plugins/movie/main.py:197-201 | the result for a prefix of the rows is a prefix of the result |
| MovieRules.Lower | couchpotato/core/plugins/movie/main.py:133 | ASCII lowercasing, character by character |
| MovieRules.OccursAt | couchpotato/core/plugins/movie/main.py:134 | a slice equal to `p` makes `p in s` true |
| MovieRules.OccursLower | couchpotato/core/plugins/movie/main.py:134 | anything `in ascii_lowercase` is made of lowercase letters |
| MovieRules.OccursWhere | couchpotato/core/plugins/movie/main.py:134 | `p in s` gives the index where `p` occurs |
| MovieRules.OccursIsRun | couchpotato/core/plugins/movie/main.py:134 | whatever occurs in `ascii_lowercase` is a run of consecutive letters |
| MovieRules.RunOccurs | couchpotato/core/plugins/movie/main.py:134 | every run of consecutive letters occurs in `ascii_lowercase` |
| MovieRules.Classify | couchpotato/core/plugins/movie/main.py:132-140 | an empty `starts_with` filters nothing; a letter filter is the lowercased, non-empty parameter (ClassifyLetters says when) |
| MovieRules.ClassifyLetters | couchpotato/core/plugins/movie/main.py:132-140 | a non-empty parameter filters on a prefix iff its lowercase form is a run of consecutive letters, and on "not a letter" otherwise |
| MovieRules.UnorderedIsNonLetter | couchpotato/core/plugins/movie/main.py:132-140 | "ba" is not in the alphabet, so it filters on "not a letter" |
| MovieRules.LetterFilters | couchpotato/core/plugins/movie/main.py:133-135 | a single letter of either case selects titles starting with that lowercase letter |
| MovieRules.HashFilters | couchpotato/core/plugins/movie/main.py:136-140 | '#' selects titles not starting with a letter |
| MovieRules.IndexCharSelects | couchpotato/core/plugins/movie/main.py:132-199 | listing by a character from `availableChars` selects exactly the titles with that initial |
| MovieRules.StripLeft | couchpotato/core/plugins/movie/main.py:161 | the suffix left after the leading whitespace |
| MovieRules.StripRight | couchpotato/core/plugins/movie/main.py:161 | the prefix left before the trailing whitespace |
| MovieRules.StripPadding | couchpotato/core/plugins/movie/main.py:161 | stripping removes exactly the padding around a trimmed value |
| MovieRules.CommaIndex | couchpotato/core/plugins/movie/main.py:161 | the index of the first comma |
| MovieRules.Split | couchpotato/core/plugins/movie/main.py:161 | `split(',')` gives comma-free parts, at least one, that join back to the input |
| MovieRules.CommaAfter | couchpotato/core/plugins/movie/main.py:161 | the first comma follows a comma-free prefix |
| MovieRules.SplitJoin | couchpotato/core/plugins/movie/main.py:161 | splitting the join of comma-free parts gives the parts back |
| MovieRules.ParseLimitOffset | couchpotato/core/plugins/movie/main.py:160-164 | no window iff the parameter is empty |
| MovieRules.LimitOnly | couchpotato/core/plugins/movie/main.py:160-163 | a value without a comma is the stripped limit with no offset |
| MovieRules.LimitAndOffset | couchpotato/core/plugins/movie/main.py:160-164 | with two or more parts, the first two are the stripped limit and offset |
| MovieRules.JoinNonEmpty | couchpotato/core/plugins/movie/main.py:160 | two or more parts never join to an empty parameter |
| MovieRules.ParsePieces | couchpotato/core/plugins/movie/main.py:160-164 | a parameter with a comma gives the stripped first two pieces |
| Movies.MoviePlugin.AnyFinishing | couchpotato/core/plugins/movie/main.py:440-442 | the inner loop finds a done release of a finishing type's quality iff one exists |
| Movies.MoviePlugin.Restatus | couchpotato/core/plugins/movie/main.py:424-446 | its result and new state are those of `Restatused` |
| Movies.MoviePlugin.Delete | couchpotato/core/plugins/movie/main.py:384-422 | always True; the new state is `Deleted` |
| Movies.MoviePlugin.DeleteLoop | couchpotato/core/plugins/movie/main.py:396-410 | counts the movie's releases and the doomed ones, removes exactly the doomed ones, and settles the target status |
| Movies.MoviePlugin.DeleteRows | couchpotato/core/plugins/movie/main.py:396-410 | over any set of rows and its condemned subset: deletes exactly the condemned ones and counts them |
| Movies.MoviePlugin.DeleteOne | couchpotato/core/plugins/movie/main.py:398-409 | one round removes and counts the row iff the mode condemns it, and sets the target once a row was seen |
| Movies.MoviePlugin.SameSizeSubset | couchpotato/core/plugins/movie/main.py:412 | equal counts mean every release was deleted |
| Movies.MoviePlugin.MovieOnLibrary | couchpotato/core/plugins/movie/main.py:284 | the movie the library lookup finds |
| Movies.MoviePlugin.DropReleases | couchpotato/core/plugins/movie/main.py:297-314 | removes exactly the movie's releases in the status and changes nothing else |
| Movies.MoviePlugin.Add | couchpotato/core/plugins/movie/main.py:273-322 | the returned id and new state are those of `Added` |
| Movies.MoviePlugin.RowsOf | couchpotato/core/plugins/movie/main.py:190-195 | the query's rows, in the order given |
| Movies.MoviePlugin.AvailableChars | couchpotato/core/plugins/movie/main.py:180-203 | the characters are `Chars` of the rows |
| Movies.MoviePlugin.NoneStays | couchpotato/core/plugins/movie/main.py:197-198 | once a prefix fails, the whole call fails |

## Left out

- Web views, API registration, event wiring, the scheduler, logging and database sessions are left out. A `fireEvent` to another plugin is either a parameter (`Gateway`, `Services`) or an event in the trace.
- Concurrency is left out. The `checkSnatched` latch is modelled as a field, within one process.
- Clocks are a `now` parameter.
- `md5(url)` is the constructor `UrlDigest(url)`, so two urls share a digest only if they are equal.
- The query order of in-flight releases, and of the `availableChars` join, are parameters.
- `add` of the release plugin (lines 108-162) is left out, apart from its identifier (line 112). It needs the renamer's group dict, `file.add` and the media row. Its `saveFile` call at line 173 passes the `file` builtin; that is not part of this model.
- `manualDownload`, `createNzbName`, `movieInFromFolder` and `getImdb` are not part of this model. `movieInFromFolder` is the `inFrom` parameter.
- The name-matching branch at lines 541-545 is unreachable: line 524 already skipped releases without a download id. It is not modelled.
- Reconcile.Step treats a missing `timeleft` key (line 562) as present.
- Reconcile.Step does not model the extra lookup by `createNzbName` (line 532).
- Reconcile.Step keeps the `name` KeyError of line 525 as an exception that ends the loop.
- Line 480 queries `Release`, the plugin's own class, rather than the table `Relea`. The model takes the table that was evidently meant.
- `fnmatch`, `splitString`, `sp` and `fnEscape` are used without being imported in release/main.py. They are taken as the usual helpers: `fnEscape` escapes brackets only, and `sp` is the identity on '/' paths.
- `release.has_tag` through the event bus is taken to be falsy when the handler returns False.
- Releases.ReleasePlugin.UpdateStatus does not model the KeyError at line 456 when a release without files has no `name` info. The log name is not modelled.
- Releases.ReleasePlugin.Download does not model the log line at 308. It is taken not to raise, since its exception is caught at 334 after the info is saved.
- Marker files hold text. The model keeps only their names.
- Creating a marker (`createFile`) and removing one are taken to succeed.
- The downloaders' `files` field is already split on '|'.
- ReleaseOrder.ForMovieAsWritten assumes that `Release.to_dict` returns info values as the text stored in the info table. `Release.to_dict` lives in couchpotato/core/settings/model.py, which is not part of this model. If it converted scores to numbers, the Findings row would not apply.
- Releases.ReleasePlugin.CreateFromSearch requires every result to carry a scalar url (`HasUrl`). The KeyError at release/main.py:376 for a result without one is not modelled.
- Releases.ReleasePlugin.SaveOne carries the same `HasUrl` requirement, for the same reason.
- ReleaseOrder.ForMovie and `ReleaseOrder.ForMovieAsWritten` fix the query's row order as the input order. A non-numeric score sorts as 0 in the corrected order.
- MovieRules.Deleted: with 'all', the movie's releases go with it. The cascade comes from the schema, which is not part of this model.
- MovieRules.Added stamps a new movie's `last_edit` with `now` and takes its titles from the library row that `library.add` returns. `library.add` itself is left out.
- Movies.MoviePlugin.Add returns the movie id instead of `to_dict`. The search (`searcher.single`) and `library.update` are events.
- Movies.MoviePlugin.Restatus models the `AttributeError` for a missing movie, or an empty title list, as result False with no change. Inside `delete`, the event bus swallows it.
- Movies.MoviePlugin.DeleteLoop regroups the loop body: first whether the mode deletes at all, then the status test. This is the same branching as lines 400-409.
- `is` between status ids, quality identifiers and `len(splt)` is modelled as equality.
- The offset 0 of a one-part `limit_offset` is modelled as no offset.
- The `search` LIKE filter, `order_by`, `group_by`, the status filter's join and the joinedload options of `list` are left out.
- MovieRules.Lower lowercases ASCII only. The `strip` in `MovieRules.Strip` removes ASCII whitespace only.
- Titles are simple titles, which are lowercase. So the case-insensitivity of `startswith` plays no part.
- The `availableChars` status parameter is a set. The conversion of a single string to a list is left out.

## Findings

| source | as written | input that shows it | evidently intended | confidence | as-written member | corrected member |
|---|---|---|---|---|---|---|
| couchpotato/core/plugins/release/main.py:425 | releases are sorted by `info['score']`; assuming `Release.to_dict` gives info values back as their stored text, scores compare as text | two releases with scores "10" and "9": "9" sorts first | highest numeric score first | not executed | ReleaseOrder.ForMovieAsWritten, ReleaseOrder.NineAboveTen | ReleaseOrder.ForMovie, ReleaseOrder.TenAboveNine |
