/** The status vocabulary shared by releases and media (the `status` table). */
module Statuses {

  datatype Status =
    | Active      // media: wanted
    | Done        // media and releases: finished
    | Available   // release: found by a search, not attempted
    | Snatched    // release: handed to a downloader
    | Downloaded  // release: seeding finished and processed
    | Ignored     // release: manual or policy override
    | Failed      // release: the downloader reported failure
    | Seeding     // release: complete, still seeding
    | Missing     // release: no downloader knows it any more

  /** The statuses the reconciliation pass looks at. */
  predicate InFlight(s: Status) {
    s == Snatched || s == Seeding || s == Missing
  }

  /** The status `ignore` toggles to: ignored/failed go back to available, all else to ignored. */
  function IgnoreToggle(s: Status): (t: Status)
    ensures t == Available <==> s == Ignored || s == Failed
    ensures t == Ignored <==> !(s == Ignored || s == Failed)
  {
    if s == Ignored || s == Failed then Available else Ignored
  }

  /** Toggling twice restores an available or ignored release. */
  lemma ToggleTwice(s: Status)
    requires s == Available || s == Ignored
    ensures IgnoreToggle(IgnoreToggle(s)) == s
  {
  }
}
