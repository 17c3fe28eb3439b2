/** Sidecar tag markers: `<stem>.<tag>.ignore` files next to a release's files.
    The file system is a set of file paths plus a set of directory paths;
    `os.walk(folder)` yields the files whose path starts with `folder + "/"`. */
module TagMarkers {
  import opened Records

  /** Index of the last `c` in `p`, or -1 when there is none. */
  function LastIndex(p: string, c: char): (k: int)
    ensures -1 <= k < |p|
    ensures k >= 0 ==> p[k] == c
    ensures forall i :: k < i < |p| ==> p[i] != c
  {
    if |p| == 0 then -1
    else if p[|p| - 1] == c then |p| - 1
    else LastIndex(p[..|p| - 1], c)
  }

  /** `os.path.splitext` on '/'-separated paths: the extension starts at the
      last dot of the base name, unless only dots precede it in the base name. */
  function Splitext(p: string): (parts: (string, string))
    ensures parts.0 + parts.1 == p
    ensures parts.1 == [] || parts.1[0] == '.'
    ensures forall i :: 0 < i < |parts.1| ==> parts.1[i] != '.' && parts.1[i] != '/'
  {
    var sep := LastIndex(p, '/');
    var dot := LastIndex(p, '.');
    if dot > sep && exists i :: sep < i < dot && p[i] != '.' then (p[..dot], p[dot..]) else (p, [])
  }

  function Stem(p: string): string { Splitext(p).0 }

  function Ext(p: string): string { Splitext(p).1 }

  /** The marker file that tags `f` with `tag`. */
  function MarkerName(f: string, tag: string): string {
    Stem(f) + "." + tag + ".ignore"
  }

  /** The tags the program uses: non-empty words without dots or separators. */
  predicate PlainTag(tag: string) {
    |tag| > 0 && forall i :: 0 <= i < |tag| ==> tag[i] != '.' && tag[i] != '/'
  }

  predicate EndsWith(g: string, suffix: string) {
    |suffix| <= |g| && g[|g| - |suffix|..] == suffix
  }

  /** Python's `<=` on strings: lexicographic by code point. */
  predicate Below(a: string, b: string) {
    if a == [] then true
    else if b == [] then false
    else if a[0] != b[0] then a[0] < b[0]
    else Below(a[1..], b[1..])
  }

  lemma {:induction false} BelowTotal(a: string, b: string)
    ensures Below(a, b) || Below(b, a)
  {
    if a != [] && b != [] && a[0] == b[0] {
      BelowTotal(a[1..], b[1..]);
    }
  }

  lemma {:induction false} BelowTransitive(a: string, b: string, c: string)
    requires Below(a, b) && Below(b, c)
    ensures Below(a, c)
  {
    if a != [] && b != [] && c != [] && a[0] == b[0] && b[0] == c[0] {
      BelowTransitive(a[1..], b[1..], c[1..]);
    }
  }

  lemma {:induction false} BelowReflexive(a: string)
    ensures Below(a, a)
  {
    if a != [] {
      BelowReflexive(a[1..]);
    }
  }

  lemma BelowAll(a: string, m: string, s: seq<string>)
    requires Below(a, m)
    requires forall x :: x in s ==> Below(m, x)
    ensures forall x :: x in s ==> Below(a, x)
  {
    forall x | x in s ensures Below(a, x) {
      BelowTransitive(a, m, x);
    }
  }

  /** `sorted(files)[0]`: the least file name. */
  function Least(s: seq<string>): (m: string)
    requires |s| > 0
    ensures m in s
    ensures forall x :: x in s ==> Below(m, x)
  {
    if |s| == 1 then BelowReflexive(s[0]); s[0]
    else
      var rest := Least(s[1..]);
      BelowTotal(s[0], rest);
      if Below(s[0], rest) then BelowAll(s[0], rest, s[1..]); BelowReflexive(s[0]); s[0] else rest
  }

  /** The files `os.walk(folder)` yields; nothing when `folder` is not a directory. */
  function Walk(files: set<string>, dirs: set<string>, folder: string): (w: set<string>)
    ensures w <= files
    ensures forall f :: f in w ==> folder + "/" < f
  {
    if folder in dirs then set f | f in files && folder + "/" < f else {}
  }

  /** Where `tagRelease` takes its files from: a renamer group (its movie files),
      a downloader record, or neither. */
  datatype TagSource = FromGroup(movieFiles: seq<string>) | FromDownload(rd: DownloadRecord) | NoSource

  /** A group with no movie file makes `sorted(...)[0]` raise. */
  predicate ValidSource(src: TagSource) {
    src.FromGroup? ==> |src.movieFiles| > 0
  }

  /** `tag_files` of `tagRelease`, before `.ignore` files are skipped. */
  function TagCandidates(files: set<string>, dirs: set<string>, src: TagSource): set<string>
    requires ValidSource(src)
  {
    match src
    case FromGroup(mf) => {Least(mf)}
    case FromDownload(rd) => if |rd.files| > 0 then (set f | f in rd.files) else Walk(files, dirs, rd.folder)
    case NoSource => {}
  }

  /** The file set after `tagRelease(tag, ...)`: one marker per tagged non-`.ignore` file. */
  function Tagged(files: set<string>, dirs: set<string>, tag: string, src: TagSource): (r: set<string>)
    requires ValidSource(src)
    ensures files <= r
    ensures tag == "" ==> r == files
    ensures forall g :: g in r && g !in files ==> EndsWith(g, tag + ".ignore")
  {
    if tag == "" then files
    else files + MarkersOf(TagCandidates(files, dirs, src), tag)
  }

  /** The markers for the non-`.ignore` files among `fs`. */
  function MarkersOf(fs: set<string>, tag: string): set<string> {
    set f | f in fs && Ext(f) != ".ignore" :: MarkerName(f, tag)
  }

  /** The marker for one file: none for an `.ignore` file. */
  function MarkerFor(f: string, tag: string): set<string> {
    if Ext(f) != ".ignore" then {MarkerName(f, tag)} else {}
  }

  /** Markers can be created one file at a time. */
  lemma MarkersAdd(fs: set<string>, f: string, tag: string)
    ensures MarkersOf(fs + {f}, tag) == MarkersOf(fs, tag) + MarkerFor(f, tag)
  {
    var a := MarkersOf(fs + {f}, tag);
    var b := MarkersOf(fs, tag) + MarkerFor(f, tag);
    forall g | g in a ensures g in b {
      var h :| h in fs + {f} && Ext(h) != ".ignore" && g == MarkerName(h, tag);
      if h != f { assert g in MarkersOf(fs, tag); }
    }
  }

  /** `tag_files` of `untagRelease` and `hastagRelease`. */
  function TargetFiles(files: set<string>, dirs: set<string>, rd: DownloadRecord): set<string> {
    if |rd.files| > 0 then set f | f in rd.files
    else set f | f in Walk(files, dirs, rd.folder) && Ext(f) != ".ignore"
  }

  /** `ignore_files`: the files under the folder matching `*<tag>.ignore`. */
  function IgnoreFiles(files: set<string>, dirs: set<string>, folder: string, tag: string): set<string> {
    set g | g in Walk(files, dirs, folder) && EndsWith(g, tag + ".ignore")
  }

  /** `<stem>.*.ignore`: the glob an empty tag builds. */
  predicate WildMarker(g: string, stem: string) {
    |g| >= |stem| + 8 && stem + "." <= g && EndsWith(g, ".ignore")
  }

  /** Whether marker candidate `g` belongs to file `f` for `tag`; an empty tag matches any tag. */
  predicate Matches(g: string, f: string, tag: string) {
    if tag == "" then WildMarker(g, Stem(f)) else g == MarkerName(f, tag)
  }

  /** `hastagRelease`. */
  predicate HasTag(files: set<string>, dirs: set<string>, tag: string, rd: DownloadRecord) {
    && rd.folder in dirs
    && exists f, g :: f in TargetFiles(files, dirs, rd) && g in IgnoreFiles(files, dirs, rd.folder, tag) && Matches(g, f, tag)
  }

  /** The marker files `untagRelease` removes. */
  function Matched(files: set<string>, dirs: set<string>, tag: string, rd: DownloadRecord): set<string> {
    set g | g in IgnoreFiles(files, dirs, rd.folder, tag) && exists f :: f in TargetFiles(files, dirs, rd) && Matches(g, f, tag)
  }

  /** The file set after `untagRelease`. */
  function Untagged(files: set<string>, dirs: set<string>, tag: string, rd: DownloadRecord): (r: set<string>)
    ensures r <= files
    ensures rd.folder !in dirs ==> r == files
  {
    if rd.folder !in dirs then files else files - Matched(files, dirs, tag, rd)
  }

  // ---------------------------------------------------------------- properties

  /** The stem of a file under `folder` is still under `folder`. */
  lemma StemUnder(f: string, folder: string)
    requires folder + "/" < f
    ensures folder + "/" <= Stem(f)
  {
    var sep := LastIndex(f, '/');
    assert f[|folder|] == '/';
    assert sep >= |folder|;
    var p := folder + "/";
    assert p == f[..|p|];
  }

  /** A marker of a plain tag is itself an `.ignore` file. */
  lemma MarkerExt(f: string, tag: string)
    requires PlainTag(tag)
    ensures Ext(MarkerName(f, tag)) == ".ignore"
  {
    var s := Stem(f);
    var m := MarkerName(f, tag);
    assert m == s + "." + tag + ".ignore";
    var dot := |m| - 7;
    assert m[dot..] == ".ignore";
    forall i | dot < i < |m| ensures m[i] != '.' {
      assert m[i] == ".ignore"[i - dot];
    }
    assert m[dot] == '.';
    assert LastIndex(m, '.') == dot;
    forall i | |s| <= i < |m| ensures m[i] != '/' {
      if i == |s| {
      } else if i <= |s| + |tag| {
        assert m[i] == tag[i - |s| - 1];
      } else {
        assert m[i] == ".ignore"[i - dot];
      }
    }
    var sep := LastIndex(m, '/');
    assert sep < |s|;
    assert m[|s| + 1] == tag[0];
    assert sep < |s| + 1 < dot && m[|s| + 1] != '.';
  }

  /** An empty tag finds the marker of any tag. */
  lemma EmptyTagMatchesAny(f: string, tag: string)
    ensures Matches(MarkerName(f, tag), f, "")
  {
    var s := Stem(f);
    var m := MarkerName(f, tag);
    assert m == (s + ".") + (tag + ".ignore");
    assert m[|m| - 7..] == ".ignore";
  }

  /** Tagging a release's file and then asking `hastagRelease` gives true. */
  lemma TagThenHasTag(files: set<string>, dirs: set<string>, tag: string, rd: DownloadRecord, f: string)
    requires tag != "" && rd.folder in dirs
    requires f in TagCandidates(files, dirs, FromDownload(rd)) && Ext(f) != ".ignore"
    requires rd.folder + "/" < f
    ensures HasTag(Tagged(files, dirs, tag, FromDownload(rd)), dirs, tag, rd)
  {
    var r := Tagged(files, dirs, tag, FromDownload(rd));
    var g := MarkerName(f, tag);
    assert g in r;
    StemUnder(f, rd.folder);
    assert rd.folder + "/" < g;
    assert g in Walk(r, dirs, rd.folder);
    assert g == (Stem(f) + ".") + (tag + ".ignore");
    assert EndsWith(g, tag + ".ignore");
    assert g in IgnoreFiles(r, dirs, rd.folder, tag);
    if |rd.files| == 0 {
      assert f in Walk(r, dirs, rd.folder);
    }
    assert f in TargetFiles(r, dirs, rd);
    assert Matches(g, f, tag);
  }

  /** After `untagRelease`, `hastagRelease` with the same tag gives false. */
  lemma UntagClearsTag(files: set<string>, dirs: set<string>, tag: string, rd: DownloadRecord)
    ensures !HasTag(Untagged(files, dirs, tag, rd), dirs, tag, rd)
  {
    var r := Untagged(files, dirs, tag, rd);
    if rd.folder in dirs {
      forall f, g | f in TargetFiles(r, dirs, rd) && g in IgnoreFiles(r, dirs, rd.folder, tag)
        ensures !Matches(g, f, tag)
      {
        assert f in TargetFiles(files, dirs, rd);
        assert g in IgnoreFiles(files, dirs, rd.folder, tag);
        assert g !in Matched(files, dirs, tag, rd);
      }
    }
  }

  /** Tag, untag, has-tag: the marker is gone. */
  lemma TagUntagHasTag(files: set<string>, dirs: set<string>, tag: string, rd: DownloadRecord)
    ensures !HasTag(Untagged(Tagged(files, dirs, tag, FromDownload(rd)), dirs, tag, rd), dirs, tag, rd)
  {
    UntagClearsTag(Tagged(files, dirs, tag, FromDownload(rd)), dirs, tag, rd);
  }

  /** Tagging twice creates no further marker. */
  lemma TagIdempotent(files: set<string>, dirs: set<string>, tag: string, src: TagSource)
    requires ValidSource(src) && PlainTag(tag)
    ensures Tagged(Tagged(files, dirs, tag, src), dirs, tag, src) == Tagged(files, dirs, tag, src)
  {
    var r := Tagged(files, dirs, tag, src);
    forall f | f in TagCandidates(r, dirs, src) && Ext(f) != ".ignore"
      ensures f in TagCandidates(files, dirs, src)
    {
      if f !in TagCandidates(files, dirs, src) {
        assert src.FromDownload? && |src.rd.files| == 0;
        assert f in r && f !in files;
        assert f in (set h | h in TagCandidates(files, dirs, src) && Ext(h) != ".ignore" :: MarkerName(h, tag));
        var h :| h in TagCandidates(files, dirs, src) && Ext(h) != ".ignore" && f == MarkerName(h, tag);
        MarkerExt(h, tag);
      }
    }
    assert forall f :: f in TagCandidates(files, dirs, src) ==> f in TagCandidates(r, dirs, src);
  }
}
