/** The main routine of the downloader, `download_pdfs`: one pass over the
    lines of the listing that keeps the current category, and for every
    accepted entry creates the year directory, skips an existing PDF path or
    requests the URL, writing the PDF on success and removing it on failure.
    The filesystem is an object whose sets of paths the routine updates in
    place; the network is the oracle `fetch`, asked about the k-th request
    of the run. */
module Downloader {
  import opened Slug
  import opened Listing
  import opened Scanner
  import opened Materializer

  /** The regular files and directories under the working directory. */
  class FileSystem {
    var files: set<Path>
    var dirs: set<Path>

    /** The contents as a value. */
    function State(): Store
      reads this
    {
      Store(files, dirs)
    }

    constructor (s: Store)
      ensures State() == s
    {
      files, dirs := s.files, s.dirs;
    }

    /** `dir.mkdir(parents=True, exist_ok=True)`: `ok` is false when it
        raises, because a regular file stands where a directory is needed. */
    method MakeDirectories(dir: Path) returns (ok: bool)
      modifies this
      ensures ok <==> MakeDirs(old(State()), dir).Some?
      ensures State() == if ok then MakeDirs(old(State()), dir).value else old(State())
    {
      var made := MakeDirs(State(), dir);
      ok := made.Some?;
      if ok {
        dirs := made.value.dirs;
      }
    }

    /** `p.open("wb")`: `p` is a regular file afterwards. */
    method Create(p: Path)
      modifies this
      ensures State() == CreateFile(old(State()), p)
    {
      files := files + {p};
    }

    /** `p.unlink(missing_ok=True)` on a regular file. */
    method Remove(p: Path)
      modifies this
      ensures State() == Unlink(old(State()), p)
    {
      files := files - {p};
    }
  }

  /** The loop body for one accepted entry, given its job: create the year
      directory, then skip, or request the URL as the run's `requests`-th
      request and write or clean up the PDF path. The new store and the
      outcome are those `Handle` gives. */
  method Materialize(fs: FileSystem, job: Job, requests: nat, fetch: Fetcher) returns (outcome: Outcome)
    modifies fs
    ensures (fs.State(), outcome) == Handle(old(fs.State()), job, fetch(requests, job.url))
  {
    var ok := fs.MakeDirectories(job.dir);
    if !ok {
      return Crashed;
    }
    var target := JobTarget(job);
    if Exists(fs.State(), target) {
      return Skipped;
    }
    var result := fetch(requests, job.url);
    if result == Completed {
      fs.Create(target);
      outcome := Downloaded;
    } else {
      if result == FailedAfterOpen {
        fs.Create(target);
      }
      if Exists(fs.State(), target) {
        fs.Remove(target);
      }
      outcome := Failed;
    }
  }

  /** One accepted entry of a run that has not stopped: its job is handled
      and the request count, the outcomes and the stop flag follow, as in
      one `Step` of the run. */
  method Advance(fs: FileSystem, job: Job, requests: nat, outcomes: seq<Outcome>, fetch: Fetcher)
    returns (requests': nat, outcomes': seq<Outcome>, crashed: bool)
    modifies fs
    ensures RunState(fs.State(), requests', outcomes', crashed) ==
      Step(RunState(old(fs.State()), requests, outcomes, false), job, fetch)
  {
    var outcome := Materialize(fs, job, requests, fetch);
    outcomes' := outcomes + [outcome];
    requests' := requests + if Requested(outcome) then 1 else 0;
    crashed := outcome == Crashed;
  }

  /** The scan of line `i` (numbered `i + 1`) under the current category,
      where `kinds` classifies the listing's lines: a header line replaces
      the category, and an entry line under a usable category yields its
      entry. The new category and the entries so far are those of the first
      `i + 1` lines. */
  method ReadLine(lines: seq<string>, ghost kinds: seq<LineKind>, i: nat, category: Option<string>)
    returns (next: Option<string>, entry: Option<Entry>)
    requires kinds == Kinds(lines) && i < |lines| && category == Cursor(kinds[..i])
    ensures next == Cursor(kinds[..i + 1])
    ensures entry.None? ==> EntriesOf(kinds[..i + 1]) == EntriesOf(kinds[..i])
    ensures entry.Some? ==> EntriesOf(kinds[..i + 1]) == EntriesOf(kinds[..i]) + [entry.value]
  {
    KindsAt(lines, i);
    KindStep(kinds, i);
    next, entry := category, None;
    match Classify(lines[i])
    case HeaderLine(text) =>
      next := Some(Slugify(text));
    case EntryLine(fields) =>
      if HasCategory(category) {
        entry := Some(Entry(i + 1, category.value, fields));
      }
    case OtherLine =>
  }

  /** The scan and the downloads. `requests` counts the requests made, and
      `outcomes` records what became of each accepted entry (the `[skip]`,
      `[dl ]` and `[err]` lines of the console). `crashed` is set when
      `mkdir` raised, which ends the run. The final store, the count and the
      outcomes are those of `Run` over the jobs of the listing's entries. */
  method DownloadPdfs(fs: FileSystem, lines: seq<string>, outRoot: Path, fetch: Fetcher)
    returns (requests: nat, outcomes: seq<Outcome>, crashed: bool)
    modifies fs
    ensures Run(old(fs.State()), Jobs(outRoot, Entries(lines)), fetch) ==
      RunState(fs.State(), requests, outcomes, crashed)
  {
    ghost var s0 := fs.State();
    ghost var kinds := Kinds(lines);
    ghost var done: seq<Job> := [];
    var category: Option<string> := None;
    requests, outcomes, crashed := 0, [], false;
    var i := 0;
    while i < |lines| && !crashed
      invariant i <= |lines|
      invariant category == Cursor(kinds[..i])
      invariant done == Jobs(outRoot, EntriesOf(kinds[..i]))
      invariant Run(s0, done, fetch) == RunState(fs.State(), requests, outcomes, crashed)
    {
      var entry;
      category, entry := ReadLine(lines, kinds, i, category);
      if entry.Some? {
        var job := JobOf(outRoot, entry.value);
        JobsSnoc(outRoot, EntriesOf(kinds[..i]), entry.value);
        RunSnoc(s0, done, job, fetch);
        done := done + [job];
        requests, outcomes, crashed := Advance(fs, job, requests, outcomes, fetch);
      }
      i := i + 1;
    }
    ScanEnds(s0, kinds, i, outRoot, fetch);
  }

  /** The scan may stop at line `i`: either every line was read, or the run
      over the entries before it had already stopped. */
  lemma ScanEnds(s: Store, kinds: seq<LineKind>, i: nat, outRoot: Path, fetch: Fetcher)
    requires i <= |kinds|
    requires i == |kinds| || Run(s, Jobs(outRoot, EntriesOf(kinds[..i])), fetch).crashed
    ensures Run(s, Jobs(outRoot, EntriesOf(kinds)), fetch) == Run(s, Jobs(outRoot, EntriesOf(kinds[..i])), fetch)
  {
    if i == |kinds| {
      assert kinds[..i] == kinds;
    } else {
      EntriesOfPrefix(kinds, i);
      JobsPrefix(outRoot, EntriesOf(kinds[..i]), EntriesOf(kinds));
      RunStopsWithin(s, Jobs(outRoot, EntriesOf(kinds[..i])), Jobs(outRoot, EntriesOf(kinds)), fetch);
    }
  }
}
