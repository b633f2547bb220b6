/** What the downloader does with each accepted entry: it creates the year
    directory `out_root/category/year`, skips the entry when the PDF path
    already exists, and otherwise requests the URL and writes the body to
    the PDF path, removing whatever was written when the request fails.
    The filesystem is a store of paths; the network is an oracle that says
    how the k-th request of a run ends. */
module Materializer {
  import opened Slug
  import opened Listing
  import opened Scanner

  // ---------------------------------------------------------------------------
  // The store

  /** A path as its sequence of components, relative to the working directory. */
  type Path = seq<string>

  /** The regular files and directories the downloader can see. */
  datatype Store = Store(files: set<Path>, dirs: set<Path>)

  /** `Path.exists()`: a file or a directory is there. */
  predicate Exists(s: Store, p: Path) {
    p in s.files || p in s.dirs
  }

  /** `Path.is_dir()`: the empty path is the working directory, which is
      always there. */
  predicate IsDir(s: Store, p: Path) {
    p == [] || p in s.dirs
  }

  /** Every proper leading part of `p` is in `dirs`. */
  ghost predicate ParentsIn(p: Path, dirs: set<Path>) {
    forall k :: 0 < k < |p| ==> p[..k] in dirs
  }

  /** A well-formed tree: nothing is both a file and a directory, and every
      ancestor of something that exists is a directory. */
  ghost predicate Valid(s: Store) {
    s.files !! s.dirs &&
    (forall p :: p in s.files ==> ParentsIn(p, s.dirs)) &&
    (forall p :: p in s.dirs ==> ParentsIn(p, s.dirs))
  }

  /** `p` and all its non-empty leading parts. */
  function Ancestors(p: Path): (r: set<Path>)
    ensures forall k :: 0 < k <= |p| ==> p[..k] in r
    ensures forall q :: q in r ==> 0 < |q| <= |p| && q == p[..|q|]
  {
    set k | 0 < k <= |p| :: p[..k]
  }

  /** Some leading part of `dir`, or `dir` itself, is a regular file. */
  predicate Blocked(s: Store, dir: Path) {
    exists k :: 0 < k <= |dir| && dir[..k] in s.files
  }

  /** `dir.mkdir(parents=True, exist_ok=True)`: it raises (`None`) when a
      regular file stands where a directory is needed, and creates nothing
      then; otherwise `dir` and all its ancestors are directories after it,
      and nothing else changes. */
  function MakeDirs(s: Store, dir: Path): (r: Option<Store>)
    ensures r.None? <==> Blocked(s, dir)
    ensures r.Some? ==> r.value.files == s.files && s.dirs <= r.value.dirs
    ensures r.Some? ==> forall k :: 0 < k <= |dir| ==> dir[..k] in r.value.dirs
    ensures r.Some? ==> forall q :: q in r.value.dirs && q !in s.dirs ==> 0 < |q| <= |dir| && q == dir[..|q|]
  {
    if Blocked(s, dir) then None else Some(Store(s.files, s.dirs + Ancestors(dir)))
  }

  /** `open(p, "wb")`: `p` is a (possibly empty) regular file afterwards. */
  function CreateFile(s: Store, p: Path): Store {
    Store(s.files + {p}, s.dirs)
  }

  /** `p.unlink(missing_ok=True)` on a regular file. */
  function Unlink(s: Store, p: Path): Store {
    Store(s.files - {p}, s.dirs)
  }

  /** The `except` branch: `if pdf_path.exists(): pdf_path.unlink(missing_ok=True)`. */
  function CleanUp(s: Store, p: Path): (r: Store)
    ensures p !in r.files && r.dirs == s.dirs && r.files == s.files - {p}
  {
    if Exists(s, p) then Unlink(s, p) else s
  }

  // ---------------------------------------------------------------------------
  // One entry

  /** How a request ends: the body is written completely; an exception is
      raised before the output file is opened (connection error, timeout,
      error status); or one is raised after it was opened (while streaming). */
  datatype FetchResult = Completed | FailedBeforeOpen | FailedAfterOpen

  /** The network: how the `k`-th request of a run, for a URL, ends. */
  type Fetcher = (nat, string) -> FetchResult

  /** What became of an entry. `Crashed` is the exception `mkdir` raises,
      which nothing catches: the run stops there. */
  datatype Outcome = Skipped | Downloaded | Failed | Crashed

  predicate Requested(o: Outcome) {
    o == Downloaded || o == Failed
  }

  /** What the loop body works with for one entry: the year directory, the
      PDF file name and the URL to request. */
  datatype Job = Job(dir: Path, name: string, url: string)

  /** The PDF path of a job. */
  function JobTarget(j: Job): Path {
    j.dir + [j.name]
  }

  /** `out_root / category / year`, with `year.strip()`. */
  function YearDir(outRoot: Path, e: Entry): Path {
    outRoot + [e.category, StripSpace(e.fields.year)]
  }

  /** `f"{slugify(title.strip())}.pdf"`. */
  function FileName(f: Fields): string {
    Slugify(StripSpace(f.title)) + ".pdf"
  }

  function JobOf(outRoot: Path, e: Entry): Job {
    Job(YearDir(outRoot, e), FileName(e.fields), e.fields.url)
  }

  /** The PDF path of an entry. */
  function Target(outRoot: Path, e: Entry): Path {
    JobTarget(JobOf(outRoot, e))
  }

  /** The PDF path of an entry of a listing is `out_root/category/year/stem.pdf`:
      the category is a non-empty slug, the year four digits (which
      `strip()` leaves as they are) and the stem the slug of the stripped
      title. */
  lemma EntryTarget(lines: seq<string>, outRoot: Path, e: Entry)
    requires e in Entries(lines)
    ensures Target(outRoot, e) ==
      outRoot + [e.category, e.fields.year, Slugify(StripSpace(e.fields.title)) + ".pdf"]
    ensures e.category != [] && IsSlug(e.category)
    ensures |e.fields.year| == 4 && AllDigits(e.fields.year)
    ensures IsSlug(Slugify(StripSpace(e.fields.title)))
  {
    EntryGroups(lines, e);
    YearDirOfDigits(outRoot, e);
    AppendAfterPair(outRoot, e.category, e.fields.year, FileName(e.fields));
    SlugifyIsSlug(StripSpace(e.fields.title));
  }

  lemma AppendAfterPair<X>(p: seq<X>, a: X, b: X, c: X)
    ensures (p + [a, b]) + [c] == p + [a, b, c]
  {
  }

  /** A four-digit year has no whitespace to strip, so it names the year
      directory as it is. */
  lemma YearDirOfDigits(outRoot: Path, e: Entry)
    requires |e.fields.year| == 4 && AllDigits(e.fields.year)
    ensures YearDir(outRoot, e) == outRoot + [e.category, e.fields.year]
  {
    var year := e.fields.year;
    assert IsDigit(year[0]) && IsDigit(year[3]);
    StripSpaceOfTrimmed(year);
  }

  /** `f` applied to every element of `s`, in order. */
  function Map<A, B>(f: A -> B, s: seq<A>): (r: seq<B>)
    ensures |r| == |s|
  {
    if s == [] then [] else Map(f, s[..|s| - 1]) + [f(s[|s| - 1])]
  }

  lemma MapSnoc<A, B>(f: A -> B, s: seq<A>, x: A)
    ensures Map(f, s + [x]) == Map(f, s) + [f(x)]
  {
    assert (s + [x])[..|s|] == s;
  }

  /** Mapping keeps the order: the image of a prefix is a prefix. */
  lemma {:induction false} MapPrefix<A, B>(f: A -> B, first: seq<A>, s: seq<A>)
    requires first <= s
    ensures Map(f, first) <= Map(f, s)
  {
    if |s| > |first| {
      var init := s[..|s| - 1];
      MapPrefix(f, first, init);
      MapSnoc(f, init, s[|s| - 1]);
      assert init + [s[|s| - 1]] == s;
    } else {
      assert first == s;
    }
  }

  /** The jobs of a sequence of entries, one per entry, in order. */
  function Jobs(outRoot: Path, entries: seq<Entry>): (r: seq<Job>)
    ensures |r| == |entries|
  {
    Map(e => JobOf(outRoot, e), entries)
  }

  lemma JobsSnoc(outRoot: Path, entries: seq<Entry>, e: Entry)
    ensures Jobs(outRoot, entries + [e]) == Jobs(outRoot, entries) + [JobOf(outRoot, e)]
  {
    MapSnoc(e => JobOf(outRoot, e), entries, e);
  }

  /** The jobs of the first entries are the first jobs. */
  lemma JobsPrefix(outRoot: Path, first: seq<Entry>, entries: seq<Entry>)
    requires first <= entries
    ensures Jobs(outRoot, first) <= Jobs(outRoot, entries)
  {
    MapPrefix(e => JobOf(outRoot, e), first, entries);
  }

  /** The body of the loop for one job; `result` is consulted only when the
      request is made. */
  function Handle(s: Store, j: Job, result: FetchResult): (Store, Outcome) {
    match MakeDirs(s, j.dir)
    case None => (s, Crashed)
    case Some(made) =>
      var target := JobTarget(j);
      if Exists(made, target) then (made, Skipped)
      else match result
        case Completed => (CreateFile(made, target), Downloaded)
        case FailedBeforeOpen => (CleanUp(made, target), Failed)
        case FailedAfterOpen => (CleanUp(CreateFile(made, target), target), Failed)
  }

  /** The rules for one entry: `mkdir` raises exactly when a regular file is
      in the way, and changes nothing then; otherwise the year directory
      exists afterwards, an existing PDF path means a skip with no request,
      a completed request leaves the PDF path a file, and a failed one leaves
      nothing there. No file other than the PDF path is created or removed. */
  lemma HandleSpec(s: Store, j: Job, result: FetchResult)
    ensures var h := Handle(s, j, result); var target := JobTarget(j);
      (h.1 == Crashed <==> Blocked(s, j.dir)) &&
      (h.1 == Crashed ==> h.0 == s) &&
      (h.1 != Crashed ==> forall k :: 0 < k <= |j.dir| ==> j.dir[..k] in h.0.dirs) &&
      (h.1 == Skipped <==> !Blocked(s, j.dir) && Exists(s, target)) &&
      (h.1 == Downloaded <==> !Blocked(s, j.dir) && !Exists(s, target) && result == Completed) &&
      (h.1 == Downloaded ==> target in h.0.files) &&
      (h.1 == Failed ==> !Exists(h.0, target)) &&
      (h.0.files == s.files || (h.1 == Downloaded && h.0.files == s.files + {target})) &&
      s.dirs <= h.0.dirs
  {
    if !Blocked(s, j.dir) {
      var made := MakeDirs(s, j.dir).value;
      var target := JobTarget(j);
      assert Exists(made, target) <==> Exists(s, target);
    }
  }

  // ---------------------------------------------------------------------------
  // The run

  /** The store, the number of requests made, what became of each entry so
      far, and whether the run stopped on an exception. */
  datatype RunState = RunState(store: Store, requests: nat, outcomes: seq<Outcome>, crashed: bool)

  /** One job, unless the run has already stopped. The request, when made, is
      the run's `r.requests`-th. */
  function Step(r: RunState, j: Job, fetch: Fetcher): RunState {
    if r.crashed then r
    else
      var h := Handle(r.store, j, fetch(r.requests, j.url));
      RunState(h.0, r.requests + (if Requested(h.1) then 1 else 0), r.outcomes + [h.1], h.1 == Crashed)
  }

  /** The jobs, in order, from the store `s`. */
  function Run(s: Store, jobs: seq<Job>, fetch: Fetcher): RunState {
    if jobs == [] then RunState(s, 0, [], false)
    else Step(Run(s, jobs[..|jobs| - 1], fetch), jobs[|jobs| - 1], fetch)
  }

  /** The number of outcomes that made a request. */
  function CountRequested(os: seq<Outcome>): nat {
    if os == [] then 0 else CountRequested(os[..|os| - 1]) + (if Requested(os[|os| - 1]) then 1 else 0)
  }

  lemma RunSnoc(s: Store, jobs: seq<Job>, j: Job, fetch: Fetcher)
    ensures Run(s, jobs + [j], fetch) == Step(Run(s, jobs, fetch), j, fetch)
  {
    assert (jobs + [j])[..|jobs|] == jobs;
  }

  // ---------------------------------------------------------------------------
  // Properties of one entry

  /** The store stays a well-formed tree. */
  lemma HandleKeepsValid(s: Store, j: Job, result: FetchResult)
    requires Valid(s)
    ensures Valid(Handle(s, j, result).0)
  {
    var dir := j.dir;
    if !Blocked(s, dir) {
      var made := MakeDirs(s, dir).value;
      forall p | p in made.dirs
        ensures ParentsIn(p, made.dirs)
      {
        if p !in s.dirs {
          forall k | 0 < k < |p|
            ensures p[..k] in made.dirs
          {
            assert p[..k] == dir[..k];
          }
        }
      }
      assert Valid(made);
      var target := JobTarget(j);
      if !Exists(made, target) {
        forall k | 0 < k < |target|
          ensures target[..k] in made.dirs
        {
          assert target[..k] == dir[..k];
        }
        assert Valid(CreateFile(made, target));
      }
    }
  }

  /** A job whose PDF path already exists in a well-formed tree is skipped
      without a request, and the store is left exactly as it was. */
  lemma SkipLeavesStore(s: Store, j: Job, result: FetchResult)
    requires Valid(s) && Exists(s, JobTarget(j))
    ensures Handle(s, j, result) == (s, Skipped)
  {
    var target := JobTarget(j);
    forall k | 0 < k <= |j.dir|
      ensures j.dir[..k] in s.dirs
    {
      assert j.dir[..k] == target[..k];
    }
    assert !Blocked(s, j.dir);
    assert s.dirs + Ancestors(j.dir) == s.dirs;
  }

  /** Whatever existed before a job still exists after it: the only path
      removed is the job's own, which did not exist before. */
  lemma HandleKeepsExisting(s: Store, j: Job, result: FetchResult, p: Path)
    requires Exists(s, p)
    ensures Exists(Handle(s, j, result).0, p)
  {
    HandleSpec(s, j, result);
  }

  // ---------------------------------------------------------------------------
  // Properties of a run

  /** The request count is the number of jobs that were downloaded or failed. */
  lemma {:induction false} RunCountsRequests(s: Store, jobs: seq<Job>, fetch: Fetcher)
    ensures Run(s, jobs, fetch).requests == CountRequested(Run(s, jobs, fetch).outcomes)
  {
    if jobs != [] {
      var prefix := jobs[..|jobs| - 1];
      RunCountsRequests(s, prefix, fetch);
      var r := Run(s, prefix, fetch);
      if !r.crashed {
        var os := Run(s, jobs, fetch).outcomes;
        assert os[..|os| - 1] == r.outcomes;
      }
    }
  }

  /** A run that did not stop has one outcome per job, none of them
      `Crashed`; a run that stopped has `Crashed` as its last outcome and
      nowhere else. */
  lemma {:induction false} RunOutcomes(s: Store, jobs: seq<Job>, fetch: Fetcher)
    ensures var r := Run(s, jobs, fetch);
      |r.outcomes| <= |jobs| &&
      (!r.crashed ==> |r.outcomes| == |jobs| && Crashed !in r.outcomes) &&
      (r.crashed ==>
        |r.outcomes| > 0 && r.outcomes[|r.outcomes| - 1] == Crashed && Crashed !in r.outcomes[..|r.outcomes| - 1])
  {
    if jobs != [] {
      var prefix := jobs[..|jobs| - 1];
      RunOutcomes(s, prefix, fetch);
      var r := Run(s, prefix, fetch);
      if !r.crashed {
        var os := Run(s, jobs, fetch).outcomes;
        assert os[..|os| - 1] == r.outcomes;
      }
    }
  }

  /** Once a run stopped, later jobs change nothing. */
  lemma {:induction false} RunAfterCrash(s: Store, jobs: seq<Job>, more: seq<Job>, fetch: Fetcher)
    requires Run(s, jobs, fetch).crashed
    ensures Run(s, jobs + more, fetch) == Run(s, jobs, fetch)
  {
    if more != [] {
      var last := more[|more| - 1];
      var init := more[..|more| - 1];
      RunAfterCrash(s, jobs, init, fetch);
      assert jobs + more == (jobs + init) + [last];
      RunSnoc(s, jobs + init, last, fetch);
    } else {
      assert jobs + more == jobs;
    }
  }

  /** A run that stopped within its first jobs ends as it was there. */
  lemma RunStopsWithin(s: Store, first: seq<Job>, jobs: seq<Job>, fetch: Fetcher)
    requires first <= jobs && Run(s, first, fetch).crashed
    ensures Run(s, jobs, fetch) == Run(s, first, fetch)
  {
    assert jobs == first + jobs[|first|..];
    RunAfterCrash(s, first, jobs[|first|..], fetch);
  }

  /** The store stays a well-formed tree, and nothing that existed is gone. */
  lemma {:induction false} RunKeepsValid(s: Store, jobs: seq<Job>, fetch: Fetcher)
    requires Valid(s)
    ensures Valid(Run(s, jobs, fetch).store)
    ensures forall p :: Exists(s, p) ==> Exists(Run(s, jobs, fetch).store, p)
  {
    if jobs != [] {
      var prefix := jobs[..|jobs| - 1];
      var j := jobs[|jobs| - 1];
      RunKeepsValid(s, prefix, fetch);
      var r := Run(s, prefix, fetch);
      if !r.crashed {
        var result := fetch(r.requests, j.url);
        HandleKeepsValid(r.store, j, result);
        forall p | Exists(s, p)
          ensures Exists(Run(s, jobs, fetch).store, p)
        {
          HandleKeepsExisting(r.store, j, result, p);
        }
      }
    }
  }

  /** Every job's year directory is in `st`, and so is the PDF path of
      every job whose outcome is not `Failed`. */
  ghost predicate Reached(st: Store, jobs: seq<Job>, outcomes: seq<Outcome>) {
    |outcomes| == |jobs| &&
    forall i :: 0 <= i < |jobs| ==>
      IsDir(st, jobs[i].dir) && (outcomes[i] != Failed ==> Exists(st, JobTarget(jobs[i])))
  }

  /** Handling one more job without an exception keeps what was reached and
      reaches that job too. */
  lemma HandleReaches(st: Store, jobs: seq<Job>, outcomes: seq<Outcome>, j: Job, result: FetchResult)
    requires Reached(st, jobs, outcomes) && Handle(st, j, result).1 != Crashed
    ensures Reached(Handle(st, j, result).0, jobs + [j], outcomes + [Handle(st, j, result).1])
  {
    var h := Handle(st, j, result);
    HandleSpec(st, j, result);
    assert j.dir[..|j.dir|] == j.dir;
    var js, os := jobs + [j], outcomes + [h.1];
    forall i | 0 <= i < |js|
      ensures IsDir(h.0, js[i].dir) && (os[i] != Failed ==> Exists(h.0, JobTarget(js[i])))
    {
      if i < |jobs| {
        assert js[i] == jobs[i] && os[i] == outcomes[i];
        if jobs[i].dir != [] {
          HandleKeepsExisting(st, j, result, jobs[i].dir);
        }
        if os[i] != Failed {
          HandleKeepsExisting(st, j, result, JobTarget(jobs[i]));
        }
      }
    }
  }

  /** After a run that did not stop, every job's year directory exists, and
      so does the PDF path of every job that did not fail. */
  lemma {:induction false} RunReachesTargets(s: Store, jobs: seq<Job>, fetch: Fetcher)
    ensures var r := Run(s, jobs, fetch); !r.crashed ==> Reached(r.store, jobs, r.outcomes)
  {
    if jobs != [] {
      var prefix := jobs[..|jobs| - 1];
      var j := jobs[|jobs| - 1];
      RunReachesTargets(s, prefix, fetch);
      var r := Run(s, prefix, fetch);
      if !r.crashed {
        var result := fetch(r.requests, j.url);
        if Handle(r.store, j, result).1 != Crashed {
          HandleReaches(r.store, prefix, r.outcomes, j, result);
          assert prefix + [j] == jobs;
        }
      }
    }
  }

  /** From a well-formed store where every job's PDF path already exists, a
      run skips every job, makes no request and changes nothing. */
  lemma {:induction false} RunWhenAllExist(s: Store, jobs: seq<Job>, fetch: Fetcher)
    requires Valid(s)
    requires forall i :: 0 <= i < |jobs| ==> Exists(s, JobTarget(jobs[i]))
    ensures Run(s, jobs, fetch) == RunState(s, 0, seq(|jobs|, _ => Skipped), false)
  {
    if jobs != [] {
      var n := |jobs| - 1;
      var prefix := jobs[..n];
      var j := jobs[n];
      assert forall i :: 0 <= i < n ==> prefix[i] == jobs[i];
      RunWhenAllExist(s, prefix, fetch);
      SkipLeavesStore(s, j, fetch(0, j.url));
      assert seq(n, _ => Skipped) + [Skipped] == seq(n + 1, _ => Skipped);
    }
  }

  /** A second run over the same jobs, after a run in which no request
      failed and nothing raised, makes no request at all and leaves the
      store as the first run left it. */
  lemma SecondRunFetchesNothing(s: Store, jobs: seq<Job>, first: Fetcher, second: Fetcher)
    requires Valid(s)
    requires !Run(s, jobs, first).crashed && Failed !in Run(s, jobs, first).outcomes
    ensures var after := Run(s, jobs, first).store;
      Run(after, jobs, second) == RunState(after, 0, seq(|jobs|, _ => Skipped), false)
  {
    var r := Run(s, jobs, first);
    RunReachesTargets(s, jobs, first);
    RunKeepsValid(s, jobs, first);
    forall i | 0 <= i < |jobs|
      ensures Exists(r.store, JobTarget(jobs[i]))
    {
      assert r.outcomes[i] in r.outcomes;
    }
    RunWhenAllExist(r.store, jobs, second);
  }
}
