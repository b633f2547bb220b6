# download.py, modelled in Dafny

`download.py` reads a Markdown listing of robotics papers and downloads every
linked PDF into `out_root/<category>/<year>/<title>.pdf`. This project models
its core and proves properties of that model:

- **`slugify`** (module `Slug`, `slug.dfy`). It drops non-ASCII characters,
  replaces every run of characters outside `[A-Za-z0-9]` with one `_`, and
  strips `_` from both ends.
- **The two regular expressions** of `download_pdfs` (module `Listing`,
  `listing.dfy`):
  - the header pattern `^##\s+(.*)`;
  - the case-insensitive entry pattern
    `^\s*-\s*\[(\d{4})\]\s*(.+?)\s*\[\[(?:paper|documentation)\]\((https?://[^)]+)\)\]`.

  Each pattern has a hand-written matcher (`MatchHeader`, `MatchEntry`) and a
  declarative description of what the pattern matches (`HeaderParse`,
  `PrefixParse`, `TailParse`, `EntryParse`). For the entry pattern, the
  description includes the backtracking engine's choice among several
  possible parses (`Preferred`). The matchers are proved to agree with these
  descriptions in both directions.
- **The line scanner** (module `Scanner`, `scanner.dfy`). It classifies each
  line: header, entry or other. It keeps `current_category` as a cursor set
  by the latest header. It yields one `Entry` per entry line read while the
  cursor is set to a non-empty slug. Lines are numbered from 1.
- **What the loop does with each entry** (module `Materializer`,
  `materializer.dfy`). The filesystem is a store of file paths and directory
  paths; a path is a sequence of components. For each entry the loop:
  - derives the year directory and the PDF path;
  - runs `mkdir(parents=True, exist_ok=True)`;
  - skips the entry when the PDF path exists;
  - otherwise requests the URL, writes the PDF on success, and removes the
    PDF path on any exception.

  `Handle` is one entry and `Run` is the whole sequence of entries. Both are
  functions on values.
- **The main routine itself** (module `Downloader`, `downloader.dfy`):
  - `DownloadPdfs` is an imperative method with a `while` loop over the
    lines. It keeps the category cursor in a local variable.
  - It works on a `FileSystem` object whose `files` and `dirs` fields it
    updates in place.
  - Its postcondition ties the final filesystem, the number of requests, the
    outcome of each entry and the stop flag to `Run` over the entries of the
    listing.

The network is an oracle `fetch: (nat, string) -> FetchResult`: it says how
the k-th request of the run, for a URL, ends. The possible ends are:
- `Completed`: the body was written;
- `FailedBeforeOpen`: connection error, timeout or error status, raised before
  the output file was opened;
- `FailedAfterOpen`: raised while streaming.

Where the module docstring and the code disagree, the model follows the code:

- The docstring's example link uses single brackets, `[paper](...)`
  (download.py:12). The entry pattern (download.py:49) demands `[[paper](...)]`.
  `Listing.EntryHasDoubleBracket` shows that every entry line contains `[[`.
- The docstring shows the directory name `Sim-to-Real_Transfer`
  (download.py:15). `slugify` turns `-` into `_`, and `Slug.SlugifyIsSlug`
  shows that no slug contains `-`.

Two consequences of the code are worth knowing:

- When the link markup follows `] ` directly, and no later link markup on the
  line completes the pattern, the engine can only match by giving the
  whitespace character to the title `(.+?)`. `title.strip()` then
  makes the file name `.pdf` (`Listing.MatchAfterPrefix`, `Listing.StripTitle`).
- `mkdir` raises when a regular file stands where a directory is needed.
  Nothing catches that exception, so the run ends there. The model records
  this as the outcome `Crashed`, and the run stops.

## Model

| member | source | states |
|---|---|---|
| Slug.Slugify | download.py:37-42 | `slugify` on normalised text: drop non-ASCII, collapse separator runs, strip `_`; its properties are the `Slugify*` lemmas below |
| Slug.AsciiOnly | download.py:40 | the result of dropping non-ASCII characters is no longer than the input and holds only ASCII characters |
| Slug.AsciiOnlyConcat | download.py:40 | dropping non-ASCII works character by character: it distributes over concatenation |
| Slug.AsciiOnlyNone | download.py:40 | a string with no ASCII character is dropped entirely |
| Slug.Collapse | download.py:41 | `re.sub(r"[^A-Za-z0-9]+", "_", text)`; its shape is `CollapseShape`, its word boundaries `CollapseBoundary` |
| Slug.CollapseShape | download.py:41 | after replacing each run of non-alphanumerics with `_`, only `[A-Za-z0-9_]` is left, with no `__`; the result is empty exactly when the input is, and starts with `_` exactly when the input starts with a non-alphanumeric |
| Slug.CollapseAppend | download.py:41 | the substitution restarts after a letter or digit: a string cut there is collapsed piece by piece |
| Slug.CollapseRun | download.py:41 | a maximal run of non-alphanumerics in front of a letter or digit (or the end) becomes exactly one `_` |
| Slug.CollapseBoundary | download.py:41 | between a letter or digit and the next letter or digit, a whole run of other characters becomes one `_`, and the text on each side is collapsed on its own |
| Slug.Strip | download.py:42 | `text.strip("_")`, as `TrimStart` then `TrimEnd` |
| Slug.TrimStart | download.py:42 | the leading `_` run is removed: the result is a suffix of the input that does not start with `_`, and everything removed was `_` |
| Slug.TrimEnd | download.py:42 | the trailing `_` run is removed: the result is a prefix of the input that does not end with `_`, and everything removed was `_` |
| Slug.AlnumsAsciiOnly | download.py:40 | dropping non-ASCII characters keeps every letter and digit, in order |
| Slug.AlnumsCollapse | download.py:41 | replacing separator runs keeps every letter and digit, in order |
| Slug.AlnumsStrip | download.py:42 | `strip("_")` keeps every letter and digit, in order |
| Slug.CollapseOfCollapsed | download.py:41 | the substitution leaves a string that is already collapsed unchanged |
| Slug.StripIsSlug | download.py:42 | stripping `_` from a collapsed string leaves a slug |
| Slug.SlugifyIsSlug | download.py:37-42 | the output uses only `[A-Za-z0-9_]`, never contains `__`, and neither starts nor ends with `_` |
| Slug.SlugifyKeepsAlnums | download.py:40-42 | the letters and digits of the output are exactly those of the input, in the same order |
| Slug.SlugifyOfSlug | download.py:37-42 | a slug is left unchanged |
| Slug.SlugifyFixedPoints | download.py:37-42 | `slugify(s) == s` if and only if `s` is a slug |
| Slug.SlugifyIdempotent | download.py:41-42 | `slugify(slugify(x)) == slugify(x)` |
| Slug.SlugifyJoin | download.py:37-42 | two slugs separated by a run of ASCII spaces or punctuation come out joined by a single `_` |
| Slug.SlugifyGlue | download.py:40-42 | characters outside ASCII vanish without a separator: the text on either side is joined directly |
| Listing.StripSpaceStart | download.py:67-68 | `lstrip()`: the result is a suffix of the input that does not start with whitespace, and only whitespace was removed |
| Listing.StripSpaceEnd | download.py:67-68 | `rstrip()`: the result is a prefix of the input that does not end with whitespace, and only whitespace was removed |
| Listing.StripSpace | download.py:67-68 | `str.strip()`, as `StripSpaceStart` then `StripSpaceEnd` |
| Listing.StripSpaceOfTrimmed | download.py:67 | `strip()` leaves text with no whitespace at either end as it is |
| Listing.StripSpaceOfSpace | download.py:68 | `strip()` turns whitespace-only text into the empty string |
| Listing.SkipSpace | download.py:47-49 | a greedy `\s*` from `i` covers only whitespace and stops at a non-space character or at the end of the line |
| Listing.SkipSpaceAt | download.py:47-49 | a whitespace run that ends at a non-space character is exactly the one the greedy `\s*` takes |
| Listing.SkipNonParen | download.py:49 | a greedy `[^)]*` stops at the first `)` or at the end of the line, and covers no `)` |
| Listing.UpToNewline | download.py:47 | what `(.*)` captures is the longest prefix with no line feed |
| Listing.MatchHeader | download.py:47 | `cat_regex.match`: `##`, a greedy `\s+`, then `(.*)`; specified by `MatchHeaderMatches` and `MatchHeaderCaptures` |
| Listing.MatchHeaderMatches | download.py:47 | the header matcher succeeds if and only if `^##\s+(.*)` matches the line in some way |
| Listing.MatchHeaderCaptures | download.py:47 | the header matcher returns `text` if and only if the greedy parse of `\s+` captures `text` |
| Listing.TripleHashIsNotHeader | download.py:47 | a line starting `###` is not a header |
| Listing.MatchPrefix | download.py:49 | the matcher for `^\s*-\s*\[(\d{4})\]`: on success it ends within the line; specified by `MatchPrefixSpec` |
| Listing.MatchPrefixSpec | download.py:49 | the prefix matcher returns the year and the end of `^\s*-\s*\[(\d{4})\]` if and only if the pattern parses the line that way |
| Listing.KeywordOfEnd | download.py:49-50 | what the keyword matcher recognises is `paper` or `documentation`, in any case |
| Listing.KeywordEndOf | download.py:49-50 | a keyword in any case is recognised, and the match ends right after it |
| Listing.UrlOfScheme | download.py:49 | a recognised `https?://` scheme followed by characters other than `)` is a URL of the pattern |
| Listing.SchemeEndOf | download.py:49 | every URL of the pattern starts with a recognised scheme and contains no `)` |
| Listing.LinkOfFrame | download.py:49 | a line with `[[`, `](` and `)]` at the right places holds link markup from the `[[` on |
| Listing.FrameOfLink | download.py:49 | link markup from position `j` puts `[[`, `](` and `)]` at the positions its keyword and URL lengths determine |
| Listing.MatchLinkAt | download.py:49 | the matcher for the link markup `[[paper](URL)]` or `[[documentation](URL)]`, keyword in any case, at one position, capturing `https?://[^)]+`; specified by `MatchLinkOfFrame` and `FrameOfMatchLink` |
| Listing.MatchLinkOfFrame | download.py:49 | link markup with a keyword and a URL is matched, and its URL is captured |
| Listing.FrameOfMatchLink | download.py:49 | a successful link match has the frame, a keyword and a URL, and captures that URL |
| Listing.MatchTail | download.py:49 | the matcher for the pattern's tail `\s*` then the link markup; specified by `MatchTailSpec` |
| Listing.MatchTailSpec | download.py:49 | the tail matcher captures `url` at position `e` if and only if the tail of the entry pattern (optional whitespace, then the link markup) matches from `e` with that capture |
| Listing.MatchTailSkipsSpace | download.py:49 | whitespace in front of the tail does not change what the tail matches |
| Listing.FirstTail | download.py:49 | the lazy title search stops at the first position where the tail matches, and the tail matches at no earlier position |
| Listing.CandidateBound | download.py:49 | no parse can give `\s*` more than the whitespace run after `]` |
| Listing.PreferredWhole | download.py:49 | when a tail follows the whole whitespace run, the engine's parse takes the whole run and the shortest title |
| Listing.PreferredGiveBack | download.py:49 | when none does, the engine's parse gives the last whitespace character back to the title |
| Listing.MatchAfterPrefix | download.py:49 | the engine's search for `\s*(.+?)` after `]`: the whole whitespace run and the shortest title first, then one whitespace character given back; specified by `MatchAfterPrefixParse` |
| Listing.MatchAfterPrefixParse | download.py:49 | a successful title search returns the groups of the engine's preferred parse |
| Listing.PreferredUnique | download.py:49 | the preferred parse is unique |
| Listing.MatchEntryWithComplete | download.py:48-51 | whenever the entry pattern has any parse, the matcher succeeds |
| Listing.MatchEntry | download.py:48-51 | `line_regex.match`: the prefix, the title search and the tail; specified by `MatchEntrySpec` |
| Listing.MatchEntrySpec | download.py:48-51 | the entry matcher returns `(year, title, url)` if and only if the entry pattern matches the line and its preferred parse captures those groups |
| Listing.MatchAfterPrefixGroups | download.py:49 | the title is never empty, and has no whitespace at either end unless it is the single whitespace character given back |
| Listing.MatchTailUrl | download.py:49 | the captured URL starts with `http://` or `https://` in any case, has at least one more character, and contains no `)` |
| Listing.MatchEntryGroups | download.py:48-51 | an entry's year is four digits, its title has the shape above, and its URL is a URL of the pattern |
| Listing.EntryHasDoubleBracket | download.py:49 | every entry line contains `[[`, so single-bracket links are never entries |
| Listing.StripTitle | download.py:68 | `title.strip()` is the title itself, or empty when the title is the single given-back whitespace character |
| Listing.HeaderIsNotEntry | download.py:47-49 | no line matches both patterns |
| Scanner.Classify | download.py:58-64 | a line is a header exactly when the header pattern matches, with its capture; otherwise it is an entry line with the entry pattern's groups, or neither |
| Scanner.KindsAt | download.py:56 | every line is classified on its own |
| Scanner.Cursor | download.py:53-61 | `current_category` after some lines: `None` at first, the slug of each header's text from that header on; specified by `CursorUnset` and `CursorOfLatestHeader` |
| Scanner.CursorUnset | download.py:53-61 | `current_category` is `None` if and only if no header has been read |
| Scanner.CursorHeader | download.py:58-61 | a set category is the slug of the text of the latest header read |
| Scanner.CursorOfLatestHeader | download.py:58-61 | the latest header determines the category |
| Scanner.CursorIsSlug | download.py:60 | a set category is a slug |
| Scanner.LineEntry | download.py:64-66 | an entry line under a set, non-empty category yields its groups with that category and its line number; any other line yields nothing |
| Scanner.EntriesOf | download.py:56-66 | the entries of the loop, line by line; specified by `EntriesOfSpec` and `EntriesOfOrdered` |
| Scanner.Entries | download.py:56-66 | the entries of a listing's lines; specified by `EntryOfLine` and `EntryGroups` |
| Scanner.EntriesOfSpec | download.py:56-66 | an entry is listed if and only if its own line yields it under the category in force just before that line |
| Scanner.EntriesOfOrdered | download.py:56 | entries come in line order, at most one per line |
| Scanner.EntryCursor | download.py:65 | an entry's line is an entry line, and its category is the non-empty category set before it |
| Scanner.EntryOfCategory | download.py:53-65 | every entry is filed under the non-empty slug of the latest header above it |
| Scanner.EntryGroups | download.py:64-66 | every entry has a non-empty slug as category, a four-digit year, a title of the shape above and a URL of the pattern |
| Scanner.KindStep | download.py:56-66 | reading one more line: a header replaces the category, and an entry line under a usable category appends its entry |
| Scanner.ScanStep | download.py:56-66 | the same step, stated on the lines themselves |
| Scanner.KindsPrefix | download.py:56 | the first lines are classified as they are in the whole listing |
| Scanner.EntriesOfPrefix | download.py:56 | the entries of the first lines are the first entries |
| Scanner.EntriesPrefix | download.py:56 | the entries of the first lines of a listing are its first entries |
| Scanner.EntryOfKind | download.py:58-65 | the line at index `n` yields `e` if and only if it is an entry line with `e`'s groups and the category before it is `e`'s non-empty category |
| Scanner.EntryOfLine | download.py:58-65 | the line at index `n` yields `e` if and only if it is not a header, matches the entry pattern with `e`'s groups, and the category read so far is `e`'s non-empty category |
| Scanner.EntryHeader | download.py:58-65 | every entry has a header line above it; the entry's category is that header's slug, and no header lies between them |
| Scanner.NoEntryBeforeHeader | download.py:53-65 | entry lines before the first header yield nothing |
| Materializer.Ancestors | download.py:71 | `parents=True` creates `dir` and every non-empty leading part of it, and nothing else |
| Materializer.MakeDirs | download.py:71 | `mkdir` raises if and only if a leading part of `dir` is a regular file; otherwise files are unchanged, no directory is lost, and `dir` and all its leading parts are directories |
| Materializer.CreateFile | download.py:82 | `open("wb")` makes the path a regular file |
| Materializer.Unlink | download.py:89 | `unlink(missing_ok=True)` removes the path from the files |
| Materializer.CleanUp | download.py:88-89 | after the clean-up the PDF path is not a file; nothing else changes |
| Materializer.YearDir | download.py:67-70 | `out_root / current_category / year.strip()` |
| Materializer.FileName | download.py:68-72 | `f"{slugify(title.strip())}.pdf"` |
| Materializer.Target | download.py:70-72 | the PDF path of an entry; specified by `EntryTarget` |
| Materializer.YearDirOfDigits | download.py:67-70 | `year.strip()` leaves a four-digit year as it is |
| Materializer.EntryTarget | download.py:66-72 | an entry's PDF path is `out_root/category/year/stem.pdf`, where the category is a non-empty slug, the year four digits, and the stem the slug of the stripped title |
| Materializer.JobsSnoc | download.py:56-72 | one more entry adds its job at the end |
| Materializer.JobsPrefix | download.py:56-72 | the jobs of the first entries are the first jobs |
| Materializer.Handle | download.py:70-89 | the loop body for one entry; specified by `HandleSpec` |
| Materializer.HandleSpec | download.py:70-89 | for one entry: `mkdir` raises exactly when blocked and then changes nothing; the year directory exists afterwards; a skip happens exactly when the PDF path exists; a download happens exactly when it does not and the request completes, and then the PDF path is a file; after a failure nothing exists at the PDF path; no file other than the PDF path changes, and no directory is removed |
| Materializer.HandleKeepsValid | download.py:71-89 | one entry keeps the store a well-formed tree |
| Materializer.SkipLeavesStore | download.py:71-76 | in a well-formed tree an existing PDF path means a skip, with no request and no change at all |
| Materializer.HandleKeepsExisting | download.py:74-89 | whatever existed before an entry still exists after it |
| Materializer.Step | download.py:56-89 | one entry unless an exception already ended the run; a request made is counted, the outcome recorded, and `Crashed` stops the run |
| Materializer.Run | download.py:56-89 | the entries in order from a starting store; specified by `RunCountsRequests`, `RunOutcomes`, `RunKeepsValid` and `RunReachesTargets` |
| Materializer.RunSnoc | download.py:56-89 | one more job is one more step of the run |
| Materializer.RunCountsRequests | download.py:79-80 | the request count equals the number of entries that were downloaded or failed |
| Materializer.RunOutcomes | download.py:56-89 | a run that did not stop has one outcome per entry and no `Crashed`; a run that stopped ends with its only `Crashed` |
| Materializer.RunAfterCrash | download.py:71 | after `mkdir` raised, later entries change nothing |
| Materializer.RunStopsWithin | download.py:71 | a run that stopped within its first jobs ends as it was there |
| Materializer.RunKeepsValid | download.py:56-89 | a run keeps the store a well-formed tree and removes nothing that existed before it |
| Materializer.HandleReaches | download.py:71-84 | one more entry keeps every earlier year directory and non-failed PDF path, and adds its own |
| Materializer.RunReachesTargets | download.py:71-84 | after a run that did not stop, every entry's year directory exists, and so does every PDF path whose entry did not fail |
| Materializer.RunWhenAllExist | download.py:74-76 | when every PDF path already exists in a well-formed tree, every entry is skipped, no request is made and nothing changes |
| Materializer.SecondRunFetchesNothing | download.py:74-84 | after a run with no failure and no exception, a second run over the same listing makes zero requests and changes nothing |
| Downloader.FileSystem.MakeDirectories | download.py:71 | the object's new contents are those `MakeDirs` gives, or unchanged when `mkdir` raises |
| Downloader.FileSystem.Create | download.py:82 | opening for writing makes the path a file |
| Downloader.FileSystem.Remove | download.py:88-89 | unlinking removes the path from the files |
| Downloader.Materialize | download.py:70-89 | the loop body for one entry leaves the filesystem and returns the outcome that `Handle` gives |
| Downloader.Advance | download.py:74-89 | the loop body updates the request count, the outcomes and the stop flag as one `Step` of the run does |
| Downloader.ReadLine | download.py:58-66 | reading line `i` gives the category and the entries of the first `i + 1` lines |
| Downloader.ScanEnds | download.py:56 | stopping the scan early, after `mkdir` raised, gives the same run as reading every line |
| Downloader.DownloadPdfs | download.py:46-89 | the final filesystem, the request count, the outcomes and the stop flag are those of `Run` over the jobs of the listing's entries, in order |

## Left out

- NFKD normalisation (download.py:39) is Unicode normalisation in a library outside this model. `Slug.Slugify` takes its input as already normalised and starts at the drop-non-ASCII step.
- Python's `\d` also accepts non-ASCII decimal digits. The model accepts only `0`-`9`.
- `re.IGNORECASE` is modelled as ASCII case folding only (`Listing.Lower`). Python also equates a few non-ASCII characters with the pattern's letters, such as U+017F with `s` and U+0130 with `i`. The model does not accept those characters.
- `\s` is modelled as the characters `str.isspace` accepts (`Listing.IsSpace`).
- Reading the file and `splitlines()` (download.py:56) are not modelled. The input is the sequence of lines, which therefore contains no line breaks.
- HTTP is not modelled: the session, `raise_for_status`, the 30-second timeout, streaming and 8192-byte chunks (download.py:54, 80-84). It is replaced by the `fetch` oracle and its three possible ends. Byte contents are not modelled: a written file is only a path in the store.
- Console and stderr output are not modelled: the `[skip]`, `[dl ]` and `[err]` lines and `relative_to` (download.py:75, 78, 86). The outcomes of the run stand for them.
- The program keeps no list of failures, and neither does the model.
- A failing `open` (download.py:82) counts as a request that failed before the file was opened. Exceptions the program does not catch, other than `mkdir`'s, are not modelled. An example is a failing `unlink` in the clean-up (download.py:89).
- `mkdir` raising for reasons other than a regular file in the way (download.py:71), such as missing permissions or an over-long name, is not modelled.
- The title group `(.+?)` cannot contain a line feed, since `.` does not match one. The model does not exclude line feeds from the title, because its lines come from `splitlines()` and contain none.
- The command-line wrapper is not modelled: argument parsing, the missing-input check and `KeyboardInterrupt` (download.py:93-106).
- Concurrency and other processes changing the filesystem during the run are not modelled.
