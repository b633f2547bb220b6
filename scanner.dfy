/** The line scanner of the downloader: it reads the listing line by line,
    keeps the slug of the latest `##` header as the current category, and
    turns every entry line met under a non-empty category into an `Entry`.
    Lines are numbered from 1, as the error messages of the downloader do.
    Each line is first classified by the two patterns; the scanning itself
    only looks at the classification. */
module Scanner {
  import opened Slug
  import opened Listing

  /** What the two patterns make of a line. */
  datatype LineKind = HeaderLine(text: string) | EntryLine(fields: Fields) | OtherLine

  /** The header pattern is tried first; the entry pattern only on lines
      that are not headers. */
  function Classify(line: string): (k: LineKind)
    ensures k.HeaderLine? <==> MatchHeader(line).Some?
    ensures k.HeaderLine? ==> MatchHeader(line) == Some(k.text)
    ensures k.EntryLine? ==> MatchEntry(line) == Some(k.fields)
    ensures k.OtherLine? ==> MatchHeader(line).None? && MatchEntry(line).None?
  {
    match MatchHeader(line)
    case Some(text) => HeaderLine(text)
    case None =>
      match MatchEntry(line)
      case Some(f) => EntryLine(f)
      case None => OtherLine
  }

  /** The classification of every line, in order. */
  function Kinds(lines: seq<string>): (r: seq<LineKind>)
    ensures |r| == |lines|
  {
    if lines == [] then [] else Kinds(lines[..|lines| - 1]) + [Classify(lines[|lines| - 1])]
  }

  lemma {:induction false} KindsAt(lines: seq<string>, i: nat)
    requires i < |lines|
    ensures Kinds(lines)[i] == Classify(lines[i])
  {
    var prefix := lines[..|lines| - 1];
    var last := Classify(lines[|lines| - 1]);
    assert Kinds(lines) == Kinds(prefix) + [last];
    if i < |prefix| {
      KindsAt(prefix, i);
      assert prefix[i] == lines[i];
    }
  }

  /** An accepted entry line: its line number, the category it is filed
      under and the groups of the entry pattern. */
  datatype Entry = Entry(lineno: nat, category: string, fields: Fields)

  /** `current_category` after reading lines of kinds `kinds`: the slug of
      the text of the last header, or `None` before the first header. */
  function Cursor(kinds: seq<LineKind>): Option<string> {
    if kinds == [] then None
    else match kinds[|kinds| - 1]
      case HeaderLine(text) => Some(Slugify(text))
      case _ => Cursor(kinds[..|kinds| - 1])
  }

  /** The category is usable: set, and not the empty slug (Python truthiness). */
  predicate HasCategory(cursor: Option<string>) {
    cursor.Some? && cursor.value != []
  }

  /** What the line numbered `lineno`, of kind `kind`, yields when the
      current category is `cursor`. */
  function LineEntry(cursor: Option<string>, kind: LineKind, lineno: nat): (r: Option<Entry>)
    ensures r.Some? ==> r.value.lineno == lineno
  {
    if kind.EntryLine? && HasCategory(cursor) then Some(Entry(lineno, cursor.value, kind.fields))
    else None
  }

  /** The entries of lines of kinds `kinds`, in order. */
  function EntriesOf(kinds: seq<LineKind>): seq<Entry> {
    if kinds == [] then []
    else
      var prefix := kinds[..|kinds| - 1];
      EntriesOf(prefix) +
        match LineEntry(Cursor(prefix), kinds[|kinds| - 1], |kinds|)
        case Some(e) => [e]
        case None => []
  }

  /** The entries of a listing. */
  function Entries(lines: seq<string>): seq<Entry> {
    EntriesOf(Kinds(lines))
  }

  // ---------------------------------------------------------------------------
  // The current category

  /** Line `i` is the last header among `kinds`. */
  ghost predicate LatestHeader(kinds: seq<LineKind>, i: nat) {
    i < |kinds| && kinds[i].HeaderLine? &&
    forall j :: i < j < |kinds| ==> !kinds[j].HeaderLine?
  }

  /** The cursor is unset exactly when no line so far is a header. */
  lemma {:induction false} CursorUnset(kinds: seq<LineKind>)
    ensures Cursor(kinds).None? <==> forall j :: 0 <= j < |kinds| ==> !kinds[j].HeaderLine?
  {
    if kinds != [] {
      var prefix := kinds[..|kinds| - 1];
      CursorUnset(prefix);
      assert forall j :: 0 <= j < |prefix| ==> prefix[j] == kinds[j];
    }
  }

  /** A set category comes from the last header read so far. */
  lemma {:induction false} CursorHeader(kinds: seq<LineKind>) returns (i: nat)
    requires Cursor(kinds).Some?
    ensures LatestHeader(kinds, i) && Cursor(kinds) == Some(Slugify(kinds[i].text))
  {
    var n := |kinds| - 1;
    if kinds[n].HeaderLine? {
      i := n;
    } else {
      var prefix := kinds[..n];
      assert Cursor(kinds) == Cursor(prefix);
      i := CursorHeader(prefix);
      assert prefix[i] == kinds[i];
      forall j | i < j < |kinds|
        ensures !kinds[j].HeaderLine?
      {
        if j < n {
          assert prefix[j] == kinds[j];
        }
      }
    }
  }

  /** The last header determines the cursor. */
  lemma CursorOfLatestHeader(kinds: seq<LineKind>, i: nat)
    requires LatestHeader(kinds, i)
    ensures Cursor(kinds) == Some(Slugify(kinds[i].text))
  {
    CursorUnset(kinds);
    var i' := CursorHeader(kinds);
  }

  /** A category, once set, is a slug. */
  lemma CursorIsSlug(kinds: seq<LineKind>)
    requires Cursor(kinds).Some?
    ensures IsSlug(Cursor(kinds).value)
  {
    var i := CursorHeader(kinds);
    SlugifyIsSlug(kinds[i].text);
  }

  // ---------------------------------------------------------------------------
  // The entries

  /** An entry is what its own line yields under the category in force just
      before it, and every line that yields one is listed. */
  lemma {:induction false} EntriesOfSpec(kinds: seq<LineKind>)
    ensures forall e :: e in EntriesOf(kinds) <==>
      1 <= e.lineno <= |kinds| &&
      LineEntry(Cursor(kinds[..e.lineno - 1]), kinds[e.lineno - 1], e.lineno) == Some(e)
  {
    if kinds != [] {
      var prefix := kinds[..|kinds| - 1];
      EntriesOfSpec(prefix);
      forall e
        ensures e in EntriesOf(kinds) <==>
          1 <= e.lineno <= |kinds| &&
          LineEntry(Cursor(kinds[..e.lineno - 1]), kinds[e.lineno - 1], e.lineno) == Some(e)
      {
        if 1 <= e.lineno <= |prefix| {
          assert prefix[..e.lineno - 1] == kinds[..e.lineno - 1];
          assert prefix[e.lineno - 1] == kinds[e.lineno - 1];
        }
        if e.lineno == |kinds| {
          assert kinds[..e.lineno - 1] == prefix;
        }
      }
    }
  }

  /** Entries come in the order of their lines, one per line at most. */
  lemma {:induction false} EntriesOfOrdered(kinds: seq<LineKind>)
    ensures forall e :: e in EntriesOf(kinds) ==> 1 <= e.lineno <= |kinds|
    ensures forall a, b :: 0 <= a < b < |EntriesOf(kinds)| ==>
      EntriesOf(kinds)[a].lineno < EntriesOf(kinds)[b].lineno
  {
    if kinds != [] {
      var prefix := kinds[..|kinds| - 1];
      EntriesOfOrdered(prefix);
    }
  }

  /** An entry carries the category in force just before its line. */
  lemma EntryCursor(kinds: seq<LineKind>, e: Entry)
    requires e in EntriesOf(kinds)
    ensures 1 <= e.lineno <= |kinds| && kinds[e.lineno - 1] == EntryLine(e.fields)
    ensures Cursor(kinds[..e.lineno - 1]) == Some(e.category) && e.category != []
  {
    EntriesOfSpec(kinds);
  }

  /** Every entry is filed under the slug of the last header above it, which
      is not empty, and holds the groups of its own line. */
  lemma EntryOfCategory(kinds: seq<LineKind>, e: Entry)
    requires e in EntriesOf(kinds)
    ensures 1 <= e.lineno <= |kinds| && kinds[e.lineno - 1] == EntryLine(e.fields)
    ensures e.category != [] && IsSlug(e.category)
    ensures exists i: nat :: (LatestHeader(kinds[..e.lineno - 1], i) &&
      e.category == Slugify(kinds[i].text))
  {
    EntryCursor(kinds, e);
    var before := kinds[..e.lineno - 1];
    CursorIsSlug(before);
    var i := CursorHeader(before);
    assert before[i] == kinds[i];
  }

  /** An entry of a listing is filed under a non-empty slug and has the
      groups the entry pattern gives: a four-digit year, a title of the
      shape `TitleShape` describes and an http or https URL without `)`. */
  lemma EntryGroups(lines: seq<string>, e: Entry)
    requires e in Entries(lines)
    ensures e.category != [] && IsSlug(e.category)
    ensures |e.fields.year| == 4 && AllDigits(e.fields.year)
    ensures TitleShape(e.fields.title) && IsUrl(e.fields.url)
  {
    var kinds := Kinds(lines);
    var n := e.lineno - 1;
    EntryCursor(kinds, e);
    CursorIsSlug(kinds[..n]);
    KindsAt(lines, n);
    var line := lines[n];
    assert Classify(line) == EntryLine(e.fields);
    assert MatchEntry(line) == Some(e.fields);
    MatchEntryGroups(line);
  }

  // ---------------------------------------------------------------------------
  // The scan, line by line

  /** One more line: a header replaces the category, and an entry line under
      a usable category appends its entry. */
  lemma KindStep(kinds: seq<LineKind>, i: nat)
    requires i < |kinds|
    ensures Cursor(kinds[..i + 1]) ==
      if kinds[i].HeaderLine? then Some(Slugify(kinds[i].text)) else Cursor(kinds[..i])
    ensures EntriesOf(kinds[..i + 1]) == EntriesOf(kinds[..i]) +
      match LineEntry(Cursor(kinds[..i]), kinds[i], i + 1)
      case Some(e) => [e]
      case None => []
  {
    assert kinds[..i + 1][..i] == kinds[..i];
  }

  /** The first `n` lines are classified as the whole listing's first `n`. */
  lemma KindsPrefix(lines: seq<string>, n: nat)
    requires n <= |lines|
    ensures Kinds(lines[..n]) == Kinds(lines)[..n]
  {
    forall i | 0 <= i < n
      ensures Kinds(lines[..n])[i] == Kinds(lines)[i]
    {
      KindsAt(lines[..n], i);
      KindsAt(lines, i);
    }
  }

  /** Reading one more line: a header replaces the category, and an entry
      line under a usable category appends its entry. */
  lemma ScanStep(lines: seq<string>, i: nat)
    requires i < |lines|
    ensures Kinds(lines[..i + 1]) == Kinds(lines[..i]) + [Classify(lines[i])]
    ensures Cursor(Kinds(lines[..i + 1])) ==
      if MatchHeader(lines[i]).Some? then Some(Slugify(MatchHeader(lines[i]).value))
      else Cursor(Kinds(lines[..i]))
    ensures Entries(lines[..i + 1]) == Entries(lines[..i]) +
      match LineEntry(Cursor(Kinds(lines[..i])), Classify(lines[i]), i + 1)
      case Some(e) => [e]
      case None => []
  {
    assert lines[..i + 1][..i] == lines[..i];
    var kinds := Kinds(lines[..i + 1]);
    assert kinds[..i] == Kinds(lines[..i]);
  }

  /** The entries of the first lines are the first entries. */
  lemma {:induction false} EntriesOfPrefix(kinds: seq<LineKind>, n: nat)
    requires n <= |kinds|
    ensures EntriesOf(kinds[..n]) <= EntriesOf(kinds)
    decreases |kinds| - n
  {
    if n < |kinds| {
      EntriesOfPrefix(kinds, n + 1);
      assert kinds[..n + 1][..n] == kinds[..n];
    } else {
      assert kinds[..n] == kinds;
    }
  }

  /** The entries of the first lines are the first entries of the listing. */
  lemma {:induction false} EntriesPrefix(lines: seq<string>, n: nat)
    requires n <= |lines|
    ensures Entries(lines[..n]) <= Entries(lines)
    decreases |lines| - n
  {
    if n < |lines| {
      EntriesPrefix(lines, n + 1);
      ScanStep(lines, n);
      assert lines[..|lines|] == lines;
    } else {
      assert lines[..n] == lines;
    }
  }

  /** The line of kind `kinds[n]` yields the entry `e` exactly when it is an
      entry line with the groups of `e` and the category read before it is
      set, not empty and equal to that of `e`. */
  lemma EntryOfKind(kinds: seq<LineKind>, n: nat, e: Entry)
    requires n < |kinds| && e.lineno == n + 1
    ensures e in EntriesOf(kinds) <==>
      kinds[n] == EntryLine(e.fields) && Cursor(kinds[..n]) == Some(e.category) && e.category != []
  {
    EntriesOfSpec(kinds);
    var c := Cursor(kinds[..n]);
    assert e in EntriesOf(kinds) <==> LineEntry(c, kinds[n], n + 1) == Some(e);
  }

  /** Line `n` (from 0) yields the entry `e` exactly when it is not a header,
      matches the entry pattern with the groups of `e`, and the category read
      so far is set, not empty and equal to that of `e`. */
  lemma EntryOfLine(lines: seq<string>, n: nat, e: Entry)
    requires n < |lines| && e.lineno == n + 1
    ensures e in Entries(lines) <==>
      MatchHeader(lines[n]).None? && MatchEntry(lines[n]) == Some(e.fields) &&
      Cursor(Kinds(lines[..n])) == Some(e.category) && e.category != []
  {
    EntryOfKind(Kinds(lines), n, e);
    KindsPrefix(lines, n);
    KindsAt(lines, n);
  }

  /** Every entry comes from an entry line below a header, and its category
      is the slug of the last header above it. */
  lemma EntryHeader(lines: seq<string>, e: Entry) returns (h: nat)
    requires e in Entries(lines)
    ensures h < e.lineno - 1 < |lines|
    ensures MatchEntry(lines[e.lineno - 1]) == Some(e.fields)
    ensures MatchHeader(lines[h]).Some? && e.category == Slugify(MatchHeader(lines[h]).value)
    ensures forall j :: h < j < e.lineno - 1 ==> MatchHeader(lines[j]).None?
  {
    var kinds := Kinds(lines);
    var n := e.lineno - 1;
    EntryCursor(kinds, e);
    KindsAt(lines, n);
    var before := kinds[..n];
    h := CursorHeader(before);
    KindsAt(lines, h);
    forall j | h < j < n
      ensures MatchHeader(lines[j]).None?
    {
      KindsAt(lines, j);
      assert before[j] == kinds[j];
    }
  }

  /** Entry lines before the first header yield nothing. */
  lemma NoEntryBeforeHeader(lines: seq<string>, n: nat)
    requires n < |lines| && forall j :: 0 <= j < n ==> MatchHeader(lines[j]).None?
    ensures forall e :: e in Entries(lines) ==> e.lineno != n + 1
  {
    forall e | e in Entries(lines)
      ensures e.lineno != n + 1
    {
      var h := EntryHeader(lines, e);
    }
  }
}
