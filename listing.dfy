/** The two line patterns of the downloader, written as hand matchers and
    related to declarative descriptions of what the regular expressions
    accept:
      header  `^##\s+(.*)`
      entry   `^\s*-\s*\[(\d{4})\]\s*(.+?)\s*\[\[(?:paper|documentation)\]\((https?://[^)]+)\)\]`
              (case-insensitive)
    `\s` is Python's whitespace set (`str.isspace`), `\d` is taken as the
    ASCII digits and case-insensitivity as ASCII case folding. */
module Listing {

  datatype Option<T> = None | Some(value: T)

  // ---------------------------------------------------------------------------
  // Character classes

  /** The characters Python's `\s` (and `str.isspace`) accepts. */
  predicate IsSpace(c: char) {
    var n := c as int;
    (9 <= n <= 13) || (28 <= n <= 32) || n == 0x85 || n == 0xA0 || n == 0x1680 ||
    (0x2000 <= n <= 0x200A) || n == 0x2028 || n == 0x2029 || n == 0x202F ||
    n == 0x205F || n == 0x3000
  }

  predicate AllSpace(s: string) {
    forall i :: 0 <= i < |s| ==> IsSpace(s[i])
  }

  /** Every character of `s[i..j]` is whitespace. */
  predicate SpaceBetween(s: string, i: nat, j: nat)
    requires i <= j <= |s|
  {
    forall k :: i <= k < j ==> IsSpace(s[k])
  }

  predicate IsDigit(c: char) {
    '0' <= c <= '9'
  }

  predicate AllDigits(s: string) {
    forall i :: 0 <= i < |s| ==> IsDigit(s[i])
  }

  /** Drop the leading whitespace (`str.lstrip()`). */
  function StripSpaceStart(s: string): (r: string)
    ensures |r| <= |s| && r == s[|s| - |r|..]
    ensures r == [] || !IsSpace(r[0])
    ensures forall i :: 0 <= i < |s| - |r| ==> IsSpace(s[i])
  {
    if s != [] && IsSpace(s[0]) then StripSpaceStart(s[1..]) else s
  }

  /** Drop the trailing whitespace (`str.rstrip()`). */
  function StripSpaceEnd(s: string): (r: string)
    ensures |r| <= |s| && r == s[..|r|]
    ensures r == [] || !IsSpace(r[|r| - 1])
    ensures forall i :: |r| <= i < |s| ==> IsSpace(s[i])
  {
    if s != [] && IsSpace(s[|s| - 1]) then StripSpaceEnd(s[..|s| - 1]) else s
  }

  /** `str.strip()`: whitespace removed at both ends. */
  function StripSpace(s: string): string {
    StripSpaceEnd(StripSpaceStart(s))
  }

  /** Text with no whitespace at either end is left as it is. */
  lemma StripSpaceOfTrimmed(s: string)
    requires s == [] || (!IsSpace(s[0]) && !IsSpace(s[|s| - 1]))
    ensures StripSpace(s) == s
  {
  }

  /** Text made of whitespace only is stripped to nothing. */
  lemma {:induction false} StripSpaceOfSpace(s: string)
    requires AllSpace(s)
    ensures StripSpace(s) == []
  {
    if s != [] {
      assert AllSpace(s[1..]);
      StripSpaceOfSpace(s[1..]);
    }
  }

  /** ASCII lower-casing, the folding `re.IGNORECASE` applies to the pattern's letters. */
  function Lower(c: char): char {
    if 'A' <= c <= 'Z' then (c as int + 32) as char else c
  }

  /** `a` equals the lower-case word `w` ignoring case. */
  predicate EqualsCI(a: string, w: string) {
    |a| == |w| && forall k :: 0 <= k < |a| ==> Lower(a[k]) == w[k]
  }

  /** `w` occurs, ignoring case, at position `i` of `s`. */
  predicate WordAt(s: string, i: nat, w: string) {
    i + |w| <= |s| && forall k :: 0 <= k < |w| ==> Lower(s[i + k]) == w[k]
  }

  lemma {:induction false} WordAtSlice(s: string, i: nat, w: string)
    requires i + |w| <= |s|
    ensures WordAt(s, i, w) <==> EqualsCI(s[i..i + |w|], w)
  {
    var t := s[i..i + |w|];
    assert forall k :: 0 <= k < |t| ==> t[k] == s[i + k];
  }

  /** The end of the whitespace run that starts at `i` (a greedy `\s*`). */
  function SkipSpace(s: string, i: nat): (j: nat)
    requires i <= |s|
    ensures i <= j <= |s| && SpaceBetween(s, i, j)
    ensures j == |s| || !IsSpace(s[j])
    decreases |s| - i
  {
    if i < |s| && IsSpace(s[i]) then SkipSpace(s, i + 1) else i
  }

  /** A whitespace run that ends at a non-space is the one `SkipSpace` finds. */
  lemma {:induction false} SkipSpaceAt(s: string, i: nat, j: nat)
    requires i <= j <= |s| && SpaceBetween(s, i, j)
    requires j == |s| || !IsSpace(s[j])
    ensures SkipSpace(s, i) == j
    decreases j - i
  {
    if i < j {
      SkipSpaceAt(s, i + 1, j);
    }
  }

  /** The first `)` at or after `i`, or the end of `s` (a greedy `[^)]*`). */
  function SkipNonParen(s: string, i: nat): (j: nat)
    requires i <= |s|
    ensures i <= j <= |s| && (j == |s| || s[j] == ')')
    ensures forall k :: i <= k < j ==> s[k] != ')'
    decreases |s| - i
  {
    if i < |s| && s[i] != ')' then SkipNonParen(s, i + 1) else i
  }

  lemma {:induction false} SkipNonParenAt(s: string, i: nat, j: nat)
    requires i <= j < |s| && s[j] == ')'
    requires forall k :: i <= k < j ==> s[k] != ')'
    ensures SkipNonParen(s, i) == j
    decreases j - i
  {
    if i < j {
      SkipNonParenAt(s, i + 1, j);
    }
  }

  // ---------------------------------------------------------------------------
  // Header lines: `^##\s+(.*)`

  /** What `.*` captures: everything before the first line feed. */
  function UpToNewline(s: string): (r: string)
    ensures |r| <= |s| && r == s[..|r|]
    ensures forall i :: 0 <= i < |r| ==> r[i] != '\n'
    ensures |r| < |s| ==> s[|r|] == '\n'
  {
    if s == [] || s[0] == '\n' then [] else [s[0]] + UpToNewline(s[1..])
  }

  /** The header matcher: the captured header text, or `None`. */
  function MatchHeader(line: string): Option<string> {
    if |line| >= 3 && line[0] == '#' && line[1] == '#' && IsSpace(line[2])
    then Some(UpToNewline(line[SkipSpace(line, 2)..]))
    else None
  }

  /** One way `^##\s+(.*)` can match: `\s+` covers `line[2..k]`, and `text` is
      what `(.*)` captures after it. */
  predicate HeaderParse(line: string, k: nat, text: string) {
    2 < k <= |line| && line[..2] == "##" && SpaceBetween(line, 2, k) &&
    text == UpToNewline(line[k..])
  }

  /** The parse the regex engine picks: the greedy `\s+` takes the whole run. */
  predicate HeaderGreedy(line: string, k: nat, text: string) {
    HeaderParse(line, k, text) && (k == |line| || !IsSpace(line[k]))
  }

  /** The matcher succeeds exactly when the pattern can match at all. */
  lemma {:induction false} MatchHeaderMatches(line: string)
    ensures MatchHeader(line).Some? <==> exists k: nat, t :: HeaderParse(line, k, t)
  {
    if MatchHeader(line).Some? {
      var k := SkipSpace(line, 2);
      assert line[..2] == "##";
      assert HeaderParse(line, k, UpToNewline(line[k..]));
    }
    if exists k: nat, t :: HeaderParse(line, k, t) {
      var k: nat, t :| HeaderParse(line, k, t);
      assert line[0] == line[..2][0] && line[1] == line[..2][1];
    }
  }

  /** The text the matcher captures is the one of the greedy parse. */
  lemma {:induction false} MatchHeaderCaptures(line: string, text: string)
    ensures MatchHeader(line) == Some(text) <==> exists k: nat :: HeaderGreedy(line, k, text)
  {
    if MatchHeader(line) == Some(text) {
      var k := SkipSpace(line, 2);
      assert line[..2] == "##";
      assert HeaderGreedy(line, k, text);
    }
    if exists k: nat :: HeaderGreedy(line, k, text) {
      var k: nat :| HeaderGreedy(line, k, text);
      assert line[0] == line[..2][0] && line[1] == line[..2][1];
      SkipSpaceAt(line, 2, k);
    }
  }

  /** `###` is not a header: the character after `##` must be whitespace. */
  lemma {:induction false} TripleHashIsNotHeader(line: string)
    requires |line| >= 3 && line[..3] == "###"
    ensures MatchHeader(line) == None
  {
    assert line[2] == line[..3][2];
  }

  // ---------------------------------------------------------------------------
  // Entry lines

  /** The groups of an entry line. */
  datatype Fields = Fields(year: string, title: string, url: string)

  /** `^\s*-\s*\[(\d{4})\]`: the year and the position just after `]`. */
  function MatchPrefix(line: string): (r: Option<(string, nat)>)
    ensures r.Some? ==> r.value.1 <= |line|
  {
    var a := SkipSpace(line, 0);
    if a < |line| && line[a] == '-' then
      var b := SkipSpace(line, a + 1);
      if b + 6 <= |line| && line[b] == '[' && AllDigits(line[b + 1..b + 5]) && line[b + 5] == ']'
      then Some((line[b + 1..b + 5], b + 6))
      else None
    else None
  }

  /** The prefix pattern with the `-` at `a` and the `[` at `b`; it ends at `p`. */
  predicate PrefixAt(line: string, a: nat, b: nat, year: string, p: nat) {
    a < b && p == b + 6 && p <= |line| &&
    SpaceBetween(line, 0, a) && line[a] == '-' && SpaceBetween(line, a + 1, b) &&
    line[b] == '[' && year == line[b + 1..b + 5] && AllDigits(year) && line[b + 5] == ']'
  }

  ghost predicate PrefixParse(line: string, year: string, p: nat) {
    exists a: nat, b: nat :: PrefixAt(line, a, b, year, p)
  }

  lemma {:induction false} MatchPrefixSpec(line: string, year: string, p: nat)
    ensures MatchPrefix(line) == Some((year, p)) <==> PrefixParse(line, year, p)
  {
    if PrefixParse(line, year, p) {
      var a: nat, b: nat :| PrefixAt(line, a, b, year, p);
      SkipSpaceAt(line, 0, a);
      SkipSpaceAt(line, a + 1, b);
    }
    if MatchPrefix(line) == Some((year, p)) {
      var a := SkipSpace(line, 0);
      var b := SkipSpace(line, a + 1);
      assert PrefixAt(line, a, b, year, p);
    }
  }

  /** `[[paper]` or `[[documentation]`, any case, is what the link keyword may be. */
  predicate IsKeyword(kw: string) {
    EqualsCI(kw, "paper") || EqualsCI(kw, "documentation")
  }

  /** `https?://[^)]+`: an http or https scheme in any case, then at least one
      character, and no `)` anywhere. */
  predicate IsUrl(url: string) {
    (forall i :: 0 <= i < |url| ==> url[i] != ')') &&
    ((|url| > 7 && WordAt(url, 0, "http://")) || (|url| > 8 && WordAt(url, 0, "https://")))
  }

  /** The link markup `[[kw](url)]` followed by `rest`. */
  function Link(kw: string, url: string, rest: string): string {
    "[[" + kw + "](" + url + ")]" + rest
  }

  /** `t` splits as `\s*`, the link markup with keyword `kw` and URL `url`, and
      whatever trails it. */
  predicate TailSplit(t: string, ws: string, kw: string, url: string, rest: string) {
    t == ws + Link(kw, url, rest) && AllSpace(ws) && IsKeyword(kw) && IsUrl(url)
  }

  /** `\s*\[\[(?:paper|documentation)\]\((https?://[^)]+)\)\]` matches at the
      start of `t` and captures `url`. */
  ghost predicate TailParse(t: string, url: string) {
    exists ws, kw, rest :: TailSplit(t, ws, kw, url, rest)
  }

  /** Where the pieces of `Link(kw, url, rest)` sit. */
  lemma {:induction false} LinkIndices(kw: string, url: string, rest: string)
    ensures var s, m := Link(kw, url, rest), 2 + |kw|;
      var z := m + 2 + |url|;
      |s| == z + 2 + |rest| && s[0] == '[' && s[1] == '[' && s[2..m] == kw &&
      s[m] == ']' && s[m + 1] == '(' && s[m + 2..z] == url &&
      s[z] == ')' && s[z + 1] == ']' && s[z + 2..] == rest
  {
  }

  /** The fixed characters of the link markup: `[[` at `j`, `](` at `m` and
      `)]` at `z`. */
  predicate LinkFrame(s: string, j: nat, m: nat, z: nat) {
    j + 2 <= m && m + 2 <= z && z + 2 <= |s| &&
    s[j] == '[' && s[j + 1] == '[' && s[m] == ']' && s[m + 1] == '(' &&
    s[z] == ')' && s[z + 1] == ']'
  }

  /** A string with the link's fixed characters at `j`, `m` and `z` holds a
      `Link` from `j` on. */
  lemma {:induction false} LinkOfFrame(s: string, j: nat, m: nat, z: nat)
    requires LinkFrame(s, j, m, z)
    ensures s[j..] == Link(s[j + 2..m], s[m + 2..z], s[z + 2..])
  {
    var r := Link(s[j + 2..m], s[m + 2..z], s[z + 2..]);
    LinkIndices(s[j + 2..m], s[m + 2..z], s[z + 2..]);
    assert |r| == |s| - j;
    forall i | 0 <= i < |r|
      ensures r[i] == s[j + i]
    {
      if 2 <= i < m - j {
        assert r[i] == r[2..m - j][i - 2];
      } else if m - j + 2 <= i < z - j {
        assert r[i] == r[m - j + 2..z - j][i - (m - j) - 2];
      } else if z - j + 2 <= i {
        assert r[i] == r[z - j + 2..][i - (z - j) - 2];
      }
    }
  }

  /** Conversely, a `Link` from `j` on has its fixed characters in place. */
  lemma {:induction false} FrameOfLink(s: string, j: nat, kw: string, url: string, rest: string) returns (m: nat, z: nat)
    requires j <= |s| && s[j..] == Link(kw, url, rest)
    ensures m == j + 2 + |kw| && z == m + 2 + |url|
    ensures LinkFrame(s, j, m, z) && s[j + 2..m] == kw && s[m + 2..z] == url
  {
    m := j + 2 + |kw|;
    z := m + 2 + |url|;
    var t := s[j..];
    LinkIndices(kw, url, rest);
    assert s[j] == t[0] && s[j + 1] == t[1] && s[m] == t[m - j] && s[m + 1] == t[m - j + 1];
    assert s[z] == t[z - j] && s[z + 1] == t[z - j + 1];
    SliceOfSuffix(s, j, 2, m - j);
    SliceOfSuffix(s, j, m - j + 2, z - j);
  }

  /** A slice of a suffix is a slice of the whole. */
  lemma SliceOfSuffix(s: string, j: nat, a: nat, b: nat)
    requires j <= |s| && a <= b <= |s| - j
    ensures s[j..][a..b] == s[j + a..j + b]
  {
    var l, r := s[j..][a..b], s[j + a..j + b];
    forall i | 0 <= i < |l|
      ensures l[i] == r[i]
    {
      assert l[i] == s[j..][a + i] == s[j + a + i];
    }
  }

  /** Where `(?:paper|documentation)` ends when it matches at `i`, else 0. */
  function KeywordEnd(s: string, i: nat): nat {
    if WordAt(s, i, "paper") then i + 5
    else if WordAt(s, i, "documentation") then i + 13
    else 0
  }

  /** Where `https?://` ends when it matches at `u`, else 0. */
  function SchemeEnd(s: string, u: nat): nat {
    if WordAt(s, u, "https://") then u + 8
    else if WordAt(s, u, "http://") then u + 7
    else 0
  }

  /** The link markup starting at position `j` of `s`: the URL, or `None`. */
  function MatchLinkAt(s: string, j: nat): Option<string> {
    if j + 2 <= |s| && s[j] == '[' && s[j + 1] == '[' then
      var m := KeywordEnd(s, j + 2);
      if m > 0 && m + 2 <= |s| && s[m] == ']' && s[m + 1] == '(' then
        var u := m + 2;
        var h := SchemeEnd(s, u);
        if h > 0 then
          var z := SkipNonParen(s, h);
          if h < z && z + 2 <= |s| && s[z + 1] == ']' then Some(s[u..z]) else None
        else None
      else None
    else None
  }

  /** The tail matcher at position `e`: optional whitespace, then the link markup. */
  function MatchTail(s: string, e: nat): Option<string> {
    if e <= |s| then MatchLinkAt(s, SkipSpace(s, e)) else None
  }

  /** A case-insensitive word at `u` of `s` is one at the start of `s[u..z]`. */
  lemma {:induction false} WordAtShift(s: string, u: nat, z: nat, w: string)
    requires u + |w| <= z <= |s|
    ensures WordAt(s[u..z], 0, w) <==> WordAt(s, u, w)
  {
    var t := s[u..z];
    assert forall k :: 0 <= k < |w| ==> t[k] == s[u + k];
  }

  /** Two words that differ at position `k` cannot both occur at `i`. */
  lemma {:induction false} WordsDiffer(s: string, i: nat, v: string, w: string, k: nat)
    requires k < |v| && k < |w| && v[k] != w[k]
    ensures !(WordAt(s, i, v) && WordAt(s, i, w))
  {
  }

  lemma {:induction false} NoParenInWord(s: string, u: nat, w: string)
    requires WordAt(s, u, w) && ')' !in w
    ensures forall k :: u <= k < u + |w| ==> s[k] != ')'
  {
    forall k | u <= k < u + |w|
      ensures s[k] != ')'
    {
      assert Lower(s[u + (k - u)]) == w[k - u];
    }
  }

  /** The keyword `KeywordEnd` recognises is a keyword. */
  lemma {:induction false} KeywordOfEnd(s: string, i: nat)
    requires KeywordEnd(s, i) > 0
    ensures i < KeywordEnd(s, i) <= |s| && IsKeyword(s[i..KeywordEnd(s, i)])
  {
    WordAtSlice(s, i, if WordAt(s, i, "paper") then "paper" else "documentation");
  }

  /** A keyword at `s[i..m]` is the one `KeywordEnd` recognises. */
  lemma {:induction false} KeywordEndOf(s: string, i: nat, m: nat)
    requires i <= m <= |s| && IsKeyword(s[i..m])
    ensures KeywordEnd(s, i) == m
  {
    if EqualsCI(s[i..m], "paper") {
      WordAtSlice(s, i, "paper");
    } else {
      WordAtSlice(s, i, "documentation");
      WordsDiffer(s, i, "paper", "documentation", 0);
    }
  }

  /** What follows a recognised scheme up to the next `)` is a URL. */
  lemma {:induction false} UrlOfScheme(s: string, u: nat, z: nat)
    requires u < SchemeEnd(s, u) < z <= |s|
    requires forall k :: SchemeEnd(s, u) <= k < z ==> s[k] != ')'
    ensures IsUrl(s[u..z])
  {
    var w := if WordAt(s, u, "https://") then "https://" else "http://";
    NoParenInWord(s, u, w);
    WordAtShift(s, u, z, w);
    var url := s[u..z];
    forall i | 0 <= i < |url|
      ensures url[i] != ')'
    {
      assert url[i] == s[u + i];
    }
  }

  /** A URL at `s[u..z]` has its scheme recognised, and no `)` in it. */
  lemma {:induction false} SchemeEndOf(s: string, u: nat, z: nat)
    requires u <= z <= |s| && IsUrl(s[u..z])
    ensures u < SchemeEnd(s, u) < z
    ensures forall k :: u <= k < z ==> s[k] != ')'
  {
    var url := s[u..z];
    forall k | u <= k < z
      ensures s[k] != ')'
    {
      assert s[k] == url[k - u];
    }
    if |url| > 8 && WordAt(url, 0, "https://") {
      WordAtShift(s, u, z, "https://");
    } else {
      WordAtShift(s, u, z, "http://");
      WordsDiffer(s, u, "https://", "http://", 4);
    }
  }

  /** The link markup with a keyword and a URL in its frame is matched. */
  lemma {:induction false} MatchLinkOfFrame(s: string, j: nat, m: nat, z: nat)
    requires LinkFrame(s, j, m, z) && IsKeyword(s[j + 2..m]) && IsUrl(s[m + 2..z])
    ensures MatchLinkAt(s, j) == Some(s[m + 2..z])
  {
    KeywordEndOf(s, j + 2, m);
    SchemeEndOf(s, m + 2, z);
    var h := SchemeEnd(s, m + 2);
    SkipNonParenAt(s, h, z);
    MatchLinkOfEnds(s, j, m, h, z);
  }

  /** The link markup is matched once its keyword, scheme and URL ends are known. */
  lemma MatchLinkOfEnds(s: string, j: nat, m: nat, h: nat, z: nat)
    requires LinkFrame(s, j, m, z) && KeywordEnd(s, j + 2) == m
    requires 0 < h == SchemeEnd(s, m + 2) && h < z && SkipNonParen(s, h) == z
    ensures MatchLinkAt(s, j) == Some(s[m + 2..z])
  {
  }

  /** A match of the link markup has a frame, a keyword and a URL. */
  lemma {:induction false} FrameOfMatchLink(s: string, j: nat) returns (m: nat, z: nat)
    requires MatchLinkAt(s, j).Some?
    ensures LinkFrame(s, j, m, z) && IsKeyword(s[j + 2..m]) && IsUrl(s[m + 2..z])
    ensures MatchLinkAt(s, j) == Some(s[m + 2..z])
  {
    m := KeywordEnd(s, j + 2);
    z := SkipNonParen(s, SchemeEnd(s, m + 2));
    KeywordOfEnd(s, j + 2);
    UrlOfScheme(s, m + 2, z);
  }

  lemma {:induction false} MatchTailSound(s: string, e: nat)
    requires e <= |s| && MatchTail(s, e).Some?
    ensures TailParse(s[e..], MatchTail(s, e).value)
  {
    var j := SkipSpace(s, e);
    var m, z := FrameOfMatchLink(s, j);
    TailSplitOfFrame(s, e, j, m, z);
    assert TailSplit(s[e..], s[e..j], s[j + 2..m], MatchTail(s, e).value, s[z + 2..]);
  }

  /** Whitespace from `e` to `j`, then a link frame with a keyword and a URL,
      is a split of the tail. */
  lemma TailSplitOfFrame(s: string, e: nat, j: nat, m: nat, z: nat)
    requires e <= j <= |s| && SpaceBetween(s, e, j)
    requires LinkFrame(s, j, m, z) && IsKeyword(s[j + 2..m]) && IsUrl(s[m + 2..z])
    ensures TailSplit(s[e..], s[e..j], s[j + 2..m], s[m + 2..z], s[z + 2..])
  {
    LinkOfFrame(s, j, m, z);
    var ws := s[e..j];
    SuffixSplit(s, e, j);
    forall i | 0 <= i < |ws|
      ensures IsSpace(ws[i])
    {
      assert ws[i] == s[e + i];
    }
  }

  /** A suffix is the slice up to `j` followed by the suffix from `j`. */
  lemma SuffixSplit(s: string, e: nat, j: nat)
    requires e <= j <= |s|
    ensures s[e..] == s[e..j] + s[j..]
  {
  }

  /** Splitting `s[e..]` as `ws + r` puts `r` at `e + |ws|`. */
  lemma {:induction false} SplitAt(s: string, e: nat, ws: string, r: string)
    requires e <= |s| && s[e..] == ws + r
    ensures e + |ws| <= |s| && s[e + |ws|..] == r
    ensures AllSpace(ws) ==> SpaceBetween(s, e, e + |ws|)
  {
    assert s[e + |ws|..] == s[e..][|ws|..];
    forall i | e <= i < e + |ws|
      ensures s[i] == ws[i - e]
    {
      assert s[i] == s[e..][i - e];
    }
  }

  /** The positions a parse of the tail pattern from `e` puts the whitespace
      run and the link's fixed characters at. */
  lemma {:induction false} TailFrame(s: string, e: nat, url: string) returns (j: nat, m: nat, z: nat)
    requires e <= |s| && TailParse(s[e..], url)
    ensures e <= j <= |s| && SpaceBetween(s, e, j) && LinkFrame(s, j, m, z)
    ensures IsKeyword(s[j + 2..m]) && s[m + 2..z] == url && IsUrl(url)
  {
    var ws, kw, rest :| TailSplit(s[e..], ws, kw, url, rest);
    SplitAt(s, e, ws, Link(kw, url, rest));
    j := e + |ws|;
    m, z := FrameOfLink(s, j, kw, url, rest);
  }

  lemma {:induction false} MatchTailComplete(s: string, e: nat, url: string)
    requires e <= |s| && TailParse(s[e..], url)
    ensures MatchTail(s, e) == Some(url)
  {
    var j, m, z := TailFrame(s, e, url);
    SkipSpaceAt(s, e, j);
    MatchLinkOfFrame(s, j, m, z);
  }

  /** The tail matcher captures `url` at `e` exactly when the tail pattern
      matches the rest of the line from `e` with that capture. */
  lemma MatchTailSpec(s: string, e: nat, url: string)
    requires e <= |s|
    ensures MatchTail(s, e) == Some(url) <==> TailParse(s[e..], url)
  {
    if MatchTail(s, e) == Some(url) {
      MatchTailSound(s, e);
    }
    if TailParse(s[e..], url) {
      MatchTailComplete(s, e, url);
    }
  }

  /** Skipping whitespace from inside a whitespace run ends where skipping from
      its start does. */
  lemma {:induction false} SkipSpaceFrom(s: string, e: nat, q: nat)
    requires e <= q <= |s| && SpaceBetween(s, e, q)
    ensures SkipSpace(s, e) == SkipSpace(s, q)
    decreases q - e
  {
    if e < q {
      SkipSpaceFrom(s, e + 1, q);
    }
  }

  // ---------------------------------------------------------------------------
  // The search for the title
  //
  // After the prefix, the entry pattern reads `\s*(.+?)\s*` and then the
  // tail. How the backtracking engine picks the title depends only on where
  // the tail matches, so this part is written for any tail matcher `tail`
  // and used with `MatchTail`.

  /** A matcher for the tail of the entry pattern: what it captures when it
      matches `line` from a position, or `None`. */
  type TailMatcher = (string, nat) -> Option<string>

  /** Whitespace in front of the tail does not change what it matches, as
      for the tail's own leading `\s*`. */
  ghost predicate SkipsLeadingSpace(tail: TailMatcher) {
    forall s: string, e: nat, q: nat :: e <= q <= |s| && SpaceBetween(s, e, q) ==> tail(s, e) == tail(s, q)
  }

  /** One whitespace character in front of the tail changes nothing. */
  lemma TailAfterSpace(tail: TailMatcher, s: string, e: nat)
    requires SkipsLeadingSpace(tail) && e < |s| && IsSpace(s[e])
    ensures tail(s, e) == tail(s, e + 1)
  {
    assert SpaceBetween(s, e, e + 1);
  }

  lemma MatchTailSkipsSpace()
    ensures SkipsLeadingSpace(MatchTail)
  {
    forall s: string, e: nat, q: nat | e <= q <= |s| && SpaceBetween(s, e, q)
      ensures MatchTail(s, e) == MatchTail(s, q)
    {
      SkipSpaceFrom(s, e, q);
    }
  }

  /** One way the rest of the entry pattern can match after the prefix ending
      at `p`: `\s*` takes `line[p..p + k]`, the title `(.+?)` is
      `line[p + k..e]`, and the tail matches from `e`. */
  predicate Candidate(tail: TailMatcher, line: string, p: nat, k: nat, e: nat) {
    p + k < e <= |line| && SpaceBetween(line, p, p + k) && tail(line, e).Some?
  }

  /** The candidate the backtracking engine reaches first: the greedy `\s*`
      is as long as possible, and for that length the lazy title as short as
      possible. */
  ghost predicate Preferred(tail: TailMatcher, line: string, p: nat, k: nat, e: nat) {
    Candidate(tail, line, p, k, e) &&
    forall k': nat, e': nat :: Candidate(tail, line, p, k', e') ==> k' < k || (k' == k && e <= e')
  }

  /** The whole entry pattern, with tail matcher `tail`, matches `line` and
      captures `f`. */
  ghost predicate EntryParseWith(tail: TailMatcher, line: string, f: Fields) {
    exists p: nat, k: nat, e: nat :: PrefixParse(line, f.year, p) && Preferred(tail, line, p, k, e) &&
      f.title == line[p + k..e] && tail(line, e) == Some(f.url)
  }

  /** The entry pattern matches `line` and captures `f`. */
  ghost predicate EntryParse(line: string, f: Fields) {
    EntryParseWith(MatchTail, line, f)
  }

  /** The first position in `[from, |line|]` where the tail matches. */
  function FirstTail(tail: TailMatcher, line: string, from: nat): (r: Option<nat>)
    requires from <= |line|
    ensures r.Some? ==> from <= r.value <= |line| && tail(line, r.value).Some?
    ensures forall e :: from <= e <= |line| && (r.None? || e < r.value) ==> tail(line, e).None?
    decreases |line| - from
  {
    if tail(line, from).Some? then Some(from)
    else if from == |line| then None
    else FirstTail(tail, line, from + 1)
  }

  /** The title search after the prefix that ends at `p`. After the
      whitespace run that ends at `q`, the title is the shortest text from `q`
      followed by the tail; when there is none, the engine gives one
      whitespace character back to the title, which succeeds only if the tail
      matches at `q`. */
  function MatchAfterPrefix(tail: TailMatcher, line: string, year: string, p: nat): Option<Fields>
    requires p <= |line|
  {
    var q := SkipSpace(line, p);
    if q < |line| && FirstTail(tail, line, q + 1).Some? then
      var e := FirstTail(tail, line, q + 1).value;
      Some(Fields(year, line[q..e], tail(line, e).value))
    else if p < q && tail(line, q).Some? then
      Some(Fields(year, line[q - 1..q], tail(line, q).value))
    else None
  }

  function MatchEntryWith(tail: TailMatcher, line: string): Option<Fields> {
    match MatchPrefix(line)
    case None => None
    case Some((year, p)) => MatchAfterPrefix(tail, line, year, p)
  }

  /** The entry matcher. */
  function MatchEntry(line: string): Option<Fields> {
    MatchEntryWith(MatchTail, line)
  }

  /** A candidate's whitespace run cannot reach past the greedy one. */
  lemma {:induction false} CandidateBound(tail: TailMatcher, line: string, p: nat, k: nat, e: nat)
    requires p <= |line| && Candidate(tail, line, p, k, e)
    ensures p + k <= SkipSpace(line, p)
  {
  }

  /** The parse that takes the whole whitespace run and the first title end
      after it is the preferred one. */
  lemma {:induction false} PreferredWhole(tail: TailMatcher, line: string, p: nat, e: nat)
    requires p <= |line| && SkipSpace(line, p) < |line|
    requires FirstTail(tail, line, SkipSpace(line, p) + 1) == Some(e)
    ensures Preferred(tail, line, p, SkipSpace(line, p) - p, e)
  {
    var k := SkipSpace(line, p) - p;
    assert Candidate(tail, line, p, k, e);
    forall k': nat, e': nat | Candidate(tail, line, p, k', e')
      ensures k' < k || (k' == k && e <= e')
    {
      CandidateBound(tail, line, p, k', e');
    }
  }

  /** When no title end follows the whole run, the parse that gives its last
      character to the title is the preferred one. */
  lemma {:induction false} PreferredGiveBack(tail: TailMatcher, line: string, p: nat)
    requires p <= |line| && p < SkipSpace(line, p)
    requires SkipSpace(line, p) < |line| ==> FirstTail(tail, line, SkipSpace(line, p) + 1).None?
    requires tail(line, SkipSpace(line, p)).Some?
    ensures Preferred(tail, line, p, SkipSpace(line, p) - p - 1, SkipSpace(line, p))
  {
    var q := SkipSpace(line, p);
    var k := q - p - 1;
    assert Candidate(tail, line, p, k, q);
    forall k': nat, e': nat | Candidate(tail, line, p, k', e')
      ensures k' < k || (k' == k && q <= e')
    {
      CandidateBound(tail, line, p, k', e');
    }
  }

  /** A success of the title search comes from the preferred parse. */
  lemma {:induction false} MatchAfterPrefixParse(tail: TailMatcher, line: string, year: string, p: nat)
    returns (k: nat, e: nat)
    requires p <= |line| && MatchAfterPrefix(tail, line, year, p).Some?
    ensures Preferred(tail, line, p, k, e)
    ensures MatchAfterPrefix(tail, line, year, p) == Some(Fields(year, line[p + k..e], tail(line, e).value))
  {
    var q := SkipSpace(line, p);
    if q < |line| && FirstTail(tail, line, q + 1).Some? {
      k, e := q - p, FirstTail(tail, line, q + 1).value;
      PreferredWhole(tail, line, p, e);
    } else {
      k, e := q - p - 1, q;
      PreferredGiveBack(tail, line, p);
    }
  }

  /** There is only one preferred parse. */
  lemma {:induction false} PreferredUnique(tail: TailMatcher, line: string, p: nat, k: nat, e: nat, k2: nat, e2: nat)
    requires Preferred(tail, line, p, k, e) && Preferred(tail, line, p, k2, e2)
    ensures k == k2 && e == e2
  {
  }

  lemma {:induction false} MatchEntryWithSound(tail: TailMatcher, line: string)
    requires MatchEntryWith(tail, line).Some?
    ensures EntryParseWith(tail, line, MatchEntryWith(tail, line).value)
  {
    var year, p := MatchPrefix(line).value.0, MatchPrefix(line).value.1;
    MatchPrefixSpec(line, year, p);
    var k, e := MatchAfterPrefixParse(tail, line, year, p);
  }

  /** Whenever the pattern has any way to match, the matcher succeeds. */
  lemma {:induction false} MatchEntryWithComplete(tail: TailMatcher, line: string, year: string, p: nat, k: nat, e: nat)
    requires SkipsLeadingSpace(tail)
    requires PrefixParse(line, year, p) && Candidate(tail, line, p, k, e)
    ensures MatchEntryWith(tail, line).Some?
  {
    MatchPrefixSpec(line, year, p);
    var q := SkipSpace(line, p);
    CandidateBound(tail, line, p, k, e);
    if e <= q {
      assert SpaceBetween(line, e, q);
      assert tail(line, e) == tail(line, q);
    }
  }

  /** The matcher returns the groups of the preferred parse. */
  lemma {:induction false} MatchEntryWithOfParse(tail: TailMatcher, line: string, f: Fields, p: nat, k: nat, e: nat)
    requires SkipsLeadingSpace(tail)
    requires PrefixParse(line, f.year, p) && Preferred(tail, line, p, k, e)
    requires f.title == line[p + k..e] && tail(line, e) == Some(f.url)
    ensures MatchEntryWith(tail, line) == Some(f)
  {
    MatchPrefixSpec(line, f.year, p);
    MatchEntryWithComplete(tail, line, f.year, p, k, e);
    var k2, e2 := MatchAfterPrefixParse(tail, line, f.year, p);
    PreferredUnique(tail, line, p, k, e, k2, e2);
  }

  lemma MatchEntryWithSpec(tail: TailMatcher, line: string, f: Fields)
    requires SkipsLeadingSpace(tail)
    ensures MatchEntryWith(tail, line) == Some(f) <==> EntryParseWith(tail, line, f)
  {
    if MatchEntryWith(tail, line) == Some(f) {
      MatchEntryWithSound(tail, line);
    }
    if EntryParseWith(tail, line, f) {
      var p: nat, k: nat, e: nat :| PrefixParse(line, f.year, p) && Preferred(tail, line, p, k, e) &&
        f.title == line[p + k..e] && tail(line, e) == Some(f.url);
      MatchEntryWithOfParse(tail, line, f, p, k, e);
    }
  }

  /** The entry matcher returns exactly the groups the regular expression
      captures. */
  lemma MatchEntrySpec(line: string, f: Fields)
    ensures MatchEntry(line) == Some(f) <==> EntryParse(line, f)
  {
    MatchTailSkipsSpace();
    MatchEntryWithSpec(MatchTail, line, f);
  }

  // ---------------------------------------------------------------------------
  // What an entry's groups look like

  /** The title group: never empty, and without whitespace at either end
      unless it is the single whitespace character the engine gave back. */
  predicate TitleShape(t: string) {
    |t| > 0 && ((|t| == 1 && IsSpace(t[0])) || (!IsSpace(t[0]) && !IsSpace(t[|t| - 1])))
  }

  /** A slice whose ends are not whitespace, or which is one whitespace
      character, has the shape of a title. */
  lemma TitleShapeOf(line: string, a: nat, b: nat)
    requires a < b <= |line|
    requires (b == a + 1 && IsSpace(line[a])) || (!IsSpace(line[a]) && !IsSpace(line[b - 1]))
    ensures TitleShape(line[a..b])
  {
    var t := line[a..b];
    assert t[0] == line[a] && t[|t| - 1] == line[b - 1];
  }

  /** When the tail skips leading whitespace, the first position where it
      matches is not preceded by whitespace, unless it is the start of the
      search. */
  lemma FirstTailAfterSpace(tail: TailMatcher, line: string, from: nat)
    requires SkipsLeadingSpace(tail) && from <= |line| && FirstTail(tail, line, from).Some?
    ensures var e := FirstTail(tail, line, from).value; e == from || !IsSpace(line[e - 1])
  {
    var e := FirstTail(tail, line, from).value;
    if e > from && IsSpace(line[e - 1]) {
      TailAfterSpace(tail, line, e - 1);
      assert false;
    }
  }

  /** The groups the title search returns, for any tail matcher that skips
      leading whitespace. */
  lemma {:induction false} MatchAfterPrefixGroups(tail: TailMatcher, line: string, year: string, p: nat)
    returns (e: nat)
    requires SkipsLeadingSpace(tail)
    requires p <= |line| && MatchAfterPrefix(tail, line, year, p).Some?
    ensures var f := MatchAfterPrefix(tail, line, year, p).value;
      f.year == year && TitleShape(f.title) && e <= |line| && tail(line, e) == Some(f.url)
  {
    var q := SkipSpace(line, p);
    if q < |line| && FirstTail(tail, line, q + 1).Some? {
      e := FirstTail(tail, line, q + 1).value;
      FirstTailAfterSpace(tail, line, q + 1);
      TitleShapeOf(line, q, e);
    } else {
      e := q;
      assert IsSpace(line[q - 1]);
      TitleShapeOf(line, q - 1, q);
    }
  }

  lemma {:induction false} MatchEntryWithGroups(tail: TailMatcher, line: string) returns (e: nat)
    requires SkipsLeadingSpace(tail) && MatchEntryWith(tail, line).Some?
    ensures var f := MatchEntryWith(tail, line).value;
      |f.year| == 4 && AllDigits(f.year) && TitleShape(f.title) && e <= |line| && tail(line, e) == Some(f.url)
  {
    var year, p := MatchPrefix(line).value.0, MatchPrefix(line).value.1;
    e := MatchAfterPrefixGroups(tail, line, year, p);
  }

  /** What the tail matcher captures is a URL. */
  lemma MatchTailUrl(s: string, e: nat)
    requires MatchTail(s, e).Some?
    ensures IsUrl(MatchTail(s, e).value)
  {
    var m, z := FrameOfMatchLink(s, SkipSpace(s, e));
  }

  /** An entry's year is four digits, its title has the shape above and its
      URL is an http or https URL without `)`. */
  lemma MatchEntryGroups(line: string)
    requires MatchEntry(line).Some?
    ensures var f := MatchEntry(line).value;
      |f.year| == 4 && AllDigits(f.year) && TitleShape(f.title) && IsUrl(f.url)
  {
    MatchTailSkipsSpace();
    var e := MatchEntryWithGroups(MatchTail, line);
    MatchTailUrl(line, e);
  }

  /** Only doubled brackets open the link: a line with no `[[` in it is
      never an entry, so `[paper](...)` with single brackets is not one. */
  lemma EntryHasDoubleBracket(line: string) returns (j: nat)
    requires MatchEntry(line).Some?
    ensures j + 1 < |line| && line[j] == '[' && line[j + 1] == '['
  {
    MatchTailSkipsSpace();
    var e := MatchEntryWithGroups(MatchTail, line);
    j := TailOpens(line, e);
  }

  /** Where the tail matches, the link markup opens with `[[`. */
  lemma TailOpens(s: string, e: nat) returns (j: nat)
    requires MatchTail(s, e).Some?
    ensures j + 1 < |s| && s[j] == '[' && s[j + 1] == '['
  {
    j := SkipSpace(s, e);
  }

  /** `title.strip()` on the title group: the title itself, or nothing for the
      single whitespace character. */
  lemma StripTitle(t: string)
    requires TitleShape(t)
    ensures StripSpace(t) == if |t| == 1 && IsSpace(t[0]) then [] else t
  {
    if |t| == 1 && IsSpace(t[0]) {
      StripSpaceOfSpace(t);
    } else {
      StripSpaceOfTrimmed(t);
    }
  }

  /** No line is both a header and an entry: a header starts with `#`, an
      entry with whitespace or `-`. */
  lemma HeaderIsNotEntry(line: string)
    requires MatchHeader(line).Some?
    ensures MatchEntry(line) == None
  {
  }
}
