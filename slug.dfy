/** Filesystem-safe slugs: the `slugify` helper of the downloader.
    The input is taken as already NFKD-normalised; the model starts at the
    drop-non-ASCII step and follows it with the run replacement and the
    trimming of `_` at both ends. */
module Slug {

  /** A character of the class `[A-Za-z0-9]`. */
  predicate IsAlnum(c: char) {
    'A' <= c <= 'Z' || 'a' <= c <= 'z' || '0' <= c <= '9'
  }

  /** A character that survives `encode("ascii", "ignore")`. */
  predicate IsAscii(c: char) {
    c as int < 128
  }

  predicate IsSlugChar(c: char) {
    IsAlnum(c) || c == '_'
  }

  /** Only `[A-Za-z0-9_]` and no two `_` in a row. */
  predicate Collapsed(s: string) {
    (forall i :: 0 <= i < |s| ==> IsSlugChar(s[i])) &&
    (forall i :: 0 < i < |s| && s[i] == '_' ==> s[i - 1] != '_')
  }

  /** What a slug looks like: collapsed, and no `_` at either end. */
  predicate IsSlug(s: string) {
    Collapsed(s) && (|s| > 0 ==> s[0] != '_' && s[|s| - 1] != '_')
  }

  /** The letters and digits of `s`, in order. */
  function Alnums(s: string): (r: string)
    ensures forall i :: 0 <= i < |r| ==> IsAlnum(r[i])
  {
    if s == [] then [] else (if IsAlnum(s[0]) then [s[0]] else []) + Alnums(s[1..])
  }

  /** Drop every character outside ASCII (the `encode("ascii", "ignore")` step). */
  function AsciiOnly(s: string): (r: string)
    ensures |r| <= |s|
    ensures forall i :: 0 <= i < |r| ==> IsAscii(r[i])
  {
    if s == [] then [] else (if IsAscii(s[0]) then [s[0]] else []) + AsciiOnly(s[1..])
  }

  /** Drop the leading run of characters outside `[A-Za-z0-9]`. */
  function SkipSeparators(s: string): (r: string)
    ensures |r| <= |s|
  {
    if s != [] && !IsAlnum(s[0]) then SkipSeparators(s[1..]) else s
  }

  /** What is skipped is a run of separators, and it is the whole run: the
      rest is a suffix that is empty or starts with a letter or digit. */
  lemma {:induction false} SkipSeparatorsShape(s: string)
    ensures SkipSeparators(s) == s[|s| - |SkipSeparators(s)|..]
    ensures SkipSeparators(s) == [] || IsAlnum(SkipSeparators(s)[0])
    ensures forall i :: 0 <= i < |s| - |SkipSeparators(s)| ==> !IsAlnum(s[i])
  {
    if s != [] && !IsAlnum(s[0]) {
      var r := SkipSeparators(s[1..]);
      SkipSeparatorsShape(s[1..]);
      assert s[1..][|s| - 1 - |r|..] == s[|s| - |r|..];
      forall i | 0 <= i < |s| - |r|
        ensures !IsAlnum(s[i])
      {
        if i > 0 {
          assert s[i] == s[1..][i - 1];
        }
      }
    }
  }

  /** Replace every maximal run of characters outside `[A-Za-z0-9]` by one `_`
      (`re.sub(r"[^A-Za-z0-9]+", "_", text)`). */
  function Collapse(s: string): string
    decreases |s|
  {
    if s == [] then []
    else if IsAlnum(s[0]) then [s[0]] + Collapse(s[1..])
    else "_" + Collapse(SkipSeparators(s[1..]))
  }

  /** The replacement leaves only `[A-Za-z0-9_]` with no `__`; the result is
      empty exactly when the input is, and starts with `_` exactly when the
      input starts outside `[A-Za-z0-9]`. */
  lemma {:induction false} CollapseShape(s: string)
    ensures Collapsed(Collapse(s))
    ensures Collapse(s) == [] <==> s == []
    ensures Collapse(s) != [] ==> (Collapse(s)[0] == '_' <==> !IsAlnum(s[0]))
    decreases |s|
  {
    if s != [] {
      var t := if IsAlnum(s[0]) then s[1..] else SkipSeparators(s[1..]);
      var h := if IsAlnum(s[0]) then [s[0]] else "_";
      SkipSeparatorsShape(s[1..]);
      CollapseShape(t);
      var rest := Collapse(t);
      var r := h + rest;
      assert Collapse(s) == r;
      assert rest != [] && rest[0] == '_' ==> !IsAlnum(t[0]);
      forall i | 0 < i < |r| && r[i] == '_'
        ensures r[i - 1] != '_'
      {
        assert r[i] == rest[i - 1];
        if i > 1 {
          assert r[i - 1] == rest[i - 2];
        }
      }
      forall i | 0 <= i < |r|
        ensures IsSlugChar(r[i])
      {
        if i > 0 {
          assert r[i] == rest[i - 1];
        }
      }
    }
  }

  /** Remove every leading `_`. */
  function TrimStart(s: string): (r: string)
    ensures |r| <= |s| && r == s[|s| - |r|..]
    ensures r == [] || r[0] != '_'
    ensures forall i :: 0 <= i < |s| - |r| ==> s[i] == '_'
  {
    if s != [] && s[0] == '_' then TrimStart(s[1..]) else s
  }

  /** Remove every trailing `_`. */
  function TrimEnd(s: string): (r: string)
    ensures |r| <= |s| && r == s[..|r|]
    ensures r == [] || r[|r| - 1] != '_'
    ensures forall i :: |r| <= i < |s| ==> s[i] == '_'
  {
    if s != [] && s[|s| - 1] == '_' then TrimEnd(s[..|s| - 1]) else s
  }

  /** `text.strip("_")`. */
  function Strip(s: string): string {
    TrimEnd(TrimStart(s))
  }

  /** `slugify` on NFKD-normalised text. */
  function Slugify(s: string): string {
    Strip(Collapse(AsciiOnly(s)))
  }

  // ---------------------------------------------------------------------------
  // Properties of the pieces

  lemma {:induction false} AlnumsConcat(a: string, b: string)
    ensures Alnums(a + b) == Alnums(a) + Alnums(b)
  {
    if a == [] {
      assert a + b == b;
    } else {
      assert (a + b)[1..] == a[1..] + b;
      AlnumsConcat(a[1..], b);
    }
  }

  /** A string without letters or digits contributes nothing to `Alnums`. */
  lemma {:induction false} AlnumsNone(s: string)
    requires forall i :: 0 <= i < |s| ==> !IsAlnum(s[i])
    ensures Alnums(s) == []
  {
    if s != [] {
      AlnumsNone(s[1..]);
    }
  }

  /** Every letter and digit is ASCII, so dropping non-ASCII keeps them all. */
  lemma {:induction false} AlnumsAsciiOnly(s: string)
    ensures Alnums(AsciiOnly(s)) == Alnums(s)
  {
    if s != [] {
      AlnumsAsciiOnly(s[1..]);
      AlnumsConcat(if IsAscii(s[0]) then [s[0]] else [], AsciiOnly(s[1..]));
    }
  }

  lemma {:induction false} AlnumsSkipSeparators(s: string)
    ensures Alnums(SkipSeparators(s)) == Alnums(s)
  {
    if s != [] && !IsAlnum(s[0]) {
      AlnumsSkipSeparators(s[1..]);
      assert Alnums(s) == [] + Alnums(s[1..]);
    }
  }

  lemma {:induction false} AlnumsCollapse(s: string)
    ensures Alnums(Collapse(s)) == Alnums(s)
    decreases |s|
  {
    if s == [] {
    } else if IsAlnum(s[0]) {
      AlnumsCollapse(s[1..]);
      AlnumsConcat([s[0]], Collapse(s[1..]));
    } else {
      AlnumsCollapse(SkipSeparators(s[1..]));
      AlnumsSkipSeparators(s[1..]);
      AlnumsConcat("_", Collapse(SkipSeparators(s[1..])));
    }
  }

  /** Trimming the front only removes `_`, so the letters and digits stay. */
  lemma AlnumsTrimStart(s: string)
    ensures Alnums(TrimStart(s)) == Alnums(s)
  {
    var t := TrimStart(s);
    var k := |s| - |t|;
    assert s == s[..k] + t;
    AlnumsConcat(s[..k], t);
    AlnumsNone(s[..k]);
  }

  /** Trimming the back only removes `_`, so the letters and digits stay. */
  lemma AlnumsTrimEnd(s: string)
    ensures Alnums(TrimEnd(s)) == Alnums(s)
  {
    var r := TrimEnd(s);
    assert s == r + s[|r|..];
    AlnumsConcat(r, s[|r|..]);
    AlnumsNone(s[|r|..]);
  }

  /** Stripping only removes `_`, so the letters and digits stay. */
  lemma AlnumsStrip(s: string)
    ensures Alnums(Strip(s)) == Alnums(s)
  {
    AlnumsTrimStart(s);
    AlnumsTrimEnd(TrimStart(s));
  }

  lemma {:induction false} AsciiOnlyOfAscii(s: string)
    requires forall i :: 0 <= i < |s| ==> IsAscii(s[i])
    ensures AsciiOnly(s) == s
  {
    if s != [] {
      AsciiOnlyOfAscii(s[1..]);
    }
  }

  lemma ConcatAssoc<X>(a: seq<X>, b: seq<X>, c: seq<X>)
    ensures a + b + c == a + (b + c)
  {
  }

  /** Dropping non-ASCII works character by character: it distributes over
      concatenation. */
  lemma {:induction false} AsciiOnlyConcat(a: string, b: string)
    ensures AsciiOnly(a + b) == AsciiOnly(a) + AsciiOnly(b)
  {
    if a == [] {
      assert a + b == b;
    } else {
      assert (a + b)[1..] == a[1..] + b;
      AsciiOnlyConcat(a[1..], b);
    }
  }

  /** A string with no ASCII character vanishes entirely. */
  lemma {:induction false} AsciiOnlyNone(s: string)
    requires forall i :: 0 <= i < |s| ==> !IsAscii(s[i])
    ensures AsciiOnly(s) == []
  {
    if s != [] {
      AsciiOnlyNone(s[1..]);
    }
  }

  /** A run of separators followed by a letter or digit (or nothing) is
      skipped exactly. */
  lemma {:induction false} SkipSeparatorsRun(u: string, y: string)
    requires forall i :: 0 <= i < |u| ==> !IsAlnum(u[i])
    requires y == [] || IsAlnum(y[0])
    ensures SkipSeparators(u + y) == y
  {
    if u == [] {
      assert u + y == y;
    } else {
      assert (u + y)[1..] == u[1..] + y;
      SkipSeparatorsRun(u[1..], y);
    }
  }

  /** Skipping stops inside `x` when `x` ends with a letter or digit. */
  lemma {:induction false} SkipSeparatorsAppend(x: string, z: string)
    requires x != [] && IsAlnum(x[|x| - 1])
    ensures SkipSeparators(x + z) == SkipSeparators(x) + z
  {
    if !IsAlnum(x[0]) {
      assert (x + z)[1..] == x[1..] + z;
      SkipSeparatorsAppend(x[1..], z);
    }
  }

  /** After a letter or digit the replacement restarts: the string can be
      cut there and collapsed piece by piece. */
  lemma {:induction false} CollapseAppend(x: string, z: string)
    requires x == [] || IsAlnum(x[|x| - 1])
    ensures Collapse(x + z) == Collapse(x) + Collapse(z)
    decreases |x|
  {
    if x == [] {
      assert x + z == z;
    } else {
      var h := if IsAlnum(x[0]) then [x[0]] else "_";
      var t := if IsAlnum(x[0]) then x[1..] else SkipSeparators(x[1..]);
      assert Collapse(x + z) == h + Collapse(t + z) by {
        var xz := x + z;
        assert xz[0] == x[0] && xz[1..] == x[1..] + z;
        if !IsAlnum(x[0]) {
          SkipSeparatorsAppend(x[1..], z);
        }
      }
      assert t == [] || IsAlnum(t[|t| - 1]) by {
        if !IsAlnum(x[0]) {
          SkipSeparatorsShape(x[1..]);
          assert t[|t| - 1] == x[|x| - 1];
        }
      }
      CollapseAppend(t, z);
      assert Collapse(x) == h + Collapse(t);
      ConcatAssoc(h, Collapse(t), Collapse(z));
    }
  }

  /** A maximal run of separators becomes exactly one `_`. */
  lemma CollapseRun(w: string, y: string)
    requires w != [] && forall i :: 0 <= i < |w| ==> !IsAlnum(w[i])
    requires y == [] || IsAlnum(y[0])
    ensures Collapse(w + y) == "_" + Collapse(y)
  {
    assert (w + y)[1..] == w[1..] + y;
    SkipSeparatorsRun(w[1..], y);
  }

  /** The word boundary: between a letter or digit and the next letter or
      digit, a whole run of other characters turns into one `_`, and the two
      sides are collapsed independently. */
  lemma CollapseBoundary(x: string, w: string, y: string)
    requires x == [] || IsAlnum(x[|x| - 1])
    requires w != [] && forall i :: 0 <= i < |w| ==> !IsAlnum(w[i])
    requires y == [] || IsAlnum(y[0])
    ensures Collapse(x + (w + y)) == Collapse(x) + ("_" + Collapse(y))
  {
    CollapseAppend(x, w + y);
    CollapseRun(w, y);
  }

  /** A slice of a collapsed string is collapsed. */
  lemma CollapsedSlice(c: string, a: nat, b: nat)
    requires Collapsed(c) && a <= b <= |c|
    ensures Collapsed(c[a..b])
  {
    var r := c[a..b];
    forall i | 0 <= i < |r|
      ensures IsSlugChar(r[i])
    {
      assert r[i] == c[a + i];
    }
    forall i | 0 < i < |r| && r[i] == '_'
      ensures r[i - 1] != '_'
    {
      assert r[i] == c[a + i] && r[i - 1] == c[a + i - 1];
    }
  }

  lemma {:induction false} CollapseOfCollapsed(s: string)
    requires Collapsed(s)
    ensures Collapse(s) == s
  {
    if s != [] {
      CollapsedSlice(s, 1, |s|);
      CollapseOfCollapsed(s[1..]);
      if !IsAlnum(s[0]) {
        assert s[1..] == [] || IsAlnum(s[1]);
        assert SkipSeparators(s[1..]) == s[1..];
        assert Collapse(s) == "_" + s[1..];
      } else {
        assert Collapse(s) == [s[0]] + s[1..];
      }
    }
  }

  /** Stripping a collapsed string leaves a slug. */
  lemma StripIsSlug(c: string)
    requires Collapsed(c)
    ensures IsSlug(Strip(c))
  {
    var t := TrimStart(c);
    var r := TrimEnd(t);
    assert t == c[|c| - |t|..|c|];
    CollapsedSlice(c, |c| - |t|, |c|);
    assert r == t[0..|r|];
    CollapsedSlice(t, 0, |r|);
    if |r| > 0 {
      assert r[0] == t[0];
    }
  }

  // ---------------------------------------------------------------------------
  // Properties of slugify

  /** The output uses only `[A-Za-z0-9_]`, has no `__` and no `_` at either end. */
  lemma SlugifyIsSlug(s: string)
    ensures IsSlug(Slugify(s))
  {
    CollapseShape(AsciiOnly(s));
    StripIsSlug(Collapse(AsciiOnly(s)));
  }

  /** The letters and digits of the output are exactly those of the input,
      in the same order. */
  lemma SlugifyKeepsAlnums(s: string)
    ensures Alnums(Slugify(s)) == Alnums(s)
  {
    AlnumsStrip(Collapse(AsciiOnly(s)));
    AlnumsCollapse(AsciiOnly(s));
    AlnumsAsciiOnly(s);
  }

  /** A slug is left as it is. */
  lemma SlugifyOfSlug(s: string)
    requires IsSlug(s)
    ensures Slugify(s) == s
  {
    AsciiOnlyOfAscii(s);
    CollapseOfCollapsed(s);
    assert TrimStart(s) == s;
    assert TrimEnd(s) == s;
  }

  /** The strings `slugify` leaves unchanged are exactly the slugs. */
  lemma SlugifyFixedPoints(s: string)
    ensures Slugify(s) == s <==> IsSlug(s)
  {
    SlugifyIsSlug(s);
    if IsSlug(s) {
      SlugifyOfSlug(s);
    }
  }

  /** Two slugs separated by a run of ASCII spaces or punctuation come out
      joined by a single `_`. */
  lemma SlugifyJoin(x: string, w: string, y: string)
    requires IsSlug(x) && IsSlug(y) && x != [] && y != []
    requires w != [] && forall i :: 0 <= i < |w| ==> IsAscii(w[i]) && !IsAlnum(w[i])
    ensures Slugify(x + w + y) == x + "_" + y
  {
    ConcatAssoc(x, w, y);
    ConcatAssoc(x, "_", y);
    var s := x + (w + y);
    assert AsciiOnly(s) == s by {
      AsciiOnlyOfAscii(x);
      AsciiOnlyOfAscii(w);
      AsciiOnlyOfAscii(y);
      AsciiOnlyConcat(x, w + y);
      AsciiOnlyConcat(w, y);
    }
    var c := x + ("_" + y);
    assert Collapse(s) == c by {
      assert IsSlugChar(x[|x| - 1]) && IsSlugChar(y[0]);
      CollapseBoundary(x, w, y);
      CollapseOfCollapsed(x);
      CollapseOfCollapsed(y);
    }
    assert c[0] == x[0] && c[|c| - 1] == y[|y| - 1];
    assert TrimStart(c) == c;
    assert TrimEnd(c) == c;
  }

  /** Characters outside ASCII vanish without leaving a separator: the words
      on either side are glued together. */
  lemma SlugifyGlue(x: string, u: string, y: string)
    requires forall i :: 0 <= i < |u| ==> !IsAscii(u[i])
    ensures Slugify(x + u + y) == Slugify(x + y)
  {
    AsciiOnlyConcat(x + u, y);
    AsciiOnlyConcat(x, u);
    AsciiOnlyConcat(x, y);
    AsciiOnlyNone(u);
    assert AsciiOnly(x) + [] == AsciiOnly(x);
  }

  /** Slugifying a slug returns the same slug. */
  lemma SlugifyIdempotent(s: string)
    ensures Slugify(Slugify(s)) == Slugify(s)
  {
    SlugifyIsSlug(s);
    SlugifyOfSlug(Slugify(s));
  }
}
