/** ActiveSupport's `String#parameterize` with the default "-" separator, on ASCII
    input (transliteration of non-ASCII characters is not modelled). It runs four
    steps: replace every run of characters outside [A-Za-z0-9_-] by one "-",
    squeeze repeated "-" into one, drop one leading and one trailing "-", and
    lower-case the result. */
module Inflector {
  import Text

  const Separator: char := '-'

  /** Characters the first substitution leaves alone. */
  predicate IsKept(c: char) {
    ('a' <= c <= 'z') || ('A' <= c <= 'Z') || ('0' <= c <= '9') || c == '-' || c == '_'
  }

  /** Characters a parameterized string may contain. */
  predicate IsSlugChar(c: char) {
    ('a' <= c <= 'z') || ('0' <= c <= '9') || c == '-' || c == '_'
  }

  predicate AllKept(s: string) {
    forall i :: 0 <= i < |s| ==> IsKept(s[i])
  }

  predicate NoDoubleSeparator(s: string) {
    forall i :: 0 <= i < |s| - 1 ==> !(s[i] == Separator && s[i + 1] == Separator)
  }

  /** What `parameterize` produces: slug characters only, no "--", and no "-" at
      either end. */
  predicate IsSlug(s: string) {
    && (forall i :: 0 <= i < |s| ==> IsSlugChar(s[i]))
    && NoDoubleSeparator(s)
    && (|s| > 0 ==> s[0] != Separator && s[|s| - 1] != Separator)
  }

  /** Step 1, `gsub(/[^a-z0-9\-_]+/i, "-")`; `inRun` says the previous input
      character was already replaced. */
  function ReplaceRuns(s: string, inRun: bool): (r: string)
    ensures AllKept(r)
  {
    if s == [] then []
    else if IsKept(s[0]) then [s[0]] + ReplaceRuns(s[1..], false)
    else if inRun then ReplaceRuns(s[1..], true)
    else [Separator] + ReplaceRuns(s[1..], true)
  }

  /** Step 2, `gsub(/-{2,}/, "-")`; `afterSep` says the last character output was "-". */
  function Squeeze(s: string, afterSep: bool): (r: string)
    requires AllKept(s)
    ensures AllKept(r)
    ensures NoDoubleSeparator(r)
    ensures afterSep && |r| > 0 ==> r[0] != Separator
  {
    if s == [] then []
    else if s[0] == Separator then
      if afterSep then Squeeze(s[1..], true) else [Separator] + Squeeze(s[1..], true)
    else [s[0]] + Squeeze(s[1..], false)
  }

  /** Step 3, `gsub(/^-|-$/, "")`. */
  function TrimSeparators(s: string): (r: string)
    requires AllKept(s) && NoDoubleSeparator(s)
    ensures AllKept(r) && NoDoubleSeparator(r)
    ensures |r| > 0 ==> r[0] != Separator && r[|r| - 1] != Separator
  {
    var t := if |s| > 0 && s[0] == Separator then s[1..] else s;
    if |t| > 0 && t[|t| - 1] == Separator then t[..|t| - 1] else t
  }

  /** `parameterize`: the four steps in order. */
  function Parameterize(s: string): (r: string)
    ensures IsSlug(r)
  {
    Text.Downcase(TrimSeparators(Squeeze(ReplaceRuns(s, false), false)))
  }

  lemma {:induction false} ReplaceRunsKeepsKept(s: string, inRun: bool)
    requires AllKept(s)
    ensures ReplaceRuns(s, inRun) == s
  {
    if s != [] {
      ReplaceRunsKeepsKept(s[1..], false);
    }
  }

  lemma {:induction false} SqueezeKeepsSingles(s: string, afterSep: bool)
    requires AllKept(s) && NoDoubleSeparator(s)
    requires afterSep && |s| > 0 ==> s[0] != Separator
    ensures Squeeze(s, afterSep) == s
  {
    if s != [] {
      SqueezeKeepsSingles(s[1..], s[0] == Separator);
    }
  }

  /** A slug is left as it is by `parameterize`. */
  lemma SlugIsFixedPoint(s: string)
    requires IsSlug(s)
    ensures Parameterize(s) == s
  {
    ReplaceRunsKeepsKept(s, false);
    SqueezeKeepsSingles(s, false);
  }

  /** `parameterize` is idempotent. */
  lemma ParameterizeIdempotent(s: string)
    ensures Parameterize(Parameterize(s)) == Parameterize(s)
  {
    SlugIsFixedPoint(Parameterize(s));
  }

  /** A run of kept characters passes through the first substitution unchanged. */
  lemma {:induction false} ReplaceRunsKeptPrefix(a: string, b: string, inRun: bool)
    requires a != [] && AllKept(a)
    ensures ReplaceRuns(a + b, inRun) == a + ReplaceRuns(b, false)
  {
    assert (a + b)[1..] == a[1..] + b;
    if |a| > 1 {
      ReplaceRunsKeptPrefix(a[1..], b, false);
    } else {
      assert a[1..] + b == b;
    }
  }

  /** A run of other characters before a kept one becomes a single separator. */
  lemma {:induction false} ReplaceRunsGap(g: string, b: string, inRun: bool)
    requires forall i :: 0 <= i < |g| ==> !IsKept(g[i])
    requires b != [] && IsKept(b[0])
    ensures ReplaceRuns(g + b, inRun) == (if g != [] && !inRun then [Separator] else []) + ReplaceRuns(b, false)
  {
    if g == [] {
      assert g + b == b;
    } else {
      assert (g + b)[1..] == g[1..] + b;
      ReplaceRunsGap(g[1..], b, true);
    }
  }

  // ---------------------------------------------------------------------------
  // What parameterize keeps of its input

  /** Letters, digits and "_": the characters no step removes. */
  predicate IsWordChar(c: char) {
    ('a' <= c <= 'z') || ('A' <= c <= 'Z') || ('0' <= c <= '9') || c == '_'
  }

  /** The word characters of `s`, in order. */
  function WordChars(s: string): (w: string)
    ensures |w| <= |s|
  {
    if s == [] then [] else (if IsWordChar(s[0]) then [s[0]] else []) + WordChars(s[1..])
  }

  lemma WordCharsCons(c: char, s: string)
    ensures WordChars([c] + s) == (if IsWordChar(c) then [c] else []) + WordChars(s)
  {
    assert ([c] + s)[1..] == s;
  }

  lemma {:induction false} WordCharsAppend(a: string, b: string)
    ensures WordChars(a + b) == WordChars(a) + WordChars(b)
  {
    if a != [] {
      assert (a + b)[1..] == a[1..] + b;
      WordCharsAppend(a[1..], b);
    } else {
      assert a + b == b;
    }
  }

  lemma {:induction false} ReplaceRunsWordChars(s: string, inRun: bool)
    ensures WordChars(ReplaceRuns(s, inRun)) == WordChars(s)
  {
    if s != [] {
      ReplaceRunsWordChars(s[1..], !IsKept(s[0]));
      if IsKept(s[0]) {
        WordCharsCons(s[0], ReplaceRuns(s[1..], false));
      } else if !inRun {
        WordCharsCons(Separator, ReplaceRuns(s[1..], true));
      }
    }
  }

  lemma {:induction false} SqueezeWordChars(s: string, afterSep: bool)
    requires AllKept(s)
    ensures WordChars(Squeeze(s, afterSep)) == WordChars(s)
  {
    if s != [] {
      SqueezeWordChars(s[1..], s[0] == Separator);
      if s[0] != Separator {
        WordCharsCons(s[0], Squeeze(s[1..], false));
      } else if !afterSep {
        WordCharsCons(Separator, Squeeze(s[1..], true));
      }
    }
  }

  lemma TrimSeparatorsWordChars(s: string)
    requires AllKept(s) && NoDoubleSeparator(s)
    ensures WordChars(TrimSeparators(s)) == WordChars(s)
  {
    var t := if |s| > 0 && s[0] == Separator then s[1..] else s;
    assert WordChars(t) == WordChars(s);
    if |t| > 0 && t[|t| - 1] == Separator {
      assert t == t[..|t| - 1] + [Separator];
      WordCharsAppend(t[..|t| - 1], [Separator]);
    }
  }

  lemma {:induction false} DowncaseWordChars(s: string)
    ensures WordChars(Text.Downcase(s)) == Text.Downcase(WordChars(s))
  {
    if s != [] {
      DowncaseWordChars(s[1..]);
      assert Text.Downcase(s) == [Text.Lower(s[0])] + Text.Downcase(s[1..]);
      WordCharsCons(Text.Lower(s[0]), Text.Downcase(s[1..]));
      var head := if IsWordChar(s[0]) then [s[0]] else [];
      Text.DowncaseAppend(head, WordChars(s[1..]));
    }
  }

  /** `parameterize` keeps every letter, digit and "_" of its input, in order,
      lower-cased, and adds none: all it changes is the "-" between them. */
  lemma ParameterizeKeepsWords(s: string)
    ensures WordChars(Parameterize(s)) == Text.Downcase(WordChars(s))
  {
    var r1 := ReplaceRuns(s, false);
    ReplaceRunsWordChars(s, false);
    var r2 := Squeeze(r1, false);
    SqueezeWordChars(r1, false);
    TrimSeparatorsWordChars(r2);
    DowncaseWordChars(TrimSeparators(r2));
  }

  predicate AllWordChars(s: string) {
    forall i :: 0 <= i < |s| ==> IsWordChar(s[i])
  }

  lemma ReplaceRunsJoin(a: string, g: string, b: string)
    requires a != [] && b != [] && g != [] && AllWordChars(a) && AllWordChars(b)
    requires forall i :: 0 <= i < |g| ==> !IsKept(g[i])
    ensures ReplaceRuns(a + g + b, false) == a + [Separator] + b
  {
    var gb := g + b;
    assert a + g + b == a + gb;
    assert IsKept(b[0]);
    assert AllKept(b) by {
      forall i | 0 <= i < |b| ensures IsKept(b[i]) { assert IsWordChar(b[i]); }
    }
    assert AllKept(a) by {
      forall i | 0 <= i < |a| ensures IsKept(a[i]) { assert IsWordChar(a[i]); }
    }
    ReplaceRunsGap(g, b, false);
    ReplaceRunsKeepsKept(b, false);
    assert ReplaceRuns(gb, false) == [Separator] + b;
    ReplaceRunsKeptPrefix(a, gb, false);
    assert a + ([Separator] + b) == a + [Separator] + b;
  }

  /** Two words joined by one "-" already have the shape later steps keep. */
  lemma JoinedIsTidy(a: string, b: string)
    requires a != [] && b != [] && AllWordChars(a) && AllWordChars(b)
    ensures var r := a + [Separator] + b;
      && AllKept(r) && NoDoubleSeparator(r)
      && r[0] != Separator && r[|r| - 1] != Separator
  {
    var r := a + [Separator] + b;
    forall i | 0 <= i < |r| ensures IsKept(r[i]) && (i != |a| ==> r[i] != Separator) {
      if i < |a| { assert r[i] == a[i]; } else if i > |a| { assert r[i] == b[i - |a| - 1]; }
    }
  }

  /** Two words that the input separates by any run of other characters (white
      space, punctuation) come out lower-cased and joined by exactly one "-". */
  lemma ParameterizeJoinsWords(a: string, g: string, b: string)
    requires a != [] && b != [] && g != []
    requires AllWordChars(a) && AllWordChars(b)
    requires forall i :: 0 <= i < |g| ==> !IsKept(g[i])
    ensures Parameterize(a + g + b) == Text.Downcase(a) + [Separator] + Text.Downcase(b)
  {
    var r := a + [Separator] + b;
    ReplaceRunsJoin(a, g, b);
    JoinedIsTidy(a, b);
    SqueezeKeepsSingles(r, false);
    assert TrimSeparators(r) == r;
    assert Parameterize(a + g + b) == Text.Downcase(r);
    Text.DowncaseOne(Separator);
    Text.DowncaseAppend(a, [Separator]);
    Text.DowncaseAppend(a + [Separator], b);
  }
}
