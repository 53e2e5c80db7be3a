/** The Ruby String operations the request path relies on, restricted to ASCII:
    `blank?`, `strip`, `downcase`, `capitalize`, and `Array#join`. */
module Text {

  /** ASCII characters matched by Ruby's [[:space:]]: tab, line feed, vertical tab,
      form feed, carriage return and space. */
  predicate IsSpace(c: char) {
    c == ' ' || 9 <= c as int <= 13
  }

  /** Characters `String#strip` removes: the spaces above and NUL. */
  predicate IsStripped(c: char) {
    c as int == 0 || IsSpace(c)
  }

  /** `String#blank?`: empty or made only of whitespace. */
  predicate IsBlank(s: string) {
    forall i :: 0 <= i < |s| ==> IsSpace(s[i])
  }

  /** `lstrip`: drop leading whitespace and NUL. */
  function TrimStart(s: string): (r: string)
    ensures |r| <= |s| && r == s[|s| - |r|..]
    ensures r == [] || !IsStripped(r[0])
    ensures forall i :: 0 <= i < |s| - |r| ==> IsStripped(s[i])
  {
    if |s| > 0 && IsStripped(s[0]) then TrimStart(s[1..]) else s
  }

  /** `rstrip`: drop trailing whitespace and NUL. */
  function TrimEnd(s: string): (r: string)
    ensures |r| <= |s| && r == s[..|r|]
    ensures r == [] || !IsStripped(r[|r| - 1])
    ensures forall i :: |r| <= i < |s| ==> IsStripped(s[i])
  {
    if |s| > 0 && IsStripped(s[|s| - 1]) then TrimEnd(s[..|s| - 1]) else s
  }

  /** The number of white space and NUL characters `s` starts with. */
  function LeadingStripped(s: string): (n: nat)
    ensures n <= |s|
    ensures forall i :: 0 <= i < n ==> IsStripped(s[i])
    ensures n == |s| || !IsStripped(s[n])
  {
    if |s| > 0 && IsStripped(s[0]) then 1 + LeadingStripped(s[1..]) else 0
  }

  /** `String#strip`: the middle of `s` that is left once the whitespace and
      NUL at both ends are removed. What is left starts right after the leading
      run, only such characters follow it, it neither starts nor ends with
      one, and it is empty only when `s` is made of nothing else. */
  function Strip(s: string): (r: string)
    ensures LeadingStripped(s) + |r| <= |s| && r == s[LeadingStripped(s)..][..|r|]
    ensures forall i :: LeadingStripped(s) + |r| <= i < |s| ==> IsStripped(s[i])
    ensures r == [] || (!IsStripped(r[0]) && !IsStripped(r[|r| - 1]))
    ensures r == [] <==> forall i :: 0 <= i < |s| ==> IsStripped(s[i])
  {
    var t := TrimStart(s);
    TrimStartDropsLeading(s);
    StripSlice(s, LeadingStripped(s), t, TrimEnd(t));
    TrimEnd(t)
  }

  /** `lstrip` drops exactly the leading run. */
  lemma {:induction false} TrimStartDropsLeading(s: string)
    ensures TrimStart(s) == s[LeadingStripped(s)..]
  {
    if |s| > 0 && IsStripped(s[0]) {
      TrimStartDropsLeading(s[1..]);
      assert s[1..][LeadingStripped(s[1..])..] == s[LeadingStripped(s)..];
    }
  }

  /** Removing a stripped prefix of length `a` and then a stripped suffix
      leaves a slice with only stripped characters around it. */
  lemma StripSlice(s: string, a: nat, t: string, r: string)
    requires a <= |s| && t == s[a..]
    requires forall i :: 0 <= i < a ==> IsStripped(s[i])
    requires t == [] || !IsStripped(t[0])
    requires |r| <= |t| && r == t[..|r|]
    requires r == [] || !IsStripped(r[|r| - 1])
    requires forall i :: |r| <= i < |t| ==> IsStripped(t[i])
    ensures a + |r| <= |s| && r == s[a..][..|r|]
    ensures forall i :: a + |r| <= i < |s| ==> IsStripped(s[i])
    ensures r == [] || (!IsStripped(r[0]) && !IsStripped(r[|r| - 1]))
    ensures r == [] <==> forall i :: 0 <= i < |s| ==> IsStripped(s[i])
  {
    forall i | a <= i < |s|
      ensures s[i] == t[i - a]
    {
    }
    if r != [] {
      assert r[0] == t[0];
    }
  }

  predicate IsUpper(c: char) { 'A' <= c <= 'Z' }
  predicate IsLower(c: char) { 'a' <= c <= 'z' }

  function Lower(c: char): (r: char)
    ensures !IsUpper(r)
    ensures IsUpper(c) ==> IsLower(r) && r as int == c as int + 32
    ensures !IsUpper(c) ==> r == c
  {
    if IsUpper(c) then (c as int + 32) as char else c
  }

  function Upper(c: char): (r: char)
    ensures !IsLower(r)
    ensures IsLower(c) ==> IsUpper(r) && r as int == c as int - 32
    ensures !IsLower(c) ==> r == c
  {
    if IsLower(c) then (c as int - 32) as char else c
  }

  /** `String#downcase`. */
  function Downcase(s: string): (r: string)
    ensures |r| == |s|
    ensures forall i :: 0 <= i < |s| ==> r[i] == Lower(s[i])
  {
    if s == [] then [] else [Lower(s[0])] + Downcase(s[1..])
  }

  /** `String#capitalize`: the first character upper-case, the rest lower-case. */
  function Capitalize(s: string): (r: string)
    ensures |r| == |s|
    ensures |s| > 0 ==> r[0] == Upper(s[0])
    ensures forall i :: 0 < i < |s| ==> r[i] == Lower(s[i])
    ensures |s| > 0 ==> !IsLower(r[0])
    ensures forall i :: 0 < i < |s| ==> !IsUpper(r[i])
  {
    if s == [] then [] else [Upper(s[0])] + Downcase(s[1..])
  }

  /** `Array#join(sep)`. */
  function Join(parts: seq<string>, sep: string): string {
    if parts == [] then []
    else if |parts| == 1 then parts[0]
    else parts[0] + sep + Join(parts[1..], sep)
  }

  /** Lowering a character never changes whether `strip` removes it. */
  lemma LowerKeepsStripped(c: char)
    ensures IsStripped(Lower(c)) == IsStripped(c)
  {
  }

  lemma {:induction false} DowncaseIdempotent(s: string)
    ensures Downcase(Downcase(s)) == Downcase(s)
  {
    if s != [] {
      DowncaseIdempotent(s[1..]);
      assert Downcase(s)[1..] == Downcase(s[1..]);
    }
  }

  /** `capitalize` applied twice is `capitalize` applied once. */
  lemma CapitalizeIdempotent(s: string)
    ensures Capitalize(Capitalize(s)) == Capitalize(s)
  {
    if s != [] {
      DowncaseIdempotent(s[1..]);
      assert Capitalize(s)[1..] == Downcase(s[1..]);
    }
  }

  lemma {:induction false} TrimStartSkipsPrefix(w: string, s: string)
    requires forall i :: 0 <= i < |w| ==> IsStripped(w[i])
    ensures TrimStart(w + s) == TrimStart(s)
  {
    if w != [] {
      assert (w + s)[1..] == w[1..] + s;
      TrimStartSkipsPrefix(w[1..], s);
    } else {
      assert w + s == s;
    }
  }

  lemma {:induction false} TrimEndSkipsSuffix(s: string, w: string)
    requires forall i :: 0 <= i < |w| ==> IsStripped(w[i])
    ensures TrimEnd(s + w) == TrimEnd(s)
  {
    if w != [] {
      assert (s + w)[..|s + w| - 1] == s + w[..|w| - 1];
      TrimEndSkipsSuffix(s, w[..|w| - 1]);
    } else {
      assert s + w == s;
    }
  }

  /** Leading trim of `s + w` is the leading trim of `s` followed by `w`, unless
      `s` is nothing but strippable characters. */
  lemma {:induction false} TrimStartAppend(s: string, w: string)
    requires forall i :: 0 <= i < |w| ==> IsStripped(w[i])
    ensures TrimStart(s) != [] ==> TrimStart(s + w) == TrimStart(s) + w
    ensures TrimStart(s) == [] ==> TrimStart(s + w) == []
  {
    if |s| > 0 && IsStripped(s[0]) {
      assert (s + w)[1..] == s[1..] + w;
      TrimStartAppend(s[1..], w);
    } else if s == [] {
      assert s + w == w;
      TrimStartSkipsPrefix(w, []);
      assert w + [] == w;
    }
  }

  /** `strip` ignores any whitespace added around its argument. */
  lemma StripIgnoresOuterSpace(w1: string, s: string, w2: string)
    requires forall i :: 0 <= i < |w1| ==> IsStripped(w1[i])
    requires forall i :: 0 <= i < |w2| ==> IsStripped(w2[i])
    ensures Strip(w1 + s + w2) == Strip(s)
  {
    assert w1 + s + w2 == w1 + (s + w2);
    TrimStartSkipsPrefix(w1, s + w2);
    TrimStartAppend(s, w2);
    if TrimStart(s) != [] {
      TrimEndSkipsSuffix(TrimStart(s), w2);
    }
  }

  lemma {:induction false} DowncaseTrimStart(s: string)
    ensures Downcase(TrimStart(s)) == TrimStart(Downcase(s))
  {
    if |s| > 0 {
      LowerKeepsStripped(s[0]);
      assert Downcase(s)[1..] == Downcase(s[1..]);
      if IsStripped(s[0]) {
        DowncaseTrimStart(s[1..]);
      }
    }
  }

  lemma {:induction false} DowncaseTrimEnd(s: string)
    ensures Downcase(TrimEnd(s)) == TrimEnd(Downcase(s))
    decreases |s|
  {
    if |s| > 0 {
      LowerKeepsStripped(s[|s| - 1]);
      assert Downcase(s)[..|s| - 1] == Downcase(s[..|s| - 1]);
      if IsStripped(s[|s| - 1]) {
        DowncaseTrimEnd(s[..|s| - 1]);
      }
    }
  }

  /** Lower-casing and stripping commute. */
  lemma DowncaseStrip(s: string)
    ensures Downcase(Strip(s)) == Strip(Downcase(s))
  {
    DowncaseTrimEnd(TrimStart(s));
    DowncaseTrimStart(s);
  }

  lemma TrimStartNoop(s: string)
    requires |s| > 0 && !IsStripped(s[0])
    ensures TrimStart(s) == s
  {
  }

  lemma TrimEndNoop(s: string)
    requires |s| > 0 && !IsStripped(s[|s| - 1])
    ensures TrimEnd(s) == s
  {
  }

  lemma DowncaseOne(c: char)
    ensures Downcase([c]) == [Lower(c)]
  {
    assert [c][1..] == [];
  }

  lemma DowncaseAppend(a: string, b: string)
    ensures Downcase(a + b) == Downcase(a) + Downcase(b)
  {
    assert forall i :: 0 <= i < |a + b| ==> Downcase(a + b)[i] == (Downcase(a) + Downcase(b))[i];
  }
}
