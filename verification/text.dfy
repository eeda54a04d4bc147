/** Python's `str.strip`: removing the characters of a set from both ends of a string.
    The file-name sanitiser, the address cell and label resolution all rely on it. */
module Text {

  /** The characters Python's `str.isspace()` accepts; `str.strip()` with no argument
      removes exactly these. */
  const Whitespace: set<char> := {
    '\t', '\n', '\U{0B}', '\U{0C}', '\r', '\U{1C}', '\U{1D}', '\U{1E}', '\U{1F}', ' ',
    '\U{85}', '\U{A0}', '\U{1680}',
    '\U{2000}', '\U{2001}', '\U{2002}', '\U{2003}', '\U{2004}', '\U{2005}',
    '\U{2006}', '\U{2007}', '\U{2008}', '\U{2009}', '\U{200A}',
    '\U{2028}', '\U{2029}', '\U{202F}', '\U{205F}', '\U{3000}'
  }

  /** Every character of `s` belongs to `cs`. */
  predicate AllIn(s: string, cs: set<char>)
  {
    forall i :: 0 <= i < |s| ==> s[i] in cs
  }

  /** `s` is empty or made of whitespace only. */
  predicate IsBlank(s: string)
  {
    AllIn(s, Whitespace)
  }

  /** `r` is what is left of `s` at offset `a` once the characters of `cs` are removed
      from both ends: everything cut off is in `cs`, and `r` neither starts nor ends
      with a character of `cs`. */
  predicate StripsTo(s: string, cs: set<char>, a: int, r: string)
  {
    && 0 <= a && a + |r| <= |s|
    && r == s[a..a + |r|]
    && AllIn(s[..a], cs)
    && AllIn(s[a + |r|..], cs)
    && (r != [] ==> r[0] !in cs && r[|r| - 1] !in cs)
  }

  /** Scanning from index `i`, the first index at or after it whose character is not
      in `cs`, or `|s|` when there is none: where `s.lstrip(cs)` starts. */
  function LeftCut(s: string, cs: set<char>, i: nat): (n: nat)
    requires i <= |s|
    requires forall k :: 0 <= k < i ==> s[k] in cs
    ensures i <= n <= |s|
    ensures forall k :: 0 <= k < n ==> s[k] in cs
    ensures n < |s| ==> s[n] !in cs
    decreases |s| - i
  {
    if i < |s| && s[i] in cs then LeftCut(s, cs, i + 1) else i
  }

  /** Scanning down from index `j`, but not below `lo`, the end of the last character
      not in `cs`: where `s.rstrip(cs)` ends once `lo` is kept. */
  function RightCut(s: string, cs: set<char>, lo: nat, j: nat): (n: nat)
    requires lo <= j <= |s|
    requires forall k :: j <= k < |s| ==> s[k] in cs
    ensures lo <= n <= j
    ensures forall k :: n <= k < |s| ==> s[k] in cs
    ensures n > lo ==> s[n - 1] !in cs
    decreases j
  {
    if j > lo && s[j - 1] in cs then RightCut(s, cs, lo, j - 1) else j
  }

  /** `s.strip(cs)` */
  function Strip(s: string, cs: set<char>): (r: string)
    ensures exists a :: StripsTo(s, cs, a, r)
  {
    var a := LeftCut(s, cs, 0);
    var b := RightCut(s, cs, a, |s|);
    assert a < |s| ==> a < b;
    assert StripsTo(s, cs, a, s[a..b]);
    s[a..b]
  }

  /** Python's `s.strip()`. */
  function Trim(s: string): (r: string)
    ensures exists a :: StripsTo(s, Whitespace, a, r)
  {
    Strip(s, Whitespace)
  }

  /** Whatever stretch of `s` lies in `cs` from the left cannot reach past the kept part. */
  lemma PrefixBeforeKept(s: string, cs: set<char>, a: int, r: string, b: int)
    requires StripsTo(s, cs, a, r) && r != []
    requires 0 <= b <= |s| && AllIn(s[..b], cs)
    ensures b <= a
  {
  }

  /** Whatever stretch of `s` lies in `cs` from the right cannot reach into the kept part. */
  lemma SuffixAfterKept(s: string, cs: set<char>, a: int, r: string, e: int)
    requires StripsTo(s, cs, a, r) && r != []
    requires 0 <= e <= |s| && AllIn(s[e..], cs)
    ensures a + |r| <= e
  {
  }

  /** Stripping leaves nothing exactly when every character is in `cs`. */
  lemma StripsToEmpty(s: string, cs: set<char>, a: int, r: string)
    requires StripsTo(s, cs, a, r)
    ensures r == [] <==> AllIn(s, cs)
  {
    if r == [] {
      forall i | 0 <= i < |s| ensures s[i] in cs {
        if i < a { assert s[..a][i] == s[i]; } else { assert s[a..][i - a] == s[i]; }
      }
    } else {
      assert s[a] == r[0];
    }
  }

  /** The characterisation `StripsTo` pins the stripped string down: whatever string and
      offset satisfy it, the string is `Strip(s, cs)`. */
  lemma {:induction false} StripUnique(s: string, cs: set<char>, a: int, r: string)
    requires StripsTo(s, cs, a, r)
    ensures r == Strip(s, cs)
  {
    var t := Strip(s, cs);
    var b :| StripsTo(s, cs, b, t);
    StripsToEmpty(s, cs, a, r);
    StripsToEmpty(s, cs, b, t);
    if r != [] && t != [] {
      PrefixBeforeKept(s, cs, a, r, b);
      PrefixBeforeKept(s, cs, b, t, a);
      SuffixAfterKept(s, cs, a, r, b + |t|);
      SuffixAfterKept(s, cs, b, t, a + |r|);
    }
  }

  /** Stripping a stripped string again, with another set, still leaves a piece of the
      original string. */
  lemma StripNested(s: string, cs: set<char>, a: int, t: string, ds: set<char>, b: int, u: string)
    requires StripsTo(s, cs, a, t) && StripsTo(t, ds, b, u)
    ensures 0 <= a + b && a + b + |u| <= |s|
    ensures u == s[a + b..a + b + |u|]
  {
    forall i | 0 <= i < |u| ensures u[i] == s[a + b + i] {
      assert u[i] == t[b + i] == s[a..a + |t|][b + i];
    }
  }

  /** Stripping twice removes nothing more. */
  lemma StripIdempotent(s: string, cs: set<char>)
    ensures Strip(Strip(s, cs), cs) == Strip(s, cs)
  {
    var r := Strip(s, cs);
    var a :| StripsTo(s, cs, a, r);
    assert r[0..|r|] == r;
    StripUnique(r, cs, 0, r);
  }

  /** A string whose two ends lie outside `cs` is its own strip. */
  lemma StripKeeps(s: string, cs: set<char>)
    requires s != [] ==> s[0] !in cs && s[|s| - 1] !in cs
    ensures Strip(s, cs) == s
  {
    assert s[0..|s|] == s;
    StripUnique(s, cs, 0, s);
  }

  /** `s.strip()` is empty exactly when `s` is blank. */
  lemma TrimEmptyIffBlank(s: string)
    ensures Trim(s) == [] <==> IsBlank(s)
  {
    var r := Trim(s);
    var a :| StripsTo(s, Whitespace, a, r);
    if IsBlank(s) {
      assert AllIn(s[..0], Whitespace) && AllIn(s[0..], Whitespace);
      StripUnique(s, Whitespace, 0, []);
    }
    if r == [] {
      forall i | 0 <= i < |s| ensures s[i] in Whitespace {
        if i < a { assert s[..a][i] == s[i]; } else { assert s[a..][i - a] == s[i]; }
      }
    }
  }
}
