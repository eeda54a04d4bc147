/** The file-name sanitiser `sanitize_filename` (abcd.py:78-81), used to name the
    downloaded PDF after the site address. */
module Filename {
  import opened Text

  /** The characters the sanitiser's regular expression `[\\/:*?"<>|]` matches. */
  const Illegal: set<char> := {'\\', '/', ':', '*', '?', '"', '<', '>', '|'}

  /** What an illegal character is replaced with. */
  const Replacement: char := '_'

  /** The name used when nothing is left after cleaning. */
  const Fallback: string := "output"

  /** `s` holds no illegal character. */
  predicate Legal(s: string)
  {
    forall i :: 0 <= i < |s| ==> s[i] !in Illegal
  }

  /** `re.sub(r"[\\/:*?\"<>|]", "_", s)`: every illegal character becomes `_`,
      every other character stays where it was. */
  function ReplaceIllegal(s: string): (r: string)
    ensures |r| == |s| && Legal(r)
    ensures forall i :: 0 <= i < |s| && s[i] in Illegal ==> r[i] == Replacement
    ensures forall i :: 0 <= i < |s| && s[i] !in Illegal ==> r[i] == s[i]
  {
    if s == [] then []
    else [if s[0] in Illegal then Replacement else s[0]] + ReplaceIllegal(s[1..])
  }

  /** `r` occurs as a contiguous piece of `s`. */
  predicate Infix(r: string, s: string)
  {
    exists a :: 0 <= a <= |s| && r <= s[a..]
  }

  /** `r` is what line 80 leaves of `normalized`: the illegal characters replaced, then
      whitespace stripped from both ends, then dots stripped from both ends. */
  ghost predicate CleansTo(normalized: string, r: string)
  {
    exists a, t, b :: StripsTo(ReplaceIllegal(normalized), Whitespace, a, t) && StripsTo(t, {'.'}, b, r)
  }

  /** The cleaned name before the fallback: illegal characters replaced, then
      surrounding whitespace removed, then surrounding dots removed. */
  function Cleaned(normalized: string): (r: string)
    ensures CleansTo(normalized, r)
  {
    var s := ReplaceIllegal(normalized);
    var t := Trim(s);
    var r := Strip(t, {'.'});
    var a :| StripsTo(s, Whitespace, a, t);
    var b :| StripsTo(t, {'.'}, b, r);
    r
  }

  /** Any piece of a legal string is legal. */
  lemma PieceIsLegal(s: string, a: int, r: string)
    requires Legal(s) && 0 <= a && a + |r| <= |s| && r == s[a..a + |r|]
    ensures Legal(r)
  {
    forall i | 0 <= i < |r| ensures r[i] !in Illegal {
      assert r[i] == s[a + i];
    }
  }

  /** Stripping a legal string with one set and then another leaves a legal piece of it. */
  lemma StripTwiceIsPiece(s: string, cs: set<char>, a: int, t: string, ds: set<char>, b: int, u: string)
    requires Legal(s) && StripsTo(s, cs, a, t) && StripsTo(t, ds, b, u)
    ensures Infix(u, s) && Legal(u)
  {
    StripNested(s, cs, a, t, ds, b, u);
    assert u <= s[a + b..];
    PieceIsLegal(s, a + b, u);
  }

  /** What the cleaning steps guarantee: a non-empty cleaned name is a legal piece of
      the replaced name that neither starts nor ends with a dot; it is empty exactly when
      the trimmed name is nothing but dots. */
  lemma CleanedIsPiece(normalized: string)
    ensures var c := Cleaned(normalized);
      c != [] ==> Legal(c) && c[0] != '.' && c[|c| - 1] != '.' && Infix(c, ReplaceIllegal(normalized))
    ensures Cleaned(normalized) == [] <==> AllIn(Trim(ReplaceIllegal(normalized)), {'.'})
  {
    var s := ReplaceIllegal(normalized);
    var t := Trim(s);
    var u := Strip(t, {'.'});
    var a :| StripsTo(s, Whitespace, a, t);
    var b :| StripsTo(t, {'.'}, b, u);
    StripsToEmpty(t, {'.'}, b, u);
    StripTwiceIsPiece(s, Whitespace, a, t, {'.'}, b, u);
  }

  /** `CleansTo` pins the cleaned name down: whatever meets it is `Cleaned`. */
  lemma CleansToUnique(normalized: string, r: string)
    requires CleansTo(normalized, r)
    ensures r == Cleaned(normalized)
  {
    var s := ReplaceIllegal(normalized);
    var a, t, b :| StripsTo(s, Whitespace, a, t) && StripsTo(t, {'.'}, b, r);
    StripUnique(s, Whitespace, a, t);
    StripUnique(t, {'.'}, b, r);
  }

  /** The fallback name is itself a clean name. */
  lemma FallbackIsClean()
    ensures Legal(Fallback)
    ensures Fallback[0] != '.' && Fallback[|Fallback| - 1] != '.'
  {
    forall i | 0 <= i < |Fallback| ensures Fallback[i] !in Illegal {
      assert Fallback[i] in {'o', 'u', 't', 'p'};
    }
  }

  /** Lines 80-81 of `sanitize_filename`, applied to the already normalised name: the
      result is never empty, holds no illegal character, does not start or end with a
      dot, and is either the fallback name or a piece of the name with illegal characters
      replaced. The fallback is taken exactly when the trimmed name is nothing but dots;
      otherwise the result is the name cleaned as line 80 does. */
  function SanitizeNormalized(normalized: string): (r: string)
    ensures r != [] && Legal(r)
    ensures r[0] != '.' && r[|r| - 1] != '.'
    ensures r == Fallback || Infix(r, ReplaceIllegal(normalized))
    ensures AllIn(Trim(ReplaceIllegal(normalized)), {'.'}) ==> r == Fallback
    ensures !AllIn(Trim(ReplaceIllegal(normalized)), {'.'}) ==> CleansTo(normalized, r)
  {
    var c := Cleaned(normalized);
    CleanedIsPiece(normalized);
    FallbackIsClean();
    if c == [] then Fallback else c
  }

  /** `sanitize_filename(name)`: the Unicode NFKD normalisation of line 79 is the
      opaque parameter `nfkd`, whose table is not part of this model. */
  function Sanitize(name: string, nfkd: string -> string): (r: string)
    ensures r != [] && Legal(r)
    ensures r[0] != '.' && r[|r| - 1] != '.'
    ensures AllIn(Trim(ReplaceIllegal(nfkd(name))), {'.'}) ==> r == Fallback
    ensures !AllIn(Trim(ReplaceIllegal(nfkd(name))), {'.'}) ==> CleansTo(nfkd(name), r)
  {
    SanitizeNormalized(nfkd(name))
  }

  /** A name that is already clean (non-empty, no illegal character, no surrounding
      whitespace or dots) and unchanged by normalisation comes back as it is. */
  lemma SanitizeKeepsCleanName(name: string, nfkd: string -> string)
    requires nfkd(name) == name
    requires name != [] && Legal(name)
    requires name[0] !in Whitespace && name[|name| - 1] !in Whitespace
    requires name[0] != '.' && name[|name| - 1] != '.'
    ensures Sanitize(name, nfkd) == name
  {
    var replaced := ReplaceIllegal(name);
    assert replaced == name;
    StripKeeps(name, Whitespace);
    StripKeeps(name, {'.'});
  }

  /** A name that normalises to whitespace only falls back to `output`. */
  lemma SanitizeBlankFallsBack(name: string, nfkd: string -> string)
    requires IsBlank(nfkd(name))
    ensures Sanitize(name, nfkd) == Fallback
  {
    var n := nfkd(name);
    var replaced := ReplaceIllegal(n);
    assert IsBlank(replaced) by {
      forall i | 0 <= i < |replaced| ensures replaced[i] in Whitespace {
        assert n[i] in Whitespace && n[i] !in Illegal;
      }
    }
    TrimEmptyIffBlank(replaced);
  }
}
