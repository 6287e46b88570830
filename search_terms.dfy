/**
 * The search box shared by the dashboard and the employee list: the
 * sanitizer that strips `<`, `>`, `{` and `}` from what the user typed, the
 * JavaScript notion of white space behind `String.prototype.trim`, and the
 * two requests a search can end in.
 */
module SearchTerms {
  import opened Seqs

  /** The characters the sanitizer's pattern `[<>{}]` matches. */
  predicate IsStripped(c: char)
  {
    c == '<' || c == '>' || c == '{' || c == '}'
  }

  /**
   * `term.replace(/[<>{}]/g, '')`: every `<`, `>`, `{` and `}` removed, the
   * rest kept in order and with its multiplicities.
   */
  function SanitizeSearchTerm(term: string): (r: string)
    ensures forall c :: c in r ==> !IsStripped(c)
    ensures forall c :: c in r <==> c in term && !IsStripped(c)
    ensures forall c :: !IsStripped(c) ==> multiset(r)[c] == multiset(term)[c]
    ensures IsSubsequence(r, term) && |r| <= |term|
  {
    Filter(term, (c: char) => !IsStripped(c))
  }

  /** Sanitizing twice is sanitizing once. */
  lemma SanitizeIdempotent(term: string)
    ensures SanitizeSearchTerm(SanitizeSearchTerm(term)) == SanitizeSearchTerm(term)
  {
    FilterAllPass(SanitizeSearchTerm(term), (c: char) => !IsStripped(c));
  }

  /** A term without any of the four characters comes back unchanged. */
  lemma SanitizeIdentity(term: string)
    requires forall c :: c in term ==> !IsStripped(c)
    ensures SanitizeSearchTerm(term) == term
  {
    FilterAllPass(term, (c: char) => !IsStripped(c));
  }

  /**
   * The characters `trim()` removes: the WhiteSpace and LineTerminator code
   * points of ECMAScript (sections 12.2 and 12.3 of ECMA-262), that is tab,
   * vertical tab, form feed, space, no-break space, the byte order mark,
   * the Unicode space separators, line feed, carriage return and the line
   * and paragraph separators.
   */
  predicate IsJsWhiteSpace(c: char)
  {
    || c == '\U{0009}' || c == '\U{000B}' || c == '\U{000C}' || c == '\U{0020}'
    || c == '\U{00A0}' || c == '\U{FEFF}' || c == '\U{1680}'
    || ('\U{2000}' <= c <= '\U{200A}')
    || c == '\U{202F}' || c == '\U{205F}' || c == '\U{3000}'
    || c == '\U{000A}' || c == '\U{000D}' || c == '\U{2028}' || c == '\U{2029}'
  }

  /** Every character of `s` is white space (true of the empty string). */
  predicate AllWhiteSpace(s: string)
  {
    forall i :: 0 <= i < |s| ==> IsJsWhiteSpace(s[i])
  }

  /** `trimStart()`: drops the white space at the front. */
  function TrimStart(s: string): (r: string)
    ensures r == "" || !IsJsWhiteSpace(r[0])
    ensures exists k :: 0 <= k <= |s| && r == s[k..] && AllWhiteSpace(s[..k])
    decreases |s|
  {
    if s != [] && IsJsWhiteSpace(s[0]) then
      var r := TrimStart(s[1..]);
      assert exists k :: 0 <= k <= |s| && r == s[k..] && AllWhiteSpace(s[..k]) by {
        var k :| 0 <= k <= |s[1..]| && r == s[1..][k..] && AllWhiteSpace(s[1..][..k]);
        assert r == s[k + 1..];
        var front := s[..k + 1];
        forall i | 0 <= i < |front| ensures IsJsWhiteSpace(front[i]) {
          if i > 0 { assert front[i] == s[1..][..k][i - 1]; }
        }
      }
      r
    else
      assert s == s[0..] && s[..0] == [];
      s
  }

  /** `trimEnd()`: drops the white space at the back. */
  function TrimEnd(s: string): (r: string)
    ensures r == "" || !IsJsWhiteSpace(r[|r| - 1])
    ensures exists k :: 0 <= k <= |s| && r == s[..k] && AllWhiteSpace(s[k..])
    decreases |s|
  {
    if s != [] && IsJsWhiteSpace(s[|s| - 1]) then
      var r := TrimEnd(s[..|s| - 1]);
      TrailingWhiteSpaceExtends(s, s[..|s| - 1], r);
      r
    else
      assert s == s[..|s|] && s[|s|..] == [];
      s
  }

  /** If `r` is `init`, `s` without its last character, minus trailing white space, it is `s` minus trailing white space. */
  lemma TrailingWhiteSpaceExtends(s: string, init: string, r: string)
    requires s != [] && IsJsWhiteSpace(s[|s| - 1]) && init == s[..|s| - 1]
    requires exists k :: 0 <= k <= |init| && r == init[..k] && AllWhiteSpace(init[k..])
    ensures exists k :: 0 <= k <= |s| && r == s[..k] && AllWhiteSpace(s[k..])
  {
    var k :| 0 <= k <= |init| && r == init[..k] && AllWhiteSpace(init[k..]);
    assert r == s[..k];
    var back := s[k..];
    var rest := init[k..];
    assert back == rest + [s[|s| - 1]];
    forall i | 0 <= i < |back| ensures IsJsWhiteSpace(back[i]) {
      if i < |rest| {
        assert back[i] == rest[i];
      } else {
        assert back[i] == s[|s| - 1];
      }
    }
    assert AllWhiteSpace(back);
  }

  /** A prefix of a suffix is a slice, and what follows it is a suffix. */
  lemma SliceOfSuffix(s: string, i: nat, k: nat)
    requires i + k <= |s|
    ensures s[i..][..k] == s[i..i + k]
    ensures s[i..][k..] == s[i + k..]
  {
  }

  /**
   * `trim()`: the middle of `s` left after cutting white space off both
   * ends; what is left neither starts nor ends with white space.
   */
  function Trim(s: string): (r: string)
    ensures r == "" || (!IsJsWhiteSpace(r[0]) && !IsJsWhiteSpace(r[|r| - 1]))
    ensures exists i, j :: 0 <= i <= j <= |s| && r == s[i..j] && AllWhiteSpace(s[..i]) && AllWhiteSpace(s[j..])
  {
    var t := TrimStart(s);
    var r := TrimEnd(t);
    TrimIsSlice(s, t, r);
    assert r != "" ==> r[0] == t[0];
    r
  }

  /** Cutting white space off the front and then off the back leaves a slice of the term. */
  lemma TrimIsSlice(s: string, t: string, r: string)
    requires exists i :: 0 <= i <= |s| && t == s[i..] && AllWhiteSpace(s[..i])
    requires exists k :: 0 <= k <= |t| && r == t[..k] && AllWhiteSpace(t[k..])
    ensures exists i, j :: 0 <= i <= j <= |s| && r == s[i..j] && AllWhiteSpace(s[..i]) && AllWhiteSpace(s[j..])
  {
    var i :| 0 <= i <= |s| && t == s[i..] && AllWhiteSpace(s[..i]);
    var k :| 0 <= k <= |t| && r == t[..k] && AllWhiteSpace(t[k..]);
    SliceOfSuffix(s, i, k);
    assert AllWhiteSpace(s[i + k..]);
  }

  /** A term trims to the empty string exactly when it is white space only. */
  lemma TrimEmptyIffWhiteSpace(s: string)
    ensures Trim(s) == "" <==> AllWhiteSpace(s)
  {
    var t := TrimStart(s);
    var k :| 0 <= k <= |s| && t == s[k..] && AllWhiteSpace(s[..k]);
    var j :| 0 <= j <= |t| && Trim(s) == t[..j] && AllWhiteSpace(t[j..]);
    if Trim(s) == "" {
      assert j == 0 && t[j..] == t;
      if t != "" {
        assert false;
      }
      forall i | 0 <= i < |s| ensures IsJsWhiteSpace(s[i]) {
        assert s[i] == s[..k][i];
      }
    }
    if AllWhiteSpace(s) && t != "" {
      assert false;
    }
  }

  /** What a search ends in: a name search with a term, or reloading the caller's list. */
  datatype Request = SearchByName(term: string) | LoadEmployees
}
