/** Case-insensitive text matching: PostgreSQL's `ILIKE` operator, which the
    search listings use, and the plain substring test it is meant to perform. */
module Text {

  /** Case folding of one character (ASCII letters only). */
  function Lower(c: char): char
  {
    if 'A' <= c <= 'Z' then (c as int + 32) as char else c
  }

  function Fold(s: string): (r: string)
    ensures |r| == |s|
    ensures forall i | 0 <= i < |s| :: r[i] == Lower(s[i])
  {
    seq(|s|, i requires 0 <= i < |s| => Lower(s[i]))
  }

  /** `needle` occurs in `hay` starting at position `k`. */
  predicate OccursAt(hay: string, needle: string, k: nat)
  {
    k + |needle| <= |hay| && hay[k..k + |needle|] == needle
  }

  /** `needle` occurs somewhere in `hay` as a contiguous run. */
  predicate Contains(hay: string, needle: string)
  {
    exists k: nat | k <= |hay| :: OccursAt(hay, needle, k)
  }

  /** `query` occurs in `text` once both are case-folded. */
  predicate ContainsIgnoreCase(text: string, query: string)
  {
    Contains(Fold(text), Fold(query))
  }

  /** `text ILIKE pattern`: `%` matches any run of characters, `_` any one
      character, a backslash makes the next character literal, and every other
      character matches itself up to case. A pattern ending in a lone
      backslash is an error in PostgreSQL; it cannot arise from the patterns
      the listings build, and here that backslash matches itself. */
  predicate Ilike(text: string, pattern: string)
    decreases |pattern| + |text|
  {
    if |pattern| == 0 then |text| == 0
    else if pattern[0] == '%' then
      Ilike(text, pattern[1..]) || (|text| > 0 && Ilike(text[1..], pattern))
    else if |text| == 0 then false
    else if pattern[0] == '_' then Ilike(text[1..], pattern[1..])
    else if pattern[0] == '\\' && |pattern| > 1 then
      Lower(text[0]) == Lower(pattern[1]) && Ilike(text[1..], pattern[2..])
    else
      Lower(text[0]) == Lower(pattern[0]) && Ilike(text[1..], pattern[1..])
  }

  /** The pattern `f"%{query}%"` the search listings pass to `ilike`. */
  function SearchPattern(query: string): string
  {
    "%" + query + "%"
  }

  /** A query with none of the characters `ILIKE` treats specially. */
  predicate Literal(query: string)
  {
    forall i | 0 <= i < |query| :: query[i] != '%' && query[i] != '_' && query[i] != '\\'
  }

  /** A lone `%` matches every text. */
  lemma {:induction false} PercentMatchesAll(text: string)
    ensures Ilike(text, "%")
    decreases |text|
  {
    if |text| > 0 {
      PercentMatchesAll(text[1..]);
    }
  }

  lemma FoldSlice(s: string, a: nat, b: nat)
    requires a <= b <= |s|
    ensures Fold(s[a..b]) == Fold(s)[a..b]
  {
  }

  /** A literal query followed by `%` matches exactly the texts that start
      with the query, up to case. */
  lemma {:induction false} LiteralPrefix(text: string, query: string)
    requires Literal(query)
    ensures Ilike(text, query + "%") <==> |query| <= |text| && Fold(query) == Fold(text[..|query|])
    decreases |query|
  {
    var p := query + "%";
    if |query| == 0 {
      assert p == "%";
      PercentMatchesAll(text);
      assert Fold(query) == Fold(text[..0]);
    } else {
      assert p[0] == query[0] && p[1..] == query[1..] + "%";
      assert Literal(query[1..]) by {
        forall i | 0 <= i < |query[1..]|
          ensures query[1..][i] != '%' && query[1..][i] != '_' && query[1..][i] != '\\'
        {
          assert query[1..][i] == query[i + 1];
        }
      }
      assert query[0] != '%' && query[0] != '_' && query[0] != '\\';
      if |text| > 0 {
        LiteralPrefix(text[1..], query[1..]);
        assert Ilike(text, p) <==> Lower(text[0]) == Lower(query[0]) && Ilike(text[1..], p[1..]);
        if |query| <= |text| {
          var t := text[..|query|];
          assert text[1..][..|query[1..]|] == t[1..];
          assert Fold(query) == Fold(t) <==>
                   Lower(query[0]) == Lower(t[0]) && Fold(query[1..]) == Fold(t[1..]) by {
            if Lower(query[0]) == Lower(t[0]) && Fold(query[1..]) == Fold(t[1..]) {
              forall i | 0 <= i < |query|
                ensures Fold(query)[i] == Fold(t)[i]
              {
                if i > 0 {
                  assert Fold(query[1..])[i - 1] == Fold(t[1..])[i - 1];
                }
              }
            }
            if Fold(query) == Fold(t) {
              assert Fold(query)[0] == Fold(t)[0];
              forall i | 0 <= i < |query| - 1
                ensures Fold(query[1..])[i] == Fold(t[1..])[i]
              {
                assert Fold(query)[i + 1] == Fold(t)[i + 1];
              }
            }
          }
        }
      }
    }
  }

  /** A leading `%` lets the rest of the pattern match any suffix. */
  lemma {:induction false} LeadingPercent(text: string, rest: string)
    ensures Ilike(text, "%" + rest) <==> exists k | 0 <= k <= |text| :: Ilike(text[k..], rest)
    decreases |text|
  {
    var p := "%" + rest;
    assert p[1..] == rest;
    assert text[0..] == text;
    if |text| > 0 {
      LeadingPercent(text[1..], rest);
      if Ilike(text[1..], p) {
        var k :| 0 <= k <= |text[1..]| && Ilike(text[1..][k..], rest);
        assert text[1..][k..] == text[k + 1..];
      }
      if k :| 0 < k <= |text| && Ilike(text[k..], rest) {
        assert text[1..][k - 1..] == text[k..];
      }
    }
  }

  /** For a query free of wildcard characters, `ILIKE '%query%'` is exactly a
      case-insensitive substring test. */
  lemma IlikeIsSubstring(text: string, query: string)
    requires Literal(query)
    ensures Ilike(text, SearchPattern(query)) <==> ContainsIgnoreCase(text, query)
  {
    var tail := query + "%";
    assert SearchPattern(query) == "%" + tail;
    LeadingPercent(text, tail);
    if Ilike(text, SearchPattern(query)) {
      var k :| 0 <= k <= |text| && Ilike(text[k..], tail);
      MatchAtIsOccurrence(text, query, k);
    }
    if ContainsIgnoreCase(text, query) {
      var k: nat :| k <= |Fold(text)| && OccursAt(Fold(text), Fold(query), k);
      MatchAtIsOccurrence(text, query, k);
    }
  }

  /** The pattern `query%` matches the suffix of `text` from `k` exactly when
      the folded query occurs in the folded text at `k`. */
  lemma MatchAtIsOccurrence(text: string, query: string, k: nat)
    requires Literal(query) && k <= |text|
    ensures Ilike(text[k..], query + "%") <==> OccursAt(Fold(text), Fold(query), k)
  {
    var n := |query|;
    LiteralPrefix(text[k..], query);
    if k + n <= |text| {
      assert text[k..][..n] == text[k..k + n];
      FoldSlice(text, k, k + n);
    }
  }

  /** The search pattern is built without escaping, so a query made of `_`
      matches a text that does not contain it. */
  lemma UnescapedWildcardMatches()
    ensures Ilike("x", SearchPattern("_"))
    ensures !ContainsIgnoreCase("x", "_")
  {
    assert SearchPattern("_") == "%_%";
    assert "%_%"[1..] == "_%";
    assert "_%"[1..] == "%";
    assert "x"[1..] == "";
    assert Ilike("", "%"[1..]);
    assert Ilike("", "%");
    assert Ilike("x", "_%");
    assert Fold("x") == "x" && Fold("_") == "_";
    assert !OccursAt("x", "_", 0);
  }
}
