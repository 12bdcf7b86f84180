/**
 * The full-text query that `search_buffers` (src-tauri/src/db/queries.rs)
 * builds from the user's text: every `"` is doubled, the text is split on
 * whitespace, each word becomes the FTS5 prefix term `"word"*`, and the terms
 * are joined by single spaces. Alongside the builder sits a decoder for
 * queries of that shape; decoding a built query gives back the user's words,
 * so each term stands for exactly one word and no user text escapes its
 * quotes.
 */
module SearchQuery {
  import opened Wrappers
  import opened Text

  /** `s.replace('"', "\"\"")` */
  function EscapeQuotes(s: string): (r: string)
    ensures |r| >= |s|
    ensures NoWhitespace(s) ==> NoWhitespace(r)
    decreases |s|
  {
    if s == [] then []
    else (if s[0] == '"' then "\"\"" else [s[0]]) + EscapeQuotes(s[1..])
  }

  /** `format!("\"{}\"*", term)`: an FTS5 string with the prefix-match star. */
  function QuoteTerm(term: string): string {
    "\"" + term + "\"*"
  }

  /** `.map(|term| format!("\"{}\"*", term))` */
  function QuoteAll(terms: seq<string>): (r: seq<string>)
    ensures |r| == |terms|
    decreases |terms|
  {
    if terms == [] then [] else [QuoteTerm(terms[0])] + QuoteAll(terms[1..])
  }

  /** `.join(" ")`: nothing to join gives the empty string, a non-empty first part a non-empty one. */
  function JoinWithSpaces(parts: seq<string>): (r: string)
    ensures parts == [] ==> r == []
    ensures parts != [] && parts[0] != [] ==> r != []
    decreases |parts|
  {
    if parts == [] then ""
    else if |parts| == 1 then parts[0]
    else parts[0] + " " + JoinWithSpaces(parts[1..])
  }

  /** The `safe_query` that `search_buffers` hands to `MATCH`: empty exactly when the query is blank. */
  function SafeQuery(query: string): (safe: string)
    ensures safe == [] <==> IsBlank(query)
  {
    WordsOfEscaped(query, []);
    assert EscapeQuotes([]) == [];
    var terms := QuoteAll(SplitWhitespace(EscapeQuotes(query)));
    assert terms != [] ==> terms[0] != [];
    JoinWithSpaces(terms)
  }

  // ---- Decoding a query of the shape SafeQuery builds ----

  function Prepend(c: char, rest: Option<string>): Option<string> {
    match rest
    case Some(t) => Some([c] + t)
    case None => None
  }

  /** Undoes `EscapeQuotes`: `""` stands for `"`, and a lone `"` is malformed. */
  function UnescapeQuotes(s: string): Option<string>
    decreases |s|
  {
    if s == [] then Some([])
    else if s[0] == '"' then
      if |s| >= 2 && s[1] == '"' then Prepend('"', UnescapeQuotes(s[2..])) else None
    else
      Prepend(s[0], UnescapeQuotes(s[1..]))
  }

  /** The body of a term `"…"*`, unescaped. */
  function UnquoteTerm(term: string): Option<string> {
    if |term| >= 3 && term[0] == '"' && term[|term| - 2..] == "\"*" then
      UnescapeQuotes(term[1..|term| - 2])
    else
      None
  }

  function UnquoteAll(terms: seq<string>): (r: Option<seq<string>>)
    decreases |terms|
  {
    if terms == [] then Some([])
    else
      match (UnquoteTerm(terms[0]), UnquoteAll(terms[1..]))
      case (Some(w), Some(ws)) => Some([w] + ws)
      case _ => None
  }

  /** `str::split(' ')`, continuing the piece `cur`. */
  function SplitOnSpace(s: string, cur: string): (pieces: seq<string>)
    decreases |s|
  {
    if s == [] then [cur]
    else if s[0] == ' ' then [cur] + SplitOnSpace(s[1..], [])
    else SplitOnSpace(s[1..], cur + [s[0]])
  }

  /** The words a query of the `SafeQuery` shape searches for, if it has that shape. */
  function ParseSafeQuery(safe: string): Option<seq<string>> {
    UnquoteAll(SplitOnSpace(safe, []))
  }

  // ---- Properties ----

  function EscapeAll(words: seq<string>): (r: seq<string>)
    ensures |r| == |words|
    decreases |words|
  {
    if words == [] then [] else [EscapeQuotes(words[0])] + EscapeAll(words[1..])
  }

  predicate NoSpace(s: string) {
    forall i :: 0 <= i < |s| ==> s[i] != ' '
  }

  lemma {:induction false} EscapeConcat(a: string, b: string)
    ensures EscapeQuotes(a + b) == EscapeQuotes(a) + EscapeQuotes(b)
    decreases |a|
  {
    if a == [] {
      assert a + b == b;
    } else {
      assert (a + b)[0] == a[0] && (a + b)[1..] == a[1..] + b;
      EscapeConcat(a[1..], b);
    }
  }

  lemma {:induction false} EscapeAllConcat(a: seq<string>, b: seq<string>)
    ensures EscapeAll(a + b) == EscapeAll(a) + EscapeAll(b)
    decreases |a|
  {
    if a == [] {
      assert a + b == b;
    } else {
      assert (a + b)[0] == a[0] && (a + b)[1..] == a[1..] + b;
      EscapeAllConcat(a[1..], b);
    }
  }

  /** Unescaping what `EscapeQuotes` wrote gives back the original text. */
  lemma {:induction false} UnescapeEscape(s: string)
    ensures UnescapeQuotes(EscapeQuotes(s)) == Some(s)
    decreases |s|
  {
    if s != [] {
      var e := EscapeQuotes(s);
      UnescapeEscape(s[1..]);
      if s[0] == '"' {
        assert e[2..] == EscapeQuotes(s[1..]);
      } else {
        assert e[1..] == EscapeQuotes(s[1..]);
      }
      assert [s[0]] + s[1..] == s;
    }
  }

  /**
   * Doubling quotes before splitting on whitespace is the same as splitting
   * first and doubling the quotes inside each word: `"` is not whitespace.
   */
  lemma {:induction false} WordsOfEscaped(s: string, cur: string)
    requires NoWhitespace(cur)
    ensures Words(EscapeQuotes(s), EscapeQuotes(cur)) == EscapeAll(Words(s, cur))
    decreases |s|
  {
    var e := EscapeQuotes(s);
    var ec := EscapeQuotes(cur);
    if s == [] {
    } else if IsWhitespace(s[0]) {
      assert e[0] == s[0] && e[1..] == EscapeQuotes(s[1..]);
      WordsOfEscaped(s[1..], []);
      EscapeAllConcat(if cur == [] then [] else [cur], Words(s[1..], []));
    } else if s[0] == '"' {
      assert e[0] == '"' && e[1..][0] == '"' && e[1..][1..] == EscapeQuotes(s[1..]);
      EscapeConcat(cur, [s[0]]);
      assert ec + [e[0]] + [e[1..][0]] == EscapeQuotes(cur + [s[0]]);
      WordsOfEscaped(s[1..], cur + [s[0]]);
    } else {
      assert e[0] == s[0] && e[1..] == EscapeQuotes(s[1..]);
      EscapeConcat(cur, [s[0]]);
      assert EscapeQuotes([s[0]]) == [s[0]];
      assert Words(e, ec) == Words(e[1..], ec + [s[0]]);
      WordsOfEscaped(s[1..], cur + [s[0]]);
    }
  }

  /** The safe query has one term `"w"*` per word `w` of the query, with `w`'s quotes doubled. */
  lemma SafeQueryTerms(query: string)
    ensures SafeQuery(query) == JoinWithSpaces(QuoteAll(EscapeAll(SplitWhitespace(query))))
  {
    WordsOfEscaped(query, []);
  }

  lemma {:induction false} SplitAbsorbs(x: string, s: string, cur: string)
    requires NoSpace(x)
    ensures SplitOnSpace(x + s, cur) == SplitOnSpace(s, cur + x)
    decreases |x|
  {
    if x == [] {
      assert x + s == s && cur + x == cur;
    } else {
      assert (x + s)[0] == x[0] && (x + s)[1..] == x[1..] + s;
      assert cur + [x[0]] + x[1..] == cur + x;
      SplitAbsorbs(x[1..], s, cur + [x[0]]);
    }
  }

  /** Splitting a non-empty join of space-free parts on spaces gives the parts back. */
  lemma {:induction false} SplitJoin(parts: seq<string>)
    requires parts != []
    requires forall i :: 0 <= i < |parts| ==> NoSpace(parts[i])
    ensures SplitOnSpace(JoinWithSpaces(parts), []) == parts
    decreases |parts|
  {
    if |parts| == 1 {
      SplitAbsorbs(parts[0], [], []);
      assert parts[0] + [] == parts[0];
    } else {
      var rest := JoinWithSpaces(parts[1..]);
      assert parts[0] + " " + rest == parts[0] + (" " + rest);
      SplitAbsorbs(parts[0], " " + rest, []);
      assert (" " + rest)[0] == ' ' && (" " + rest)[1..] == rest;
      assert [] + parts[0] == parts[0];
      SplitJoin(parts[1..]);
      assert parts == [parts[0]] + parts[1..];
    }
  }

  /** A word quoted as a term decodes back to the word. */
  lemma UnquoteQuoted(w: string)
    ensures UnquoteTerm(QuoteTerm(EscapeQuotes(w))) == Some(w)
  {
    var e := EscapeQuotes(w);
    var q := QuoteTerm(e);
    assert q[1..|q| - 2] == e && q[|q| - 2..] == "\"*";
    UnescapeEscape(w);
  }

  /** The term for a word without whitespace holds no space. */
  lemma QuotedNoSpace(w: string)
    requires NoWhitespace(w)
    ensures NoSpace(QuoteTerm(EscapeQuotes(w)))
  {
    var e := EscapeQuotes(w);
    var q := QuoteTerm(e);
    assert IsWhitespace(' ');
    forall i | 0 <= i < |q| ensures q[i] != ' ' {
      if 1 <= i < |q| - 2 {
        assert q[i] == e[i - 1];
      }
    }
  }

  lemma {:induction false} QuotedTermsDecode(words: seq<string>)
    requires forall i :: 0 <= i < |words| ==> NoWhitespace(words[i])
    ensures forall i :: 0 <= i < |words| ==> NoSpace(QuoteAll(EscapeAll(words))[i])
    ensures UnquoteAll(QuoteAll(EscapeAll(words))) == Some(words)
    decreases |words|
  {
    if words != [] {
      var w := words[0];
      var qs := QuoteAll(EscapeAll(words));
      var tail := QuoteAll(EscapeAll(words[1..]));
      assert EscapeAll(words)[1..] == EscapeAll(words[1..]);
      assert qs[0] == QuoteTerm(EscapeQuotes(w)) && qs[1..] == tail;
      UnquoteQuoted(w);
      QuotedNoSpace(w);
      QuotedTermsDecode(words[1..]);
      assert forall i :: 1 <= i < |qs| ==> qs[i] == tail[i - 1];
      assert [w] + words[1..] == words;
    }
  }

  /**
   * The round trip. For a query that is not blank (a blank one never reaches
   * the index), splitting the safe query on spaces gives exactly one term
   * `"…"*` per whitespace-separated word, and decoding the terms gives back
   * the words themselves.
   */
  lemma SafeQueryRoundTrip(query: string)
    requires !IsBlank(query)
    ensures SplitOnSpace(SafeQuery(query), []) == QuoteAll(EscapeAll(SplitWhitespace(query)))
    ensures ParseSafeQuery(SafeQuery(query)) == Some(SplitWhitespace(query))
  {
    var words := SplitWhitespace(query);
    SafeQueryTerms(query);
    QuotedTermsDecode(words);
    SplitJoin(QuoteAll(EscapeAll(words)));
  }
}
