/**
 * The few operations of Rust's `str` that the persistence layer relies on:
 * `char::is_whitespace`, `trim`, `lines`, `chars().take(n)`, `split_whitespace`,
 * `strip_prefix` and `strip_suffix`. A Dafny `char` is a Unicode scalar value,
 * the same unit as a Rust `char`, so counts below are counts of code points.
 */
module Text {
  import opened Wrappers

  /** The Unicode White_Space property, which `char::is_whitespace` tests. */
  predicate IsWhitespace(c: char) {
    var n := c as int;
    (0x09 <= n <= 0x0D) || n == 0x20 || n == 0x85 || n == 0xA0 || n == 0x1680
    || (0x2000 <= n <= 0x200A) || n == 0x2028 || n == 0x2029 || n == 0x202F
    || n == 0x205F || n == 0x3000
  }

  /** Every character is whitespace (the empty string included). */
  predicate IsBlank(s: string) {
    forall i :: 0 <= i < |s| ==> IsWhitespace(s[i])
  }

  /** No character is whitespace. */
  predicate NoWhitespace(s: string) {
    forall i :: 0 <= i < |s| ==> !IsWhitespace(s[i])
  }

  function Min(a: int, b: int): int {
    if a <= b then a else b
  }

  /** How many whitespace characters `s` starts with. */
  function LeadingWhitespace(s: string): (k: nat)
    ensures k <= |s|
    ensures forall i :: 0 <= i < k ==> IsWhitespace(s[i])
    ensures k < |s| ==> !IsWhitespace(s[k])
    decreases |s|
  {
    if s != [] && IsWhitespace(s[0]) then
      var k := LeadingWhitespace(s[1..]);
      assert forall i :: 1 <= i < k + 1 ==> s[i] == s[1..][i - 1];
      1 + k
    else
      0
  }

  /** How many whitespace characters `s` ends with. */
  function TrailingWhitespace(s: string): (k: nat)
    ensures k <= |s|
    ensures forall i :: |s| - k <= i < |s| ==> IsWhitespace(s[i])
    ensures k < |s| ==> !IsWhitespace(s[|s| - 1 - k])
    decreases |s|
  {
    if s != [] && IsWhitespace(s[|s| - 1]) then
      var k := TrailingWhitespace(s[..|s| - 1]);
      assert forall i :: |s| - 1 - k <= i < |s| - 1 ==> s[i] == s[..|s| - 1][i];
      1 + k
    else
      0
  }

  /** A prefix and a suffix that hold only whitespace are blank. */
  lemma BlankEnds(s: string, a: nat, b: nat)
    requires a <= b <= |s|
    requires forall i :: 0 <= i < a ==> IsWhitespace(s[i])
    requires forall i :: b <= i < |s| ==> IsWhitespace(s[i])
    ensures IsBlank(s[..a]) && IsBlank(s[b..])
  {
    assert forall i :: 0 <= i < a ==> s[..a][i] == s[i];
    assert forall i :: 0 <= i < |s| - b ==> s[b..][i] == s[b + i];
  }

  /**
   * `str::trim`: the slice of `s` left once the whitespace at both ends is
   * gone. It is empty exactly when `s` is blank, and otherwise starts and
   * ends with a character that is not whitespace, so no more could be cut.
   */
  function Trim(s: string): (r: string)
    ensures |r| <= |s|
    ensures exists a: nat :: a + |r| <= |s| && r == s[a..a + |r|] && IsBlank(s[..a]) && IsBlank(s[a + |r|..])
    ensures r == [] <==> IsBlank(s)
    ensures r != [] ==> !IsWhitespace(r[0]) && !IsWhitespace(r[|r| - 1])
  {
    var a := LeadingWhitespace(s);
    var b := |s| - TrailingWhitespace(s);
    if a < b then
      BlankEnds(s, a, b);
      assert s[a..b][0] == s[a] && s[a..b][b - a - 1] == s[b - 1];
      s[a..b]
    else
      assert IsBlank(s);
      assert s[..0] == [] && s[0..] == s;
      []
  }

  /** `s.chars().take(n).collect()`: the first `n` code points of `s`. */
  function Take(s: string, n: nat): (r: string)
    ensures |r| == Min(|s|, n) && r == s[..|r|]
  {
    if |s| <= n then s else s[..n]
  }

  /** Position of the first `c` in `s`, or `|s|` when there is none. */
  function IndexOf(s: string, c: char): (k: nat)
    ensures k <= |s|
    ensures k < |s| ==> s[k] == c
    ensures forall i :: 0 <= i < k ==> s[i] != c
    decreases |s|
  {
    if s == [] then 0
    else if s[0] == c then 0
    else 1 + IndexOf(s[1..], c)
  }

  /** Drops one `\r` that ends a line terminated by `\n`. */
  function StripCarriageReturn(line: string): string {
    if line != [] && line[|line| - 1] == '\r' then line[..|line| - 1] else line
  }

  /** No character of `s` is `\r`. */
  predicate NoCarriageReturn(s: string) {
    forall i :: 0 <= i < |s| ==> s[i] != '\r'
  }

  /** No character of `line` is `\n`. */
  predicate NoNewline(line: string) {
    forall j :: 0 <= j < |line| ==> line[j] != '\n'
  }

  /**
   * `str::lines`: the pieces between `\n` terminators; a final terminator
   * does not start an empty last line, and a `\r` before a `\n` is dropped.
   * No line holds a `\n`.
   */
  function Lines(s: string): (lines: seq<string>)
    ensures s == [] <==> lines == []
    ensures forall i :: 0 <= i < |lines| ==> NoNewline(lines[i])
    decreases |s|
  {
    if s == [] then []
    else
      var k := IndexOf(s, '\n');
      if k == |s| then [s]
      else
        var line := StripCarriageReturn(s[..k]);
        assert NoNewline(line) by {
          assert forall j :: 0 <= j < |line| ==> line[j] == s[j];
        }
        [line] + Lines(s[k + 1..])
  }

  /** Each line followed by a `\n` terminator. */
  function JoinTerminated(lines: seq<string>): string
    decreases |lines|
  {
    if lines == [] then [] else lines[0] + "\n" + JoinTerminated(lines[1..])
  }

  /**
   * In text without `\r`, the lines with their terminators put back are the
   * text itself, with a final `\n` added when the last line had none: the
   * lines are exactly the pieces between the `\n`s.
   */
  lemma {:induction false} LinesRebuild(s: string)
    requires NoCarriageReturn(s)
    ensures JoinTerminated(Lines(s)) == if s == [] || s[|s| - 1] == '\n' then s else s + "\n"
    decreases |s|
  {
    if s != [] {
      var k := IndexOf(s, '\n');
      if k == |s| {
        LastLine(s);
      } else {
        var line, t := s[..k], s[k + 1..];
        FirstLine(s, k);
        LinesRebuild(t);
        JoinCons(line, Lines(t));
        SplitAtNewline(s, k);
        TerminatedAfterLine(s, line, t);
      }
    }
  }

  /** Text with no `\n` is one line, which gets a terminator. */
  lemma LastLine(s: string)
    requires s != [] && IndexOf(s, '\n') == |s|
    ensures s[|s| - 1] != '\n'
    ensures JoinTerminated(Lines(s)) == s + "\n"
  {
    assert Lines(s) == [s];
    JoinCons(s, []);
    assert s + "\n" + [] == s + "\n";
  }

  /** A line and its terminator in front of text, with a final `\n` added when it has none. */
  lemma TerminatedAfterLine(s: string, line: string, t: string)
    requires s == line + "\n" + t
    ensures line + "\n" + (if t == [] || t[|t| - 1] == '\n' then t else t + "\n")
      == if s[|s| - 1] == '\n' then s else s + "\n"
  {
    var head := line + "\n";
    assert s == head + t;
    if t == [] {
      assert s == head && head[|head| - 1] == '\n';
    } else {
      assert s[|s| - 1] == t[|t| - 1];
      assert head + (t + "\n") == (head + t) + "\n";
    }
  }

  /** Text is what comes before a `\n`, the `\n`, and what comes after. */
  lemma SplitAtNewline(s: string, k: nat)
    requires k < |s| && s[k] == '\n'
    ensures s == s[..k] + "\n" + s[k + 1..]
  {
    assert s == s[..k] + s[k..];
    assert s[k..] == [s[k]] + s[k + 1..];
  }

  /** Without `\r`, the first line is the text up to the first `\n`. */
  lemma FirstLine(s: string, k: nat)
    requires NoCarriageReturn(s)
    requires k == IndexOf(s, '\n') && k < |s|
    ensures Lines(s) == [s[..k]] + Lines(s[k + 1..])
    ensures NoCarriageReturn(s[k + 1..])
  {
    var line := s[..k];
    assert line == [] || line[|line| - 1] == s[k - 1];
    assert StripCarriageReturn(line) == line;
    var t := s[k + 1..];
    assert forall i :: 0 <= i < |t| ==> t[i] == s[k + 1 + i];
  }

  /** Terminating a line in front of others. */
  lemma JoinCons(line: string, rest: seq<string>)
    ensures JoinTerminated([line] + rest) == line + "\n" + JoinTerminated(rest)
  {
    assert ([line] + rest)[1..] == rest;
  }

  /** The words concatenated, with nothing between them. */
  function Concat(words: seq<string>): string
    decreases |words|
  {
    if words == [] then [] else words[0] + Concat(words[1..])
  }

  /** `s` with every whitespace character removed. */
  function RemoveWhitespace(s: string): string
    decreases |s|
  {
    if s == [] then []
    else (if IsWhitespace(s[0]) then [] else [s[0]]) + RemoveWhitespace(s[1..])
  }

  /** Concatenating a word in front of others. */
  lemma ConcatCons(w: string, rest: seq<string>)
    ensures Concat([w] + rest) == w + Concat(rest)
  {
    assert ([w] + rest)[1..] == rest;
  }

  /**
   * The words of `s` after the word under construction `cur`: maximal runs of
   * characters that are not whitespace. Every word is non-empty and holds no
   * whitespace.
   */
  function Words(s: string, cur: string): (words: seq<string>)
    requires NoWhitespace(cur)
    ensures forall i :: 0 <= i < |words| ==> words[i] != [] && NoWhitespace(words[i])
    ensures words == [] <==> cur == [] && IsBlank(s)
    decreases |s|
  {
    if s == [] then
      if cur == [] then [] else [cur]
    else if IsWhitespace(s[0]) then
      var rest := Words(s[1..], []);
      if cur == [] then rest else [cur] + rest
    else
      var next := cur + [s[0]];
      assert NoWhitespace(next);
      assert IsBlank(s) == false;
      Words(s[1..], next)
  }

  /** Together the words spell `cur` and then the characters of `s` that are not whitespace. */
  lemma {:induction false} WordsSpell(s: string, cur: string)
    requires NoWhitespace(cur)
    ensures Concat(Words(s, cur)) == cur + RemoveWhitespace(s)
    decreases |s|
  {
    if s == [] {
      ConcatCons(cur, []);
    } else {
      var skipped := RemoveWhitespace(s[1..]);
      if IsWhitespace(s[0]) {
        WordsSpell(s[1..], []);
        ConcatCons(cur, Words(s[1..], []));
        assert RemoveWhitespace(s) == skipped;
      } else {
        var next := cur + [s[0]];
        assert NoWhitespace(next);
        WordsSpell(s[1..], next);
        assert RemoveWhitespace(s) == [s[0]] + skipped;
        assert next + skipped == cur + ([s[0]] + skipped);
      }
    }
  }

  /** Blank text in front of the rest is skipped when no word is pending. */
  lemma {:induction false} WordsSkipBlank(g: string, s: string)
    requires IsBlank(g)
    ensures Words(g + s, []) == Words(s, [])
    decreases |g|
  {
    if g == [] {
      assert g + s == s;
    } else {
      assert (g + s)[0] == g[0] && (g + s)[1..] == g[1..] + s;
      assert IsWhitespace(g[0]) && IsBlank(g[1..]);
      WordsSkipBlank(g[1..], s);
    }
  }

  /** Non-empty blank text after a pending word ends that word. */
  lemma WordsEndAtBlank(g: string, s: string, cur: string)
    requires g != [] && IsBlank(g) && cur != [] && NoWhitespace(cur)
    ensures Words(g + s, cur) == [cur] + Words(s, [])
  {
    assert (g + s)[0] == g[0] && (g + s)[1..] == g[1..] + s;
    WordsSkipBlank(g[1..], s);
  }

  /** A run without whitespace extends the pending word. */
  lemma {:induction false} WordsExtend(w: string, s: string, cur: string)
    requires NoWhitespace(w) && NoWhitespace(cur)
    ensures Words(w + s, cur) == Words(s, cur + w)
    decreases |w|
  {
    if w == [] {
      assert w + s == s && cur + w == cur;
    } else {
      assert (w + s)[0] == w[0] && (w + s)[1..] == w[1..] + s;
      assert NoWhitespace(cur + [w[0]]);
      WordsExtend(w[1..], s, cur + [w[0]]);
      assert cur + [w[0]] + w[1..] == cur + w;
    }
  }

  /** `gaps[0] + ws[0] + gaps[1] + … + ws[n - 1] + gaps[n]` */
  function Interleave(gaps: seq<string>, ws: seq<string>): string
    requires |gaps| == |ws| + 1
    decreases |ws|
  {
    if ws == [] then gaps[0] else gaps[0] + ws[0] + Interleave(gaps[1..], ws[1..])
  }

  /**
   * Non-empty words without whitespace, separated by non-empty blank gaps
   * (the outer two may be empty), split back into exactly those words: the
   * words are the maximal runs of non-whitespace characters.
   */
  lemma {:induction false} WordsOfInterleave(gaps: seq<string>, ws: seq<string>)
    requires |gaps| == |ws| + 1
    requires forall i :: 0 <= i < |gaps| ==> IsBlank(gaps[i])
    requires forall i :: 0 <= i < |ws| ==> ws[i] != [] && NoWhitespace(ws[i])
    requires forall i :: 0 < i < |ws| ==> gaps[i] != []
    ensures Words(Interleave(gaps, ws), []) == ws
    ensures SplitWhitespace(Interleave(gaps, ws)) == ws
    decreases |ws|
  {
    if ws == [] {
      WordsSkipBlank(gaps[0], []);
      assert gaps[0] + [] == gaps[0];
    } else {
      var y := Interleave(gaps[1..], ws[1..]);
      assert Interleave(gaps, ws) == gaps[0] + (ws[0] + y);
      WordsSkipBlank(gaps[0], ws[0] + y);
      WordsExtend(ws[0], y, []);
      assert [] + ws[0] == ws[0];
      WordsOfInterleave(gaps[1..], ws[1..]);
      WordsAfterWord(gaps[1..], ws[1..], ws[0]);
      assert ws == [ws[0]] + ws[1..];
    }
  }

  /**
   * After a pending word, a gap that is non-empty unless it is the last one
   * ends that word, and the words that follow are those of the rest.
   */
  lemma WordsAfterWord(gaps: seq<string>, ws: seq<string>, cur: string)
    requires |gaps| == |ws| + 1 && IsBlank(gaps[0]) && (ws != [] ==> gaps[0] != [])
    requires cur != [] && NoWhitespace(cur)
    requires Words(Interleave(gaps, ws), []) == ws
    ensures Words(Interleave(gaps, ws), cur) == [cur] + ws
  {
    if ws == [] {
      if gaps[0] != [] {
        WordsEndAtBlank(gaps[0], [], cur);
        assert gaps[0] + [] == gaps[0];
      }
    } else {
      var z := ws[0] + Interleave(gaps[1..], ws[1..]);
      assert Interleave(gaps, ws) == gaps[0] + z;
      WordsEndAtBlank(gaps[0], z, cur);
      WordsSkipBlank(gaps[0], z);
    }
  }

  /**
   * `str::split_whitespace`: the maximal runs of non-whitespace characters;
   * concatenated they are `s` with its whitespace removed.
   */
  function SplitWhitespace(s: string): (words: seq<string>)
    ensures forall i :: 0 <= i < |words| ==> words[i] != [] && NoWhitespace(words[i])
    ensures words == [] <==> IsBlank(s)
    ensures Concat(words) == RemoveWhitespace(s)
  {
    WordsSpell(s, []);
    Words(s, [])
  }

  /** `str::strip_prefix`. */
  function StripPrefix(s: string, prefix: string): (r: Option<string>)
    ensures r.Some? <==> |prefix| <= |s| && s[..|prefix|] == prefix
    ensures r.Some? ==> s == prefix + r.value
  {
    if |prefix| <= |s| && s[..|prefix|] == prefix then Some(s[|prefix|..]) else None
  }

  /** `str::strip_suffix`. */
  function StripSuffix(s: string, suffix: string): (r: Option<string>)
    ensures r.Some? <==> |suffix| <= |s| && s[|s| - |suffix|..] == suffix
    ensures r.Some? ==> s == r.value + suffix
  {
    if |suffix| <= |s| && s[|s| - |suffix|..] == suffix then Some(s[..|s| - |suffix|]) else None
  }
}
