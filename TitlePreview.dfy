/**
 * How a buffer's sidebar title and preview are derived from its content
 * (`extract_title_preview` in src-tauri/src/db/queries.rs). The title is the
 * first line that is not blank, the preview the next such line; both are
 * trimmed and cut to 100 code points, and a content with no such line is
 * "Untitled" with an empty preview.
 */
module TitlePreview {
  import opened Wrappers
  import opened Text

  /** Length cap, in code points, of a title and of a preview. */
  const MaxChars: nat := 100
  /** The title of a buffer whose every line is blank. */
  const Untitled: string := "Untitled"

  datatype Derived = Derived(title: string, preview: string)

  /** `line.trim().is_empty()`: every character of the line is whitespace. */
  predicate IsBlankLine(line: string) {
    IsBlank(line)
  }

  /** A line is blank exactly when trimming it leaves nothing. */
  lemma BlankLineTrimsToEmpty(line: string)
    ensures IsBlankLine(line) <==> Trim(line) == []
  {
  }

  /** `s.trim().chars().take(100).collect()` */
  function Clip(line: string): (r: string)
    ensures |r| <= MaxChars
    ensures !IsBlankLine(line) ==> r != []
  {
    Take(Trim(line), MaxChars)
  }

  /** `i` is the first line at or after `from` that is not blank. */
  predicate IsFirstNonBlank(lines: seq<string>, from: nat, i: nat) {
    from <= i < |lines| && !IsBlankLine(lines[i])
    && forall k :: from <= k < i ==> IsBlankLine(lines[k])
  }

  /** `lines[from..].iter().find(|line| !line.trim().is_empty())`, as an index. */
  function FindNonBlank(lines: seq<string>, from: nat): (r: Option<nat>)
    requires from <= |lines|
    ensures r.Some? ==> from <= r.value < |lines|
    decreases |lines| - from
  {
    if from == |lines| then None
    else if !IsBlankLine(lines[from]) then Some(from)
    else FindNonBlank(lines, from + 1)
  }

  /** The search finds the first non-blank line at or after `from`, and `None` only if there is none. */
  lemma {:induction false} FindNonBlankFinds(lines: seq<string>, from: nat)
    requires from <= |lines|
    ensures FindNonBlank(lines, from).Some? ==> IsFirstNonBlank(lines, from, FindNonBlank(lines, from).value)
    ensures FindNonBlank(lines, from).None? ==> forall k :: from <= k < |lines| ==> IsBlankLine(lines[k])
    decreases |lines| - from
  {
    if from < |lines| && IsBlankLine(lines[from]) {
      FindNonBlankFinds(lines, from + 1);
    }
  }

  /** How many of `lines` are not blank. */
  function NonBlankCount(lines: seq<string>): nat
    decreases |lines|
  {
    if lines == [] then 0
    else (if IsBlankLine(lines[0]) then 0 else 1) + NonBlankCount(lines[1..])
  }

  /**
   * The preview pipeline `skip_while(blank).skip(1).find(non-blank)`: after
   * the leading blank lines and the title line, the next non-blank line.
   */
  function PreviewLine(lines: seq<string>): (r: Option<nat>)
    ensures r.Some? ==> exists t: nat :: IsFirstNonBlank(lines, 0, t) && IsFirstNonBlank(lines, t + 1, r.value)
    ensures r.None? ==> forall t: nat :: IsFirstNonBlank(lines, 0, t) ==> forall k :: t < k < |lines| ==> IsBlankLine(lines[k])
  {
    FindNonBlankFinds(lines, 0);
    match FindNonBlank(lines, 0)
    case None => None
    case Some(t) =>
      FindNonBlankFinds(lines, t + 1);
      assert forall u: nat :: IsFirstNonBlank(lines, 0, u) ==> u == t;
      FindNonBlank(lines, t + 1)
  }

  /** The title and preview of content already split into lines. */
  function FromLines(lines: seq<string>): (r: Derived)
    ensures |r.title| <= MaxChars && |r.preview| <= MaxChars
  {
    var title := match FindNonBlank(lines, 0)
      case Some(t) => Clip(lines[t])
      case None => Untitled;
    var preview := match PreviewLine(lines)
      case Some(p) => Clip(lines[p])
      case None => "";
    Derived(title, preview)
  }

  /** `extract_title_preview`: both results have at most 100 code points. */
  function ExtractTitlePreview(content: string): (r: Derived)
    ensures |r.title| <= MaxChars && |r.preview| <= MaxChars
  {
    FromLines(Lines(content))
  }

  /**
   * The title is the first non-blank line, trimmed and cut to 100 code points,
   * and "Untitled" (with an empty preview) when every line is blank.
   */
  lemma TitleIsFirstNonBlankLine(lines: seq<string>)
    ensures forall i: nat :: IsFirstNonBlank(lines, 0, i) ==> FromLines(lines).title == Clip(lines[i])
    ensures (forall k :: 0 <= k < |lines| ==> IsBlankLine(lines[k])) ==> FromLines(lines) == Derived(Untitled, "")
  {
    FindNonBlankFinds(lines, 0);
    forall i: nat | IsFirstNonBlank(lines, 0, i)
      ensures FromLines(lines).title == Clip(lines[i])
    {
      FirstNonBlankUnique(lines, 0, i, FindNonBlank(lines, 0));
    }
  }

  /**
   * The preview is the first non-blank line after the title line `t`, trimmed
   * and cut to 100 code points, and empty when there is none.
   */
  lemma PreviewIsNextNonBlankLine(lines: seq<string>, t: nat)
    requires IsFirstNonBlank(lines, 0, t)
    ensures forall p: nat :: IsFirstNonBlank(lines, t + 1, p) ==> FromLines(lines).preview == Clip(lines[p])
    ensures (forall k :: t < k < |lines| ==> IsBlankLine(lines[k])) ==> FromLines(lines).preview == ""
  {
    FirstNonBlankUnique(lines, 0, t, FindNonBlank(lines, 0));
    assert PreviewLine(lines) == FindNonBlank(lines, t + 1);
    FindNonBlankFinds(lines, t + 1);
    forall p: nat | IsFirstNonBlank(lines, t + 1, p)
      ensures FromLines(lines).preview == Clip(lines[p])
    {
      FirstNonBlankUnique(lines, t + 1, p, FindNonBlank(lines, t + 1));
    }
  }

  /** There is one first non-blank line at or after `from`. */
  lemma FirstNonBlankUnique(lines: seq<string>, from: nat, i: nat, found: Option<nat>)
    requires from <= |lines|
    requires IsFirstNonBlank(lines, from, i) && found == FindNonBlank(lines, from)
    ensures found == Some(i)
  {
    FindNonBlankFinds(lines, from);
    if found.Some? {
      var j := found.value;
      assert !(j < i) && !(i < j);
    }
  }

  /** Finding the first non-blank line from `from` accounts for one non-blank line. */
  lemma {:induction false} CountAfterFind(lines: seq<string>, from: nat)
    requires from <= |lines|
    ensures FindNonBlank(lines, from).None? ==> NonBlankCount(lines[from..]) == 0
    ensures FindNonBlank(lines, from).Some? ==>
      NonBlankCount(lines[from..]) == 1 + NonBlankCount(lines[FindNonBlank(lines, from).value + 1..])
    decreases |lines| - from
  {
    if from < |lines| {
      assert lines[from..][1..] == lines[from + 1..];
      if IsBlankLine(lines[from]) {
        CountAfterFind(lines, from + 1);
      }
    }
  }

  /** A preview exists exactly when the content has at least two non-blank lines. */
  lemma PreviewIffTwoNonBlankLines(lines: seq<string>)
    ensures FromLines(lines).preview != "" <==> NonBlankCount(lines) >= 2
  {
    assert lines[0..] == lines;
    CountAfterFind(lines, 0);
    match FindNonBlank(lines, 0)
    case None =>
    case Some(t) =>
      CountAfterFind(lines, t + 1);
      match FindNonBlank(lines, t + 1)
      case None =>
      case Some(p) =>
        FindNonBlankFinds(lines, t + 1);
        assert !IsBlankLine(lines[p]);
  }
}
