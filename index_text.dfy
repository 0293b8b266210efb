/**
 * Text processing of the search index generator
 * (apps/docs/scripts/generate-search-index.ts): heading anchors, the
 * whitespace normalisation of indexed text, frontmatter removal and the
 * recognition of `##`/`###` heading lines.
 */
module IndexText {
  import opened Strings

  // ---------------------------------------------------------------------
  // Character classes

  /** `\w`. */
  predicate IsWordChar(c: char) {
    ('a' <= c <= 'z') || ('A' <= c <= 'Z') || ('0' <= c <= '9') || c == '_'
  }

  /** The ranges U+4E00–U+9FFF, U+3040–U+309F and U+30A0–U+30FF. */
  predicate IsCjk(c: char) {
    ('\U{4E00}' <= c <= '\U{9FFF}') || ('\U{3040}' <= c <= '\U{309F}') || ('\U{30A0}' <= c <= '\U{30FF}')
  }

  predicate IsHyphen(c: char) { c == '-' }

  predicate IsNewline(c: char) { c == '\n' }

  /** The characters `[^\w\s一-鿿぀-ゟ゠-ヿ-]` does not remove. */
  predicate KeptInHeading(c: char) {
    IsWordChar(c) || IsWhitespace(c) || IsCjk(c) || c == '-'
  }

  /** A character that may appear in an anchor: lower-case word characters, CJK characters and `-`. */
  predicate IsAnchorChar(c: char) {
    ('a' <= c <= 'z') || ('0' <= c <= '9') || c == '_' || IsCjk(c) || c == '-'
  }

  /** Anchor characters are never upper case and never whitespace. */
  lemma AnchorCharIsPlain(c: char)
    requires IsAnchorChar(c)
    ensures !IsUpper(c) && !IsWhitespace(c) && KeptInHeading(c)
  {
  }

  // ---------------------------------------------------------------------
  // Regular-expression replacements

  /** `s.replace(/[^…]/g, '')`: the characters `keep` accepts, in order. */
  function Filter(s: string, keep: char -> bool): (r: string)
    ensures |r| <= |s|
    ensures forall i :: 0 <= i < |r| ==> keep(r[i])
    ensures (forall i :: 0 <= i < |s| ==> keep(s[i])) ==> r == s
  {
    if s == [] then []
    else
      var rest := Filter(s[1..], keep);
      if keep(s[0]) then [s[0]] + rest else rest
  }

  /** The filter works character by character: it distributes over concatenation. */
  lemma {:induction false} FilterConcat(a: string, b: string, keep: char -> bool)
    ensures Filter(a + b, keep) == Filter(a, keep) + Filter(b, keep)
  {
    if a != [] {
      assert (a + b)[1..] == a[1..] + b;
      FilterConcat(a[1..], b, keep);
      assert Filter(a + b, keep) == Filter([a[0]], keep) + Filter(a[1..] + b, keep);
    } else {
      assert a + b == b;
    }
  }

  /** One character is kept exactly when `keep` accepts it. */
  lemma FilterOne(c: char, keep: char -> bool)
    ensures Filter([c], keep) == if keep(c) then [c] else []
  {
    assert [c][1..] == [];
  }

  /** Rejected characters in front contribute nothing. */
  lemma {:induction false} FilterRejected(s: string, keep: char -> bool, n: nat)
    requires n <= |s|
    requires forall i :: 0 <= i < n ==> !keep(s[i])
    ensures Filter(s, keep) == Filter(s[n..], keep)
  {
    if n > 0 {
      FilterRejected(s[1..], keep, n - 1);
      assert s[1..][n - 1..] == s[n..];
    }
  }

  /** Filtering with a weaker test first changes nothing. */
  lemma {:induction false} FilterFilter(s: string, keep: char -> bool, q: char -> bool)
    requires forall c :: q(c) ==> keep(c)
    ensures Filter(Filter(s, keep), q) == Filter(s, q)
  {
    if s != [] {
      FilterFilter(s[1..], keep, q);
    }
  }

  /** Every character of a filtered string comes from the original, so a property of all of them carries over. */
  lemma {:induction false} FilterChars(s: string, keep: char -> bool, q: char -> bool)
    requires forall i :: 0 <= i < |s| ==> q(s[i])
    ensures forall i :: 0 <= i < |Filter(s, keep)| ==> q(Filter(s, keep)[i])
  {
    if s != [] {
      var t := s[1..];
      forall i | 0 <= i < |t| ensures q(t[i]) { assert t[i] == s[i + 1]; }
      FilterChars(t, keep, q);
    }
  }

  /** No two neighbouring characters both satisfy `p`. */
  ghost predicate NoAdjacent(s: string, p: char -> bool) {
    forall i, j :: 0 <= i < j < |s| && j == i + 1 ==> !(p(s[i]) && p(s[j]))
  }

  /**
   * `s.replace(/P+/g, c)`: every maximal run of characters satisfying `p`
   * becomes the single character `c`.
   */
  function CollapseRuns(s: string, p: char -> bool, c: char): (r: string)
    ensures forall i :: 0 <= i < |r| ==> r[i] == c || !p(r[i])
    ensures NoAdjacent(r, p)
    ensures r == [] <==> s == []
    ensures s != [] && p(s[0]) ==> r[0] == c
    ensures s != [] && !p(s[0]) ==> r[0] == s[0]
    decreases |s|
  {
    if s == [] then []
    else if p(s[0]) then [c] + CollapseRuns(DropWhile(s, p), p, c)
    else [s[0]] + CollapseRuns(s[1..], p, c)
  }

  /** Every character other than `c` in the collapsed string comes from the original. */
  lemma {:induction false} CollapseRunsChars(s: string, p: char -> bool, c: char, q: char -> bool)
    requires forall i :: 0 <= i < |s| ==> q(s[i])
    ensures forall i :: 0 <= i < |CollapseRuns(s, p, c)| ==>
      CollapseRuns(s, p, c)[i] == c || q(CollapseRuns(s, p, c)[i])
    decreases |s|
  {
    if s != [] {
      var t := if p(s[0]) then DropWhile(s, p) else s[1..];
      forall i | 0 <= i < |t| ensures q(t[i]) { assert t[i] == s[|s| - |t| + i]; }
      CollapseRunsChars(t, p, c, q);
    }
  }

  /**
   * Collapsing runs keeps every character that is neither in a run nor the
   * replacement, in order.
   */
  lemma {:induction false} CollapseRunsKeepsOthers(s: string, p: char -> bool, c: char, q: char -> bool)
    requires forall x :: q(x) ==> !p(x) && x != c
    ensures Filter(CollapseRuns(s, p, c), q) == Filter(s, q)
    decreases |s|
  {
    if s != [] {
      var t := if p(s[0]) then DropWhile(s, p) else s[1..];
      var head := if p(s[0]) then c else s[0];
      CollapseRunsKeepsOthers(t, p, c, q);
      assert CollapseRuns(s, p, c) == [head] + CollapseRuns(t, p, c);
      FilterConcat([head], CollapseRuns(t, p, c), q);
      FilterOne(head, q);
      if p(s[0]) {
        FilterDropWhile(s, p, q);
      }
    }
  }

  /** A leading run of `p`-characters holds nothing `q` keeps when `q` and `p` exclude each other. */
  lemma FilterDropWhile(s: string, p: char -> bool, q: char -> bool)
    requires forall x :: q(x) ==> !p(x)
    ensures Filter(s, q) == Filter(DropWhile(s, p), q)
  {
    var t := DropWhile(s, p);
    assert forall i :: 0 <= i < |s| - |t| ==> p(s[i]);
    FilterRejected(s, q, |s| - |t|);
  }

  /** A string in which every `p`-character is `c` and no two are adjacent is left alone. */
  lemma {:induction false} CollapseRunsIdentity(s: string, p: char -> bool, c: char)
    requires forall i :: 0 <= i < |s| && p(s[i]) ==> s[i] == c
    requires NoAdjacent(s, p)
    ensures CollapseRuns(s, p, c) == s
    decreases |s|
  {
    if s != [] {
      var t := s[1..];
      forall i | 0 <= i < |t| && p(t[i]) ensures t[i] == c {
        assert t[i] == s[i + 1];
      }
      forall i, j | 0 <= i < j < |t| && j == i + 1 ensures !(p(t[i]) && p(t[j])) {
        assert t[i] == s[i + 1] && t[j] == s[j + 1];
      }
      CollapseRunsIdentity(t, p, c);
      if p(s[0]) {
        assert t == [] || !p(t[0]);
        assert DropWhile(t, p) == t;
        assert DropWhile(s, p) == t;
      }
      assert s == [s[0]] + t;
    }
  }

  /**
   * `s.replace(/\n{2,}/g, ' ')`: runs of two or more newlines become one
   * space. The result is never longer, starts like the input (a space in
   * place of a leading run), and has no two adjacent newlines left.
   */
  function NewlineRuns(s: string): (r: string)
    ensures |r| <= |s|
    ensures s != [] ==> r != [] && r[0] == if |s| >= 2 && s[0] == '\n' && s[1] == '\n' then ' ' else s[0]
    ensures NoAdjacent(r, IsNewline)
    decreases |s|
  {
    if s == [] then []
    else if |s| >= 2 && s[0] == '\n' && s[1] == '\n' then " " + NewlineRuns(DropWhile(s, IsNewline))
    else [s[0]] + NewlineRuns(s[1..])
  }

  /** A piece of a string with no two adjacent `p`-characters has none either. */
  lemma SliceNoAdjacent(s: string, p: char -> bool, from: nat, to: nat)
    requires from <= to <= |s|
    ensures NoAdjacent(s, p) ==> NoAdjacent(s[from..to], p)
  {
    var r := s[from..to];
    if NoAdjacent(s, p) {
      forall i, j | 0 <= i < j < |r| && j == i + 1 ensures !(p(r[i]) && p(r[j])) {
        assert r[i] == s[from + i] && r[j] == s[from + j];
      }
    }
  }

  /** The first position `StripEdges` keeps: past one leading `-`. */
  function EdgeFrom(s: string): nat {
    if s != [] && s[0] == '-' then 1 else 0
  }

  /** The position `StripEdges` stops at: before one trailing `-` that is not the leading one. */
  function EdgeTo(s: string): (to: nat)
    ensures EdgeFrom(s) <= to <= |s|
  {
    if |s| > EdgeFrom(s) && s[|s| - 1] == '-' then |s| - 1 else |s|
  }

  /** `s.replace(/^-|-$/g, '')`: one leading and one trailing `-` removed. */
  function StripEdges(s: string): (r: string)
    ensures |r| <= |s|
    ensures NoAdjacent(s, IsHyphen) ==>
      && NoAdjacent(r, IsHyphen)
      && (r == [] || (r[0] != '-' && r[|r| - 1] != '-'))
    ensures s == [] || (s[0] != '-' && s[|s| - 1] != '-') ==> r == s
  {
    StripEdgesEnds(s);
    SliceNoAdjacent(s, IsHyphen, EdgeFrom(s), EdgeTo(s));
    s[EdgeFrom(s)..EdgeTo(s)]
  }

  /** `s` is what `StripEdges` keeps, with the leading `-` and the trailing `-` it removed put back. */
  lemma StripEdgesRebuild(s: string)
    ensures s == (if s != [] && s[0] == '-' then "-" else "") + StripEdges(s) +
      (if |s| >= 2 && s[|s| - 1] == '-' then "-" else "")
  {
    var from, to := EdgeFrom(s), EdgeTo(s);
    var front: string := if from == 1 then "-" else "";
    var back: string := if to < |s| then "-" else "";
    assert s[..from] == front;
    assert s[to..] == back;
    assert s == s[..from] + s[from..to] + s[to..];
  }

  /** With no `--` in `s`, what is left after removing one `-` at each end neither starts nor ends with `-`. */
  lemma StripEdgesEnds(s: string)
    ensures var r := s[EdgeFrom(s)..EdgeTo(s)];
      NoAdjacent(s, IsHyphen) ==> r == [] || (r[0] != '-' && r[|r| - 1] != '-')
  {
    var from, to := EdgeFrom(s), EdgeTo(s);
    var r := s[from..to];
    if NoAdjacent(s, IsHyphen) && r != [] {
      assert r[0] == s[from] && r[|r| - 1] == s[to - 1];
      if from == 1 {
        assert IsHyphen(s[0]) && s[1] == r[0];
      }
      if to == |s| - 1 {
        assert IsHyphen(s[|s| - 1]) && s[|s| - 2] == r[|r| - 1];
      }
    }
  }

  lemma StripEdgesChars(s: string, q: char -> bool)
    requires forall i :: 0 <= i < |s| ==> q(s[i])
    ensures forall i :: 0 <= i < |StripEdges(s)| ==> q(StripEdges(s)[i])
  {
    var from := EdgeFrom(s);
    var r := StripEdges(s);
    forall i | 0 <= i < |r| ensures q(r[i]) { assert r[i] == s[from + i]; }
  }

  // ---------------------------------------------------------------------
  // headingToSlug

  /** A well-formed anchor: anchor characters only, no `--`, no `-` at either end. */
  ghost predicate IsAnchor(s: string) {
    && (forall i :: 0 <= i < |s| ==> IsAnchorChar(s[i]))
    && NoAdjacent(s, IsHyphen)
    && (s == [] || (s[0] != '-' && s[|s| - 1] != '-'))
  }

  /** `headingToSlug`: lower-case, drop other characters, whitespace runs to `-`, `-` runs to one, trim `-`. */
  function HeadingToSlug(text: string): (r: string)
    ensures IsAnchor(r)
    ensures forall i :: 0 <= i < |r| ==> !IsWhitespace(r[i]) && !IsUpper(r[i])
  {
    var lowered := Lower(text);
    var kept := Filter(lowered, KeptInHeading);
    var dashed := CollapseRuns(kept, IsWhitespace, '-');
    var single := CollapseRuns(dashed, IsHyphen, '-');
    var r := StripEdges(single);
    forall i | 0 <= i < |lowered| ensures !IsUpper(lowered[i]) { }
    FilterChars(lowered, KeptInHeading, c => !IsUpper(c));
    forall i | 0 <= i < |kept| ensures !IsUpper(kept[i]) && KeptInHeading(kept[i]) { }
    CollapseRunsChars(kept, IsWhitespace, '-', c => !IsUpper(c) && KeptInHeading(c));
    forall i | 0 <= i < |dashed| ensures IsAnchorChar(dashed[i]) { }
    CollapseRunsChars(dashed, IsHyphen, '-', IsAnchorChar);
    StripEdgesChars(single, IsAnchorChar);
    forall i | 0 <= i < |r| ensures !IsWhitespace(r[i]) && !IsUpper(r[i]) {
      AnchorCharIsPlain(r[i]);
    }
    r
  }

  /** Removing edge `-` characters keeps every character other than `-`, in order. */
  lemma StripEdgesKeeps(s: string, q: char -> bool)
    requires !q('-')
    ensures Filter(StripEdges(s), q) == Filter(s, q)
  {
    var r := StripEdges(s);
    var front: string := if s != [] && s[0] == '-' then "-" else "";
    var back: string := if |s| >= 2 && s[|s| - 1] == '-' then "-" else "";
    StripEdgesRebuild(s);
    FilterConcat(front + r, back, q);
    FilterConcat(front, r, q);
    FilterOne('-', q);
    assert Filter(front, q) == [] && Filter(back, q) == [];
  }

  /** An anchor character other than `-`. */
  predicate IsAnchorLetter(c: char) {
    IsAnchorChar(c) && c != '-'
  }

  /** An anchor letter survives the character class and is neither whitespace nor `-`. */
  lemma AnchorLetterClasses()
    ensures forall x :: IsAnchorLetter(x) ==> KeptInHeading(x) && !IsWhitespace(x) && !IsHyphen(x) && x != '-'
  {
  }

  /**
   * What `headingToSlug` keeps: the lower-cased heading's letters, digits,
   * underscores and CJK characters all survive into the anchor, in order.
   * Since an anchor holds anchor characters only (`HeadingToSlug`'s
   * contract), every other character of it is a `-`.
   */
  lemma HeadingToSlugKeeps(text: string)
    ensures Filter(HeadingToSlug(text), IsAnchorLetter) == Filter(Lower(text), IsAnchorLetter)
  {
    var lowered := Lower(text);
    var kept := Filter(lowered, KeptInHeading);
    var dashed := CollapseRuns(kept, IsWhitespace, '-');
    var single := CollapseRuns(dashed, IsHyphen, '-');
    AnchorLetterClasses();
    FilterFilter(lowered, KeptInHeading, IsAnchorLetter);
    CollapseRunsKeepsOthers(kept, IsWhitespace, '-', IsAnchorLetter);
    CollapseRunsKeepsOthers(dashed, IsHyphen, '-', IsAnchorLetter);
    StripEdgesKeeps(single, IsAnchorLetter);
  }

  lemma LowerOfLower(s: string)
    requires forall i :: 0 <= i < |s| ==> !IsUpper(s[i])
    ensures Lower(s) == s
  {
  }

  /** A well-formed anchor is its own anchor. */
  lemma AnchorIsFixedPoint(s: string)
    requires IsAnchor(s)
    ensures HeadingToSlug(s) == s
  {
    forall i | 0 <= i < |s| ensures !IsUpper(s[i]) && !IsWhitespace(s[i]) && KeptInHeading(s[i]) {
      AnchorCharIsPlain(s[i]);
    }
    LowerOfLower(s);
    assert Filter(s, KeptInHeading) == s;
    CollapseRunsIdentity(s, IsWhitespace, '-');
    CollapseRunsIdentity(s, IsHyphen, '-');
  }

  /** `headingToSlug` is idempotent. */
  lemma HeadingToSlugIdempotent(text: string)
    ensures HeadingToSlug(HeadingToSlug(text)) == HeadingToSlug(text)
  {
    AnchorIsFixedPoint(HeadingToSlug(text));
  }

  // ---------------------------------------------------------------------
  // cleanText

  /**
   * `cleanText`. The removal of imports, JSX elements, code, link and image
   * syntax, emphasis and heading markers is the parameter `strip`; the two
   * whitespace passes and the final `trim` follow.
   */
  function CleanText(strip: string -> string, text: string): (r: string)
    ensures r == [] || (!IsWhitespace(r[0]) && !IsWhitespace(r[|r| - 1]))
    ensures NoAdjacent(r, IsWhitespace)
    ensures forall i :: 0 <= i < |r| && IsWhitespace(r[i]) ==> r[i] == ' '
  {
    var n := NewlineRuns(strip(text));
    CollapseAndTrim(n);
    Trim(CollapseRuns(n, IsWhitespace, ' '))
  }

  lemma CollapseAndTrim(s: string)
    ensures var r := Trim(CollapseRuns(s, IsWhitespace, ' '));
      && NoAdjacent(r, IsWhitespace)
      && (forall i :: 0 <= i < |r| && IsWhitespace(r[i]) ==> r[i] == ' ')
  {
    TrimKeepsSpacing(CollapseRuns(s, IsWhitespace, ' '));
  }

  /** Trimming a string keeps its single, plain spaces between words. */
  lemma TrimKeepsSpacing(s: string)
    requires NoAdjacent(s, IsWhitespace)
    requires forall i :: 0 <= i < |s| ==> s[i] == ' ' || !IsWhitespace(s[i])
    ensures var r := Trim(s);
      && NoAdjacent(r, IsWhitespace)
      && (forall i :: 0 <= i < |r| && IsWhitespace(r[i]) ==> r[i] == ' ')
  {
    var r := Trim(s);
    var a := |s| - |TrimStart(s)|;
    forall i | 0 <= i < |r| ensures r[i] == s[a + i] { }
  }

  // ---------------------------------------------------------------------
  // Frontmatter

  /**
   * `s.replace(/^---\n[\s\S]*?\n---\n?/, '')`: when the text opens with
   * `---` and a newline, everything up to the first later `\n---` and one
   * newline after it is removed.
   */
  function StripFrontmatter(s: string): (r: string)
    ensures |r| <= |s| && r == s[|s| - |r|..]
    ensures !StartsWith(s, "---\n") ==> r == s
    ensures StartsWith(s, "---\n") && IndexFrom(s, "\n---", 4) == -1 ==> r == s
    ensures StartsWith(s, "---\n") && IndexFrom(s, "\n---", 4) != -1 ==>
      var e := IndexFrom(s, "\n---", 4) + 4;
      r == (if e < |s| && s[e] == '\n' then s[e + 1..] else s[e..])
  {
    if StartsWith(s, "---\n") then
      var p := IndexFrom(s, "\n---", 4);
      if p == -1 then s
      else
        var e := p + 4;
        if e < |s| && s[e] == '\n' then s[e + 1..] else s[e..]
    else s
  }

  /** `\n---` cannot start inside `fm` when `fm` holds no `\n---` of its own. */
  lemma NoCloserInside(fm: string, body: string, q: int)
    requires forall k :: !OccursAt(fm, "\n---", k)
    requires 4 <= q < 4 + |fm|
    ensures !OccursAt("---\n" + fm + "\n---\n" + body, "\n---", q)
  {
    var s := "---\n" + fm + "\n---\n" + body;
    var tail := "\n---\n" + body;
    var k := q - 4;
    assert s == "---\n" + (fm + tail);
    assert k + 4 <= |s| - 4;
    assert s[q..q + 4] == (fm + tail)[k..k + 4];
    if k + 4 <= |fm| {
      assert (fm + tail)[k..k + 4] == fm[k..k + 4];
      assert !OccursAt(fm, "\n---", k);
    } else {
      // A match would straddle the end of `fm`: its character at offset
      // `|fm| - k` would be the newline that opens the closing delimiter.
      var l := |fm| - k;
      assert (fm + tail)[k..k + 4][l] == tail[0];
      assert "\n---"[l] == '-';
    }
  }

  /** Frontmatter delimited by `---` lines is removed together with the closing newline. */
  lemma StripFrontmatterOf(fm: string, body: string)
    requires forall k :: !OccursAt(fm, "\n---", k)
    ensures StripFrontmatter("---\n" + fm + "\n---\n" + body) == body
  {
    var s := "---\n" + fm + "\n---\n" + body;
    var p := 4 + |fm|;
    assert s[p..p + 4] == "\n---";
    assert OccursAt(s, "\n---", p);
    forall q | 4 <= q < p ensures !OccursAt(s, "\n---", q) {
      NoCloserInside(fm, body, q);
    }
    assert StartsWith(s, "---\n");
    var i := IndexFrom(s, "\n---", 4);
    assert i == p;
    assert s[p + 4] == '\n';
    assert s[p + 5..] == body;
  }

  // ---------------------------------------------------------------------
  // Heading lines

  /** The length of the `#` run that `(#{2,3})` takes. */
  function HeadingLevel(line: string): nat {
    if StartsWith(line, "###") then 3 else if StartsWith(line, "##") then 2 else 0
  }

  predicate NoLineTerminator(s: string) {
    forall i :: 0 <= i < |s| ==> !IsLineTerminator(s[i])
  }

  /**
   * `line.match(/^(#{2,3})\s+(.+)$/)` succeeds: after the hashes, a
   * non-empty run of whitespace, then a non-empty rest free of line
   * terminators up to the end of the line.
   */
  predicate IsHeading(line: string) {
    var level := HeadingLevel(line);
    level > 0 &&
      var rest := line[level..];
      exists j :: 1 <= j < |rest| && IsBlank(rest[..j]) && NoLineTerminator(rest[j..])
  }

  /** `headingMatch[2].trim()`: whichever split the match settles on, the trimmed title is the same. */
  function HeadingTitle(line: string): string
  {
    Trim(line[HeadingLevel(line)..])
  }

  /** Leading whitespace, blank up to `j`, is trimmed away whether or not the first `j` characters are cut off first. */
  lemma TrimStartBlankPrefix(s: string, j: nat)
    requires j <= |s| && IsBlank(s[..j])
    ensures TrimStart(s) == TrimStart(s[j..])
  {
    var r := TrimStart(s[j..]);
    assert r == s[|s| - |r|..];
    forall i | 0 <= i < |s| - |r| ensures IsWhitespace(s[i]) {
      if i < j {
        assert s[i] == s[..j][i];
      } else {
        assert s[i] == s[j..][i - j];
      }
    }
    DropWhileUnique(s, IsWhitespace, r);
  }

  /** The captured title, trimmed, is the heading title for every way the match can split the line. */
  lemma HeadingTitleOfCapture(line: string, j: nat)
    requires IsHeading(line)
    requires var rest := line[HeadingLevel(line)..]; 1 <= j < |rest| && IsBlank(rest[..j])
    ensures Trim(line[HeadingLevel(line)..][j..]) == HeadingTitle(line)
  {
    var rest := line[HeadingLevel(line)..];
    TrimStartBlankPrefix(rest, j);
    TrimWithStart(rest, IsWhitespace);
    TrimWithStart(rest[j..], IsWhitespace);
  }

  /** `## Setup` is a heading titled `Setup`. */
  lemma HeadingLevelTwo()
    ensures IsHeading("## Setup") && HeadingTitle("## Setup") == "Setup"
  {
    var line := "## Setup";
    assert HeadingLevel(line) == 2 by { assert line[..3][2] == ' '; }
    var rest := line[2..];
    assert rest == " Setup";
    assert rest[..1] == " " && rest[1..] == "Setup";
    assert IsHeading(line);
    TrimSetup();
  }

  /** `### Setup` is a heading titled `Setup`. */
  lemma HeadingLevelThree()
    ensures IsHeading("### Setup") && HeadingTitle("### Setup") == "Setup"
  {
    var line := "### Setup";
    assert HeadingLevel(line) == 3 by { assert line[..3] == "###"; }
    var rest := line[3..];
    assert rest == " Setup";
    assert rest[..1] == " " && rest[1..] == "Setup";
    assert IsHeading(line);
    TrimSetup();
  }

  /** One leading space before a word with no whitespace at its ends is trimmed away. */
  lemma TrimLeadingSpace(w: string)
    requires w != [] && !IsWhitespace(w[0]) && !IsWhitespace(w[|w| - 1])
    ensures Trim([' '] + w) == w
  {
    var s := [' '] + w;
    assert s[1..] == w && IsWhitespace(s[0]);
    DropWhileUnique(s, IsWhitespace, w);
    assert DropLastWhile(w, IsWhitespace) == w;
  }

  lemma TrimSetup()
    ensures Trim(" Setup") == "Setup"
  {
    assert " Setup" == [' '] + "Setup";
    TrimLeadingSpace("Setup");
  }

  /** Four hashes are not a heading: the whitespace must follow at most three. */
  lemma HeadingLevelFourIsNot()
    ensures !IsHeading("#### Setup")
  {
    var line := "#### Setup";
    assert HeadingLevel(line) == 3 by { assert line[..3] == "###"; }
    var rest := line[3..];
    forall j | 1 <= j < |rest| ensures !IsBlank(rest[..j]) {
      assert rest[..j][0] == '#';
    }
  }

  /** The hashes must be followed by whitespace. */
  lemma HeadingWithoutSpaceIsNot()
    ensures !IsHeading("##Setup")
  {
    var line := "##Setup";
    assert HeadingLevel(line) == 2 by { assert line[..3][2] == 'S'; }
    var rest := line[2..];
    forall j | 1 <= j < |rest| ensures !IsBlank(rest[..j]) {
      assert rest[..j][0] == 'S';
    }
  }

  /** A heading line that still carries the carriage return of a CRLF file is not recognised. */
  lemma CrlfHeadingIsNotHeading()
    ensures !IsHeading("## Setup\r")
  {
    var line := "## Setup\r";
    assert HeadingLevel(line) == 2 by { assert line[..3][2] == ' '; }
    var rest := line[2..];
    forall j | 1 <= j < |rest| && IsBlank(rest[..j]) ensures !NoLineTerminator(rest[j..]) {
      assert rest[j..][|rest| - 1 - j] == '\r';
    }
  }
}
