/**
 * The query-side text helpers of the search dialog (components/search.tsx
 * and its near copy apps/docs/components/search.tsx): splitting a query into
 * words, highlighting the words in a text, the content snippet around the
 * first match, the breadcrumb, the section test and the navigation target.
 */
module SearchText {
  import opened Strings
  import opened IndexText
  import SearchIndex
  import Content

  /** A search hit as the dialog reads it; `groupTitle` is `None` when the document has none. */
  datatype SearchResult = SearchResult(
    id: string, title: string, pageTitle: string, groupTitle: Option<string>,
    content: string, path: string, locale: string)

  /** The hit for a generated document: the generator never writes a group title. */
  function FromDocument(d: SearchIndex.SearchDocument): SearchResult {
    SearchResult(d.id, d.title, d.pageTitle, None, d.content, d.path, d.locale)
  }

  // ---------------------------------------------------------------------
  // Query words: `query.toLowerCase().split(/\s+/).filter(Boolean)`

  predicate NoWhitespace(s: string) {
    forall i :: 0 <= i < |s| ==> !IsWhitespace(s[i])
  }

  /** The longest prefix of `s` without whitespace. */
  function WordPrefix(s: string): (r: string)
    ensures |r| <= |s| && r == s[..|r|]
    ensures NoWhitespace(r)
    ensures |r| < |s| ==> IsWhitespace(s[|r|])
    ensures s != [] && !IsWhitespace(s[0]) ==> r != []
  {
    if s == [] || IsWhitespace(s[0]) then [] else [s[0]] + WordPrefix(s[1..])
  }

  /** The maximal runs of non-whitespace characters of `s`, in order. */
  function Words(s: string): seq<string>
    decreases |s|
  {
    if s == [] then []
    else if IsWhitespace(s[0]) then Words(s[1..])
    else
      var w := WordPrefix(s);
      [w] + Words(s[|w|..])
  }

  /** Every word is non-empty and free of whitespace, and there are none exactly when `s` is blank. */
  lemma {:induction false} WordsShape(s: string)
    ensures forall k :: 0 <= k < |Words(s)| ==> Words(s)[k] != [] && NoWhitespace(Words(s)[k])
    ensures Words(s) == [] <==> IsBlank(s)
    decreases |s|
  {
    if s == [] {
    } else if IsWhitespace(s[0]) {
      WordsShape(s[1..]);
      assert IsBlank(s) <==> IsBlank(s[1..]) by {
        assert forall i :: 1 <= i < |s| ==> s[i] == s[1..][i - 1];
      }
    } else {
      var w := WordPrefix(s);
      WordsShape(s[|w|..]);
      var rest := Words(s[|w|..]);
      assert Words(s) == [w] + rest;
      forall k | 0 <= k < |Words(s)| ensures Words(s)[k] != [] && NoWhitespace(Words(s)[k]) {
        if k > 0 {
          assert Words(s)[k] == rest[k - 1];
        }
      }
    }
  }

  /** The words of a query, lower-cased. */
  function QueryWords(query: string): seq<string> {
    Words(Lower(query))
  }

  /** Lower-casing keeps whitespace where it is, so a query has no words exactly when it is blank. */
  lemma QueryWordsBlank(query: string)
    ensures QueryWords(query) == [] <==> IsBlank(query)
    ensures QueryWords(query) == [] <==> Trim(query) == []
  {
    WordsShape(Lower(query));
    assert IsBlank(Lower(query)) <==> IsBlank(query) by {
      var l := Lower(query);
      assert forall i :: 0 <= i < |query| ==> (IsWhitespace(l[i]) <==> IsWhitespace(query[i]));
    }
  }

  /** Every query word is non-empty and free of whitespace. */
  lemma QueryWordsShape(query: string, k: nat)
    requires k < |QueryWords(query)|
    ensures QueryWords(query)[k] != [] && NoWhitespace(QueryWords(query)[k])
  {
    WordsShape(Lower(query));
  }

  lemma QueryWordsNonEmpty(query: string)
    ensures NonEmptyWords(QueryWords(query))
  {
    WordsShape(Lower(query));
  }

  // ---------------------------------------------------------------------
  // highlightText

  datatype Segment = Plain(text: string) | Marked(text: string)

  /** The regular expression `(w1|w2|...)` with flag `i` matches word `w` at `q`. */
  predicate MatchesAt(text: string, w: string, q: nat) {
    q + |w| <= |text| && Lower(text[q..q + |w|]) == Lower(w)
  }

  /** No word before position `k` of `words` matches at `q`. */
  predicate NoEarlierMatch(text: string, words: seq<string>, k: nat, q: nat)
    requires k <= |words|
  {
    forall j :: 0 <= j < k ==> !MatchesAt(text, words[j], q)
  }

  /** The alternative the regular expression takes at `q`: the first word, in query order, that matches there. */
  function FirstMatch(text: string, words: seq<string>, q: nat): (r: Option<string>)
    ensures r.Some? ==> r.value in words && q + |r.value| <= |text|
  {
    if words == [] then None
    else if MatchesAt(text, words[0], q) then Some(words[0])
    else
      var r := FirstMatch(text, words[1..], q);
      assert r.Some? ==> r.value in words[1..] && q + |r.value| <= |text|;
      r
  }

  /** The alternative taken matches, every earlier one does not, and there is none exactly when no word matches. */
  lemma {:induction false} FirstMatchSpec(text: string, words: seq<string>, q: nat)
    ensures var r := FirstMatch(text, words, q);
      && (r.Some? ==> MatchesAt(text, r.value, q))
      && (r.Some? ==> exists k :: 0 <= k < |words| && words[k] == r.value && NoEarlierMatch(text, words, k, q))
      && (r.None? <==> forall w :: w in words ==> !MatchesAt(text, w, q))
  {
    if words == [] {
    } else if MatchesAt(text, words[0], q) {
      assert NoEarlierMatch(text, words, 0, q);
    } else {
      FirstMatchSpec(text, words[1..], q);
      var r := FirstMatch(text, words[1..], q);
      assert FirstMatch(text, words, q) == r;
      assert forall w :: w in words ==> w == words[0] || w in words[1..];
      if r.Some? {
        var k :| 0 <= k < |words[1..]| && words[1..][k] == r.value && NoEarlierMatch(text, words[1..], k, q);
        assert forall j :: 1 <= j < k + 1 ==> words[j] == words[1..][j - 1];
        assert NoEarlierMatch(text, words, k + 1, q);
      }
    }
  }

  predicate NonEmptyWords(words: seq<string>) {
    forall k :: 0 <= k < |words| ==> words[k] != []
  }

  /**
   * A matcher fits a text when every word it reports at a position of the
   * text is non-empty and lies inside the text.
   */
  predicate Fits(text: string, at: nat -> Option<string>) {
    forall q: nat :: q < |text| && at(q).Some? ==> at(q).value != [] && q + |at(q).value| <= |text|
  }

  /**
   * `text.split(pattern)` for a capturing pattern whose match at each
   * position is `at`: scanning from `q`, the piece since `p` ends where a
   * match starts, and the match itself follows as a part of its own; the
   * last piece runs to the end of the text.
   */
  function SplitBy(text: string, at: nat -> Option<string>, p: nat, q: nat): (parts: seq<string>)
    requires Fits(text, at)
    requires p <= q <= |text|
    decreases |text| - q
  {
    if q == |text| then [text[p..]]
    else
      match at(q)
      case None => SplitBy(text, at, p, q + 1)
      case Some(w) => [text[p..q], text[q..q + |w|]] + SplitBy(text, at, q + |w|, q + |w|)
  }

  /** The pattern `(w1|w2|...)` with flag `i`, as a matcher on `text`. */
  function MatchAt(text: string, words: seq<string>): nat -> Option<string> {
    (q: nat) => FirstMatch(text, words, q)
  }

  lemma MatchAtFits(text: string, words: seq<string>)
    requires NonEmptyWords(words)
    ensures Fits(text, MatchAt(text, words))
  {
    forall q: nat | q < |text| && MatchAt(text, words)(q).Some?
      ensures MatchAt(text, words)(q).value != []
    {
      var w := FirstMatch(text, words, q).value;
      var k :| 0 <= k < |words| && words[k] == w;
    }
  }

  /** `text.split(new RegExp(`(${words.join("|")})`, "gi"))`. */
  function SplitParts(text: string, words: seq<string>): seq<string>
    requires NonEmptyWords(words)
  {
    MatchAtFits(text, words);
    SplitBy(text, MatchAt(text, words), 0, 0)
  }

  /** `part.toLowerCase() === w.toLowerCase()` for some word. */
  predicate IsWordPart(part: string, words: seq<string>) {
    exists w :: w in words && Lower(part) == Lower(w)
  }

  /** `IsWordPart` as a test on parts. */
  function WordTest(words: seq<string>): string -> bool {
    part => IsWordPart(part, words)
  }

  function MarkParts(parts: seq<string>, words: seq<string>): (segments: seq<Segment>)
    ensures |segments| == |parts|
  {
    seq(|parts|, k requires 0 <= k < |parts| =>
      if IsWordPart(parts[k], words) then Marked(parts[k]) else Plain(parts[k]))
  }

  /** `highlightText`: the text unchanged for a blank query or an empty text, else its parts with the query words marked. */
  function Highlight(text: string, query: string): seq<Segment> {
    if Trim(query) == [] || text == [] then [Plain(text)]
    else
      var words := QueryWords(query);
      if words == [] then [Plain(text)]
      else
        QueryWordsNonEmpty(query);
        MarkParts(SplitParts(text, words), words)
  }

  function Concat(segments: seq<Segment>): string {
    if segments == [] then [] else segments[0].text + Concat(segments[1..])
  }

  function ConcatParts(parts: seq<string>): string {
    if parts == [] then [] else parts[0] + ConcatParts(parts[1..])
  }

  /** Splitting loses nothing: the parts from `q` on join to the text from `p` on. */
  lemma {:induction false} SplitByConcat(text: string, at: nat -> Option<string>, p: nat, q: nat)
    requires Fits(text, at)
    requires p <= q <= |text|
    ensures ConcatParts(SplitBy(text, at, p, q)) == text[p..]
    decreases |text| - q
  {
    if q < |text| {
      match at(q)
      case None =>
        SplitByConcat(text, at, p, q + 1);
      case Some(w) =>
        var e := q + |w|;
        SplitByConcat(text, at, e, e);
        var rest := SplitBy(text, at, e, e);
        assert SplitBy(text, at, p, q) == [text[p..q], text[q..e]] + rest;
        assert ([text[p..q], text[q..e]] + rest)[1..] == [text[q..e]] + rest;
        assert ([text[q..e]] + rest)[1..] == rest;
        assert text[p..] == text[p..q] + (text[q..e] + text[e..]);
    }
  }

  lemma SplitPartsConcat(text: string, words: seq<string>)
    requires NonEmptyWords(words)
    ensures ConcatParts(SplitParts(text, words)) == text
  {
    MatchAtFits(text, words);
    SplitByConcat(text, MatchAt(text, words), 0, 0);
  }

  lemma {:induction false} MarkPartsConcat(parts: seq<string>, words: seq<string>)
    ensures Concat(MarkParts(parts, words)) == ConcatParts(parts)
  {
    if parts != [] {
      MarkPartsConcat(parts[1..], words);
      assert MarkParts(parts, words)[1..] == MarkParts(parts[1..], words);
    }
  }

  /** Joining the highlighted segments gives back the text. */
  lemma HighlightReconstructs(text: string, query: string)
    ensures Concat(Highlight(text, query)) == text
  {
    if !(Trim(query) == [] || text == []) && QueryWords(query) != [] {
      var words := QueryWords(query);
      QueryWordsNonEmpty(query);
      SplitPartsConcat(text, words);
      MarkPartsConcat(SplitParts(text, words), words);
    } else {
      assert Concat([Plain(text)]) == text + Concat([]);
    }
  }

  /** A blank query or an empty text leaves the text as one plain segment. */
  lemma HighlightGuard(text: string, query: string)
    requires IsBlank(query) || text == []
    ensures Highlight(text, query) == [Plain(text)]
  {
  }

  /** A piece starting where no word matches is not itself a word. */
  lemma GapIsNoWord(text: string, words: seq<string>, a: nat, b: nat)
    requires a < b <= |text|
    requires FirstMatch(text, words, a).None?
    ensures !IsWordPart(text[a..b], words)
  {
    var gap := text[a..b];
    forall w | w in words ensures Lower(gap) != Lower(w) {
      if |w| == |gap| {
        FirstMatchSpec(text, words, a);
        assert text[a..a + |w|] == gap;
        assert !MatchesAt(text, w, a);
      }
    }
  }

  /** Parts alternate when there is an odd number of them and exactly those at odd positions pass `isWord`. */
  predicate Alternates(parts: seq<string>, isWord: string -> bool) {
    && |parts| % 2 == 1
    && (forall k :: 0 <= k < |parts| ==> (isWord(parts[k]) <==> k % 2 == 1))
  }

  /** A piece that fails `isWord`, then a match that passes it, in front of alternating parts. */
  lemma AlternatesCons(gap: string, m: string, rest: seq<string>, isWord: string -> bool)
    requires !isWord(gap) && isWord(m) && Alternates(rest, isWord)
    ensures Alternates([gap, m] + rest, isWord)
  {
    var parts := [gap, m] + rest;
    forall k | 0 <= k < |parts| ensures isWord(parts[k]) <==> k % 2 == 1 {
      if k >= 2 {
        assert parts[k] == rest[k - 2];
      }
    }
  }

  /**
   * The parts alternate: the pieces between matches (even positions) fail
   * `isWord` and the captured matches (odd positions) pass it, provided
   * every match passes it, the empty piece fails it, and so does every
   * piece starting where nothing matches.
   */
  lemma {:induction false} SplitByAlternate(text: string, at: nat -> Option<string>, isWord: string -> bool, p: nat, q: nat)
    requires Fits(text, at)
    requires p <= q <= |text|
    requires !isWord([])
    requires forall r: nat :: r < |text| && at(r).Some? && r + |at(r).value| <= |text| ==> isWord(text[r..r + |at(r).value|])
    requires forall a: nat, b: nat :: a < b <= |text| && at(a).None? ==> !isWord(text[a..b])
    requires p == q || at(p).None?
    ensures Alternates(SplitBy(text, at, p, q), isWord)
    decreases |text| - q
  {
    if q == |text| {
      assert SplitBy(text, at, p, q) == [text[p..]];
      assert text[p..] == text[p..q];
      if p == q { assert text[p..q] == []; }
    } else {
      match at(q)
      case None =>
        SplitByAlternate(text, at, isWord, p, q + 1);
      case Some(w) =>
        var e := q + |w|;
        SplitByAlternate(text, at, isWord, e, e);
        assert !isWord(text[p..q]) by {
          if p == q { assert text[p..q] == []; }
        }
        AlternatesCons(text[p..q], text[q..e], SplitBy(text, at, e, e), isWord);
    }
  }

  /** The parts of the highlight split alternate between non-words and query words. */
  lemma SplitPartsAlternate(text: string, words: seq<string>)
    requires NonEmptyWords(words)
    ensures var parts := SplitParts(text, words);
      && |parts| % 2 == 1
      && (forall k :: 0 <= k < |parts| ==> (IsWordPart(parts[k], words) <==> k % 2 == 1))
  {
    MatchAtFits(text, words);
    var at := MatchAt(text, words);
    var isWord := WordTest(words);
    forall w | w in words ensures Lower([]) != Lower(w) {
      var k :| 0 <= k < |words| && words[k] == w;
    }
    assert !isWord([]);
    forall r: nat | r < |text| && at(r).Some? && r + |at(r).value| <= |text|
      ensures isWord(text[r..r + |at(r).value|])
    {
      FirstMatchSpec(text, words, r);
    }
    forall a: nat, b: nat | a < b <= |text| && at(a).None?
      ensures !isWord(text[a..b])
    {
      GapIsNoWord(text, words, a, b);
    }
    SplitByAlternate(text, at, isWord, 0, 0);
  }

  /** A segment is marked exactly when it is a captured match, that is, when it case-insensitively equals a query word. */
  lemma HighlightMarking(text: string, query: string)
    requires !IsBlank(query) && text != []
    ensures var segments := Highlight(text, query);
      && |segments| % 2 == 1
      && forall k :: 0 <= k < |segments| ==>
           (segments[k].Marked? <==> k % 2 == 1) &&
           (segments[k].Marked? <==> IsWordPart(segments[k].text, QueryWords(query)))
  {
    QueryWordsBlank(query);
    var words := QueryWords(query);
    QueryWordsNonEmpty(query);
    SplitPartsAlternate(text, words);
  }

  // ---------------------------------------------------------------------
  // getContentSnippet

  /** One step of the loop: keep the smaller found position. */
  function Earlier(matchIndex: int, idx: int): int {
    if idx != -1 && (matchIndex == -1 || idx < matchIndex) then idx else matchIndex
  }

  /** The loop's result over `words`: the smallest `indexOf` of the words in `lc`, or -1 when none occurs. */
  function MatchIndex(lc: string, words: seq<string>): int {
    if words == [] then -1
    else Earlier(MatchIndex(lc, words[..|words| - 1]), IndexOf(lc, Last(words)))
  }

  /** The match index is -1 exactly when no word occurs, is otherwise the position of some word, and no word occurs earlier. */
  lemma {:induction false} MatchIndexSpec(lc: string, words: seq<string>)
    ensures MatchIndex(lc, words) == -1 <==> forall k :: 0 <= k < |words| ==> IndexOf(lc, words[k]) == -1
    ensures MatchIndex(lc, words) != -1 ==> exists k :: 0 <= k < |words| && IndexOf(lc, words[k]) == MatchIndex(lc, words)
    ensures forall k :: 0 <= k < |words| && IndexOf(lc, words[k]) != -1 ==> MatchIndex(lc, words) <= IndexOf(lc, words[k])
  {
    if words != [] {
      var init := words[..|words| - 1];
      MatchIndexSpec(lc, init);
      assert forall k :: 0 <= k < |init| ==> init[k] == words[k];
      var m := MatchIndex(lc, init);
      if m != -1 && MatchIndex(lc, words) == m {
        var k :| 0 <= k < |init| && IndexOf(lc, init[k]) == m;
        assert IndexOf(lc, words[k]) == m;
      }
    }
  }

  /** No query word occurs in the lower-cased content before the match index. */
  lemma MatchIndexIsFirst(lc: string, words: seq<string>, w: string, j: int)
    requires w in words && 0 <= j
    requires MatchIndex(lc, words) == -1 || j < MatchIndex(lc, words)
    ensures !OccursAt(lc, w, j)
  {
    MatchIndexSpec(lc, words);
    var k :| 0 <= k < |words| && words[k] == w;
    if IndexOf(lc, w) != -1 {
      assert j < IndexOf(lc, w);
    }
  }

  /** The `for (const word of words)` loop of `getContentSnippet`. */
  method FindMatchIndex(lc: string, words: seq<string>) returns (matchIndex: int)
    ensures matchIndex == MatchIndex(lc, words)
  {
    matchIndex := -1;
    for k := 0 to |words|
      invariant matchIndex == MatchIndex(lc, words[..k])
    {
      var idx := IndexOf(lc, words[k]);
      assert words[..k + 1][..k] == words[..k];
      if idx != -1 && (matchIndex == -1 || idx < matchIndex) {
        matchIndex := idx;
      }
    }
    assert words[..|words|] == words;
  }

  /** The window and its ellipses around a match at `i`. */
  function Window(content: string, i: int, maxLength: nat): string {
    var start := Max(0, i - 30);
    var end := Min(|content|, i + maxLength - 30);
    (if start > 0 then "..." else "") + JsSlice(content, start, end) + (if end < |content| then "..." else "")
  }

  /** The snippet once the match index `i` is known: the start of the content when there is no match, else the window. */
  function SnippetAround(content: string, i: int, maxLength: nat): string {
    if i == -1 then Take(content, maxLength) + (if |content| > maxLength then "..." else "")
    else Window(content, i, maxLength)
  }

  /** The snippet for the lower-cased content `lc` and the query words `words`. */
  function SnippetOf(content: string, lc: string, words: seq<string>, maxLength: nat): string {
    if content == [] then []
    else if words == [] then Take(content, maxLength)
    else SnippetAround(content, MatchIndex(lc, words), maxLength)
  }

  /** `getContentSnippet`. */
  function Snippet(content: string, query: string, maxLength: nat): string {
    SnippetOf(content, Lower(content), QueryWords(query), maxLength)
  }

  /** `getContentSnippet`, with its loop over the query words. */
  method GetContentSnippet(content: string, query: string, maxLength: nat) returns (snippet: string)
    ensures snippet == Snippet(content, query, maxLength)
  {
    snippet := SnippetOfWords(content, Lower(content), QueryWords(query), maxLength);
  }

  /** The body of `getContentSnippet` once the query words and the lower-cased content are known. */
  method SnippetOfWords(content: string, lowerContent: string, words: seq<string>, maxLength: nat) returns (snippet: string)
    ensures snippet == SnippetOf(content, lowerContent, words, maxLength)
  {
    if content == [] {
      return [];
    }
    if |words| == 0 {
      return Take(content, maxLength);
    }
    var matchIndex := FindMatchIndex(lowerContent, words);
    snippet := SnippetAt(content, matchIndex, maxLength);
  }

  /** The end of `getContentSnippet`: cut the window around the match, or the start when there is none. */
  method SnippetAt(content: string, matchIndex: int, maxLength: nat) returns (snippet: string)
    ensures snippet == SnippetAround(content, matchIndex, maxLength)
  {
    if matchIndex == -1 {
      return Take(content, maxLength) + (if |content| > maxLength then "..." else "");
    }
    var start := Max(0, matchIndex - 30);
    var end := Min(|content|, matchIndex + maxLength - 30);
    snippet := JsSlice(content, start, end);
    ghost var slice := snippet;
    if start > 0 {
      snippet := "..." + snippet;
    } else {
      assert snippet == "" + slice;
    }
    if end < |content| {
      snippet := snippet + "...";
    } else {
      assert snippet == snippet + "";
    }
  }

  /** Empty content gives an empty snippet. */
  lemma SnippetEmpty(query: string, maxLength: nat)
    ensures Snippet("", query, maxLength) == ""
  {
  }

  /** A query without words gives the first `maxLength` characters, with no ellipsis. */
  lemma SnippetNoWords(content: string, query: string, maxLength: nat)
    requires content != [] && IsBlank(query)
    ensures Snippet(content, query, maxLength) == Take(content, maxLength)
    ensures |Snippet(content, query, maxLength)| <= maxLength
  {
    QueryWordsBlank(query);
  }

  /** When no word occurs anywhere in `lc`, the match index is -1. */
  lemma NoOccurrenceNoMatch(lc: string, words: seq<string>)
    requires forall w, j :: w in words ==> !OccursAt(lc, w, j)
    ensures MatchIndex(lc, words) == -1
  {
    forall k | 0 <= k < |words| ensures IndexOf(lc, words[k]) == -1 {
      assert words[k] in words;
    }
    MatchIndexSpec(lc, words);
  }

  /** Without any occurrence, the start of the content, with `...` exactly when it was cut. */
  lemma SnippetNoMatch(content: string, query: string, maxLength: nat)
    requires content != [] && !IsBlank(query)
    requires forall w, j :: w in QueryWords(query) ==> !OccursAt(Lower(content), w, j)
    ensures Snippet(content, query, maxLength) ==
      Take(content, maxLength) + (if |content| > maxLength then "..." else "")
  {
    QueryWordsBlank(query);
    NoOccurrenceNoMatch(Lower(content), QueryWords(query));
  }

  /**
   * The window around a match at `i`: at most `maxLength` characters from
   * `max(0, i-30)` to `min(len, i+maxLength-30)`, with `...` in front exactly
   * when the window does not start the content and `...` behind exactly when
   * it does not end it. The window starts at or before the match and, when
   * `maxLength > 30`, takes in its first character.
   */
  predicate WindowAround(content: string, i: int, maxLength: nat, snippet: string) {
    var start := Max(0, i - 30);
    var end := Min(|content|, i + maxLength - 30);
    && 0 <= start <= i <= end <= |content|
    && (maxLength > 30 ==> i < end)
    && end - start <= maxLength
    && snippet == (if start > 0 then "..." else "") + content[start..end] + (if end < |content| then "..." else "")
  }

  /** For `maxLength >= 30`, the window of a match inside the content is at most `maxLength` long and holds the match's start. */
  lemma WindowOfMatch(content: string, i: int, maxLength: nat)
    requires maxLength >= 30 && 0 <= i < |content|
    ensures WindowAround(content, i, maxLength, Window(content, i, maxLength))
  {
  }

  /** The match index of non-empty words lies inside the content. */
  lemma MatchIndexInside(lc: string, words: seq<string>)
    requires NonEmptyWords(words) && MatchIndex(lc, words) != -1
    ensures 0 <= MatchIndex(lc, words) < |lc|
  {
    MatchIndexSpec(lc, words);
    var k :| 0 <= k < |words| && IndexOf(lc, words[k]) == MatchIndex(lc, words);
    assert OccursAt(lc, words[k], MatchIndex(lc, words));
    assert words[k] != [];
  }

  /** With a match, the snippet is the window around it. */
  lemma SnippetOfMatch(content: string, lc: string, words: seq<string>, maxLength: nat)
    requires maxLength >= 30 && |lc| == |content| && NonEmptyWords(words)
    requires MatchIndex(lc, words) != -1
    ensures WindowAround(content, MatchIndex(lc, words), maxLength, SnippetOf(content, lc, words, maxLength))
  {
    MatchIndexInside(lc, words);
    WindowOfMatch(content, MatchIndex(lc, words), maxLength);
  }

  /** Around the first match, for `maxLength >= 30`, the snippet is the window `WindowAround` describes. */
  lemma SnippetWindow(content: string, query: string, maxLength: nat)
    requires maxLength >= 30
    requires MatchIndex(Lower(content), QueryWords(query)) != -1
    ensures WindowAround(content, MatchIndex(Lower(content), QueryWords(query)), maxLength, Snippet(content, query, maxLength))
  {
    QueryWordsNonEmpty(query);
    SnippetOfMatch(content, Lower(content), QueryWords(query), maxLength);
  }

  // ---------------------------------------------------------------------
  // Result rendering

  /** `isSection`: the result's path holds a fragment. */
  predicate IsSection(r: SearchResult) {
    '#' in r.path
  }

  predicate Truthy(s: Option<string>) {
    s.Some? && s.value != []
  }

  /** The parts of `getBreadcrumb`. */
  function BreadcrumbParts(r: SearchResult, isSection: bool): seq<string> {
    (if Truthy(r.groupTitle) then [r.groupTitle.value] else []) + [r.pageTitle] +
    (if isSection && r.title != r.pageTitle then [r.title] else [])
  }

  /** `getBreadcrumb`, pushing its parts one by one. */
  method GetBreadcrumb(r: SearchResult, isSection: bool) returns (breadcrumb: string)
    ensures breadcrumb == Join(BreadcrumbParts(r, isSection), " > ")
  {
    var parts: seq<string> := [];
    if Truthy(r.groupTitle) {
      parts := parts + [r.groupTitle.value];
    }
    parts := parts + [r.pageTitle];
    if isSection && r.title != r.pageTitle {
      parts := parts + [r.title];
    }
    assert parts == BreadcrumbParts(r, isSection);
    breadcrumb := Join(parts, " > ");
  }

  /** The breadcrumb is the group title when there is one, then the page title, then the section's own title when it differs. */
  lemma BreadcrumbCases(r: SearchResult, isSection: bool)
    ensures var b := Join(BreadcrumbParts(r, isSection), " > ");
      var tail := if isSection && r.title != r.pageTitle then r.pageTitle + " > " + r.title else r.pageTitle;
      b == if Truthy(r.groupTitle) then r.groupTitle.value + " > " + tail else tail
  {
    var sep := " > ";
    var tailParts := [r.pageTitle] + (if isSection && r.title != r.pageTitle then [r.title] else []);
    if isSection && r.title != r.pageTitle {
      assert tailParts[1..] == [r.title];
    }
    var tail := if isSection && r.title != r.pageTitle then r.pageTitle + sep + r.title else r.pageTitle;
    assert Join(tailParts, sep) == tail;
    if Truthy(r.groupTitle) {
      var parts := [r.groupTitle.value] + tailParts;
      assert BreadcrumbParts(r, isSection) == parts;
      assert parts[1..] == tailParts;
      assert Join(parts, sep) == r.groupTitle.value + sep + tail;
    } else {
      assert BreadcrumbParts(r, isSection) == tailParts;
    }
  }

  /** The second line of the apps copy: the page title under a section whose title differs. */
  predicate ShowsPageTitle(r: SearchResult) {
    IsSection(r) && r.pageTitle != r.title
  }

  /**
   * For the generator's documents, which never carry a group title, the
   * breadcrumb of one copy says what the other shows in two lines: the page
   * title, followed by the section title exactly when the second line is shown.
   */
  lemma BreadcrumbOfDocument(d: SearchIndex.SearchDocument)
    ensures var r := FromDocument(d);
      Join(BreadcrumbParts(r, IsSection(r)), " > ") ==
        if ShowsPageTitle(r) then d.pageTitle + " > " + d.title else d.pageTitle
  {
    BreadcrumbCases(FromDocument(d), IsSection(FromDocument(d)));
  }

  /** `navigateToResult`: the locale, then the result's path. */
  function NavigationTarget(locale: string, r: SearchResult): (target: string)
    ensures StartsWith(target, "/" + locale)
    ensures target[|locale| + 1..] == r.path
  {
    "/" + locale + r.path
  }

  /** Documents at `base` and at fragments of it, for a `base` under `/docs` without `#`. */
  lemma PathKinds(docs: seq<SearchIndex.SearchDocument>, base: string, locale: string)
    requires |docs| >= 1 && '#' !in base && StartsWith(base, "/docs")
    requires docs[0].path == base
    requires forall k :: 1 <= k < |docs| ==> SearchIndex.FragmentOf(docs[k].path, base)
    ensures !IsSection(FromDocument(docs[0]))
    ensures forall k :: 1 <= k < |docs| ==> IsSection(FromDocument(docs[k]))
    ensures forall k :: 0 <= k < |docs| ==> StartsWith(NavigationTarget(locale, FromDocument(docs[k])), "/" + locale + "/docs")
  {
    forall k | 0 <= k < |docs|
      ensures StartsWith(NavigationTarget(locale, FromDocument(docs[k])), "/" + locale + "/docs")
    {
      var path := docs[k].path;
      assert path[..5] == "/docs" by {
        if k > 0 {
          assert path[..5] == path[..|base|][..5];
        }
      }
      var t := NavigationTarget(locale, FromDocument(docs[k]));
      assert t == ("/" + locale) + path;
      assert t[..|locale| + 6] == ("/" + locale) + path[..5];
    }
  }

  /** A slug without `#` gives a base path without `#`. */
  lemma BaseWithoutFragment(slug: string)
    requires '#' !in slug
    ensures '#' !in SearchIndex.BasePath(slug)
  {
    var base := SearchIndex.BasePath(slug);
    if slug != [] {
      assert forall i :: 0 <= i < |base| ==> base[i] == if i < 6 then "/docs/"[i] else slug[i - 6];
    }
  }

  /**
   * A page's intro document is a page hit and each table-of-contents
   * document a section hit, provided the page slug has no `#`; selecting
   * any of them leads under `/{locale}/docs`.
   */
  lemma DocumentKinds(strip: string -> string, read: string -> Option<string>, page: Content.DocPage, locale: string)
    requires '#' !in SearchIndex.SlugString(page.path)
    ensures var docs := SearchIndex.PageDocuments(strip, read, page);
      && !IsSection(FromDocument(docs[0]))
      && (forall k :: 1 <= k < |docs| ==> IsSection(FromDocument(docs[k])))
      && (forall k :: 0 <= k < |docs| ==> StartsWith(NavigationTarget(locale, FromDocument(docs[k])), "/" + locale + "/docs"))
  {
    var docs := SearchIndex.PageDocuments(strip, read, page);
    SearchIndex.PageDocumentPaths(strip, read, page);
    BaseWithoutFragment(SearchIndex.SlugString(page.path));
    PathKinds(docs, SearchIndex.BasePath(SearchIndex.SlugString(page.path)), locale);
  }
}
