/**
 * The search index generator (apps/docs/scripts/generate-search-index.ts):
 * every page becomes one document for its introduction and one per entry of
 * its table of contents, with content taken from the `##`/`###` sections of
 * its MDX source. The page list and the file reader are parameters; a read
 * that fails is `None`. Building the search database itself is not modelled.
 */
module SearchIndex {
  import opened Strings
  import opened Content
  import Slug
  import opened IndexText

  datatype Section = Section(anchor: string, title: string, content: string)

  datatype Parsed = Parsed(intro: string, sections: seq<Section>)

  datatype SearchDocument = SearchDocument(
    id: string, title: string, pageTitle: string, content: string, path: string, locale: string)

  // ---------------------------------------------------------------------
  // Per-page metadata

  /** `extractLocale`: the first path segment when it is a known locale, else `en`. */
  function ExtractLocale(path: string): (r: string)
    ensures r == "cn" || r == "en" || r == "jp"
    ensures var first := Split(path, '/')[0];
      && (first == "cn" || first == "en" || first == "jp" ==> r == first)
      && (first != "cn" && first != "en" && first != "jp" ==> r == "en")
  {
    var first := Split(path, '/')[0];
    if first == "cn" || first == "en" || first == "jp" then first else "en"
  }

  /** A path under a locale folder belongs to that locale; any other path to `en`. */
  lemma ExtractLocaleOfFolder(folder: string, rest: string)
    requires '/' !in folder
    ensures ExtractLocale(folder + "/" + rest) == if folder in ["cn", "en", "jp"] then folder else "en"
  {
    assert folder + "/" + rest == folder + ("/" + rest);
    SplitConcat(folder, "/" + rest, '/');
    assert ("/" + rest)[1..] == rest;
    assert Split("/" + rest, '/')[0] == "";
    assert folder + Split("/" + rest, '/')[0] == folder;
  }

  /** The generator's `pathToSlug`: the page slug joined with `/`. */
  function SlugString(path: string): string {
    Join(Slug.PathToSlug(path), "/")
  }

  /**
   * For a path built from segments, the slug string is the kept segments in
   * their order, joined with `/`, and splitting it again gives them back.
   */
  lemma SlugStringOfSegments(segments: seq<string>)
    requires |segments| >= 1
    requires forall k :: 0 <= k < |segments| ==> '/' !in segments[k]
    ensures SlugString(Join(segments, "/") + ".mdx") == Join(Slug.KeepSegments(segments), "/")
    ensures Slug.KeepSegments(segments) != [] ==>
      Split(SlugString(Join(segments, "/") + ".mdx"), '/') == Slug.KeepSegments(segments)
  {
    Slug.PathToSlugOfSegments(segments);
    var kept := Slug.KeepSegments(segments);
    if kept != [] {
      SplitJoin(kept, '/');
    }
  }

  /** `basePath`: `/docs` for the root page, else `/docs/` and the slug. */
  function BasePath(slug: string): (r: string)
    ensures StartsWith(r, "/docs")
    ensures slug == "" ==> r == "/docs"
    ensures slug != "" ==> r == "/docs/" + slug
  {
    if slug != "" then "/docs/" + slug else "/docs"
  }

  /** `pageTitle`: the frontmatter title, else the last slug segment, else `Untitled`. */
  function PageTitle(title: string, slug: string): (r: string)
    ensures r != ""
    ensures title != "" ==> r == title
    ensures title == "" && Last(Split(slug, '/')) != "" ==> r == Last(Split(slug, '/'))
    ensures title == "" && Last(Split(slug, '/')) == "" ==> r == "Untitled"
  {
    if title != "" then title
    else
      var last := Last(Split(slug, '/'));
      if last != "" then last else "Untitled"
  }

  /** Without a frontmatter title, a page is titled by the last segment of its slug. */
  lemma PageTitleOfSlug(segments: seq<string>)
    requires |segments| >= 1 && Last(segments) != ""
    requires forall k :: 0 <= k < |segments| ==> '/' !in segments[k]
    ensures PageTitle("", Join(segments, "/")) == Last(segments)
  {
    SplitJoin(segments, '/');
  }

  // ---------------------------------------------------------------------
  // parseSections

  /**
   * The positions below `n` of the lines that `heading` accepts, in
   * increasing order. The parser uses it with `IsHeading`; the proofs about
   * the loop hold for any line test.
   */
  function HeadingsBelow(lines: seq<string>, n: nat, heading: string -> bool): (hs: seq<nat>)
    requires n <= |lines|
    ensures forall k :: 0 <= k < |hs| ==> hs[k] < n
    ensures forall a, b :: 0 <= a < b < |hs| ==> hs[a] < hs[b]
  {
    if n == 0 then []
    else HeadingsBelow(lines, n - 1, heading) + if heading(lines[n - 1]) then [n - 1] else []
  }

  /** The positions collected are exactly those of the heading lines below `n`. */
  lemma {:induction false} HeadingsBelowExact(lines: seq<string>, n: nat, heading: string -> bool)
    requires n <= |lines|
    ensures forall i :: 0 <= i < n ==> (i in HeadingsBelow(lines, n, heading) <==> heading(lines[i]))
  {
    if n > 0 {
      HeadingsBelowExact(lines, n - 1, heading);
    }
  }

  /** The section being collected: its title, anchor and lines so far. */
  datatype Current = Current(title: string, anchor: string, lines: seq<string>)

  /**
   * The four line-level operations the parse loop uses: the heading test,
   * the title of a heading line, the anchor of a title and the cleaning of
   * a section's text. The loop is proved for any of them; `MdxParser`
   * gives the generator's own.
   */
  datatype LineOps = LineOps(
    heading: string -> bool, title: string -> string, anchor: string -> string, clean: string -> string)

  function MdxParser(strip: string -> string): LineOps {
    LineOps(IsHeading, HeadingTitle, HeadingToSlug, text => CleanText(strip, text))
  }

  /** The section opened by heading line `h`, holding the lines after it up to `end`. */
  function CurrentAt(ops: LineOps, lines: seq<string>, h: nat, end: nat): Current
    requires h < end <= |lines|
  {
    var title := ops.title(lines[h]);
    Current(title, ops.anchor(title), lines[h + 1..end])
  }

  /** A collected section once saved: its lines joined and cleaned. */
  function Close(ops: LineOps, c: Current): Section {
    Section(c.anchor, c.title, ops.clean(Join(c.lines, "\n")))
  }

  /** The section that heading line `h` opens and the next heading (or the end, `end`) closes. */
  function SectionAt(ops: LineOps, lines: seq<string>, h: nat, end: nat): Section
    requires h < end <= |lines|
  {
    Close(ops, CurrentAt(ops, lines, h, end))
  }

  /** The introduction: the lines before the first heading. */
  function IntroOf(ops: LineOps, lines: seq<string>): string {
    var hs := HeadingsBelow(lines, |lines|, ops.heading);
    ops.clean(Join(lines[..if hs == [] then |lines| else hs[0]], "\n"))
  }

  /** One section per heading, running to the next heading of either level or to the end. */
  function SectionsOf(ops: LineOps, lines: seq<string>): seq<Section> {
    var hs := HeadingsBelow(lines, |lines|, ops.heading);
    seq(|hs|, k requires 0 <= k < |hs| =>
      SectionAt(ops, lines, hs[k], if k + 1 < |hs| then hs[k + 1] else |lines|))
  }

  /** The lines of `text` once its frontmatter is removed. */
  function BodyLines(text: string): seq<string> {
    Split(StripFrontmatter(text), '\n')
  }

  /** What `parseSections` produces, stated over the positions of the heading lines. */
  function ParsedOf(strip: string -> string, text: string): Parsed {
    var lines := BodyLines(text);
    Parsed(IntroOf(MdxParser(strip), lines), SectionsOf(MdxParser(strip), lines))
  }

  /**
   * The loop's state after the first `i` lines, in terms of the headings
   * among them: no section is open before the first heading and the lines
   * so far are the introduction; after it, the last heading's section is
   * open and every earlier heading's section is saved.
   */
  ghost predicate StateAfter(ops: LineOps, lines: seq<string>, i: nat,
                             introLines: seq<string>, sections: seq<Section>, current: Option<Current>)
    requires i <= |lines|
  {
    var hs := HeadingsBelow(lines, i, ops.heading);
    && (current.None? <==> hs == [])
    && introLines == lines[..if hs == [] then i else hs[0]]
    && (current.Some? ==> current.value == CurrentAt(ops, lines, Last(hs), i))
    && |sections| == (if hs == [] then 0 else |hs| - 1)
    && forall k :: 0 <= k < |sections| ==> sections[k] == SectionAt(ops, lines, hs[k], hs[k + 1])
  }

  lemma HeadingsStep(lines: seq<string>, i: nat, heading: string -> bool)
    requires i < |lines|
    ensures HeadingsBelow(lines, i + 1, heading) ==
      HeadingsBelow(lines, i, heading) + if heading(lines[i]) then [i] else []
  {
  }

  /** Before the first line nothing is collected. */
  lemma StateAtStart(ops: LineOps, lines: seq<string>)
    ensures StateAfter(ops, lines, 0, [], [], None)
  {
    assert lines[..0] == [];
  }

  /** The first heading line opens the first section; the introduction is complete. */
  lemma StepFirstHeading(ops: LineOps, lines: seq<string>, i: nat,
                         introLines: seq<string>, sections: seq<Section>)
    requires i < |lines| && ops.heading(lines[i])
    requires StateAfter(ops, lines, i, introLines, sections, None)
    ensures StateAfter(ops, lines, i + 1, introLines, sections, Some(CurrentAt(ops, lines, i, i + 1)))
  {
    HeadingsStep(lines, i, ops.heading);
    assert HeadingsBelow(lines, i + 1, ops.heading) == [i];
  }

  /** A later heading line saves the open section and opens its own. */
  lemma StepNextHeading(ops: LineOps, lines: seq<string>, i: nat,
                        introLines: seq<string>, sections: seq<Section>, c: Current)
    requires i < |lines| && ops.heading(lines[i])
    requires StateAfter(ops, lines, i, introLines, sections, Some(c))
    ensures StateAfter(ops, lines, i + 1, introLines, sections + [Close(ops, c)], Some(CurrentAt(ops, lines, i, i + 1)))
  {
    HeadingsStep(lines, i, ops.heading);
    var hs, hs' := HeadingsBelow(lines, i, ops.heading), HeadingsBelow(lines, i + 1, ops.heading);
    assert hs' == hs + [i];
    var sections' := sections + [Close(ops, c)];
    forall k | 0 <= k < |sections'|
      ensures sections'[k] == SectionAt(ops, lines, hs'[k], hs'[k + 1])
    {
      if k < |sections| {
        assert sections'[k] == sections[k] && hs'[k] == hs[k] && hs'[k + 1] == hs[k + 1];
      } else {
        assert hs'[k] == Last(hs) && hs'[k + 1] == i;
      }
    }
  }

  /** A heading line saves the open section, if any, and opens its own. */
  lemma StepHeading(ops: LineOps, lines: seq<string>, i: nat,
                    introLines: seq<string>, sections: seq<Section>, current: Option<Current>)
    requires i < |lines| && ops.heading(lines[i])
    requires StateAfter(ops, lines, i, introLines, sections, current)
    ensures StateAfter(ops, lines, i + 1, introLines,
      if current.Some? then sections + [Close(ops, current.value)] else sections,
      Some(Current(ops.title(lines[i]), ops.anchor(ops.title(lines[i])), [])))
  {
    assert lines[i + 1..i + 1] == [];
    assert Current(ops.title(lines[i]), ops.anchor(ops.title(lines[i])), []) == CurrentAt(ops, lines, i, i + 1);
    if current.Some? {
      StepNextHeading(ops, lines, i, introLines, sections, current.value);
    } else {
      StepFirstHeading(ops, lines, i, introLines, sections);
    }
  }

  /** A line after the first heading joins the open section. */
  lemma StepBody(ops: LineOps, lines: seq<string>, i: nat,
                 introLines: seq<string>, sections: seq<Section>, c: Current)
    requires i < |lines| && !ops.heading(lines[i])
    requires StateAfter(ops, lines, i, introLines, sections, Some(c))
    ensures StateAfter(ops, lines, i + 1, introLines, sections, Some(c.(lines := c.lines + [lines[i]])))
  {
    HeadingsStep(lines, i, ops.heading);
    var hs := HeadingsBelow(lines, i, ops.heading);
    assert lines[Last(hs) + 1..i + 1] == lines[Last(hs) + 1..i] + [lines[i]];
  }

  /** A line before the first heading joins the introduction. */
  lemma StepIntro(ops: LineOps, lines: seq<string>, i: nat,
                  introLines: seq<string>, sections: seq<Section>)
    requires i < |lines| && !ops.heading(lines[i])
    requires StateAfter(ops, lines, i, introLines, sections, None)
    ensures StateAfter(ops, lines, i + 1, introLines + [lines[i]], sections, None)
  {
    HeadingsStep(lines, i, ops.heading);
    assert lines[..i + 1] == lines[..i] + [lines[i]];
  }

  /** After the last line, saving the open section gives the introduction and the sections. */
  lemma Finish(ops: LineOps, lines: seq<string>,
               introLines: seq<string>, sections: seq<Section>, current: Option<Current>)
    requires StateAfter(ops, lines, |lines|, introLines, sections, current)
    ensures IntroOf(ops, lines) == ops.clean(Join(introLines, "\n"))
    ensures SectionsOf(ops, lines) ==
      sections + if current.Some? then [Close(ops, current.value)] else []
  {
    var hs := HeadingsBelow(lines, |lines|, ops.heading);
    var all := sections + if current.Some? then [Close(ops, current.value)] else [];
    var expected := SectionsOf(ops, lines);
    assert |all| == |expected|;
    forall k | 0 <= k < |all| ensures all[k] == expected[k] {
      if k + 1 < |hs| {
        assert all[k] == sections[k];
      }
    }
  }

  /**
   * `parseSections`: the loop over the lines with the section being
   * collected, run with the generator's line operations.
   */
  method ParseSections(strip: string -> string, text: string) returns (parsed: Parsed)
    ensures parsed == ParsedOf(strip, text)
  {
    var body := StripFrontmatter(text);
    var lines := Split(body, '\n');
    parsed := ParseLines(MdxParser(strip), lines);
  }

  /** The loop of `parseSections` over the lines, for any line operations. */
  method ParseLines(ops: LineOps, lines: seq<string>) returns (parsed: Parsed)
    ensures parsed == Parsed(IntroOf(ops, lines), SectionsOf(ops, lines))
  {
    var sections: seq<Section> := [];
    var introLines: seq<string> := [];
    var current: Option<Current> := None;
    StateAtStart(ops, lines);
    for i := 0 to |lines|
      invariant StateAfter(ops, lines, i, introLines, sections, current)
    {
      var line := lines[i];
      if ops.heading(line) {
        StepHeading(ops, lines, i, introLines, sections, current);
        if current.Some? {
          sections := sections + [Close(ops, current.value)];
        }
        var title := ops.title(line);
        current := Some(Current(title, ops.anchor(title), []));
      } else if current.Some? {
        StepBody(ops, lines, i, introLines, sections, current.value);
        current := Some(current.value.(lines := current.value.lines + [line]));
      } else {
        StepIntro(ops, lines, i, introLines, sections);
        introLines := introLines + [line];
      }
    }
    Finish(ops, lines, introLines, sections, current);
    if current.Some? {
      sections := sections + [Close(ops, current.value)];
    }
    parsed := Parsed(ops.clean(Join(introLines, "\n")), sections);
  }

  /**
   * A section's lines hold no heading: every `##` or `###` heading, of
   * either level, closes the section before it and opens its own.
   */
  lemma SectionBodiesHoldNoHeading(lines: seq<string>, heading: string -> bool, k: nat, j: nat)
    requires var hs := HeadingsBelow(lines, |lines|, heading);
      k < |hs| && hs[k] < j < (if k + 1 < |hs| then hs[k + 1] else |lines|)
    ensures !heading(lines[j])
  {
    var hs := HeadingsBelow(lines, |lines|, heading);
    HeadingsBelowExact(lines, |lines|, heading);
    forall m | 0 <= m < |hs| ensures hs[m] != j {
      if m <= k {
        assert hs[m] <= hs[k];
      } else {
        assert hs[k + 1] <= hs[m];
      }
    }
  }

  /** No line before the first heading is a heading, so the introduction is exactly the text before it. */
  lemma IntroHoldsNoHeading(lines: seq<string>, heading: string -> bool, j: nat)
    requires var hs := HeadingsBelow(lines, |lines|, heading); j < (if hs == [] then |lines| else hs[0])
    ensures !heading(lines[j])
  {
    var hs := HeadingsBelow(lines, |lines|, heading);
    HeadingsBelowExact(lines, |lines|, heading);
    forall m | 0 <= m < |hs| ensures hs[m] != j {
      assert hs[0] <= hs[m];
    }
    assert j !in hs;
  }

  /**
   * Each section is titled by its heading line and anchored by the anchor
   * of that title, one section per heading line, in order.
   */
  lemma ParsedSections(strip: string -> string, text: string, k: nat)
    requires k < |ParsedOf(strip, text).sections|
    ensures var lines := BodyLines(text);
      var hs := HeadingsBelow(lines, |lines|, IsHeading);
      var section := ParsedOf(strip, text).sections[k];
      && |ParsedOf(strip, text).sections| == |hs|
      && IsHeading(lines[hs[k]])
      && section.title == HeadingTitle(lines[hs[k]])
      && section.anchor == HeadingToSlug(section.title)
      && IsAnchor(section.anchor)
  {
    SectionsShape(MdxParser(strip), BodyLines(text), k);
  }

  lemma SectionsShape(ops: LineOps, lines: seq<string>, k: nat)
    requires k < |SectionsOf(ops, lines)|
    ensures var hs := HeadingsBelow(lines, |lines|, ops.heading);
      var section := SectionsOf(ops, lines)[k];
      && |SectionsOf(ops, lines)| == |hs|
      && ops.heading(lines[hs[k]])
      && section.title == ops.title(lines[hs[k]])
      && section.anchor == ops.anchor(section.title)
  {
    var hs := HeadingsBelow(lines, |lines|, ops.heading);
    HeadingsBelowExact(lines, |lines|, ops.heading);
    assert hs[k] in hs;
  }

  // ---------------------------------------------------------------------
  // Document assembly

  /** `sectionContents`: each section's anchor to its content cut to 300 characters; a later section with the same anchor wins. */
  function AnchorMap(sections: seq<Section>): (m: map<string, string>)
    ensures forall a :: a in m ==> |m[a]| <= 300
  {
    if sections == [] then map[]
    else
      var s := sections[|sections| - 1];
      AnchorMap(sections[..|sections| - 1])[s.anchor := Take(s.content, 300)]
  }

  /** The anchors with stored content are exactly those of the sections. */
  lemma {:induction false} AnchorMapKeys(sections: seq<Section>, a: string)
    ensures a in AnchorMap(sections) <==> exists k :: 0 <= k < |sections| && sections[k].anchor == a
  {
    if sections != [] {
      var init := sections[..|sections| - 1];
      AnchorMapKeys(init, a);
      if a in AnchorMap(init) {
        var k :| 0 <= k < |init| && init[k].anchor == a;
        assert sections[k].anchor == a;
      }
      if exists k :: 0 <= k < |sections| && sections[k].anchor == a {
        var k :| 0 <= k < |sections| && sections[k].anchor == a;
        if k < |init| {
          assert init[k].anchor == a;
        }
      }
    }
  }

  /** The content stored for an anchor is that of the last section carrying it. */
  lemma {:induction false} AnchorMapLast(sections: seq<Section>, k: nat)
    requires k < |sections|
    requires forall j :: k < j < |sections| ==> sections[j].anchor != sections[k].anchor
    ensures sections[k].anchor in AnchorMap(sections)
    ensures AnchorMap(sections)[sections[k].anchor] == Take(sections[k].content, 300)
  {
    AnchorMapKeys(sections, sections[k].anchor);
    if k < |sections| - 1 {
      var init := sections[..|sections| - 1];
      assert forall j :: k < j < |init| ==> init[j] == sections[j];
      AnchorMapLast(init, k);
      assert init[k] == sections[k];
    }
  }

  /**
   * The intro content: the description when it is non-empty; otherwise the
   * parsed introduction cut to 200 characters; otherwise empty, as it is
   * when the source could not be read.
   */
  function IntroContent(description: Option<string>, parsed: Option<Parsed>): (r: string)
    ensures description.Some? && description.value != "" ==> r == description.value
    ensures (description.None? || description.value == "") && parsed.Some? ==> r == Take(parsed.value.intro, 200)
    ensures (description.None? || description.value == "") && parsed.None? ==> r == ""
  {
    var intro := if description.Some? then description.value else "";
    if intro == "" && parsed.Some? && parsed.value.intro != "" then Take(parsed.value.intro, 200) else intro
  }

  /** A table-of-contents URL with one leading `#` removed. */
  function TocAnchor(url: string): (r: string)
    ensures StartsWith(url, "#") ==> "#" + r == url
    ensures !StartsWith(url, "#") ==> r == url
  {
    if StartsWith(url, "#") then url[1..] else url
  }

  function TocDocument(path: string, basePath: string, pageTitle: string, locale: string,
                       contents: map<string, string>, item: TocItem): SearchDocument
  {
    var anchor := TocAnchor(item.url);
    SearchDocument(path + "#" + anchor, item.title, pageTitle,
      if anchor in contents then contents[anchor] else "", basePath + "#" + anchor, locale)
  }

  /** One document per table-of-contents entry, in order. */
  function TocDocuments(path: string, basePath: string, pageTitle: string, locale: string,
                        contents: map<string, string>, toc: seq<TocItem>): seq<SearchDocument>
  {
    seq(|toc|, k requires 0 <= k < |toc| => TocDocument(path, basePath, pageTitle, locale, contents, toc[k]))
  }

  /** The page's parsed source, or `None` when reading it failed. */
  function ParsedPage(strip: string -> string, read: string -> Option<string>, page: DocPage): Option<Parsed> {
    match read(page.path)
    case None => None
    case Some(text) => Some(ParsedOf(strip, text))
  }

  function TocOf(page: DocPage): seq<TocItem> {
    if page.toc.Some? then page.toc.value else []
  }

  /**
   * The documents of one page with slug string `slug` and parsed source
   * `parsed`: the intro document, then one per table-of-contents entry.
   */
  function DocumentsFor(page: DocPage, slug: string, parsed: Option<Parsed>): seq<SearchDocument> {
    var locale := ExtractLocale(page.path);
    var basePath := BasePath(slug);
    var pageTitle := PageTitle(page.frontmatter.title, slug);
    var contents := if parsed.Some? then AnchorMap(parsed.value.sections) else map[];
    var toc := TocOf(page);
    [SearchDocument(page.path + "#intro", pageTitle, pageTitle,
       IntroContent(page.frontmatter.description, parsed), basePath, locale)] +
    TocDocuments(page.path, basePath, pageTitle, locale, contents, toc)
  }

  /** The documents of one page. */
  function PageDocuments(strip: string -> string, read: string -> Option<string>, page: DocPage): seq<SearchDocument> {
    DocumentsFor(page, SlugString(page.path), ParsedPage(strip, read, page))
  }

  /** All documents, page after page. */
  function IndexDocuments(strip: string -> string, read: string -> Option<string>, pages: seq<DocPage>): seq<SearchDocument> {
    if pages == [] then []
    else IndexDocuments(strip, read, pages[..|pages| - 1]) + PageDocuments(strip, read, pages[|pages| - 1])
  }

  /**
   * Every page yields exactly one document more than it has
   * table-of-contents entries: first the intro document, at the page's
   * base path and titled by the page, then one per entry, each at the base
   * path with the entry's anchor; all carry the page's title and locale.
   */
  lemma DocumentsForShape(page: DocPage, slug: string, parsed: Option<Parsed>)
    ensures var docs := DocumentsFor(page, slug, parsed);
      var toc := TocOf(page);
      var pageTitle := PageTitle(page.frontmatter.title, slug);
      && |docs| == 1 + |toc|
      && docs[0].id == page.path + "#intro"
      && docs[0].path == BasePath(slug)
      && docs[0].title == pageTitle
      && (forall k :: 0 <= k < |docs| ==> docs[k].pageTitle == pageTitle && docs[k].locale == ExtractLocale(page.path))
      && (forall k :: 0 <= k < |toc| ==>
            && docs[k + 1].id == page.path + "#" + TocAnchor(toc[k].url)
            && docs[k + 1].path == BasePath(slug) + "#" + TocAnchor(toc[k].url)
            && docs[k + 1].title == toc[k].title
            && |docs[k + 1].content| <= 300)
  {
  }

  lemma PageDocumentsShape(strip: string -> string, read: string -> Option<string>, page: DocPage)
    ensures var docs := PageDocuments(strip, read, page);
      var toc := TocOf(page);
      var slug := SlugString(page.path);
      var pageTitle := PageTitle(page.frontmatter.title, slug);
      && |docs| == 1 + |toc|
      && docs[0].id == page.path + "#intro"
      && docs[0].path == BasePath(slug)
      && docs[0].title == pageTitle
      && (forall k :: 0 <= k < |docs| ==> docs[k].pageTitle == pageTitle && docs[k].locale == ExtractLocale(page.path))
      && (forall k :: 0 <= k < |toc| ==>
            && docs[k + 1].id == page.path + "#" + TocAnchor(toc[k].url)
            && docs[k + 1].path == BasePath(slug) + "#" + TocAnchor(toc[k].url)
            && docs[k + 1].title == toc[k].title
            && |docs[k + 1].content| <= 300)
  {
    DocumentsForShape(page, SlugString(page.path), ParsedPage(strip, read, page));
  }

  /** A path made of `base` and a fragment. */
  predicate FragmentOf(path: string, base: string) {
    |path| > |base| && path[..|base|] == base && path[|base|] == '#'
  }

  lemma FragmentOfAnchor(base: string, anchor: string)
    ensures FragmentOf(base + "#" + anchor, base)
  {
    assert (base + "#" + anchor)[..|base|] == base;
  }

  /** The intro document sits at the page's base path and every other document at a fragment of it. */
  lemma PageDocumentPaths(strip: string -> string, read: string -> Option<string>, page: DocPage)
    ensures var docs := PageDocuments(strip, read, page);
      var base := BasePath(SlugString(page.path));
      && |docs| >= 1
      && docs[0].path == base
      && forall k :: 1 <= k < |docs| ==> FragmentOf(docs[k].path, base)
  {
    var docs := PageDocuments(strip, read, page);
    var base := BasePath(SlugString(page.path));
    PageDocumentsShape(strip, read, page);
    forall k | 1 <= k < |docs| ensures FragmentOf(docs[k].path, base) {
      FragmentOfAnchor(base, TocAnchor(TocOf(page)[k - 1].url));
    }
  }

  /** Without a parsed source, the intro falls back to the description and every entry is empty. */
  lemma DocumentsForUnread(page: DocPage, slug: string)
    ensures var docs := DocumentsFor(page, slug, None);
      && docs[0].content == (if page.frontmatter.description.Some? then page.frontmatter.description.value else "")
      && forall k :: 1 <= k < |docs| ==> docs[k].content == ""
  {
  }

  /** When the source cannot be read, the intro falls back to the description and every entry is empty. */
  lemma ReadFailure(strip: string -> string, read: string -> Option<string>, page: DocPage)
    requires read(page.path).None?
    ensures var docs := PageDocuments(strip, read, page);
      && docs[0].content == (if page.frontmatter.description.Some? then page.frontmatter.description.value else "")
      && forall k :: 1 <= k < |docs| ==> docs[k].content == ""
  {
    DocumentsForUnread(page, SlugString(page.path));
  }

  /**
   * A table-of-contents entry for a heading named "Intro" gets the id of
   * the page's intro document, so document ids are not unique per page.
   */
  lemma IntroIdCollision(strip: string -> string, read: string -> Option<string>, page: DocPage)
    requires |TocOf(page)| >= 1 && TocOf(page)[0].url == "#intro"
    ensures PageDocuments(strip, read, page)[0].id == PageDocuments(strip, read, page)[1].id
  {
    DocumentsForIntroId(page, SlugString(page.path), ParsedPage(strip, read, page));
  }

  lemma DocumentsForIntroId(page: DocPage, slug: string, parsed: Option<Parsed>)
    requires |TocOf(page)| >= 1 && TocOf(page)[0].url == "#intro"
    ensures DocumentsFor(page, slug, parsed)[0].id == DocumentsFor(page, slug, parsed)[1].id
  {
    assert StartsWith("#intro", "#");
    assert TocAnchor("#intro") == "intro";
    DocumentsForShape(page, slug, parsed);
  }

  function DocumentCount(pages: seq<DocPage>): nat {
    if pages == [] then 0 else DocumentCount(pages[..|pages| - 1]) + 1 + |TocOf(pages[|pages| - 1])|
  }

  /** The index holds one document per page plus one per table-of-contents entry. */
  lemma {:induction false} IndexDocumentsCount(strip: string -> string, read: string -> Option<string>, pages: seq<DocPage>)
    ensures |IndexDocuments(strip, read, pages)| == DocumentCount(pages)
  {
    if pages != [] {
      IndexDocumentsCount(strip, read, pages[..|pages| - 1]);
      PageDocumentsShape(strip, read, pages[|pages| - 1]);
    }
  }

  /** The loop over the parsed sections that fills `sectionContents`. */
  method SectionContents(sections: seq<Section>) returns (contents: map<string, string>)
    ensures contents == AnchorMap(sections)
  {
    contents := map[];
    for j := 0 to |sections|
      invariant contents == AnchorMap(sections[..j])
    {
      assert sections[..j + 1][..j] == sections[..j];
      contents := contents[sections[j].anchor := Take(sections[j].content, 300)];
    }
    assert sections[..|sections|] == sections;
  }

  /** The body of the generator's loop over pages: one page's documents. */
  method BuildPageDocuments(strip: string -> string, read: string -> Option<string>, page: DocPage)
    returns (pageDocs: seq<SearchDocument>)
    ensures pageDocs == PageDocuments(strip, read, page)
  {
    var slug := SlugString(page.path);
    var locale := ExtractLocale(page.path);
    var basePath := BasePath(slug);
    var pageTitle := PageTitle(page.frontmatter.title, slug);
    var parsed: Option<Parsed> := None;
    var sectionContents: map<string, string> := map[];
    var source := read(page.path);
    if source.Some? {
      var p := ParseSections(strip, source.value);
      parsed := Some(p);
      sectionContents := SectionContents(p.sections);
    }
    assert parsed == ParsedPage(strip, read, page);
    assert sectionContents == if parsed.Some? then AnchorMap(parsed.value.sections) else map[];
    var intro := IntroContent(page.frontmatter.description, parsed);
    pageDocs := [SearchDocument(page.path + "#intro", pageTitle, pageTitle, intro, basePath, locale)];
    var toc := TocOf(page);
    var tocDocs := BuildTocDocuments(page.path, basePath, pageTitle, locale, sectionContents, toc);
    pageDocs := pageDocs + tocDocs;
  }

  /** The generator's loop over one page's table of contents. */
  method BuildTocDocuments(path: string, basePath: string, pageTitle: string, locale: string,
                           sectionContents: map<string, string>, toc: seq<TocItem>)
    returns (docs: seq<SearchDocument>)
    ensures docs == TocDocuments(path, basePath, pageTitle, locale, sectionContents, toc)
  {
    docs := [];
    for j := 0 to |toc|
      invariant docs == TocDocuments(path, basePath, pageTitle, locale, sectionContents, toc[..j])
    {
      var anchor := TocAnchor(toc[j].url);
      var sectionContent := if anchor in sectionContents then sectionContents[anchor] else "";
      docs := docs + [SearchDocument(path + "#" + anchor, toc[j].title, pageTitle,
        sectionContent, basePath + "#" + anchor, locale)];
      assert toc[..j + 1] == toc[..j] + [toc[j]];
    }
    assert toc[..|toc|] == toc;
  }

  lemma IndexDocumentsStep(strip: string -> string, read: string -> Option<string>, pages: seq<DocPage>, i: nat)
    requires i < |pages|
    ensures IndexDocuments(strip, read, pages[..i + 1]) == IndexDocuments(strip, read, pages[..i]) + PageDocuments(strip, read, pages[i])
  {
    assert pages[..i + 1][..i] == pages[..i];
  }

  /** The generator's loop over the pages, collecting every page's documents. */
  method BuildDocuments(strip: string -> string, read: string -> Option<string>, pages: seq<DocPage>)
    returns (documents: seq<SearchDocument>)
    ensures documents == IndexDocuments(strip, read, pages)
  {
    documents := [];
    for i := 0 to |pages|
      invariant documents == IndexDocuments(strip, read, pages[..i])
    {
      IndexDocumentsStep(strip, read, pages, i);
      var pageDocs := BuildPageDocuments(strip, read, pages[i]);
      documents := documents + pageDocs;
    }
    assert pages[..|pages|] == pages;
  }
}
