/**
 * Page lookup and sidebar navigation of the documentation app
 * (apps/docs/lib/slug.ts). The navigation tree is a list of pages, each a
 * leaf path or a section with a title, an optional base folder and children;
 * a group of the navigation owns such a list under a link such as
 * `/docs/guides`. The configuration that the source reads asynchronously is
 * a parameter here.
 */
module DocsSlug {
  import opened Strings
  import opened Content
  import opened Slug

  datatype Page =
    | Leaf(name: string)
    | Section(title: string, base: Option<string>, children: seq<Page>)

  datatype Group = Group(title: string, link: string, children: seq<Page>)

  /** The navigation's group setting: several linked groups, or one anonymous list of sections. */
  datatype GroupConfig = Grouped(groups: seq<Group>) | Single(sections: seq<Page>)

  /** A flattened navigation entry: its link and its slug. */
  datatype FlatPage = FlatPage(href: string, slug: seq<string>)

  datatype PageNavigation = PageNavigation(prev: Option<FlatPage>, next: Option<FlatPage>)

  /** A string that JavaScript treats as true: present and non-empty. */
  predicate Truthy(s: Option<string>) {
    s.Some? && s.value != ""
  }

  // ---------------------------------------------------------------------
  // Locale-aware lookup

  /** The first page under `locale`, else the first page under `defaultLocale`, with slugs given by `slugOf`. */
  function LocalizedFirst(pages: seq<DocPage>, slug: seq<string>, defaultLocale: string, locale: string,
                          slugOf: string -> seq<string>): Option<DocPage> {
    match FirstBySlug(pages, [locale] + slug, slugOf)
    case Some(page) => Some(page)
    case None => FirstBySlug(pages, [defaultLocale] + slug, slugOf)
  }

  /**
   * `getPage`: without an i18n configuration (`defaultLocale == None`) or
   * without a locale the plain lookup; otherwise the page under the
   * requested locale, falling back to the default locale.
   */
  function LocalizedLookup(pages: seq<DocPage>, slug: seq<string>, defaultLocale: Option<string>, locale: Option<string>): Option<DocPage> {
    if defaultLocale.None? || !Truthy(locale) then Lookup(pages, slug)
    else LocalizedFirst(pages, slug, defaultLocale.value, locale.value, PathToSlug)
  }

  /** The fallback, for any slug function. */
  lemma LocalizedFirstFallback(pages: seq<DocPage>, slug: seq<string>, defaultLocale: string, locale: string,
                               slugOf: string -> seq<string>)
    ensures var r := LocalizedFirst(pages, slug, defaultLocale, locale, slugOf);
      && (r.None? <==> NoneBefore(pages, [locale] + slug, slugOf, |pages|) && NoneBefore(pages, [defaultLocale] + slug, slugOf, |pages|))
      && (!NoneBefore(pages, [locale] + slug, slugOf, |pages|) ==>
            r == FirstBySlug(pages, [locale] + slug, slugOf) && r.Some? && slugOf(r.value.path) == [locale] + slug)
      && (NoneBefore(pages, [locale] + slug, slugOf, |pages|) ==> r == FirstBySlug(pages, [defaultLocale] + slug, slugOf))
  {
    FirstBySlugIsFirst(pages, [locale] + slug, slugOf);
    FirstBySlugIsFirst(pages, [defaultLocale] + slug, slugOf);
  }

  /**
   * With a locale, the lookup finds the first page under the locale if any
   * page has that slug, and otherwise the first page under the default
   * locale; it finds nothing only when neither exists.
   */
  lemma LocalizedLookupFallback(pages: seq<DocPage>, slug: seq<string>, defaultLocale: string, locale: string)
    requires locale != ""
    ensures var r := LocalizedLookup(pages, slug, Some(defaultLocale), Some(locale));
      && (r.None? <==> forall i :: 0 <= i < |pages| ==>
            !HasSlug(pages[i], [locale] + slug) && !HasSlug(pages[i], [defaultLocale] + slug))
      && ((exists i :: 0 <= i < |pages| && HasSlug(pages[i], [locale] + slug)) ==>
            r == Lookup(pages, [locale] + slug) && r.Some? && HasSlug(r.value, [locale] + slug))
      && ((forall i :: 0 <= i < |pages| ==> !HasSlug(pages[i], [locale] + slug)) ==>
            r == Lookup(pages, [defaultLocale] + slug))
  {
    LocalizedFirstFallback(pages, slug, defaultLocale, locale, PathToSlug);
  }

  /** Without i18n, or with an empty locale, the locale plays no part. */
  lemma LocalizedLookupPlain(pages: seq<DocPage>, slug: seq<string>, defaultLocale: Option<string>, locale: Option<string>)
    requires defaultLocale.None? || !Truthy(locale)
    ensures LocalizedLookup(pages, slug, defaultLocale, locale) == Lookup(pages, slug)
    ensures LocalizedLookup(pages, slug, defaultLocale, locale).Some? ==>
      HasSlug(LocalizedLookup(pages, slug, defaultLocale, locale).value, slug)
  {
    LookupIsFirstMatch(pages, slug);
  }

  // ---------------------------------------------------------------------
  // Paths inside the navigation tree

  /** The folder of a section: its base under the parent's folder, or the parent's folder when it has no base. */
  function SectionBase(base: Option<string>, basePath: string): (r: string)
    ensures !Truthy(base) ==> r == basePath
    ensures Truthy(base) && basePath == "" ==> r == base.value
    ensures Truthy(base) && basePath != "" ==> r == basePath + "/" + base.value
  {
    if Truthy(base) then (if basePath != "" then basePath + "/" + base.value else base.value)
    else basePath
  }

  /** The path of a leaf: `.` names the folder itself. */
  function ChildPath(child: string, basePath: string): (r: string)
    ensures child == "." ==> r == basePath
    ensures child != "." && basePath == "" ==> r == child
    ensures child != "." && basePath != "" ==> r == basePath + "/" + child
  {
    if child == "." then basePath
    else if basePath != "" then basePath + "/" + child
    else child
  }

  /** Some leaf directly among `pages` has the path `target`. */
  predicate HasDirectMatch(pages: seq<Page>, basePath: string, target: string) {
    exists k :: 0 <= k < |pages| && pages[k].Leaf? && ChildPath(pages[k].name, basePath) == target
  }

  // ---------------------------------------------------------------------
  // findSection

  /**
   * The titles of the sections, in pre-order, that list `target` among
   * their direct leaves.
   */
  function Titles(pages: seq<Page>, basePath: string, target: string): seq<string>
    decreases pages
  {
    if pages == [] then []
    else
      var p := pages[|pages| - 1];
      Titles(pages[..|pages| - 1], basePath, target) +
        match p
        case Leaf(_) => []
        case Section(title, base, children) =>
          var sb := SectionBase(base, basePath);
          (if HasDirectMatch(children, sb, target) then [title] else []) + Titles(children, sb, target)
  }

  /**
   * The value `findSection` computes: scanning the pages in order, a
   * section that lists the target takes the result, and a non-empty result
   * of its nested sections then overrides it.
   */
  function SectionResult(pages: seq<Page>, basePath: string, target: string): Option<string>
    decreases pages
  {
    if pages == [] then None
    else
      var before := SectionResult(pages[..|pages| - 1], basePath, target);
      match pages[|pages| - 1]
      case Leaf(_) => before
      case Section(title, base, children) =>
        var sb := SectionBase(base, basePath);
        var own := if HasDirectMatch(children, sb, target) then Some(title) else before;
        var nested := SectionResult(children, sb, target);
        if Truthy(nested) then nested else own
  }

  predicate NonEmptyTitles(titles: seq<string>) {
    forall k :: 0 <= k < |titles| ==> titles[k] != ""
  }

  lemma NonEmptyTitlesParts(a: seq<string>, b: seq<string>)
    requires NonEmptyTitles(a + b)
    ensures NonEmptyTitles(a) && NonEmptyTitles(b)
  {
    assert forall k :: 0 <= k < |a| ==> a[k] == (a + b)[k];
    assert forall k :: 0 <= k < |b| ==> b[k] == (a + b)[|a| + k];
  }

  /** One step of the scan: a leaf adds no title and leaves the result alone. */
  lemma TitlesStepLeaf(pages: seq<Page>, basePath: string, target: string)
    requires pages != [] && pages[|pages| - 1].Leaf?
    ensures Titles(pages, basePath, target) == Titles(pages[..|pages| - 1], basePath, target)
    ensures SectionResult(pages, basePath, target) == SectionResult(pages[..|pages| - 1], basePath, target)
  {
    assert Titles(pages, basePath, target) == Titles(pages[..|pages| - 1], basePath, target) + [];
  }

  /** One step of the scan over a section: its own title if it matches, then those of its nested sections. */
  lemma TitlesStepSection(pages: seq<Page>, basePath: string, target: string)
    requires pages != [] && pages[|pages| - 1].Section?
    ensures var p := pages[|pages| - 1];
      var sb := SectionBase(p.base, basePath);
      var own := if HasDirectMatch(p.children, sb, target) then Some(p.title) else SectionResult(pages[..|pages| - 1], basePath, target);
      && Titles(pages, basePath, target) ==
           Titles(pages[..|pages| - 1], basePath, target) +
           ((if HasDirectMatch(p.children, sb, target) then [p.title] else []) + Titles(p.children, sb, target))
      && SectionResult(pages, basePath, target) ==
           (if Truthy(SectionResult(p.children, sb, target)) then SectionResult(p.children, sb, target) else own)
  {
  }

  /** The result of the search is always one of the matching titles, and there is none when nothing matches. */
  lemma {:induction false} SectionResultIsTitle(pages: seq<Page>, basePath: string, target: string)
    ensures Titles(pages, basePath, target) == [] ==> SectionResult(pages, basePath, target).None?
    ensures SectionResult(pages, basePath, target).Some? ==>
      SectionResult(pages, basePath, target).value in Titles(pages, basePath, target)
    decreases pages
  {
    if pages != [] {
      var init := pages[..|pages| - 1];
      var p := pages[|pages| - 1];
      SectionResultIsTitle(init, basePath, target);
      if p.Leaf? {
        TitlesStepLeaf(pages, basePath, target);
      } else {
        TitlesStepSection(pages, basePath, target);
        SectionResultIsTitle(p.children, SectionBase(p.base, basePath), target);
      }
    }
  }

  /**
   * When every section title is non-empty, the search returns the last
   * matching section in pre-order, so a nested match overrides the title of
   * its parent and a later section overrides an earlier one.
   */
  lemma {:induction false} SectionResultIsLastTitle(pages: seq<Page>, basePath: string, target: string)
    requires NonEmptyTitles(Titles(pages, basePath, target))
    ensures Titles(pages, basePath, target) == [] <==> SectionResult(pages, basePath, target).None?
    ensures Titles(pages, basePath, target) != [] ==>
      SectionResult(pages, basePath, target) == Some(Last(Titles(pages, basePath, target)))
    decreases pages
  {
    if pages != [] {
      var init := pages[..|pages| - 1];
      var p := pages[|pages| - 1];
      var ti := Titles(init, basePath, target);
      if p.Leaf? {
        TitlesStepLeaf(pages, basePath, target);
        SectionResultIsLastTitle(init, basePath, target);
      } else {
        var sb := SectionBase(p.base, basePath);
        var own := if HasDirectMatch(p.children, sb, target) then [p.title] else [];
        var tc := Titles(p.children, sb, target);
        TitlesStepSection(pages, basePath, target);
        NonEmptyTitlesParts(ti, own + tc);
        NonEmptyTitlesParts(own, tc);
        SectionResultIsLastTitle(init, basePath, target);
        SectionResultIsLastTitle(p.children, sb, target);
        if tc != [] {
          assert Last(ti + (own + tc)) == Last(tc);
        } else if own != [] {
          assert ti + (own + tc) == ti + [p.title];
        } else {
          assert ti + (own + tc) == ti;
        }
      }
    }
  }

  /** `findSection`: the loop over the pages with its recursive call into each section. */
  method FindSection(pages: seq<Page>, basePath: string, target: string) returns (result: Option<string>)
    ensures result == SectionResult(pages, basePath, target)
    decreases pages
  {
    result := None;
    for i := 0 to |pages|
      invariant result == SectionResult(pages[..i], basePath, target)
    {
      assert pages[..i + 1][..i] == pages[..i];
      match pages[i]
      case Leaf(_) =>
      case Section(title, base, children) =>
        var sectionBase := SectionBase(base, basePath);
        var hasMatch := HasDirectMatch(children, sectionBase, target);
        if hasMatch {
          result := Some(title);
        }
        var nestedResult := FindSection(children, sectionBase, target);
        if Truthy(nestedResult) {
          result := nestedResult;
        }
    }
    assert pages[..|pages|] == pages;
  }

  /** `isDirectChild`: the loop with an early return. */
  method IsDirectChild(pages: seq<Page>, basePath: string, target: string) returns (r: bool)
    ensures r <==> HasDirectMatch(pages, basePath, target)
  {
    for i := 0 to |pages|
      invariant forall k :: 0 <= k < i && pages[k].Leaf? ==> ChildPath(pages[k].name, basePath) != target
    {
      if pages[i].Leaf? {
        var childPath := ChildPath(pages[i].name, basePath);
        if childPath == target {
          return true;
        }
      }
    }
    return false;
  }

  // ---------------------------------------------------------------------
  // matchSection

  /** `link.replace(/^\/docs\/?/, '')`. */
  function StripDocsPrefix(link: string): (r: string)
    ensures StartsWith(link, "/docs/") ==> "/docs/" + r == link
    ensures StartsWith(link, "/docs") && !StartsWith(link, "/docs/") ==> "/docs" + r == link
    ensures !StartsWith(link, "/docs") ==> r == link
  {
    if StartsWith(link, "/docs/") then link[6..]
    else if StartsWith(link, "/docs") then link[5..]
    else link
  }

  /** `link.replace(/^\/docs\//, '')`. */
  function StripDocsSlash(link: string): (r: string)
    ensures StartsWith(link, "/docs/") ==> "/docs/" + r == link
    ensures !StartsWith(link, "/docs/") ==> r == link
  {
    if StartsWith(link, "/docs/") then link[6..] else link
  }

  /**
   * Whether group `i` claims the slug path: a group with a link below
   * `/docs` claims paths with that prefix; the root group claims the paths
   * no other group (by position, standing for object identity) claims.
   */
  predicate GroupMatches(groups: seq<Group>, i: nat, slugPath: string)
    requires i < |groups|
  {
    var linkPath := StripDocsPrefix(groups[i].link);
    if linkPath == "" then
      !exists j :: 0 <= j < |groups| && j != i && groups[j].link != "/docs" &&
        StartsWith(slugPath, StripDocsSlash(groups[j].link))
    else StartsWith(slugPath, linkPath)
  }

  /** `groups.find(...)` from position `from`, as an index. */
  function FirstMatchingGroup(groups: seq<Group>, slugPath: string, from: nat): (r: Option<nat>)
    ensures r.Some? ==> from <= r.value < |groups| && GroupMatches(groups, r.value, slugPath)
    ensures forall j :: from <= j < |groups| && (r.None? || j < r.value) ==> !GroupMatches(groups, j, slugPath)
    decreases |groups| - from
  {
    if from >= |groups| then None
    else if GroupMatches(groups, from, slugPath) then Some(from)
    else FirstMatchingGroup(groups, slugPath, from + 1)
  }

  /** The slug path relative to the group's folder. */
  function RelativeSlugPath(linkPath: string, slugPath: string): (r: string)
    ensures linkPath != "" && StartsWith(slugPath, linkPath + "/") ==> linkPath + "/" + r == slugPath
    ensures linkPath != "" && slugPath == linkPath ==> r == ""
    ensures linkPath == "" || (!StartsWith(slugPath, linkPath + "/") && slugPath != linkPath) ==> r == slugPath
  {
    if linkPath != "" then
      if StartsWith(slugPath, linkPath + "/") then
        assert slugPath == (linkPath + "/") + slugPath[|linkPath| + 1..];
        slugPath[|linkPath| + 1..]
      else if slugPath == linkPath then ""
      else slugPath
    else slugPath
  }

  /**
   * `matchSection`: the title of the section of the page's group that lists
   * the page, else the group's title when the page is a direct child of the
   * group, else nothing.
   */
  method MatchSection(slug: seq<string>, groupConfig: GroupConfig) returns (r: Option<string>)
    ensures groupConfig.Single? ==> r.None?
    ensures groupConfig.Grouped? ==>
      var groups := groupConfig.groups;
      var slugPath := Join(slug, "/");
      match FirstMatchingGroup(groups, slugPath, 0)
      case None => r.None?
      case Some(g) =>
        var group := groups[g];
        var rel := RelativeSlugPath(StripDocsPrefix(group.link), slugPath);
        if group.children == [] then r.None?
        else if Truthy(SectionResult(group.children, "", rel)) then r == SectionResult(group.children, "", rel)
        else if HasDirectMatch(group.children, "", rel) then r == Some(group.title)
        else r.None?
  {
    if groupConfig.Single? {
      return None;
    }
    var groups := groupConfig.groups;
    var slugPath := Join(slug, "/");
    var matching := FirstMatchingGroup(groups, slugPath, 0);
    if matching.None? || groups[matching.value].children == [] {
      return None;
    }
    var group := groups[matching.value];
    var linkPath := StripDocsPrefix(group.link);
    var relativeSlugPath := RelativeSlugPath(linkPath, slugPath);
    var sectionResult := FindSection(group.children, "", relativeSlugPath);
    if Truthy(sectionResult) {
      return sectionResult;
    }
    var direct := IsDirectChild(group.children, "", relativeSlugPath);
    if direct {
      return Some(group.title);
    }
    return None;
  }

  // ---------------------------------------------------------------------
  // flattenPages and getPageNavigation

  /** The paths of all leaves, depth first and left to right. */
  function LeafPaths(pages: seq<Page>, basePath: string): seq<string>
    decreases pages
  {
    if pages == [] then []
    else
      LeafPaths(pages[..|pages| - 1], basePath) +
        match pages[|pages| - 1]
        case Leaf(name) => [ChildPath(name, basePath)]
        case Section(_, base, children) => LeafPaths(children, SectionBase(base, basePath))
  }

  /** One step of the walk: the paths of the leaves below the next page are appended. */
  lemma LeafPathsStep(pages: seq<Page>, i: nat, basePath: string)
    requires i < |pages|
    ensures pages[i].Leaf? ==>
      LeafPaths(pages[..i + 1], basePath) == LeafPaths(pages[..i], basePath) + [ChildPath(pages[i].name, basePath)]
    ensures pages[i].Section? ==>
      LeafPaths(pages[..i + 1], basePath) == LeafPaths(pages[..i], basePath) + LeafPaths(pages[i].children, SectionBase(pages[i].base, basePath))
  {
    assert pages[..i + 1][..i] == pages[..i];
  }

  /** The number of leaves in the tree. */
  function LeafCount(pages: seq<Page>): nat
    decreases pages
  {
    if pages == [] then 0
    else
      LeafCount(pages[..|pages| - 1]) +
        match pages[|pages| - 1]
        case Leaf(_) => 1
        case Section(_, _, children) => LeafCount(children)
  }

  /** Flattening yields one path per leaf. */
  lemma {:induction false} LeafPathsCount(pages: seq<Page>, basePath: string)
    ensures |LeafPaths(pages, basePath)| == LeafCount(pages)
    decreases pages
  {
    if pages != [] {
      LeafPathsCount(pages[..|pages| - 1], basePath);
      match pages[|pages| - 1]
      case Leaf(_) =>
      case Section(_, base, children) => LeafPathsCount(children, SectionBase(base, basePath));
    }
  }

  /** `group.link.replace(/\/$/, '')`. */
  function BaseLink(link: string): (r: string)
    ensures EndsWith(link, "/") ==> r + "/" == link
    ensures !EndsWith(link, "/") ==> r == link
  {
    if EndsWith(link, "/") then link[..|link| - 1] else link
  }

  /** `.filter(Boolean)` on strings. */
  function NonEmptyParts(parts: seq<string>): (r: seq<string>)
    ensures forall k :: 0 <= k < |r| ==> r[k] != "" && r[k] in parts
  {
    if parts == [] then []
    else (if parts[0] != "" then [parts[0]] else []) + NonEmptyParts(parts[1..])
  }

  /** The filter keeps the non-empty parts of each piece, in order, and drops only empty ones. */
  lemma {:induction false} NonEmptyPartsConcat(a: seq<string>, b: seq<string>)
    ensures NonEmptyParts(a + b) == NonEmptyParts(a) + NonEmptyParts(b)
    ensures |a| == 1 ==> NonEmptyParts(a) == if a[0] != "" then a else []
  {
    if a != [] {
      assert (a + b)[0] == a[0];
      assert (a + b)[1..] == a[1..] + b;
      NonEmptyPartsConcat(a[1..], b);
      var head := if a[0] != "" then [a[0]] else [];
      assert NonEmptyParts(a + b) == head + NonEmptyParts(a[1..] + b);
      ConcatAssoc(head, NonEmptyParts(a[1..]), NonEmptyParts(b));
      if |a| == 1 {
        assert a[1..] == [];
        assert a == [a[0]];
      }
    } else {
      assert a + b == b;
    }
  }

  /** A list of non-empty parts passes the filter unchanged. */
  lemma {:induction false} NonEmptyPartsKeeps(parts: seq<string>)
    requires forall k :: 0 <= k < |parts| ==> parts[k] != ""
    ensures NonEmptyParts(parts) == parts
  {
    if parts != [] {
      NonEmptyPartsKeeps(parts[1..]);
    }
  }

  /** The slug segments of the group's folder: `/docs/guides` gives `["guides"]`. */
  function GroupPrefix(link: string): (r: seq<string>)
    ensures forall k :: 0 <= k < |r| ==> r[k] != "" && '/' !in r[k]
  {
    NonEmptyParts(Split(StripDocsPrefix(BaseLink(link)), '/'))
  }

  /**
   * The group folder `/docs/` followed by non-empty segments joined with `/`,
   * with or without a trailing `/`, gives exactly those segments.
   */
  lemma GroupPrefixOfFolder(segments: seq<string>, trailing: bool)
    requires |segments| >= 1
    requires forall k :: 0 <= k < |segments| ==> segments[k] != "" && '/' !in segments[k]
    ensures GroupPrefix("/docs/" + Join(segments, "/") + if trailing then "/" else "") == segments
  {
    var folder := Join(segments, "/");
    var link := "/docs/" + folder + if trailing then "/" else "";
    JoinEndsWithLast(segments, "/");
    var last := segments[|segments| - 1];
    assert folder[|folder| - 1] == last[|last| - 1];
    assert !EndsWith("/docs/" + folder, "/");
    assert BaseLink(link) == "/docs/" + folder;
    assert StartsWith("/docs/" + folder, "/docs/");
    assert StripDocsPrefix("/docs/" + folder) == folder;
    SplitJoin(segments, '/');
    NonEmptyPartsKeeps(segments);
  }

  /** The example of the source's comment: `/docs/guides` gives `["guides"]`. */
  lemma GroupPrefixGuides()
    ensures GroupPrefix("/docs/guides") == ["guides"]
  {
    assert Join(["guides"], "/") == "guides";
    assert "/docs/" + "guides" + "" == "/docs/guides";
    GroupPrefixOfFolder(["guides"], false);
  }

  /** The entry for a leaf with path `pagePath`. */
  function Entry(baseLink: string, prefix: seq<string>, pagePath: string): FlatPage {
    FlatPage(
      if pagePath != "" then baseLink + "/" + pagePath else baseLink,
      prefix + if pagePath != "" then Split(pagePath, '/') else [])
  }

  function Entries(baseLink: string, prefix: seq<string>, paths: seq<string>): (r: seq<FlatPage>)
    ensures |r| == |paths|
  {
    seq(|paths|, k requires 0 <= k < |paths| => Entry(baseLink, prefix, paths[k]))
  }

  lemma EntriesAppend(baseLink: string, prefix: seq<string>, a: seq<string>, b: seq<string>)
    ensures Entries(baseLink, prefix, a + b) == Entries(baseLink, prefix, a) + Entries(baseLink, prefix, b)
  {
    var l, r := Entries(baseLink, prefix, a + b), Entries(baseLink, prefix, a) + Entries(baseLink, prefix, b);
    assert forall k :: 0 <= k < |l| ==> l[k] == r[k];
  }

  /** What `flattenPages` returns: one entry per leaf, in depth-first order. */
  function FlatPagesOf(group: Group): seq<FlatPage> {
    Entries(BaseLink(group.link), GroupPrefix(group.link), LeafPaths(group.children, ""))
  }

  /** Appending a leaf's path appends its entry. */
  lemma EntriesAppendLeaf(acc: seq<FlatPage>, baseLink: string, prefix: seq<string>, before: seq<string>, pagePath: string)
    ensures acc + Entries(baseLink, prefix, before + [pagePath]) ==
      (acc + Entries(baseLink, prefix, before)) + [Entry(baseLink, prefix, pagePath)]
  {
    EntriesAppend(baseLink, prefix, before, [pagePath]);
  }

  /** Appending a section's paths appends their entries. */
  lemma EntriesAppendSection(acc: seq<FlatPage>, baseLink: string, prefix: seq<string>, before: seq<string>, more: seq<string>)
    ensures acc + Entries(baseLink, prefix, before + more) ==
      (acc + Entries(baseLink, prefix, before)) + Entries(baseLink, prefix, more)
  {
    EntriesAppend(baseLink, prefix, before, more);
  }

  /** `collectPages`: appends the entries of the leaves below `pages` to `acc`. */
  method CollectPages(pages: seq<Page>, basePath: string, baseLink: string, prefix: seq<string>, acc: seq<FlatPage>)
    returns (result: seq<FlatPage>)
    ensures result == acc + Entries(baseLink, prefix, LeafPaths(pages, basePath))
    decreases pages
  {
    result := acc;
    for i := 0 to |pages|
      invariant result == acc + Entries(baseLink, prefix, LeafPaths(pages[..i], basePath))
    {
      LeafPathsStep(pages, i, basePath);
      var before := LeafPaths(pages[..i], basePath);
      match pages[i]
      case Leaf(name) =>
        var pagePath := ChildPath(name, basePath);
        var href := if pagePath != "" then baseLink + "/" + pagePath else baseLink;
        var pageSegments := if pagePath != "" then Split(pagePath, '/') else [];
        EntriesAppendLeaf(acc, baseLink, prefix, before, pagePath);
        assert FlatPage(href, prefix + pageSegments) == Entry(baseLink, prefix, pagePath);
        result := result + [FlatPage(href, prefix + pageSegments)];
      case Section(_, base, children) =>
        var sectionBase := SectionBase(base, basePath);
        EntriesAppendSection(acc, baseLink, prefix, before, LeafPaths(children, sectionBase));
        result := CollectPages(children, sectionBase, baseLink, prefix, result);
    }
    assert pages[..|pages|] == pages;
  }

  /** `flattenPages`. */
  method FlattenPages(group: Group) returns (result: seq<FlatPage>)
    ensures result == FlatPagesOf(group)
    ensures |result| == LeafCount(group.children)
  {
    var baseLink := BaseLink(group.link);
    var groupPrefix := GroupPrefix(group.link);
    result := CollectPages(group.children, "", baseLink, groupPrefix, []);
    LeafPathsCount(group.children, "");
  }

  /**
   * Every flattened entry's slug is the group's prefix followed by the
   * segments of the leaf's path, and its link is the group's link extended
   * by that path; the segments joined back with `/` give the path.
   */
  lemma FlatPageShape(group: Group, k: nat)
    requires k < |FlatPagesOf(group)|
    ensures var path := LeafPaths(group.children, "")[k];
      var e := FlatPagesOf(group)[k];
      var prefix := GroupPrefix(group.link);
      && e.slug[..|prefix|] == prefix
      && (path == "" ==> e.slug == prefix && e.href == BaseLink(group.link))
      && (path != "" ==> Join(e.slug[|prefix|..], "/") == path && e.href == BaseLink(group.link) + "/" + path)
  {
    var path := LeafPaths(group.children, "")[k];
    var prefix := GroupPrefix(group.link);
    var e := FlatPagesOf(group)[k];
    if path != "" {
      assert e.slug[|prefix|..] == Split(path, '/');
      JoinSplit(path, '/');
    } else {
      assert e.slug == prefix + [];
    }
  }

  /** The first position from `from` on whose entry has the slug, or -1 (`findIndex`). */
  function FindIndex(pages: seq<FlatPage>, slug: seq<string>, from: nat): (r: int)
    ensures r == -1 || (from <= r < |pages| && pages[r].slug == slug)
    ensures forall q :: from <= q < |pages| && (r == -1 || q < r) ==> pages[q].slug != slug
    decreases |pages| - from
  {
    if from >= |pages| then -1
    else if SlugsEqual(pages[from].slug, slug) then from
    else FindIndex(pages, slug, from + 1)
  }

  /**
   * `getPageNavigation`: the neighbours of the first entry with the slug,
   * or none when no entry has it.
   */
  function GetPageNavigation(slug: seq<string>, group: Group): (r: PageNavigation)
    ensures (forall q :: 0 <= q < |FlatPagesOf(group)| ==> FlatPagesOf(group)[q].slug != slug) ==>
      r.prev.None? && r.next.None?
  {
    var pages := FlatPagesOf(group);
    var currentIndex := FindIndex(pages, slug, 0);
    if currentIndex == -1 then PageNavigation(None, None)
    else
      PageNavigation(
        if currentIndex > 0 then Some(pages[currentIndex - 1]) else None,
        if currentIndex < |pages| - 1 then Some(pages[currentIndex + 1]) else None)
  }

  /**
   * When entry `i` is the first with the slug, there is no previous page
   * exactly when it is the first entry and no next page exactly when it is
   * the last; otherwise they are its neighbours.
   */
  lemma PageNavigationNeighbours(slug: seq<string>, group: Group, i: nat)
    requires i < |FlatPagesOf(group)| && FlatPagesOf(group)[i].slug == slug
    requires forall q :: 0 <= q < i ==> FlatPagesOf(group)[q].slug != slug
    ensures var r, pages := GetPageNavigation(slug, group), FlatPagesOf(group);
      && (r.prev.None? <==> i == 0)
      && (r.prev.Some? ==> r.prev.value == pages[i - 1])
      && (r.next.None? <==> i == |pages| - 1)
      && (r.next.Some? ==> r.next.value == pages[i + 1])
  {
    var pages := FlatPagesOf(group);
    var currentIndex := FindIndex(pages, slug, 0);
    assert currentIndex == i;
  }
}
