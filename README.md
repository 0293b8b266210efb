# Documentation search and navigation, modelled in Dafny

This project models the core of a documentation site built with Next.js:

- the build-time **search index generator** (`apps/docs/scripts/generate-search-index.ts`);
- the **search dialog** that queries it (`components/search.tsx` and its near copy `apps/docs/components/search.tsx`);
- the **slug, page lookup and sidebar navigation** helpers (`lib/slug.ts`, `apps/docs/lib/slug.ts`);
- **link joining** (`lib/link.ts`);
- the **active-link rules** of the sidebar and of a navigation item (`components/docs/sidebar-wrapper.tsx`, `components/docs/nav-item.tsx`).

Every operation is a Dafny function, or, where the source loops or mutates state, a method proved against a specification function. Lemmas state what the source promises about these operations.

Files and modules:

| file | module | models |
|---|---|---|
| `strings.dfy` | `Strings` | JavaScript string built-ins: `split` on one character, `join`, `startsWith`, `indexOf`, `slice`, `trim`, the `\s` class and ASCII `toLowerCase` |
| `content.dfy` | `Content` | a content page: its path, frontmatter and table of contents |
| `slug.dfy` | `Slug` | `pathToSlug`, `slugsEqual` and the first-match page lookup of `lib/slug.ts`; `apps/docs/lib/slug.ts` repeats these verbatim and reuses them here |
| `docs_slug.dfy` | `DocsSlug` | locale-aware `getPage`, `matchSection` with `findSection`/`isDirectChild`, `flattenPages` and `getPageNavigation` |
| `link.dfy` | `Link` | `normalizeLink` and `connectLinks` |
| `active_link.dfy` | `ActiveLink` | the sidebar's `activeIndex` fold and the navigation item's `activeHref` filter-sort-head |
| `index_text.dfy` | `IndexText` | `headingToSlug`, `cleanText`, frontmatter removal and the heading-line regular expression |
| `search_index.dfy` | `SearchIndex` | `extractLocale`, the generator's `pathToSlug`, `parseSections` and the per-page document assembly of `main` |
| `search_text.dfy` | `SearchText` | `highlightText`, `getContentSnippet`, `getBreadcrumb`, `isSection` and the navigation target |
| `search_session.dfy` | `SearchSession` | the dialog's state (`open`, `query`, `results`, `loading`, `db`) and its effects, as a class |

Inputs from the outside world are parameters:

- The page list is a sequence of `DocPage` values.
- Reading a page's MDX source is `read: string -> Option<string>`; `None` stands for a failed read.
- The regular-expression passes of `cleanText` before the whitespace collapse (imports, JSX, code, links, images, emphasis, heading markers) are `strip: string -> string`.
- The full-text engine's ranking is `rank: (seq<SearchResult>, string) -> seq<SearchResult>`.
- The navigation configuration, read asynchronously by the source, is a `GroupConfig` value.

Several behaviours of the source are modelled as written; they are worth knowing:

- `normalizeLink('.')` and `normalizeLink(undefined)` return `''`, and `connectLinks('.', '.')` and `connectLinks(undefined, undefined)` return `''`. The tests in `lib/link.test.ts` at lines 12, 15, 31 and 34 expect `'/'`. `Link.DotExpectationsConflict` proves that no `normalizeLink` can meet the test at line 12 together with the one at line 29, since joining is concatenation. So it is not clear which side to correct, and this is recorded as a note, not a finding.
- A heading line that still ends in `\r` (a CRLF file) is not a heading, because `.` does not match `\r` and `$` is not multi-line (`IndexText.CrlfHeadingIsNotHeading`).
- Any `##` or `###` heading closes the section before it, so a `###` subsection ends its `##` parent.
- A table-of-contents entry whose anchor is `intro` gets the id of the page's intro document (`SearchIndex.IntroIdCollision`).
- The generator never writes a `groupTitle` (`SearchText.FromDocument`). Its documents therefore breadcrumb as page title, then section title (`SearchText.BreadcrumbOfDocument`).
- An empty link can be the active `href` of a navigation item, because `?? null` keeps `''`. The sidebar never selects it, because it compares lengths strictly against 0 (`ActiveLink.SidebarAgreesWithNavItem`).

## Model

| member | source | states |
|---|---|---|
| Strings.TrimEmpty | components/search.tsx:222 | `query.trim()` is empty exactly when every character of the query is whitespace |
| Strings.TrimWith | apps/docs/scripts/generate-search-index.ts:86 | trimming keeps a contiguous piece of the string whose ends are not whitespace, and leaves nothing exactly when the string is all whitespace |
| Strings.SplitJoin | apps/docs/scripts/generate-search-index.ts:48-50 | joining `/`-free segments with `/` and splitting on `/` again gives the segments back |
| Strings.Lower | components/search.tsx:97 | `toLowerCase` keeps the length and lowers each character, leaving every other character as it is |
| Strings.IndexFrom | components/search.tsx:101 | `indexOf` gives a position at or after the start where the word occurs and none before it, or -1 when it occurs nowhere from there |
| Strings.Split | lib/slug.ts:7 | `split` on one character gives at least one part, and no part holds the separator |
| Strings.JoinSplit | lib/slug.ts:7 | splitting on a character and joining with it gives the string back |
| Strings.JsSlice | components/search.tsx:118 | `slice` with in-range positions is the subsequence between them, out-of-range ends are clamped, and the result is never longer than the string |
| Slug.StripMdx | lib/slug.ts:6 | exactly one trailing `.mdx` is removed, and a path without it is unchanged |
| Slug.PathToSlug | lib/slug.ts:4-9 | no slug segment starts with `(`, none is `index`, and none contains `/` |
| Slug.PathToSlugOfSegments | lib/slug.ts:4-9 | for a path assembled from `/`-free segments plus `.mdx`, the slug is exactly the segments that are neither route groups nor `index`, in their original order |
| Slug.KeepSegmentsAppend | apps/docs/lib/slug.ts:24 | the segment filter distributes over concatenation, so kept segments keep their relative order |
| Slug.SlugsEqual | apps/docs/lib/slug.ts:27-29 | true exactly when both slugs are the same sequence, hence reflexive and symmetric |
| Slug.SlugsEqualExamples | lib/slug.test.ts:29-45 | the test cases: equal slugs compare equal (also `[]`), different lengths or a different element compare unequal |
| Slug.PathToSlugExtension | lib/slug.test.ts:5-7 | `introduction.mdx` has slug `["introduction"]` |
| Slug.PathToSlugRouteGroups | lib/slug.test.ts:20 | `(core)/(api)/reference/auth.mdx` has slug `["reference", "auth"]` |
| Slug.PathToSlugMixed | lib/slug.test.ts:21 | `docs/(advanced)/features/hooks.mdx` has slug `["docs", "features", "hooks"]` |
| Slug.PathToSlugIndex | lib/slug.ts:8 | an `index` segment is dropped: `guides/index.mdx` has slug `["guides"]` |
| Slug.FirstBySlug | apps/docs/lib/slug.ts:31-42 | `getPageBySlug`: the first page in list order whose path the slug function maps to the slug, or none; `Slug.FirstBySlugIsFirst` states this by positions |
| Slug.FirstBySlugIsFirst | apps/docs/lib/slug.ts:31-42 | `getPageBySlug` finds nothing exactly when no page has the slug, and otherwise the page at the first position that has it |
| Slug.Lookup | lib/slug.ts:15-26 | the search of `getPage`: the first-match search with `pathToSlug`; `Slug.LookupIsFirstMatch` states what it finds |
| Slug.LookupIsFirstMatch | lib/slug.ts:15-26 | the lookup is `None` exactly when no page's slug equals the argument, and otherwise the first page in list order whose slug does |
| Slug.GetPage | lib/slug.ts:18-25 | the loop with its early return computes exactly the first-match lookup |
| DocsSlug.LocalizedLookup | apps/docs/lib/slug.ts:44-58 | `getPage`: the plain lookup without i18n or without a locale, else the page under the locale, falling back to the default locale; `DocsSlug.LocalizedLookupFallback` and `DocsSlug.LocalizedLookupPlain` state both cases |
| DocsSlug.LocalizedLookupFallback | apps/docs/lib/slug.ts:44-58 | with i18n and a locale, the result is the first page under `[locale] ++ slug` when one exists, else the lookup under `[defaultLocale] ++ slug`, and nothing exactly when neither exists |
| DocsSlug.LocalizedFirstFallback | apps/docs/lib/slug.ts:51-57 | the same fallback for any slug function, stated by positions: the found page has the slug and no earlier page does |
| DocsSlug.LocalizedLookupPlain | apps/docs/lib/slug.ts:47-49 | without i18n or without a (non-empty) locale, `getPage` is the plain lookup of the slug |
| DocsSlug.SectionBase | apps/docs/lib/slug.ts:121-125 | a section's folder is its base under the parent folder, or the base alone at the root, or the parent folder when there is no base |
| DocsSlug.ChildPath | apps/docs/lib/slug.ts:130-135 | a `.` leaf names the enclosing folder; any other leaf is the folder joined with the leaf by `/` (or the leaf alone at the root) |
| DocsSlug.SectionResult | apps/docs/lib/slug.ts:111-153 | the value `findSection` computes, scanning the pages in order, a nested non-empty result overriding its section; `DocsSlug.SectionResultIsTitle` and `DocsSlug.SectionResultIsLastTitle` state which title it gives |
| DocsSlug.SectionResultIsTitle | apps/docs/lib/slug.ts:111-153 | `findSection` returns null when no section lists the target among its direct leaves, and otherwise one of the titles of the sections that do |
| DocsSlug.SectionResultIsLastTitle | apps/docs/lib/slug.ts:141-149 | with non-empty titles, the result is the title of the last matching section in pre-order, so a nested match overrides its parent and a later section an earlier one |
| DocsSlug.FindSection | apps/docs/lib/slug.ts:114-152 | the loop with its recursive call computes exactly the `findSection` value |
| DocsSlug.IsDirectChild | apps/docs/lib/slug.ts:162-177 | true exactly when some leaf directly in the list has the relative slug path |
| DocsSlug.StripDocsPrefix | apps/docs/lib/slug.ts:83 | `/docs/` or else `/docs` is removed from the front of a link, and other links are unchanged |
| DocsSlug.StripDocsSlash | apps/docs/lib/slug.ts:90 | `/docs/` is removed from the front of a link, and other links are unchanged |
| DocsSlug.GroupMatches | apps/docs/lib/slug.ts:82-94 | the `find` callback: a group with a folder claims slug paths starting with it, and the root group claims the paths no other group claims; `DocsSlug.FirstMatchingGroup` states the search over it |
| DocsSlug.FirstMatchingGroup | apps/docs/lib/slug.ts:82-94 | `groups.find` gives the first group that claims the slug path (the root group claims what no other group claims), or none when no group does |
| DocsSlug.RelativeSlugPath | apps/docs/lib/slug.ts:102-108 | the slug path with the group folder and its `/` removed, `''` for the folder itself, and the whole path otherwise |
| DocsSlug.MatchSection | apps/docs/lib/slug.ts:73-184 | null without `groups`, without a matching group, or for a group without children; otherwise a truthy section title, else the group's title for a direct child, else null |
| DocsSlug.LeafPathsCount | apps/docs/lib/slug.ts:198-218 | the walk yields exactly one path per leaf of the tree |
| DocsSlug.BaseLink | apps/docs/lib/slug.ts:191 | one trailing `/` is removed from the group link |
| DocsSlug.GroupPrefix | apps/docs/lib/slug.ts:193-196 | the group folder's segments are non-empty and free of `/` |
| DocsSlug.NonEmptyPartsConcat | apps/docs/lib/slug.ts:196 | `filter(Boolean)` keeps the order of the parts: filtering two runs of parts is filtering each, and one part stays exactly when it is non-empty |
| DocsSlug.NonEmptyPartsKeeps | apps/docs/lib/slug.ts:196 | parts that are all non-empty pass the filter unchanged |
| DocsSlug.GroupPrefixOfFolder | apps/docs/lib/slug.ts:191-196 | for `/docs/` followed by non-empty `/`-free segments joined with `/`, with or without one trailing `/`, the group prefix is exactly those segments, in order |
| DocsSlug.GroupPrefixGuides | apps/docs/lib/slug.ts:192 | `/docs/guides` gives the prefix `["guides"]` |
| DocsSlug.CollectPages | apps/docs/lib/slug.ts:198-218 | `collectPages` appends to the list it was given the entries of all leaves below the pages, depth first and left to right |
| DocsSlug.FlattenPages | apps/docs/lib/slug.ts:189-222 | `flattenPages` returns one entry per leaf, in depth-first order |
| DocsSlug.FlatPageShape | apps/docs/lib/slug.ts:202-207 | each slug is the group prefix followed by the segments of the leaf path; the link is the base link, extended by `/` and the path when the path is non-empty |
| DocsSlug.FindIndex | apps/docs/lib/slug.ts:232 | `findIndex` gives the first position whose slug equals the argument, or -1 when there is none |
| DocsSlug.GetPageNavigation | apps/docs/lib/slug.ts:231-236 | both neighbours are null when no entry has the slug |
| DocsSlug.PageNavigationNeighbours | apps/docs/lib/slug.ts:238-241 | for the first entry `i` with the slug, `prev` is null exactly when `i = 0` and is otherwise entry `i-1`; `next` is null exactly when `i` is the last position and is otherwise entry `i+1` |
| Link.NormalizeLink | lib/link.ts:1-10 | the result is `''` exactly for `undefined` and `.`, and otherwise starts with `/`; a rooted link is returned unchanged and any other link gets `/` in front |
| Link.NormalizeIdempotent | lib/link.ts:1-10 | normalizing twice equals normalizing once, for every defined link other than `.` |
| Link.NormalizeDotNotIdempotent | lib/link.ts:2-4 | `.` normalizes to `''`, which in turn normalizes to `/` |
| Link.ConnectLinks | lib/link.ts:12-14 | `connectLinks` writes the two normalized links one after the other; `Link.ConnectLinksShape` and `Link.ConnectLinksCases` state what that gives |
| Link.ConnectLinksShape | lib/link.ts:12-14 | a joined link is `''` or starts with `/`, and is `''` exactly when both parts normalize to `''` |
| Link.NormalizeLinkCases | lib/link.test.ts:5-10 | `simple` and `/simple` both normalize to `/simple` |
| Link.ConnectLinksCases | lib/link.test.ts:20-36 | the eight connect cases the code passes: `/a/b` for every rooting of `a` and `b`, and `/a` or `/b` when the other part is `.` or missing |
| Link.LinkDotCases | lib/link.test.ts:11-16 | the code gives `''`, not the expected `/`, for `.`, for `undefined`, and for joining two of them |
| Link.DotExpectationsConflict | lib/link.test.ts:12 | no normalizer that maps `.` to `/` and `a` to `/a` makes joining `a` with `.` give `/a`, as line 29 expects |
| ActiveLink.ActiveIndexOf | components/docs/sidebar-wrapper.tsx:16-25 | after any prefix of the fold, the index is -1 or a non-empty matching link; it is at least as long as every matching link so far and strictly longer than every earlier one; it is -1 exactly when every matching link so far is empty |
| ActiveLink.ActiveIndex | components/docs/sidebar-wrapper.tsx:16-25 | the whole `reduce` from -1; `ActiveLink.ActiveIndexIsFirstLongest` states that it is -1 or the first longest non-empty matching link |
| ActiveLink.ActiveIndexIsFirstLongest | components/docs/sidebar-wrapper.tsx:18-22 | `activeIndex` is -1 exactly when no non-empty link matches, and otherwise the first longest matching link |
| ActiveLink.FirstLongestUnique | components/docs/sidebar-wrapper.tsx:19 | at most one position is the first longest matching link |
| ActiveLink.RenderedChild | components/docs/sidebar-wrapper.tsx:27 | the child at `activeIndex` is rendered exactly when the index is in range, and nothing otherwise |
| ActiveLink.MatchingLinks | components/docs/nav-item.tsx:24 | the filtered links are the matching links of the list: each comes from the list and matches, every matching link is kept, and there are none exactly when no link matches |
| ActiveLink.MatchingLinksConcat | components/docs/nav-item.tsx:24 | `filter` keeps the order of the links: filtering two runs of links is filtering each, and one link stays exactly when it matches |
| ActiveLink.SortByLengthDesc | components/docs/nav-item.tsx:25 | the sort yields a permutation of its input ordered by non-increasing length |
| ActiveLink.InsertKeepsSorted | components/docs/nav-item.tsx:25 | inserting after every element at least as long keeps the order by non-increasing length |
| ActiveLink.InsertByLengthAt | components/docs/nav-item.tsx:25 | inserting a link into a list ordered by non-increasing length puts it at the first position whose link is shorter, behind every link at least as long |
| ActiveLink.SortAppend | components/docs/nav-item.tsx:25 | sorting with one more link at the end puts that link into the sorted rest at a position with every link before it at least as long and every link from it on shorter |
| ActiveLink.SortIsStable | components/docs/nav-item.tsx:25 | the sort is stable: links of any one length come out in the order they went in |
| ActiveLink.ActiveHref | components/docs/nav-item.tsx:22-25 | `activeHref` is the head of the sorted matching links, or null; `ActiveLink.ActiveHrefNone` and `ActiveLink.ActiveHrefIsFirstLongest` state what it picks |
| ActiveLink.ActiveHrefNone | components/docs/nav-item.tsx:22-25 | `activeHref` is null exactly when no link matches the pathname |
| ActiveLink.ActiveHrefIsFirstLongest | components/docs/nav-item.tsx:23-25 | a non-null `activeHref` is the first longest matching link: it matches, no matching link is longer, and equally long ones come later |
| ActiveLink.AtMostOneActive | components/docs/nav-item.tsx:27 | among items with distinct links, at most one is active |
| ActiveLink.SomeItemActive | components/docs/nav-item.tsx:22-27 | some item of the navigation is active exactly when some link matches the pathname |
| ActiveLink.SidebarAgreesWithNavItem | components/docs/nav-item.tsx:22-27 | whenever the sidebar selects a link, the navigation item's `activeHref` is that link; when the sidebar selects none but the item does, the item's link is `''` |
| IndexText.HeadingToSlug | apps/docs/scripts/generate-search-index.ts:54-61 | the anchor holds only lower-case word characters, the named CJK characters and `-`; it has no whitespace, no `--`, and no `-` at either end |
| IndexText.AnchorIsFixedPoint | apps/docs/scripts/generate-search-index.ts:55-60 | a well-formed anchor is its own anchor |
| IndexText.HeadingToSlugIdempotent | apps/docs/scripts/generate-search-index.ts:54-61 | `headingToSlug` is idempotent |
| IndexText.HeadingToSlugKeeps | apps/docs/scripts/generate-search-index.ts:54-61 | every letter, digit, underscore and named CJK character of the lower-cased heading survives into the anchor, in order |
| IndexText.Filter | apps/docs/scripts/generate-search-index.ts:57 | the character-class removal keeps only accepted characters, and leaves a string of accepted characters unchanged |
| IndexText.FilterConcat | apps/docs/scripts/generate-search-index.ts:57 | the removal keeps the order of what it keeps: removing from two runs of text is removing from each |
| IndexText.FilterOne | apps/docs/scripts/generate-search-index.ts:57 | a single character is kept exactly when it is accepted |
| IndexText.CollapseRuns | apps/docs/scripts/generate-search-index.ts:58-59 | every run of matching characters becomes one replacement character: the result has no two adjacent matching characters and is empty only for an empty input |
| IndexText.CollapseRunsKeepsOthers | apps/docs/scripts/generate-search-index.ts:58-59 | the collapse keeps, in order, every character that is neither in a run nor the replacement character |
| IndexText.CollapseRunsIdentity | apps/docs/scripts/generate-search-index.ts:59 | a string whose matching characters are all the replacement character, none adjacent, is left unchanged |
| IndexText.StripEdges | apps/docs/scripts/generate-search-index.ts:60 | one `-` is removed at each end; without `--` in the input, the result neither starts nor ends with `-` |
| IndexText.StripEdgesRebuild | apps/docs/scripts/generate-search-index.ts:60 | the input is the result with the removed `-` put back: one in front when the input started with `-`, one at the end when the input had two or more characters and ended with `-` |
| IndexText.StripEdgesKeeps | apps/docs/scripts/generate-search-index.ts:60 | stripping the edges keeps every character other than `-`, in order |
| IndexText.NewlineRuns | apps/docs/scripts/generate-search-index.ts:84 | runs of two or more newlines become one space: the result is never longer, starts like the input (a space for a leading run), and has no two adjacent newlines |
| IndexText.CleanText | apps/docs/scripts/generate-search-index.ts:64-87 | cleaned text is trimmed, every whitespace character in it is a plain space, and no two whitespace characters are adjacent |
| IndexText.CollapseAndTrim | apps/docs/scripts/generate-search-index.ts:85-86 | collapsing whitespace runs to one space and then trimming leaves single plain spaces only |
| IndexText.StripFrontmatter | apps/docs/scripts/generate-search-index.ts:92 | the result is a suffix of the text; text not opening with `---` and a newline, or without a closing `\n---`, is unchanged; otherwise everything up to the first closing delimiter and one newline after it is removed |
| IndexText.StripFrontmatterOf | apps/docs/scripts/generate-search-index.ts:92 | a `---` block followed by a newline is removed together with that newline, leaving the body |
| IndexText.IsHeading | apps/docs/scripts/generate-search-index.ts:102 | the heading regular expression: two or three `#`, a non-empty run of whitespace, then a non-empty rest without line terminators; `IndexText.HeadingLevelTwo` and the lemmas after it state its cases |
| IndexText.HeadingTitle | apps/docs/scripts/generate-search-index.ts:115 | `headingMatch[2].trim()`, the text after the hashes trimmed; `IndexText.HeadingTitleOfCapture` states that every split of the match gives it |
| IndexText.HeadingTitleOfCapture | apps/docs/scripts/generate-search-index.ts:102-115 | however the regular expression splits the whitespace after the hashes, the trimmed capture is the same title |
| IndexText.HeadingLevelTwo | apps/docs/scripts/generate-search-index.ts:102 | `## Setup` is a heading titled `Setup` |
| IndexText.HeadingLevelThree | apps/docs/scripts/generate-search-index.ts:102 | `### Setup` is a heading titled `Setup` |
| IndexText.HeadingLevelFourIsNot | apps/docs/scripts/generate-search-index.ts:102 | `#### Setup` is not a heading |
| IndexText.HeadingWithoutSpaceIsNot | apps/docs/scripts/generate-search-index.ts:102 | `##Setup` is not a heading |
| IndexText.CrlfHeadingIsNotHeading | apps/docs/scripts/generate-search-index.ts:95 | a line split off a CRLF file, `## Setup\r`, is not a heading |
| SearchIndex.ExtractLocale | apps/docs/scripts/generate-search-index.ts:38-42 | the locale is one of `cn`, `en` and `jp`: the first path segment when it is one of them, and `en` otherwise |
| SearchIndex.ExtractLocaleOfFolder | apps/docs/scripts/generate-search-index.ts:39-41 | a page under a `cn`, `en` or `jp` folder has that locale, and a page under any other folder has `en` |
| SearchIndex.SlugString | apps/docs/scripts/generate-search-index.ts:45-51 | the generator's `pathToSlug`: the page slug joined with `/`; `SearchIndex.SlugStringOfSegments` states what it is for an assembled path |
| SearchIndex.SlugStringOfSegments | apps/docs/scripts/generate-search-index.ts:45-51 | the slug string of a path assembled from segments is the kept segments joined with `/`, and splitting it gives them back |
| SearchIndex.BasePath | apps/docs/scripts/generate-search-index.ts:177 | the base path is `/docs` for an empty slug and `/docs/` followed by the slug otherwise |
| SearchIndex.PageTitle | apps/docs/scripts/generate-search-index.ts:178 | the page title is never empty: the frontmatter title if non-empty, else the last slug segment if non-empty, else `Untitled` |
| SearchIndex.PageTitleOfSlug | apps/docs/scripts/generate-search-index.ts:178 | without a frontmatter title, a page is titled by the last segment of its slug |
| SearchIndex.ParseLines | apps/docs/scripts/generate-search-index.ts:100-135 | the loop yields the cleaned lines before the first heading as the intro and one section per heading line, running to the next heading or the end |
| SearchIndex.ParseSections | apps/docs/scripts/generate-search-index.ts:90-141 | `parseSections` removes the frontmatter, splits on `\n` and runs the loop with the generator's heading test, title, anchor and cleaning |
| SearchIndex.ParsedSections | apps/docs/scripts/generate-search-index.ts:113-120 | section `k` comes from the `k`-th heading line: its title is that line's trimmed heading text and its anchor is `headingToSlug` of the title |
| SearchIndex.SectionBodiesHoldNoHeading | apps/docs/scripts/generate-search-index.ts:104-122 | no line collected into a section is a heading: every `##` or `###` line closes the section before it |
| SearchIndex.IntroHoldsNoHeading | apps/docs/scripts/generate-search-index.ts:121-125 | no line before the first heading is a heading, so the intro is exactly the text before it |
| SearchIndex.AnchorMap | apps/docs/scripts/generate-search-index.ts:194-197 | every stored section content is at most 300 characters long |
| SearchIndex.AnchorMapKeys | apps/docs/scripts/generate-search-index.ts:195-197 | `sectionContents` has an entry exactly for the anchors of the parsed sections |
| SearchIndex.AnchorMapLast | apps/docs/scripts/generate-search-index.ts:196 | the stored content for an anchor is that of the last section with it, cut to 300 characters |
| SearchIndex.SectionContents | apps/docs/scripts/generate-search-index.ts:195-197 | the loop of `Map.set` calls builds exactly that map |
| SearchIndex.IntroContent | apps/docs/scripts/generate-search-index.ts:181-192 | the intro content is a non-empty description, else the parsed intro cut to 200 characters, else `''` when the source was not read |
| SearchIndex.TocAnchor | apps/docs/scripts/generate-search-index.ts:215 | one leading `#` is removed from a table-of-contents URL |
| SearchIndex.TocDocument | apps/docs/scripts/generate-search-index.ts:214-225 | the document of one table-of-contents entry; `SearchIndex.PageDocumentsShape` states its fields |
| SearchIndex.PageDocuments | apps/docs/scripts/generate-search-index.ts:168-226 | the documents of one page; `SearchIndex.PageDocumentsShape` and `SearchIndex.PageDocumentPaths` state them |
| SearchIndex.PageDocumentsShape | apps/docs/scripts/generate-search-index.ts:202-226 | a page yields exactly one document more than it has TOC entries; the intro document has id `path#intro`, the base path and the page title; entry `k` has id `path#anchor`, path `basePath#anchor`, the entry's title and at most 300 characters of content; all carry the page title and locale |
| SearchIndex.PageDocumentPaths | apps/docs/scripts/generate-search-index.ts:208-223 | the intro document sits at the page's base path and every other document at a fragment of it |
| SearchIndex.ReadFailure | apps/docs/scripts/generate-search-index.ts:184-200 | when the source cannot be read, the intro falls back to the description (or `''`) and every TOC document has empty content |
| SearchIndex.IntroIdCollision | apps/docs/scripts/generate-search-index.ts:204-219 | a first TOC entry `#intro` gets the same id as the intro document |
| SearchIndex.IndexDocuments | apps/docs/scripts/generate-search-index.ts:166-227 | all documents, page after page; `SearchIndex.IndexDocumentsCount` and `SearchIndex.BuildDocuments` state them |
| SearchIndex.IndexDocumentsCount | apps/docs/scripts/generate-search-index.ts:168-227 | the index holds one document per page plus one per table-of-contents entry |
| SearchIndex.BuildTocDocuments | apps/docs/scripts/generate-search-index.ts:213-226 | the loop over the table of contents pushes one document per entry, in order, with content from `sectionContents` or `''` |
| SearchIndex.BuildPageDocuments | apps/docs/scripts/generate-search-index.ts:169-226 | the body of the page loop pushes exactly that page's documents |
| SearchIndex.BuildDocuments | apps/docs/scripts/generate-search-index.ts:168 | the loop over pages collects every page's documents, page after page |
| SearchText.FromDocument | apps/docs/scripts/generate-search-index.ts:203-225 | a hit for a generated document carries its fields and no group title; `SearchText.BreadcrumbOfDocument` states its breadcrumb |
| SearchText.Words | components/search.tsx:61 | `split(/\s+/).filter(Boolean)`: the maximal runs of non-whitespace characters; `SearchText.WordsShape` states them |
| SearchText.QueryWords | components/search.tsx:61 | the words of the lower-cased query; `SearchText.QueryWordsBlank` and `SearchText.QueryWordsShape` state them |
| SearchText.WordsShape | components/search.tsx:61 | `split(/\s+/).filter(Boolean)` yields non-empty words free of whitespace, and none exactly when the string is blank |
| SearchText.QueryWordsBlank | components/search.tsx:58-62 | a query has no words exactly when it is blank, that is, exactly when it trims to `''` |
| SearchText.QueryWordsShape | apps/docs/components/search.tsx:47 | every query word is non-empty and free of whitespace |
| SearchText.FirstMatchSpec | components/search.tsx:65-68 | at each position, the alternation takes the first query word that matches there case-insensitively, and no earlier word matches there |
| SearchText.SplitBy | components/search.tsx:70 | `text.split(pattern)` with a capturing pattern, from a given position; `SearchText.SplitPartsConcat` and `SearchText.SplitPartsAlternate` state its parts |
| SearchText.SplitPartsConcat | apps/docs/components/search.tsx:53 | splitting on the capturing pattern loses nothing: the parts join back to the text |
| SearchText.Highlight | components/search.tsx:57-82 | `highlightText`; `SearchText.HighlightReconstructs`, `SearchText.HighlightGuard` and `SearchText.HighlightMarking` state what it gives |
| SearchText.HighlightReconstructs | components/search.tsx:57-82 | the highlighted segments, joined, give back the text |
| SearchText.HighlightGuard | components/search.tsx:58 | a blank query or an empty text leaves the text as one plain segment |
| SearchText.SplitPartsAlternate | components/search.tsx:70 | there is an odd number of parts, and exactly those at odd positions equal a query word case-insensitively |
| SearchText.HighlightMarking | components/search.tsx:72-81 | a segment is marked exactly when it sits at an odd position, that is, exactly when it case-insensitively equals a query word |
| SearchText.MatchIndexSpec | components/search.tsx:96-105 | the match index is -1 exactly when no word occurs, is otherwise the position of some word, and is at most the `indexOf` of every word that occurs |
| SearchText.MatchIndexIsFirst | apps/docs/components/search.tsx:75-84 | no query word occurs before the match index |
| SearchText.FindMatchIndex | components/search.tsx:100-105 | the loop over the words computes the match index |
| SearchText.GetContentSnippet | components/search.tsx:86-124 | the method computes exactly the snippet function whose cases the lemmas below state |
| SearchText.SnippetEmpty | components/search.tsx:91 | empty content gives an empty snippet |
| SearchText.SnippetNoWords | components/search.tsx:93-94 | a query without words gives the first `maxLength` characters, with no ellipsis |
| SearchText.SnippetNoMatch | components/search.tsx:107-112 | without an occurrence, the snippet is the first `maxLength` characters, followed by `...` exactly when the content is longer |
| SearchText.SnippetWindow | components/search.tsx:114-123 | with a match at `i` and `maxLength >= 30`, the snippet is `content[max(0,i-30)..min(len,i+maxLength-30))`, at most `maxLength` long and holding position `i`; it has `...` in front exactly when it does not start the content and `...` behind exactly when it does not end it |
| SearchText.WindowOfMatch | apps/docs/components/search.tsx:92-98 | the same window rule, for any position inside the content |
| SearchText.GetBreadcrumb | components/search.tsx:127-141 | the parts pushed one by one are joined with ` > ` |
| SearchText.BreadcrumbCases | components/search.tsx:130-138 | the breadcrumb is the group title when it is truthy, then the page title, then the section's own title when it is a section whose title differs |
| SearchText.BreadcrumbOfDocument | apps/docs/components/search.tsx:269 | for generated documents, which have no group title, the breadcrumb is the page title, followed by the title exactly when the other copy shows the page title as a second line |
| SearchText.NavigationTarget | components/search.tsx:272-274 | the target is `/`, the locale, then the result's path, which is recovered from the target |
| SearchText.IsSection | components/search.tsx:279-281 | a result is a section exactly when its path holds `#`; `SearchText.DocumentKinds` states which generated documents are sections |
| SearchText.DocumentKinds | components/search.tsx:279-281 | an intro document is not a section and every TOC document is, when the page slug has no `#`; selecting any of them leads under `/{locale}/docs` |
| SearchSession.WithLocale | components/search.tsx:234-236 | the `where: { locale }` filter keeps exactly the documents of that locale, in order |
| SearchSession.WithLocaleConcat | components/search.tsx:234-236 | the filter keeps the order of the documents: filtering two runs of documents is filtering each, and one document stays exactly when it has the locale |
| SearchSession.Search | components/search.tsx:229-236 | a search returns the first `min(hits, 10)` ranked hits of its pool: the locale's documents when filtered, all of them otherwise |
| SearchSession.ResultsFor | components/search.tsx:221-255 | the results the search effect sets; `SearchSession.ResultsFallback` and the lemmas around it state them |
| SearchSession.ResultsBounded | components/search.tsx:233-244 | there are never more than 10 results |
| SearchSession.ResultsFallback | components/search.tsx:221-255 | no index or a blank query gives no results; otherwise the locale hits, or the all-locale hits exactly when the locale hits are empty |
| SearchSession.ResultsEmpty | apps/docs/components/search.tsx:144-176 | the results are empty exactly when there is no index, the query is blank, or neither search has a hit |
| SearchSession.ResultsFromIndex | components/search.tsx:332-335 | with an engine that returns only documents it was given, every result is a document of the index, and no result shows a locale badge unless the locale search had no hit |
| SearchSession.SearchModal.constructor | apps/docs/components/search.tsx:106-110 | the dialog starts closed, with an empty query, no results, not loading and no index |
| SearchSession.SearchModal.Open | components/search.tsx:199-219 | opening keeps query, results and index; loading starts exactly when a closed dialog without an index opens |
| SearchSession.SearchModal.KeyDown | components/search.tsx:43-54 | `k` with the meta or control key opens the dialog; any other key changes nothing |
| SearchSession.SearchModal.LoadSucceeded | components/search.tsx:206-213 | a loaded index is stored, loading ends, and the results are recomputed for the current query |
| SearchSession.SearchModal.LoadFailed | apps/docs/components/search.tsx:132-138 | a failed load only ends loading: there is still no index, and the load is not retried while the dialog stays open |
| SearchSession.SearchModal.SetQuery | components/search.tsx:221-258 | the new query's results are the fallback selection for the current index, and nothing else changes |
| SearchSession.SearchModal.Close | components/search.tsx:265-270 | closing clears query and results and keeps the index and the loading flag |
| SearchSession.SearchModal.Select | apps/docs/components/search.tsx:193-197 | selecting a result returns `/{locale}{path}` and closes the dialog, clearing query and results |

## Left out

- The Orama engine is left out: schema creation, `insertMultiple`, `save`, `load` and BM25 ranking. Ranking is the `rank` parameter, and `where` is modelled as an exact match on `locale`.
- File and network I/O is left out: `readFile`, `writeFile`, `mkdir`, `fetch`, `response.json()`, `docs.list()`, `content.emit()` and `console` logging. Pages and file contents are inputs.
- The regular-expression passes of `cleanText` before the whitespace collapse (apps/docs/scripts/generate-search-index.ts:67-82) are the `strip` parameter. Their individual semantics are not modelled.
- `toLowerCase` is modelled for ASCII letters only.
- String lengths count characters, not UTF-16 code units, so `slice(0, 200)` and `slice(0, 300)` cut after that many characters.
- In the highlight pattern, the words are escaped, so they match literally and case-insensitively. Escaping is not modelled as a string transformation.
- React rendering, JSX, styling, icons and translations are left out.
- `useState`/`useEffect` scheduling is left out. Each effect runs at once, inside the call that changes what it depends on.
- Async searches are treated as if they finished at once. The order in which overlapping searches resolve, and the stale results this can leave (the code has no guard), is not modelled.
- A load still in flight when the dialog closes and reopens is not modelled as a second concurrent load. Either completion is a plain `LoadSucceeded` or `LoadFailed` call.
- The keyboard listener's registration and `preventDefault` are left out; only its decision is modelled (`SearchModal.KeyDown`).
- The search-modal context provider (components/search-modal-provider.tsx) only holds `open`. It is folded into the class field.
- SearchSession.SearchModal.SetQuery: requires an open dialog, because the input exists only inside the open dialog.
- The zod schemas, the configuration deep-merge, the i18n files, framework configuration and the other UI components are not part of this model.
- `getMarkdown` in apps/docs/lib/slug.ts (lines 60-67) is a file read. It is not part of this model.
- Group identity in `matchSection` (`other !== g`) is modelled by position in the group list. Two entries holding the same object are not distinguished.
- `typeof page === 'string'` is the `Leaf`/`Section` constructor test of the `Page` datatype. Malformed configuration objects are not modelled.
