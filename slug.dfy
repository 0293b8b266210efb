/**
 * Page slugs (lib/slug.ts): a page's URL slug is its source path without the
 * `.mdx` extension, split on `/`, with route-group folders `(name)` and
 * `index` segments dropped. Lookup scans the page list for the first page
 * whose slug equals the requested one.
 *
 * apps/docs/lib/slug.ts repeats `pathToSlug`, `slugsEqual` and the lookup
 * loop (as `getPageBySlug`) line for line; module DocsSlug reuses these.
 */
module Slug {
  import opened Strings
  import opened Content

  /** A path segment that survives into the slug. */
  predicate IsKeptSegment(segment: string) {
    !StartsWith(segment, "(") && segment != "index"
  }

  /** `path.replace(/\.mdx$/, '')`: one trailing `.mdx` is removed. */
  function StripMdx(path: string): (r: string)
    ensures EndsWith(path, ".mdx") ==> r + ".mdx" == path
    ensures !EndsWith(path, ".mdx") ==> r == path
  {
    if EndsWith(path, ".mdx") then path[..|path| - 4] else path
  }

  function KeepSegments(segments: seq<string>): (r: seq<string>)
    ensures |r| <= |segments|
    ensures forall k :: 0 <= k < |r| ==> IsKeptSegment(r[k])
  {
    if segments == [] then []
    else (if IsKeptSegment(segments[0]) then [segments[0]] else []) + KeepSegments(segments[1..])
  }

  /** Filtering only drops segments, so a character absent from all segments is absent from the kept ones. */
  lemma {:induction false} KeepSegmentsAvoid(segments: seq<string>, c: char)
    requires forall k :: 0 <= k < |segments| ==> c !in segments[k]
    ensures forall k :: 0 <= k < |KeepSegments(segments)| ==> c !in KeepSegments(segments)[k]
  {
    if segments != [] {
      KeepSegmentsAvoid(segments[1..], c);
      var head := if IsKeptSegment(segments[0]) then [segments[0]] else [];
      var rest := KeepSegments(segments[1..]);
      assert KeepSegments(segments) == head + rest;
      assert forall k :: |head| <= k < |head| + |rest| ==> (head + rest)[k] == rest[k - |head|];
    }
  }

  /** Filtering segments keeps their relative order: it distributes over concatenation. */
  lemma {:induction false} KeepSegmentsAppend(a: seq<string>, b: seq<string>)
    ensures KeepSegments(a + b) == KeepSegments(a) + KeepSegments(b)
  {
    if a != [] {
      assert (a + b)[1..] == a[1..] + b;
      KeepSegmentsAppend(a[1..], b);
    } else {
      assert a + b == b;
    }
  }

  /** The first segment is kept or dropped on its own, the rest are filtered after it. */
  lemma KeepSegmentsCons(s: string, rest: seq<string>)
    ensures KeepSegments([s] + rest) == (if IsKeptSegment(s) then [s] else []) + KeepSegments(rest)
  {
    assert ([s] + rest)[1..] == rest;
  }

  /** `pathToSlug`. */
  function PathToSlug(path: string): (slug: seq<string>)
    ensures forall k :: 0 <= k < |slug| ==> IsKeptSegment(slug[k]) && '/' !in slug[k]
  {
    KeepSegmentsAvoid(Split(StripMdx(path), '/'), '/');
    KeepSegments(Split(StripMdx(path), '/'))
  }

  /**
   * The slug of a path assembled from segments is exactly the kept segments,
   * in their original order.
   */
  lemma PathToSlugOfSegments(segments: seq<string>)
    requires |segments| >= 1
    requires forall k :: 0 <= k < |segments| ==> '/' !in segments[k]
    ensures PathToSlug(Join(segments, "/") + ".mdx") == KeepSegments(segments)
  {
    var p := Join(segments, "/");
    assert EndsWith(p + ".mdx", ".mdx");
    assert StripMdx(p + ".mdx") == p;
    SplitJoin(segments, '/');
  }

  /** `slugsEqual`: same length and pairwise equal elements. */
  function SlugsEqual(a: seq<string>, b: seq<string>): (r: bool)
    ensures r <==> a == b
  {
    |a| == |b| && forall i :: 0 <= i < |a| ==> a[i] == b[i]
  }

  predicate HasSlug(page: DocPage, slug: seq<string>) {
    PathToSlug(page.path) == slug
  }

  /** The first page, in list order, for which `slugOf` maps its path to `slug`. */
  function FirstBySlug(pages: seq<DocPage>, slug: seq<string>, slugOf: string -> seq<string>): Option<DocPage> {
    if pages == [] then None
    else if SlugsEqual(slugOf(pages[0].path), slug) then Some(pages[0])
    else FirstBySlug(pages[1..], slug, slugOf)
  }

  /** No page before position `i` maps to `slug`. */
  ghost predicate NoneBefore(pages: seq<DocPage>, slug: seq<string>, slugOf: string -> seq<string>, i: int)
    requires i <= |pages|
  {
    forall j :: 0 <= j < i ==> slugOf(pages[j].path) != slug
  }

  /** The search finds nothing exactly when no page maps to the slug, and otherwise the first page that does. */
  lemma {:induction false} FirstBySlugIsFirst(pages: seq<DocPage>, slug: seq<string>, slugOf: string -> seq<string>)
    ensures FirstBySlug(pages, slug, slugOf).None? <==> NoneBefore(pages, slug, slugOf, |pages|)
    ensures FirstBySlug(pages, slug, slugOf).Some? ==>
      exists i :: 0 <= i < |pages| && pages[i] == FirstBySlug(pages, slug, slugOf).value &&
        slugOf(pages[i].path) == slug && NoneBefore(pages, slug, slugOf, i)
  {
    if pages != [] && slugOf(pages[0].path) != slug {
      var rest := pages[1..];
      FirstBySlugIsFirst(rest, slug, slugOf);
      assert forall i :: 1 <= i < |pages| ==> pages[i] == rest[i - 1];
      if FirstBySlug(rest, slug, slugOf).Some? {
        var i :| 0 <= i < |rest| && rest[i] == FirstBySlug(rest, slug, slugOf).value &&
          slugOf(rest[i].path) == slug && NoneBefore(rest, slug, slugOf, i);
        assert NoneBefore(pages, slug, slugOf, i + 1);
      }
    } else if pages != [] {
      assert NoneBefore(pages, slug, slugOf, 0);
    }
  }

  /** `getPage`'s search: the first page, in list order, whose slug is `slug`. */
  function Lookup(pages: seq<DocPage>, slug: seq<string>): Option<DocPage> {
    FirstBySlug(pages, slug, PathToSlug)
  }

  /** Lookup finds nothing exactly when no page has the slug, and otherwise the first page that has it. */
  lemma LookupIsFirstMatch(pages: seq<DocPage>, slug: seq<string>)
    ensures Lookup(pages, slug).None? <==> forall i :: 0 <= i < |pages| ==> !HasSlug(pages[i], slug)
    ensures Lookup(pages, slug).Some? ==>
      exists i :: 0 <= i < |pages| && pages[i] == Lookup(pages, slug).value && HasSlug(pages[i], slug) &&
        forall j :: 0 <= j < i ==> !HasSlug(pages[j], slug)
  {
    FirstBySlugIsFirst(pages, slug, PathToSlug);
  }

  /** `getPage`: the loop with an early return. */
  method GetPage(pages: seq<DocPage>, slug: seq<string>) returns (r: Option<DocPage>)
    ensures r == Lookup(pages, slug)
  {
    for i := 0 to |pages|
      invariant Lookup(pages, slug) == Lookup(pages[i..], slug)
    {
      assert pages[i..][1..] == pages[i + 1..];
      if SlugsEqual(PathToSlug(pages[i].path), slug) {
        return Some(pages[i]);
      }
    }
    return None;
  }

  lemma StripMdxOf(path: string)
    ensures StripMdx(path + ".mdx") == path
  {
    assert EndsWith(path + ".mdx", ".mdx");
  }

  lemma SplitOf(path: string, segments: seq<string>)
    requires |segments| >= 1
    requires forall k :: 0 <= k < |segments| ==> '/' !in segments[k]
    requires Join(segments, "/") == path
    ensures Split(path, '/') == segments
  {
    SplitJoin(segments, '/');
  }

  /** lib/slug.test.ts: the extension is removed. */
  lemma PathToSlugExtension()
    ensures PathToSlug("introduction.mdx") == ["introduction"]
  {
    assert StripMdx("introduction.mdx") == "introduction" by { StripMdxOf("introduction"); }
    assert Split("introduction", '/') == ["introduction"] by { SplitOf("introduction", ["introduction"]); }
    KeepIntroduction();
  }

  lemma KeepIntroduction()
    ensures KeepSegments(["introduction"]) == ["introduction"]
  {
    assert "introduction"[..1][0] == 'i' && "introduction"[2] != "index"[2];
  }

  /** lib/slug.test.ts: route groups are removed, other segments keep their order. */
  lemma PathToSlugRouteGroups()
    ensures PathToSlug("(core)/(api)/reference/auth.mdx") == ["reference", "auth"]
  {
    StripRouteGroups();
    SplitRouteGroups();
    KeepRouteGroups();
  }

  lemma StripRouteGroups()
    ensures PathToSlug("(core)/(api)/reference/auth.mdx") == KeepSegments(Split("(core)/(api)/reference/auth", '/'))
  {
    assert StripMdx("(core)/(api)/reference/auth.mdx") == "(core)/(api)/reference/auth" by { StripMdxOf("(core)/(api)/reference/auth"); }
  }

  lemma JoinRouteGroups()
    ensures Join(["(core)", "(api)", "reference", "auth"], "/") == "(core)/(api)/reference/auth"
  {
    JoinFour("(core)", "(api)", "reference", "auth", "/");
  }

  lemma SlashFreeRouteGroups()
    ensures forall k :: 0 <= k < 4 ==> '/' !in ["(core)", "(api)", "reference", "auth"][k]
  {
  }

  lemma SplitRouteGroups()
    ensures Split("(core)/(api)/reference/auth", '/') == ["(core)", "(api)", "reference", "auth"]
  {
    JoinRouteGroups();
    SlashFreeRouteGroups();
    SplitJoin(["(core)", "(api)", "reference", "auth"], '/');
  }

  lemma KeepRouteGroups()
    ensures KeepSegments(["(core)", "(api)", "reference", "auth"]) == ["reference", "auth"]
  {
    assert !IsKeptSegment("(core)") by { assert "(core)"[..1] == "("; }
    assert !IsKeptSegment("(api)") by { assert "(api)"[..1] == "("; }
    assert IsKeptSegment("reference") by { assert "reference"[..1][0] == 'r' && "reference"[0] != "index"[0]; }
    assert IsKeptSegment("auth") by { assert "auth"[..1][0] == 'a' && |"auth"| != |"index"|; }
    assert ["(core)", "(api)", "reference", "auth"] == ["(core)"] + ["(api)", "reference", "auth"];
    KeepSegmentsCons("(core)", ["(api)", "reference", "auth"]);
    assert ["(api)", "reference", "auth"] == ["(api)"] + ["reference", "auth"];
    KeepSegmentsCons("(api)", ["reference", "auth"]);
    assert ["reference", "auth"] == ["reference"] + ["auth"];
    KeepSegmentsCons("reference", ["auth"]);
    assert ["auth"] == ["auth"] + [];
    KeepSegmentsCons("auth", []);
  }

  /** lib/slug.test.ts: a route group in the middle is removed, the rest keep their order. */
  lemma PathToSlugMixed()
    ensures PathToSlug("docs/(advanced)/features/hooks.mdx") == ["docs", "features", "hooks"]
  {
    StripMixed();
    SplitMixed();
    KeepMixed();
  }

  lemma StripMixed()
    ensures PathToSlug("docs/(advanced)/features/hooks.mdx") == KeepSegments(Split("docs/(advanced)/features/hooks", '/'))
  {
    assert StripMdx("docs/(advanced)/features/hooks.mdx") == "docs/(advanced)/features/hooks" by { StripMdxOf("docs/(advanced)/features/hooks"); }
  }

  lemma JoinMixed()
    ensures Join(["docs", "(advanced)", "features", "hooks"], "/") == "docs/(advanced)/features/hooks"
  {
    JoinFour("docs", "(advanced)", "features", "hooks", "/");
  }

  lemma SlashFreeMixed()
    ensures forall k :: 0 <= k < 4 ==> '/' !in ["docs", "(advanced)", "features", "hooks"][k]
  {
  }

  lemma SplitMixed()
    ensures Split("docs/(advanced)/features/hooks", '/') == ["docs", "(advanced)", "features", "hooks"]
  {
    JoinMixed();
    SlashFreeMixed();
    SplitJoin(["docs", "(advanced)", "features", "hooks"], '/');
  }

  lemma KeepMixed()
    ensures KeepSegments(["docs", "(advanced)", "features", "hooks"]) == ["docs", "features", "hooks"]
  {
    assert IsKeptSegment("docs") by { assert "docs"[..1][0] == 'd' && |"docs"| != |"index"|; }
    assert !IsKeptSegment("(advanced)") by { assert "(advanced)"[..1] == "("; }
    assert IsKeptSegment("features") by { assert "features"[..1][0] == 'f' && |"features"| != |"index"|; }
    assert IsKeptSegment("hooks") by { assert "hooks"[..1][0] == 'h' && "hooks"[0] != "index"[0]; }
    assert ["docs", "(advanced)", "features", "hooks"] == ["docs"] + ["(advanced)", "features", "hooks"];
    KeepSegmentsCons("docs", ["(advanced)", "features", "hooks"]);
    assert ["(advanced)", "features", "hooks"] == ["(advanced)"] + ["features", "hooks"];
    KeepSegmentsCons("(advanced)", ["features", "hooks"]);
    assert ["features", "hooks"] == ["features"] + ["hooks"];
    KeepSegmentsCons("features", ["hooks"]);
    assert ["hooks"] == ["hooks"] + [];
    KeepSegmentsCons("hooks", []);
  }

  /** An `index` segment is removed. */
  lemma PathToSlugIndex()
    ensures PathToSlug("guides/index.mdx") == ["guides"]
  {
    assert StripMdx("guides/index.mdx") == "guides/index" by { StripMdxOf("guides/index"); }
    assert Split("guides/index", '/') == ["guides", "index"] by { SplitOf("guides/index", ["guides", "index"]); }
    KeepIndex();
  }

  lemma KeepIndex()
    ensures KeepSegments(["guides", "index"]) == ["guides"]
  {
    assert "guides"[..1][0] == 'g' && "guides"[0] != "index"[0];
    assert "index"[..1][0] == 'i';
  }

  lemma SlugsEqualExamples()
    ensures SlugsEqual([], [])
    ensures SlugsEqual(["guides", "setup"], ["guides", "setup"])
    ensures !SlugsEqual(["introduction"], [])
    ensures !SlugsEqual(["a", "b"], ["a"])
    ensures !SlugsEqual(["guides", "setup"], ["guides", "intro"])
  {
  }
}
