/**
 * The per-page data the content collection yields at build time: the page's
 * source path (relative to the content directory), its frontmatter and its
 * table of contents.
 */
module Content {
  import opened Strings

  datatype Frontmatter = Frontmatter(title: string, description: Option<string>)

  /** One table-of-contents entry; `url` is the heading fragment, normally `#anchor`. */
  datatype TocItem = TocItem(title: string, url: string, depth: int)

  datatype DocPage = DocPage(path: string, frontmatter: Frontmatter, toc: Option<seq<TocItem>>)
}
