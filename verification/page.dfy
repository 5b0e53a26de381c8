/** The anchors of a loaded page as the scraper's selectors see them. Both
    the pagination detector and the listing extractor read these. */
module Page {

  import opened Wrappers

  /** The six alternatives of the structural "next" selector list:
      `a[rel="next"]`, `a.next`, `a.pagination-next`, `a[aria-label="Next"]`,
      `a.blog-pager-older-link` and `a.older-posts`. */
  datatype NextSelector =
    | RelNext
    | ClassNext
    | PaginationNext
    | AriaLabelNext
    | BlogPagerOlder
    | OlderPosts

  /** An `a` element as the page's DOM presents it.
      `href` is the element's resolved `href` property (empty when the
      element has no `href` attribute); `hrefAttr` is the raw attribute as
      an HTML parser reports it; `text` is its `textContent`;
      `nextSelectors` are the structural "next" selectors it matches; and
      `inArticleTitle` says whether it matches the article-link selector list
      `.entry-title a, .post-title a, .title a`. */
  datatype Anchor = Anchor(
    href: string,
    hrefAttr: Option<string>,
    text: string,
    nextSelectors: set<NextSelector>,
    inArticleTitle: bool)
}
