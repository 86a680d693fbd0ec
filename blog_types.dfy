/**
 * The records of the blog: a content entry as the content collection
 * supplies it, and the summary the pages display.
 */
module BlogTypes {
  import opened Wrappers
  import IsoDate

  /**
   * A blog entry of the `blog` collection, reduced to its front matter.
   * `tags` is `None` when the front matter has no `tags` field, because
   * the summary code reads it through optional chaining.
   */
  datatype Post = Post(
    slug: string,
    title: string,
    description: string,
    pubDate: IsoDate.Timestamp,
    tags: Option<seq<string>>,
    draft: bool
  )

  /** The display projection of a post. */
  datatype PostSummary = PostSummary(
    slug: string,
    title: string,
    excerpt: string,
    date: string,
    tag: string
  )
}
