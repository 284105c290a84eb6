/** The exceptions that abort a conversion run, one per way the program can raise. */
module Errors {
  import opened Wrappers

  datatype Error =
      /** `int(post['id'])` on a post without an id raises `TypeError`, which
          the heartbeat's `except ValueError` does not catch. */
    | MissingPostId
      /** The HTML converter exited non-zero or reported on its error stream. */
    | ConversionFailed(status: int, errorOutput: Option<string>, html: string)
      /** A classified `category` element has no child text, so
          `element.firstChild.data` raises `AttributeError`. */
    | MissingLabel(domain: string, nicename: string)
      /** `strptime` rejects the publication date. */
    | BadDate(date: string)
      /** Buffer mode needs the link to name the file, and the post has none. */
    | MissingLink
      /** The link has no `/`, so `link.split('/')[-2]` raises `IndexError`. */
    | NoParentSegment(link: string)
}
