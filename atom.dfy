/**
 * An Atom feed (RFC 4287) as the script sees it once parsed: only the parts it
 * looks up. Each optional element stands for what a namespace-qualified `find`
 * returns, the first child of that name or nothing.
 */
module Atom {
  import opened Wrappers

  /** A found element; `text` is its text content, `None` when it has none. */
  datatype Element = Element(text: Option<string>)

  /** `atom:author` (section 4.2.1 of RFC 4287) with its `atom:name` child. */
  datatype Author = Author(name: Option<Element>)

  /** `atom:link` (section 4.2.7 of RFC 4287): the three attributes the script
      reads. An attribute may be absent, or present with any text. */
  datatype Link = Link(title: Option<string>, mediaType: Option<string>, href: Option<string>)

  /** `atom:entry` (section 4.1.2 of RFC 4287): its text children, and its
      `atom:author` and `atom:link` children in document order. */
  datatype Entry = Entry(
    title: Option<Element>,
    summary: Option<Element>,
    published: Option<Element>,
    updated: Option<Element>,
    id: Option<Element>,
    authors: seq<Author>,
    links: seq<Link>)

  /** The feed root with its `atom:entry` children in document order. */
  datatype Feed = Feed(entries: seq<Entry>)
}
