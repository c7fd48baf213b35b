/** The parts of a desktop-entry link that the link base looks at.

    The link itself is parsed elsewhere (obt/link.c); this module only gives it a shape:
    the record a parse yields, and the heap object (`ObtLink`) that the registry owns and
    that the category index points to without owning. */
module Links {

  datatype Option<T> = None | Some(value: T)

  /** A category tag: an interned category string (a `GQuark`). */
  type Tag = nat

  /** The kinds of desktop entry a link can be. */
  datatype LinkType = Application | Url | Directory

  /** What parsing one `.desktop` file yields, as far as the link base uses it:
      the file it came from (`obt_link_source_file`), its type (`obt_link_type`), for
      applications its declared categories (`obt_link_app_categories`), and the rest of
      the parse as an opaque code (`attributes`: the `NoDisplay`, `Hidden`, `OnlyShowIn`
      and `NotShowIn` keys and whatever else the visibility test reads). Two parses of
      the same file can thus differ only in whether they are shown. */
  datatype LinkRecord = LinkRecord(sourceFile: string, linkType: LinkType, categories: seq<Tag>,
                                   attributes: nat)

  /** A parsed link. It is an object, so two links parsed from the same file are
      still two links: the category index compares links by identity. */
  class Link {
    const sourceFile: string
    const linkType: LinkType
    const categories: seq<Tag>

    constructor (r: LinkRecord)
      ensures sourceFile == r.sourceFile && linkType == r.linkType && categories == r.categories
    {
      sourceFile := r.sourceFile;
      linkType := r.linkType;
      categories := r.categories;
    }

    /** True when this link was made from record `r`. */
    predicate From(r: LinkRecord) {
      sourceFile == r.sourceFile && linkType == r.linkType && categories == r.categories
    }
  }

  /** A re-parse that changes only what the visibility test reads makes the same kind of
      link, yet is a different record, so `obt_link_display` may answer differently. */
  lemma VisibilityIsNotInTheLink(r: LinkRecord, a: nat, l: Link)
    requires a != r.attributes
    ensures r.(attributes := a) != r
    ensures l.From(r) <==> l.From(r.(attributes := a))
  {
  }
}
