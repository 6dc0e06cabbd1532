/** What the scripts take from a loaded EPUB: the table of contents and the
    document items, in the order get_items_of_type(ITEM_DOCUMENT) yields
    them (which need not be the reading order). Loading the archive is not modelled;
    both arrive as values. */
module Book {
  import opened Extract

  /** One table-of-contents entry. A Link is a plain entry; a Section is the
      (section, [children]) pair the EPUB library uses for a nested part:
      the section's own title and href, then its children in order. */
  datatype TocItem =
    | Link(title: string, href: string)
    | Section(title: string, href: string, children: seq<TocItem>)

  /** One document item: its file name and the text leaves its HTML parses
      into. */
  datatype Document = Document(name: string, leaves: seq<Leaf>)

  /** The names of the document items, in order. */
  function Names(docs: seq<Document>): (ns: seq<string>)
    ensures |ns| == |docs| && forall k :: 0 <= k < |docs| ==> ns[k] == docs[k].name
  {
    seq(|docs|, k requires 0 <= k < |docs| => docs[k].name)
  }

  /** Every href of the table of contents, depth first: an entry's own href
      comes before those of its children. */
  function Hrefs(items: seq<TocItem>): seq<string>
    decreases items
  {
    if items == [] then [] else ItemHrefs(items[0]) + Hrefs(items[1..])
  }

  function ItemHrefs(item: TocItem): seq<string>
    decreases item
  {
    match item
    case Link(_, href) => [href]
    case Section(_, href, children) => [href] + Hrefs(children)
  }

  /** Python's range(lo, hi). */
  function Range(lo: int, hi: int): (r: seq<int>)
    ensures |r| == (if lo < hi then hi - lo else 0)
    ensures forall k :: 0 <= k < |r| ==> r[k] == lo + k
  {
    if lo < hi then seq(hi - lo, k requires 0 <= k < hi - lo => lo + k) else []
  }
}
