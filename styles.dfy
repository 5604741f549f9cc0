/**
 * Style sheets and attribute bundles (`FormattedStringStyle` and the
 * per-tag resolution done when a start tag is seen).
 *
 * Attribute keys and values are opaque to the converter. The one key it
 * knows is `Link` (`NSAttributedString.Key.link`), whose value it builds
 * from an anchor's `href`.
 */
module Styles {
  import opened Optional

  /** `NSAttributedString.Key`: the link key, or any key the caller styles with. */
  datatype Key = Link | Named(name: string)

  /** An attribute value: a URL (`Foundation.URL`, kept as its string) or a caller value. */
  datatype Value = Url(href: string) | Opaque(id: nat)

  /** `[NSAttributedString.Key: Any]` */
  type Bundle = map<Key, Value>

  /** `FormattedStringStyle`: tag name to attribute bundle, case-sensitive. */
  type StyleSheet = map<string, Bundle>

  /**
   * `FormattedStringStyle.attributes(forElement:attributes:)`: the style-sheet
   * entry for the tag, or nothing when the tag is unmapped.
   */
  function AttributesFor(style: StyleSheet, element: string, attributes: map<string, string>): (r: Option<Bundle>)
    ensures r.Some? <==> element in style
    ensures r.Some? ==> r.value == style[element]
  {
    if element in style then Some(style[element]) else None
  }

  /** The markup attributes play no part in the lookup: only the tag name does. */
  lemma AttributesForIgnoresMarkup(style: StyleSheet, element: string, a: map<string, string>, b: map<string, string>)
    ensures AttributesFor(style, element, a) == AttributesFor(style, element, b)
  {
  }

  /** The table lookup with `?? [:]`: an unmapped tag gets the empty bundle. */
  function TableBundle(style: StyleSheet, element: string): Bundle
  {
    match AttributesFor(style, element, map[])
    case Some(b) => b
    case None => map[]
  }

  /**
   * The bundle an element opens with (`didStartElement`). It is the table
   * entry for the tag. For an `a` tag that has an `href`, the `Link` key is
   * set to the URL when `isURL` accepts the href. When `isURL` rejects it,
   * the `Link` key is removed: Swift assigns the nil `URL?` through the
   * dictionary subscript.
   */
  function ElementBundle(style: StyleSheet, isURL: string -> bool, element: string, attributes: map<string, string>): (r: Bundle)
    ensures element != "a" || "href" !in attributes ==> r == TableBundle(style, element)
    ensures element == "a" && "href" in attributes ==>
      (Link in r <==> isURL(attributes["href"])) &&
      (Link in r ==> r[Link] == Url(attributes["href"]))
    ensures forall k :: k != Link ==> (k in r <==> k in TableBundle(style, element))
    ensures forall k :: k != Link && k in r ==> r[k] == TableBundle(style, element)[k]
  {
    var bundle := TableBundle(style, element);
    if element == "a" && "href" in attributes then
      var href := attributes["href"];
      if isURL(href) then bundle[Link := Url(href)] else bundle - {Link}
    else
      bundle
  }

  /**
   * The attributes of the whole string when parsing fails: the `body` entry
   * looked up directly (no link injection), or no attributes at all.
   */
  function FallbackBundle(style: StyleSheet): (r: Bundle)
    ensures "body" in style ==> r == style["body"]
    ensures "body" !in style ==> r == map[]
  {
    TableBundle(style, "body")
  }

  /** The `body` element the preprocessor adds carries exactly the fallback bundle. */
  lemma BodyElementIsFallback(style: StyleSheet, isURL: string -> bool)
    ensures ElementBundle(style, isURL, "body", map[]) == FallbackBundle(style)
  {
  }
}
