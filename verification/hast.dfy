/**
 * The HTML-like render tree (hast). Element properties are a map from the
 * property name to a string or a token list (`className`).
 */
module Hast {

  datatype Prop = Str(s: string) | Tokens(items: seq<string>)

  datatype HNode =
    | Root(children: seq<HNode>)
    | Element(tagName: string, properties: map<string, Prop>, children: seq<HNode>)
    | Text(value: string)
    | Comment(value: string)

  /** `h(tag)`: an element with no properties and no children. */
  function EmptyElement(tag: string): (e: HNode)
    ensures e.Element? && e.tagName == tag && e.properties == map[] && e.children == []
  {
    Element(tag, map[], [])
  }

  /**
   * `hast-util-to-string`: the value of a text or comment node; for a parent,
   * the concatenated text of its descendant text nodes (comments inside count
   * for nothing).
   */
  function TextContent(n: HNode): string {
    match n
    case Text(v) => v
    case Comment(v) => v
    case Root(cs) => TextContentList(cs)
    case Element(_, _, cs) => TextContentList(cs)
  }

  function TextContentList(cs: seq<HNode>): string {
    if cs == [] then "" else (if cs[0].Comment? then "" else TextContent(cs[0])) + TextContentList(cs[1..])
  }
}
