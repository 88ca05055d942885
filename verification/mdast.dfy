/**
 * The Markdown syntax tree (mdast, extended with the MDX node kinds and the
 * synthetic `section` and grid-table kinds) as one record type. A node's
 * `kind` is its `type` string, so the passes test it exactly as the source
 * does; fields a kind does not use hold "" / None / [].
 */
module Mdast {
  import opened JsStrings

  /** The value of a JSX attribute: absent (`<X flag />`), a literal string, or an `{expression}`. */
  datatype AttrValue = NoValue | Literal(text: string) | Expression(source: string)

  /** `name="value"` attributes, and `{...spread}` expression attributes, which have no name. */
  datatype Attribute =
    | JsxAttribute(name: string, value: AttrValue)
    | JsxExpressionAttribute(source: string)

  datatype Node = Node(
    kind: string,
    name: string,                  // JSX element name
    value: string,                 // text, code and ESM content
    lang: Option<string>,          // code fence language
    meta: Option<string>,          // code fence meta string
    attributes: seq<Attribute>,    // JSX attributes, in source order
    children: seq<Node>)

  function Leaf(kind: string, value: string): Node {
    Node(kind, "", value, None, None, [], [])
  }

  function Parent(kind: string, children: seq<Node>): Node {
    Node(kind, "", "", None, None, [], children)
  }

  function TextNode(value: string): (n: Node)
    ensures n.kind == "text" && n.value == value && n.children == []
  {
    Leaf("text", value)
  }

  predicate IsThematicBreak(n: Node) {
    n.kind == "thematicBreak"
  }

  predicate IsFlowElement(n: Node) {
    n.kind == "mdxJsxFlowElement"
  }
}
