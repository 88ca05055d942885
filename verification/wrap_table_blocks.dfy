/**
 * `wrapTableBlocks`: every Markdown table the walk reaches that has at least
 * one row gets a new first row holding a single cell with the text `Table`
 * (the block name the page builder expects); the walk then skips the
 * table's rows, so a table nested in a cell is not wrapped.
 */
module TableBlocks {
  import opened Mdast
  import opened Context

  predicate IsTable(n: Node) {
    n.kind == "table"
  }

  /** The row that is put in front: `tableRow > tableCell > text "Table"`. */
  function HeaderRow(): (r: Node)
    ensures r.kind == "tableRow" && |r.children| == 1
    ensures r.children[0].kind == "tableCell" && r.children[0].children == [TextNode("Table")]
  {
    Parent("tableRow", [Parent("tableCell", [TextNode("Table")])])
  }

  /** The visitor on `n` (unshift, then SKIP) and, when it continues, the walk below it. */
  function WrapNode(n: Node): (r: Node)
    ensures IsTable(n) && n.children != [] ==> r.children == [HeaderRow()] + n.children
    ensures r.(children := n.children) == n
  {
    if IsTable(n) && n.children != [] then n.(children := [HeaderRow()] + n.children)
    else n.(children := WrapList(n.children))
  }

  function WrapList(cs: seq<Node>): (r: seq<Node>)
    ensures |r| == |cs|
  {
    if cs == [] then [] else [WrapNode(cs[0])] + WrapList(cs[1..])
  }

  // ---------------------------------------------------------------------
  // Partner: taking the header row off again
  // ---------------------------------------------------------------------

  /** Drops the first row of every table the walk reaches. */
  function UnwrapNode(n: Node): Node {
    if IsTable(n) && n.children != [] then n.(children := n.children[1..])
    else n.(children := UnwrapList(n.children))
  }

  function UnwrapList(cs: seq<Node>): seq<Node> {
    if cs == [] then [] else [UnwrapNode(cs[0])] + UnwrapList(cs[1..])
  }

  /**
   * Removing the first row of each reached table restores the input: the pass
   * adds exactly one row to each non-empty table and changes nothing else.
   */
  lemma {:induction false} WrapNodeRoundTrip(n: Node)
    ensures UnwrapNode(WrapNode(n)) == n
  {
    if IsTable(n) && n.children != [] {
      assert ([HeaderRow()] + n.children)[1..] == n.children;
    } else {
      WrapListRoundTrip(n.children);
    }
  }

  lemma {:induction false} WrapListRoundTrip(cs: seq<Node>)
    ensures UnwrapList(WrapList(cs)) == cs
  {
    if cs != [] {
      WrapNodeRoundTrip(cs[0]);
      WrapListRoundTrip(cs[1..]);
      assert WrapList(cs)[0] == WrapNode(cs[0]) && WrapList(cs)[1..] == WrapList(cs[1..]);
    }
  }

  /** Every table the walk reaches: empty, or its first row is the `Table` header. */
  predicate Headed(n: Node) {
    if IsTable(n) then n.children == [] || n.children[0] == HeaderRow()
    else forall i :: 0 <= i < |n.children| ==> Headed(n.children[i])
  }

  lemma {:induction false} WrapNodeHeaded(n: Node)
    ensures Headed(WrapNode(n))
  {
    if !IsTable(n) {
      WrapListHeaded(n.children);
    }
  }

  lemma {:induction false} WrapListHeaded(cs: seq<Node>)
    ensures forall i :: 0 <= i < |cs| ==> Headed(WrapList(cs)[i])
  {
    if cs != [] {
      WrapNodeHeaded(cs[0]);
      WrapListHeaded(cs[1..]);
      forall i | 0 < i < |cs| ensures Headed(WrapList(cs)[i]) {
        assert WrapList(cs)[i] == WrapList(cs[1..])[i - 1];
      }
    }
  }

  /** A subtree holding no table is left as it is. */
  predicate HasTable(n: Node) {
    IsTable(n) || exists i :: 0 <= i < |n.children| && HasTable(n.children[i])
  }

  lemma {:induction false} WrapNodeNoTable(n: Node)
    requires !HasTable(n)
    ensures WrapNode(n) == n
  {
    WrapListNoTable(n.children);
  }

  lemma {:induction false} WrapListNoTable(cs: seq<Node>)
    requires forall i :: 0 <= i < |cs| ==> !HasTable(cs[i])
    ensures WrapList(cs) == cs
  {
    if cs != [] {
      WrapNodeNoTable(cs[0]);
      WrapListNoTable(cs[1..]);
    }
  }

  // ---------------------------------------------------------------------
  // The step
  // ---------------------------------------------------------------------

  method WrapTableBlocks(content: Content)
    modifies content
    ensures content.mdast == WrapNode(old(content.mdast))
    ensures content.hast == old(content.hast) && content.html == old(content.html)
  {
    content.mdast := WrapNode(content.mdast);
  }
}
