/**
 * `mdxToBlocks`: each top-level JSX flow element of the Markdown tree becomes
 * a grid table. The header row names the block and its variant; each further
 * row holds one node. A `RedoclyAPIBlock` gets one `code` row per attribute.
 * Any other block takes its rows from the siblings that follow it:
 * `repeat × slotCount` of them, as far as there are any.
 */
module GridTables {
  import opened JsStrings
  import opened Mdast
  import opened Context

  // ---------------------------------------------------------------------
  // Attributes
  // ---------------------------------------------------------------------

  predicate Named(a: Attribute, name: string) {
    a.JsxAttribute? && a.name == name
  }

  /** `getAttribute`: the first attribute called `name`; an expression attribute has no name. */
  function GetAttribute(attrs: seq<Attribute>, name: string): Option<Attribute> {
    if attrs == [] then None
    else if Named(attrs[0], name) then Some(attrs[0])
    else GetAttribute(attrs[1..], name)
  }

  /** `getAttribute` finds an attribute iff one has the name, and then the first one. */
  lemma {:induction false} GetAttributeFirst(attrs: seq<Attribute>, name: string)
    ensures GetAttribute(attrs, name).None? <==> forall j :: 0 <= j < |attrs| ==> !Named(attrs[j], name)
    ensures GetAttribute(attrs, name).Some? ==>
              exists j :: 0 <= j < |attrs| && attrs[j] == GetAttribute(attrs, name).value && Named(attrs[j], name)
                          && forall l :: 0 <= l < j ==> !Named(attrs[l], name)
  {
    if attrs != [] && !Named(attrs[0], name) {
      GetAttributeFirst(attrs[1..], name);
      var r := GetAttribute(attrs[1..], name);
      assert forall j :: 1 <= j < |attrs| ==> attrs[j] == attrs[1..][j - 1];
      if r.Some? {
        var j :| 0 <= j < |attrs[1..]| && attrs[1..][j] == r.value && Named(attrs[1..][j], name)
                 && forall l :: 0 <= l < j ==> !Named(attrs[1..][l], name);
        assert attrs[j + 1] == r.value;
        assert forall l :: 0 <= l < j + 1 ==> !Named(attrs[l], name);
      }
    } else if attrs != [] {
      assert attrs[0] == GetAttribute(attrs, name).value;
    }
  }

  /**
   * `getAttributeValue`: the attribute's value when it is a non-empty string
   * (an `{expression}` value is an object, a spread attribute's value its source),
   * the fallback otherwise.
   */
  function GetAttributeValue(attr: Option<Attribute>, fallback: string): (r: string)
    ensures attr.None? ==> r == fallback
    ensures attr.Some? && attr.value.JsxAttribute? && attr.value.value.Literal? && attr.value.value.text != ""
            ==> r == attr.value.value.text
    ensures attr.Some? && attr.value.JsxAttribute? && !(attr.value.value.Literal? && attr.value.value.text != "")
            ==> r == fallback
  {
    match attr
    case None => fallback
    case Some(JsxAttribute(_, Literal(s))) => if s != "" then s else fallback
    case Some(JsxAttribute(_, _)) => fallback
    case Some(JsxExpressionAttribute(src)) => if src != "" then src else fallback
  }

  /** The `slots` attribute split at commas. */
  function Slots(block: Node): (r: seq<string>)
    ensures GetAttribute(block.attributes, "slots").None? ==> r == [""]
  {
    Split(GetAttributeValue(GetAttribute(block.attributes, "slots"), ""), ',')
  }

  /** `parseInt` of the `repeat` attribute, `"1"` when there is none; `None` is NaN. */
  function Repeat(block: Node): Option<int> {
    ParseInt(GetAttributeValue(GetAttribute(block.attributes, "repeat"), "1"))
  }

  function Variants(block: Node): string {
    GetAttributeValue(GetAttribute(block.attributes, "variant"), "")
  }

  /** `repeat * slots.length`; NaN stays NaN. */
  function TotalRows(block: Node): (r: Option<int>)
    ensures Repeat(block).None? <==> r.None?
    ensures r.Some? ==> r.value == Repeat(block).value * |Slots(block)|
  {
    match Repeat(block)
    case None => None
    case Some(n) => Some(n * |Slots(block)|)
  }

  /** Without `slots` and `repeat` attributes a block takes one sibling. */
  lemma {:induction false} DefaultTotalRows(block: Node)
    requires GetAttribute(block.attributes, "slots").None?
    requires GetAttribute(block.attributes, "repeat").None?
    ensures TotalRows(block) == Some(1)
  {
  }

  // ---------------------------------------------------------------------
  // The grid table
  // ---------------------------------------------------------------------

  /** `makeGridTableRow` */
  function MakeGridTableRow(child: Node): (r: Node)
    ensures r.kind == "gtRow" && |r.children| == 1
    ensures r.children[0].kind == "gtCell" && r.children[0].children == [child]
  {
    Parent("gtRow", [Parent("gtCell", [child])])
  }

  function MakeRows(nodes: seq<Node>): (r: seq<Node>)
    ensures |r| == |nodes|
    ensures forall j :: 0 <= j < |nodes| ==> r[j] == MakeGridTableRow(nodes[j])
  {
    if nodes == [] then [] else [MakeGridTableRow(nodes[0])] + MakeRows(nodes[1..])
  }

  /** The header row's content: `paragraph > strong > text "{name} ({variant})"`. */
  function Header(name: string, variants: string): Node {
    Parent("paragraph", [Parent("strong", [TextNode(name + " (" + variants + ")")])])
  }

  function GridTable(header: Node, rows: seq<Node>): (r: Node)
    ensures r.kind == "gridTable" && |r.children| == 1 && r.children[0].kind == "gtBody"
    ensures |r.children[0].children| == 1 + |rows|
  {
    Parent("gridTable", [Parent("gtBody", MakeRows([header] + rows))])
  }

  /** The node in the single cell of each row of a grid table (the inverse of building one). */
  function CellNodes(rows: seq<Node>): seq<Node> {
    if rows == [] then []
    else
      var cell := if |rows[0].children| == 1 then rows[0].children[0] else Parent("gtCell", []);
      var node := if |cell.children| == 1 then cell.children[0] else Parent("paragraph", []);
      [node] + CellNodes(rows[1..])
  }

  lemma {:induction false} CellNodesMakeRows(nodes: seq<Node>)
    ensures CellNodes(MakeRows(nodes)) == nodes
  {
    if nodes != [] {
      assert MakeRows(nodes)[1..] == MakeRows(nodes[1..]);
      CellNodesMakeRows(nodes[1..]);
    }
  }

  /** Reading the cells of a grid table gives back its header and, in order, the nodes it was built from. */
  lemma {:induction false} GridTableCells(header: Node, rows: seq<Node>)
    ensures CellNodes(GridTable(header, rows).children[0].children) == [header] + rows
  {
    CellNodesMakeRows([header] + rows);
  }

  /** A `RedoclyAPIBlock` row: `code` with value `data-{name}={value}`. */
  function RedoclyRow(a: Attribute): (r: Node)
    ensures r.kind == "code" && r.children == []
    ensures a.JsxAttribute? && a.value.Literal? ==> r.value == "data-" + a.name + "=" + a.value.text
  {
    var name := if a.JsxAttribute? then a.name else "undefined";
    var value := match a
      case JsxAttribute(_, Literal(s)) => s
      case JsxAttribute(_, Expression(src)) => src
      case JsxAttribute(_, NoValue) => "undefined"
      case JsxExpressionAttribute(src) => src;
    Leaf("code", "data-" + name + "=" + value)
  }

  function RedoclyRows(attrs: seq<Attribute>): (r: seq<Node>)
    ensures |r| == |attrs|
    ensures forall j :: 0 <= j < |attrs| ==> r[j] == RedoclyRow(attrs[j])
  {
    if attrs == [] then [] else [RedoclyRow(attrs[0])] + RedoclyRows(attrs[1..])
  }

  predicate IsRedocly(block: Node) {
    block.name == "RedoclyAPIBlock"
  }

  // ---------------------------------------------------------------------
  // How many siblings a block takes
  // ---------------------------------------------------------------------

  /** `total` rows wanted, `remaining` siblings available: a non-positive or NaN count takes none. */
  function Consumed(remaining: nat, total: Option<int>): (k: nat)
    ensures k <= remaining
    ensures total.None? || total.value <= 0 ==> k == 0
    ensures total.Some? && 0 < total.value ==> k == if total.value <= remaining then total.value else remaining
  {
    match total
    case None => 0
    case Some(t) => if t <= 0 then 0 else if t <= remaining then t else remaining
  }

  /** The number of siblings after `cs[i]` that its grid table takes (none for `RedoclyAPIBlock`). */
  function Consumes(cs: seq<Node>, i: nat): (k: nat)
    requires i < |cs|
    ensures i + 1 + k <= |cs|
    ensures IsRedocly(cs[i]) ==> k == 0
  {
    if IsRedocly(cs[i]) then 0 else Consumed(|cs| - i - 1, TotalRows(cs[i]))
  }

  /** The nodes below the header of the grid table for `cs[i]`. */
  function BlockRows(cs: seq<Node>, i: nat): (r: seq<Node>)
    requires i < |cs|
    ensures IsRedocly(cs[i]) ==> r == RedoclyRows(cs[i].attributes)
    ensures !IsRedocly(cs[i]) ==> r == cs[i + 1..i + 1 + Consumes(cs, i)]
  {
    if IsRedocly(cs[i]) then RedoclyRows(cs[i].attributes) else cs[i + 1..i + 1 + Consumes(cs, i)]
  }

  function BlockTable(cs: seq<Node>, i: nat): Node
    requires i < |cs|
  {
    GridTable(Header(cs[i].name, Variants(cs[i])), BlockRows(cs, i))
  }

  /** One turn of the loop on a block at `i`: the block and the siblings it takes become one grid table. */
  function Expand(cs: seq<Node>, i: nat): (r: seq<Node>)
    requires i < |cs|
    ensures |r| == |cs| - Consumes(cs, i) && i < |r|
    ensures r[..i] == cs[..i]
    ensures r[i] == BlockTable(cs, i)
    ensures r[i + 1..] == cs[i + 1 + Consumes(cs, i)..]
  {
    cs[..i] + [BlockTable(cs, i)] + cs[i + 1 + Consumes(cs, i)..]
  }

  /** The loop from index `i` on. */
  function ExpandFrom(cs: seq<Node>, i: nat): seq<Node>
    decreases |cs| - i
  {
    if i >= |cs| then cs
    else if !IsFlowElement(cs[i]) then ExpandFrom(cs, i + 1)
    else ExpandFrom(Expand(cs, i), i + 1)
  }

  function Expanded(cs: seq<Node>): seq<Node> {
    ExpandFrom(cs, 0)
  }

  // ---------------------------------------------------------------------
  // What the loop guarantees
  // ---------------------------------------------------------------------

  /** The loop never touches the children before its index. */
  lemma {:induction false} ExpandFromPrefix(cs: seq<Node>, i: nat)
    requires i <= |cs|
    ensures i <= |ExpandFrom(cs, i)| && ExpandFrom(cs, i)[..i] == cs[..i]
    decreases |cs| - i
  {
    if i < |cs| {
      if !IsFlowElement(cs[i]) {
        ExpandFromPrefix(cs, i + 1);
        assert cs[..i + 1][..i] == cs[..i];
        assert ExpandFrom(cs, i)[..i] == ExpandFrom(cs, i + 1)[..i + 1][..i];
      } else {
        var e := Expand(cs, i);
        ExpandFromPrefix(e, i + 1);
        assert ExpandFrom(cs, i)[..i] == e[..i + 1][..i];
      }
    }
  }

  /** No top-level JSX flow element is left: each became a grid table or a row of one. */
  lemma {:induction false} ExpandFromNoFlow(cs: seq<Node>, i: nat)
    requires i <= |cs|
    requires forall j :: 0 <= j < i ==> !IsFlowElement(cs[j])
    ensures forall j :: 0 <= j < |ExpandFrom(cs, i)| ==> !IsFlowElement(ExpandFrom(cs, i)[j])
    decreases |cs| - i
  {
    if i < |cs| {
      if !IsFlowElement(cs[i]) {
        ExpandFromNoFlow(cs, i + 1);
      } else {
        var e := Expand(cs, i);
        assert forall j :: 0 <= j < i ==> e[j] == cs[..i][j];
        ExpandFromNoFlow(e, i + 1);
      }
    }
  }

  lemma {:induction false} ExpandedNoFlow(cs: seq<Node>)
    ensures forall j :: 0 <= j < |Expanded(cs)| ==> !IsFlowElement(Expanded(cs)[j])
  {
    ExpandFromNoFlow(cs, 0);
  }

  /** Every child of the result is a child of the input or a grid table. */
  lemma {:induction false} ExpandFromFrom(cs: seq<Node>, i: nat)
    requires i <= |cs|
    ensures forall j :: 0 <= j < |ExpandFrom(cs, i)| ==>
              ExpandFrom(cs, i)[j] in cs || ExpandFrom(cs, i)[j].kind == "gridTable"
    decreases |cs| - i
  {
    if i < |cs| {
      if !IsFlowElement(cs[i]) {
        ExpandFromFrom(cs, i + 1);
      } else {
        var e := Expand(cs, i);
        ExpandFromFrom(e, i + 1);
        forall x | x in e ensures x in cs || x.kind == "gridTable" {
          var j :| 0 <= j < |e| && e[j] == x;
          if j < i {
            assert x == cs[..i][j];
          } else if j > i {
            assert x == cs[i + 1 + Consumes(cs, i)..][j - i - 1];
          }
        }
      }
    }
  }

  /** A child list without a JSX flow element is left as it is. */
  lemma {:induction false} ExpandFromNoBlocks(cs: seq<Node>, i: nat)
    requires forall j :: 0 <= j < |cs| ==> !IsFlowElement(cs[j])
    ensures ExpandFrom(cs, i) == cs
    decreases |cs| - i
  {
    if i < |cs| {
      ExpandFromNoBlocks(cs, i + 1);
    }
  }

  /**
   * A block's grid table holds, in order, the header `"{name} ({variant})"`
   * and the siblings it took; those and nothing else are gone from the list.
   */
  lemma {:induction false} BlockTableRows(cs: seq<Node>, i: nat)
    requires i < |cs| && !IsRedocly(cs[i])
    ensures var k := Consumes(cs, i);
            CellNodes(BlockTable(cs, i).children[0].children)
            == [Header(cs[i].name, Variants(cs[i]))] + cs[i + 1..i + 1 + k]
            && Expand(cs, i) == cs[..i] + [BlockTable(cs, i)] + cs[i + 1 + k..]
  {
    GridTableCells(Header(cs[i].name, Variants(cs[i])), BlockRows(cs, i));
  }

  /** The count taken: `min(max(0, repeat × slotCount), remaining)`. */
  lemma {:induction false} ConsumesCount(cs: seq<Node>, i: nat)
    requires i < |cs| && !IsRedocly(cs[i]) && Repeat(cs[i]).Some?
    ensures var t := Repeat(cs[i]).value * |Slots(cs[i])|;
            Consumes(cs, i) == if t <= 0 then 0 else if t <= |cs| - i - 1 then t else |cs| - i - 1
  {
  }

  // ---------------------------------------------------------------------
  // The code as written: `slice` with a negative end, and the splice count
  // ---------------------------------------------------------------------

  /** `mdast.children.slice(i + 1, i + 1 + totalRows)`; NaN as an end is 0. */
  function SliceRowsAsWritten(cs: seq<Node>, i: nat, total: Option<int>): seq<Node> {
    Slice(cs, i + 1, match total { case None => 0 case Some(t) => i + 1 + t })
  }

  /** The inserted rows as written, for either kind of block. */
  function BlockRowsAsWritten(cs: seq<Node>, i: nat): seq<Node>
    requires i < |cs|
  {
    if IsRedocly(cs[i]) then RedoclyRows(cs[i].attributes) else SliceRowsAsWritten(cs, i, TotalRows(cs[i]))
  }

  /** `splice(i, 1 + slotsToInsert.length, table)`; splice stops at the end of the list. */
  function ExpandAsWritten(cs: seq<Node>, i: nat): seq<Node>
    requires i < |cs|
  {
    var rows := BlockRowsAsWritten(cs, i);
    var stop := if i + 1 + |rows| <= |cs| then i + 1 + |rows| else |cs|;
    cs[..i] + [GridTable(Header(cs[i].name, Variants(cs[i])), rows)] + cs[stop..]
  }

  /** While the slice end is not negative, `slice` takes exactly the clamped count. */
  lemma {:induction false} SliceRowsAgree(cs: seq<Node>, i: nat, total: Option<int>)
    requires i < |cs|
    requires total.Some? ==> 0 <= i + 1 + total.value
    ensures SliceRowsAsWritten(cs, i, total) == cs[i + 1..i + 1 + Consumed(|cs| - i - 1, total)]
  {
  }

  /** The code as written agrees with the model for every other block whose slice end is not negative. */
  lemma {:induction false} ExpandAsWrittenAgrees(cs: seq<Node>, i: nat)
    requires i < |cs| && !IsRedocly(cs[i])
    requires TotalRows(cs[i]).Some? ==> 0 <= i + 1 + TotalRows(cs[i]).value
    ensures ExpandAsWritten(cs, i) == Expand(cs, i)
  {
    SliceRowsAgree(cs, i, TotalRows(cs[i]));
    SpliceSameRows(cs, i, BlockRows(cs, i));
  }

  /** When the code as written takes the model's rows, its splice removes exactly the rows taken. */
  lemma {:induction false} SpliceSameRows(cs: seq<Node>, i: nat, rows: seq<Node>)
    requires i < |cs| && !IsRedocly(cs[i]) && rows == BlockRows(cs, i) && rows == BlockRowsAsWritten(cs, i)
    ensures ExpandAsWritten(cs, i) == Expand(cs, i)
  {
    assert |rows| == Consumes(cs, i);
  }

  /**
   * A negative `repeat × slotCount` below `-(i + 1)` makes the slice end count
   * from the end of the list: the block takes `|cs| + total` siblings instead of none.
   */
  lemma {:induction false} NegativeRepeatTakesSiblings(cs: seq<Node>, i: nat)
    requires i < |cs| && !IsRedocly(cs[i])
    requires TotalRows(cs[i]).Some?
    requires i + 1 + TotalRows(cs[i]).value < 0 < |cs| + TotalRows(cs[i]).value
    ensures var t := TotalRows(cs[i]).value;
            BlockRowsAsWritten(cs, i) == cs[i + 1..|cs| + i + 1 + t]
            && |BlockRowsAsWritten(cs, i)| == |cs| + t > 0 == Consumes(cs, i)
  {
  }

  /** `<X repeat="-5" />` at the head of ten children: the code as written puts five of them into its table. */
  lemma {:induction false} NegativeRepeatExample(rest: seq<Node>)
    requires |rest| == 9
    ensures var cs := [Node("mdxJsxFlowElement", "X", "", None, None, [JsxAttribute("repeat", Literal("-5"))], [])] + rest;
            BlockRowsAsWritten(cs, 0) == rest[..5] && Consumes(cs, 0) == 0
  {
    var block := Node("mdxJsxFlowElement", "X", "", None, None, [JsxAttribute("repeat", Literal("-5"))], []);
    var cs := [block] + rest;
    assert GetAttribute(block.attributes, "repeat") == Some(JsxAttribute("repeat", Literal("-5")));
    assert Unsigned(TrimStart("-5")) == "5";
    assert DigitRun("5") == 1;
    assert ParseInt("-5") == Some(-5);
    assert TotalRows(block) == Some(-5);
    NegativeRepeatTakesSiblings(cs, 0);
    assert cs[1..5] == rest[..4];
  }

  /**
   * A `RedoclyAPIBlock` with `n` attributes: the splice count as written is
   * `1 + n`, so the `n` siblings after it are removed from the document and
   * appear nowhere in its table.
   */
  lemma {:induction false} RedoclyRemovesSiblings(cs: seq<Node>, i: nat)
    requires i < |cs| && IsRedocly(cs[i])
    requires i + 1 + |cs[i].attributes| <= |cs|
    ensures var n := |cs[i].attributes|;
            ExpandAsWritten(cs, i)[i + 1..] == cs[i + 1 + n..]
            && |ExpandAsWritten(cs, i)| == |cs| - n
            && Expand(cs, i)[i + 1..] == cs[i + 1..]
  {
  }

  // ---------------------------------------------------------------------
  // The step
  // ---------------------------------------------------------------------

  /** The slice a block other than `RedoclyAPIBlock` takes is its `BlockRows`, of `Consumes` siblings. */
  lemma {:induction false} SiblingRows(cs: seq<Node>, i: nat, slots: seq<string>, repeat: Option<int>, taken: nat, rows: seq<Node>)
    requires i < |cs| && !IsRedocly(cs[i])
    requires slots == Split(GetAttributeValue(GetAttribute(cs[i].attributes, "slots"), ""), ',')
    requires repeat == ParseInt(GetAttributeValue(GetAttribute(cs[i].attributes, "repeat"), "1"))
    requires taken == Consumed(|cs| - i - 1, if repeat.None? then None else Some(repeat.value * |slots|))
    requires i + 1 + taken <= |cs| && rows == cs[i + 1..i + 1 + taken]
    ensures taken == Consumes(cs, i) && rows == BlockRows(cs, i)
  {
    assert slots == Slots(cs[i]) && repeat == Repeat(cs[i]);
  }

  /** A turn of the loop that splices the block's grid table in is one step of `ExpandFrom`. */
  lemma {:induction false} ExpandTurn(cs: seq<Node>, i: nat, variants: string, rows: seq<Node>, taken: nat, r: seq<Node>)
    requires i < |cs| && IsFlowElement(cs[i])
    requires variants == Variants(cs[i]) && rows == BlockRows(cs, i) && taken == Consumes(cs, i)
    requires r == cs[..i] + [GridTable(Header(cs[i].name, variants), rows)] + cs[i + 1 + taken..]
    ensures r == Expand(cs, i) && ExpandFrom(cs, i) == ExpandFrom(r, i + 1)
  {
  }

  method MdxToBlocks(content: Content)
    modifies content
    ensures content.mdast == old(content.mdast).(children := Expanded(old(content.mdast).children))
    ensures content.hast == old(content.hast) && content.html == old(content.html)
  {
    var i := 0;
    while i < |content.mdast.children|
      invariant i <= |content.mdast.children|
      invariant content.mdast.(children := []) == old(content.mdast).(children := [])
      invariant ExpandFrom(content.mdast.children, i) == Expanded(old(content.mdast).children)
      invariant content.hast == old(content.hast) && content.html == old(content.html)
      decreases |content.mdast.children| - i
    {
      var children := content.mdast.children;
      var node := children[i];
      if node.kind != "mdxJsxFlowElement" {
        assert ExpandFrom(children, i) == ExpandFrom(children, i + 1);
        i := i + 1;
        continue;
      }
      var variants := GetAttributeValue(GetAttribute(node.attributes, "variant"), "");
      var slotsToInsert: seq<Node>;
      var taken: nat;
      if node.name == "RedoclyAPIBlock" {
        slotsToInsert := RedoclyRows(node.attributes);
        taken := 0;
        assert taken == Consumes(children, i) && slotsToInsert == BlockRows(children, i);
      } else {
        var slots := Split(GetAttributeValue(GetAttribute(node.attributes, "slots"), ""), ',');
        var repeat := ParseInt(GetAttributeValue(GetAttribute(node.attributes, "repeat"), "1"));
        var totalRows := if repeat.None? then None else Some(repeat.value * |slots|);
        taken := Consumed(|children| - i - 1, totalRows);
        slotsToInsert := children[i + 1..i + 1 + taken];
        SiblingRows(children, i, slots, repeat, taken, slotsToInsert);
      }
      var expanded := children[..i] + [GridTable(Header(node.name, variants), slotsToInsert)] + children[i + 1 + taken..];
      ExpandTurn(children, i, variants, slotsToInsert, taken, expanded);
      content.mdast := content.mdast.(children := expanded);
      i := i + 1;
    }
  }
}
