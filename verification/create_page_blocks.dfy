/**
 * `createPageBlocks`: every `table` element directly inside a `div` is
 * replaced by its "div representation": a `div` whose class names come from
 * the text of the first header cell, holding one card `div` per further row,
 * each holding one `div` per cell. Two degenerate tables become an empty
 * `div`, and a lone cell holding a table is replaced by that table.
 */
module PageBlocks {
  import opened JsStrings
  import opened Hast
  import opened Context

  // ---------------------------------------------------------------------
  // Block class names
  // ---------------------------------------------------------------------

  predicate IsNameChar(c: char) {
    '0' <= c <= '9' || 'a' <= c <= 'z'
  }

  predicate NoDoubleDash(s: string) {
    forall k :: 0 <= k < |s| - 1 ==> !(s[k] == '-' && s[k + 1] == '-')
  }

  predicate NameOrDash(s: string) {
    forall k :: 0 <= k < |s| ==> IsNameChar(s[k]) || s[k] == '-'
  }

  /** A class name as the normaliser promises it: non-empty, `[0-9a-z]` and single inner dashes only. */
  predicate IsClassName(s: string) {
    s != [] && NameOrDash(s) && s[0] != '-' && s[|s| - 1] != '-' && NoDoubleDash(s)
  }

  /** `s` without its leading run of characters outside `[0-9a-z]`. */
  function SkipNonName(s: string): (r: string)
    ensures |r| <= |s| && (r == [] || IsNameChar(r[0]))
  {
    if s != [] && !IsNameChar(s[0]) then SkipNonName(s[1..]) else s
  }

  /** `.replace(/[^0-9a-z]+/g, '-')`: each maximal run outside `[0-9a-z]` becomes one dash. */
  function Dasherize(s: string): string
    decreases |s|
  {
    if s == [] then []
    else if IsNameChar(s[0]) then [s[0]] + Dasherize(s[1..])
    else ['-'] + Dasherize(SkipNonName(s[1..]))
  }

  /** The result is empty only for empty input, starts with a dash exactly when the input starts off-name, and has no double dash. */
  lemma {:induction false} DasherizeShape(s: string)
    ensures (Dasherize(s) == []) == (s == [])
    ensures Dasherize(s) != [] ==> (Dasherize(s)[0] == '-' <==> !IsNameChar(s[0]))
    ensures NameOrDash(Dasherize(s)) && NoDoubleDash(Dasherize(s))
    decreases |s|
  {
    if s != [] {
      var rest := if IsNameChar(s[0]) then s[1..] else SkipNonName(s[1..]);
      DasherizeShape(rest);
      var t := Dasherize(rest);
      var r := Dasherize(s);
      assert r == [if IsNameChar(s[0]) then s[0] else '-'] + t;
      assert r[1..] == t;
      assert NoDoubleDash(r) by {
        forall k | 0 <= k < |r| - 1 ensures !(r[k] == '-' && r[k + 1] == '-') {
          if k > 0 {
            assert r[k] == t[k - 1] && r[k + 1] == t[k];
          }
        }
      }
      assert NameOrDash(r) by {
        forall k | 0 <= k < |r| ensures IsNameChar(r[k]) || r[k] == '-' {
          if k > 0 {
            assert r[k] == t[k - 1];
          }
        }
      }
    }
  }

  /** `.replace(/^-+/, '')` */
  function TrimLeadingDashes(s: string): (r: string)
    ensures |r| <= |s| && r == s[|s| - |r|..] && (r == [] || r[0] != '-')
  {
    if s != [] && s[0] == '-' then TrimLeadingDashes(s[1..]) else s
  }

  /** `.replace(/-+$/, '')` */
  function TrimTrailingDashes(s: string): (r: string)
    ensures r <= s && (r == [] || r[|r| - 1] != '-')
  {
    if s != [] && s[|s| - 1] == '-' then TrimTrailingDashes(s[..|s| - 1]) else s
  }

  /** One name through the `map`: lower-cased, dasherized, dashes trimmed at both ends. */
  function ClassName(name: string): string {
    TrimTrailingDashes(TrimLeadingDashes(Dasherize(ToLowerAscii(name))))
  }

  function ClassNames(names: seq<string>): (r: seq<string>)
    ensures |r| <= |names|
    ensures forall j :: 0 <= j < |r| ==> r[j] != ""
  {
    if names == [] then []
    else var c := ClassName(names[0]); (if c == "" then [] else [c]) + ClassNames(names[1..])
  }

  /** The names before the `map`: the text before the last `(`, then the `,`-pieces after it; or the whole text. */
  function RawNames(text: string): (r: seq<string>)
    ensures |r| >= 1
  {
    var idx := LastIndexOfChar(text, '(');
    if idx >= 0 then [Substring(text, 0, idx)] + Split(Substring(text, idx + 1, |text|), ',') else [text]
  }

  function ToBlockCSSClassNames(text: string): (r: seq<string>)
    ensures text == "" ==> r == []
  {
    if text == "" then [] else ClassNames(RawNames(text))
  }

  /** A suffix and a prefix of a string keep its characters and its single dashes. */
  lemma {:induction false} SubstringsKeepShape(s: string, a: nat, b: nat)
    requires a <= b <= |s| && NameOrDash(s) && NoDoubleDash(s)
    ensures NameOrDash(s[a..b]) && NoDoubleDash(s[a..b])
  {
    forall k | 0 <= k < b - a ensures s[a..b][k] == s[a + k] {
    }
  }

  /** A non-empty result of the normaliser is a well-formed class name. */
  lemma {:induction false} ClassNameShape(name: string)
    ensures ClassName(name) == "" || IsClassName(ClassName(name))
  {
    var d := Dasherize(ToLowerAscii(name));
    DasherizeShape(ToLowerAscii(name));
    var l := TrimLeadingDashes(d);
    var t := TrimTrailingDashes(l);
    SubstringsKeepShape(d, |d| - |l|, |d|);
    assert l == d[|d| - |l|..|d|];
    SubstringsKeepShape(l, 0, |t|);
    assert t == l[0..|t|];
  }

  lemma {:induction false} ClassNamesShape(names: seq<string>)
    ensures forall j :: 0 <= j < |ClassNames(names)| ==> IsClassName(ClassNames(names)[j])
  {
    if names != [] {
      ClassNameShape(names[0]);
      ClassNamesShape(names[1..]);
      var c := ClassName(names[0]);
      var rest := ClassNames(names[1..]);
      forall j | 0 <= j < |ClassNames(names)| ensures IsClassName(ClassNames(names)[j]) {
        if c != "" && j > 0 {
          assert ClassNames(names)[j] == rest[j - 1];
        }
      }
    }
  }

  /**
   * Every derived name is a well-formed class name; there are at most one
   * more than the commas after the last `(`, and at most one without a `(`.
   */
  lemma {:induction false} BlockClassNamesFacts(text: string)
    ensures forall j :: 0 <= j < |ToBlockCSSClassNames(text)| ==> IsClassName(ToBlockCSSClassNames(text)[j])
    ensures var idx := LastIndexOfChar(text, '(');
            |ToBlockCSSClassNames(text)| <= if idx >= 0 then 1 + 1 + CountChar(text[idx + 1..], ',') else 1
  {
    var raw := RawNames(text);
    ClassNamesShape(raw);
    RawNamesCount(text);
  }

  lemma {:induction false} RawNamesCount(text: string)
    ensures var idx := LastIndexOfChar(text, '(');
            |RawNames(text)| == if idx >= 0 then 1 + 1 + CountChar(text[idx + 1..], ',') else 1
  {
    var idx := LastIndexOfChar(text, '(');
    if idx >= 0 {
      var after := Substring(text, idx + 1, |text|);
      assert after == text[idx + 1..];
      SplitCount(after, ',');
      assert RawNames(text) == [Substring(text, 0, idx)] + Split(after, ',');
    }
  }

  /** A header cell reading `Cards(card-a, card-b)` names the classes `cards`, `card-a` and `card-b`. */
  lemma {:induction false} BlockClassNamesExample(text: string)
    requires text == "Cards(card-a, card-b)"
    ensures ToBlockCSSClassNames(text) == ["cards", "card-a", "card-b"]
  {
    ExampleNames(text, "Cards", "card-a", " card-b)");
  }

  lemma {:induction false} ExampleNames(text: string, head: string, a: string, b: string)
    requires text == head + "(" + a + "," + b
    requires head == "Cards" && a == "card-a" && b == " card-b)"
    ensures ToBlockCSSClassNames(text) == ["cards", "card-a", "card-b"]
  {
    ExampleRawNames(text, head, a, b);
    ClassNameCards(head);
    ClassNameCardA(a);
    ClassNameCardB(b);
    ThreeClassNames(text, [head, a, b], ["cards", "card-a", "card-b"]);
  }

  lemma {:induction false} ThreeClassNames(text: string, names: seq<string>, classes: seq<string>)
    requires text != "" && RawNames(text) == names && |names| == 3 && |classes| == 3
    requires ClassName(names[0]) == classes[0] != "" && ClassName(names[1]) == classes[1] != ""
    requires ClassName(names[2]) == classes[2] != ""
    ensures ToBlockCSSClassNames(text) == classes
  {
    ClassNamesOfThree(names);
  }

  lemma {:induction false} ClassNamesOfThree(names: seq<string>)
    requires |names| == 3 && ClassName(names[0]) != "" && ClassName(names[1]) != "" && ClassName(names[2]) != ""
    ensures ClassNames(names) == [ClassName(names[0]), ClassName(names[1]), ClassName(names[2])]
  {
    var x, y, z := ClassName(names[0]), ClassName(names[1]), ClassName(names[2]);
    var t1, t2 := names[1..], names[2..];
    assert t1[0] == names[1] && t1[1..] == t2 && t2[0] == names[2] && t2[1..] == [];
    assert ClassNames(t2) == [z] + ClassNames([]);
    assert ClassNames(t1) == [y] + ClassNames(t2);
    assert ClassNames(names) == [x] + ClassNames(t1);
  }

  lemma {:induction false} ExampleRawNames(text: string, head: string, a: string, b: string)
    requires text == head + "(" + a + "," + b
    requires head == "Cards" && a == "card-a" && b == " card-b)"
    ensures RawNames(text) == [head, a, b]
  {
    assert |text| == 21;
    assert text[5] == '(';
    forall k | 5 < k < |text| ensures text[k] != '(' {
      assert text[k] == (a + "," + b)[k - 6];
    }
    LastAt(text, '(', 5);
    assert Substring(text, 0, 5) == head;
    assert Substring(text, 6, |text|) == a + "," + b == Join([a, b], ",");
    SplitJoin([a, b], ',');
  }

  lemma {:induction false} LastAt(s: string, c: char, i: nat)
    requires i < |s| && s[i] == c && forall k :: i < k < |s| ==> s[k] != c
    ensures LastIndexOfChar(s, c) == i
  {
  }

  predicate AllNameChars(s: string) {
    forall k :: 0 <= k < |s| ==> IsNameChar(s[k])
  }

  /** A run of name characters passes through unchanged. */
  lemma {:induction false} DasherizeKeeps(u: string, w: string)
    requires AllNameChars(u)
    ensures Dasherize(u + w) == u + Dasherize(w)
  {
    if u != [] {
      assert (u + w)[1..] == u[1..] + w;
      DasherizeKeeps(u[1..], w);
    } else {
      assert u + w == w;
    }
  }

  /** A single character outside `[0-9a-z]` followed by a name character (or nothing) becomes one dash. */
  lemma {:induction false} DasherizeOne(c: char, v: string)
    requires !IsNameChar(c) && (v == [] || IsNameChar(v[0]))
    ensures Dasherize([c] + v) == "-" + Dasherize(v)
  {
    assert ([c] + v)[1..] == v;
  }

  lemma {:induction false} ClassNameCards(s: string)
    requires s == "Cards"
    ensures ClassName(s) == "cards"
  {
    var l := "cards";
    assert ToLowerAscii(s) == l;
    DasherizeKeeps(l, []);
    assert l + [] == l;
  }

  lemma {:induction false} ClassNameCardA(s: string)
    requires s == "card-a"
    ensures ClassName(s) == "card-a"
  {
    var u, v := "card", "a";
    assert s == u + ("-" + v);
    assert ToLowerAscii(s) == s;
    DasherizeKeeps(u, "-" + v);
    DasherizeOne('-', v);
    DasherizeKeeps(v, []);
    assert v + [] == v;
    assert Dasherize(s) == s;
  }

  lemma {:induction false} ClassNameCardB(s: string)
    requires s == " card-b)"
    ensures ClassName(s) == "card-b"
  {
    LowerKeeps(s);
    DasherizeCardB(s);
    TrimBothDashes(Dasherize(s), "card-b");
  }

  lemma {:induction false} DasherizeCardB(s: string)
    requires s == " card-b)"
    ensures Dasherize(s) == "-card-b-"
  {
    var u, v := "card", "b";
    var w3 := [')'] + [];
    var w2 := v + w3;
    var w1 := ['-'] + w2;
    var w0 := u + w1;
    assert s == [' '] + w0;
    DasherizeOne(')', []);
    DasherizeKeeps(v, w3);
    DasherizeOne('-', w2);
    DasherizeKeeps(u, w1);
    DasherizeOne(' ', w0);
  }

  /** A dash on each side of a name without dashes at its ends: trimming leaves the name. */
  lemma {:induction false} TrimBothDashes(d: string, e: string)
    requires e != [] && e[0] != '-' && e[|e| - 1] != '-' && d == ['-'] + e + ['-']
    ensures TrimTrailingDashes(TrimLeadingDashes(d)) == e
  {
    assert d[1..] == e + ['-'];
    assert (e + ['-'])[0] == e[0];
    assert TrimLeadingDashes(d) == e + ['-'];
    assert (e + ['-'])[..|e|] == e;
  }

  /** Lower-casing leaves a string without upper-case ASCII letters as it is. */
  lemma {:induction false} LowerKeeps(s: string)
    requires forall k :: 0 <= k < |s| ==> !('A' <= s[k] <= 'Z')
    ensures ToLowerAscii(s) == s
  {
  }

  // ---------------------------------------------------------------------
  // Library helpers
  // ---------------------------------------------------------------------

  /** The children of a node; text and comments have none. */
  function Kids(n: HNode): seq<HNode> {
    if n.Root? || n.Element? then n.children else []
  }

  /** `childNodes`: the element children only, in order. */
  function ChildElements(cs: seq<HNode>): (r: seq<HNode>)
    ensures |r| <= |cs|
    ensures forall j :: 0 <= j < |r| ==> r[j].Element? && r[j] in cs
  {
    if cs == [] then [] else (if cs[0].Element? then [cs[0]] else []) + ChildElements(cs[1..])
  }

  /** Element children are kept whole: dropping the rest loses no element. */
  lemma {:induction false} ChildElementsAll(cs: seq<HNode>)
    ensures forall j :: 0 <= j < |cs| && cs[j].Element? ==> cs[j] in ChildElements(cs)
  {
    if cs != [] {
      ChildElementsAll(cs[1..]);
      forall j | 0 <= j < |cs| && cs[j].Element? ensures cs[j] in ChildElements(cs) {
        if j > 0 {
          assert cs[j] == cs[1..][j - 1];
        }
      }
    }
  }

  predicate IsTable(n: HNode) {
    n.Element? && n.tagName == "table"
  }

  /** `select(':scope table', n)`: the first `table` strictly below `n`, in document order. */
  function FirstTable(n: HNode): (r: Option<HNode>)
    ensures r.Some? ==> IsTable(r.value)
    decreases n, 1
  {
    if n.Root? || n.Element? then FirstTableIn(n.children) else None
  }

  function FirstTableIn(cs: seq<HNode>): (r: Option<HNode>)
    ensures r.Some? ==> IsTable(r.value)
    decreases cs, 0
  {
    if cs == [] then None
    else if IsTable(cs[0]) then Some(cs[0])
    else
      match FirstTable(cs[0])
      case Some(t) => Some(t)
      case None => FirstTableIn(cs[1..])
  }

  /** Some node strictly below `n` is a table. */
  predicate HasTable(n: HNode)
    decreases n, 1
  {
    (n.Root? || n.Element?) && HasTableIn(n.children)
  }

  /** Some node of `cs`, or below one of them, is a table. */
  predicate HasTableIn(cs: seq<HNode>)
    decreases cs, 0
  {
    exists j :: 0 <= j < |cs| && (IsTable(cs[j]) || HasTable(cs[j]))
  }

  /** The search finds a table exactly when there is one. */
  lemma {:induction false} FirstTableFinds(n: HNode)
    ensures FirstTable(n).Some? <==> HasTable(n)
    decreases n, 1
  {
    if n.Root? || n.Element? {
      FirstTableInFinds(n.children);
    }
  }

  lemma {:induction false} FirstTableInFinds(cs: seq<HNode>)
    ensures FirstTableIn(cs).Some? <==> HasTableIn(cs)
    decreases cs, 0
  {
    if cs != [] && !IsTable(cs[0]) {
      FirstTableFinds(cs[0]);
      FirstTableInFinds(cs[1..]);
      if HasTableIn(cs) && !HasTable(cs[0]) {
        var j :| 0 <= j < |cs| && (IsTable(cs[j]) || HasTable(cs[j]));
        assert j > 0 && cs[j] == cs[1..][j - 1];
      }
      if HasTableIn(cs[1..]) {
        var j :| 0 <= j < |cs[1..]| && (IsTable(cs[1..][j]) || HasTable(cs[1..][j]));
        assert cs[1..][j] == cs[j + 1];
      }
    }
  }

  // ---------------------------------------------------------------------
  // tableToDivs, as a specification
  // ---------------------------------------------------------------------

  /** The element rows of a `thead` or `tbody` child; nothing for any other child. */
  function SectionRows(child: HNode): seq<HNode> {
    if child.Element? && (child.tagName == "thead" || child.tagName == "tbody") then ChildElements(child.children) else []
  }

  /** `$rows`: the rows of the table's `thead` and `tbody` children, in order. */
  function BodyRows(cs: seq<HNode>): (r: seq<HNode>)
    ensures forall j :: 0 <= j < |r| ==> r[j].Element?
  {
    if cs == [] then [] else BodyRows(cs[..|cs| - 1]) + SectionRows(cs[|cs| - 1])
  }

  /** `h('div', {'data-align': …, 'data-valign': …}, …)`: undefined properties are left out. */
  function CellProps(cell: HNode): (p: map<string, Prop>)
    ensures "data-align" in p <==> cell.Element? && "align" in cell.properties
    ensures "data-valign" in p <==> cell.Element? && "vAlign" in cell.properties
    ensures "data-align" in p ==> p["data-align"] == cell.properties["align"]
    ensures "data-valign" in p ==> p["data-valign"] == cell.properties["vAlign"]
    ensures p.Keys <= {"data-align", "data-valign"}
  {
    if !cell.Element? then map[]
    else
      var a: map<string, Prop> := if "align" in cell.properties then map["data-align" := cell.properties["align"]] else map[];
      if "vAlign" in cell.properties then a["data-valign" := cell.properties["vAlign"]] else a
  }

  /** A cell converted to a `div`, keeping its children. */
  function CellDiv(cell: HNode): (d: HNode)
    ensures d.Element? && d.tagName == "div" && d.children == Kids(cell)
  {
    Element("div", CellProps(cell), Kids(cell))
  }

  function CellDivs(cells: seq<HNode>): (r: seq<HNode>)
    ensures |r| == |cells| && forall k :: 0 <= k < |r| ==> r[k] == CellDiv(cells[k])
  {
    if cells == [] then [] else CellDivs(cells[..|cells| - 1]) + [CellDiv(cells[|cells| - 1])]
  }

  /** One card per row: a `div` of the row's element cells as `div`s. */
  function Card(row: HNode): HNode {
    Element("div", map[], CellDivs(ChildElements(Kids(row))))
  }

  function Cards(rows: seq<HNode>): (r: seq<HNode>)
    ensures |r| == |rows| && forall j :: 0 <= j < |r| ==> r[j] == Card(rows[j])
  {
    if rows == [] then [] else Cards(rows[..|rows| - 1]) + [Card(rows[|rows| - 1])]
  }

  /** The header's class list, or no `className` at all when it is empty. */
  function BlockProps(names: seq<string>): (p: map<string, Prop>)
    ensures "className" in p <==> names != []
    ensures names != [] ==> p == map["className" := Tokens(names)]
    ensures names == [] ==> p == map[]
  {
    if names == [] then map[] else map["className" := Tokens(names)]
  }

  function TableDivs(table: HNode): HNode {
    var rows := BodyRows(Kids(table));
    if rows == [] then EmptyElement("div")
    else
      var cols := ChildElements(Kids(rows[0]));
      if cols == [] then EmptyElement("div")
      else if |rows| == 1 && |cols| == 1 && FirstTable(cols[0]).Some? then FirstTable(cols[0]).value
      else Element("div", BlockProps(ToBlockCSSClassNames(TextContent(cols[0]))), Cards(rows[1..]))
  }

  // ---------------------------------------------------------------------
  // What tableToDivs promises
  // ---------------------------------------------------------------------

  /** No element row, or a header row without an element cell: an empty `div`. */
  lemma {:induction false} TableDivsEmpty(table: HNode)
    requires var rows := BodyRows(Kids(table)); rows == [] || ChildElements(Kids(rows[0])) == []
    ensures TableDivs(table) == Element("div", map[], [])
  {
  }

  /** A lone header row with one cell that holds a table: that table, as it is. */
  lemma {:induction false} TableDivsNested(table: HNode)
    requires var rows := BodyRows(Kids(table));
             |rows| == 1 && |ChildElements(Kids(rows[0]))| == 1 && HasTable(ChildElements(Kids(rows[0]))[0])
    ensures Some(TableDivs(table)) == FirstTable(ChildElements(Kids(BodyRows(Kids(table))[0]))[0])
    ensures IsTable(TableDivs(table))
  {
    FirstTableFinds(ChildElements(Kids(BodyRows(Kids(table))[0]))[0]);
  }

  /**
   * Otherwise: one card per row after the header, in order; card `j` holds one
   * `div` per element cell of row `j + 1`, with that cell's alignment and
   * its own children; `className` only when the header names some class.
   */
  lemma {:induction false} TableDivsCards(table: HNode)
    requires var rows := BodyRows(Kids(table));
             rows != [] && ChildElements(Kids(rows[0])) != []
             && !(|rows| == 1 && |ChildElements(Kids(rows[0]))| == 1 && HasTable(ChildElements(Kids(rows[0]))[0]))
    ensures var rows := BodyRows(Kids(table));
            var r := TableDivs(table);
            var names := ToBlockCSSClassNames(TextContent(ChildElements(Kids(rows[0]))[0]));
            r.Element? && r.tagName == "div"
            && ("className" in r.properties <==> names != [])
            && |r.children| == |rows| - 1
            && forall j :: 0 <= j < |r.children| ==>
                 var cells := ChildElements(Kids(rows[j + 1]));
                 |Kids(r.children[j])| == |cells|
                 && forall k :: 0 <= k < |cells| ==>
                      Kids(Kids(r.children[j])[k]) == Kids(cells[k])
                      && (Kids(r.children[j])[k]).properties == CellProps(cells[k])
  {
    var rows := BodyRows(Kids(table));
    var cols := ChildElements(Kids(rows[0]));
    FirstTableFinds(cols[0]);
    var names := ToBlockCSSClassNames(TextContent(cols[0]));
    CardsDiv(table, rows, cols, names, TableDivs(table));
    CardsShape(rows, names, TableDivs(table));
  }

  lemma {:induction false} CardsDiv(table: HNode, rows: seq<HNode>, cols: seq<HNode>, names: seq<string>, r: HNode)
    requires rows == BodyRows(Kids(table)) && rows != [] && cols == ChildElements(Kids(rows[0])) && cols != []
    requires !(|rows| == 1 && |cols| == 1 && FirstTable(cols[0]).Some?)
    requires names == ToBlockCSSClassNames(TextContent(cols[0])) && r == TableDivs(table)
    ensures r == Element("div", BlockProps(names), Cards(rows[1..]))
  {
  }

  lemma {:induction false} CardsShape(rows: seq<HNode>, names: seq<string>, r: HNode)
    requires rows != [] && r == Element("div", BlockProps(names), Cards(rows[1..]))
    ensures r.Element? && r.tagName == "div"
            && ("className" in r.properties <==> names != [])
            && |r.children| == |rows| - 1
            && forall j :: 0 <= j < |r.children| ==>
                 var cells := ChildElements(Kids(rows[j + 1]));
                 |Kids(r.children[j])| == |cells|
                 && forall k :: 0 <= k < |cells| ==>
                      Kids(Kids(r.children[j])[k]) == Kids(cells[k])
                      && (Kids(r.children[j])[k]).properties == CellProps(cells[k])
  {
  }

  // ---------------------------------------------------------------------
  // tableToDivs, step by step
  // ---------------------------------------------------------------------

  /** The `for … of $table.children` loop collecting `$rows`. */
  method CollectRows(children: seq<HNode>) returns (rows: seq<HNode>)
    ensures rows == BodyRows(children)
  {
    rows := [];
    var i := 0;
    while i < |children|
      invariant 0 <= i <= |children|
      invariant rows == BodyRows(children[..i])
    {
      var child := children[i];
      if child.Element? && (child.tagName == "thead" || child.tagName == "tbody") {
        rows := rows + ChildElements(child.children);
      }
      assert children[..i + 1][..i] == children[..i];
      i := i + 1;
    }
    assert children[..i] == children;
  }

  /** The inner loop: one `div` per element cell of the row. */
  method RowToCard(row: HNode) returns (card: HNode)
    ensures card == Card(row)
  {
    var cells := ChildElements(Kids(row));
    var divs: seq<HNode> := [];
    var k := 0;
    while k < |cells|
      invariant 0 <= k <= |cells|
      invariant divs == CellDivs(cells[..k])
    {
      divs := divs + [Element("div", CellProps(cells[k]), Kids(cells[k]))];
      assert cells[..k + 1][..k] == cells[..k];
      k := k + 1;
    }
    assert cells[..k] == cells;
    card := Element("div", map[], divs);
  }

  /** The outer loop: one card per row. */
  method RowsToCards(rows: seq<HNode>) returns (cards: seq<HNode>)
    ensures cards == Cards(rows)
  {
    cards := [];
    var j := 0;
    while j < |rows|
      invariant 0 <= j <= |rows|
      invariant cards == Cards(rows[..j])
    {
      var card := RowToCard(rows[j]);
      cards := cards + [card];
      assert rows[..j + 1][..j] == rows[..j];
      j := j + 1;
    }
    assert rows[..j] == rows;
  }

  method TableToDivs(table: HNode) returns (r: HNode)
    ensures r == TableDivs(table)
  {
    var rows := CollectRows(Kids(table));
    if |rows| == 0 {
      return EmptyElement("div");
    }
    var header := rows[0];
    rows := rows[1..];
    var headerCols := ChildElements(Kids(header));
    if |headerCols| == 0 {
      return EmptyElement("div");
    }
    if |rows| == 0 && |headerCols| == 1 {
      var nested := FirstTable(headerCols[0]);
      if nested.Some? {
        return nested.value;
      }
    }
    var names := ToBlockCSSClassNames(TextContent(headerCols[0]));
    var props: map<string, Prop> := map["className" := Tokens(names)];
    if |names| == 0 {
      props := props - {"className"};
    }
    assert props == BlockProps(names);
    var cards := RowsToCards(rows);
    r := Element("div", props, cards);
  }

  // ---------------------------------------------------------------------
  // createPageBlocks
  // ---------------------------------------------------------------------

  /** The visit: tables directly inside a `div` are replaced and not entered; all else is entered. */
  function BlocksNode(n: HNode): (r: HNode)
    ensures |Kids(r)| == |Kids(n)|
    ensures n.Element? ==> r.Element? && r.tagName == n.tagName && r.properties == n.properties
    ensures n.Root? ==> r.Root?
    ensures !n.Element? && !n.Root? ==> r == n
    decreases n, 1
  {
    match n
    case Root(cs) => Root(BlocksList(false, cs))
    case Element(t, p, cs) => Element(t, p, BlocksList(t == "div", cs))
    case _ => n
  }

  function BlocksList(inDiv: bool, cs: seq<HNode>): (r: seq<HNode>)
    ensures |r| == |cs|
    decreases cs, 0
  {
    if cs == [] then []
    else [if inDiv && IsTable(cs[0]) then TableDivs(cs[0]) else BlocksNode(cs[0])] + BlocksList(inDiv, cs[1..])
  }

  /**
   * Child `i` of the result is child `i` of the input, replaced by its div
   * representation when it is a table inside a `div`, and otherwise visited.
   */
  lemma {:induction false} BlocksListAt(inDiv: bool, cs: seq<HNode>, i: nat)
    requires i < |cs|
    ensures BlocksList(inDiv, cs)[i] == if inDiv && IsTable(cs[i]) then TableDivs(cs[i]) else BlocksNode(cs[i])
  {
    if i > 0 {
      BlocksListAt(inDiv, cs[1..], i - 1);
    }
  }

  /** Every child of the result sits where its source child sat, in the way `BlocksListAt` says. */
  lemma {:induction false} BlocksNodeChildren(n: HNode, i: nat)
    requires i < |Kids(n)|
    ensures Kids(BlocksNode(n))[i] ==
      if n.Element? && n.tagName == "div" && IsTable(Kids(n)[i]) then TableDivs(Kids(n)[i]) else BlocksNode(Kids(n)[i])
  {
    BlocksListAt(n.Element? && n.tagName == "div", Kids(n), i);
  }

  /** No table sits directly inside a `div` anywhere at or below `n`. */
  predicate NoTableInDiv(n: HNode)
    decreases n, 1
  {
    (n.Root? || n.Element?) ==> NoTableInDivList(n.Element? && n.tagName == "div", n.children)
  }

  predicate NoTableInDivList(inDiv: bool, cs: seq<HNode>)
    decreases cs, 0
  {
    forall j :: 0 <= j < |cs| ==> !(inDiv && IsTable(cs[j])) && NoTableInDiv(cs[j])
  }

  /** A tree with no table inside a `div` comes out unchanged. */
  lemma {:induction false} BlocksNodeUnchanged(n: HNode)
    requires NoTableInDiv(n)
    ensures BlocksNode(n) == n
    decreases n, 1
  {
    if n.Root? || n.Element? {
      BlocksListUnchanged(n.Element? && n.tagName == "div", n.children);
    }
  }

  lemma {:induction false} BlocksListUnchanged(inDiv: bool, cs: seq<HNode>)
    requires NoTableInDivList(inDiv, cs)
    ensures BlocksList(inDiv, cs) == cs
    decreases cs, 0
  {
    if cs != [] {
      BlocksNodeUnchanged(cs[0]);
      assert NoTableInDivList(inDiv, cs[1..]) by {
        forall j | 0 <= j < |cs[1..]| ensures !(inDiv && IsTable(cs[1..][j])) && NoTableInDiv(cs[1..][j]) {
          assert cs[1..][j] == cs[j + 1];
        }
      }
      BlocksListUnchanged(inDiv, cs[1..]);
    }
  }

  /** The step: the visit applied to the document's render tree. */
  method CreatePageBlocks(content: Content)
    modifies content
    ensures content.hast == BlocksNode(old(content.hast))
    ensures content.mdast == old(content.mdast) && content.html == old(content.html)
  {
    content.hast := BlocksNode(content.hast);
  }
}
