/**
 * `removeMdxVars`: a pre-order walk of the Markdown tree that deletes ESM
 * `import` statements and replaces each `<Vars.x>` JSX text element with the
 * template text `{{Vars.x}}`, skipping the descendants of both.
 *
 * The walk keeps an index into the parent's child list; after a deletion it
 * moves on to index + 1 of the shortened list, so the node that slid into the
 * deleted one's place is passed over (neither examined nor descended into).
 * `RemoveList` reproduces that order exactly.
 */
module MdxVars {
  import opened JsStrings
  import opened Mdast
  import opened Context

  predicate IsImport(n: Node) {
    n.kind == "mdxjsEsm" && StartsWith(n.value, "import ")
  }

  predicate IsVars(n: Node) {
    n.kind == "mdxJsxTextElement" && StartsWith(n.name, "Vars.")
  }

  function VarsText(n: Node): (t: Node)
    ensures t.kind == "text" && t.value == "{{" + n.name + "}}" && t.children == []
  {
    TextNode("{{" + n.name + "}}")
  }

  /** A node the visitor let through (CONTINUE): its children are walked. */
  function RemoveNode(n: Node): (r: Node)
    ensures r.(children := n.children) == n
  {
    n.(children := RemoveList(n.children))
  }

  /** The walk over one child list, starting at its first index. */
  function RemoveList(cs: seq<Node>): (r: seq<Node>)
    ensures |r| <= |cs|
    decreases cs, 0
  {
    if cs == [] then []
    else if IsImport(cs[0]) then
      // splice(idx, 1), then resume at idx + 1: cs[1] is passed over
      if |cs| == 1 then [] else [cs[1]] + RemoveList(cs[2..])
    else if IsVars(cs[0]) then [VarsText(cs[0])] + RemoveList(cs[1..])
    else [RemoveNode(cs[0])] + RemoveList(cs[1..])
  }

  // ---------------------------------------------------------------------
  // Reference: the rewrite applied everywhere
  // ---------------------------------------------------------------------

  /**
   * Every import deleted and every `Vars.` element replaced, at every depth.
   * The pass does part of this rewrite and nothing else, so both sides agree
   * once it is completed.
   */
  function CanonNode(n: Node): Node {
    if IsVars(n) then VarsText(n) else n.(children := CanonList(n.children))
  }

  function CanonList(cs: seq<Node>): seq<Node> {
    if cs == [] then []
    else if IsImport(cs[0]) then CanonList(cs[1..])
    else [CanonNode(cs[0])] + CanonList(cs[1..])
  }

  lemma {:induction false} CanonListCons(n: Node, rest: seq<Node>)
    ensures CanonList([n] + rest) == (if IsImport(n) then [] else [CanonNode(n)]) + CanonList(rest)
  {
    assert ([n] + rest)[0] == n && ([n] + rest)[1..] == rest;
  }

  /**
   * The pass only deletes imports and only replaces `Vars.` elements: all
   * other nodes survive with their contents and relative order.
   */
  lemma {:induction false} RemoveNodeSound(n: Node)
    ensures CanonNode(RemoveNode(n)) == CanonNode(n)
  {
    if !IsVars(n) {
      RemoveListSound(n.children);
    }
  }

  lemma {:induction false} RemoveListSound(cs: seq<Node>)
    ensures CanonList(RemoveList(cs)) == CanonList(cs)
    decreases cs, 0
  {
    if cs == [] {
    } else if IsImport(cs[0]) {
      if |cs| > 1 {
        CanonListCons(cs[1], RemoveList(cs[2..]));
        RemoveListSound(cs[2..]);
        CanonListCons(cs[1], cs[2..]);
        assert cs[1..] == [cs[1]] + cs[2..];
      }
    } else if IsVars(cs[0]) {
      CanonListCons(VarsText(cs[0]), RemoveList(cs[1..]));
      RemoveListSound(cs[1..]);
      assert CanonNode(VarsText(cs[0])) == VarsText(cs[0]);
    } else {
      CanonListCons(RemoveNode(cs[0]), RemoveList(cs[1..]));
      RemoveNodeSound(cs[0]);
      RemoveListSound(cs[1..]);
    }
  }

  /**
   * In a child list with no import, every `Vars.` element is replaced at its
   * own index, every other node is walked, and the length does not change.
   */
  lemma {:induction false} VarsReplacedInPlace(cs: seq<Node>)
    requires forall i :: 0 <= i < |cs| ==> !IsImport(cs[i])
    ensures |RemoveList(cs)| == |cs|
    ensures forall i :: 0 <= i < |cs| ==>
      RemoveList(cs)[i] == if IsVars(cs[i]) then VarsText(cs[i]) else RemoveNode(cs[i])
  {
    if cs != [] {
      VarsReplacedInPlace(cs[1..]);
      forall i | 0 < i < |cs|
        ensures RemoveList(cs)[i] == if IsVars(cs[i]) then VarsText(cs[i]) else RemoveNode(cs[i])
      {
        assert RemoveList(cs)[i] == RemoveList(cs[1..])[i - 1];
      }
    }
  }

  /** Of two adjacent imports only the first is removed: the walk passes over the second. */
  lemma {:induction false} AdjacentImportKept(a: Node, b: Node, rest: seq<Node>)
    requires IsImport(a) && IsImport(b)
    ensures RemoveList([a, b] + rest) == [b] + RemoveList(rest)
  {
    assert ([a, b] + rest)[2..] == rest;
  }

  // ---------------------------------------------------------------------
  // The step
  // ---------------------------------------------------------------------

  method RemoveMdxVars(content: Content)
    modifies content
    ensures content.mdast == RemoveNode(old(content.mdast))
    ensures content.hast == old(content.hast) && content.html == old(content.html)
  {
    content.mdast := RemoveNode(content.mdast);
  }
}
