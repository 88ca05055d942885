/**
 * `fixInlineAlert`: a pre-order walk of the Markdown tree that, on every
 * `InlineAlert…` JSX flow element it reaches, sets the value of each `slots`
 * attribute to `paragraph` and then skips the element's descendants.
 */
module InlineAlert {
  import opened JsStrings
  import opened Mdast
  import opened Context

  predicate IsInlineAlert(n: Node) {
    n.kind == "mdxJsxFlowElement" && StartsWith(n.name, "InlineAlert")
  }

  predicate IsSlots(a: Attribute) {
    a.JsxAttribute? && a.name == "slots"
  }

  const Paragraph: Attribute := JsxAttribute("slots", Literal("paragraph"))

  /** The `attributes.forEach` loop: overwrite the value of every `slots` attribute. */
  function FixSlots(attrs: seq<Attribute>): (r: seq<Attribute>)
    ensures |r| == |attrs|
    ensures forall i :: 0 <= i < |attrs| ==> r[i] == if IsSlots(attrs[i]) then Paragraph else attrs[i]
  {
    if attrs == [] then [] else [if IsSlots(attrs[0]) then Paragraph else attrs[0]] + FixSlots(attrs[1..])
  }

  /** The visitor applied to `n` and, unless it returned SKIP, to its descendants. */
  function FixNode(n: Node): (r: Node)
    ensures IsInlineAlert(n) ==> r.children == n.children
    ensures r.(attributes := n.attributes, children := n.children) == n
  {
    if IsInlineAlert(n) then n.(attributes := FixSlots(n.attributes))
    else n.(children := FixList(n.children))
  }

  function FixList(cs: seq<Node>): (r: seq<Node>)
    ensures |r| == |cs|
  {
    if cs == [] then [] else [FixNode(cs[0])] + FixList(cs[1..])
  }

  // ---------------------------------------------------------------------
  // What the pass guarantees
  // ---------------------------------------------------------------------

  /**
   * Every `InlineAlert` element the walk reaches (one not below another
   * `InlineAlert`) has only `paragraph` as the value of its `slots` attributes.
   */
  predicate AllFixed(n: Node) {
    if IsInlineAlert(n) then forall i :: 0 <= i < |n.attributes| && IsSlots(n.attributes[i]) ==> n.attributes[i] == Paragraph
    else forall i :: 0 <= i < |n.children| ==> AllFixed(n.children[i])
  }

  lemma {:induction false} FixNodeFixes(n: Node)
    ensures AllFixed(FixNode(n))
  {
    if !IsInlineAlert(n) {
      FixListFixes(n.children);
    }
  }

  lemma {:induction false} FixListFixes(cs: seq<Node>)
    ensures forall i :: 0 <= i < |cs| ==> AllFixed(FixList(cs)[i])
  {
    if cs != [] {
      FixNodeFixes(cs[0]);
      FixListFixes(cs[1..]);
      forall i | 0 <= i < |cs| ensures AllFixed(FixList(cs)[i]) {
        if i > 0 {
          assert FixList(cs)[i] == FixList(cs[1..])[i - 1];
        }
      }
    }
  }

  /**
   * `b` is `a` with at most the values of some `slots` attributes changed:
   * same kinds, names, values, attribute names and counts, same tree shape.
   */
  predicate SameButSlots(a: Node, b: Node) {
    a.(attributes := [], children := []) == b.(attributes := [], children := [])
    && |a.attributes| == |b.attributes|
    && (forall i :: 0 <= i < |a.attributes| ==>
          a.attributes[i] == b.attributes[i] || (IsSlots(a.attributes[i]) && IsSlots(b.attributes[i])))
    && |a.children| == |b.children|
    && (forall i :: 0 <= i < |a.children| ==> SameButSlots(a.children[i], b.children[i]))
  }

  lemma {:induction false} FixNodeOnlySlots(n: Node)
    ensures SameButSlots(n, FixNode(n))
  {
    if IsInlineAlert(n) {
      SameButSlotsRefl(n.children);
    } else {
      FixListOnlySlots(n.children);
    }
  }

  lemma {:induction false} FixListOnlySlots(cs: seq<Node>)
    ensures forall i :: 0 <= i < |cs| ==> SameButSlots(cs[i], FixList(cs)[i])
  {
    if cs != [] {
      FixNodeOnlySlots(cs[0]);
      FixListOnlySlots(cs[1..]);
      forall i | 0 <= i < |cs| ensures SameButSlots(cs[i], FixList(cs)[i]) {
        if i > 0 {
          assert FixList(cs)[i] == FixList(cs[1..])[i - 1];
        }
      }
    }
  }

  lemma {:induction false} SameButSlotsReflNode(n: Node)
    ensures SameButSlots(n, n)
  {
    SameButSlotsRefl(n.children);
  }

  lemma {:induction false} SameButSlotsRefl(cs: seq<Node>)
    ensures forall i :: 0 <= i < |cs| ==> SameButSlots(cs[i], cs[i])
  {
    forall i | 0 <= i < |cs| ensures SameButSlots(cs[i], cs[i]) {
      SameButSlotsReflNode(cs[i]);
    }
  }

  /** The walk reaches some `InlineAlert` element in `n`. */
  predicate ReachesAlert(n: Node) {
    IsInlineAlert(n) || exists i :: 0 <= i < |n.children| && ReachesAlert(n.children[i])
  }

  /** A subtree the walk finds no `InlineAlert` in is left exactly as it was. */
  lemma {:induction false} FixNodeNoAlert(n: Node)
    requires !ReachesAlert(n)
    ensures FixNode(n) == n
  {
    FixListNoAlert(n.children);
  }

  lemma {:induction false} FixListNoAlert(cs: seq<Node>)
    requires forall i :: 0 <= i < |cs| ==> !ReachesAlert(cs[i])
    ensures FixList(cs) == cs
  {
    if cs != [] {
      FixNodeNoAlert(cs[0]);
      FixListNoAlert(cs[1..]);
    }
  }

  /** Running the pass twice gives the same tree as running it once. */
  lemma {:induction false} FixNodeIdempotent(n: Node)
    ensures FixNode(FixNode(n)) == FixNode(n)
  {
    if IsInlineAlert(n) {
      FixSlotsIdempotent(n.attributes);
    } else {
      FixListIdempotent(n.children);
    }
  }

  lemma {:induction false} FixListIdempotent(cs: seq<Node>)
    ensures FixList(FixList(cs)) == FixList(cs)
  {
    if cs != [] {
      FixNodeIdempotent(cs[0]);
      FixListIdempotent(cs[1..]);
      assert FixList(cs)[1..] == FixList(cs[1..]);
    }
  }

  lemma {:induction false} FixSlotsIdempotent(attrs: seq<Attribute>)
    ensures FixSlots(FixSlots(attrs)) == FixSlots(attrs)
  {
  }

  // ---------------------------------------------------------------------
  // The step
  // ---------------------------------------------------------------------

  method FixInlineAlert(content: Content)
    modifies content
    ensures content.mdast == FixNode(old(content.mdast))
    ensures content.hast == old(content.hast) && content.html == old(content.html)
  {
    content.mdast := FixNode(content.mdast);
  }
}
