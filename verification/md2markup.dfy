/**
 * The parts of the Markdown-to-markup pipeline that are not library calls:
 * line-ending normalisation before parsing, `splitSections` (the root's
 * children cut into `section` nodes at thematic breaks, a lone section
 * unwrapped again) and `wrapHtml` (the rendered body put into the page
 * template, blank first and last lines dropped, every line indented).
 */
module Markup {
  import opened JsStrings
  import opened Mdast
  import opened Context
  import Hast

  // ---------------------------------------------------------------------
  // Line endings
  // ---------------------------------------------------------------------

  /** `md.replace(/(\r\n|\n|\r)/gm, '\n')` */
  function NormalizeLineEndings(s: string): (r: string)
    ensures '\r' !in r
    ensures |r| <= |s|
  {
    if s == [] then []
    else if s[0] == '\r' && |s| > 1 && s[1] == '\n' then "\n" + NormalizeLineEndings(s[2..])
    else if s[0] == '\r' then "\n" + NormalizeLineEndings(s[1..])
    else [s[0]] + NormalizeLineEndings(s[1..])
  }

  /** Text without a carriage return is left as it is, so normalising twice changes nothing more. */
  lemma {:induction false} NormalizeWithoutCR(s: string)
    requires '\r' !in s
    ensures NormalizeLineEndings(s) == s
  {
    if s != [] {
      assert '\r' !in s[1..];
      NormalizeWithoutCR(s[1..]);
    }
  }

  lemma {:induction false} NormalizeIdempotent(s: string)
    ensures NormalizeLineEndings(NormalizeLineEndings(s)) == NormalizeLineEndings(s)
  {
    NormalizeWithoutCR(NormalizeLineEndings(s));
  }

  // ---------------------------------------------------------------------
  // splitSections, as the code computes it
  // ---------------------------------------------------------------------

  /** The indices at or after `k` of the thematic breaks among `cs`, ascending. */
  function BreaksFrom(cs: seq<Node>, k: nat): (d: seq<int>)
    ensures forall j :: 0 <= j < |d| ==> k <= d[j] < |cs| && IsThematicBreak(cs[d[j]])
    decreases |cs| - k
  {
    if k >= |cs| then [] else (if IsThematicBreak(cs[k]) then [k] else []) + BreaksFrom(cs, k + 1)
  }

  /** `dividers`: the index of each break among the children (by node identity, so each its own). */
  function Dividers(cs: seq<Node>): seq<int> {
    BreaksFrom(cs, 0)
  }

  datatype Span = Span(start: int, end: int)

  /** `starts.map((k, i) => [k, ends[i]])` */
  function Zip(starts: seq<int>, ends: seq<int>): (r: seq<Span>)
    requires |starts| == |ends|
    ensures |r| == |starts|
  {
    if starts == [] then [] else [Span(starts[0], ends[0])] + Zip(starts[1..], ends[1..])
  }

  /** The `j`-th span pairs the `j`-th start with the `j`-th end. */
  lemma {:induction false} ZipAt(starts: seq<int>, ends: seq<int>)
    requires |starts| == |ends|
    ensures forall j :: 0 <= j < |starts| ==> Zip(starts, ends)[j] == Span(starts[j], ends[j])
  {
    if starts != [] {
      ZipAt(starts[1..], ends[1..]);
      var r := Zip(starts, ends);
      forall j | 0 < j < |starts| ensures r[j] == Span(starts[j], ends[j]) {
        assert r[j] == Zip(starts[1..], ends[1..])[j - 1];
      }
    }
  }

  /** `.filter(([start, end]) => start !== end)` */
  function NonEmpty(ps: seq<Span>): seq<Span> {
    if ps == [] then []
    else (if ps[0].start != ps[0].end then [ps[0]] else []) + NonEmpty(ps[1..])
  }

  /** The filter keeps exactly the spans that are not empty, in their order. */
  lemma {:induction false} NonEmptyKeeps(ps: seq<Span>)
    ensures forall j :: 0 <= j < |NonEmpty(ps)| ==> NonEmpty(ps)[j] in ps && NonEmpty(ps)[j].start != NonEmpty(ps)[j].end
    ensures forall p :: p in ps && p.start != p.end ==> p in NonEmpty(ps)
  {
    if ps != [] {
      NonEmptyKeeps(ps[1..]);
      var head := if ps[0].start != ps[0].end then [ps[0]] else [];
      var r := NonEmpty(ps);
      assert r == head + NonEmpty(ps[1..]);
      forall j | 0 <= j < |r| ensures r[j] in ps && r[j].start != r[j].end {
        if j >= |head| {
          assert r[j] == NonEmpty(ps[1..])[j - |head|];
        }
      }
      forall p | p in ps && p.start != p.end ensures p in r {
        if p != ps[0] {
          assert p in ps[1..];
        }
      }
    }
  }

  /** One section: the nodes of the span, without a break it starts at. */
  function SectionFor(cs: seq<Node>, p: Span): (r: Node)
    requires 0 <= p.start < |cs|
    ensures r.kind == "section"
  {
    var index := if IsThematicBreak(cs[p.start]) then p.start + 1 else p.start;
    Parent("section", Slice(cs, index, p.end))
  }

  function MapSections(cs: seq<Node>, ps: seq<Span>): (r: seq<Node>)
    requires StartsWithin(ps, |cs|)
    ensures |r| == |ps| && forall j :: 0 <= j < |r| ==> r[j].kind == "section"
  {
    if ps == [] then [] else [SectionFor(cs, ps[0])] + MapSections(cs, ps[1..])
  }

  /** The spans the code builds from a start `a` and the dividers `d`. */
  function SpansFrom(n: nat, a: nat, d: seq<int>): seq<Span> {
    NonEmpty(Zip([a] + d, d + [n]))
  }

  predicate StartsWithin(ps: seq<Span>, n: nat) {
    forall j :: 0 <= j < |ps| ==> 0 <= ps[j].start < n
  }

  /** A span kept by the filter starts at a child. */
  lemma {:induction false} SpansWithin(n: nat, a: nat, d: seq<int>)
    requires a < n || (a == n && d == [])
    requires forall j :: 0 <= j < |d| ==> 0 <= d[j] < n
    ensures StartsWithin(SpansFrom(n, a, d), n)
  {
    var z := Zip([a] + d, d + [n]);
    ZipAt([a] + d, d + [n]);
    NonEmptyKeeps(z);
    var r := NonEmpty(z);
    forall k | 0 <= k < |r| ensures 0 <= r[k].start < n {
      var j :| 0 <= j < |z| && z[j] == r[k];
      if j > 0 {
        assert r[k].start == ([a] + d)[j] == d[j - 1];
      }
    }
  }

  lemma {:induction false} SpansValid(cs: seq<Node>)
    ensures StartsWithin(SpansFrom(|cs|, 0, Dividers(cs)), |cs|)
  {
    SpansWithin(|cs|, 0, Dividers(cs));
  }

  function Sections(cs: seq<Node>): (r: seq<Node>)
    ensures forall j :: 0 <= j < |r| ==> r[j].kind == "section"
  {
    SpansValid(cs);
    MapSections(cs, SpansFrom(|cs|, 0, Dividers(cs)))
  }

  /** The root's new children: the sections, or the children of the only one. */
  function SplitChildren(cs: seq<Node>): seq<Node> {
    var s := Sections(cs);
    if |s| == 1 && s[0].kind == "section" then s[0].children else s
  }

  // ---------------------------------------------------------------------
  // The reference: the children cut at every break
  // ---------------------------------------------------------------------

  /** The runs of nodes between the breaks: one more run than there are breaks. */
  function Pieces(cs: seq<Node>): (r: seq<seq<Node>>)
    ensures |r| >= 1
  {
    if cs == [] then [[]]
    else if IsThematicBreak(cs[0]) then [[]] + Pieces(cs[1..])
    else var p := Pieces(cs[1..]); [[cs[0]] + p[0]] + p[1..]
  }

  /** The runs that become sections: all but a first run that precedes no node. */
  function RefSections(cs: seq<Node>): seq<seq<Node>> {
    if cs == [] || IsThematicBreak(cs[0]) then Pieces(cs)[1..] else Pieces(cs)
  }

  function SectionNodes(runs: seq<seq<Node>>): (r: seq<Node>)
    ensures |r| == |runs| && forall j :: 0 <= j < |r| ==> r[j] == Parent("section", runs[j])
  {
    if runs == [] then [] else [Parent("section", runs[0])] + SectionNodes(runs[1..])
  }

  predicate NoBreak(cs: seq<Node>) {
    forall j :: 0 <= j < |cs| ==> !IsThematicBreak(cs[j])
  }

  function WithoutBreaks(cs: seq<Node>): (r: seq<Node>)
    ensures NoBreak(r)
  {
    if cs == [] then []
    else (if IsThematicBreak(cs[0]) then [] else [cs[0]]) + WithoutBreaks(cs[1..])
  }

  function BreakCount(cs: seq<Node>): nat {
    if cs == [] then 0 else (if IsThematicBreak(cs[0]) then 1 else 0) + BreakCount(cs[1..])
  }

  function Flatten(runs: seq<seq<Node>>): seq<Node> {
    if runs == [] then [] else runs[0] + Flatten(runs[1..])
  }

  lemma {:induction false} PiecesNoBreak(cs: seq<Node>)
    ensures forall j :: 0 <= j < |Pieces(cs)| ==> NoBreak(Pieces(cs)[j])
  {
    if cs != [] {
      PiecesNoBreak(cs[1..]);
      if !IsThematicBreak(cs[0]) {
        var p := Pieces(cs[1..]);
        assert NoBreak([cs[0]] + p[0]) by {
          assert NoBreak(p[0]);
          forall j | 0 < j < |[cs[0]] + p[0]| ensures !IsThematicBreak(([cs[0]] + p[0])[j]) {
            assert ([cs[0]] + p[0])[j] == p[0][j - 1];
          }
        }
        forall j | 0 < j < |Pieces(cs)| ensures NoBreak(Pieces(cs)[j]) {
          assert Pieces(cs)[j] == p[j];
        }
      } else {
        forall j | 0 < j < |Pieces(cs)| ensures NoBreak(Pieces(cs)[j]) {
          assert Pieces(cs)[j] == Pieces(cs[1..])[j - 1];
        }
      }
    }
  }

  lemma {:induction false} PiecesFlatten(cs: seq<Node>)
    ensures Flatten(Pieces(cs)) == WithoutBreaks(cs)
  {
    if cs != [] {
      PiecesFlatten(cs[1..]);
      var p := Pieces(cs[1..]);
      if IsThematicBreak(cs[0]) {
        assert ([[]] + p)[1..] == p;
      } else {
        var q := [[cs[0]] + p[0]] + p[1..];
        assert q[1..] == p[1..];
        assert Flatten(p) == p[0] + Flatten(p[1..]);
      }
    }
  }

  lemma {:induction false} PiecesCount(cs: seq<Node>)
    ensures |Pieces(cs)| == BreakCount(cs) + 1
  {
    if cs != [] {
      PiecesCount(cs[1..]);
    }
  }

  lemma {:induction false} PiecesWithoutBreak(cs: seq<Node>)
    requires NoBreak(cs)
    ensures Pieces(cs) == [cs]
  {
    if cs != [] {
      assert NoBreak(cs[1..]) by {
        forall j | 0 <= j < |cs[1..]| ensures !IsThematicBreak(cs[1..][j]) {
          assert cs[1..][j] == cs[j + 1];
        }
      }
      PiecesWithoutBreak(cs[1..]);
      assert [cs[0]] + cs[1..] == cs;
    }
  }

  /** Pieces of a list that starts with a node that is not a break. */
  lemma {:induction false} PiecesCons(x: Node, rest: seq<Node>)
    requires !IsThematicBreak(x)
    ensures Pieces([x] + rest) == [[x] + Pieces(rest)[0]] + Pieces(rest)[1..]
  {
    assert ([x] + rest)[0] == x && ([x] + rest)[1..] == rest;
  }

  lemma {:induction false} PiecesBreak(x: Node, rest: seq<Node>)
    requires IsThematicBreak(x)
    ensures Pieces([x] + rest) == [[]] + Pieces(rest)
  {
    assert ([x] + rest)[0] == x && ([x] + rest)[1..] == rest;
  }

  /** Adding a node to the first run commutes with appending more runs. */
  lemma {:induction false} RunsConsAppend(x: Node, p: seq<seq<Node>>, q: seq<seq<Node>>)
    requires |p| >= 1
    ensures [[x] + (p + q)[0]] + (p + q)[1..] == ([[x] + p[0]] + p[1..]) + q
  {
    assert (p + q)[0] == p[0];
    assert (p + q)[1..] == p[1..] + q;
  }

  /** Cutting at a break: the runs of the left part, then those of the right part. */
  lemma {:induction false} PiecesAt(xs: seq<Node>, b: Node, ys: seq<Node>)
    requires IsThematicBreak(b)
    ensures Pieces(xs + [b] + ys) == Pieces(xs) + Pieces(ys)
  {
    if xs == [] {
      assert xs + [b] + ys == [b] + ys;
      PiecesBreak(b, ys);
    } else {
      var x, rest := xs[0], xs[1..];
      var tail := rest + [b] + ys;
      assert xs + [b] + ys == [x] + tail;
      assert xs == [x] + rest;
      PiecesAt(rest, b, ys);
      if IsThematicBreak(x) {
        PiecesBreak(x, tail);
        PiecesBreak(x, rest);
      } else {
        PiecesCons(x, tail);
        PiecesCons(x, rest);
        RunsConsAppend(x, Pieces(rest), Pieces(ys));
      }
    }
  }

  // ---------------------------------------------------------------------
  // The code computes the reference
  // ---------------------------------------------------------------------

  lemma {:induction false} ZipCons(x: int, xs: seq<int>, y: int, ys: seq<int>)
    requires |xs| == |ys|
    ensures Zip([x] + xs, [y] + ys) == [Span(x, y)] + Zip(xs, ys)
  {
    assert ([x] + xs)[1..] == xs && ([y] + ys)[1..] == ys;
  }

  lemma {:induction false} ZipStep(a: int, d: seq<int>, n: int)
    requires d != []
    ensures Zip([a] + d, d + [n]) == [Span(a, d[0])] + Zip([d[0]] + d[1..], d[1..] + [n])
  {
    assert d + [n] == [d[0]] + (d[1..] + [n]);
    assert [d[0]] + d[1..] == d;
    ZipCons(a, d, d[0], d[1..] + [n]);
  }

  lemma {:induction false} ZipLast(a: int, n: int)
    ensures Zip([a], [n]) == [Span(a, n)]
  {
    assert [a][1..] == [] && [n][1..] == [];
  }

  /** A run that is not a break, followed by a run without breaks, has no break. */
  lemma {:induction false} NoBreakCons(cs: seq<Node>, k: nat, e: nat)
    requires k < e <= |cs| && !IsThematicBreak(cs[k]) && NoBreak(cs[k + 1..e])
    ensures NoBreak(cs[k..e])
  {
    forall j | 0 < j < e - k ensures !IsThematicBreak(cs[k..e][j]) {
      assert cs[k..e][j] == cs[k + 1..e][j - 1];
    }
  }

  /**
   * `ds` lists, ascending, exactly the breaks at or after `k`: the first one
   * ends a run without breaks, and the rest list the breaks after it.
   */
  predicate BreakList(cs: seq<Node>, k: nat, ds: seq<int>)
    requires k <= |cs|
    decreases |ds|
  {
    if ds == [] then NoBreak(cs[k..])
    else k <= ds[0] < |cs| && IsThematicBreak(cs[ds[0]]) && NoBreak(cs[k..ds[0]])
         && BreakList(cs, ds[0] + 1, ds[1..])
  }

  /** The dividers the code collects from `k` on list the breaks from `k` on. */
  lemma {:induction false} BreaksFromList(cs: seq<Node>, k: nat)
    requires k <= |cs|
    ensures BreakList(cs, k, BreaksFrom(cs, k))
    decreases |cs| - k
  {
    if k == |cs| {
      assert cs[k..] == [];
    } else {
      BreaksFromList(cs, k + 1);
      if IsThematicBreak(cs[k]) {
        BreaksFromBreak(cs, k);
        var ds := [k] + BreaksFrom(cs, k + 1);
        assert ds[0] == k && ds[1..] == BreaksFrom(cs, k + 1);
        assert cs[k..k] == [];
      } else {
        BreaksFromOther(cs, k);
        BreakListCons(cs, k, BreaksFrom(cs, k + 1));
      }
    }
  }

  /** A node that is not a break, in front of listed breaks, keeps them listed. */
  lemma {:induction false} BreakListCons(cs: seq<Node>, k: nat, ds: seq<int>)
    requires k < |cs| && !IsThematicBreak(cs[k]) && BreakList(cs, k + 1, ds)
    ensures BreakList(cs, k, ds)
  {
    if ds == [] {
      assert cs[k + 1..] == cs[k + 1..|cs|];
      NoBreakCons(cs, k, |cs|);
      assert cs[k..] == cs[k..|cs|];
    } else {
      NoBreakCons(cs, k, ds[0]);
    }
  }

  lemma {:induction false} BreaksFromBreak(cs: seq<Node>, k: nat)
    requires k < |cs| && IsThematicBreak(cs[k])
    ensures BreaksFrom(cs, k) == [k] + BreaksFrom(cs, k + 1)
  {
  }

  lemma {:induction false} BreaksFromOther(cs: seq<Node>, k: nat)
    requires k < |cs| && !IsThematicBreak(cs[k])
    ensures BreaksFrom(cs, k) == BreaksFrom(cs, k + 1)
  {
  }

  lemma {:induction false} NonEmptyCons(p: Span, rest: seq<Span>)
    ensures NonEmpty([p] + rest) == (if p.start != p.end then [p] else []) + NonEmpty(rest)
  {
    assert ([p] + rest)[0] == p && ([p] + rest)[1..] == rest;
  }

  lemma {:induction false} MapSectionsCons(cs: seq<Node>, p: Span, rest: seq<Span>)
    requires 0 <= p.start < |cs| && StartsWithin(rest, |cs|)
    ensures MapSections(cs, [p] + rest) == [SectionFor(cs, p)] + MapSections(cs, rest)
  {
    assert ([p] + rest)[0] == p && ([p] + rest)[1..] == rest;
  }

  lemma {:induction false} SectionNodesCons(run: seq<Node>, runs: seq<seq<Node>>)
    ensures SectionNodes([run] + runs) == [Parent("section", run)] + SectionNodes(runs)
  {
    assert ([run] + runs)[0] == run && ([run] + runs)[1..] == runs;
  }

  /** The section of a span that starts at a break holds the nodes after it. */
  lemma {:induction false} SectionAt(cs: seq<Node>, p: Span)
    requires 0 <= p.start < p.end <= |cs|
    ensures SectionFor(cs, p) == Parent("section", cs[(if IsThematicBreak(cs[p.start]) then p.start + 1 else p.start)..p.end])
  {
    SliceWithin(cs, if IsThematicBreak(cs[p.start]) then p.start + 1 else p.start, p.end);
  }

  /** After the last break, the one section holds the rest of the children. */
  lemma {:induction false} SectionsAfterLastBreak(cs: seq<Node>, d: nat)
    requires d < |cs| && IsThematicBreak(cs[d]) && NoBreak(cs[d + 1..])
    ensures StartsWithin(SpansFrom(|cs|, d, []), |cs|)
    ensures StartsWithin(SpansFrom(|cs|, d, []), |cs|)
            && MapSections(cs, SpansFrom(|cs|, d, [])) == SectionNodes(Pieces(cs[d + 1..]))
  {
    var n := |cs|;
    SpansWithin(n, d, []);
    ZipLast(d, n);
    NonEmptyCons(Span(d, n), []);
    PiecesWithoutBreak(cs[d + 1..]);
    MapSectionsCons(cs, Span(d, n), []);
    SectionAt(cs, Span(d, n));
    SectionNodesCons(cs[d + 1..], []);
    assert cs[d + 1..n] == cs[d + 1..];
  }

  /** How the code's spans from `a` begin when there is a divider: empty spans are dropped. */
  lemma {:induction false} SpansHead(n: nat, a: nat, ds: seq<int>)
    requires ds != [] && 0 <= ds[0]
    ensures SpansFrom(n, a, ds) == (if a == ds[0] then [] else [Span(a, ds[0])]) + SpansFrom(n, ds[0], ds[1..])
  {
    ZipStep(a, ds, n);
    NonEmptyCons(Span(a, ds[0]), Zip([ds[0]] + ds[1..], ds[1..] + [n]));
  }

  /** From a break at `d` on, with `ds` listing the breaks after it, the code's sections are the runs after `d`. */
  lemma {:induction false} SectionsAfter(cs: seq<Node>, d: nat, ds: seq<int>)
    requires d < |cs| && IsThematicBreak(cs[d]) && BreakList(cs, d + 1, ds)
    ensures StartsWithin(SpansFrom(|cs|, d, ds), |cs|)
            && MapSections(cs, SpansFrom(|cs|, d, ds)) == SectionNodes(Pieces(cs[d + 1..]))
    decreases |ds|
  {
    if ds == [] {
      SectionsAfterLastBreak(cs, d);
    } else {
      var e := ds[0];
      SectionsAfter(cs, e, ds[1..]);
      SpansHead(|cs|, d, ds);
      SectionsStep(cs, d, e, SpansFrom(|cs|, e, ds[1..]));
    }
  }

  /** The runs after a break at `d`, when the next break is at `e`. */
  lemma {:induction false} PiecesBetween(cs: seq<Node>, d: nat, e: nat)
    requires d < e < |cs| && IsThematicBreak(cs[e]) && NoBreak(cs[d + 1..e])
    ensures Pieces(cs[d + 1..]) == [cs[d + 1..e]] + Pieces(cs[e + 1..])
  {
    var x, y := cs[d + 1..e], cs[e + 1..];
    assert cs[d + 1..] == x + [cs[e]] + y;
    PiecesAt(x, cs[e], y);
    PiecesWithoutBreak(x);
  }

  /** The section of the span from a break at `d` to `e`, then the sections of the other spans. */
  lemma {:induction false} MapSectionsBetween(cs: seq<Node>, d: nat, e: nat, rest: seq<Span>)
    requires d < e < |cs| && IsThematicBreak(cs[d]) && StartsWithin(rest, |cs|)
    ensures StartsWithin([Span(d, e)] + rest, |cs|)
    ensures MapSections(cs, [Span(d, e)] + rest) == [Parent("section", cs[d + 1..e])] + MapSections(cs, rest)
  {
    StartsWithinCons(Span(d, e), rest, |cs|);
    MapSectionsCons(cs, Span(d, e), rest);
    SectionAt(cs, Span(d, e));
  }

  lemma {:induction false} StartsWithinCons(p: Span, rest: seq<Span>, n: nat)
    requires 0 <= p.start < n && StartsWithin(rest, n)
    ensures StartsWithin([p] + rest, n)
  {
    var ps := [p] + rest;
    forall j | 0 < j < |ps| ensures 0 <= ps[j].start < n {
      assert ps[j] == rest[j - 1];
    }
  }

  /** One section from a break at `d` to the next break at `e`, then those after `e`. */
  lemma {:induction false} SectionsStep(cs: seq<Node>, d: nat, e: nat, rest: seq<Span>)
    requires d < e < |cs| && IsThematicBreak(cs[d]) && IsThematicBreak(cs[e])
    requires NoBreak(cs[d + 1..e])
    requires StartsWithin(rest, |cs|)
    requires MapSections(cs, rest) == SectionNodes(Pieces(cs[e + 1..]))
    ensures StartsWithin([Span(d, e)] + rest, |cs|)
    ensures MapSections(cs, [Span(d, e)] + rest) == SectionNodes(Pieces(cs[d + 1..]))
  {
    MapSectionsBetween(cs, d, e, rest);
    PiecesBetween(cs, d, e);
    SectionNodesCons(cs[d + 1..e], Pieces(cs[e + 1..]));
  }

  /** The first section, before the first break at `e > 0`, then those after `e`. */
  lemma {:induction false} SectionsFirst(cs: seq<Node>, e: nat, rest: seq<Span>)
    requires 0 < e < |cs| && IsThematicBreak(cs[e])
    requires NoBreak(cs[..e])
    requires StartsWithin(rest, |cs|)
    requires MapSections(cs, rest) == SectionNodes(Pieces(cs[e + 1..]))
    ensures MapSections(cs, [Span(0, e)] + rest) == SectionNodes(RefSections(cs))
  {
    var x, y := cs[..e], cs[e + 1..];
    assert !IsThematicBreak(cs[0]) by { assert cs[0] == x[0]; }
    MapSectionsCons(cs, Span(0, e), rest);
    SectionAt(cs, Span(0, e));
    assert cs[0..e] == x;
    assert MapSections(cs, [Span(0, e)] + rest) == [Parent("section", x)] + SectionNodes(Pieces(y));
    assert cs == x + [cs[e]] + y;
    PiecesAt(x, cs[e], y);
    PiecesWithoutBreak(x);
    assert RefSections(cs) == [x] + Pieces(y);
    SectionNodesCons(x, Pieces(y));
  }

  /** Children without a break make one section. */
  lemma {:induction false} SectionsNoBreak(cs: seq<Node>)
    requires cs != [] && NoBreak(cs)
    ensures StartsWithin(SpansFrom(|cs|, 0, []), |cs|)
    ensures StartsWithin(SpansFrom(|cs|, 0, []), |cs|)
            && MapSections(cs, SpansFrom(|cs|, 0, [])) == SectionNodes(RefSections(cs))
  {
    var n := |cs|;
    SpansWithin(n, 0, []);
    ZipLast(0, n);
    NonEmptyCons(Span(0, n), []);
    MapSectionsCons(cs, Span(0, n), []);
    SectionAt(cs, Span(0, n));
    assert cs[0..n] == cs;
    PiecesWithoutBreak(cs);
    SectionNodesCons(cs, []);
  }

  /** Children that start with a break: the runs after it. */
  lemma {:induction false} LeadingBreak(cs: seq<Node>)
    requires cs != [] && IsThematicBreak(cs[0])
    ensures RefSections(cs) == Pieces(cs[1..])
  {
    assert cs == [cs[0]] + cs[1..];
    PiecesBreak(cs[0], cs[1..]);
  }

  /** Children with breaks, listed by `ds`: the section before the first one, if any, then those after it. */
  lemma {:induction false} SectionsWithBreak(cs: seq<Node>, ds: seq<int>)
    requires ds != [] && BreakList(cs, 0, ds)
    ensures StartsWithin(SpansFrom(|cs|, 0, ds), |cs|)
            && MapSections(cs, SpansFrom(|cs|, 0, ds)) == SectionNodes(RefSections(cs))
  {
    var e := ds[0];
    var sp, rest := SpansFrom(|cs|, 0, ds), SpansFrom(|cs|, e, ds[1..]);
    SpansHead(|cs|, 0, ds);
    SectionsAfter(cs, e, ds[1..]);
    if e == 0 {
      LeadSections(cs, sp, rest);
    } else {
      FirstSections(cs, e, sp, rest);
    }
  }

  lemma {:induction false} LeadSections(cs: seq<Node>, sp: seq<Span>, rest: seq<Span>)
    requires cs != [] && IsThematicBreak(cs[0]) && sp == rest
    requires StartsWithin(rest, |cs|) && MapSections(cs, rest) == SectionNodes(Pieces(cs[1..]))
    ensures StartsWithin(sp, |cs|) && MapSections(cs, sp) == SectionNodes(RefSections(cs))
  {
    LeadingBreak(cs);
  }

  lemma {:induction false} FirstSections(cs: seq<Node>, e: nat, sp: seq<Span>, rest: seq<Span>)
    requires 0 < e < |cs| && IsThematicBreak(cs[e]) && NoBreak(cs[0..e]) && sp == [Span(0, e)] + rest
    requires StartsWithin(rest, |cs|) && MapSections(cs, rest) == SectionNodes(Pieces(cs[e + 1..]))
    ensures StartsWithin(sp, |cs|) && MapSections(cs, sp) == SectionNodes(RefSections(cs))
  {
    assert cs[0..e] == cs[..e];
    SectionsFirst(cs, e, rest);
    StartsWithinCons(Span(0, e), rest, |cs|);
  }

  /** The sections the code builds are exactly the reference runs, each wrapped in a `section`. */
  lemma {:induction false} SectionsRef(cs: seq<Node>)
    ensures Sections(cs) == SectionNodes(RefSections(cs))
  {
    var ds := Dividers(cs);
    SpansValid(cs);
    BreaksFromList(cs, 0);
    if cs == [] {
      ZipLast(0, 0);
      NonEmptyCons(Span(0, 0), []);
    } else if ds == [] {
      assert cs[0..] == cs;
      SectionsNoBreak(cs);
    } else {
      SectionsWithBreak(cs, ds);
    }
  }

  // ---------------------------------------------------------------------
  // What splitSections guarantees
  // ---------------------------------------------------------------------

  /** The runs that become sections contain no break, and together are the children without their breaks. */
  lemma {:induction false} RefSectionsFacts(cs: seq<Node>)
    ensures forall j :: 0 <= j < |RefSections(cs)| ==> NoBreak(RefSections(cs)[j])
    ensures Flatten(RefSections(cs)) == WithoutBreaks(cs)
    ensures |RefSections(cs)| == if cs == [] then 0 else BreakCount(cs) + 1 - (if IsThematicBreak(cs[0]) then 1 else 0)
  {
    PiecesNoBreak(cs);
    PiecesFlatten(cs);
    PiecesCount(cs);
    if cs != [] && IsThematicBreak(cs[0]) {
      assert Pieces(cs) == [[]] + Pieces(cs[1..]);
      assert Flatten(Pieces(cs)) == Flatten(Pieces(cs)[1..]);
    }
  }

  function SectionChildren(secs: seq<Node>): seq<Node> {
    if secs == [] then [] else secs[0].children + SectionChildren(secs[1..])
  }

  lemma {:induction false} SectionChildrenNodes(runs: seq<seq<Node>>)
    ensures SectionChildren(SectionNodes(runs)) == Flatten(runs)
  {
    if runs != [] {
      assert SectionNodes(runs)[1..] == SectionNodes(runs[1..]);
      SectionChildrenNodes(runs[1..]);
    }
  }

  /**
   * One section per run between breaks (one fewer when the children start
   * with a break, none for no children); no section holds a break, and the
   * sections' children, in order, are the children with the breaks left out.
   */
  lemma {:induction false} SectionsFacts(cs: seq<Node>)
    ensures |Sections(cs)| == if cs == [] then 0 else BreakCount(cs) + 1 - (if IsThematicBreak(cs[0]) then 1 else 0)
    ensures forall j :: 0 <= j < |Sections(cs)| ==> NoBreak(Sections(cs)[j].children)
    ensures SectionChildren(Sections(cs)) == WithoutBreaks(cs)
  {
    SectionsRef(cs);
    RefSectionsFacts(cs);
    SectionChildrenNodes(RefSections(cs));
  }

  /** After unwrapping, no top-level child is a break, and the content is the children without breaks. */
  lemma {:induction false} SplitChildrenFacts(cs: seq<Node>)
    ensures NoBreak(SplitChildren(cs))
    ensures |Sections(cs)| == 1 ==> SplitChildren(cs) == WithoutBreaks(cs)
    ensures |Sections(cs)| != 1 ==> SplitChildren(cs) == Sections(cs)
  {
    SectionsFacts(cs);
    var s := Sections(cs);
    if |s| == 1 {
      assert SectionChildren(s) == s[0].children + SectionChildren(s[1..]);
      assert s[0].children == SectionChildren(s);
    } else {
      forall j | 0 <= j < |s| ensures !IsThematicBreak(s[j]) {
        assert s[j].kind == "section";
      }
    }
  }

  /** Without a break the root's children come back unchanged. */
  lemma {:induction false} SplitWithoutBreaks(cs: seq<Node>)
    requires NoBreak(cs)
    ensures SplitChildren(cs) == cs
  {
    SectionsRef(cs);
    PiecesWithoutBreak(cs);
    if cs != [] {
      assert Sections(cs) == [Parent("section", cs)];
    }
  }

  /** Two breaks in a row give an empty section. */
  lemma {:induction false} AdjacentBreaks(cs: seq<Node>, j: nat)
    requires j + 1 < |cs| && IsThematicBreak(cs[j]) && IsThematicBreak(cs[j + 1])
    ensures Parent("section", []) in Sections(cs)
  {
    var xs, rest := cs[..j], cs[j + 2..];
    var ys := [cs[j + 1]] + rest;
    assert cs == xs + [cs[j]] + ys;
    PiecesAt(xs, cs[j], ys);
    PiecesBreak(cs[j + 1], rest);
    var left := Pieces(xs);
    var all := Pieces(cs);
    assert all == left + ([[]] + Pieces(rest));
    assert all[|left|] == [];
    var off := if IsThematicBreak(cs[0]) then 1 else 0;
    assert RefSections(cs) == all[off..];
    var k := |left| - off;
    assert 0 <= k < |RefSections(cs)| && RefSections(cs)[k] == [];
    SectionsRef(cs);
    assert Sections(cs)[k] == Parent("section", []);
  }

  method SplitSections(content: Content)
    modifies content
    ensures content.mdast == old(content.mdast).(children := SplitChildren(old(content.mdast).children))
    ensures content.hast == old(content.hast) && content.html == old(content.html)
  {
    var mdast := content.mdast;
    var dividers := Dividers(mdast.children);
    var spans := NonEmpty(Zip([0] + dividers, dividers + [|mdast.children|]));
    SpansValid(mdast.children);
    content.mdast := mdast.(children := MapSections(mdast.children, spans));
    if |content.mdast.children| == 1 && content.mdast.children[0].kind == "section" {
      content.mdast := content.mdast.(children := content.mdast.children[0].children);
    }
  }

  // ---------------------------------------------------------------------
  // wrapHtml
  // ---------------------------------------------------------------------

  /**
   * The template lines before the rendered body (the template starts right
   * after its backslash). Long lines are written in pieces only so that the
   * verifier can see that no piece holds a line break.
   */
  const PageHead: seq<string> := DocumentStart + HeadLinks + BodyStart

  const DocumentStart: seq<string> := [
    "<!DOCTYPE html>",
    "<html>",
    "  <head>",
    "    <title></title>"]

  const HeadLinks: seq<string> := [
    "    <meta name=\"viewport\"" + " content=\"width=device-width," + " initial-scale=1\">",
    "    <script src=\"/scripts/aem.js\"" + " type=\"module\"></script>",
    "    <script src=\"/scripts/scripts.js\"" + " type=\"module\"></script>",
    "    <link rel=\"stylesheet\"" + " href=\"/styles/styles.css\">"]

  const BodyStart: seq<string> := [
    "  </head>",
    "  <body>",
    "    <header></header>",
    "    <main>"]

  /** The template lines after the rendered body; the page ends without a newline. */
  const PageFoot: seq<string> := [
    "    </main>",
    "    <footer></footer>",
    "  </body>",
    "</html>"]

  /** The prefix `.map((line) => `        ${line}`)` puts before every kept line. */
  const Indentation: string := "        "

  /** `.filter((line, i, arr) => (i !== 0 && i !== arr.length - 1) || !!line.trim())`, from index `i` on. */
  function KeepFrom(lines: seq<string>, i: nat): seq<string>
    decreases |lines| - i
  {
    if i >= |lines| then []
    else (if (i != 0 && i != |lines| - 1) || !IsBlank(lines[i]) then [lines[i]] else []) + KeepFrom(lines, i + 1)
  }

  function KeepLines(lines: seq<string>): seq<string> {
    KeepFrom(lines, 0)
  }

  /** Where the kept lines end: before a blank last line that is not also the first. */
  function KeptEnd(lines: seq<string>): (e: nat)
    ensures e <= |lines|
  {
    if |lines| >= 2 && IsBlank(lines[|lines| - 1]) then |lines| - 1 else |lines|
  }

  /** The reference: the lines, less a blank first line and less a blank last line. */
  function DropBlankEnds(lines: seq<string>): seq<string> {
    var start := if |lines| >= 1 && IsBlank(lines[0]) then 1 else 0;
    lines[start..KeptEnd(lines)]
  }

  lemma {:induction false} KeepFromTail(lines: seq<string>, i: nat)
    requires 1 <= i <= |lines|
    ensures KeepFrom(lines, i) == if i <= KeptEnd(lines) then lines[i..KeptEnd(lines)] else []
    decreases |lines| - i
  {
    var n := |lines|;
    if i < n {
      KeepFromTail(lines, i + 1);
      if i < n - 1 {
        assert [lines[i]] + lines[i + 1..KeptEnd(lines)] == lines[i..KeptEnd(lines)];
      }
    }
  }

  /** The filter drops a blank first line and a blank last line and keeps everything else, in order. */
  lemma {:induction false} KeepLinesDropsBlankEnds(lines: seq<string>)
    ensures KeepLines(lines) == DropBlankEnds(lines)
  {
    if |lines| >= 1 {
      KeepFromTail(lines, 1);
      if !IsBlank(lines[0]) {
        assert [lines[0]] + lines[1..KeptEnd(lines)] == lines[0..KeptEnd(lines)];
      }
    }
  }

  function Indent(lines: seq<string>): (r: seq<string>)
    ensures |r| == |lines| && forall k :: 0 <= k < |r| ==> r[k] == Indentation + lines[k]
  {
    if lines == [] then [] else [Indentation + lines[0]] + Indent(lines[1..])
  }

  /** The inverse of `Indent`: strip the indentation a line starts with. */
  function Dedent(lines: seq<string>): (r: seq<string>)
    ensures |r| == |lines|
    ensures forall k :: 0 <= k < |r| ==> r[k] == if StartsWith(lines[k], Indentation) then lines[k][|Indentation|..] else lines[k]
  {
    if lines == [] then []
    else [if StartsWith(lines[0], Indentation) then lines[0][|Indentation|..] else lines[0]] + Dedent(lines[1..])
  }

  lemma {:induction false} DedentIndent(lines: seq<string>)
    ensures Dedent(Indent(lines)) == lines
  {
    var r := Dedent(Indent(lines));
    forall k | 0 <= k < |lines| ensures r[k] == lines[k] {
      assert Indent(lines)[k] == Indentation + lines[k];
      assert (Indentation + lines[k])[|Indentation|..] == lines[k];
    }
  }

  /** The text that goes between `<main>` and `</main>`. */
  function MainBody(content: string): string {
    Join(Indent(KeepLines(Split(content, '\n'))), "\n")
  }

  function WrapHtml(content: string): string {
    Join(PageHead + [MainBody(content)] + PageFoot, "\n")
  }

  predicate NoNewline(lines: seq<string>) {
    forall k :: 0 <= k < |lines| ==> '\n' !in lines[k]
  }

  lemma {:induction false} TemplateNoNewline()
    ensures NoNewline(PageHead) && NoNewline(PageFoot)
  {
    HeadNoNewline();
    forall k | 0 <= k < |PageFoot| ensures '\n' !in PageFoot[k] {
      assert k == 0 || k == 1 || k == 2 || k == 3;
    }
  }

  lemma {:induction false} HeadNoNewline()
    ensures NoNewline(PageHead)
  {
    StartNoNewline();
    LinksNoNewline();
    BodyStartNoNewline();
    NoNewlineConcat(DocumentStart, HeadLinks);
    NoNewlineConcat(DocumentStart + HeadLinks, BodyStart);
  }

  lemma {:induction false} StartNoNewline()
    ensures NoNewline(DocumentStart)
  {
    var h := DocumentStart;
    assert '\n' !in h[0] && '\n' !in h[1] && '\n' !in h[2] && '\n' !in h[3];
  }

  lemma {:induction false} LinksNoNewline()
    ensures NoNewline(HeadLinks)
  {
    MetaLinkNoNewline();
    ScriptLinksNoNewline();
    var h := HeadLinks;
    assert '\n' !in h[3];
  }

  lemma {:induction false} MetaLinkNoNewline()
    ensures '\n' !in HeadLinks[0]
  {
  }

  lemma {:induction false} ScriptLinksNoNewline()
    ensures '\n' !in HeadLinks[1] && '\n' !in HeadLinks[2]
  {
  }

  lemma {:induction false} BodyStartNoNewline()
    ensures NoNewline(BodyStart)
  {
    var h := BodyStart;
    assert '\n' !in h[0] && '\n' !in h[1] && '\n' !in h[2] && '\n' !in h[3];
  }

  /** Two lists of lines without a line break append to one without. */
  lemma {:induction false} NoNewlineConcat(a: seq<string>, b: seq<string>)
    requires NoNewline(a) && NoNewline(b)
    ensures NoNewline(a + b)
  {
    forall k | 0 <= k < |a + b| ensures '\n' !in (a + b)[k] {
      if k >= |a| {
        assert (a + b)[k] == b[k - |a|];
      }
    }
  }

  /** The kept lines of the content, indented, have no line break inside. */
  lemma {:induction false} BodyLinesNoNewline(content: string)
    ensures NoNewline(Indent(DropBlankEnds(Split(content, '\n'))))
  {
    var lines := Split(content, '\n');
    var kept := DropBlankEnds(lines);
    var start := if |lines| >= 1 && IsBlank(lines[0]) then 1 else 0;
    forall k | 0 <= k < |kept| ensures '\n' !in Indent(kept)[k] {
      assert kept[k] == lines[start + k];
      assert Indent(kept)[k] == Indentation + kept[k];
    }
  }

  /**
   * The lines of the page: the template's, then each kept line of the content
   * indented by eight spaces (one empty line when none is kept), then the
   * template's closing lines.
   */
  lemma {:induction false} WrapHtmlLines(content: string)
    ensures var kept := DropBlankEnds(Split(content, '\n'));
            Split(WrapHtml(content), '\n') == PageHead + (if kept == [] then [""] else Indent(kept)) + PageFoot
  {
    var kept := DropBlankEnds(Split(content, '\n'));
    KeepLinesDropsBlankEnds(Split(content, '\n'));
    TemplateNoNewline();
    BodyLinesNoNewline(content);
    SplitJoinNested(PageHead, Indent(kept), PageFoot, '\n');
  }

  /** Content whose first and last lines are not blank comes back whole from the page's body lines. */
  lemma {:induction false} MainBodyRoundTrip(content: string)
    requires var lines := Split(content, '\n'); !IsBlank(lines[0]) && !IsBlank(lines[|lines| - 1])
    ensures Join(Dedent(Split(MainBody(content), '\n')), "\n") == content
  {
    var lines := Split(content, '\n');
    KeepLinesDropsBlankEnds(lines);
    assert DropBlankEnds(lines) == lines[0..|lines|] == lines;
    BodyLinesNoNewline(content);
    SplitJoin(Indent(lines), '\n');
    DedentIndent(lines);
    JoinSplit(content, '\n');
  }

  /**
   * The `stringify` step: `rehype-format` rewrites the tree in place into
   * `formatted`, and that tree's HTML (`rendered`) is put into the page.
   */
  method Stringify(content: Content, formatted: Hast.HNode, rendered: string)
    modifies content
    ensures content.hast == formatted && content.html == WrapHtml(rendered)
    ensures content.mdast == old(content.mdast)
  {
    content.hast := formatted;
    content.html := WrapHtml(rendered);
  }
}
