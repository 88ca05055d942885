/**
 * `rewriteLinks`: every `a` element's `href` and every `img` element's `src`
 * is passed through `resolve`, which turns document-relative Markdown links
 * into site URLs under the path prefix, images into raw GitHub content URLs,
 * and strips the site root from other local targets. Links to other
 * documents first lose their `index.md` or `.md` ending.
 */
module Links {
  import opened JsStrings
  import opened NodePath
  import opened Hast
  import opened Context

  /** The second argument of `resolve`: the tag the link came from. */
  datatype LinkType = Img | Anchor

  const ProjectRoot: string := "/src/pages/"
  const RawHost: string := "https://raw.githubusercontent.com/"

  /** Only `./…`, `../…` and `/…` are rewritten; every other link is left alone. */
  predicate IsLocal(p: string) {
    StartsWith(p, "./") || StartsWith(p, "../") || StartsWith(p, "/")
  }

  /** `docPath.split('/').slice(0, -1).join('/')`: the document's directory. */
  function DocDir(docPath: string): string {
    var parts := Split(docPath, '/');
    Join(parts[..|parts| - 1], "/")
  }

  /** `path.resolve(cwd, …)`, a leading `/` read as `./`. */
  function Normalized(site: Site, p: string): string {
    Resolve(DocDir(site.path), if StartsWith(p, "/") then "." + p else p)
  }

  /** `path.relative('/src/pages/', resolved)` with back-slashes made forward. */
  function ProjectRelative(resolved: string): string {
    ReplaceAllChar(Relative(ProjectRoot, resolved), '\\', '/')
  }

  predicate IsMarkdownTarget(r: string) {
    EndsWith(r, ".md") || Includes(r, ".md#")
  }

  function RawUrl(site: Site, rel: string): string {
    RawHost + site.owner + "/" + site.repo + "/" + site.branch + ProjectRoot + rel
  }

  /** The target after the Markdown and image branches, before the site root is stripped. */
  function Located(site: Site, p: string, t: LinkType): string {
    var resolved := Normalized(site, p);
    var rel := ProjectRelative(resolved);
    if IsMarkdownTarget(resolved) then site.pathprefix + "/" + rel
    else if t == Img then RawUrl(site, rel)
    else resolved
  }

  /** The site root itself becomes the path prefix; a target below it loses the root. */
  function Rebase(site: Site, r: string): string {
    if r == Resolve1(site.root) then site.pathprefix
    else if StartsWith(r, site.root) then r[|site.root|..]
    else r
  }

  function ResolveLink(site: Site, p: string, t: LinkType): string {
    if !IsLocal(p) then p
    else if StartsWith(p, site.pathprefix) then p
    else Rebase(site, Located(site, p, t))
  }

  // ---------------------------------------------------------------------
  // What resolve promises
  // ---------------------------------------------------------------------

  /** External links, `mailto:`, anchors, bare names and anything under the prefix come back unchanged. */
  lemma {:induction false} ResolveKeeps(site: Site, p: string, t: LinkType)
    requires !IsLocal(p) || StartsWith(p, site.pathprefix)
    ensures ResolveLink(site, p, t) == p
  {
  }

  /** A local target is resolved from the normal segments of the document's directory. */
  lemma {:induction false} NormalizedUnderDocDir(site: Site, p: string)
    ensures Normalized(site, p) ==
      Render(Norm(Segs(DocDir(site.path)), Split(if StartsWith(p, "/") then "." + p else p, '/')))
  {
    var q := if StartsWith(p, "/") then "." + p else p;
    assert !StartsWith(q, "/") by {
      if StartsWith(p, "/") {
        assert q[0] == '.';
      }
    }
    NormAppend([], Split(DocDir(site.path), '/'), Split(q, '/'));
  }

  /**
   * A Markdown target becomes the prefix, a slash and a path that leads from
   * `/src/pages` back to the resolved target.
   */
  lemma {:induction false} MarkdownTarget(site: Site, p: string, t: LinkType)
    requires IsMarkdownTarget(Normalized(site, p))
    requires '\\' !in Relative(ProjectRoot, Normalized(site, p))
    ensures Located(site, p, t) == site.pathprefix + "/" + ProjectRelative(Normalized(site, p))
    ensures Resolve(Resolve1(ProjectRoot), ProjectRelative(Normalized(site, p))) == Normalized(site, p)
  {
    var q := if StartsWith(p, "/") then "." + p else p;
    RelativeBack(DocDir(site.path), q);
  }

  lemma {:induction false} RelativeBack(base: string, q: string)
    ensures var r := Resolve(base, q);
            '\\' !in Relative(ProjectRoot, r) ==> Resolve(Resolve1(ProjectRoot), ProjectRelative(r)) == r
  {
    RelativeBackFrom(ProjectRoot, base, q);
  }

  lemma {:induction false} RelativeBackFrom(from: string, base: string, q: string)
    ensures var r := Resolve(base, q);
            '\\' !in Relative(from, r) ==> Resolve(Resolve1(from), ReplaceAllChar(Relative(from, r), '\\', '/')) == r
  {
    var r := Resolve(base, q);
    var rel := Relative(from, r);
    if '\\' !in rel {
      assert ReplaceAllChar(rel, '\\', '/') == rel;
      RelativeRoundTrip(from, r);
      ResolveIdempotent(base, q);
    }
  }

  /** Any other image target becomes a raw content URL of the repository at the branch. */
  lemma {:induction false} ImageTarget(site: Site, p: string)
    requires !IsMarkdownTarget(Normalized(site, p))
    ensures Located(site, p, Img) ==
      "https://raw.githubusercontent.com/" + site.owner + "/" + site.repo + "/" + site.branch
        + "/src/pages/" + ProjectRelative(Normalized(site, p))
  {
  }

  /** Any other anchor target stays the resolved absolute path. */
  lemma {:induction false} AnchorTarget(site: Site, p: string)
    requires !IsMarkdownTarget(Normalized(site, p))
    ensures Located(site, p, Anchor) == Normalized(site, p)
    ensures StartsWith(Located(site, p, Anchor), "/")
  {
  }

  /** A rebased target that started with the prefix still does, or is the prefix itself. */
  lemma {:induction false} RebaseKeepsPrefix(site: Site, l: string)
    requires StartsWith(l, site.pathprefix)
    requires l == Resolve1(site.root) || !StartsWith(l, site.root)
    ensures StartsWith(Rebase(site, l), site.pathprefix)
  {
  }

  /** The prefix, a slash and anything starts with the prefix. */
  lemma {:induction false} PrefixedStarts(prefix: string, rest: string)
    ensures StartsWith(prefix + "/" + rest, prefix)
  {
    assert (prefix + "/" + rest)[..|prefix|] == prefix;
  }

  /**
   * Resolving a resolved Markdown link again changes nothing, unless the
   * first pass stripped the site root from it.
   */
  lemma {:induction false} ResolveMarkdownAgain(site: Site, p: string, t: LinkType, t2: LinkType)
    requires IsLocal(p) && !StartsWith(p, site.pathprefix)
    requires IsMarkdownTarget(Normalized(site, p))
    requires Located(site, p, t) == Resolve1(site.root) || !StartsWith(Located(site, p, t), site.root)
    ensures ResolveLink(site, ResolveLink(site, p, t), t2) == ResolveLink(site, p, t)
  {
    var l := Located(site, p, t);
    PrefixedStarts(site.pathprefix, ProjectRelative(Normalized(site, p)));
    assert StartsWith(l, site.pathprefix);
    RebaseKeepsPrefix(site, l);
    ResolveKeeps(site, ResolveLink(site, p, t), t2);
  }

  // ---------------------------------------------------------------------
  // The rewrite of one link value
  // ---------------------------------------------------------------------

  predicate IsLinkTag(tag: string) {
    tag == "a" || tag == "img"
  }

  /** The `els` table: which property of a link element holds its target. */
  function AttrOf(tag: string): string {
    if tag == "a" then "href" else "src"
  }

  function TypeOf(tag: string): LinkType {
    if tag == "img" then Img else Anchor
  }

  /** `/^(https?:)?\/\//` */
  predicate IsExternal(v: string) {
    StartsWith(v, "//") || StartsWith(v, "http://") || StartsWith(v, "https://")
  }

  /** The clean-up chosen by the original `href`: drop `index.md`, a trailing `.md`, or `.md` before `#`. */
  function Cleanup(original: string, r: string): string {
    if EndsWith(original, "index.md") || Includes(original, "index.md") then ReplaceFirst(r, "index.md", "")
    else if EndsWith(original, ".md") then Slice(r, 0, -3)
    else if Includes(original, ".md#") then ReplaceFirst(r, ".md", "")
    else r
  }

  /** The link value as the visitor computes it: the clean-up for local anchors, then `resolve` for every link. */
  function NewValueAsWritten(site: Site, tag: string, v: string): string {
    var first := if tag == "a" && !IsExternal(v) then Cleanup(v, ResolveLink(site, v, Anchor)) else v;
    ResolveLink(site, first, TypeOf(tag))
  }

  /** The link value with external links, protocol-relative ones included, left untouched. */
  function NewValue(site: Site, tag: string, v: string): (r: string)
    ensures IsExternal(v) ==> r == v
  {
    if IsExternal(v) then v else NewValueAsWritten(site, tag, v)
  }

  /** The two agree on every link that is not protocol-relative. */
  lemma {:induction false} NewValueAgrees(site: Site, tag: string, v: string)
    requires !StartsWith(v, "//")
    ensures NewValue(site, tag, v) == NewValueAsWritten(site, tag, v)
  {
    if IsExternal(v) {
      assert !IsLocal(v) by {
        assert v[0] == 'h';
      }
    }
  }

  /** A local anchor target is resolved, cleaned up, and resolved once more. */
  lemma {:induction false} AnchorValue(site: Site, v: string)
    requires !IsExternal(v)
    ensures NewValue(site, "a", v) == ResolveLink(site, Cleanup(v, ResolveLink(site, v, Anchor)), Anchor)
  {
  }

  /** An image target is resolved once, as an image. */
  lemma {:induction false} ImageValue(site: Site, v: string)
    requires !IsExternal(v)
    ensures NewValue(site, "img", v) == ResolveLink(site, v, Img)
  {
  }

  /**
   * A local `.md` link (not an `index.md` one) whose target is not under the
   * site root ends up as the prefixed project path without its last three
   * characters.
   */
  lemma {:induction false} MarkdownLinkValue(site: Site, v: string)
    requires !IsExternal(v) && IsLocal(v) && !StartsWith(v, site.pathprefix)
    requires EndsWith(v, ".md") && !Includes(v, "index.md")
    requires IsMarkdownTarget(Normalized(site, v))
    requires var l := Located(site, v, Anchor); l != Resolve1(site.root) && !StartsWith(l, site.root)
    requires |ProjectRelative(Normalized(site, v))| >= 2
    ensures var l := site.pathprefix + "/" + ProjectRelative(Normalized(site, v));
            NewValue(site, "a", v) == l[..|l| - 3]
  {
    MarkdownSteps(site, v, ProjectRelative(Normalized(site, v)));
  }

  lemma {:induction false} MarkdownSteps(site: Site, v: string, rel: string)
    requires !IsExternal(v) && IsLocal(v) && !StartsWith(v, site.pathprefix)
    requires EndsWith(v, ".md") && !Includes(v, "index.md")
    requires IsMarkdownTarget(Normalized(site, v))
    requires var l := Located(site, v, Anchor); l != Resolve1(site.root) && !StartsWith(l, site.root)
    requires rel == ProjectRelative(Normalized(site, v)) && |rel| >= 2
    ensures var l := site.pathprefix + "/" + rel;
            NewValue(site, "a", v) == l[..|l| - 3]
  {
    var l := site.pathprefix + "/" + rel;
    FirstResolve(site, v, rel);
    MarkdownCleanup(site, v, rel, l);
  }

  /** The second step of `MarkdownLinkValue`: the first resolution, cleaned up, is kept. */
  lemma {:induction false} MarkdownCleanup(site: Site, v: string, rel: string, l: string)
    requires !IsExternal(v) && EndsWith(v, ".md") && !Includes(v, "index.md")
    requires l == site.pathprefix + "/" + rel && |rel| >= 2 && ResolveLink(site, v, Anchor) == l
    ensures NewValue(site, "a", v) == l[..|l| - 3]
  {
    if EndsWith(v, "index.md") {
      EndsWithIncludes(v, "index.md");
    }
    CleanupMarkdown(v, l);
    CleanedKept(site, rel, l);
    AnchorValue(site, v);
  }

  lemma {:induction false} CleanedKept(site: Site, rel: string, l: string)
    requires l == site.pathprefix + "/" + rel && |rel| >= 2
    ensures ResolveLink(site, l[..|l| - 3], Anchor) == l[..|l| - 3]
  {
    var c := l[..|l| - 3];
    assert c[..|site.pathprefix|] == site.pathprefix;
    ResolveKeeps(site, c, Anchor);
  }

  lemma {:induction false} FirstResolve(site: Site, v: string, rel: string)
    requires IsLocal(v) && !StartsWith(v, site.pathprefix)
    requires IsMarkdownTarget(Normalized(site, v))
    requires var l := Located(site, v, Anchor); l != Resolve1(site.root) && !StartsWith(l, site.root)
    requires rel == ProjectRelative(Normalized(site, v))
    ensures ResolveLink(site, v, Anchor) == site.pathprefix + "/" + rel
  {
  }

  lemma {:induction false} CleanupMarkdown(v: string, l: string)
    requires EndsWith(v, ".md") && !EndsWith(v, "index.md") && !Includes(v, "index.md") && |l| >= 3
    ensures Cleanup(v, l) == l[..|l| - 3]
  {
    assert SliceBound(-3, |l|) == |l| - 3;
  }

  /** `//h` on a site rooted at `/`: the as-written visitor turns the external link into `h`. */
  lemma {:induction false} ProtocolRelativeRewritten(site: Site, v: string)
    requires site == Site("/", "/a.md", "o", "r", "b", "/p") && v == "//h"
    ensures IsExternal(v)
    ensures NewValueAsWritten(site, "a", v) == "h"
    ensures NewValue(site, "a", v) == v
  {
    assert v[..2] == "//";
    ProtocolRelativeSteps(site, v, "/", "/a.md", "/p", "h");
  }

  lemma {:induction false} ProtocolRelativeSteps(site: Site, v: string, root: string, doc: string, prefix: string, h: string)
    requires root == "/" && doc == "/a.md" && prefix == "/p" && h == "h" && v == "//" + h
    requires site.root == root && site.path == doc && site.pathprefix == prefix
    ensures NewValueAsWritten(site, "a", v) == h
  {
    assert v[..2] == "//" && v[1] == '/' && prefix[1] == 'p';
    assert IsExternal(v) && IsLocal(v) && !StartsWith(v, prefix);
    DocDirExample(doc);
    var q := "." + v;
    NormalizedExample(q, h);
    assert Normalized(site, v) == Resolve("", q);
    var r := "/" + h;
    assert !EndsWith(r, ".md") by {
      assert |r| < 3;
    }
    assert !Includes(r, ".md#") by {
      IncludesIff(r, ".md#");
    }
    assert Located(site, v, Anchor) == r;
    RootExample(root);
    assert r != "/" && r[..1] == root;
    assert Rebase(site, r) == h;
  }

  lemma {:induction false} DocDirExample(doc: string)
    requires doc == "/a.md"
    ensures DocDir(doc) == ""
  {
    var parts := ["", "a.md"];
    SplitJoin(parts, '/');
    assert Join(parts, "/") == "" + "/" + Join(parts[1..], "/");
    assert Join(parts[1..], "/") == "a.md";
    assert Split(doc, '/') == parts;
    assert parts[..1] == [""];
  }

  lemma {:induction false} NormalizedExample(q: string, h: string)
    requires h == "h" && q == "." + ("//" + h)
    ensures Resolve("", q) == "/" + h
  {
    var parts := [".", "", h];
    SplitJoin(parts, '/');
    assert Join(parts[2..], "/") == h;
    assert Join(parts[1..], "/") == "" + "/" + h;
    assert Join(parts, "/") == "." + "/" + ("" + "/" + h);
    assert q == Join(parts, "/");
    assert Split(q, '/') == parts;
    assert StartsWith(q, "/") == false by {
      assert q[0] == '.';
    }
    assert Split("", '/') == [""];
    var all := [""] + parts;
    assert Norm([], all) == Norm([], all[1..]);
    assert all[1..] == parts;
    assert Norm([], parts) == Norm([], parts[1..]);
    assert Norm([], parts[1..]) == Norm([], parts[2..]);
    assert Norm([], parts[2..]) == Norm([h], []);
    assert Join([h], "/") == h;
  }

  lemma {:induction false} RootExample(root: string)
    requires root == "/"
    ensures Resolve1(root) == "/"
  {
    var parts := ["", ""];
    SplitJoin(parts, '/');
    assert Join(parts, "/") == "" + "/" + "";
    assert Split(root, '/') == parts;
    assert Norm([], parts) == Norm([], parts[1..]);
    assert Norm([], parts[1..]) == Norm([], []);
    assert Join([], "/") == "";
  }

  // ---------------------------------------------------------------------
  // The walk
  // ---------------------------------------------------------------------

  /** The string target of a link element, if it has one. */
  function LinkValue(n: HNode): Option<string> {
    if n.Element? && IsLinkTag(n.tagName) && AttrOf(n.tagName) in n.properties && n.properties[AttrOf(n.tagName)].Str?
    then Some(n.properties[AttrOf(n.tagName)].s)
    else None
  }

  /** A link element without a string target: reading it throws. */
  predicate BrokenLink(n: HNode) {
    n.Element? && IsLinkTag(n.tagName) && LinkValue(n).None?
  }

  /**
   * The visit in document order: each link element gets its new target, then
   * its children are visited. The flag is false when a broken link stopped
   * the walk; that node and everything after it are left as they were.
   */
  function RewriteNode(site: Site, n: HNode): (r: (HNode, bool))
    decreases n, 1
  {
    match n
    case Root(cs) =>
      var (cs2, ok) := RewriteList(site, cs);
      (Root(cs2), ok)
    case Element(tag, props, cs) =>
      if BrokenLink(n) then (n, false)
      else
        var props2 := if IsLinkTag(tag) then props[AttrOf(tag) := Str(NewValue(site, tag, LinkValue(n).value))] else props;
        var (cs2, ok) := RewriteList(site, cs);
        (Element(tag, props2, cs2), ok)
    case _ => (n, true)
  }

  function RewriteList(site: Site, cs: seq<HNode>): (r: (seq<HNode>, bool))
    ensures |r.0| == |cs|
    decreases cs, 0
  {
    if cs == [] then ([], true)
    else
      var (h, ok) := RewriteNode(site, cs[0]);
      if !ok then ([h] + cs[1..], false)
      else
        var (t, ok2) := RewriteList(site, cs[1..]);
        ([h] + t, ok2)
  }

  predicate HasBroken(n: HNode)
    decreases n, 1
  {
    BrokenLink(n) || ((n.Root? || n.Element?) && HasBrokenIn(n.children))
  }

  predicate HasBrokenIn(cs: seq<HNode>)
    decreases cs, 0
  {
    exists j :: 0 <= j < |cs| && HasBroken(cs[j])
  }

  /** The walk completes exactly when no link element in the tree lacks a string target. */
  lemma {:induction false} RewriteNodeCompletes(site: Site, n: HNode)
    ensures RewriteNode(site, n).1 <==> !HasBroken(n)
    decreases n, 1
  {
    if (n.Root? || n.Element?) && !BrokenLink(n) {
      RewriteListCompletes(site, n.children);
    }
  }

  lemma {:induction false} RewriteListCompletes(site: Site, cs: seq<HNode>)
    ensures RewriteList(site, cs).1 <==> !HasBrokenIn(cs)
    decreases cs, 0
  {
    if cs != [] {
      RewriteNodeCompletes(site, cs[0]);
      RewriteListCompletes(site, cs[1..]);
      if HasBrokenIn(cs) && !HasBroken(cs[0]) {
        var j :| 0 <= j < |cs| && HasBroken(cs[j]);
        assert cs[1..][j - 1] == cs[j];
      }
      if HasBrokenIn(cs[1..]) {
        var j :| 0 <= j < |cs[1..]| && HasBroken(cs[1..][j]);
        assert cs[1..][j] == cs[j + 1];
      }
    }
  }

  /**
   * `b` differs from `a` at most in the target property of link elements:
   * same node kinds, tags, property names, other property values and shape.
   */
  predicate SameButLinks(a: HNode, b: HNode)
    decreases a
  {
    if a.Element? then
      b.Element? && a.tagName == b.tagName && a.properties.Keys == b.properties.Keys
      && (forall k :: k in a.properties && !(IsLinkTag(a.tagName) && k == AttrOf(a.tagName)) ==>
            k in b.properties && b.properties[k] == a.properties[k])
      && |a.children| == |b.children|
      && forall i :: 0 <= i < |a.children| ==> SameButLinks(a.children[i], b.children[i])
    else if a.Root? then
      b.Root? && |a.children| == |b.children|
      && forall i :: 0 <= i < |a.children| ==> SameButLinks(a.children[i], b.children[i])
    else b == a
  }

  lemma {:induction false} SameButLinksRefl(n: HNode)
    ensures SameButLinks(n, n)
    decreases n
  {
    if n.Root? || n.Element? {
      forall i | 0 <= i < |n.children| ensures SameButLinks(n.children[i], n.children[i]) {
        SameButLinksRefl(n.children[i]);
      }
    }
  }

  /** Whether or not the walk completes, it changes nothing but link targets. */
  lemma {:induction false} RewriteNodeOnlyLinks(site: Site, n: HNode)
    ensures SameButLinks(n, RewriteNode(site, n).0)
    decreases n, 1
  {
    if BrokenLink(n) {
      SameButLinksRefl(n);
    } else if n.Root? || n.Element? {
      RewriteListOnlyLinks(site, n.children);
    }
  }

  lemma {:induction false} RewriteListOnlyLinks(site: Site, cs: seq<HNode>)
    ensures forall i :: 0 <= i < |cs| ==> SameButLinks(cs[i], RewriteList(site, cs).0[i])
    decreases cs, 0
  {
    if cs != [] {
      RewriteNodeOnlyLinks(site, cs[0]);
      var r := RewriteList(site, cs).0;
      if RewriteNode(site, cs[0]).1 {
        RewriteListOnlyLinks(site, cs[1..]);
        forall i | 0 <= i < |cs| ensures SameButLinks(cs[i], r[i]) {
          if i > 0 {
            assert r[i] == RewriteList(site, cs[1..]).0[i - 1];
          }
        }
      } else {
        forall i | 0 <= i < |cs| ensures SameButLinks(cs[i], r[i]) {
          if i > 0 {
            assert r[i] == cs[i];
            SameButLinksRefl(cs[i]);
          }
        }
      }
    }
  }

  /** Every link of `a` carries, at the same place in `b`, its new target. */
  predicate LinksRewritten(site: Site, a: HNode, b: HNode)
    decreases a
  {
    (LinkValue(a).Some? ==> LinkValue(b) == Some(NewValue(site, a.tagName, LinkValue(a).value)))
    && ((a.Root? || a.Element?) ==>
          (b.Root? || b.Element?) && |a.children| == |b.children|
          && forall i :: 0 <= i < |a.children| ==> LinksRewritten(site, a.children[i], b.children[i]))
  }

  /** A completed walk gives every link in the tree its new target. */
  lemma {:induction false} RewriteNodeRewrites(site: Site, n: HNode)
    requires RewriteNode(site, n).1
    ensures LinksRewritten(site, n, RewriteNode(site, n).0)
    decreases n, 1
  {
    if n.Root? || n.Element? {
      RewriteListRewrites(site, n.children);
    }
  }

  lemma {:induction false} RewriteListRewrites(site: Site, cs: seq<HNode>)
    requires RewriteList(site, cs).1
    ensures forall i :: 0 <= i < |cs| ==> LinksRewritten(site, cs[i], RewriteList(site, cs).0[i])
    decreases cs, 0
  {
    if cs != [] {
      RewriteNodeRewrites(site, cs[0]);
      RewriteListRewrites(site, cs[1..]);
      var r := RewriteList(site, cs).0;
      forall i | 0 <= i < |cs| ensures LinksRewritten(site, cs[i], r[i]) {
        if i > 0 {
          assert r[i] == RewriteList(site, cs[1..]).0[i - 1];
        }
      }
    }
  }

  /** The step: the walk over the document's render tree; `ok` is false where the source throws. */
  method RewriteLinks(content: Content) returns (ok: bool)
    modifies content
    ensures (content.hast, ok) == RewriteNode(content.site, old(content.hast))
    ensures content.mdast == old(content.mdast) && content.html == old(content.html)
  {
    var r := RewriteNode(content.site, content.hast);
    content.hast := r.0;
    ok := r.1;
  }
}
