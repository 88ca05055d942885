/**
 * A lexical model of Node's POSIX `path.resolve` and `path.relative`: a path
 * is split at `/`, empty and `.` segments are dropped, `..` removes the
 * segment before it (and is dropped at the root). Nothing touches a file
 * system; the process working directory, which `path.resolve` falls back on
 * for a relative argument, is taken to be `/`.
 */
module NodePath {
  import opened JsStrings

  /** A segment list in normal form: no empty, `.` or `..` segment, no `/` inside. */
  predicate IsNormal(segs: seq<string>) {
    forall i :: 0 <= i < |segs| ==> IsPlainSegment(segs[i])
  }

  predicate IsPlainSegment(s: string) {
    s != "" && s != "." && s != ".." && '/' !in s
  }

  /** Applies `segs` one by one to the directory stack `stack`. */
  function Norm(stack: seq<string>, segs: seq<string>): (r: seq<string>)
    decreases |segs|
  {
    if segs == [] then stack
    else
      var s := segs[0];
      if s == "" || s == "." then Norm(stack, segs[1..])
      else if s == ".." then Norm(if stack == [] then [] else stack[..|stack| - 1], segs[1..])
      else Norm(stack + [s], segs[1..])
  }

  lemma {:induction false} NormIsNormal(stack: seq<string>, segs: seq<string>)
    requires IsNormal(stack)
    requires forall i :: 0 <= i < |segs| ==> '/' !in segs[i]
    ensures IsNormal(Norm(stack, segs))
    decreases |segs|
  {
    if segs != [] {
      NormIsNormal(if segs[0] == ".." then (if stack == [] then [] else stack[..|stack| - 1])
                   else if segs[0] == "" || segs[0] == "." then stack
                   else stack + [segs[0]], segs[1..]);
    }
  }

  lemma {:induction false} NormAppend(stack: seq<string>, a: seq<string>, b: seq<string>)
    ensures Norm(stack, a + b) == Norm(Norm(stack, a), b)
    decreases |a|
  {
    if a != [] {
      assert (a + b)[0] == a[0] && (a + b)[1..] == a[1..] + b;
      var s := a[0];
      var next := if s == "" || s == "." then stack
                  else if s == ".." then (if stack == [] then [] else stack[..|stack| - 1])
                  else stack + [s];
      NormAppend(next, a[1..], b);
    } else {
      assert a + b == b;
    }
  }

  /** Plain segments are pushed as they are. */
  lemma {:induction false} NormPlain(stack: seq<string>, segs: seq<string>)
    requires IsNormal(segs)
    ensures Norm(stack, segs) == stack + segs
    decreases |segs|
  {
    if segs != [] {
      NormPlain(stack + [segs[0]], segs[1..]);
      assert stack + [segs[0]] + segs[1..] == stack + segs;
    }
  }

  function Repeat(s: string, n: nat): (r: seq<string>)
    ensures |r| == n && forall i :: 0 <= i < n ==> r[i] == s
  {
    if n == 0 then [] else [s] + Repeat(s, n - 1)
  }

  /** `n` times `..` pops the last `n` entries of the stack. */
  lemma {:induction false} NormPops(stack: seq<string>, n: nat)
    requires n <= |stack|
    ensures Norm(stack, Repeat("..", n)) == stack[..|stack| - n]
    decreases n
  {
    if n > 0 {
      assert Repeat("..", n)[1..] == Repeat("..", n - 1);
      NormPops(stack[..|stack| - 1], n - 1);
      assert stack[..|stack| - 1][..|stack| - 1 - (n - 1)] == stack[..|stack| - n];
    }
  }

  /** The normalised segments of an absolute rendering of `p`. */
  function Segs(p: string): seq<string> {
    Norm([], Split(p, '/'))
  }

  /** Renders a normal segment list as an absolute path. */
  function Render(segs: seq<string>): string {
    "/" + Join(segs, "/")
  }

  lemma {:induction false} SegsRender(segs: seq<string>)
    requires IsNormal(segs)
    ensures Segs(Render(segs)) == segs
  {
    var parts := [""] + segs;
    assert Render(segs) == Join(if segs == [] then ["", ""] else parts, "/") by {
      if segs != [] {
        assert parts[1..] == segs;
      }
    }
    SplitJoin(if segs == [] then ["", ""] else parts, '/');
    if segs != [] {
      assert Split(Render(segs), '/') == [""] + segs;
      NormAppend([], [""], segs);
      NormPlain([], segs);
    } else {
      assert Split(Render(segs), '/') == ["", ""];
      assert Norm([], ["", ""]) == Norm([], [""]) == Norm([], []);
    }
  }

  /** `path.resolve(base, p)` with the process working directory taken as `/`. */
  function Resolve(base: string, p: string): (r: string)
    ensures StartsWith(r, "/")
  {
    if StartsWith(p, "/") then Render(Segs(p)) else Render(Norm([], Split(base, '/') + Split(p, '/')))
  }

  /** `path.resolve(p)` */
  function Resolve1(p: string): (r: string)
    ensures StartsWith(r, "/")
  {
    Render(Segs(p))
  }

  /** `path.relative(from, to)`, over the normalised segments of both. */
  function Relative(from: string, to: string): (r: string) {
    var f, t := Segs(from), Segs(to);
    var k := CommonPrefix(f, t);
    Join(Repeat("..", |f| - k) + t[k..], "/")
  }

  function CommonPrefix(a: seq<string>, b: seq<string>): (k: nat)
    ensures k <= |a| && k <= |b| && a[..k] == b[..k]
    ensures k < |a| && k < |b| ==> a[k] != b[k]
  {
    if |a| == 0 || |b| == 0 || a[0] != b[0] then 0
    else
      var k := 1 + CommonPrefix(a[1..], b[1..]);
      assert a[..k] == [a[0]] + a[1..][..k - 1];
      assert b[..k] == [b[0]] + b[1..][..k - 1];
      k
  }

  lemma {:induction false} SplitSegsNoSlash(p: string)
    ensures forall i :: 0 <= i < |Split(p, '/')| ==> '/' !in Split(p, '/')[i]
  {
  }

  lemma {:induction false} SegsNormal(p: string)
    ensures IsNormal(Segs(p))
  {
    NormIsNormal([], Split(p, '/'));
  }

  /** Resolving is idempotent: a resolved path resolves to itself. */
  lemma {:induction false} ResolveIdempotent(base: string, p: string)
    ensures Resolve1(Resolve(base, p)) == Resolve(base, p)
  {
    var segs := if StartsWith(p, "/") then Segs(p) else Norm([], Split(base, '/') + Split(p, '/'));
    if StartsWith(p, "/") {
      SegsNormal(p);
    } else {
      NormIsNormal([], Split(base, '/') + Split(p, '/'));
    }
    SegsRender(segs);
  }

  /** Resolving a relative segment list against an absolute directory normalises their concatenation. */
  lemma {:induction false} ResolveRelative(f: seq<string>, rel: seq<string>)
    requires IsNormal(f)
    requires |rel| > 0 && rel[0] != ""
    requires forall i :: 0 <= i < |rel| ==> '/' !in rel[i]
    ensures Resolve(Render(f), Join(rel, "/")) == Render(Norm(f, rel))
  {
    var relStr := Join(rel, "/");
    SplitJoin(rel, '/');
    JoinHead(rel, "/");
    assert !StartsWith(relStr, "/");
    SegsRender(f);
    NormAppend([], Split(Render(f), '/'), rel);
  }

  /** Resolving the empty path against an absolute directory gives that directory. */
  lemma {:induction false} ResolveEmpty(f: seq<string>)
    requires IsNormal(f)
    ensures Resolve(Render(f), "") == Render(f)
  {
    assert Split("", '/') == [""];
    SegsRender(f);
    NormAppend([], Split(Render(f), '/'), [""]);
    assert Norm(f, [""]) == f;
  }

  /**
   * `path.resolve(from, path.relative(from, to)) == path.resolve(to)`: the
   * relative path leads from `from` back to `to`.
   */
  lemma {:induction false} RelativeRoundTrip(from: string, to: string)
    ensures Resolve(Resolve1(from), Relative(from, to)) == Resolve1(to)
  {
    var f, t := Segs(from), Segs(to);
    SegsNormal(from);
    SegsNormal(to);
    var k := CommonPrefix(f, t);
    var rel := Repeat("..", |f| - k) + t[k..];
    if rel == [] {
      assert |f| == k && |t| == k;
      assert t == t[..k] == f[..k] == f;
      assert Relative(from, to) == Join([], "/") == "";
      ResolveEmpty(f);
    } else {
      forall i | 0 <= i < |rel| ensures '/' !in rel[i] {
        if i >= |f| - k {
          assert rel[i] == t[k + i - (|f| - k)];
        }
      }
      assert rel[0] != "" by {
        if |f| - k == 0 {
          assert rel[0] == t[k];
        }
      }
      ResolveRelative(f, rel);
      NormAppend(f, Repeat("..", |f| - k), t[k..]);
      NormPops(f, |f| - k);
      assert f[..|f| - (|f| - k)] == f[..k];
      assert IsNormal(t[k..]) by {
        forall i | 0 <= i < |t[k..]| ensures IsPlainSegment(t[k..][i]) {
          assert t[k..][i] == t[k + i];
        }
      }
      NormPlain(f[..k], t[k..]);
      assert f[..k] + t[k..] == t;
    }
  }

  /** A join of a non-empty list whose first part is non-empty starts with that part. */
  lemma {:induction false} JoinHead(parts: seq<string>, sep: string)
    requires |parts| > 0 && parts[0] != ""
    ensures |Join(parts, sep)| > 0 && Join(parts, sep)[0] == parts[0][0]
  {
  }
}
