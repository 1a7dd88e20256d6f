/**
 * The parts of Node's POSIX `path` module the component calls:
 * `path.extname` and `path.resolve`. The working directory that
 * `path.resolve` falls back on is a parameter: it is process state.
 */
module NodePath {
  import opened Wrappers
  import opened JsString

  /** `p` without the run of `/` at its end, which `extname` and `basename` skip. */
  function StripTrailingSlashes(p: string): (r: string)
    ensures r <= p
    ensures r == [] || r[|r| - 1] != '/'
  {
    if p != [] && p[|p| - 1] == '/' then StripTrailingSlashes(p[..|p| - 1]) else p
  }

  /** What `StripTrailingSlashes` removes is slashes only. */
  lemma {:induction false} StripTrailingSlashesRemovesSlashes(p: string)
    ensures forall k :: |StripTrailingSlashes(p)| <= k < |p| ==> p[k] == '/'
    decreases |p|
  {
    if p != [] && p[|p| - 1] == '/' {
      StripTrailingSlashesRemovesSlashes(p[..|p| - 1]);
    }
  }

  /** The last segment of `p` once trailing slashes are skipped (`path.basename`). */
  function BaseName(p: string): (b: string)
    ensures '/' !in b
    ensures var q := StripTrailingSlashes(p);
      |b| <= |q| && b == q[|q| - |b|..] && (|b| == |q| || q[|q| - |b| - 1] == '/')
  {
    var q := StripTrailingSlashes(p);
    match LastIndexOf(q, '/')
    case None => q
    case Some(i) => q[i + 1..]
  }

  /** `b` holds a `.` after its first character. */
  predicate HasInnerDot(b: string)
  {
    exists i :: 0 < i < |b| && b[i] == '.'
  }

  /**
   * The extension of a base name, as `path.extname` finds it: from the last
   * `.` to the end, or empty when there is no `.`, when the only candidate
   * `.` is the first character (a dotfile such as `.html`), or for `..`.
   */
  function Extension(b: string): (e: string)
    ensures e == [] || (|e| < |b| && e == b[|b| - |e|..] && e[0] == '.' && forall j :: 0 < j < |e| ==> e[j] != '.')
    ensures e != [] <==> HasInnerDot(b) && b != ".."
  {
    match LastIndexOf(b, '.')
    case None => ""
    case Some(i) =>
      assert forall k :: 0 < k < |b| && b[k] == '.' ==> k <= i;
      if i == 0 || b == ".." then "" else b[i..]
  }

  /** `path.extname(p)`: the extension of the base name. */
  function ExtName(p: string): string
  {
    Extension(BaseName(p))
  }

  /** A segment of a normalised path: non-empty, not `.` or `..`, without `/`. */
  predicate ValidSegment(s: string)
  {
    s != "" && s != "." && s != ".." && '/' !in s
  }

  /** Every segment is a proper path segment. */
  predicate AllValid(segs: seq<string>)
  {
    forall k :: 0 <= k < |segs| ==> ValidSegment(segs[k])
  }

  /** What `path.resolve` returns: `/`, or `/` followed by valid segments joined by `/`. */
  predicate IsNormalAbsolute(p: string)
  {
    p == "/" || (|p| >= 2 && p[0] == '/' && AllValid(Split(p[1..], '/')))
  }

  type AbsPath = p: string | IsNormalAbsolute(p) witness "/"

  /** The segments of a normalised absolute path, from the root down. */
  function Segments(p: AbsPath): (segs: seq<string>)
    ensures AllValid(segs)
  {
    if p == "/" then [] else Split(p[1..], '/')
  }

  /** The normalised absolute path with the given segments. */
  function FromSegments(segs: seq<string>): (p: AbsPath)
    requires AllValid(segs)
  {
    if segs == [] then "/"
    else
      SplitJoin(segs, '/');
      assert ("/" + Join(segs, '/'))[1..] == Join(segs, '/');
      "/" + Join(segs, '/')
  }

  /** Walks `segs` from `stack`: empty and `.` segments are skipped, `..` drops one segment but never climbs above `/`. */
  function Normalize(stack: seq<string>, segs: seq<string>): (r: seq<string>)
    requires AllValid(stack) && NoPieceHolds(segs, '/')
    ensures AllValid(r)
    decreases |segs|
  {
    if segs == [] then stack
    else
      var s := segs[0];
      var next :=
        if s == "" || s == "." then stack
        else if s == ".." then (if stack == [] then [] else stack[..|stack| - 1])
        else stack + [s];
      Normalize(next, segs[1..])
  }

  /**
   * `path.resolve(base, rel)` for an absolute, normalised `base`: an absolute
   * `rel` stands alone, a relative one is read from `base`, and the result is
   * normalised. An empty `rel` is skipped, as Node skips empty arguments.
   */
  function Resolve(base: AbsPath, rel: string): AbsPath
  {
    var segs := Split(rel, '/');
    SplitPiecesFree(rel, '/');
    if rel != [] && rel[0] == '/' then FromSegments(Normalize([], segs))
    else FromSegments(Normalize(Segments(base), segs))
  }

  /** `base` followed by one more segment. */
  function Child(base: AbsPath, name: string): string
  {
    if base == "/" then "/" + name else base + "/" + name
  }

  /** A path rebuilt from its own segments is the path itself. */
  lemma FromSegmentsOfSegments(p: AbsPath)
    ensures FromSegments(Segments(p)) == p
  {
    if p != "/" {
      JoinSplit(p[1..], '/');
      assert p == "/" + p[1..];
    }
  }

  /** Walking valid segments only appends them. */
  lemma {:induction false} NormalizeValid(stack: seq<string>, segs: seq<string>)
    requires AllValid(stack) && AllValid(segs)
    ensures Normalize(stack, segs) == stack + segs
    decreases |segs|
  {
    if segs != [] {
      NormalizeValid(stack + [segs[0]], segs[1..]);
      assert stack + [segs[0]] + segs[1..] == stack + segs;
    }
  }

  /** Resolving the empty path yields the base unchanged (`path.resolve(base) == base`). */
  lemma ResolveEmpty(base: AbsPath)
    ensures Resolve(base, "") == base
  {
    assert Split("", '/') == [""];
    var segs := Segments(base);
    assert Normalize(segs, [""]) == Normalize(segs, []) == segs;
    FromSegmentsOfSegments(base);
  }

  /** Adding one valid segment to a path's segments names its child. */
  lemma FromSegmentsAppend(segs: seq<string>, name: string)
    requires AllValid(segs) && ValidSegment(name)
    ensures AllValid(segs + [name])
    ensures FromSegments(segs + [name]) == Child(FromSegments(segs), name)
  {
    assert AllValid(segs + [name]) by {
      forall k | 0 <= k < |segs + [name]|
        ensures ValidSegment((segs + [name])[k])
      {
        if k < |segs| {
          assert (segs + [name])[k] == segs[k];
        }
      }
    }
    if segs == [] {
      assert [] + [name] == [name];
    } else {
      var j := Join(segs, '/');
      JoinAppend(segs, name, '/');
      JoinNonEmpty(segs, '/');
      assert FromSegments(segs) == "/" + j;
      assert FromSegments(segs) != "/" by {
        assert |"/" + j| > 1;
      }
      assert FromSegments(segs + [name]) == "/" + (j + "/" + name);
      ConcatAssoc(j, name);
    }
  }

  /** A join whose first piece is non-empty is non-empty. */
  lemma JoinNonEmpty(parts: seq<string>, c: char)
    requires |parts| >= 1 && parts[0] != ""
    ensures Join(parts, c) != ""
  {
  }

  /** Regrouping the concatenation that names a child. */
  lemma ConcatAssoc(j: string, name: string)
    ensures "/" + (j + "/" + name) == "/" + j + "/" + name
  {
  }

  /** Resolving one valid segment appends it below the base. */
  lemma ResolveChild(base: AbsPath, name: string)
    requires ValidSegment(name)
    ensures Resolve(base, name) == Child(base, name)
  {
    SplitNone(name, '/');
    var segs := Segments(base);
    NormalizeValid(segs, [name]);
    FromSegmentsAppend(segs, name);
    FromSegmentsOfSegments(base);
  }

  /** An absolute, normalised `rel` resolves to itself whatever the base. */
  lemma ResolveAbsolute(base: AbsPath, rel: AbsPath)
    ensures Resolve(base, rel) == rel
  {
    SplitAtFirst(rel, '/', 0);
    assert rel[..0] == "";
    SplitPiecesFree(rel, '/');
    if rel == "/" {
      SplitNone("", '/');
      assert Split(rel, '/') == ["", ""];
      assert Normalize([], ["", ""]) == Normalize([], [""]) == [];
    } else {
      var segs := Segments(rel);
      assert Split(rel, '/') == [""] + segs;
      assert ([""] + segs)[1..] == segs;
      NormalizeValid([], segs);
      assert [] + segs == segs;
      FromSegmentsOfSegments(rel);
    }
  }

  /**
   * A relative `rel` made of valid segments, such as `dist/site`, resolves
   * to those segments below the base.
   */
  lemma ResolveRelative(base: AbsPath, segs: seq<string>)
    requires |segs| >= 1 && AllValid(segs)
    ensures AllValid(Segments(base) + segs)
    ensures Resolve(base, Join(segs, '/')) == FromSegments(Segments(base) + segs)
  {
    var rel := Join(segs, '/');
    SplitJoin(segs, '/');
    JoinNonEmpty(segs, '/');
    assert rel[0] != '/' by {
      if |segs| > 1 {
        JoinCons(segs[0], segs[1..], '/');
        assert [segs[0]] + segs[1..] == segs;
      }
      assert segs[0][0] in segs[0];
    }
    NormalizeValid(Segments(base), segs);
  }
}
