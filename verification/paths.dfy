/**
 The file browser's current path: `navigateTo` moves it into a child, up
 with `..`, or back to `/`; `updateBreadcrumb` builds one link per path
 segment. Paths are strings; their segments are the non-empty pieces
 between slashes.
 */
module Paths {
  import opened Text

  /** `path.split('/').filter(p => p)`. */
  function Segments(path: string): (segs: seq<string>)
    ensures forall s | s in segs :: s != "" && '/' !in s
  {
    SplitPartsFree(path, '/');
    var parts := Split(path, "/");
    var segs := Filter(NonEmpty, parts);
    assert forall s | s in segs :: s in parts;
    segs
  }

  /** `'/' + segs.join('/')`. */
  function PathOf(segs: seq<string>): string {
    "/" + Join(segs, "/")
  }

  /** A path segment as the browser adds it: non-empty and free of slashes. */
  predicate IsSegment(s: string) {
    s != "" && '/' !in s
  }

  predicate AllSegments(segs: seq<string>) {
    forall i | 0 <= i < |segs| :: IsSegment(segs[i])
  }

  /** A path in normal form: `/`, or `/` followed by segments joined with single slashes and no trailing slash. */
  predicate Normal(path: string) {
    path == PathOf(Segments(path))
  }

  /** Reading the segments back out of a path built from segments gives the same segments. */
  lemma SegmentsOfPath(segs: seq<string>)
    requires AllSegments(segs)
    ensures Segments(PathOf(segs)) == segs
    ensures Normal(PathOf(segs))
  {
    var j := Join(segs, "/");
    assert PathOf(segs) == "" + ['/'] + j;
    SplitFirst("", '/', j);
    var tail := Split(j, "/");
    assert Filter(NonEmpty, [""]) == [];
    if |segs| == 0 {
      SplitNone(j, '/');
      assert tail == [""];
    } else {
      SplitJoin(segs, '/');
      FilterAll(NonEmpty, segs);
    }
    FilterConcat(NonEmpty, [""], tail);
  }

  /** The parent of a segment list: the list without its last element; the empty list stays empty (`parts.pop()`). */
  function DropLast(segs: seq<string>): (r: seq<string>)
    ensures |segs| > 0 ==> segs == r + [segs[|segs| - 1]]
    ensures |segs| == 0 ==> r == []
  {
    if |segs| == 0 then segs else segs[..|segs| - 1]
  }

  /**
   `navigateTo(path)` as written: `/` goes home, `..` drops the last segment
   of the current path, and anything else is appended to the current path
   as one more segment.
   */
  function NavigateTo(current: string, path: string): (next: string)
    ensures path == "/" ==> next == "/"
    ensures (current == "" || current[0] == '/') ==> next != "" && next[0] == '/'
    ensures path == ".." ==> Segments(next) == DropLast(Segments(current))
  {
    if path == "/" then "/"
    else if path == ".." then
      var parent := DropLast(Segments(current));
      assert AllSegments(parent) by {
        forall i | 0 <= i < |parent| ensures IsSegment(parent[i]) {
          assert parent[i] in Segments(current);
        }
      }
      SegmentsOfPath(parent);
      PathOf(parent)
    else if current == "/" then "/" + path
    else current + "/" + path
  }

  /** Going up always yields a path in normal form, and going up from the root stays at the root. */
  lemma UpIsNormal(current: string)
    ensures Normal(NavigateTo(current, ".."))
    ensures Segments(current) == [] ==> NavigateTo(current, "..") == "/"
  {
    var up := NavigateTo(current, "..");
    assert up == PathOf(DropLast(Segments(current)));
    assert Segments(up) == DropLast(Segments(current));
  }

  lemma RootHasNoSegments()
    ensures Segments("/") == []
  {
    SegmentsOfPath([]);
    assert PathOf([]) == "/";
  }

  /** Entering a segment from a normal path appends that segment. */
  lemma EnterSegment(segs: seq<string>, seg: string)
    requires AllSegments(segs) && IsSegment(seg) && seg != ".."
    ensures NavigateTo(PathOf(segs), seg) == PathOf(segs + [seg])
  {
    if |segs| == 0 {
      assert segs + [seg] == [seg];
    } else {
      assert Join(segs, "/") != "" by {
        JoinPrefix(segs);
      }
      JoinSnoc(segs, seg, "/");
    }
  }

  lemma {:induction false} JoinPrefix(segs: seq<string>)
    requires |segs| >= 1
    ensures segs[0] <= Join(segs, "/")
  {
    if |segs| > 1 {
      assert Join(segs, "/") == segs[0] + ("/" + Join(segs[1..], "/"));
    }
  }

  /**
   Round trip: from a normal path, entering a child segment (non-empty,
   without a slash, not `..`) and then going up returns to the same path.
   */
  lemma EnterThenUp(current: string, seg: string)
    requires Normal(current) && IsSegment(seg) && seg != ".."
    ensures NavigateTo(NavigateTo(current, seg), "..") == current
  {
    var segs := Segments(current);
    assert AllSegments(segs);
    EnterSegment(segs, seg);
    assert AllSegments(segs + [seg]);
    SegmentsOfPath(segs + [seg]);
    assert DropLast(segs + [seg]) == segs;
  }

  /** One breadcrumb link: the segment it shows and the path it passes to `navigateTo`. */
  datatype Crumb = Crumb(caption: string, target: string)

  /**
   `updateBreadcrumb` after its fixed Home link: for each segment, `path`
   grows by `/` and the segment, and the link targets the path so far.
   */
  method Breadcrumb(current: string) returns (crumbs: seq<Crumb>)
    ensures |crumbs| == |Segments(current)|
    ensures forall i | 0 <= i < |crumbs| ::
              crumbs[i].caption == Segments(current)[i] && crumbs[i].target == PathOf(Segments(current)[..i + 1])
    ensures Normal(current) && |crumbs| > 0 ==> crumbs[|crumbs| - 1].target == current
  {
    var parts := Segments(current);
    var path := "";
    crumbs := [];
    var i := 0;
    while i < |parts|
      invariant 0 <= i <= |parts|
      invariant |crumbs| == i
      invariant i == 0 ==> path == ""
      invariant i > 0 ==> path == PathOf(parts[..i])
      invariant forall k | 0 <= k < i :: crumbs[k].caption == parts[k] && crumbs[k].target == PathOf(parts[..k + 1])
    {
      if i > 0 {
        JoinSnoc(parts[..i], parts[i], "/");
        assert parts[..i + 1] == parts[..i] + [parts[i]];
      } else {
        assert parts[..1] == [parts[0]];
      }
      path := path + "/" + parts[i];
      crumbs := crumbs + [Crumb(parts[i], path)];
      i := i + 1;
    }
    assert parts[..|parts|] == parts;
  }

  /** The ancestors a breadcrumb targets are normal paths whose segments are a prefix of the current ones. */
  lemma CrumbTargetIsAncestor(current: string, i: nat)
    requires i < |Segments(current)|
    ensures Normal(PathOf(Segments(current)[..i + 1]))
    ensures Segments(PathOf(Segments(current)[..i + 1])) == Segments(current)[..i + 1]
  {
    var segs := Segments(current)[..i + 1];
    assert AllSegments(segs) by {
      forall k | 0 <= k < |segs| ensures IsSegment(segs[k]) {
        assert segs[k] in Segments(current);
      }
    }
    SegmentsOfPath(segs);
  }

  /**
   A breadcrumb passes an absolute path (`/a`, `/a/b`) to `navigateTo`, which
   treats it as one more child segment: the click never lands on the target.
   */
  lemma CrumbClickMissesTarget(current: string, target: string)
    requires |target| > 1 && target[0] == '/'
    ensures NavigateTo(current, target) != target
    ensures current != "/" ==> NavigateTo(current, target) == current + "/" + target
  {
    assert target != "/" && target != "..";
    if current == "/" {
      assert |NavigateTo(current, target)| == |target| + 1;
    } else {
      assert |NavigateTo(current, target)| == |current| + 1 + |target|;
    }
  }

  /** Concretely: clicking the only crumb of `/docs` goes to `/docs//docs`. */
  lemma CrumbClickExample()
    ensures NavigateTo("/docs", "/docs") == "/docs//docs"
  {
    CrumbClickMissesTarget("/docs", "/docs");
  }

  /** `navigateTo` with absolute paths honoured: a path starting with `/` replaces the current one. */
  function NavigateToFixed(current: string, path: string): (next: string)
    ensures path != "" && path[0] == '/' ==> next == path
    ensures (path == "" || path[0] != '/') ==> next == NavigateTo(current, path)
  {
    if path != "" && path[0] == '/' then path else NavigateTo(current, path)
  }

  /** With absolute paths honoured, every breadcrumb click lands on the ancestor the crumb shows. */
  lemma CrumbClickLands(current: string, i: nat)
    requires i < |Segments(current)|
    ensures NavigateToFixed(current, PathOf(Segments(current)[..i + 1])) == PathOf(Segments(current)[..i + 1])
    ensures Segments(NavigateToFixed(current, PathOf(Segments(current)[..i + 1]))) == Segments(current)[..i + 1]
  {
    CrumbTargetIsAncestor(current, i);
  }
}
