/**
 * The path-containment rule of isValidRequest: a requested path is accepted
 * only when it equals the canonical path of the file "/" joined with it.
 * java.io.File.getCanonicalPath is modelled lexically: the path is cut at '/',
 * empty and "." segments are dropped, ".." removes the previous segment (and
 * stays at the root when there is none), and the result is written back as
 * "/" followed by the remaining segments, or "/" alone.
 */
module Paths {
  import opened Text

  /** A segment that survives canonicalisation. */
  predicate IsName(seg: string) {
    seg != "" && seg != "." && seg != ".." && '/' !in seg
  }

  predicate AllNames(segs: seq<string>) {
    forall i :: 0 <= i < |segs| ==> IsName(segs[i])
  }

  predicate NoSlash(segs: seq<string>) {
    forall i :: 0 <= i < |segs| ==> '/' !in segs[i]
  }

  /** Resolves `segs`, in order, on top of the already resolved `stack`. */
  function Resolve(stack: seq<string>, segs: seq<string>): (r: seq<string>)
    ensures AllNames(stack) && NoSlash(segs) ==> AllNames(r)
    decreases |segs|
  {
    if segs == [] then stack
    else if segs[0] == "" || segs[0] == "." then Resolve(stack, segs[1..])
    else if segs[0] == ".." then Resolve(if stack == [] then [] else stack[..|stack| - 1], segs[1..])
    else Resolve(stack + [segs[0]], segs[1..])
  }

  /** Writes resolved segments back as an absolute path. */
  function Render(segs: seq<string>): (r: string)
    ensures r != [] && r[0] == '/'
  {
    if segs == [] then "/" else "/" + JoinWith(segs, '/')
  }

  /** The path of `new File("/", child)`, before File normalises the child:
      a child that already starts with '/' is kept, any other is put under "/".
      File would also collapse repeated slashes and drop a trailing slash;
      both only remove empty segments, which canonicalisation drops anyway. */
  function ChildOfRoot(child: string): (r: string)
    ensures r != [] && r[0] == '/'
    ensures r == child <==> child != [] && child[0] == '/'
    ensures r != child ==> r == "/" + child
  {
    if child != [] && child[0] == '/' then child else "/" + child
  }

  /** getCanonicalPath, lexically. */
  function CanonicalPath(path: string): (r: string)
    ensures r != [] && r[0] == '/'
  {
    Render(Resolve([], SplitOn(path, '/')))
  }

  /** The containment check: the path must equal the canonical path of the
      file named by it under the root directory. */
  predicate Contained(pathname: string)
    ensures Contained(pathname) ==> pathname != [] && pathname[0] == '/'
  {
    pathname == CanonicalPath(ChildOfRoot(pathname))
  }

  /** Reference definition of a canonical absolute path: "/" itself, or a '/'
      followed by segments none of which is empty, "." or "..", which also
      rules out a trailing slash. */
  predicate IsCanonicalAbsolute(p: string) {
    p == "/" || (p != [] && p[0] == '/' && AllNames(SplitOn(p[1..], '/')))
  }

  /** Name segments are pushed unchanged. */
  lemma {:induction false} ResolveNames(stack: seq<string>, segs: seq<string>)
    requires AllNames(segs)
    ensures Resolve(stack, segs) == stack + segs
    decreases |segs|
  {
    if segs != [] {
      ResolveNames(stack + [segs[0]], segs[1..]);
      assert stack + [segs[0]] + segs[1..] == stack + segs;
    }
  }

  /** Rendering resolved segments, then cutting at '/', gives back the root
      marker followed by the segments. */
  lemma RenderSplit(segs: seq<string>)
    requires AllNames(segs)
    ensures SplitOn(Render(segs), '/') == if segs == [] then ["", ""] else [""] + segs
  {
    var r := Render(segs);
    if segs == [] {
      assert SplitOn("", '/') == [""];
      assert r[1..] == "";
    } else {
      JoinSplit(segs, '/');
      assert r[1..] == JoinWith(segs, '/');
    }
  }

  /** A canonical absolute path is the rendering of its own segments. */
  lemma RenderOfCanonical(p: string)
    requires p != [] && p[0] == '/' && AllNames(SplitOn(p[1..], '/'))
    ensures Render(SplitOn(p[1..], '/')) == p
  {
    SplitJoin(p[1..], '/');
    assert p == "/" + p[1..];
  }

  /** The containment check accepts exactly the canonical absolute paths. */
  lemma ContainedIff(p: string)
    ensures Contained(p) <==> IsCanonicalAbsolute(p)
  {
    if Contained(p) {
      var segs := Resolve([], SplitOn(ChildOfRoot(p), '/'));
      assert AllNames(segs);
      if segs != [] {
        assert p[1..] == JoinWith(segs, '/');
        JoinSplit(segs, '/');
      }
    }
    if IsCanonicalAbsolute(p) {
      assert ChildOfRoot(p) == p;
      if p == "/" {
        assert p[1..] == "";
        assert SplitOn(p, '/') == ["", ""];
        assert ["", ""][1..] == [""] && [""][1..] == [];
        assert Resolve([], ["", ""]) == [];
      } else {
        var segs := SplitOn(p[1..], '/');
        assert p == [p[0]] + p[1..];
        assert SplitOn(p, '/') == [""] + segs;
        assert ([""] + segs)[1..] == segs;
        assert Resolve([], [""] + segs) == Resolve([], segs);
        ResolveNames([], segs);
        assert Resolve([], segs) == segs;
        RenderOfCanonical(p);
      }
    }
  }

  /** Every canonical path is a canonical absolute path. */
  lemma CanonicalPathIsCanonical(path: string)
    ensures IsCanonicalAbsolute(CanonicalPath(path))
  {
    var segs := Resolve([], SplitOn(path, '/'));
    assert AllNames(segs);
    if segs != [] {
      assert CanonicalPath(path)[1..] == JoinWith(segs, '/');
      JoinSplit(segs, '/');
    }
  }

  /** Canonicalising twice changes nothing more. */
  lemma CanonicalIdempotent(path: string)
    ensures CanonicalPath(CanonicalPath(path)) == CanonicalPath(path)
  {
    var segs := Resolve([], SplitOn(path, '/'));
    assert AllNames(segs);
    RenderSplit(segs);
    if segs == [] {
      assert Resolve([], ["", ""]) == [];
    } else {
      assert ([""] + segs)[1..] == segs;
      assert Resolve([], [""] + segs) == Resolve([], segs);
      ResolveNames([], segs);
      assert [] + segs == segs;
    }
  }

  /** Every accepted path starts with '/', has only proper names as segments
      (no empty, "." or ".." segment) and, unless it is "/" itself, does not
      end with '/'. */
  lemma ContainedShape(p: string)
    requires Contained(p)
    ensures p != [] && p[0] == '/'
    ensures p != "/" ==> AllNames(SplitOn(p[1..], '/')) && p[|p| - 1] != '/'
  {
    ContainedIff(p);
    if p != "/" {
      var segs := SplitOn(p[1..], '/');
      RenderOfCanonical(p);
      var last := segs[|segs| - 1];
      assert IsName(last);
      JoinWithLastChar(segs, '/');
      var joined := JoinWith(segs, '/');
      assert p == "/" + joined;
      assert p[|p| - 1] == joined[|joined| - 1];
    }
  }

  /** A path whose first segment climbs above the root is refused. */
  lemma ClimbAboveRootRefused(rest: string)
    ensures !Contained("/../" + rest)
  {
    var p := "/../" + rest;
    ContainedIff(p);
    var tail := "/" + rest;
    assert p[1..] == ".." + tail;
    SplitOnPrefix("..", tail, '/');
    assert tail[0] == '/';
    assert SplitOn(tail, '/')[0] == "";
    assert SplitOn(p[1..], '/')[0] == "..";
  }

  /** The example of a traversal attempt: "/../etc/passwd" is refused. */
  lemma TraversalRefused()
    ensures !Contained("/../etc/passwd")
  {
    var rest := "etc/passwd";
    assert "/../etc/passwd" == "/../" + rest;
    ClimbAboveRootRefused(rest);
  }
}
