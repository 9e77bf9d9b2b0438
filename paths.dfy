/** Node paths: names, the path syntax, the derived parent path, name and depth,
    the sub-tree relation used when a node is moved, and the resolution of
    relative paths with "." and "..". */
module Paths {
  import opened Wrappers
  import opened Strings

  // ---------------------------------------------------------------------
  // Syntax
  // ---------------------------------------------------------------------

  /** Characters allowed in a node name: letters, digits and "-" (the path
      pattern is case-insensitive). */
  predicate NameChar(c: char)
  {
    'a' <= c <= 'z' || 'A' <= c <= 'Z' || '0' <= c <= '9' || c == '-'
  }

  predicate ValidName(n: string)
  {
    |n| > 0 && forall i :: 0 <= i < |n| ==> NameChar(n[i])
  }

  predicate ValidNames(ns: seq<string>)
  {
    forall i :: 0 <= i < |ns| ==> ValidName(ns[i])
  }

  /** "/" or a sequence of "/name" groups. */
  predicate ValidPath(p: string)
  {
    p == "/" ||
    (var parts := Split(p, '/'); |parts| >= 2 && parts[0] == "" && ValidNames(parts[1..]))
  }

  /** The path reached from the root through the given names. */
  function PathOf(names: seq<string>): string
  {
    if |names| == 0 then "/" else Join([""] + names, '/')
  }

  /** The names along a path, root excluded. */
  function Segments(p: string): seq<string>
  {
    if p == "/" then [] else Split(p, '/')[1..]
  }

  /** The path with a trailing slash removed from the root: what a child's
      path starts with, before its own "/name". */
  function Stem(q: string): string
  {
    if q == "/" then "" else q
  }

  /** Every path strictly below q starts with Prefix(q). */
  function Prefix(q: string): string
  {
    Stem(q) + "/"
  }

  /** parentPath . ('/' unless the parent is the root) . name */
  function ChildPath(q: string, n: string): string
  {
    Prefix(q) + n
  }

  // ---------------------------------------------------------------------
  // Derived attributes of a path
  // ---------------------------------------------------------------------

  /** The last name of a path, "" for the root. */
  function NameOf(p: string): string
  {
    if p == "/" then ""
    else
      var i := LastIndex(p, '/');
      var start := if i >= 0 then i + 1 else 1;
      if start <= |p| then p[start..] else ""
  }

  /** "" for the root, "/" for a top-level node, otherwise everything before the last "/". */
  function ParentPathOf(p: string): string
  {
    if p == "/" then ""
    else if Count(p, '/') == 1 then "/"
    else
      var i := LastIndex(p, '/');
      if i >= 0 then p[..i] else ""
  }

  /** 0 for the root, otherwise the number of slashes. */
  function DepthOf(p: string): nat
  {
    if p == "/" then 0 else Count(p, '/')
  }

  /** p lies strictly below q. */
  predicate IsUnder(p: string, q: string)
  {
    |p| > |Prefix(q)| && StartsWith(p, Prefix(q))
  }

  /** The path a record below q receives when q is moved to np. */
  function Rebase(p: string, q: string, np: string): string
    requires IsUnder(p, q)
  {
    Prefix(np) + p[|Prefix(q)|..]
  }

  /** Neither sub-tree contains the other. */
  predicate Disjoint(a: string, b: string)
  {
    !StartsWith(Prefix(a), Prefix(b)) && !StartsWith(Prefix(b), Prefix(a))
  }

  // ---------------------------------------------------------------------
  // Round trip between paths and name sequences
  // ---------------------------------------------------------------------

  lemma {:induction false} JoinSnoc(xs: seq<string>, y: string, c: char)
    requires |xs| > 0
    ensures Join(xs + [y], c) == Join(xs, c) + [c] + y
  {
    if |xs| == 1 {
      assert xs + [y] == [xs[0], y];
      assert [xs[0], y][1..] == [y];
    } else {
      assert (xs + [y])[1..] == xs[1..] + [y];
      JoinSnoc(xs[1..], y, c);
    }
  }

  lemma ValidNameNoSlash(n: string)
    requires ValidName(n)
    ensures '/' !in n
  {
    forall i | 0 <= i < |n| ensures n[i] != '/' {
      assert NameChar(n[i]);
    }
  }

  lemma SplitRoot()
    ensures Split("/", '/') == ["", ""]
  {
    assert "/"[1..] == "";
  }

  lemma NamesNoSlash(ns: seq<string>)
    requires ValidNames(ns)
    ensures forall i :: 0 <= i < |[""] + ns| ==> '/' !in ([""] + ns)[i]
  {
    forall i | 0 <= i < |[""] + ns| ensures '/' !in ([""] + ns)[i] {
      if i > 0 {
        ValidNameNoSlash(ns[i - 1]);
      }
    }
  }

  /** A sequence of valid names spells a valid path, and the path gives the names back. */
  lemma PathOfSegments(ns: seq<string>)
    requires ValidNames(ns)
    ensures ValidPath(PathOf(ns)) && Segments(PathOf(ns)) == ns
  {
    if |ns| > 0 {
      NamesNoSlash(ns);
      SplitJoin([""] + ns, '/');
      assert ([""] + ns)[1..] == ns;
      SplitRoot();
    }
  }

  /** A valid path is spelled by its names. */
  lemma SegmentsOfPath(p: string)
    requires ValidPath(p)
    ensures ValidNames(Segments(p)) && PathOf(Segments(p)) == p
  {
    if p != "/" {
      var parts := Split(p, '/');
      assert [""] + parts[1..] == parts;
      JoinSplit(p, '/');
    }
  }

  /** Stem, Prefix and ChildPath in terms of name sequences. */
  lemma ChildPathOf(ns: seq<string>, n: string)
    requires ValidNames(ns)
    ensures ChildPath(PathOf(ns), n) == PathOf(ns + [n])
  {
    if |ns| == 0 {
      assert ns + [n] == [n];
      assert [""] + [n] == [(""), n];
      assert [(""), n][1..] == [n];
      assert Join([(""), n], '/') == "" + ['/'] + Join([n], '/');
    } else {
      JoinSnoc([""] + ns, n, '/');
      assert [""] + ns + [n] == [""] + (ns + [n]);
      PathOfNonEmpty(ns);
    }
  }

  lemma PathOfNonEmpty(ns: seq<string>)
    requires |ns| > 0 && ValidNames(ns)
    ensures PathOf(ns) != "/"
  {
    PathOfSegments(ns);
  }

  // ---------------------------------------------------------------------
  // Parent, name and depth of a child path
  // ---------------------------------------------------------------------

  lemma CountLeadingSlash(s: string)
    requires |s| > 0 && s[0] == '/'
    ensures Count(s, '/') >= 1
  {
    assert s == [s[0]] + s[1..];
    CountAppend([s[0]], s[1..], '/');
    assert [s[0]][..0] == [];
  }

  lemma ValidPathShape(p: string)
    requires ValidPath(p)
    ensures |p| > 0 && p[0] == '/'
    ensures p != "/" ==> p[|p| - 1] != '/'
    decreases |Segments(p)|
  {
    SegmentsOfPath(p);
    var ns := Segments(p);
    if |ns| > 0 {
      var k := |ns| - 1;
      assert ns == ns[..k] + [ns[k]];
      PathOfSegments(ns[..k]);
      var s := PathOf(ns[..k]);
      ChildPathOf(ns[..k], ns[k]);
      assert p == Stem(s) + "/" + ns[k];
      assert ValidName(ns[k]);
      if s != "/" {
        ValidPathShape(s);
        assert p[0] == s[0];
      }
      assert p[|p| - 1] == ns[k][|ns[k]| - 1];
    }
  }

  /** Name, parent path and depth of a child path, as the accessors compute them. */
  lemma ChildPathFacts(q: string, n: string)
    requires ValidPath(q) && ValidName(n)
    ensures ValidPath(ChildPath(q, n))
    ensures NameOf(ChildPath(q, n)) == n
    ensures ParentPathOf(ChildPath(q, n)) == q
    ensures DepthOf(ChildPath(q, n)) == DepthOf(q) + 1
    ensures Segments(ChildPath(q, n)) == Segments(q) + [n]
  {
    SegmentsOfPath(q);
    var ns := Segments(q);
    ChildPathOf(ns, n);
    assert ValidNames(ns + [n]);
    PathOfSegments(ns + [n]);
    var p := ChildPath(q, n);
    ValidNameNoSlash(n);
    assert p == Stem(q) + ['/'] + n;
    PathOfNonEmpty(ns + [n]);
    LastIndexAfter(Stem(q), '/', n);
    CountAbsent(n, '/');
    CountAppend(Stem(q) + ['/'], n, '/');
    CountAppend(Stem(q), ['/'], '/');
    assert ['/'][..0] == [];
    if q != "/" {
      ValidPathShape(q);
      CountLeadingSlash(q);
      assert p[..|q|] == q;
    }
  }

  /** Every non-root path is the child path of its parent path and name. */
  lemma Decompose(p: string)
    requires ValidPath(p) && p != "/"
    ensures ValidPath(ParentPathOf(p)) && ValidName(NameOf(p))
    ensures p == ChildPath(ParentPathOf(p), NameOf(p))
  {
    SegmentsOfPath(p);
    var ns := Segments(p);
    assert |ns| > 0;
    var k := |ns| - 1;
    assert ns == ns[..k] + [ns[k]];
    PathOfSegments(ns[..k]);
    ChildPathOf(ns[..k], ns[k]);
    ChildPathFacts(PathOf(ns[..k]), ns[k]);
  }

  lemma DepthOfPath(ns: seq<string>)
    requires ValidNames(ns)
    ensures DepthOf(PathOf(ns)) == |ns|
    decreases |ns|
  {
    if |ns| > 0 {
      var k := |ns| - 1;
      assert ns == ns[..k] + [ns[k]];
      PathOfSegments(ns[..k]);
      ChildPathOf(ns[..k], ns[k]);
      ChildPathFacts(PathOf(ns[..k]), ns[k]);
      DepthOfPath(ns[..k]);
    }
  }

  /** The depth of a path is the number of names on it. */
  lemma DepthIsLength(p: string)
    requires ValidPath(p)
    ensures DepthOf(p) == |Segments(p)|
  {
    SegmentsOfPath(p);
    DepthOfPath(Segments(p));
  }

  lemma ParentPathShorter(p: string)
    requires ValidPath(p)
    ensures ParentPathOf(p) != p
  {
    if p != "/" {
      Decompose(p);
    }
  }

  // ---------------------------------------------------------------------
  // Sub-trees
  // ---------------------------------------------------------------------

  /** A record whose parent path is q lies below q. */
  lemma ChildIsUnder(p: string)
    requires ValidPath(p) && p != "/"
    ensures IsUnder(p, ParentPathOf(p))
    ensures p[|Prefix(ParentPathOf(p))|..] == NameOf(p)
  {
    Decompose(p);
    var q := ParentPathOf(p);
    assert p[..|Prefix(q)|] == Prefix(q);
  }

  lemma RebaseChild(q: string, n: string, np: string)
    requires ValidName(n)
    ensures IsUnder(ChildPath(q, n), q)
    ensures Rebase(ChildPath(q, n), q, np) == ChildPath(np, n)
  {
    var p := ChildPath(q, n);
    assert p[..|Prefix(q)|] == Prefix(q);
    assert p[|Prefix(q)|..] == n;
  }

  /** Moving q and then, inside the move, each of its children, gives
      every deeper record the same path as a direct rebase of q. */
  lemma RebaseCompose(g: string, c: string, q: string, np: string)
    requires IsUnder(g, c) && IsUnder(c, q)
    ensures IsUnder(g, q)
    ensures Rebase(c, q, np) != "/"
    ensures Rebase(g, q, np) == Rebase(g, c, Rebase(c, q, np))
  {
    var pq, pc := Prefix(q), Prefix(c);
    assert c != "/";
    assert pc == c + "/";
    StartsWithTrans(g, pc, c);
    StartsWithTrans(g, c, pq);
    var nc := Rebase(c, q, np);
    assert |nc| > 1;
    assert nc != "/";
    assert g[|pq|..] == c[|pq|..] + "/" + g[|pc|..] by {
      assert g == g[..|pc|] + g[|pc|..];
      assert g[..|pc|] == c + "/";
      assert c == c[..|pq|] + c[|pq|..];
    }
  }

  /** A record below q keeps a path below q's new position. */
  lemma RebaseUnder(p: string, q: string, np: string)
    requires IsUnder(p, q)
    ensures IsUnder(Rebase(p, q, np), np)
  {
    var r := Rebase(p, q, np);
    assert r[..|Prefix(np)|] == Prefix(np);
  }

  /** Disjointness carries over from two paths to children with the same name. */
  lemma DisjointChildren(np: string, q: string, n: string)
    requires Disjoint(np, q) && ValidName(n)
    ensures Disjoint(ChildPath(np, n), ChildPath(q, n))
  {
    var a, b := ChildPath(np, n), ChildPath(q, n);
    assert a != "/" && b != "/";
    assert Prefix(a) == Prefix(np) + (n + "/");
    assert Prefix(b) == Prefix(q) + (n + "/");
    if StartsWith(Prefix(a), Prefix(b)) {
      StartsWithCommonSuffix(Prefix(np), Prefix(q), n + "/");
      assert false;
    }
    if StartsWith(Prefix(b), Prefix(a)) {
      StartsWithCommonSuffix(Prefix(q), Prefix(np), n + "/");
      assert false;
    }
  }

  /** Nothing lies below both of two disjoint paths. */
  lemma DisjointNotBoth(p: string, a: string, b: string)
    requires Disjoint(a, b)
    ensures !(StartsWith(p, Prefix(a)) && StartsWith(p, Prefix(b)))
  {
    if StartsWith(p, Prefix(a)) && StartsWith(p, Prefix(b)) {
      PrefixesComparable(p, Prefix(a), Prefix(b));
    }
  }

  lemma UnderChildUnder(p: string, c: string, q: string)
    requires IsUnder(p, c) && IsUnder(c, q)
    ensures IsUnder(p, q)
  {
    RebaseCompose(p, c, q, q);
  }

  /** Two children of one parent do not lie below each other. */
  lemma SiblingsNotNested(q: string, n: string, m: string)
    requires ValidName(n) && ValidName(m)
    ensures !IsUnder(ChildPath(q, n), ChildPath(q, m))
  {
    var a, b := ChildPath(q, n), ChildPath(q, m);
    assert Prefix(b) == Prefix(q) + m + "/";
    ValidNameNoSlash(n);
    if |m| < |n| {
      assert a[|Prefix(q)| + |m|] == n[|m|];
      assert n[|m|] in n;
    }
  }

  /** Why a recursive move to an ancestor is excluded: when "/a/b" moves to
      "/a", the sub-tree of its child "/a/b/b" lands below its other child
      "/a/b/c", so one record is rebased twice and ends elsewhere. */
  lemma AncestorMoveRevisits()
    ensures !Disjoint("/a", "/a/b")
    ensures IsUnder("/a/b/b/c/x", "/a/b") && Rebase("/a/b/b/c/x", "/a/b", "/a") == "/a/b/c/x"
    ensures ChildPath("/a/b", "c") == "/a/b/c" && IsUnder("/a/b/c/x", "/a/b/c")
    ensures Rebase("/a/b/c/x", "/a/b/c", ChildPath("/a", "c")) == "/a/c/x" != "/a/b/c/x"
  {
    assert Prefix("/a/b") == "/a/b/";
    assert "/a/b/"[..|"/a/"|] == "/a/";
    assert "/a/b/b/c/x"[..|"/a/b/"|] == "/a/b/";
    assert "/a/b/b/c/x"[|"/a/b/"|..] == "b/c/x";
    assert "/a/b/c/x"[..|"/a/b/c/"|] == "/a/b/c/";
    assert "/a/b/c/x"[|"/a/b/c/"|..] == "x";
  }

  // ---------------------------------------------------------------------
  // Relative path resolution
  // ---------------------------------------------------------------------

  datatype PathError = ConsecutiveSlashes

  predicate HasDoubleSlash(s: string)
  {
    exists i :: 0 <= i < |s| - 1 && s[i] == '/' && s[i + 1] == '/'
  }

  /** One segment of the resolution: "." is dropped, ".." drops the previously
      kept segment, anything else is kept. */
  function Step(acc: seq<string>, seg: string): seq<string>
  {
    if seg == "." then acc
    else if seg == ".." then (if |acc| == 0 then acc else acc[..|acc| - 1])
    else acc + [seg]
  }

  /** The segments that remain after resolving a whole segment list. */
  function Resolve(segs: seq<string>): seq<string>
  {
    if |segs| == 0 then [] else Step(Resolve(segs[..|segs| - 1]), segs[|segs| - 1])
  }

  /** The absolute path a (possibly relative) path denotes from base, before resolution. */
  function Absolute(base: string, p: string): string
  {
    if |p| > 0 && p[0] == '/' then p else Stem(base) + "/" + p
  }

  /** The normalized absolute path of p seen from a node at base. */
  function Normalized(base: string, p: string): Result<string, PathError>
  {
    if p == "." then Success(base)
    else if HasDoubleSlash(p) then Failure(ConsecutiveSlashes)
    else
      var joined := Join(Resolve(Split(Absolute(base, p), '/')), '/');
      Success(if joined == "" then "/" else joined)
  }

  /** normalizePath: the segment loop written out. */
  method ResolveSegments(segs: seq<string>) returns (kept: seq<string>)
    ensures kept == Resolve(segs)
  {
    kept := [];
    var i := 0;
    while i < |segs|
      invariant 0 <= i <= |segs|
      invariant kept == Resolve(segs[..i])
    {
      assert segs[..i + 1][..i] == segs[..i];
      var seg := segs[i];
      if seg == "." {
      } else if seg == ".." {
        if |kept| > 0 {
          kept := kept[..|kept| - 1];
        }
      } else {
        kept := kept + [seg];
      }
      i := i + 1;
    }
    assert segs[..|segs|] == segs;
  }

  method NormalizePath(base: string, p: string) returns (r: Result<string, PathError>)
    ensures r == Normalized(base, p)
  {
    if p == "." {
      return Success(base);
    }
    var i := 0;
    while i < |p| - 1
      invariant 0 <= i <= |p|
      invariant forall j :: 0 <= j < i && j < |p| - 1 ==> !(p[j] == '/' && p[j + 1] == '/')
    {
      if p[i] == '/' && p[i + 1] == '/' {
        return Failure(ConsecutiveSlashes);
      }
      i := i + 1;
    }
    var absolute := if |p| > 0 && p[0] == '/' then p else Stem(base) + "/" + p;
    var kept := ResolveSegments(Split(absolute, '/'));
    var joined := Join(kept, '/');
    r := Success(if joined == "" then "/" else joined);
  }

  lemma {:induction false} ResolveKeepsInput(segs: seq<string>)
    ensures forall i :: 0 <= i < |Resolve(segs)| ==> Resolve(segs)[i] in segs
    ensures forall i :: 0 <= i < |Resolve(segs)| ==> Resolve(segs)[i] != "." && Resolve(segs)[i] != ".."
  {
    if |segs| > 0 {
      var init := segs[..|segs| - 1];
      ResolveKeepsInput(init);
      assert forall x :: x in init ==> x in segs;
    }
  }

  predicate NoDotSegments(segs: seq<string>)
  {
    forall i :: 0 <= i < |segs| ==> segs[i] != "." && segs[i] != ".."
  }

  /** Without "." and "..", resolution changes nothing. */
  lemma {:induction false} ResolveClean(segs: seq<string>)
    requires NoDotSegments(segs)
    ensures Resolve(segs) == segs
  {
    if |segs| > 0 {
      var init := segs[..|segs| - 1];
      ResolveClean(init);
      assert init + [segs[|segs| - 1]] == segs;
    }
  }

  lemma ResolveSnoc(segs: seq<string>, x: string)
    ensures Resolve(segs + [x]) == Step(Resolve(segs), x)
  {
    assert (segs + [x])[..|segs|] == segs;
  }

  /** A normalized path never contains a "." or ".." segment. */
  lemma NormalizedHasNoDots(base: string, p: string, r: string)
    requires p != "." && Normalized(base, p) == Success(r)
    ensures NoDotSegments(Split(r, '/'))
  {
    var kept := Resolve(Split(Absolute(base, p), '/'));
    ResolveKeepsInput(Split(Absolute(base, p), '/'));
    SplitParts(Absolute(base, p), '/');
    if Join(kept, '/') == "" {
      SplitRoot();
    } else {
      assert |kept| > 0;
      forall i | 0 <= i < |kept| ensures '/' !in kept[i] {
        var x := kept[i];
        assert x in Split(Absolute(base, p), '/');
      }
      SplitJoin(kept, '/');
    }
  }

  lemma NoDoubleSlashSnoc(a: string, b: string)
    requires !HasDoubleSlash(a) && (|a| == 0 || a[|a| - 1] != '/') && '/' !in b
    ensures !HasDoubleSlash(a + "/" + b)
  {
    var s := a + "/" + b;
    forall i | 0 <= i < |s| - 1 ensures !(s[i] == '/' && s[i + 1] == '/') {
      if i + 1 < |a| {
        assert s[i] == a[i] && s[i + 1] == a[i + 1];
      } else if i + 1 == |a| {
        assert s[i] == a[|a| - 1];
      } else if i == |a| {
        assert s[i + 1] == b[0];
      } else {
        assert s[i] == b[i - |a| - 1];
      }
    }
  }

  lemma {:induction false} ValidPathNoDoubleSlash(ns: seq<string>)
    requires ValidNames(ns)
    ensures !HasDoubleSlash(PathOf(ns))
    decreases |ns|
  {
    if |ns| > 0 {
      var k := |ns| - 1;
      assert ns == ns[..k] + [ns[k]];
      var q := PathOf(ns[..k]);
      ChildPathOf(ns[..k], ns[k]);
      ValidNameNoSlash(ns[k]);
      PathOfSegments(ns[..k]);
      ValidPathNoDoubleSlash(ns[..k]);
      if q != "/" {
        ValidPathShape(q);
      }
      NoDoubleSlashSnoc(Stem(q), ns[k]);
    }
  }

  lemma ValidNoDots(p: string)
    requires ValidPath(p)
    ensures NoDotSegments(Split(p, '/'))
  {
    if p == "/" {
      SplitRoot();
    } else {
      var parts := Split(p, '/');
      forall i | 0 <= i < |parts| ensures parts[i] != "." && parts[i] != ".." {
        if i > 0 {
          assert parts[i] == parts[1..][i - 1];
          assert NameChar(parts[i][0]);
        }
      }
    }
  }

  /** A valid absolute path is already normalized, from wherever it is seen. */
  lemma NormalizeValidPath(base: string, p: string)
    requires ValidPath(p)
    ensures Normalized(base, p) == Success(p)
  {
    SegmentsOfPath(p);
    ValidPathNoDoubleSlash(Segments(p));
    ValidPathShape(p);
    ValidNoDots(p);
    ResolveClean(Split(p, '/'));
    JoinSplit(p, '/');
  }

  /** A plain valid name resolves to the child of the base node. */
  lemma NormalizeName(base: string, n: string)
    requires ValidPath(base) && ValidName(n)
    ensures Normalized(base, n) == Success(ChildPath(base, n))
  {
    var c := ChildPath(base, n);
    ChildPathFacts(base, n);
    ValidNameNoSlash(n);
    assert n != "." by { assert NameChar(n[0]); }
    assert !HasDoubleSlash(n) by {
      forall i | 0 <= i < |n| - 1 ensures n[i] != '/' {
        assert n[i] in n;
      }
    }
    assert n[0] != '/' by { assert n[0] in n; }
    assert Absolute(base, n) == c;
    ValidPathShape(c);
    ValidNoDots(c);
    ResolveClean(Split(c, '/'));
    JoinSplit(c, '/');
  }

  /** The segments of base/../name, where name is base's own name. */
  lemma UpAndBackSplit(base: string)
    requires ValidPath(base) && base != "/"
    ensures Split(Absolute(base, "../" + NameOf(base)), '/') == Split(base, '/') + [".."] + [NameOf(base)]
  {
    Decompose(base);
    var n := NameOf(base);
    ValidNameNoSlash(n);
    var abs := Absolute(base, "../" + n);
    assert abs == base + ['/'] + (".." + ['/'] + n);
    SplitAround(base, '/', ".." + ['/'] + n);
    SplitAround("..", '/', n);
    SplitNoSep("..", '/');
    SplitNoSep(n, '/');
  }

  /** Going up and back to the last segment leaves the segments of base as they are. */
  lemma UpAndBackResolve(base: string)
    requires ValidPath(base) && base != "/"
    ensures Resolve(Split(base, '/') + [".."] + [NameOf(base)]) == Split(base, '/')
  {
    Decompose(base);
    var n := NameOf(base);
    var q := ParentPathOf(base);
    var parts := Split(base, '/');
    ValidNoDots(base);
    ResolveClean(parts);
    ResolveSnoc(parts, "..");
    ResolveSnoc(parts + [".."], n);
    // the last part of a non-root path is its name
    SegmentsOfPath(base);
    ChildPathFacts(q, n);
    assert Segments(base) == Segments(q) + [n];
    assert parts == [""] + Segments(base);
    assert parts[..|parts| - 1] + [n] == parts;
  }

  /** "../name" from a node with that name leads back to the node itself. */
  lemma NormalizeUpAndBack(base: string)
    requires ValidPath(base) && base != "/"
    ensures Normalized(base, "../" + NameOf(base)) == Success(base)
  {
    Decompose(base);
    var n := NameOf(base);
    var rel := "../" + n;
    ValidNameNoSlash(n);
    assert rel[0] == '.';
    assert rel != ".";
    assert !HasDoubleSlash(rel) by {
      forall i | 0 <= i < |rel| - 1 ensures !(rel[i] == '/' && rel[i + 1] == '/') {
        if i >= 2 {
          assert rel[i + 1] == n[i - 2];
          assert n[i - 2] in n;
        }
      }
    }
    UpAndBackSplit(base);
    UpAndBackResolve(base);
    JoinSplit(base, '/');
  }

  // ---------------------------------------------------------------------
  // Appending a suffix to a relative name before normalization
  // ---------------------------------------------------------------------

  /** The normalized path of `name` with a separator-free suffix, without the suffix:
      the resolved directory part followed by the name's last segment. */
  function SuffixStem(base: string, name: string): string
  {
    var x := Absolute(base, name);
    var i := LastIndex(x, '/');
    if i < 0 then x
    else
      var kept := Resolve(Split(x[..i], '/'));
      if |kept| == 0 then x[i + 1..] else Join(kept, '/') + "/" + x[i + 1..]
  }

  lemma AbsoluteAppend(base: string, name: string, s: string)
    requires |s| > 0 && s[0] != '/'
    ensures Absolute(base, name + s) == Absolute(base, name) + s
  {
    if |name| > 0 {
      assert (name + s)[0] == name[0];
    } else {
      assert name + s == s;
    }
    if !(|name| > 0 && name[0] == '/') {
      var st := Stem(base) + "/";
      assert st + (name + s) == (st + name) + s;
    }
  }

  lemma DoubleSlashAppend(a: string, s: string)
    requires '/' !in s
    ensures HasDoubleSlash(a + s) == HasDoubleSlash(a)
  {
    if HasDoubleSlash(a) {
      var i :| 0 <= i < |a| - 1 && a[i] == '/' && a[i + 1] == '/';
      assert (a + s)[i] == '/' && (a + s)[i + 1] == '/';
    }
    if HasDoubleSlash(a + s) {
      var i :| 0 <= i < |a + s| - 1 && (a + s)[i] == '/' && (a + s)[i + 1] == '/';
      forall t | |a| <= t < |a + s| ensures (a + s)[t] != '/' {
        assert (a + s)[t] == s[t - |a|];
        assert s[t - |a|] in s;
      }
      assert a[i] == '/' && a[i + 1] == '/';
    }
  }

  /** explode of x + s splits at the last separator of x when s holds none. */
  lemma SplitLastSegment(x: string, s: string)
    requires LastIndex(x, '/') >= 0 && '/' !in s
    ensures Split(x + s, '/') == Split(x[..LastIndex(x, '/')], '/') + [x[LastIndex(x, '/') + 1..] + s]
  {
    var i := LastIndex(x, '/');
    var last := x[i + 1..];
    assert '/' !in last + s by {
      forall t | 0 <= t < |last + s| ensures (last + s)[t] != '/' {
        if t >= |last| {
          assert (last + s)[t] == s[t - |last|];
          assert s[t - |last|] in s;
        } else {
          assert (last + s)[t] == x[i + 1 + t];
        }
      }
    }
    assert x + s == x[..i] + "/" + (last + s);
    SplitAround(x[..i], '/', last + s);
    SplitNoSep(last + s, '/');
  }

  /** A last segment ending in "-..." is kept by resolution and joined at the end. */
  lemma ResolveJoinSuffix(segs: seq<string>, last: string, s: string)
    requires |s| > 0 && s[0] == '-'
    ensures var kept := Resolve(segs);
      Join(Resolve(segs + [last + s]), '/') ==
        (if |kept| == 0 then last else Join(kept, '/') + "/" + last) + s
  {
    assert (last + s)[|last|] == '-';
    ResolveSnoc(segs, last + s);
    var kept := Resolve(segs);
    assert Resolve(segs + [last + s]) == kept + [last + s];
    if |kept| == 0 {
      assert kept + [last + s] == [last + s];
    } else {
      JoinSnoc(kept, last + s, '/');
      assert Join(kept, '/') + "/" + (last + s) == (Join(kept, '/') + "/" + last) + s;
    }
  }

  /** Normalizing `name + s` for a suffix s that starts with '-' and holds no
      separator gives the stem of `name` followed by s, or fails exactly as for `name`. */
  lemma NormalizedSuffix(base: string, name: string, s: string)
    requires |s| > 0 && s[0] == '-' && '/' !in s
    ensures Normalized(base, name + s) ==
      if HasDoubleSlash(name) then Failure(ConsecutiveSlashes) else Success(SuffixStem(base, name) + s)
  {
    assert name + s != "." by {
      assert (name + s)[|name|] == '-';
    }
    DoubleSlashAppend(name, s);
    if !HasDoubleSlash(name) {
      AbsoluteAppend(base, name, s);
      var x := Absolute(base, name);
      var j0 := if |name| > 0 && name[0] == '/' then 0 else |Stem(base)|;
      assert x[j0] == '/';
      var i := LastIndex(x, '/');
      SplitLastSegment(x, s);
      var segs, last := Split(x[..i], '/'), x[i + 1..];
      ResolveJoinSuffix(segs, last, s);
      var kept := Resolve(segs);
      var stem := if |kept| == 0 then last else Join(kept, '/') + "/" + last;
      assert SuffixStem(base, name) == stem;
      var joined := Join(Resolve(Split(Absolute(base, name + s), '/')), '/');
      assert joined == stem + s;
      assert joined != "";
      assert Normalized(base, name + s) == Success(joined);
    }
  }
}
