/** The order in which paths are visited: parents first, then everything below them. */
module PathOrder {
  import opened Common
  import opened Relpath
  import RelpathOps

  /** Byte order on names; a name comes before its extensions. */
  predicate NameLess(a: string, b: string) {
    b != "" && (a == "" || a[0] < b[0] || (a[0] == b[0] && NameLess(a[1..], b[1..])))
  }

  /** Name by name; a path comes before the paths below it. */
  predicate PathLess(x: seq<string>, y: seq<string>) {
    y != [] && (x == [] || NameLess(x[0], y[0]) || (x[0] == y[0] && PathLess(x[1..], y[1..])))
  }

  // --------------------------------------------------------- a total order

  lemma {:induction false} NameOrder(a: string, b: string, c: string)
    ensures !NameLess(a, a)
    ensures NameLess(a, b) || NameLess(b, a) || a == b
    ensures NameLess(a, b) && NameLess(b, c) ==> NameLess(a, c)
    decreases |a| + |b| + |c|
  {
    if a != "" {
      NameOrder(a[1..], if b == "" then "" else b[1..], if c == "" then "" else c[1..]);
      assert a == [a[0]] + a[1..];
      assert b != "" ==> b == [b[0]] + b[1..];
    }
  }

  /** The order is strict, total and transitive. */
  lemma {:induction false} PathsTotallyOrdered(x: seq<string>, y: seq<string>, z: seq<string>)
    ensures !PathLess(x, x)
    ensures PathLess(x, y) || PathLess(y, x) || x == y
    ensures PathLess(x, y) && PathLess(y, z) ==> PathLess(x, z)
    decreases |x| + |y| + |z|
  {
    if x != [] {
      PathsTotallyOrdered(x[1..], if y == [] then [] else y[1..], if z == [] then [] else z[1..]);
      NameOrder(x[0], if y == [] then "" else y[0], if z == [] then "" else z[0]);
      assert x == [x[0]] + x[1..];
      assert y != [] ==> y == [y[0]] + y[1..];
    }
  }

  // --------------------------------------------------------- the comparison

  lemma {:induction false} NameLessAt(a: string, b: string, n: nat)
    requires n <= |a| && n <= |b| && a[..n] == b[..n]
    requires n < |b|
    ensures NameLess(a, b) <==> n == |a| || a[n] < b[n] || (a[n] == b[n] && NameLess(a[n..], b[n..]))
  {
    if n > 0 {
      assert a[0] == a[..n][0] == b[..n][0] == b[0];
      assert a[1..][..n - 1] == a[..n][1..] == b[..n][1..] == b[1..][..n - 1];
      NameLessAt(a[1..], b[1..], n - 1);
      assert a[1..][n - 1..] == a[n..] && b[1..][n - 1..] == b[n..];
    } else {
      assert a[0..] == a && b[0..] == b;
    }
  }

  lemma {:induction false} PathLessAppended(base: seq<string>, x: seq<string>, y: seq<string>)
    ensures PathLess(base + x, base + y) <==> PathLess(x, y)
  {
    if base == [] {
      assert base + x == x && base + y == y;
    } else {
      PathLessAppended(base[1..], x, y);
      NameOrder(base[0], base[0], base[0]);
      assert (base + x)[1..] == base[1..] + x && (base + y)[1..] == base[1..] + y;
    }
  }

  /** Paths whose first segments differ are ordered by the byte where they part, '/' and the end first. */
  lemma {:induction false} FirstSegmentsOrdered(t: string, u: string, n: nat)
    requires t != "" && u != ""
    requires n <= |t| && n <= |u| && t[..n] == u[..n]
    requires forall k :: 0 <= k < n ==> t[k] != '/'
    requires n < |t| && n < |u| ==> t[n] != u[n]
    requires !RelpathOps.Whole(t, u, n)
    ensures PathLess(Segments(t), Segments(u)) <==>
      if n == |t| || t[n] == '/' then true
      else if n == |u| || u[n] == '/' then false
      else t[n] < u[n]
  {
    hide FirstSlash;
    var a, b := Segments(t)[0], Segments(u)[0];
    assert a == t[..FirstSlash(t)] && b == u[..FirstSlash(u)];
    assert forall k :: 0 <= k < n ==> u[k] == u[..n][k] == t[..n][k] == t[k];
    assert FirstSlash(t) >= n && FirstSlash(u) >= n;
    assert a[..n] == t[..n] && b[..n] == u[..n];
    RelpathOps.FirstSegmentsDiffer(t, u, n);
    assert |a| > n ==> a[n] == t[n] && t[n] != '/';
    assert |b| > n ==> b[n] == u[n] && u[n] != '/';
    assert |a| == n <==> n == |t| || t[n] == '/' by { SegmentEnds(t, n); }
    assert |b| == n <==> n == |u| || u[n] == '/' by { SegmentEnds(u, n); }
    if n < |b| {
      NameLessAt(a, b, n);
    } else {
      NameLessAt(b, a, n);
      NameOrder(a, b, a);
    }
  }

  lemma {:induction false} SegmentEnds(t: string, n: nat)
    requires n <= |t| && FirstSlash(t) >= n
    ensures FirstSlash(t) == n <==> n == |t| || t[n] == '/'
  {
    hide FirstSlash;
  }

  /** The two paths part at byte `i`, after a common directory that ends at `lastSep`. */
  lemma OrderedWhereTheyPart(p: string, q: string, i: nat, lastSep: nat)
    requires Canonical(p) && Canonical(q) && p != "" && q != ""
    requires RelpathOps.CommonUpTo(p, q, i, lastSep) && !RelpathOps.Whole(p, q, i)
    ensures PathLess(Components(p), Components(q)) <==>
      if i == |p| || p[i] == '/' then true
      else if i == |q| || q[i] == '/' then false
      else p[i] < q[i]
  {
    hide Segments, NameLess, PathLess;
    if lastSep > 0 {
      assert q[lastSep] == q[..i][lastSep] == p[..i][lastSep] == p[lastSep];
      assert q[..lastSep] == q[..i][..lastSep] == p[..i][..lastSep] == p[..lastSep];
      CutAtSlash(p, lastSep);
      CutAtSlash(q, lastSep);
      var t, u := p[lastSep + 1..], q[lastSep + 1..];
      var n := i - lastSep - 1;
      assert t[..n] == p[..i][lastSep + 1..] == q[..i][lastSep + 1..] == u[..n];
      FirstSegmentsOrdered(t, u, n);
      PathLessAppended(Components(p[..lastSep]), Components(t), Components(u));
    } else {
      RelpathOps.CanonicalStart(p);
      FirstSegmentsOrdered(p, q, i);
    }
  }

  lemma BelowIsGreater(p: string, q: string)
    requires Canonical(p) && Canonical(q)
    requires p != "" && |p| < |q| && q[..|p|] == p && q[|p|] == '/'
    ensures PathLess(Components(p), Components(q)) && !PathLess(Components(q), Components(p))
  {
    hide Segments;
    CutAtSlash(q, |p|);
    var rest := Components(q[|p| + 1..]);
    PathLessAppended(Components(p), [], rest);
    PathsTotallyOrdered(Components(p), Components(q), Components(p));
    assert Components(p) + [] == Components(p);
  }

  // ------------------------------------------------------------- texts as paths

  /** Byte order, but with a separator before every other byte. */
  predicate TextLess(p: string, q: string) {
    q != "" &&
    (p == "" || if p[0] == q[0] then TextLess(p[1..], q[1..]) else p[0] == '/' || (q[0] != '/' && p[0] < q[0]))
  }

  lemma {:induction false} TextLessAfter(p: string, q: string, i: nat)
    requires i <= |p| && i <= |q| && p[..i] == q[..i]
    ensures TextLess(p, q) <==> TextLess(p[i..], q[i..])
  {
    if i > 0 {
      assert p[0] == p[..i][0] == q[..i][0] == q[0];
      assert p[1..][..i - 1] == p[..i][1..] == q[..i][1..] == q[1..][..i - 1];
      TextLessAfter(p[1..], q[1..], i - 1);
      assert p[1..][i - 1..] == p[i..] && q[1..][i - 1..] == q[i..];
    } else {
      assert p[0..] == p && q[0..] == q;
    }
  }

  /** The byte at which two texts part decides. */
  lemma {:induction false} TextsPart(p: string, q: string, i: nat)
    requires i <= |p| && i <= |q| && p[..i] == q[..i]
    requires i < |p| && i < |q| ==> p[i] != q[i]
    ensures TextLess(p, q) <==>
            i < |q| && (i == |p| || p[i] == '/' || (q[i] != '/' && p[i] < q[i]))
  {
    TextLessAfter(p, q, i);
  }

  /** The last separator among the first bytes of a relpath. */
  lemma {:induction false} LastSeparator(p: string, i: nat) returns (sep: nat)
    requires i <= |p|
    ensures sep <= i && (sep > 0 ==> sep < i && p[sep] == '/')
    ensures forall k :: sep < k < i ==> p[k] != '/'
  {
    if i == 0 {
      sep := 0;
    } else if p[i - 1] == '/' {
      sep := i - 1;
    } else {
      sep := LastSeparator(p, i - 1);
    }
  }

  /** For canonical relpaths that is the order of paths. */
  lemma {:induction false} TextIsPathOrder(p: string, q: string)
    requires Canonical(p) && Canonical(q)
    ensures TextLess(p, q) <==> PathLess(Components(p), Components(q))
  {
    hide Canonical, Components, PathLess, Segments, TextLess;
    Extremes(p, q);
    var i := CommonLen(p, q);
    TextsPart(p, q, i);
    if p == q || p == "" || q == "" {
      assert p == q ==> i == |p|;
    } else {
      var sep := LastSeparator(p, i);
      assert RelpathOps.CommonUpTo(p, q, i, sep);
      SameIfWhole(p, q, i);
      PartedOrder(p, q, i, sep);
    }
  }

  lemma SameIfWhole(p: string, q: string, i: nat)
    requires i <= |p| && i <= |q| && p[..i] == q[..i]
    ensures i == |p| && i == |q| ==> p == q
  {
    assert i == |p| ==> p[..i] == p;
    assert i == |q| ==> q[..i] == q;
  }

  lemma PartedOrder(p: string, q: string, i: nat, sep: nat)
    requires Canonical(p) && Canonical(q) && p != "" && q != ""
    requires RelpathOps.CommonUpTo(p, q, i, sep) && (i < |p| || i < |q|)
    ensures PathLess(Components(p), Components(q)) <==>
            i < |q| && (i == |p| || p[i] == '/' || (q[i] != '/' && p[i] < q[i]))
  {
    hide Canonical, Components, PathLess, Segments;
    if !RelpathOps.Whole(p, q, i) {
      OrderedWhereTheyPart(p, q, i, sep);
    } else if i == |p| {
      assert q[..|p|] == p;
      BelowIsGreater(p, q);
    } else {
      assert p[..|q|] == q;
      BelowIsGreater(q, p);
    }
  }

  /** Absolute paths are ordered like what is below the root, and all before the relpaths but the empty one. */
  lemma {:induction false} AbsoluteOrder(p: string, q: string)
    requires RelpathOps.IsAbsolute(p)
    ensures RelpathOps.IsAbsolute(q) ==>
              (TextLess(p, q) <==> PathLess(Components(p[1..]), Components(q[1..])))
    ensures Canonical(q) ==> (TextLess(p, q) <==> q != "") && (TextLess(q, p) <==> q == "")
  {
    hide Canonical, Components, PathLess;
    if RelpathOps.IsAbsolute(q) {
      TextIsPathOrder(p[1..], q[1..]);
    }
    if Canonical(q) && q != "" {
      RelpathOps.CanonicalStart(q);
    }
  }

  /** Texts are totally ordered. */
  lemma {:induction false} TextsOrdered(p: string, q: string)
    ensures !TextLess(p, p)
    ensures TextLess(p, q) ==> !TextLess(q, p)
    ensures TextLess(p, q) || TextLess(q, p) || p == q
  {
    if p != "" {
      TextsOrdered(p[1..], if q == "" then "" else q[1..]);
      assert p == [p[0]] + p[1..];
      assert q != "" ==> q == [q[0]] + q[1..];
    }
  }

  /**
   * Compares two paths byte by byte past their common prefix: a separator sorts before every
   * other byte, the end of a path before that. Of canonical relpaths that is the order of paths.
   */
  method ComparePaths(path1: string, path2: string) returns (order: int)
    ensures order == 0 <==> path1 == path2
    ensures order < 0 <==> TextLess(path1, path2)
    ensures order > 0 <==> TextLess(path2, path1)
    ensures Canonical(path1) && Canonical(path2) ==>
              && (order < 0 <==> PathLess(Components(path1), Components(path2)))
              && (order > 0 <==> PathLess(Components(path2), Components(path1)))
  {
    hide Canonical, Components, PathLess, TextLess;
    TextsOrdered(path1, path2);
    if Canonical(path1) && Canonical(path2) {
      TextIsPathOrder(path1, path2);
      TextIsPathOrder(path2, path1);
    }
    var minLen := Min(|path1|, |path2|);
    var i := 0;
    while i < minLen && path1[i] == path2[i]
      invariant i <= minLen && path1[..i] == path2[..i]
    {
      i := i + 1;
    }
    TextsPart(path1, path2, i);
    TextsPart(path2, path1, i);
    if |path1| == |path2| && i >= minLen {
      assert path1 == path1[..i] == path2[..i] == path2;
      return 0;
    }
    // One path ends where the other has a separator: it is an ancestor of the other, and comes first.
    if i < |path1| && path1[i] == '/' && i == |path2| {
      return 1;
    }
    if i < |path2| && path2[i] == '/' && i == |path1| {
      return -1;
    }
    if i < |path1| && path1[i] == '/' {
      return -1;
    }
    if i < |path2| && path2[i] == '/' {
      return 1;
    }
    // The end of a string counts as the smallest byte.
    return if i == |path1| || (i < |path2| && path1[i] < path2[i]) then -1 else 1;
  }

  /** The root of the edit comes before everything else. */
  lemma Extremes(p: string, q: string)
    requires Canonical(p) && Canonical(q)
    ensures p == q ==> !PathLess(Components(p), Components(q)) && !PathLess(Components(q), Components(p))
    ensures p == "" && q != "" ==> PathLess(Components(p), Components(q)) && !PathLess(Components(q), Components(p))
    ensures q == "" && p != "" ==> PathLess(Components(q), Components(p)) && !PathLess(Components(p), Components(q))
    ensures p != "" ==> p[0] != '/'
    ensures q != "" ==> q[0] != '/'
  {
    hide Segments;
    PathsTotallyOrdered(Components(p), Components(p), Components(p));
    if p != "" {
      RelpathOps.CanonicalStart(p);
    }
    if q != "" {
      RelpathOps.CanonicalStart(q);
    }
  }
}
