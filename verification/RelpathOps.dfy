/** The operations on canonical relpaths: join, split, prefixes and ancestors. */
module RelpathOps {
  import opened Common
  import opened Relpath

  // ------------------------------------------------ meaning, on components

  function DirnameOf(p: string): string {
    if Components(p) == [] then "" else Unparse(Init(Components(p)))
  }

  function BasenameOf(p: string): string {
    if Components(p) == [] then "" else Last(Components(p))
  }

  function PrefixOf(p: string, max: int): string {
    Unparse(Components(p)[..Min(Max(max, 0), |Components(p)|)])
  }

  predicate IsAncestor(a: string, p: string) {
    Components(a) <= Components(p)
  }

  function SkipAncestorOf(parent: string, child: string): Option<string> {
    if IsAncestor(parent, child) then Some(Unparse(Components(child)[|Components(parent)|..])) else None
  }

  function LongestAncestorOf(p: string, q: string): string {
    Unparse(Components(p)[..CommonLen(Components(p), Components(q))])
  }

  // -------------------------------------------------------------- operations

  function Join(base: string, component: string): string {
    if base == "" then component
    else if component == "" then base
    else base + "/" + component
  }

  lemma JoinComponents(base: string, component: string)
    requires Canonical(base) && Canonical(component)
    ensures Canonical(Join(base, component))
    ensures Components(Join(base, component)) == Components(base) + Components(component)
  {
    hide Segments;
    if base != "" && component != "" {
      SegmentsAtSlash(base, component);
    }
  }

  /** Length of what is left when the last segment is taken off. */
  method PreviousSegment(relpath: string, length: nat) returns (len: nat)
    requires length == |relpath|
    ensures len <= length
    ensures length > 0 ==> len < length && (forall k :: len < k < length ==> relpath[k] != '/')
    ensures len > 0 ==> relpath[len] == '/'
    ensures length == 0 ==> len == 0
  {
    len := length;
    if len == 0 {
      return;
    }
    len := len - 1;
    while len > 0 && relpath[len] != '/'
      invariant len < length
      invariant forall k :: len < k < length ==> relpath[k] != '/'
    {
      len := len - 1;
    }
  }

  method Dirname(relpath: string) returns (dir: string)
    requires Canonical(relpath)
    ensures dir == DirnameOf(relpath)
  {
    var len := PreviousSegment(relpath, |relpath|);
    dir := relpath[..len];
    LastSegment(relpath, len);
  }

  method Basename(relpath: string) returns (base: string)
    requires Canonical(relpath)
    ensures base == BasenameOf(relpath)
  {
    var start := |relpath|;
    while start > 0 && relpath[start - 1] != '/'
      invariant 0 <= start <= |relpath|
      invariant forall k :: start <= k < |relpath| ==> relpath[k] != '/'
    {
      start := start - 1;
    }
    base := relpath[start..];
    if start > 0 {
      LastSegment(relpath, start - 1);
    } else {
      LastSegment(relpath, 0);
      assert relpath[0..] == relpath;
    }
  }

  /** The last slash separates the last component from the others. */
  lemma LastSegment(p: string, i: nat)
    requires Canonical(p) && i <= |p|
    requires p != "" ==> i < |p| && (forall k :: i < k < |p| ==> p[k] != '/')
    requires i > 0 ==> p[i] == '/'
    ensures p[..i] == DirnameOf(p)
    ensures p != "" && p[i] == '/' ==> p[i + 1..] == BasenameOf(p)
    ensures p == "" || p[i] != '/' ==> p == BasenameOf(p)
  {
    hide Segments, Unparse;
    if p != "" {
      if p[i] == '/' {
        CutAtSlash(p, i);
        OneSegment(p[i + 1..]);
        CanonicalToComponents(p[..i]);
        assert Init(Components(p)) == Components(p[..i]);
      } else {
        OneSegment(p);
        UnparseNothing();
        assert Init([p]) == [];
      }
    }
  }

  lemma UnparseNothing()
    ensures Unparse([]) == ""
  {
  }

  function CountSlashes(s: string): nat {
    if s == "" then 0 else CountSlashes(Init(s)) + if Last(s) == '/' then 1 else 0
  }

  lemma {:induction false} SlashesCountSegments(s: string)
    ensures |Segments(s)| == 1 + CountSlashes(s)
    decreases |s|
  {
    hide Segments;
    if '/' in s {
      var i := LastSlash(s);
      var a, b := s[..i], s[i + 1..];
      assert s == a + "/" + b;
      SegmentsAtSlash(a, b);
      OneSegment(b);
      SlashesCountSegments(a);
      SlashesAppend(a + "/", b);
      assert Init(a + "/") == a;
    } else {
      OneSegment(s);
      SlashesAppend("", s);
      assert "" + s == s;
    }
  }

  lemma LastSlash(s: string) returns (i: nat)
    requires '/' in s
    ensures i < |s| && s[i] == '/' && '/' !in s[i + 1..]
  {
    i := |s| - 1;
    while s[i] != '/'
      invariant i < |s| && '/' !in s[i + 1..] && '/' in s[..i + 1]
      decreases i
    {
      assert s[..i + 1] == s[..i] + [s[i]];
      assert s[i..] == [s[i]] + s[i + 1..];
      i := i - 1;
    }
  }

  lemma {:induction false} SlashesAppend(a: string, b: string)
    requires '/' !in b
    ensures CountSlashes(a + b) == CountSlashes(a)
    decreases |b|
  {
    if b == "" {
      assert a + b == a;
    } else {
      assert Init(a + b) == a + Init(b);
      SlashesAppend(a, Init(b));
    }
  }

  /** At most `max` components from the left. */
  method Prefix(relpath: string, max: int) returns (prefix: string)
    requires Canonical(relpath)
    ensures prefix == PrefixOf(relpath, max)
  {
    hide Segments, Unparse;
    if max <= 0 {
      UnparseNothing();
      return "";
    }
    var end, left := 0, max;
    while end < |relpath|
      invariant end <= |relpath| && left > 0
      invariant left + CountSlashes(relpath[..end]) == max
    {
      assert Init(relpath[..end + 1]) == relpath[..end];
      if relpath[end] == '/' {
        left := left - 1;
        if left == 0 {
          CutAtSlash(relpath, end);
          SlashesCountSegments(relpath[..end]);
          CanonicalToComponents(relpath[..end]);
          assert Components(relpath)[..max] == Components(relpath[..end]);
          return relpath[..end];
        }
      }
      end := end + 1;
    }
    assert relpath[..end] == relpath;
    if relpath != "" {
      SlashesCountSegments(relpath);
    }
    CanonicalToComponents(relpath);
    assert Components(relpath)[..|Components(relpath)|] == Components(relpath);
    return relpath;
  }

  /** The part of `child` below `parent`, if `parent` is an ancestor of it or the same. */
  method SkipAncestor(parent: string, child: string) returns (rest: Option<string>)
    requires Canonical(parent) && Canonical(child)
    ensures rest == SkipAncestorOf(parent, child)
  {
    hide Segments, Unparse;
    var len := |parent|;
    CanonicalToComponents(child);
    if len == 0 {
      assert Components(child)[0..] == Components(child);
      return Some(child);
    }
    AncestorMeansSlash(parent, child);
    if len > |child| || parent != child[..len] {
      return None;
    }
    if len == |child| {
      assert child[..len] == child;
      UnparseNothing();
      assert Components(child)[|Components(parent)|..] == [];
      return Some("");
    }
    if child[len] == '/' {
      CutAtSlash(child, len);
      CanonicalToComponents(child[len + 1..]);
      return Some(child[len + 1..]);
    }
    return None;
  }

  lemma {:induction false} UnparseConcat(a: seq<string>, b: seq<string>)
    requires a != [] && b != []
    ensures Unparse(a + b) == Unparse(a) + "/" + Unparse(b)
    decreases |a|
  {
    if |a| == 1 {
      UnparseOneMore(a[0], b);
      assert a == [a[0]];
    } else {
      UnparseConcat(a[1..], b);
      UnparseOneMore(a[0], a[1..] + b);
      assert a == [a[0]] + a[1..] && a + b == [a[0]] + (a[1..] + b);
    }
  }

  /** As strings: an ancestor is equal, or followed by a slash in its descendant. */
  lemma AncestorMeansSlash(parent: string, child: string)
    requires Canonical(parent) && Canonical(child) && parent != ""
    ensures IsAncestor(parent, child) <==>
      |parent| <= |child| && parent == child[..|parent|] && (|parent| == |child| || child[|parent|] == '/')
  {
    hide Segments, Unparse;
    var a, c := Components(parent), Components(child);
    CanonicalToComponents(parent);
    CanonicalToComponents(child);
    if a <= c {
      var b := c[|a|..];
      assert c == a + b;
      if b != [] {
        UnparseConcat(a, b);
      } else {
        assert a == c;
      }
    }
    if |parent| <= |child| && parent == child[..|parent|] {
      if |parent| == |child| {
        assert parent == child;
      } else if child[|parent|] == '/' {
        CutAtSlash(child, |parent|);
      }
    }
  }

  // ------------------------------------------------------- longest ancestor

  /** An absolute path: a slash, and a canonical relpath after it. */
  predicate IsAbsolute(path: string) {
    path != "" && path[0] == '/' && Canonical(path[1..])
  }

  lemma CanonicalStart(path: string)
    requires Canonical(path) && path != ""
    ensures path[0] != '/'
  {
    CharsDecide(path);
  }

  /**
   * The length of the longest common ancestor of two relpaths, or of two absolute paths: a
   * walk along the common bytes, remembering the last separator. An absolute and a relative
   * path have nothing in common.
   */
  method LongestAncestorLength(path1: string, path2: string) returns (len: nat)
    requires Canonical(path1) || IsAbsolute(path1)
    requires Canonical(path2) || IsAbsolute(path2)
    ensures len <= |path1| && len <= |path2|
    ensures Canonical(path1) && Canonical(path2) ==> path1[..len] == LongestAncestorOf(path1, path2)
    ensures IsAbsolute(path1) && IsAbsolute(path2) ==>
      path1[..len] == "/" + LongestAncestorOf(path1[1..], path2[1..])
    ensures IsAbsolute(path1) != IsAbsolute(path2) ==> len == 0
  {
    hide Segments, Unparse, LongestAncestorOf, Canonical;
    if path1 == "" || path2 == "" {
      CommonLenOfNothing(Components(path1), Components(path2));
      UnparseCommon(path1, path2);
      return 0;
    }
    if Canonical(path1) {
      CanonicalStart(path1);
    }
    if Canonical(path2) {
      CanonicalStart(path2);
    }
    var i, lastSep := 0, 0;
    while path1[i] == path2[i]
      invariant i < |path1| && i < |path2|
      invariant path1[..i] == path2[..i]
      invariant lastSep <= i && (i > 0 ==> lastSep < i)
      invariant lastSep > 0 ==> path1[lastSep] == '/'
      invariant forall k :: lastSep < k < i ==> path1[k] != '/'
      invariant i > 0 ==> path1[0] == path2[0]
      decreases |path1| - i
    {
      if path1[i] == '/' {
        lastSep := i;
      }
      i := i + 1;
      if i == |path1| || i == |path2| {
        break;
      }
    }
    assert path1[..i] == path2[..i];
    if IsAbsolute(path1) && IsAbsolute(path2) {
      CommonBytesAbsolute(path1, path2, i, lastSep);
    } else if Canonical(path1) && Canonical(path2) {
      CommonBytes(path1, path2, i, lastSep);
    }
    if i == 1 && path1[0] == '/' && path2[0] == '/' {
      return 1;
    }
    if Whole(path1, path2, i) {
      return i;
    }
    if lastSep == 0 && path1[0] == '/' && path2[0] == '/' {
      return 1;
    }
    return lastSep;
  }

  /** The common bytes are all of one path, and end a segment of the other. */
  predicate Whole(p: string, q: string, i: nat)
    requires i <= |p| && i <= |q|
  {
    || (i == |p| && i < |q| && q[i] == '/')
    || (i == |q| && i < |p| && p[i] == '/')
    || (i == |p| && i == |q|)
  }

  ghost predicate CommonUpTo(p: string, q: string, i: nat, lastSep: nat) {
    && i <= |p| && i <= |q| && p[..i] == q[..i]
    && (i == |p| || i == |q| || p[i] != q[i])
    && lastSep <= i && (lastSep > 0 ==> lastSep < i && p[lastSep] == '/')
    && (forall k :: lastSep < k < i ==> p[k] != '/')
  }

  lemma {:induction false} CommonLenOfAppended(b: seq<string>, x: seq<string>, y: seq<string>)
    ensures CommonLen(b + x, b + y) == |b| + CommonLen(x, y)
  {
    if b == [] {
      assert b + x == x && b + y == y;
    } else {
      CommonLenOfAppended(b[1..], x, y);
      assert (b + x)[1..] == b[1..] + x && (b + y)[1..] == b[1..] + y;
    }
  }

  lemma {:induction false} CommonLenOfNothing(x: seq<string>, y: seq<string>)
    ensures x == [] || y == [] || x[0] != y[0] ==> CommonLen(x, y) == 0
  {
  }

  lemma UnparseCommon(p: string, q: string)
    requires CommonLen(Components(p), Components(q)) == 0
    ensures LongestAncestorOf(p, q) == ""
  {
  }

  /** Where the paths share the directory `base` and nothing after it. */
  lemma CommonBase(p: string, q: string, base: string, x: seq<string>, y: seq<string>)
    requires Canonical(base)
    requires Components(p) == Components(base) + x && Components(q) == Components(base) + y
    requires x == [] || y == [] || x[0] != y[0]
    ensures LongestAncestorOf(p, q) == base
  {
    hide Components;
    var b := Components(base);
    CommonLenOfAppended(b, x, y);
    CommonLenOfNothing(x, y);
    CanonicalToComponents(base);
    assert (b + x)[..|b|] == b;
  }

  lemma CommonBytes(p: string, q: string, i: nat, lastSep: nat)
    requires Canonical(p) && Canonical(q) && p != "" && q != ""
    requires CommonUpTo(p, q, i, lastSep)
    ensures LongestAncestorOf(p, q) == if Whole(p, q, i) then p[..i] else p[..lastSep]
  {
    hide Segments, Unparse, LongestAncestorOf;
    CanonicalStart(p);
    CanonicalStart(q);
    if Whole(p, q, i) {
      if i < |q| {
        assert p == p[..i] == q[..i];
        CutAtSlash(q, i);
        CommonBase(p, q, p, [], Components(q[i + 1..]));
      } else if i < |p| {
        assert q == q[..i] == p[..i];
        CutAtSlash(p, i);
        CommonBase(p, q, q, Components(p[i + 1..]), []);
      } else {
        assert p == p[..i] == q[..i] == q;
        CommonBase(p, q, p, [], []);
      }
    } else if lastSep > 0 {
      assert q[lastSep] == q[..i][lastSep] == p[..i][lastSep] == p[lastSep];
      assert q[..lastSep] == q[..i][..lastSep] == p[..i][..lastSep] == p[..lastSep];
      CutAtSlash(p, lastSep);
      CutAtSlash(q, lastSep);
      var t, u := p[lastSep + 1..], q[lastSep + 1..];
      var n := i - lastSep - 1;
      assert t[..n] == p[..i][lastSep + 1..] == q[..i][lastSep + 1..] == u[..n];
      FirstSegmentsDiffer(t, u, n);
      CommonBase(p, q, p[..lastSep], Components(t), Components(u));
    } else {
      FirstSegmentsDiffer(p, q, i);
      CommonBase(p, q, "", Components(p), Components(q));
    }
  }

  /** Strings that part before a slash in either begin with different segments. */
  lemma {:induction false} FirstSegmentsDiffer(t: string, u: string, n: nat)
    requires n <= |t| && n <= |u| && t[..n] == u[..n]
    requires forall k :: 0 <= k < n ==> t[k] != '/'
    requires n < |t| && n < |u| ==> t[n] != u[n]
    requires !Whole(t, u, n)
    ensures Segments(t)[0] != Segments(u)[0]
  {
    hide FirstSlash;
    var a, b := Segments(t)[0], Segments(u)[0];
    assert a == t[..FirstSlash(t)] && b == u[..FirstSlash(u)];
    assert forall k :: 0 <= k < n ==> u[k] == u[..n][k] == t[..n][k] == t[k];
    assert FirstSlash(t) >= n && FirstSlash(u) >= n;
    assert |a| > n ==> a[n] == t[n] && t[n] != '/';
    assert |b| > n ==> b[n] == u[n] && u[n] != '/';
  }

  lemma CommonBytesAbsolute(p: string, q: string, i: nat, lastSep: nat)
    requires IsAbsolute(p) && IsAbsolute(q) && i >= 1
    requires CommonUpTo(p, q, i, lastSep)
    ensures "/" + LongestAncestorOf(p[1..], q[1..]) ==
      if i == 1 then p[..1] else if Whole(p, q, i) then p[..i] else if lastSep == 0 then p[..1] else p[..lastSep]
  {
    hide LongestAncestorOf, Canonical;
    var p', q' := p[1..], q[1..];
    if i == 1 {
      if p' == "" || q' == "" {
        CommonLenOfNothing(Components(p'), Components(q'));
        UnparseCommon(p', q');
      } else {
        assert p'[0] == p[1] && q'[0] == q[1];
        CommonBytes(p', q', 0, 0);
      }
    } else {
      CanonicalStart(p');
      var last := if lastSep == 0 then 0 else lastSep - 1;
      assert p'[..i - 1] == p[..i][1..] == q[..i][1..] == q'[..i - 1];
      assert lastSep > 0 ==> p'[last] == '/';
      CommonBytes(p', q', i - 1, last);
      assert p[..i] == "/" + p'[..i - 1];
      assert lastSep > 0 ==> p[..lastSep] == "/" + p'[..last];
    }
  }

  method LongestAncestor(relpath1: string, relpath2: string) returns (ancestor: string)
    requires Canonical(relpath1) && Canonical(relpath2)
    ensures ancestor == LongestAncestorOf(relpath1, relpath2)
  {
    var len := LongestAncestorLength(relpath1, relpath2);
    ancestor := relpath1[..len];
  }

  // ----------------------------------------------------------------- the algebra

  /** Taking a relpath apart and joining the parts is the identity. */
  lemma SplitThenJoin(p: string)
    requires Canonical(p)
    ensures Canonical(DirnameOf(p)) && Canonical(BasenameOf(p))
    ensures Join(DirnameOf(p), BasenameOf(p)) == p
  {
    hide Segments, Unparse;
    CanonicalToComponents(p);
    var cs := Components(p);
    if cs != [] {
      ComponentsToCanonical(Init(cs));
      OneSegment(Last(cs));
      assert AllNames([Last(cs)]);
      JoinComponents(DirnameOf(p), BasenameOf(p));
      assert Init(cs) + [Last(cs)] == cs;
      SameComponents(Join(DirnameOf(p), BasenameOf(p)), p);
    }
  }

  /** Splitting a relpath that was joined from a directory and one name gives them back. */
  lemma JoinThenSplit(dir: string, name: string)
    requires Canonical(dir) && IsComponent(name)
    ensures DirnameOf(Join(dir, name)) == dir && BasenameOf(Join(dir, name)) == name
  {
    hide Segments, Unparse;
    OneSegment(name);
    assert AllNames([name]);
    JoinComponents(dir, name);
    CanonicalToComponents(dir);
    var cs := Components(dir) + [name];
    assert Init(cs) == Components(dir) && Last(cs) == name;
  }

  function IteratedDirname(p: string, times: nat): string {
    if times == 0 then p else DirnameOf(IteratedDirname(p, times - 1))
  }

  /** A prefix is what is left after taking off one component at a time. */
  lemma {:induction false} PrefixIsIteratedDirname(p: string, times: nat)
    requires Canonical(p)
    ensures IteratedDirname(p, times) == PrefixOf(p, |Components(p)| - times)
  {
    hide Segments, Unparse;
    CanonicalToComponents(p);
    var cs := Components(p);
    if times == 0 {
      assert cs[..|cs|] == cs;
    } else {
      PrefixIsIteratedDirname(p, times - 1);
      var n := Min(Max(|cs| - (times - 1), 0), |cs|);
      ComponentsToCanonical(cs[..n]);
      UnparseNothing();
      if n > 0 {
        assert Init(cs[..n]) == cs[..n - 1];
      }
    }
  }

  /** Skipping an ancestor and joining undo each other: one holds exactly when the other does. */
  lemma SkipAncestorIffJoin(parent: string, child: string, rest: string)
    requires Canonical(parent) && Canonical(child)
    ensures SkipAncestorOf(parent, child) == Some(rest) <==> Canonical(rest) && Join(parent, rest) == child
  {
    hide Segments, Unparse;
    CanonicalToComponents(parent);
    CanonicalToComponents(child);
    var a, c := Components(parent), Components(child);
    if a <= c {
      assert c == a + c[|a|..];
      ComponentsToCanonical(c[|a|..]);
      JoinComponents(parent, Unparse(c[|a|..]));
      SameComponents(Join(parent, Unparse(c[|a|..])), child);
    }
    if Canonical(rest) && Join(parent, rest) == child {
      JoinComponents(parent, rest);
      CanonicalToComponents(rest);
      assert c[|a|..] == Components(rest);
    }
  }

  /** The longest common ancestor is the greatest lower bound. */
  lemma LongestAncestorIsGreatest(p: string, q: string, a: string)
    requires Canonical(p) && Canonical(q) && Canonical(a)
    ensures Canonical(LongestAncestorOf(p, q))
    ensures IsAncestor(a, p) && IsAncestor(a, q) <==> IsAncestor(a, LongestAncestorOf(p, q))
  {
    hide Segments, Unparse;
    CanonicalToComponents(p);
    var x, y, cs := Components(p), Components(q), Components(a);
    var n := CommonLen(x, y);
    ComponentsToCanonical(x[..n]);
    if cs <= x && cs <= y {
      PrefixOfBoth(cs, x, y);
    }
    if cs <= x[..n] {
      assert cs == x[..n][..|cs|] == x[..|cs|];
      assert cs == y[..n][..|cs|] == y[..|cs|];
    }
  }

  lemma {:induction false} PrefixOfBoth(cs: seq<string>, x: seq<string>, y: seq<string>)
    requires cs <= x && cs <= y
    ensures cs <= x[..CommonLen(x, y)]
  {
    if cs != [] {
      assert cs[0] == x[0] == y[0];
      PrefixOfBoth(cs[1..], x[1..], y[1..]);
      assert x[..CommonLen(x, y)] == [x[0]] + x[1..][..CommonLen(x[1..], y[1..])];
    }
  }
}
