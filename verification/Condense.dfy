/** Condensing a list of targets to their common ancestor and what is needed below it. */
module Condense {
  import opened Common
  import opened Relpath
  import opened RelpathOps

  type Path = seq<string>

  /** The components of an absolute path. */
  function Below(path: string): Path {
    if path == "" then [] else Components(path[1..])
  }

  /** `d` is `path` or an ancestor of it. */
  predicate Above(d: Path, path: string) {
    d <= Below(path)
  }

  ghost predicate AllAbsolute(targets: seq<string>) {
    forall i :: 0 <= i < |targets| ==> IsAbsolute(targets[i])
  }

  predicate IsRoot(dirent: string) {
    dirent == "/"
  }

  /** Joins a relpath to an absolute path; the root already ends in a separator. */
  function DirentJoin(base: string, component: string): string {
    if component == "" then base
    else if base == "" then component
    else if Last(base) == '/' then base + component
    else base + "/" + component
  }

  /** The longest common ancestor of two absolute paths. */
  function AbsoluteAncestorOf(p: string, q: string): string
    requires p != "" && q != ""
  {
    "/" + LongestAncestorOf(p[1..], q[1..])
  }

  method AbsoluteAncestor(p: string, q: string) returns (a: string)
    requires IsAbsolute(p) && IsAbsolute(q)
    ensures a == AbsoluteAncestorOf(p, q) && IsAbsolute(a)
    ensures Below(a) <= Below(p) && Below(a) <= Below(q)
    ensures a == p <==> Below(p) <= Below(q)
    ensures a == q <==> Below(q) <= Below(p)
    ensures forall d: Path :: Above(d, p) && Above(d, q) ==> Above(d, a)
  {
    var len := LongestAncestorLength(p, q);
    a := p[..len];
    AncestorFacts(p, q);
  }

  lemma AncestorFacts(p: string, q: string)
    requires IsAbsolute(p) && IsAbsolute(q)
    ensures IsAbsolute(AbsoluteAncestorOf(p, q))
    ensures Below(AbsoluteAncestorOf(p, q)) <= Below(p)
    ensures Below(AbsoluteAncestorOf(p, q)) <= Below(q)
    ensures AbsoluteAncestorOf(p, q) == p <==> Below(p) <= Below(q)
    ensures AbsoluteAncestorOf(p, q) == q <==> Below(q) <= Below(p)
    ensures forall d: Path :: Above(d, p) && Above(d, q) ==> Above(d, AbsoluteAncestorOf(p, q))
  {
    hide Segments, Unparse;
    var x, y := Below(p), Below(q);
    var n := CommonLen(x, y);
    var a := AbsoluteAncestorOf(p, q);
    CanonicalToComponents(p[1..]);
    ComponentsToCanonical(x[..n]);
    assert a[1..] == Unparse(x[..n]);
    assert Below(a) == x[..n] == y[..n];
    forall d: Path | Above(d, p) && Above(d, q)
      ensures Above(d, a)
    {
      PrefixOfBoth(d, x, y);
    }
    SameAbsolute(a, p);
    SameAbsolute(a, q);
  }

  lemma SameAbsolute(p: string, q: string)
    requires IsAbsolute(p) && IsAbsolute(q)
    ensures p == q <==> Below(p) == Below(q)
  {
    if Below(p) == Below(q) {
      SameComponents(p[1..], q[1..]);
      assert p == [p[0]] + p[1..] && q == [q[0]] + q[1..];
    }
  }

  // ---------------------------------------------------------- specification

  /** `x` is one of the paths or lies below one of them. */
  ghost predicate Covered(paths: seq<Path>, x: Path) {
    exists i :: 0 <= i < |paths| && paths[i] <= x
  }

  ghost predicate SameCover(p: seq<Path>, q: seq<Path>) {
    forall x: Path :: Covered(p, x) <==> Covered(q, x)
  }

  function BelowAll(targets: seq<string>): (r: seq<Path>)
    ensures |r| == |targets| && forall i :: 0 <= i < |r| ==> r[i] == Below(targets[i])
  {
    seq(|targets|, i requires 0 <= i < |targets| => Below(targets[i]))
  }

  /** The paths a condensed list stands for; an empty list stands for the common ancestor. */
  function Expand(common: string, condensed: seq<string>): (r: seq<Path>)
    ensures condensed != [] ==> |r| == |condensed|
    ensures condensed != [] ==> forall i :: 0 <= i < |r| ==> r[i] == Below(common) + Components(condensed[i])
    ensures condensed == [] ==> r == [Below(common)]
  {
    if condensed == [] then [Below(common)]
    else seq(|condensed|, i requires 0 <= i < |condensed| => Below(common) + Components(condensed[i]))
  }

  ghost predicate AncestorOfAll(d: Path, targets: seq<string>) {
    forall i :: 0 <= i < |targets| ==> Above(d, targets[i])
  }

  /** The longest path above every target. */
  ghost predicate IsCommonAncestor(common: string, targets: seq<string>) {
    && IsAbsolute(common)
    && AncestorOfAll(Below(common), targets)
    && forall d: Path :: AncestorOfAll(d, targets) ==> Above(d, common)
  }

  ghost predicate Antichain(condensed: seq<string>) {
    && (forall i :: 0 <= i < |condensed| ==> condensed[i] != "")
    && (forall i, j :: 0 <= i < |condensed| && 0 <= j < |condensed| && i != j ==>
          !(Components(condensed[i]) <= Components(condensed[j])))
  }

  // --------------------------------------------------------------- the passes

  method CommonAncestor(targets: seq<string>) returns (common: string)
    requires AllAbsolute(targets) && targets != []
    ensures IsCommonAncestor(common, targets)
  {
    hide IsAbsolute, Below;
    common := targets[0];
    for i := 1 to |targets|
      invariant IsCommonAncestor(common, targets[..i])
    {
      assert targets[..i + 1] == targets[..i] + [targets[i]];
      ghost var before := common;
      common := AbsoluteAncestor(common, targets[i]);
      CommonOfOneMore(before, common, targets[..i], targets[i]);
    }
    assert targets[..|targets|] == targets;
  }

  lemma CommonOfOneMore(before: string, common: string, targets: seq<string>, target: string)
    requires AllAbsolute(targets) && IsAbsolute(target) && IsCommonAncestor(before, targets)
    requires IsAbsolute(common) && Below(common) <= Below(before) && Below(common) <= Below(target)
    requires forall d: Path :: Above(d, before) && Above(d, target) ==> Above(d, common)
    ensures IsCommonAncestor(common, targets + [target])
  {
    hide IsAbsolute, Below;
    var all := targets + [target];
    forall i | 0 <= i < |all|
      ensures Above(Below(common), all[i])
    {
      if i < |targets| {
        PathTransitive(Below(common), Below(before), Below(targets[i]));
      }
    }
    forall d: Path | AncestorOfAll(d, all)
      ensures Above(d, common)
    {
      assert forall i :: 0 <= i < |targets| ==> all[i] == targets[i];
      assert AncestorOfAll(d, targets);
      assert all[|targets|] == target;
    }
  }

  lemma PathTransitive(a: Path, b: Path, c: Path)
    requires a <= b && b <= c
    ensures a <= c
  {
    assert a == b[..|a|] == c[..|b|][..|a|] == c[..|a|];
  }

  /** Every target has a target above it that has not been removed, no later one if it is the same. */
  ghost predicate Covers(targets: seq<string>, removed: seq<bool>, cover: seq<nat>) {
    && |removed| == |targets| == |cover|
    && forall k :: 0 <= k < |targets| ==>
         && cover[k] < |targets| && !removed[cover[k]] && Below(targets[cover[k]]) <= Below(targets[k])
         && (Below(targets[cover[k]]) == Below(targets[k]) ==> cover[k] <= k)
  }

  ghost predicate Unrelated(targets: seq<string>, removed: seq<bool>, i: nat, j: nat)
    requires |removed| == |targets| && i < |targets| && j < |targets|
  {
    removed[i] || removed[j] || (!(Below(targets[i]) <= Below(targets[j])) && !(Below(targets[j]) <= Below(targets[i])))
  }

  /** Each of the first `i` targets is unrelated to every other one. */
  ghost predicate UnrelatedBefore(targets: seq<string>, removed: seq<bool>, i: nat) {
    && |removed| == |targets| && i <= |targets|
    && forall a, b :: 0 <= a < i && 0 <= b < |targets| && a != b ==> Unrelated(targets, removed, a, b)
  }

  /** Target `i` is unrelated to those after it, up to `j`. */
  ghost predicate RowUnrelated(targets: seq<string>, removed: seq<bool>, i: nat, j: nat) {
    && |removed| == |targets| && i < j <= |targets|
    && forall b :: i < b < j ==> Unrelated(targets, removed, i, b)
  }

  lemma RemovingKeepsUnrelated(targets: seq<string>, removed: seq<bool>, x: nat, i: nat, j: nat)
    requires UnrelatedBefore(targets, removed, i) && RowUnrelated(targets, removed, i, j) && x < |targets|
    ensures UnrelatedBefore(targets, removed[x := true], i)
    ensures RowUnrelated(targets, removed[x := true], i, j)
  {
    hide Below;
    var removed' := removed[x := true];
    forall a, b | 0 <= a < i && 0 <= b < |targets| && a != b
      ensures Unrelated(targets, removed', a, b)
    {
      assert Unrelated(targets, removed, a, b);
    }
    forall b | i < b < j
      ensures Unrelated(targets, removed', i, b)
    {
      assert Unrelated(targets, removed, i, b);
    }
  }

  lemma RowDone(targets: seq<string>, removed: seq<bool>, i: nat)
    requires i < |targets| && UnrelatedBefore(targets, removed, i)
    requires RowUnrelated(targets, removed, i, |targets|)
    ensures UnrelatedBefore(targets, removed, i + 1)
  {
    hide Below;
    forall a, b | 0 <= a < i + 1 && 0 <= b < |targets| && a != b
      ensures Unrelated(targets, removed, a, b)
    {
      assert a < i || b > i || Unrelated(targets, removed, b, a);
    }
  }

  lemma RowLonger(targets: seq<string>, removed: seq<bool>, i: nat, j: nat)
    requires j < |targets| && RowUnrelated(targets, removed, i, j) && Unrelated(targets, removed, i, j)
    ensures RowUnrelated(targets, removed, i, j + 1)
  {
    hide Unrelated;
  }

  function Recover(cover: seq<nat>, from: nat, to: nat): (r: seq<nat>)
    ensures |r| == |cover| && forall k :: 0 <= k < |r| ==> r[k] == if cover[k] == from then to else cover[k]
  {
    seq(|cover|, k requires 0 <= k < |cover| => if cover[k] == from then to else cover[k])
  }

  /** Removing `x` below a target that stays keeps everything covered. */
  lemma RemoveCovered(targets: seq<string>, removed: seq<bool>, cover: seq<nat>, x: nat, y: nat)
    requires AllAbsolute(targets) && Covers(targets, removed, cover)
    requires x < |targets| && y < |targets| && x != y && !removed[y]
    requires Below(targets[y]) <= Below(targets[x]) && (Below(targets[y]) == Below(targets[x]) ==> y < x)
    ensures Covers(targets, removed[x := true], Recover(cover, x, y))
  {
    hide IsAbsolute, Below;
    var cover' := Recover(cover, x, y);
    forall k | 0 <= k < |targets|
      ensures !removed[x := true][cover'[k]] && Below(targets[cover'[k]]) <= Below(targets[k])
      ensures Below(targets[cover'[k]]) == Below(targets[k]) ==> cover'[k] <= k
    {
      if cover[k] == x {
        PathTransitive(Below(targets[y]), Below(targets[x]), Below(targets[k]));
      }
    }
  }

  /** First pass, for one target: compares it with every later one and removes the lower of two. */
  method RemoveAround(targets: seq<string>, removed: array<bool>, i: nat, ghost cover0: seq<nat>)
    returns (ghost cover: seq<nat>)
    requires AllAbsolute(targets) && removed.Length == |targets| && i < |targets|
    requires !removed[i] && Covers(targets, removed[..], cover0)
    requires UnrelatedBefore(targets, removed[..], i)
    modifies removed
    ensures Covers(targets, removed[..], cover)
    ensures UnrelatedBefore(targets, removed[..], i + 1)
  {
    hide IsAbsolute, Below, UnrelatedBefore, RowUnrelated, Covers;
    cover := cover0;
    ghost var above: nat := i; // the target above i, once i has been removed
    var j := i + 1;
    RowEmpty(targets, removed[..], i);
    while j < |targets|
      invariant i < j <= |targets| && removed.Length == |targets|
      invariant Covers(targets, removed[..], cover)
      invariant above < j && above < |targets| && !removed[above] && (removed[i] <==> above != i)
      invariant removed[i] ==> Below(targets[above]) <= Below(targets[i]) && Below(targets[above]) != Below(targets[i])
      invariant UnrelatedBefore(targets, removed[..], i)
      invariant RowUnrelated(targets, removed[..], i, j)
      decreases |targets| - j
    {
      if removed[j] {
        RowLonger(targets, removed[..], i, j);
        j := j + 1;
        continue;
      }
      var ancestor := AbsoluteAncestor(targets[i], targets[j]);
      ghost var before := removed[..];
      if ancestor == targets[i] {
        PathTransitive(Below(targets[above]), Below(targets[i]), Below(targets[j]));
        RemoveCovered(targets, before, cover, j, above);
        RemovingKeepsUnrelated(targets, before, j, i, j);
        cover := Recover(cover, j, above);
        removed[j] := true;
        assert removed[..] == before[j := true];
      } else if ancestor == targets[j] {
        RemovingKeepsUnrelated(targets, before, i, i, j);
        if removed[i] {
          assert before[i := true] == before;
        } else {
          RemoveCovered(targets, before, cover, i, j);
          cover := Recover(cover, i, j);
          above := j;
        }
        removed[i] := true;
        assert removed[..] == before[i := true];
      }
      RowLonger(targets, removed[..], i, j);
      j := j + 1;
    }
    RowDone(targets, removed[..], i);
  }

  lemma RowEmpty(targets: seq<string>, removed: seq<bool>, i: nat)
    requires |removed| == |targets| && i < |targets|
    ensures RowUnrelated(targets, removed, i, i + 1)
  {
  }

  /** First pass: no target that is left lies below another one that is left. */
  method RemoveRedundant(targets: seq<string>, removed: array<bool>) returns (ghost cover: seq<nat>)
    requires AllAbsolute(targets) && removed.Length == |targets|
    requires forall k :: 0 <= k < removed.Length ==> !removed[k]
    modifies removed
    ensures Covers(targets, removed[..], cover)
    ensures UnrelatedBefore(targets, removed[..], |targets|)
  {
    hide IsAbsolute, Below;
    cover := seq(|targets|, k => k);
    for i := 0 to |targets|
      invariant Covers(targets, removed[..], cover)
      invariant UnrelatedBefore(targets, removed[..], i)
    {
      if removed[i] {
        RemovedRow(targets, removed[..], i);
      } else {
        cover := RemoveAround(targets, removed, i, cover);
      }
    }
  }

  lemma RemovedRow(targets: seq<string>, removed: seq<bool>, i: nat)
    requires i < |targets| && UnrelatedBefore(targets, removed, i) && removed[i]
    ensures UnrelatedBefore(targets, removed, i + 1)
  {
  }

  /** Second pass: a target that is the common ancestor itself goes too. */
  method RemoveCommon(targets: seq<string>, common: string, removed: array<bool>)
    requires removed.Length == |targets|
    modifies removed
    ensures forall k :: 0 <= k < |targets| ==> removed[k] == (old(removed[k]) || targets[k] == common)
  {
    for i := 0 to |targets|
      invariant forall k :: 0 <= k < |targets| ==>
                  removed[k] == (old(removed[k]) || (k < i && targets[k] == common))
    {
      if targets[i] == common && !removed[i] {
        removed[i] := true;
      }
    }
  }

  /** A target relative to the common ancestor. */
  method Relative(common: string, target: string) returns (rel: string)
    requires IsAbsolute(common) && IsAbsolute(target) && Below(common) <= Below(target)
    ensures Canonical(rel) && Below(target) == Below(common) + Components(rel)
    ensures DirentJoin(common, rel) == target
    ensures rel == "" <==> target == common
  {
    var basedirLen := |common|;
    RelativeFacts(common, target);
    rel := target[basedirLen..];
    if rel != "" && !IsRoot(common) {
      rel := rel[1..];
    }
    assert rel == Cut(common, target);
  }

  function Cut(common: string, target: string): string {
    if |target| < |common| then ""
    else if |target| > |common| && !IsRoot(common) then target[|common| + 1..]
    else target[|common|..]
  }

  lemma RelativeFacts(common: string, target: string)
    requires IsAbsolute(common) && IsAbsolute(target) && Below(common) <= Below(target)
    ensures |common| <= |target|
    ensures |common| < |target| && !IsRoot(common) ==> target[|common|] == '/'
    ensures Canonical(Cut(common, target))
    ensures Below(target) == Below(common) + Components(Cut(common, target))
    ensures DirentJoin(common, Cut(common, target)) == target
    ensures Cut(common, target) == "" <==> target == common
  {
    hide Segments, Unparse, Canonical, Components;
    var c, t := common[1..], target[1..];
    assert common == "/" + c && target == "/" + t;
    if c == "" {
      RelativeToRoot(t);
    } else {
      RelativeBelow(c, t);
    }
  }

  lemma RelativeToRoot(t: string)
    requires Canonical(t)
    ensures Cut("/", "/" + t) == t && DirentJoin("/", t) == "/" + t
    ensures Below("/") == [] && Below("/" + t) == Below("/") + Components(t)
  {
    hide Segments, Unparse, Canonical, Components;
    NothingHasNoComponents();
    assert "/"[1..] == "" && ("/" + t)[1..] == t;
    assert Components(t) == [] + Components(t);
  }

  lemma RelativeBelow(c: string, t: string)
    requires Canonical(c) && Canonical(t) && c != "" && Components(c) <= Components(t)
    ensures |c| <= |t| && (|c| < |t| ==> t[|c|] == '/')
    ensures var rel := Cut("/" + c, "/" + t);
            && Canonical(rel) && Components(t) == Components(c) + Components(rel)
            && DirentJoin("/" + c, rel) == "/" + t && (rel == "" <==> c == t)
  {
    hide Segments, Unparse, Canonical, Components;
    assert IsAncestor(c, t);
    AncestorMeansSlash(c, t);
    NothingHasNoComponents();
    var rel := Cut("/" + c, "/" + t);
    if |c| < |t| {
      CutAtSlash(t, |c|);
      assert t[..|c|] == c;
      assert rel == ("/" + t)[|c| + 2..] == t[|c| + 1..];
      assert t == c + "/" + rel;
      CanonicalEnd(c);
      assert Last("/" + c) == Last(c);
      assert "/" + c + "/" + rel == "/" + (c + "/" + rel);
    } else {
      assert c == t && rel == "";
      assert Components(t) == Components(c) + [];
    }
  }

  lemma NothingHasNoComponents()
    ensures Components("") == [] && Canonical("")
  {
  }

  lemma CanonicalEnd(p: string)
    requires Canonical(p) && p != ""
    ensures Last(p) != '/'
  {
    CharsDecide(p);
  }

  /**
   * With redundancies removed a target is kept if it is not the common part and every other target
   * that is not below it or elsewhere is the same one again, listed later.
   */
  ghost predicate IsKept(targets: seq<string>, common: string, i: nat)
    requires i < |targets|
  {
    && targets[i] != common
    && forall j :: 0 <= j < |targets| && j != i && Below(targets[j]) <= Below(targets[i]) ==>
         Below(targets[j]) == Below(targets[i]) && i < j
  }

  /** The results are the targets that are kept, relative to the common part and in their order. */
  ghost predicate KeptInOrder(targets: seq<string>, common: string, condensed: seq<string>, from: seq<nat>) {
    && |from| == |condensed|
    && (forall k, l :: 0 <= k < l < |from| ==> from[k] < from[l])
    && (forall k :: 0 <= k < |from| ==>
          from[k] < |targets| && DirentJoin(common, condensed[k]) == targets[from[k]])
    && (forall i :: 0 <= i < |targets| ==> (i in from <==> IsKept(targets, common, i)))
  }

  lemma KeptAre(
      targets: seq<string>, common: string, first: seq<bool>, removed: seq<bool>, cover: seq<nat>, i: nat)
    requires i < |targets| && |first| == |targets| == |removed|
    requires removed[i] == (first[i] || targets[i] == common)
    requires Covers(targets, first, cover) && UnrelatedBefore(targets, first, |targets|)
    ensures !removed[i] <==> IsKept(targets, common, i)
  {
    hide Below;
    var m := cover[i];
    if !removed[i] {
      forall j | 0 <= j < |targets| && j != i && Below(targets[j]) <= Below(targets[i])
        ensures Below(targets[j]) == Below(targets[i]) && i < j
      {
        PathTransitive(Below(targets[cover[j]]), Below(targets[j]), Below(targets[i]));
        assert cover[j] == i || Unrelated(targets, first, cover[j], i);
      }
    }
  }

  lemma LeftOverIsKept(
      targets: seq<string>, common: string, first: seq<bool>, removed: seq<bool>, cover: seq<nat>,
      rels: seq<string>, from: seq<nat>)
    requires |first| == |targets| && LeftOver(targets, common, removed, |targets|, rels, from)
    requires forall k :: 0 <= k < |targets| ==> removed[k] == (first[k] || targets[k] == common)
    requires Covers(targets, first, cover) && UnrelatedBefore(targets, first, |targets|)
    ensures KeptInOrder(targets, common, rels, from)
  {
    hide Below, DirentJoin, Canonical, Components, Covers, UnrelatedBefore, IsKept;
    forall i | 0 <= i < |targets|
      ensures i in from <==> IsKept(targets, common, i)
    {
      KeptAre(targets, common, first, removed, cover, i);
      if i in from {
        var k := IndexOf(from, i);
        assert !removed[from[k]];
      }
    }
  }

  /**
   * What condensing absolute targets promises. The common part is the longest path above them all.
   * With redundancies removed no result lies below another, and the results cover what the targets
   * covered; otherwise every target is there, in its place.
   */
  ghost predicate IsCondensed(targets: seq<string>, removeRedundancies: bool, common: string, condensed: seq<string>) {
    && IsCommonAncestor(common, targets)
    && (forall r :: r in condensed ==> Canonical(r))
    && (forall r :: r in condensed ==> DirentJoin(common, r) in targets)
    && (|targets| == 1 ==> common == targets[0] && condensed == [])
    && (|targets| > 1 && !removeRedundancies ==> |condensed| == |targets|)
    && (|targets| > 1 && !removeRedundancies ==>
          forall i :: 0 <= i < |targets| ==> DirentJoin(common, condensed[i]) == targets[i])
    && (|targets| > 1 && removeRedundancies ==> Antichain(condensed))
    && (|targets| > 1 && removeRedundancies ==> exists from :: KeptInOrder(targets, common, condensed, from))
    && (removeRedundancies || |targets| == 1 ==> SameCover(BelowAll(targets), Expand(common, condensed)))
  }

  ghost predicate Resolves(targets: seq<string>, absolute: string -> Option<string>) {
    forall i :: 0 <= i < |targets| ==> absolute(targets[i]).Some?
  }

  /** The targets made absolute. */
  function Resolved(targets: seq<string>, absolute: string -> Option<string>): (r: seq<string>)
    requires Resolves(targets, absolute)
    ensures |r| == |targets| && forall i :: 0 <= i < |r| ==> absolute(targets[i]) == Some(r[i])
  {
    seq(|targets|, i requires 0 <= i < |targets| => absolute(targets[i]).value)
  }

  /**
   * Condenses targets that may be relative: `absolute` makes them absolute, as far as it can. The
   * first target that cannot be made absolute is the error.
   */
  method CondenseTargets(targets: seq<string>, absolute: string -> Option<string>, removeRedundancies: bool)
    returns (failed: Option<string>, common: Option<string>, condensed: Option<seq<string>>)
    requires forall t :: t in targets && absolute(t).Some? ==> IsAbsolute(absolute(t).value)
    ensures failed.None? <==> Resolves(targets, absolute)
    ensures failed.Some? ==> common.None? && condensed.None?
    ensures failed.Some? ==> exists i ::
                               && 0 <= i < |targets| && failed.value == targets[i] && absolute(targets[i]).None?
                               && Resolves(targets[..i], absolute)
    ensures targets == [] ==> common.None? && condensed.None?
    ensures failed.None? && targets != [] ==>
              && common.Some? && condensed.Some?
              && IsCondensed(Resolved(targets, absolute), removeRedundancies, common.value, condensed.value)
  {
    hide IsAbsolute, IsCondensed;
    if |targets| == 0 {
      return None, None, None;
    }
    var absTargets: seq<string> := [];
    for i := 0 to |targets|
      invariant |absTargets| == i && AllAbsolute(absTargets)
      invariant forall k :: 0 <= k < i ==> absolute(targets[k]) == Some(absTargets[k])
    {
      var made := absolute(targets[i]);
      if made.None? {
        assert Resolves(targets[..i], absolute);
        return Some(targets[i]), None, None;
      }
      absTargets := absTargets + [made.value];
    }
    assert absTargets == Resolved(targets, absolute);
    var c, rels := CondenseAbsolute(absTargets, removeRedundancies);
    return None, Some(c), Some(rels);
  }

  method CondenseAbsolute(targets: seq<string>, removeRedundancies: bool)
    returns (common: string, condensed: seq<string>)
    requires AllAbsolute(targets) && targets != []
    ensures IsCondensed(targets, removeRedundancies, common, condensed)
  {
    hide IsAbsolute, Below, DirentJoin, Canonical, Covers, LeftOver, UnrelatedBefore, Expand, Covered, KeptInOrder;
    common := CommonAncestor(targets);
    if |targets| == 1 {
      CommonOfOne(targets, common);
      return common, [];
    }
    var removed := new bool[|targets|](_ => false);
    ghost var cover: seq<nat> := [];
    ghost var first := removed[..];
    if removeRedundancies {
      cover := RemoveRedundant(targets, removed);
      first := removed[..];
      RemoveCommon(targets, common, removed);
    }
    ghost var from;
    condensed, from := RelativeToCommon(targets, common, removed);
    LeftOverJoins(targets, common, removed[..], condensed, from);
    if removeRedundancies {
      LeftOverIsAntichain(targets, common, first, removed[..], condensed, from);
      LeftOverIsKept(targets, common, first, removed[..], cover, condensed, from);
      forall x: Path {
        LeftOverCovers(targets, common, first, removed[..], cover, condensed, from, x);
      }
    } else {
      NothingRemoved(targets, common, removed[..], condensed, from);
    }
  }

  /** Third pass: what is left, relative to the common ancestor. */
  method RelativeToCommon(targets: seq<string>, common: string, removed: array<bool>)
    returns (rels: seq<string>, ghost from: seq<nat>)
    requires AllAbsolute(targets) && IsAbsolute(common) && AncestorOfAll(Below(common), targets)
    requires removed.Length == |targets|
    ensures LeftOver(targets, common, removed[..], |targets|, rels, from)
  {
    hide IsAbsolute, Below, DirentJoin, Canonical, LeftOver;
    rels, from := [], [];
    NothingLeftYet(targets, common, removed[..]);
    for i := 0 to |targets|
      invariant LeftOver(targets, common, removed[..], i, rels, from)
    {
      if removed[i] {
        RemovedLeaves(targets, common, removed[..], i, rels, from);
      } else {
        var rel := Relative(common, targets[i]);
        OneMoreLeft(targets, common, removed[..], i, rels, from, rel);
        rels, from := rels + [rel], from + [i];
      }
    }
  }

  lemma NothingLeftYet(targets: seq<string>, common: string, removed: seq<bool>)
    requires |removed| == |targets|
    ensures LeftOver(targets, common, removed, 0, [], [])
  {
  }

  lemma RemovedLeaves(
      targets: seq<string>, common: string, removed: seq<bool>, i: nat, rels: seq<string>, from: seq<nat>)
    requires LeftOver(targets, common, removed, i, rels, from) && i < |targets| && removed[i]
    ensures LeftOver(targets, common, removed, i + 1, rels, from)
  {
    hide Below, DirentJoin, Canonical, Components;
  }

  lemma OneMoreLeft(
      targets: seq<string>, common: string, removed: seq<bool>, i: nat, rels: seq<string>, from: seq<nat>, rel: string)
    requires LeftOver(targets, common, removed, i, rels, from) && i < |targets| && !removed[i]
    requires Canonical(rel) && DirentJoin(common, rel) == targets[i] && (rel == "" <==> targets[i] == common)
    requires Below(targets[i]) == Below(common) + Components(rel)
    ensures LeftOver(targets, common, removed, i + 1, rels + [rel], from + [i])
  {
    hide Below, DirentJoin, Canonical, Components;
    assert (from + [i])[|from|] == i;
    forall j | 0 <= j < i + 1 && !removed[j]
      ensures j in from + [i]
    {
      assert j == i || j in from;
    }
  }

  lemma LeftOverJoins(
      targets: seq<string>, common: string, removed: seq<bool>, rels: seq<string>, from: seq<nat>)
    requires LeftOver(targets, common, removed, |targets|, rels, from)
    ensures forall r :: r in rels ==> Canonical(r) && DirentJoin(common, r) in targets
  {
    hide Below, DirentJoin, Canonical, Components;
    forall r | r in rels
      ensures Canonical(r) && DirentJoin(common, r) in targets
    {
      var k :| 0 <= k < |rels| && rels[k] == r;
      assert DirentJoin(common, rels[k]) == targets[from[k]];
    }
  }

  /** `rels` are the targets before `n` that were not removed, relative to the common ancestor. */
  ghost predicate LeftOver(
      targets: seq<string>, common: string, removed: seq<bool>, n: nat, rels: seq<string>, from: seq<nat>)
  {
    && |removed| == |targets| && n <= |targets| && |from| == |rels|
    && (forall k :: 0 <= k < |rels| ==>
          && from[k] < n && !removed[from[k]]
          && Canonical(rels[k])
          && DirentJoin(common, rels[k]) == targets[from[k]]
          && Below(targets[from[k]]) == Below(common) + Components(rels[k])
          && (rels[k] == "" <==> targets[from[k]] == common))
    && (forall k, l :: 0 <= k < l < |from| ==> from[k] < from[l])
    && (forall i :: 0 <= i < n && !removed[i] ==> i in from)
  }

  lemma CommonOfOne(targets: seq<string>, common: string)
    requires AllAbsolute(targets) && |targets| == 1 && IsCommonAncestor(common, targets)
    ensures common == targets[0]
    ensures SameCover(BelowAll(targets), Expand(common, []))
  {
    hide IsAbsolute, Below;
    assert AncestorOfAll(Below(targets[0]), targets);
    SameAbsolute(common, targets[0]);
    assert BelowAll(targets) == [Below(common)];
  }

  lemma NothingRemoved(targets: seq<string>, common: string, removed: seq<bool>, rels: seq<string>, from: seq<nat>)
    requires AllAbsolute(targets) && IsAbsolute(common)
    requires LeftOver(targets, common, removed, |targets|, rels, from)
    requires forall k :: 0 <= k < |removed| ==> !removed[k]
    ensures |rels| == |targets|
    ensures forall i :: 0 <= i < |targets| ==> DirentJoin(common, rels[i]) == targets[i]
  {
    hide IsAbsolute, Below, DirentJoin, Canonical;
    EnumeratesAll(from, |targets|);
  }

  lemma IndexOf(from: seq<nat>, i: nat) returns (k: nat)
    requires i in from
    ensures k < |from| && from[k] == i
  {
    k :| 0 <= k < |from| && from[k] == i;
  }

  lemma BoundedByZero(from: seq<nat>, n: nat)
    requires forall k :: 0 <= k < |from| ==> from[k] < n
    ensures n == 0 ==> from == []
  {
    if |from| > 0 {
      assert from[0] < n;
    }
  }

  /** An ascending list that holds every number below `n`, and no other, is those numbers in turn. */
  lemma {:induction false} EnumeratesAll(from: seq<nat>, n: nat)
    requires forall k, l :: 0 <= k < l < |from| ==> from[k] < from[l]
    requires forall k :: 0 <= k < |from| ==> from[k] < n
    requires forall i :: 0 <= i < n ==> i in from
    ensures |from| == n && forall i :: 0 <= i < n ==> from[i] == i
  {
    if n > 0 {
      var k := IndexOf(from, n - 1);
      assert from[|from| - 1] < n;
      var rest := from[..k];
      forall i | 0 <= i < n - 1
        ensures i in rest
      {
        var m := IndexOf(from, i);
        assert rest[m] == i;
      }
      EnumeratesAll(rest, n - 1);
      assert from == rest + [n - 1];
    } else {
      BoundedByZero(from, n);
    }
  }

  lemma SamePrefix(c: Path, a: Path, b: Path)
    ensures c + a <= c + b <==> a <= b
  {
    assert a == (c + a)[|c|..] && b == (c + b)[|c|..];
    if c + a <= c + b {
      assert a == (c + b)[|c|..|c + a|];
    }
  }

  lemma LeftOverIsAntichain(
      targets: seq<string>, common: string, first: seq<bool>, removed: seq<bool>, rels: seq<string>, from: seq<nat>)
    requires AllAbsolute(targets) && IsAbsolute(common)
    requires LeftOver(targets, common, removed, |targets|, rels, from) && |first| == |targets|
    requires forall k :: 0 <= k < |targets| ==> removed[k] == (first[k] || targets[k] == common)
    requires UnrelatedBefore(targets, first, |targets|)
    ensures Antichain(rels)
  {
    hide IsAbsolute, Below, DirentJoin, Canonical, Components;
    forall i, j | 0 <= i < |rels| && 0 <= j < |rels| && i != j
      ensures !(Components(rels[i]) <= Components(rels[j]))
    {
      assert Unrelated(targets, first, from[i], from[j]);
      SamePrefix(Below(common), Components(rels[i]), Components(rels[j]));
    }
  }

  lemma LeftOverCovers(
      targets: seq<string>, common: string, first: seq<bool>, removed: seq<bool>, cover: seq<nat>,
      rels: seq<string>, from: seq<nat>, x: Path)
    requires AllAbsolute(targets) && targets != [] && IsCommonAncestor(common, targets)
    requires LeftOver(targets, common, removed, |targets|, rels, from) && |first| == |targets|
    requires forall k :: 0 <= k < |targets| ==> removed[k] == (first[k] || targets[k] == common)
    requires UnrelatedBefore(targets, first, |targets|)
    requires Covers(targets, first, cover)
    ensures Covered(BelowAll(targets), x) <==> Covered(Expand(common, rels), x)
  {
    hide IsAbsolute, Below, DirentJoin, Canonical, Components;
    var paths, expanded := BelowAll(targets), Expand(common, rels);
    if Covered(paths, x) {
      var k :| 0 <= k < |paths| && paths[k] <= x;
      var m := cover[k];
      PathTransitive(Below(targets[m]), paths[k], x);
      if targets[m] == common {
        OnlyCommonLeft(targets, common, first, m, removed, rels, from);
        assert expanded[0] <= x;
      } else {
        var l :| 0 <= l < |from| && from[l] == m;
        assert expanded[l] <= x;
      }
    }
    if Covered(expanded, x) {
      var l :| 0 <= l < |expanded| && expanded[l] <= x;
      if rels == [] {
        var m := cover[0];
        assert m in from || targets[m] == common;
        assert paths[m] <= x;
      } else {
        assert paths[from[l]] <= x;
      }
    }
  }

  lemma SomeLeft(targets: seq<string>, common: string, removed: seq<bool>, rels: seq<string>, from: seq<nat>)
    requires LeftOver(targets, common, removed, |targets|, rels, from)
    ensures rels == [] || exists i :: 0 <= i < |targets| && !removed[i]
  {
    hide IsAbsolute, Below, DirentJoin, Canonical, Components;
    if rels != [] {
      assert !removed[from[0]];
    }
  }

  /** If the common ancestor is among the targets, it is what the empty list stands for. */
  lemma OnlyCommonLeft(
      targets: seq<string>, common: string, first: seq<bool>, m: nat, removed: seq<bool>,
      rels: seq<string>, from: seq<nat>)
    requires AllAbsolute(targets) && IsCommonAncestor(common, targets)
    requires LeftOver(targets, common, removed, |targets|, rels, from) && |first| == |targets|
    requires forall k :: 0 <= k < |targets| ==> removed[k] == (first[k] || targets[k] == common)
    requires UnrelatedBefore(targets, first, |targets|)
    requires m < |targets| && !first[m] && targets[m] == common
    ensures rels == []
  {
    hide IsAbsolute, Below, DirentJoin, Canonical, Components;
    forall i | 0 <= i < |targets|
      ensures removed[i]
    {
      assert i == m || Unrelated(targets, first, m, i);
      assert Below(common) <= Below(targets[i]);
    }
    SomeLeft(targets, common, removed, rels, from);
  }
}
