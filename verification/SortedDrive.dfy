/** Driving an editor over a list of relpaths, sorted on request. */
module SortedDrive {
  import opened Common
  import opened Editor
  import opened Relpath
  import opened PathOrder
  import opened PathDriver
  import opened DriverRules
  import DriverOrder

  // ------------------------------------------- sorted paths are in order

  lemma {:induction false} PrefixComesFirst(x: Path, y: Path)
    requires x <= y
    ensures x == y || PathLess(x, y)
  {
    if x != [] {
      assert x[0] == y[0];
      PrefixComesFirst(x[1..], y[1..]);
      assert x == [x[0]] + x[1..] && y == [y[0]] + y[1..];
    }
  }

  /** What lies between two paths below a directory is below it too. */
  lemma {:induction false} BetweenIsBelow(a: Path, b: Path, c: Path)
    requires PathLess(a, b) && PathLess(b, c)
    ensures c[..CommonLen(a, c)] <= b
  {
    if a != [] && a[0] == c[0] {
      NameOrder(a[0], b[0], a[0]);
      NameOrder(a[0], a[0], a[0]);
      assert b[0] == a[0];
      BetweenIsBelow(a[1..], b[1..], c[1..]);
      assert c[..CommonLen(a, c)] == [c[0]] + c[1..][..CommonLen(a[1..], c[1..])];
      assert b == [b[0]] + b[1..];
    }
  }

  lemma SortedIsClustered(paths: seq<Path>)
    requires forall i, j :: 0 <= i < j < |paths| ==> PathLess(paths[i], paths[j])
    ensures Clustered(paths)
  {
    forall i, j | 0 <= i < j < |paths|
      ensures !(paths[j] <= paths[i])
    {
      PathsTotallyOrdered(paths[i], paths[j], paths[i]);
      if paths[j] <= paths[i] {
        PrefixComesFirst(paths[j], paths[i]);
      }
    }
    forall i, j, k | 0 <= i < j < k < |paths|
      ensures paths[k][..CommonLen(paths[i], paths[k])] <= paths[j]
    {
      BetweenIsBelow(paths[i], paths[j], paths[k]);
    }
  }

  // ----------------------------------------------------------------- sorting

  ghost predicate AllCanonical(paths: seq<string>) {
    forall i :: 0 <= i < |paths| ==> Canonical(paths[i])
  }

  ghost predicate Sorted(paths: seq<string>) {
    forall i, j :: 0 <= i < j < |paths| ==> !PathLess(Components(paths[j]), Components(paths[i]))
  }

  method Insert(sorted: seq<string>, path: string) returns (r: seq<string>)
    requires AllCanonical(sorted) && Canonical(path) && Sorted(sorted)
    ensures Sorted(r) && AllCanonical(r) && multiset(r) == multiset(sorted) + multiset{path}
  {
    hide Canonical, Components, PathLess, Sorted;
    var i := |sorted|;
    var searching := true;
    while searching && i > 0
      invariant 0 <= i <= |sorted|
      invariant forall k :: i <= k < |sorted| ==> !PathLess(Components(sorted[k]), Components(path))
      invariant !searching ==> i > 0 && !PathLess(Components(path), Components(sorted[i - 1]))
      decreases i, searching
    {
      var order := ComparePaths(sorted[i - 1], path);
      if order <= 0 {
        searching := false;
      } else {
        PathsTotallyOrdered(Components(path), Components(sorted[i - 1]), Components(path));
        i := i - 1;
      }
    }
    r := sorted[..i] + [path] + sorted[i..];
    InsertedIsSorted(sorted, path, i);
    assert sorted == sorted[..i] + sorted[i..];
  }

  lemma InsertedIsSorted(sorted: seq<string>, path: string, i: nat)
    requires i <= |sorted| && Sorted(sorted)
    requires forall k :: i <= k < |sorted| ==> !PathLess(Components(sorted[k]), Components(path))
    requires i > 0 ==> !PathLess(Components(path), Components(sorted[i - 1]))
    ensures Sorted(sorted[..i] + [path] + sorted[i..])
  {
    hide Components, PathLess;
    var r := sorted[..i] + [path] + sorted[i..];
    forall k | 0 <= k < i
      ensures !PathLess(Components(path), Components(sorted[k]))
    {
      if k < i - 1 {
        NotLessTransitive(Components(path), Components(sorted[i - 1]), Components(sorted[k]));
      }
    }
    forall j, k | 0 <= j < k < |r|
      ensures !PathLess(Components(r[k]), Components(r[j]))
    {
      assert r[j] == if j < i then sorted[j] else if j == i then path else sorted[j - 1];
      assert r[k] == if k < i then sorted[k] else if k == i then path else sorted[k - 1];
    }
  }

  lemma {:induction false} NotLessTransitive(x: Path, y: Path, z: Path)
    requires !PathLess(x, y) && !PathLess(y, z)
    ensures !PathLess(x, z)
  {
    PathsTotallyOrdered(x, y, z);
    PathsTotallyOrdered(x, z, y);
    PathsTotallyOrdered(y, x, z);
    PathsTotallyOrdered(y, z, x);
    PathsTotallyOrdered(z, y, x);
  }

  method SortPaths(paths: seq<string>) returns (r: seq<string>)
    requires AllCanonical(paths)
    ensures Sorted(r) && AllCanonical(r) && multiset(r) == multiset(paths)
  {
    r := [];
    for i := 0 to |paths|
      invariant Sorted(r) && AllCanonical(r) && multiset(r) == multiset(paths[..i])
    {
      assert paths[..i + 1] == paths[..i] + [paths[i]];
      r := Insert(r, paths[i]);
    }
    assert paths[..|paths|] == paths;
  }

  // --------------------------------------------------------------- the driver

  predicate Distinct(paths: seq<string>) {
    forall i, j :: 0 <= i < j < |paths| ==> paths[i] != paths[j]
  }

  /** At the root it is the callback that opens the root. */
  predicate OpensRoot(callback: Path -> Action) {
    callback([]).Directory? && callback([]).how.Open?
  }

  /** The callback makes no file of, and does not delete, what other listed paths lie below. */
  predicate LeavesFit(paths: seq<string>, callback: Path -> Action) {
    forall p, q :: p in paths && q in paths && Components(p) < Components(q) ==>
      callback(Components(p)).Directory? || callback(Components(p)).Nothing?
  }

  function VisitAll(paths: seq<string>, callback: Path -> Action): (visits: seq<Visit>)
    ensures |visits| == |paths|
  {
    seq(|paths|, i requires 0 <= i < |paths| => Visit(Components(paths[i]), callback(Components(paths[i]))))
  }

  lemma DistinctAfterSorting(paths: seq<string>, sorted: seq<string>)
    requires Distinct(paths) && multiset(sorted) == multiset(paths)
    ensures Distinct(sorted) && forall p :: p in sorted <==> p in paths
  {
    forall i, j | 0 <= i < j < |sorted|
      ensures sorted[i] != sorted[j]
    {
      var s := sorted[i];
      assert sorted == sorted[..i] + [sorted[i]] + sorted[i + 1..j] + [sorted[j]] + sorted[j + 1..];
      OnceInDistinct(paths, s);
    }
    assert forall p :: p in sorted <==> p in multiset(sorted);
    assert forall p :: p in paths <==> p in multiset(paths);
  }

  lemma {:induction false} OnceInDistinct(paths: seq<string>, p: string)
    requires Distinct(paths)
    ensures multiset(paths)[p] <= 1
  {
    if paths != [] {
      var rest := Init(paths);
      OnceInDistinct(rest, p);
      assert paths == rest + [Last(paths)];
      forall i | 0 <= i < |rest|
        ensures rest[i] != Last(paths)
      {
        assert paths[i] != paths[|paths| - 1];
      }
    }
  }

  /** Distinct paths in sorted order, and a callback that fits, make an orderly run. */
  lemma SortedRunIsOrderly(paths: seq<string>, callback: Path -> Action)
    requires AllCanonical(paths) && Distinct(paths) && Sorted(paths) && LeavesFit(paths, callback)
    ensures Orderly(VisitAll(paths, callback))
  {
    hide Canonical, Components, PathLess;
    var visits := VisitAll(paths, callback);
    var cs := DriverRules.Paths(visits);
    forall i, j | 0 <= i < j < |cs|
      ensures PathLess(cs[i], cs[j])
    {
      PathsTotallyOrdered(Components(paths[i]), Components(paths[j]), Components(paths[i]));
      if Components(paths[i]) == Components(paths[j]) {
        SameComponents(paths[i], paths[j]);
      }
    }
    SortedIsClustered(cs);
    forall i, j | 0 <= i < j < |visits| && visits[i].path <= visits[j].path
      ensures visits[i].action.Directory? || visits[i].action.Nothing?
    {
      assert !(cs[j] <= cs[i]);
      assert Components(paths[i]) < Components(paths[j]);
      assert paths[i] in paths && paths[j] in paths;
    }
  }

  ghost predicate RootFirst(paths: seq<string>) {
    forall i :: 0 < i < |paths| ==> paths[i] != ""
  }

  /** The root is listed once at most, so that sorting can put it first. */
  ghost predicate RootOnce(paths: seq<string>) {
    multiset(paths)[""] <= 1
  }

  lemma SortedHasRootFirst(paths: seq<string>)
    requires AllCanonical(paths) && Sorted(paths) && RootOnce(paths)
    ensures RootFirst(paths)
  {
    hide Canonical, Segments;
    forall i | 0 < i < |paths|
      ensures paths[i] != ""
    {
      NothingListedBefore(paths[0]);
      ListedTwice(paths, i);
      assert paths[i] == "" ==> !PathLess(Components(""), Components(paths[0]));
    }
  }

  lemma ListedTwice(paths: seq<string>, i: nat)
    requires 0 < i < |paths|
    ensures paths[i] == paths[0] ==> multiset(paths)[paths[0]] >= 2
  {
    assert paths == [paths[0]] + paths[1..i] + [paths[i]] + paths[i + 1..];
  }

  /** Only the root itself is not after the root. */
  lemma NothingListedBefore(p: string)
    requires Canonical(p)
    ensures p == "" || PathLess(Components(""), Components(p))
  {
    hide Canonical, Segments;
    CanonicalToComponents(p);
    CanonicalToComponents("");
    assert Components("") == [] by {
      ComponentsToCanonical([]);
    }
  }

  lemma SameListing(paths: seq<string>, sorted: seq<string>, callback: Path -> Action)
    requires multiset(sorted) == multiset(paths) && LeavesFit(paths, callback)
    ensures LeavesFit(sorted, callback)
  {
    hide Components;
    forall p | p in sorted
      ensures p in paths
    {
      assert p in multiset(sorted);
    }
  }

  /**
   * Visits every relpath, in the order given or in sorted order. The drive is complete and properly
   * nested, also if paths are listed more than once; it keeps all six rules exactly if no step
   * revisits anything, as when the paths are distinct and in sorted order and none lies below a
   * file or what is deleted.
   */
  method DriveRelpaths(relpaths: seq<string>, sortPaths: bool, callback: Path -> Action)
    returns (calls: seq<Call>, ghost paths: seq<string>)
    requires AllCanonical(relpaths) && OpensRoot(callback)
    requires if sortPaths then RootOnce(relpaths) else RootFirst(relpaths)
    ensures multiset(paths) == multiset(relpaths)
    ensures if sortPaths then Sorted(paths) else paths == relpaths
    ensures calls == FullDrive(VisitAll(paths, callback))
    ensures CompleteDrive(false, calls)
    ensures CompleteDrive(true, calls) <==> VisitsOnce(VisitAll(paths, callback))
    ensures Distinct(relpaths) && Sorted(paths) && LeavesFit(relpaths, callback) ==> CompleteDrive(true, calls)
  {
    hide Canonical, Components, VisitsOnce, FullDrive, CompleteDrive, Orderly;
    var order := relpaths;
    if sortPaths {
      order := SortPaths(relpaths);
      SortedHasRootFirst(order);
    }
    paths := order;
    var visits := VisitAll(order, callback);
    OnlyFirstIsRoot(order, callback);
    calls := DrivePaths(visits);
    DriverAlwaysNests(visits);
    DriverOrder.OnceExactly(visits);
    if Distinct(relpaths) && Sorted(order) && LeavesFit(relpaths, callback) {
      DistinctAfterSorting(relpaths, order);
      SameListing(relpaths, order, callback);
      SortedRunIsOrderly(order, callback);
      DriverVisitsOnce(visits);
    }
  }

  lemma OnlyFirstIsRoot(paths: seq<string>, callback: Path -> Action)
    requires AllCanonical(paths) && OpensRoot(callback)
    requires RootFirst(paths)
    ensures AllObey(VisitAll(paths, callback))
  {
    hide Canonical, Segments;
    forall i | 0 < i < |paths|
      ensures Components(paths[i]) != []
    {
      CanonicalToComponents(paths[i]);
    }
  }
}
