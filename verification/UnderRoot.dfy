/** Resolving a path under a base without climbing above it. */
module UnderRoot {
  import opened Common
  import opened Relpath
  import opened RelpathOps
  import opened Condense

  /** How far one segment leads down. */
  function Level(segment: string): int {
    if segment == ".." then -1 else if IsName(segment) then 1 else 0
  }

  function Depth(segments: seq<string>): int {
    if segments == [] then 0 else Depth(Init(segments)) + Level(Last(segments))
  }

  /** At no point of the walk along `segments` is it above where it began. */
  ghost predicate StaysUnder(segments: seq<string>) {
    forall n :: 0 <= n <= |segments| ==> Depth(segments[..n]) >= 0
  }

  /** Where the walk along `segments` leads, the parent of the root being the root. */
  function Resolve(from: Path, segments: seq<string>): Path {
    if segments == [] then from
    else
      var at := Resolve(from, Init(segments));
      var segment := Last(segments);
      if segment == ".." then if at == [] then [] else Init(at)
      else if IsName(segment) then at + [segment]
      else at
  }

  // -------------------------------------------------- what the walk means

  predicate LeadsDown(segment: string) {
    segment != ".." && segment != "." && segment != ""
  }

  /** How many of the first `n` segments lead up, and how many lead down. */
  function Ups(segments: seq<string>, n: nat): set<nat>
    requires n <= |segments|
  {
    set i: nat | i < n && segments[i] == ".."
  }

  function Downs(segments: seq<string>, n: nat): set<nat>
    requires n <= |segments|
  {
    set i: nat | i < n && LeadsDown(segments[i])
  }

  lemma {:induction false} DepthCounts(segments: seq<string>, n: nat)
    requires n <= |segments|
    ensures Depth(segments[..n]) == |Downs(segments, n)| - |Ups(segments, n)|
  {
    if n > 0 {
      DepthCounts(segments, n - 1);
      hide Ups, Downs;
      var now := segments[..n];
      assert Init(now) == segments[..n - 1] && Last(now) == segments[n - 1];
      OneMoreUp(segments, n);
      OneMoreDown(segments, n);
    } else {
      assert segments[..0] == [] && Ups(segments, 0) == {} && Downs(segments, 0) == {};
    }
  }

  lemma OneMoreUp(segments: seq<string>, n: nat)
    requires 0 < n <= |segments|
    ensures |Ups(segments, n)| == |Ups(segments, n - 1)| + if segments[n - 1] == ".." then 1 else 0
  {
    if segments[n - 1] == ".." {
      assert Ups(segments, n) == Ups(segments, n - 1) + {n - 1};
    } else {
      assert Ups(segments, n) == Ups(segments, n - 1);
    }
  }

  lemma OneMoreDown(segments: seq<string>, n: nat)
    requires 0 < n <= |segments|
    ensures |Downs(segments, n)| == |Downs(segments, n - 1)| + if LeadsDown(segments[n - 1]) then 1 else 0
  {
    hide LeadsDown;
    if LeadsDown(segments[n - 1]) {
      assert Downs(segments, n) == Downs(segments, n - 1) + {n - 1};
    } else {
      assert Downs(segments, n) == Downs(segments, n - 1);
    }
  }

  /** The walk is never above its start exactly if up to any point it has led up no more often than down. */
  lemma StaysUnderMeans(segments: seq<string>)
    ensures StaysUnder(segments) <==>
            forall n: nat :: n <= |segments| ==> |Ups(segments, n)| <= |Downs(segments, n)|
  {
    forall n: nat | n <= |segments|
      ensures Depth(segments[..n]) >= 0 <==> |Ups(segments, n)| <= |Downs(segments, n)|
    {
      DepthCounts(segments, n);
    }
  }

  lemma {:induction false} ResolveBoth(from: Path, a: seq<string>, b: seq<string>)
    ensures Resolve(from, a + b) == Resolve(Resolve(from, a), b)
  {
    if b == [] {
      assert a + b == a;
    } else {
      ResolveBoth(from, a, Init(b));
      assert Init(a + b) == a + Init(b) && Last(a + b) == Last(b);
    }
  }

  /**
   * Where a walk leads: a name leads to the entry of that name, a name and ".." after it cancel out,
   * empty and "." segments may be left out, and the root is its own parent.
   */
  lemma {:induction false} WalkLaws(from: Path, a: seq<string>, b: seq<string>, name: string)
    ensures name != "" && name != "." && name != ".." ==>
              && Resolve(from, [name]) == from + [name]
              && Resolve(from, a + [name, ".."] + b) == Resolve(from, a + b)
    ensures name == "" || name == "." ==> Resolve(from, a + [name] + b) == Resolve(from, a + b)
    ensures Resolve([], [".."]) == [] && Resolve(from, []) == from
  {
    var at := Resolve(from, a);
    ResolveBoth(from, a, b);
    ResolveBoth(from, a, [name]);
    ResolveBoth(from, a + [name], b);
    ResolveBoth(from, a, [name, ".."]);
    ResolveBoth(from, a + [name, ".."], b);
    assert Init([name]) == [] && Init([".."]) == [] && Init([name, ".."]) == [name];
    assert Resolve(at, [name]) == if IsName(name) && name != ".." then at + [name] else Resolve(at, [name]);
    assert Init(at + [name]) == at;
  }

  predicate CanonicalDirent(dirent: string) {
    IsAbsolute(dirent) || Canonical(dirent)
  }

  /** The components of an absolute or a relative path. */
  function Parts(dirent: string): Path {
    if dirent != "" && dirent[0] == '/' then Below(dirent) else Components(dirent)
  }

  method IsUnderRoot(base: string, path: string) returns (underRoot: bool, result: Option<string>)
    requires CanonicalDirent(base)
    ensures underRoot <==> (path == "" || path[0] != '/') && StaysUnder(Segments(path))
    ensures underRoot <==> result.Some?
    ensures underRoot ==> CanonicalDirent(result.value) && (IsAbsolute(result.value) <==> IsAbsolute(base))
    ensures underRoot ==> Parts(base) <= Parts(result.value)
    ensures underRoot ==> Parts(result.value) == Resolve(Parts(base), Segments(path))
  {
    hide Segments, Unparse, IsAbsolute, Parts, CanonicalDirent;
    if path != "" && path[0] == '/' {
      return false, None;
    }
    var segments := Segments(path);
    SegmentsHaveNoSlash(path);
    ghost var start := Parts(base);
    var kept: Path := [];
    for i := 0 to |segments|
      invariant forall n :: 0 <= n <= i ==> Depth(segments[..n]) >= 0
      invariant |kept| == Depth(segments[..i])
      invariant AllComponents(kept)
      invariant start + kept == Resolve(start, segments[..i])
    {
      OneMore(start, segments, i);
      if segments[i] == ".." {
        if kept == [] {
          assert Depth(segments[..i + 1]) < 0;
          return false, None;
        }
        assert Init(start + kept) == start + Init(kept);
        kept := Init(kept);
      } else if segments[i] != "" && segments[i] != "." {
        assert (start + kept) + [segments[i]] == start + (kept + [segments[i]]);
        kept := kept + [segments[i]];
      }
    }
    assert segments[..|segments|] == segments;
    underRoot, result := true, Some(DirentJoin(base, Unparse(kept)));
    DescendCanonically(base, kept);
  }

  lemma {:induction false} OneMore(from: Path, segments: seq<string>, i: nat)
    requires i < |segments|
    ensures Depth(segments[..i + 1]) == Depth(segments[..i]) + Level(segments[i])
    ensures Resolve(from, segments[..i + 1]) == Resolve(Resolve(from, segments[..i]), [segments[i]])
  {
    var longer := segments[..i + 1];
    assert Init(longer) == segments[..i] && Last(longer) == segments[i];
    assert Init([segments[i]]) == [];
  }

  lemma {:induction false} DescendCanonically(base: string, cs: Path)
    requires CanonicalDirent(base) && AllComponents(cs)
    ensures var r := DirentJoin(base, Unparse(cs));
            CanonicalDirent(r) && (IsAbsolute(r) <==> IsAbsolute(base)) && Parts(r) == Parts(base) + cs
  {
    hide Segments, Unparse, Canonical, Components;
    var c := Unparse(cs);
    ComponentsToCanonical(cs);
    NothingHasNoComponents();
    if IsAbsolute(base) {
      var b := base[1..];
      JoinComponents(b, c);
      assert base == "/" + b;
      if b != "" {
        CanonicalEnd(b);
        assert Last(base) == Last(b);
      }
      assert DirentJoin(base, c) == "/" + Join(b, c);
    } else {
      JoinComponents(base, c);
      if base != "" {
        CanonicalEnd(base);
      }
      assert DirentJoin(base, c) == Join(base, c);
      StartsWithoutSlash(base);
      StartsWithoutSlash(Join(base, c));
    }
  }

  lemma StartsWithoutSlash(p: string)
    requires Canonical(p)
    ensures p != "" ==> p[0] != '/'
  {
    if p != "" {
      CanonicalStart(p);
    }
  }
}
