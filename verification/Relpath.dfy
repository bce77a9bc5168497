/** Relpaths as strings, and as sequences of components. */
module Relpath {
  import opened Common

  // ------------------------------------------------------------- segments

  function FirstSlash(s: string): (i: nat)
    ensures i <= |s|
    ensures forall k :: 0 <= k < i ==> s[k] != '/'
    ensures i < |s| ==> s[i] == '/'
  {
    if s == "" || s[0] == '/' then 0 else 1 + FirstSlash(s[1..])
  }

  /** The pieces between slashes; always at least one, possibly empty. */
  function Segments(s: string): (r: seq<string>)
    ensures r != []
    decreases |s|
  {
    var i := FirstSlash(s);
    if i == |s| then [s] else [s[..i]] + Segments(s[i + 1..])
  }

  function Unparse(segments: seq<string>): string {
    if segments == [] then ""
    else if |segments| == 1 then segments[0]
    else segments[0] + "/" + Unparse(segments[1..])
  }

  /** A segment that names something. */
  predicate IsName(segment: string) {
    segment != "" && segment != "."
  }

  predicate IsComponent(segment: string) {
    IsName(segment) && '/' !in segment
  }

  predicate AllNames(segments: seq<string>) {
    forall i :: 0 <= i < |segments| ==> IsName(segments[i])
  }

  predicate AllComponents(segments: seq<string>) {
    forall i :: 0 <= i < |segments| ==> IsComponent(segments[i])
  }

  /** No empty and no "." segment, so no slash at either end and none doubled. */
  predicate Canonical(s: string) {
    s == "" || AllNames(Segments(s))
  }

  function Components(s: string): seq<string> {
    if s == "" then [] else Segments(s)
  }

  lemma {:induction false} FirstSlashIs(s: string, n: nat)
    requires n <= |s| && (forall k :: 0 <= k < n ==> s[k] != '/') && (n < |s| ==> s[n] == '/')
    ensures FirstSlash(s) == n
  {
    hide FirstSlash;
  }

  lemma {:induction false} OneSegment(s: string)
    requires '/' !in s
    ensures Segments(s) == [s]
  {
    FirstSlashIs(s, |s|);
  }

  lemma {:induction false} FirstSegment(a: string, b: string)
    requires '/' !in a
    ensures Segments(a + "/" + b) == [a] + Segments(b)
  {
    var s := a + "/" + b;
    FirstSlashIs(s, |a|);
    assert s[..|a|] == a && s[|a| + 1..] == b;
  }

  /** Either there is no slash, or the string is split at the first one. */
  lemma SplitFirst(s: string) returns (a: string, b: string)
    ensures '/' !in a
    ensures if '/' in s then s == a + "/" + b && Segments(s) == [a] + Segments(b) else s == a && Segments(s) == [s]
  {
    hide FirstSlash;
    var i := FirstSlash(s);
    if i == |s| {
      OneSegment(s);
      return s, "";
    }
    a, b := s[..i], s[i + 1..];
    assert s == a + "/" + b;
    FirstSegment(a, b);
  }

  /** A slash separates segments wherever it is. */
  lemma {:induction false} SegmentsAtSlash(a: string, b: string)
    ensures Segments(a + "/" + b) == Segments(a) + Segments(b)
    decreases |a|
  {
    hide Segments;
    var first, rest := SplitFirst(a);
    if '/' in a {
      SegmentsAtSlash(rest, b);
      assert a + "/" + b == first + "/" + (rest + "/" + b);
      FirstSegment(first, rest + "/" + b);
      assert [first] + (Segments(rest) + Segments(b)) == [first] + Segments(rest) + Segments(b);
    } else {
      FirstSegment(a, b);
    }
  }

  lemma {:induction false} SegmentsHaveNoSlash(s: string)
    ensures forall i :: 0 <= i < |Segments(s)| ==> '/' !in Segments(s)[i]
    decreases |s|
  {
    hide Segments;
    var first, rest := SplitFirst(s);
    if '/' in s {
      SegmentsHaveNoSlash(rest);
    }
  }

  lemma {:induction false} UnparseOneMore(first: string, rest: seq<string>)
    requires rest != []
    ensures Unparse([first] + rest) == first + "/" + Unparse(rest)
  {
    assert ([first] + rest)[1..] == rest;
  }

  /** Segments determine the string. */
  lemma {:induction false} UnparseSegments(s: string)
    ensures Unparse(Segments(s)) == s
    decreases |s|
  {
    hide Segments, Unparse;
    var first, rest := SplitFirst(s);
    if '/' in s {
      UnparseSegments(rest);
      UnparseOneMore(first, Segments(rest));
    } else {
      UnparseOne(s);
    }
  }

  lemma UnparseOne(s: string)
    ensures Unparse([s]) == s
  {
  }

  lemma {:induction false} SegmentsOfUnparse(segments: seq<string>)
    requires segments != [] && forall i :: 0 <= i < |segments| ==> '/' !in segments[i]
    ensures Segments(Unparse(segments)) == segments
    decreases |segments|
  {
    hide Segments, Unparse;
    if |segments| > 1 {
      assert segments == [segments[0]] + segments[1..];
      SegmentsOfUnparse(segments[1..]);
      UnparseOneMore(segments[0], segments[1..]);
      FirstSegment(segments[0], Unparse(segments[1..]));
    } else {
      assert segments == [segments[0]];
      UnparseOne(segments[0]);
      OneSegment(segments[0]);
    }
  }

  /** Canonical relpaths and sequences of components are the same thing. */
  lemma CanonicalToComponents(s: string)
    requires Canonical(s)
    ensures AllComponents(Components(s)) && Unparse(Components(s)) == s
  {
    if s != "" {
      SegmentsHaveNoSlash(s);
      UnparseSegments(s);
    }
  }

  lemma {:induction false} ComponentsToCanonical(cs: seq<string>)
    requires AllComponents(cs)
    ensures Canonical(Unparse(cs)) && Components(Unparse(cs)) == cs
  {
    if cs != [] {
      SegmentsOfUnparse(cs);
      assert Segments("") == [""];
      assert IsComponent(cs[0]);
    }
  }

  lemma SameComponents(a: string, b: string)
    requires Canonical(a) && Canonical(b) && Components(a) == Components(b)
    ensures a == b
  {
    CanonicalToComponents(a);
    CanonicalToComponents(b);
  }

  /** Both sides of a slash inside a canonical relpath are canonical and not empty. */
  lemma CutAtSlash(s: string, i: nat)
    requires Canonical(s) && i < |s| && s[i] == '/'
    ensures s[..i] != "" && s[i + 1..] != ""
    ensures Canonical(s[..i]) && Canonical(s[i + 1..])
    ensures Components(s) == Components(s[..i]) + Components(s[i + 1..])
  {
    var a, b := s[..i], s[i + 1..];
    assert s == a + "/" + b;
    SegmentsAtSlash(a, b);
    var sa, sb := Segments(a), Segments(b);
    assert forall k :: 0 <= k < |sa| ==> sa[k] == Segments(s)[k];
    assert forall k :: 0 <= k < |sb| ==> sb[k] == Segments(s)[|sa| + k];
    assert Segments("") == [""];
    assert IsName(sa[0]) && IsName(sb[0]);
  }

  // ---------------------------------------------------------- canonicalization

  function NamesOnly(segments: seq<string>): seq<string> {
    if segments == [] then []
    else (if IsName(segments[0]) then [segments[0]] else []) + NamesOnly(segments[1..])
  }

  /** The relpath with the same names in the same order, and nothing else. */
  function Canonicalized(s: string): string {
    Unparse(NamesOnly(Segments(s)))
  }

  /** What is copied of one segment: a name, with the slash that follows it. */
  function Kept(segment: string, slash: bool): string {
    if IsName(segment) then segment + (if slash then "/" else "") else ""
  }

  /** What is copied altogether. */
  function Copied(s: string): string
    decreases |s|
  {
    var i := FirstSlash(s);
    Kept(s[..i], i < |s|) + if i < |s| then Copied(s[i + 1..]) else ""
  }

  function TrimSlash(s: string): string {
    if s != "" && Last(s) == '/' then Init(s) else s
  }

  lemma {:induction false} CopiedIsNames(s: string)
    ensures Copied(s) == "" <==> NamesOnly(Segments(s)) == []
    ensures TrimSlash(Copied(s)) == Unparse(NamesOnly(Segments(s)))
    decreases |s|
  {
    hide FirstSlash, Segments, Copied, NamesOnly, TrimSlash, Unparse, Kept;
    var first, rest := SplitFirst(s);
    CopiedStep(s);
    if '/' in s {
      CopiedIsNames(rest);
      FirstSlashIs(s, |first|);
      assert s[..|first|] == first && s[|first| + 1..] == rest;
      NamesOneMore(first, Segments(rest));
      JoinCopied(first, Copied(rest), NamesOnly(Segments(rest)));
    } else {
      FirstSlashIs(s, |s|);
      assert s[..|s|] == s;
      assert Kept(s, false) + "" == Kept(s, false);
      CopiedOne(s);
    }
  }

  lemma {:induction false} NamesOneMore(first: string, rest: seq<string>)
    ensures NamesOnly([first] + rest) == (if IsName(first) then [first] else []) + NamesOnly(rest)
  {
    assert ([first] + rest)[1..] == rest;
  }

  lemma CopiedOne(s: string)
    requires '/' !in s
    ensures Kept(s, false) == "" <==> NamesOnly([s]) == []
    ensures TrimSlash(Kept(s, false)) == Unparse(NamesOnly([s]))
  {
    assert [s][1..] == [];
    assert NamesOnly([s]) == if IsName(s) then [s] else [];
  }

  lemma JoinCopied(first: string, copied: string, names: seq<string>)
    requires copied == "" <==> names == []
    requires TrimSlash(copied) == Unparse(names)
    ensures var all := (if IsName(first) then [first] else []) + names;
      && (Kept(first, true) + copied == "" <==> all == [])
      && TrimSlash(Kept(first, true) + copied) == Unparse(all)
  {
    if IsName(first) {
      assert ([first] + names)[1..] == names;
      if copied != "" {
        var both := first + "/" + copied;
        assert Last(both) == Last(copied);
        assert TrimSlash(both) == first + "/" + TrimSlash(copied);
      } else {
        assert TrimSlash(first + "/") == first;
      }
    } else {
      assert [] + names == names;
    }
  }

  /** Segment by segment, dropping empty and "." segments, then a slash left at the end. */
  method Canonicalize(path: string) returns (canon: string)
    ensures canon == Canonicalized(path)
  {
    hide Copied, Kept, IsName, FirstSlash, NamesOnly, Segments;
    canon := "";
    var src, segments := 0, 0;
    while src < |path|
      invariant src <= |path|
      invariant canon + Copied(path[src..]) == Copied(path)
      invariant segments > 0 <==> canon != ""
      decreases |path| - src
    {
      var next := src;
      while next < |path| && path[next] != '/'
        invariant src <= next <= |path|
        invariant forall k :: src <= k < next ==> path[k] != '/'
      {
        next := next + 1;
      }
      var slash := if next < |path| then 1 else 0;
      var seglen := next - src;
      SegmentCopied(canon, path, src, next);
      if seglen == 0 || (seglen == 1 && path[src] == '.') {
      } else {
        canon := canon + path[src..next];
        if slash == 1 {
          canon := canon + "/";
        }
        segments := segments + 1;
      }
      src := next + slash;
    }
    NothingCopied();
    assert path[src..] == "" && path[0..] == path;
    if segments > 0 && Last(canon) == '/' {
      canon := Init(canon);
    }
    CopiedIsNames(path);
  }

  /** Once the segment is dropped or appended, the rest is still to be copied. */
  lemma SegmentCopied(canon: string, path: string, src: nat, next: nat)
    requires src <= next <= |path| && forall k :: src <= k < next ==> path[k] != '/'
    requires next < |path| ==> path[next] == '/'
    ensures var slash := if next < |path| then 1 else 0;
      var kept :=
        if next == src || (next == src + 1 && path[src] == '.') then canon
        else if slash == 1 then canon + path[src..next] + "/" else canon + path[src..next];
      kept + Copied(path[next + slash..]) == canon + Copied(path[src..])
  {
    hide Kept, Copied;
    NextSegment(path, src, next);
    var slash := if next < |path| then 1 else 0;
    var kept, rest := Kept(path[src..next], slash == 1), Copied(path[next + slash..]);
    assert canon + (kept + rest) == (canon + kept) + rest;
    if next == src || (next == src + 1 && path[src] == '.') {
      assert canon + kept == canon;
    } else {
      assert canon + kept == if slash == 1 then canon + path[src..next] + "/" else canon + path[src..next];
    }
  }

  lemma NothingCopied()
    ensures Copied("") == ""
  {
  }

  lemma NextSegment(path: string, src: nat, next: nat)
    requires src <= next <= |path| && forall k :: src <= k < next ==> path[k] != '/'
    requires next < |path| ==> path[next] == '/'
    ensures var slash := if next < |path| then 1 else 0;
      Copied(path[src..]) == Kept(path[src..next], slash == 1) + Copied(path[next + slash..])
    ensures Kept(path[src..next], next < |path|) ==
      if next == src || (next == src + 1 && path[src] == '.') then ""
      else path[src..next] + if next < |path| then "/" else ""
  {
    hide FirstSlash, IsName, Kept, Copied;
    var rest, n := path[src..], next - src;
    FirstSlashIs(rest, n);
    CopiedStep(rest);
    NothingCopied();
    assert rest[..n] == path[src..next];
    assert next < |path| ==> rest[n + 1..] == path[next + 1..];
    assert next == |path| ==> path[next..] == "";
    KeptOf(path[src..next], next < |path|);
  }

  lemma {:induction false} CopiedStep(s: string)
    ensures var i := FirstSlash(s);
      Copied(s) == Kept(s[..i], i < |s|) + if i < |s| then Copied(s[i + 1..]) else ""
  {
  }

  lemma KeptOf(segment: string, slash: bool)
    ensures Kept(segment, slash) ==
      if |segment| == 0 || (|segment| == 1 && segment[0] == '.') then ""
      else segment + if slash then "/" else ""
  {
    assert |segment| == 1 ==> segment == [segment[0]];
  }

  lemma {:induction false} NamesOnlyIdentity(segments: seq<string>)
    ensures forall i :: 0 <= i < |NamesOnly(segments)| ==>
                          IsName(NamesOnly(segments)[i]) && NamesOnly(segments)[i] in segments
    ensures AllNames(segments) ==> NamesOnly(segments) == segments
  {
    if segments != [] {
      NamesOnlyIdentity(segments[1..]);
      assert segments == [segments[0]] + segments[1..];
    }
  }

  /** Canonicalizing gives a canonical relpath, and leaves canonical relpaths alone: nothing else. */
  lemma CanonicalizeFixesCanonical(s: string)
    ensures Canonical(Canonicalized(s))
    ensures Canonicalized(Canonicalized(s)) == Canonicalized(s)
    ensures Canonicalized(s) == s <==> Canonical(s)
  {
    CanonicalizedIsCanonical(s);
    CanonicalIsFixed(Canonicalized(s));
    if Canonical(s) {
      CanonicalIsFixed(s);
    }
  }

  lemma {:induction false} CanonicalizedIsCanonical(s: string)
    ensures Canonical(Canonicalized(s))
    ensures Components(Canonicalized(s)) == NamesOnly(Segments(s))
  {
    NamesOnlyIdentity(Segments(s));
    SegmentsHaveNoSlash(s);
    ComponentsToCanonical(NamesOnly(Segments(s)));
  }

  lemma CanonicalIsFixed(s: string)
    requires Canonical(s)
    ensures Canonicalized(s) == s
  {
    if s == "" {
      assert Segments("") == [""] && NamesOnly([""]) == [] + NamesOnly([]);
    } else {
      NamesOnlyIdentity(Segments(s));
      UnparseSegments(s);
    }
  }

  // -------------------------------------------------------- the quick check

  /** A "." that is a segment of its own. */
  predicate DotAlone(s: string, i: nat)
    requires i < |s|
  {
    s[i] == '.' && (i == 0 || s[i - 1] == '/') && (i + 1 == |s| || s[i + 1] == '/')
  }

  predicate DoubledSlash(s: string, i: nat)
    requires i < |s|
  {
    s[i] == '/' && i + 1 < |s| && s[i + 1] == '/'
  }

  /** The conditions on characters that the quick check looks at. */
  ghost predicate CharsCanonical(s: string) {
    s != "" ==>
      && s[0] != '/' && Last(s) != '/'
      && (forall i :: 0 <= i < |s| ==> !DoubledSlash(s, i))
      && (forall i :: 0 <= i < |s| ==> !DotAlone(s, i))
  }

  lemma {:induction false} CharsDecideSegments(s: string)
    requires s != ""
    ensures CharsCanonical(s) <==> AllNames(Segments(s))
    decreases |s|
  {
    hide Segments;
    var first, rest := SplitFirst(s);
    if '/' in s {
      NamesOfBoth(first, Segments(rest));
      if rest == "" {
        OneSegment("");
        assert Last(s) == '/' && !IsName([""][0]);
      } else {
        CharsDecideSegments(rest);
        assert s[|first| + 1..] == rest && s[..|first|] == first;
        CharsOfRest(s, |first|);
      }
    } else {
      CharsOfOne(s);
      assert [s][0] == s;
    }
  }

  lemma NamesOfBoth(first: string, rest: seq<string>)
    ensures AllNames([first] + rest) <==> IsName(first) && AllNames(rest)
  {
    var all := [first] + rest;
    assert all[0] == first && forall k :: 0 <= k < |rest| ==> rest[k] == all[k + 1];
  }

  lemma CharsOfOne(s: string)
    requires s != "" && '/' !in s
    ensures CharsCanonical(s) <==> IsName(s)
  {
    assert |s| == 1 ==> s == [s[0]];
    assert DotAlone(s, 0) <==> s == ".";
    assert forall k :: 0 < k < |s| ==> !DotAlone(s, k);
  }

  lemma CharsDecide(s: string)
    ensures CharsCanonical(s) <==> Canonical(s)
  {
    hide Segments;
    if s != "" {
      CharsDecideSegments(s);
    }
  }

  lemma CharsOfRest(s: string, i: nat)
    requires i + 1 < |s| && s[i] == '/' && forall k :: 0 <= k < i ==> s[k] != '/'
    ensures CharsCanonical(s) <==> IsName(s[..i]) && CharsCanonical(s[i + 1..])
  {
    var rest := s[i + 1..];
    assert Last(rest) == Last(s);
    assert i > 0 ==> s[0] == s[..i][0];
    assert i == 1 ==> s[..i] == [s[0]];
    forall j | 0 <= j < |rest|
      ensures DotAlone(rest, j) <==> DotAlone(s, i + 1 + j)
      ensures DoubledSlash(rest, j) <==> DoubledSlash(s, i + 1 + j)
    {
      assert rest[j] == s[i + 1 + j];
      assert j > 0 ==> rest[j - 1] == s[i + 1 + j - 1];
      assert j + 1 < |rest| ==> rest[j + 1] == s[i + 1 + j + 1];
    }
    assert DoubledSlash(s, i) <==> rest[0] == '/';
    assert DotAlone(s, 0) <==> s[..i] == ".";
    if CharsCanonical(s) {
      forall j | 0 <= j < |rest|
        ensures !DotAlone(rest, j) && !DoubledSlash(rest, j)
      {
        assert !DotAlone(s, i + 1 + j) && !DoubledSlash(s, i + 1 + j);
      }
    }
    if IsName(s[..i]) && CharsCanonical(rest) {
      forall k | 0 <= k < |s|
        ensures !DotAlone(s, k) && !DoubledSlash(s, k)
      {
        if k > i {
          assert !DotAlone(rest, k - i - 1) && !DoubledSlash(rest, k - i - 1);
        }
      }
    }
  }

  /** The quick check, without splitting the relpath. */
  method IsCanonical(relpath: string) returns (canonical: bool)
    ensures canonical <==> Canonical(relpath)
  {
    hide Canonical;
    CharsDecide(relpath);
    var len := |relpath|;
    if len > 0 && relpath[0] == '/' {
      return false;
    }
    if len > 0 && relpath[0] == '.' && (len == 1 || relpath[1] == '/') {
      assert DotAlone(relpath, 0);
      return false;
    }
    if len < 2 {
      return true;
    }
    if relpath[len - 1] == '/' {
      return false;
    }
    if relpath[len - 1] == '.' && relpath[len - 2] == '/' {
      assert DotAlone(relpath, len - 1);
      return false;
    }
    // "." segments in the middle
    var dot := 0;
    while dot < len
      invariant forall i :: 0 <= i < dot && i < len ==> !DotAlone(relpath, i)
    {
      if relpath[dot] == '.' && dot > 0 && relpath[dot - 1] == '/' && dot + 1 < len && relpath[dot + 1] == '/' {
        assert DotAlone(relpath, dot);
        return false;
      }
      dot := dot + 1;
    }
    // doubled slashes: each byte of the window of two is shifted in from the right
    var before, i := '\0', 0;
    while i < len - 1
      invariant 0 <= i <= len - 1
      invariant i > 0 ==> before == relpath[i - 1]
      invariant i == 0 ==> before != '/'
      invariant forall k :: 0 <= k < i - 1 ==> !DoubledSlash(relpath, k)
    {
      if before == '/' && relpath[i] == '/' {
        assert DoubledSlash(relpath, i - 1);
        return false;
      }
      before := relpath[i];
      i := i + 1;
    }
    forall k | 0 <= k < len
      ensures !DoubledSlash(relpath, k) && !DotAlone(relpath, k)
    {
      assert k < len - 2 || k == len - 2 || k == len - 1;
    }
    assert CharsCanonical(relpath);
    return true;
  }
}
