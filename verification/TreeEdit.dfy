/** What a drive does to a tree, and what is left of that after filtering by depth. */
module TreeEdit {
  import opened Common
  import opened Editor
  import opened DepthFilter

  /** A node of the tree; files and directories are kept apart. */
  datatype Key = Key(path: Path, file: bool)

  datatype Node = Node(props: map<string, Option<string>>, text: seq<byte>)

  type Tree = map<Key, Node>

  const Fresh := Node(map[], [])

  /** One call. Opening and closing change nothing; a text delta is represented by its result. */
  function ApplyCall(t: Tree, c: Call): Tree {
    match c
    case DeleteEntry(p) => map k | k in t && !(p <= k.path) :: t[k]
    case AddDirectory(p) => t[Key(p, false) := Fresh]
    case AddFile(p) => t[Key(p, true) := Fresh]
    case ChangeDirProp(p, prop) => ChangeProp(t, Key(p, false), prop)
    case ChangeFileProp(p, prop) => ChangeProp(t, Key(p, true), prop)
    case ApplyTextdelta(p, text) =>
      var k := Key(p, true);
      if k in t then t[k := t[k].(text := text)] else t
    case _ => t
  }

  function ChangeProp(t: Tree, k: Key, prop: Prop): Tree {
    if k in t then t[k := t[k].(props := t[k].props[prop.name := prop.value])] else t
  }

  function ApplyCalls(t: Tree, calls: seq<Call>): Tree
    decreases |calls|
  {
    if calls == [] then t else ApplyCalls(ApplyCall(t, calls[0]), calls[1..])
  }

  /** What each call does to the nodes: those it does not name, or delete, stay as they were. */
  lemma CallMeans(t: Tree, c: Call, k: Key)
    ensures var after := ApplyCall(t, c);
            && (c.DeleteEntry? ==>
                  (k in after <==> k in t && !(c.path <= k.path)) && (k in after ==> after[k] == t[k]))
            && (!c.DeleteEntry? && k in t && k != Key(CallPath(c), CallOnFile(c)) ==> k in after && after[k] == t[k])
            && (!c.DeleteEntry? && k !in t && k in after ==>
                  (c == AddDirectory(k.path) && !k.file) || (c == AddFile(k.path) && k.file))
            && ((c == AddDirectory(k.path) && !k.file) || (c == AddFile(k.path) && k.file) ==>
                  k in after && after[k] == Node(map[], []))
            && (c.ApplyTextdelta? && k == Key(c.path, true) && k in t ==>
                  k in after && after[k] == Node(t[k].props, c.text))
            && ((c.ChangeFileProp? && k == Key(c.path, true)) || (c.ChangeDirProp? && k == Key(c.path, false)) ==>
                  (k in after <==> k in t) &&
                  (k in t ==> after[k] == Node(t[k].props[c.prop.name := c.prop.value], t[k].text)))
            && (c.OpenFile? || c.OpenDirectory? || c.OpenRoot? || c.SetTargetRevision? ==> after == t)
            && (c.CloseFile? || c.CloseDirectory? || c.CloseEdit? || c.AbsentFile? || c.AbsentDirectory? ==> after == t)
  {
  }

  function CallPath(c: Call): Path {
    if HasPath(c) then c.path else []
  }

  function CallOnFile(c: Call): bool {
    c.AddFile? || c.ChangeFileProp? || c.ApplyTextdelta?
  }

  /** The part of the tree within the requested depth. */
  function Restrict(depth: Depth, hasTarget: bool, t: Tree): Tree {
    map k | k in t && InRange(depth, hasTarget, k.path, k.file) :: t[k]
  }

  /** Which nodes each depth keeps; those that are kept are as they were. */
  lemma RestrictMeans(depth: Depth, hasTarget: bool, t: Tree, k: Key)
    ensures var n := if hasTarget then |k.path| - 1 else |k.path|;
            var kept := Restrict(depth, hasTarget, t);
            && (k in kept ==> k in t && kept[k] == t[k])
            && (k in kept <==>
                  k in t && (n <= 0 || depth == Infinity || depth == Unknown
                             || (n == 1 && (depth == Immediates || (depth == Files && k.file)))))
  {
  }

  // ------------------------------------------------------ one node at a time

  function Lookup(t: Tree, k: Key): Option<Node> {
    if k in t then Some(t[k]) else None
  }

  /** What a call does to one node. */
  function Effect(c: Call, k: Key, n: Option<Node>): Option<Node> {
    match c
    case DeleteEntry(p) => if p <= k.path then None else n
    case AddDirectory(p) => if k == Key(p, false) then Some(Fresh) else n
    case AddFile(p) => if k == Key(p, true) then Some(Fresh) else n
    case ChangeDirProp(p, prop) => if k == Key(p, false) then SetNodeProp(n, prop) else n
    case ChangeFileProp(p, prop) => if k == Key(p, true) then SetNodeProp(n, prop) else n
    case ApplyTextdelta(p, text) =>
      if k == Key(p, true) && n.Some? then Some(n.value.(text := text)) else n
    case _ => n
  }

  function SetNodeProp(n: Option<Node>, prop: Prop): Option<Node> {
    match n
    case None => None
    case Some(node) => Some(node.(props := node.props[prop.name := prop.value]))
  }

  function Effects(calls: seq<Call>, k: Key, n: Option<Node>): Option<Node>
    decreases |calls|
  {
    if calls == [] then n else Effects(calls[1..], k, Effect(calls[0], k, n))
  }

  lemma {:induction false} LookupAfter(t: Tree, calls: seq<Call>, k: Key)
    ensures Lookup(ApplyCalls(t, calls), k) == Effects(calls, k, Lookup(t, k))
    decreases |calls|
  {
    if calls != [] {
      LookupAfter(ApplyCall(t, calls[0]), calls[1..], k);
    }
  }

  lemma SameLookups(t: Tree, u: Tree)
    ensures t == u <==> forall k :: Lookup(t, k) == Lookup(u, k)
  {
    if forall k :: Lookup(t, k) == Lookup(u, k) {
      assert forall k :: k in t <==> Lookup(t, k).Some?;
      assert forall k :: k in u <==> Lookup(u, k).Some?;
      forall k | k in t
        ensures k in u && t[k] == u[k]
      {
        assert Lookup(t, k) == Lookup(u, k);
      }
      assert t.Keys == u.Keys;
    }
  }

  // -------------------------------------------------------------- main results

  /** A deletion right below the target, when filtering for files: dropped, whatever it deletes. */
  predicate TopLevelDelete(depth: Depth, hasTarget: bool, c: Call) {
    depth.Files? && c.DeleteEntry? && Level(hasTarget, c.path) == 1
  }

  function DropTopLevelDeletes(depth: Depth, hasTarget: bool, calls: seq<Call>): seq<Call> {
    if calls == [] then []
    else
      (if TopLevelDelete(depth, hasTarget, calls[0]) then [] else [calls[0]])
      + DropTopLevelDeletes(depth, hasTarget, calls[1..])
  }

  /** A node in range does not notice the calls that are dropped, those deletions aside. */
  lemma DroppedHasNoEffect(depth: Depth, hasTarget: bool, c: Call, k: Key, n: Option<Node>)
    requires InRange(depth, hasTarget, k.path, k.file)
    requires !Keep(depth, hasTarget, c) && !TopLevelDelete(depth, hasTarget, c)
    ensures Effect(c, k, n) == n
  {
  }

  lemma {:induction false} FilteredEffects(depth: Depth, hasTarget: bool, calls: seq<Call>, k: Key, n: Option<Node>)
    requires InRange(depth, hasTarget, k.path, k.file)
    ensures Effects(Filter(depth, hasTarget, calls), k, n)
         == Effects(DropTopLevelDeletes(depth, hasTarget, calls), k, n)
    decreases |calls|
  {
    if calls != [] {
      hide Effect, InRange;
      var c, rest := calls[0], calls[1..];
      var a, b := Filter(depth, hasTarget, rest), DropTopLevelDeletes(depth, hasTarget, rest);
      assert ([c] + a)[1..] == a && ([c] + b)[1..] == b && [] + a == a && [] + b == b;
      if Keep(depth, hasTarget, c) {
        assert !TopLevelDelete(depth, hasTarget, c) by { KeptDeletes(depth, hasTarget, c); }
        FilteredEffects(depth, hasTarget, rest, k, Effect(c, k, n));
      } else {
        if !TopLevelDelete(depth, hasTarget, c) {
          DroppedHasNoEffect(depth, hasTarget, c, k, n);
        }
        FilteredEffects(depth, hasTarget, rest, k, n);
      }
    }
  }

  lemma KeptDeletes(depth: Depth, hasTarget: bool, c: Call)
    requires Keep(depth, hasTarget, c)
    ensures !TopLevelDelete(depth, hasTarget, c)
  {
  }

  lemma KeptOutOfRange(depth: Depth, hasTarget: bool, c: Call, k: Key)
    requires Keep(depth, hasTarget, c) && !InRange(depth, hasTarget, k.path, k.file)
    ensures Effect(c, k, None) == None
  {
  }

  /** Nodes out of range never appear in the filtered edit. */
  lemma {:induction false} NothingOutOfRange(depth: Depth, hasTarget: bool, calls: seq<Call>, k: Key)
    requires !InRange(depth, hasTarget, k.path, k.file)
    ensures Effects(Filter(depth, hasTarget, calls), k, None) == None
    decreases |calls|
  {
    if calls != [] {
      var c, rest := calls[0], calls[1..];
      hide Effect, InRange, Keep;
      var a := Filter(depth, hasTarget, rest);
      assert ([c] + a)[1..] == a && [] + a == a;
      NothingOutOfRange(depth, hasTarget, rest, k);
      if Keep(depth, hasTarget, c) {
        KeptOutOfRange(depth, hasTarget, c, k);
      }
    }
  }

  /**
   * The filtered edit, on the tree within the depth, is the original edit restricted to the
   * depth, where filtering for files ignores the deletions right below the target.
   */
  lemma {:induction false} FilterRestrictsEdit(depth: Depth, hasTarget: bool, calls: seq<Call>, t: Tree)
    ensures ApplyCalls(Restrict(depth, hasTarget, t), Filter(depth, hasTarget, calls))
         == Restrict(depth, hasTarget, ApplyCalls(t, DropTopLevelDeletes(depth, hasTarget, calls)))
  {
    var left := ApplyCalls(Restrict(depth, hasTarget, t), Filter(depth, hasTarget, calls));
    var kept := DropTopLevelDeletes(depth, hasTarget, calls);
    var right := Restrict(depth, hasTarget, ApplyCalls(t, kept));
    forall k
      ensures Lookup(left, k) == Lookup(right, k)
    {
      LookupAfter(Restrict(depth, hasTarget, t), Filter(depth, hasTarget, calls), k);
      if InRange(depth, hasTarget, k.path, k.file) {
        FilteredEffects(depth, hasTarget, calls, k, Lookup(t, k));
        LookupAfter(t, kept, k);
      } else {
        NothingOutOfRange(depth, hasTarget, calls, k);
      }
    }
    SameLookups(left, right);
  }

  /** No directory above `p` is deleted. */
  predicate AncestorsStay(calls: seq<Call>, p: Path) {
    forall i :: 0 <= i < |calls| && calls[i].DeleteEntry? ==> !(calls[i].path < p)
  }

  /** The drive deletes `p` and nothing else decides whether there is a file at `p` afterwards. */
  predicate GoneForGood(calls: seq<Call>, p: Path) {
    DeleteEntry(p) in calls && AddFile(p) !in calls && AncestorsStay(calls, p)
  }

  /** Filtering for files loses the deletion of a file right below the target. */
  ghost predicate LosesDeletes(depth: Depth, hasTarget: bool, calls: seq<Call>, t: Tree) {
    depth.Files? && exists p ::
      Level(hasTarget, p) == 1 && Key(p, true) in t && GoneForGood(calls, p)
  }

  ghost predicate FilesEntered(d: Drive) {
    (d.current.Editing? ==> d.current.path in d.entered) && d.deferred <= d.entered
  }

  lemma FilesEnteredStep(d: Drive, c: Call)
    requires FilesEntered(d) && Step(true, d, c).Some?
    ensures FilesEntered(Step(true, d, c).value)
    ensures c.ChangeFileProp? || c.ApplyTextdelta? ==> c.path in d.entered
  {
  }

  /** No file baton for `p` is open. */
  ghost predicate NotOpen(d: Drive, p: Path) {
    (d.current.Editing? ==> d.current.path != p) && p !in d.deferred
  }

  lemma NotOpenStep(d: Drive, c: Call, p: Path)
    requires Step(true, d, c).Some? && p in d.deleted && NotOpen(d, p) && c != AddFile(p)
    ensures NotOpen(Step(true, d, c).value, p)
    ensures c.ChangeFileProp? || c.ApplyTextdelta? ==> c.path != p
  {
  }

  lemma {:induction false} DropOneMore(depth: Depth, hasTarget: bool, c: Call, rest: seq<Call>)
    ensures DropTopLevelDeletes(depth, hasTarget, [c] + rest)
         == (if TopLevelDelete(depth, hasTarget, c) then [] else [c]) + DropTopLevelDeletes(depth, hasTarget, rest)
    ensures forall k, n ::
              Effects(DropTopLevelDeletes(depth, hasTarget, [c] + rest), k, n)
              == Effects(DropTopLevelDeletes(depth, hasTarget, rest), k,
                         if TopLevelDelete(depth, hasTarget, c) then n else Effect(c, k, n))
  {
    var b := DropTopLevelDeletes(depth, hasTarget, rest);
    assert ([c] + rest)[1..] == rest && ([c] + b)[1..] == b && [] + b == b;
  }

  lemma AncestorsOneMore(c: Call, rest: seq<Call>, p: Path)
    ensures AncestorsStay([c] + rest, p) <==>
      AncestorsStay(rest, p) && !(c.DeleteEntry? && c.path < p)
  {
    var all := [c] + rest;
    assert all[0] == c && forall i :: 0 <= i < |rest| ==> all[i + 1] == rest[i];
    forall i | 0 <= i < |all| && all[i].DeleteEntry?
      ensures AncestorsStay(rest, p) && !(c.DeleteEntry? && c.path < p) ==> !(all[i].path < p)
    {
      assert i > 0 ==> all[i] == rest[i - 1];
    }
  }

  lemma {:induction false} NotDeletedAgain(d: Drive, calls: seq<Call>, p: Path)
    requires Run(true, d, calls).Some? && (p in d.entered || p in d.deleted)
    ensures DeleteEntry(p) !in calls
  {
    forall j | 0 <= j < |calls|
      ensures calls[j] != DeleteEntry(p)
    {
      NoVisitAfter(d, calls, j, p);
    }
  }

  /** A dropped deletion matters to the file it deletes only. */
  lemma {:induction false} NoDeleteNoLoss(
      depth: Depth, hasTarget: bool, calls: seq<Call>, k: Key, n: Option<Node>)
    requires InRange(depth, hasTarget, k.path, k.file)
    requires DeleteEntry(k.path) !in calls || !depth.Files? || Level(hasTarget, k.path) != 1
    ensures Effects(calls, k, n) == Effects(DropTopLevelDeletes(depth, hasTarget, calls), k, n)
    decreases |calls|
  {
    if calls != [] {
      var c, rest := calls[0], calls[1..];
      assert calls == [c] + rest;
      DropOneMore(depth, hasTarget, c, rest);
      assert c in calls;
      assert TopLevelDelete(depth, hasTarget, c) ==> c.path != k.path;
      assert c.DeleteEntry? && c.path <= k.path && |c.path| == |k.path| ==> c.path == k.path;
      NoDeleteNoLoss(depth, hasTarget, rest, k, Effect(c, k, n));
    }
  }

  /** After a dropped deletion: the file is gone in one tree, and still there in the other. */
  lemma {:induction false} AfterLostDelete(
      depth: Depth, hasTarget: bool, d: Drive, calls: seq<Call>, p: Path, n: Node)
    requires Run(true, d, calls).Some? && NotOpen(d, p) && p in d.deleted
    requires depth.Files? && Level(hasTarget, p) == 1
    ensures Effects(calls, Key(p, true), None)
         == Effects(DropTopLevelDeletes(depth, hasTarget, calls), Key(p, true), Some(n))
       <==> AddFile(p) in calls || !AncestorsStay(calls, p)
    decreases |calls|
  {
    hide Step;
    var k := Key(p, true);
    if calls != [] {
      var c, rest := calls[0], calls[1..];
      assert calls == [c] + rest;
      var e := Step(true, d, c).value;
      VisitedStays(d, c, p);
      DropOneMore(depth, hasTarget, c, rest);
      AncestorsOneMore(c, rest, p);
      NotDeletedAgain(e, rest, p);
      if c == AddFile(p) {
        NoDeleteNoLoss(depth, hasTarget, rest, k, Some(Fresh));
      } else if c.DeleteEntry? && c.path < p {
        NoDeleteNoLoss(depth, hasTarget, rest, k, None);
      } else {
        NotOpenStep(d, c, p);
        assert Effect(c, k, None) == None;
        assert Effect(c, k, Some(n)) == Some(n);
        AfterLostDelete(depth, hasTarget, e, rest, p, n);
      }
    }
  }

  /** For one file right below the target, the filter loses the edit exactly if the file goes for good. */
  lemma {:induction false} LossOfOneFile(
      depth: Depth, hasTarget: bool, d: Drive, calls: seq<Call>, p: Path, n: Option<Node>)
    requires Run(true, d, calls).Some? && FilesEntered(d)
    requires depth.Files? && Level(hasTarget, p) == 1
    ensures Effects(calls, Key(p, true), n)
         != Effects(DropTopLevelDeletes(depth, hasTarget, calls), Key(p, true), n)
       <==> n.Some? && GoneForGood(calls, p)
    decreases |calls|
  {
    hide Step, FilesEntered, GoneForGood, AncestorsStay, Effect;
    var k := Key(p, true);
    if calls == [] {
      assert !GoneForGood(calls, p) by { NothingGone(p); }
    } else {
      var c, rest := calls[0], calls[1..];
      assert calls == [c] + rest;
      var e := Step(true, d, c).value;
      VisitedStays(d, c, p);
      FilesEnteredStep(d, c);
      DropOneMore(depth, hasTarget, c, rest);
      GoneOneMore(c, rest, p);
      EffectOnFile(depth, hasTarget, c, p, n);
      if c == DeleteEntry(p) {
        NotDeletedAgain(e, rest, p);
        match n
        case None => NoDeleteNoLoss(depth, hasTarget, rest, k, None);
        case Some(node) =>
          DeletedNotOpen(d, p);
          AfterLostDelete(depth, hasTarget, e, rest, p, node);
      } else {
        if c == AddFile(p) {
          NotDeletedAgain(e, rest, p);
          assert !GoneForGood(rest, p) by { NotGone(rest, p); }
        }
        LossOfOneFile(depth, hasTarget, e, rest, p, Effect(c, k, n));
      }
    }
  }

  lemma NothingGone(p: Path)
    ensures !GoneForGood([], p)
  {
  }

  lemma NotGone(calls: seq<Call>, p: Path)
    requires DeleteEntry(p) !in calls
    ensures !GoneForGood(calls, p)
  {
  }

  lemma GoneOneMore(c: Call, rest: seq<Call>, p: Path)
    ensures GoneForGood([c] + rest, p) <==>
      && (c == DeleteEntry(p) || DeleteEntry(p) in rest) && c != AddFile(p) && AddFile(p) !in rest
      && AncestorsStay(rest, p) && !(c.DeleteEntry? && c.path < p)
    ensures c != DeleteEntry(p) ==>
      (GoneForGood([c] + rest, p) <==> GoneForGood(rest, p) && c != AddFile(p) && !(c.DeleteEntry? && c.path < p))
  {
    hide AncestorsStay;
    AncestorsOneMore(c, rest, p);
  }

  /** What a call does to a file right below the target. */
  lemma EffectOnFile(depth: Depth, hasTarget: bool, c: Call, p: Path, n: Option<Node>)
    requires Level(hasTarget, p) == 1
    ensures c == DeleteEntry(p) ==> Effect(c, Key(p, true), n) == None
    ensures c != DeleteEntry(p) && TopLevelDelete(depth, hasTarget, c) ==> Effect(c, Key(p, true), n) == n
    ensures c != DeleteEntry(p) && c != AddFile(p) ==>
      if c.DeleteEntry? && c.path < p then Effect(c, Key(p, true), n) == None
      else Effect(c, Key(p, true), n).Some? == n.Some?
  {
  }

  lemma DeletedNotOpen(d: Drive, p: Path)
    requires FilesEntered(d) && Step(true, d, DeleteEntry(p)).Some?
    ensures NotOpen(Step(true, d, DeleteEntry(p)).value, p)
  {
  }

  /**
   * The filtered edit is the original edit restricted to the requested depth if and only if
   * the filter is not for files, or no file right below the target is deleted for good.
   */
  lemma {:induction false} FilterExactUnlessDeletesLost(depth: Depth, hasTarget: bool, calls: seq<Call>, t: Tree)
    requires WellOrdered(true, calls)
    ensures ApplyCalls(Restrict(depth, hasTarget, t), Filter(depth, hasTarget, calls))
         == Restrict(depth, hasTarget, ApplyCalls(t, calls))
       <==> !LosesDeletes(depth, hasTarget, calls, t)
  {
    FilterRestrictsEdit(depth, hasTarget, calls, t);
    var kept := DropTopLevelDeletes(depth, hasTarget, calls);
    var left := Restrict(depth, hasTarget, ApplyCalls(t, kept));
    var right := Restrict(depth, hasTarget, ApplyCalls(t, calls));
    forall k
      ensures Lookup(left, k) != Lookup(right, k) <==>
        depth.Files? && k.file && Level(hasTarget, k.path) == 1 && k in t && GoneForGood(calls, k.path)
    {
      LookupAfter(t, kept, k);
      LookupAfter(t, calls, k);
      if InRange(depth, hasTarget, k.path, k.file) {
        if depth.Files? && Level(hasTarget, k.path) == 1 {
          LossOfOneFile(depth, hasTarget, Start, calls, k.path, Lookup(t, k));
        } else {
          NoDeleteNoLoss(depth, hasTarget, calls, k, Lookup(t, k));
        }
      }
    }
    SameLookups(left, right);
    if LosesDeletes(depth, hasTarget, calls, t) {
      var p :| Level(hasTarget, p) == 1 && Key(p, true) in t && GoneForGood(calls, p);
      assert Lookup(left, Key(p, true)) != Lookup(right, Key(p, true));
    }
  }

  /** Filtered for files, an edit that deletes a file right below the target leaves it there. */
  lemma DeleteLost()
    ensures var calls := [OpenRoot, DeleteEntry(["f"]), CloseDirectory([]), CloseEdit];
            var t: Tree := map[Key(["f"], true) := Fresh];
            && WellOrdered(true, calls)
            && ApplyCalls(Restrict(Files, false, t), Filter(Files, false, calls))
               != Restrict(Files, false, ApplyCalls(t, calls))
  {
    hide ApplyCalls, Restrict, Filter;
    var calls := [OpenRoot, DeleteEntry(["f"]), CloseDirectory([]), CloseEdit];
    var t: Tree := map[Key(["f"], true) := Fresh];
    DeletingDrive(["f"]);
    assert calls[1] == DeleteEntry(["f"]);
    assert GoneForGood(calls, ["f"]) && Level(false, ["f"]) == 1 && Key(["f"], true) in t;
    FilterExactUnlessDeletesLost(Files, false, calls, t);
  }

  lemma DeletingDrive(p: Path)
    requires |p| == 1
    ensures WellOrdered(true, [OpenRoot, DeleteEntry(p), CloseDirectory([]), CloseEdit])
  {
    var calls := [OpenRoot, DeleteEntry(p), CloseDirectory([]), CloseEdit];
    var d1 := Step(true, Start, OpenRoot).value;
    assert Init(p) == [] && d1.stack[0].path == [];
    var d2 := Step(true, d1, DeleteEntry(p)).value;
    var d3 := Step(true, d2, CloseDirectory([])).value;
    assert calls[1..][1..] == calls[2..] && calls[2..][1..] == calls[3..] && calls[3..][1..] == [];
    assert Run(true, d3, calls[3..]) == Step(true, d3, CloseEdit);
    assert Run(true, d2, calls[2..]) == Run(true, d3, calls[3..]);
    assert Run(true, d1, calls[1..]) == Run(true, d2, calls[2..]);
  }
}
