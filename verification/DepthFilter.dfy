/** The editor wrapper that lets through only what lies within a requested depth. */
module DepthFilter {
  import opened Common
  import opened Editor

  datatype Depth = Empty | Files | Immediates | Infinity | Unknown

  // ---------------------------------------------------------------- closed form

  /** Steps below the target of the edit: the root itself, or the entry below it if there is a target. */
  function Level(hasTarget: bool, path: Path): int {
    |path| - if hasTarget then 1 else 0
  }

  /** A node of the given kind at `path` is within the requested depth. */
  predicate InRange(depth: Depth, hasTarget: bool, path: Path, file: bool) {
    match depth
    case Empty => Level(hasTarget, path) <= 0
    case Files => Level(hasTarget, path) <= 0 || (Level(hasTarget, path) == 1 && file)
    case Immediates => Level(hasTarget, path) <= 1
    case Infinity => true
    case Unknown => true
  }

  predicate OnFile(c: Call) {
    c.AddFile? || c.OpenFile? || c.ChangeFileProp? || c.ApplyTextdelta? || c.CloseFile? || c.AbsentFile?
  }

  predicate HasPath(c: Call) {
    !c.SetTargetRevision? && !c.OpenRoot? && !c.CloseEdit?
  }

  /** A deletion does not say what it deletes, so it is treated like a directory. */
  predicate Keep(depth: Depth, hasTarget: bool, c: Call) {
    HasPath(c) ==> InRange(depth, hasTarget, c.path, OnFile(c))
  }

  /**
   * What each depth lets through: at the target everything, right below it files, or files and
   * directories, and further down nothing, unless there is no limit.
   */
  lemma DepthsMean(depth: Depth, hasTarget: bool, c: Call)
    ensures c.SetTargetRevision? || c.OpenRoot? || c.CloseEdit? ==> Keep(depth, hasTarget, c)
    ensures !(c.SetTargetRevision? || c.OpenRoot? || c.CloseEdit?) ==>
              var n := if hasTarget then |c.path| - 1 else |c.path|;
              var file := c.AddFile? || c.OpenFile? || c.ChangeFileProp? || c.ApplyTextdelta? || c.CloseFile?
                          || c.AbsentFile?;
              && (depth == Empty ==> (Keep(depth, hasTarget, c) <==> n <= 0))
              && (depth == Files ==> (Keep(depth, hasTarget, c) <==> n <= 0 || (n == 1 && file)))
              && (depth == Immediates ==> (Keep(depth, hasTarget, c) <==> n <= 1))
              && (depth == Infinity || depth == Unknown ==> Keep(depth, hasTarget, c))
  {
  }

  function Filter(depth: Depth, hasTarget: bool, calls: seq<Call>): seq<Call> {
    if calls == [] then []
    else (if Keep(depth, hasTarget, calls[0]) then [calls[0]] else []) + Filter(depth, hasTarget, calls[1..])
  }

  lemma {:induction false} FilterOneMore(depth: Depth, hasTarget: bool, c: Call, rest: seq<Call>)
    ensures Filter(depth, hasTarget, [c] + rest)
         == (if Keep(depth, hasTarget, c) then [c] else []) + Filter(depth, hasTarget, rest)
  {
    assert ([c] + rest)[1..] == rest;
  }

  lemma {:induction false} FilterNothing(depth: Depth, hasTarget: bool)
    ensures Filter(depth, hasTarget, []) == []
  {
  }

  // ------------------------------------------------------------- the wrapper

  datatype DirBaton = DirBaton(filtered: bool, depth: nat)

  /** Decides from the parent's baton alone, as the calls come in. */
  class FilterEditor {
    const depth: Depth
    const hasTarget: bool
    var dirs: map<Path, DirBaton>
    var files: map<Path, bool>      // file batons: filtered or not
    var forwarded: seq<Call>        // what the wrapped editor has received

    ghost predicate Valid()
      reads this
    {
      && (forall p :: p in dirs ==>
            dirs[p] == DirBaton(!InRange(depth, hasTarget, p, false), |p| + 1))
      && (forall p :: p in files ==> files[p] == !InRange(depth, hasTarget, p, true))
    }

    constructor (depth: Depth, hasTarget: bool)
      ensures this.depth == depth && this.hasTarget == hasTarget
      ensures Valid() && dirs == map[] && files == map[] && forwarded == []
    {
      this.depth := depth;
      this.hasTarget := hasTarget;
      dirs, files, forwarded := map[], map[], [];
    }

    /** Whether a child of the directory may be edited. */
    predicate OkayToEdit(parent: DirBaton, file: bool)
    {
      if parent.filtered then false
      else
        var effective := parent.depth - if hasTarget then 1 else 0;
        match depth
        case Empty => effective <= 0
        case Files => effective <= 0 || (file && effective == 1)
        case Immediates => effective <= 1
        case Infinity => true
        case Unknown => true
    }

    /** A child is in range if and only if its parent's baton says so. */
    lemma OkayMeansInRange(path: Path, file: bool)
      requires path != []
      ensures OkayToEdit(DirBaton(!InRange(depth, hasTarget, Init(path), false), |path|), file)
          <==> InRange(depth, hasTarget, path, file)
    {
    }

    /** The caller passes batons it has been given. */
    predicate BatonsKnown(c: Call)
      reads this
    {
      && (OnEntry(c) ==> c.path != [] && Init(c.path) in dirs)
      && (c.ChangeDirProp? || c.CloseDirectory? ==> c.path in dirs)
      && (c.ChangeFileProp? || c.ApplyTextdelta? || c.CloseFile? ==> c.path in files)
    }

    /** Takes one call; it reaches the wrapped editor exactly if its node is within the depth. */
    method Handle(c: Call)
      requires Valid() && BatonsKnown(c)
      modifies this`dirs, this`files, this`forwarded
      ensures Valid()
      ensures forwarded == old(forwarded) + (if Keep(depth, hasTarget, c) then [c] else [])
      ensures c.SetTargetRevision? || c.OpenRoot? || c.CloseEdit? ==> forwarded == old(forwarded) + [c]
      ensures !(c.SetTargetRevision? || c.OpenRoot? || c.CloseEdit?) ==>
                var n := if hasTarget then |c.path| - 1 else |c.path|;
                var file := c.AddFile? || c.OpenFile? || c.ChangeFileProp? || c.ApplyTextdelta? || c.CloseFile?
                            || c.AbsentFile?;
                forwarded == old(forwarded) +
                  if n <= 0 || depth == Infinity || depth == Unknown
                     || (n == 1 && (depth == Immediates || (depth == Files && file))) then [c] else []
      ensures dirs.Keys == old(dirs.Keys) + NewDirs(c)
      ensures files.Keys == old(files.Keys) + NewFiles(c)
    {
      hide InRange, FilterEditor.OkayToEdit, Keep;
      RootInRange(depth, hasTarget);
      DepthsMean(depth, hasTarget, c);
      KeepIs(depth, hasTarget, c);
      var pass := true;
      if OnEntry(c) {
        var p := c.path;
        pass := OkayToEdit(dirs[Init(p)], OnFile(c));
        OkayMeansInRange(p, OnFile(c));
        if c.AddDirectory? || c.OpenDirectory? {
          dirs := dirs[p := DirBaton(!pass, dirs[Init(p)].depth + 1)];
        } else if c.AddFile? || c.OpenFile? {
          files := files[p := !pass];
        }
      } else if c.OpenRoot? {
        dirs := dirs[[] := DirBaton(false, 1)];
      } else if c.ChangeDirProp? || c.CloseDirectory? {
        pass := !dirs[c.path].filtered;
      } else if HasPath(c) {
        pass := !files[c.path];
      }
      if pass {
        forwarded := forwarded + [c];
      }
    }

    /** A whole drive that keeps the rules. */
    method HandleAll(calls: seq<Call>)
      requires Valid() && forwarded == [] && WellOrdered(false, calls)
      modifies this`dirs, this`files, this`forwarded
      ensures forwarded == Filter(depth, hasTarget, calls)
    {
      hide Step, Valid, Keep, BatonsKnown, NewDirs, NewFiles, Knows, Filter, UsesKnown;
      ghost var d := Start;
      StartKnown(dirs.Keys, files.Keys);
      for i := 0 to |calls|
        invariant Valid()
        invariant Run(false, d, calls[i..]).Some?
        invariant Knows(dirs.Keys, files.Keys, d)
        invariant forwarded + Filter(depth, hasTarget, calls[i..]) == Filter(depth, hasTarget, calls)
      {
        assert calls[i..] == [calls[i]] + calls[i + 1..];
        FilterOneMore(depth, hasTarget, calls[i], calls[i + 1..]);
        KnownStep(dirs.Keys, files.Keys, d, calls[i]);
        BatonsOfKnown(calls[i]);
        d := Step(false, d, calls[i]).value;
        Handle(calls[i]);
      }
      assert calls[|calls|..] == [];
      FilterNothing(depth, hasTarget);
    }

    lemma BatonsOfKnown(c: Call)
      requires UsesKnown(dirs.Keys, files.Keys, c)
      ensures BatonsKnown(c)
    {
    }
  }

  lemma RootInRange(depth: Depth, hasTarget: bool)
    ensures InRange(depth, hasTarget, [], false)
  {
  }

  lemma KeepIs(depth: Depth, hasTarget: bool, c: Call)
    ensures Keep(depth, hasTarget, c) <==> (HasPath(c) ==> InRange(depth, hasTarget, c.path, OnFile(c)))
  {
  }

  /** A call on an entry of a directory, with that directory's baton. */
  predicate OnEntry(c: Call) {
    || c.DeleteEntry? || c.AddDirectory? || c.OpenDirectory? || c.AbsentDirectory?
    || c.AddFile? || c.OpenFile? || c.AbsentFile?
  }

  function NewDirs(c: Call): set<Path> {
    if c.OpenRoot? then {[]} else if c.AddDirectory? || c.OpenDirectory? then {c.path} else {}
  }

  function NewFiles(c: Call): set<Path> {
    if c.AddFile? || c.OpenFile? then {c.path} else {}
  }

  /** The batons that are open are among those given out. */
  ghost predicate Knows(dirs: set<Path>, files: set<Path>, d: Drive) {
    && (forall dir :: dir in d.stack ==> dir.path in dirs)
    && (d.current.Editing? ==> d.current.path in files)
    && d.deferred <= files
  }

  ghost predicate UsesKnown(dirs: set<Path>, files: set<Path>, c: Call) {
    && (OnEntry(c) ==> c.path != [] && Init(c.path) in dirs)
    && (c.ChangeDirProp? || c.CloseDirectory? ==> c.path in dirs)
    && (c.ChangeFileProp? || c.ApplyTextdelta? || c.CloseFile? ==> c.path in files)
  }

  lemma StartKnown(dirs: set<Path>, files: set<Path>)
    ensures Knows(dirs, files, Start)
  {
  }

  /** A drive in order only uses batons that have been given out. */
  lemma KnownStep(dirs: set<Path>, files: set<Path>, d: Drive, c: Call)
    requires Knows(dirs, files, d) && Step(false, d, c).Some?
    ensures UsesKnown(dirs, files, c)
    ensures Knows(dirs + NewDirs(c), files + NewFiles(c), Step(false, d, c).value)
  {
    var e := Step(false, d, c).value;
    KnownDir(dirs, files, d, c);
    forall dir | dir in e.stack
      ensures dir.path in dirs + NewDirs(c)
    {
      StackGrows(d, c, dir);
    }
  }

  lemma KnownDir(dirs: set<Path>, files: set<Path>, d: Drive, c: Call)
    requires Knows(dirs, files, d) && Step(false, d, c).Some?
    ensures UsesKnown(dirs, files, c)
    ensures d.stack != [] ==> Last(d.stack).path in dirs
  {
    assert d.stack != [] ==> Last(d.stack) in d.stack;
  }

  /** A directory that is open after a call was open before, or is the one the call opens. */
  lemma StackGrows(d: Drive, c: Call, dir: Dir)
    requires Step(false, d, c).Some? && dir in Step(false, d, c).value.stack
    ensures dir in d.stack || (d.stack != [] && dir.path == Last(d.stack).path) || dir.path in NewDirs(c)
  {
  }
}
