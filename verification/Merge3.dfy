/** Three-way differences as lined-up ranges, and the merged text they are put out as. */
module Merge3 {
  import opened Common

  /** One unit of a source, such as a line. */
  datatype Token = Token(text: string)

  type Tokens = seq<Token>

  datatype Range = Range(start: nat, length: nat) {
    function End(): nat {
      start + length
    }
  }

  /** A stretch of a conflict in which "modified" and "latest" are the same, or are not. */
  datatype Part = Part(same: bool, modified: Range, latest: Range)

  datatype Kind = CommonToAll | DiffModified | DiffLatest | DiffCommon | Conflict(resolved: seq<Part>)

  /** Ranges of the three sources that are lined up, and how they compare. */
  datatype Tile = Tile(kind: Kind, original: Range, modified: Range, latest: Range)

  datatype Sources = Sources(original: Tokens, modified: Tokens, latest: Tokens)

  function Slice(s: Tokens, r: Range): Tokens {
    if r.End() <= |s| then s[r.start..r.End()] else []
  }

  // ------------------------------------------------------------- well-formed diffs

  /** The stated equality between the ranges of a tile. */
  predicate Agrees(s: Sources, t: Tile) {
    match t.kind
    case CommonToAll =>
      Slice(s.original, t.original) == Slice(s.modified, t.modified) == Slice(s.latest, t.latest)
    case DiffModified => Slice(s.original, t.original) == Slice(s.latest, t.latest)
    case DiffLatest => Slice(s.original, t.original) == Slice(s.modified, t.modified)
    case DiffCommon => Slice(s.modified, t.modified) == Slice(s.latest, t.latest)
    case Conflict(resolved) =>
      resolved != [] ==> LinedUpParts(s, resolved, t.modified.start, t.latest.start, t.modified.End(), t.latest.End())
  }

  /** The parts follow one another and fill both ranges of the conflict. */
  predicate LinedUpParts(s: Sources, parts: seq<Part>, m: nat, l: nat, mEnd: nat, lEnd: nat) {
    if parts == [] then m == mEnd && l == lEnd
    else
      && parts[0].modified.start == m && parts[0].modified.End() <= mEnd
      && parts[0].latest.start == l && parts[0].latest.End() <= lEnd
      && (parts[0].same ==> Slice(s.modified, parts[0].modified) == Slice(s.latest, parts[0].latest))
      && LinedUpParts(s, parts[1..], parts[0].modified.End(), parts[0].latest.End(), mEnd, lEnd)
  }

  /** The tiles follow one another from the given places to the end of every source. */
  predicate LinedUp(s: Sources, tiles: seq<Tile>, o: nat, m: nat, l: nat) {
    if tiles == [] then o == |s.original| && m == |s.modified| && l == |s.latest|
    else
      && tiles[0].original.start == o && tiles[0].original.End() <= |s.original|
      && tiles[0].modified.start == m && tiles[0].modified.End() <= |s.modified|
      && tiles[0].latest.start == l && tiles[0].latest.End() <= |s.latest|
      && Agrees(s, tiles[0])
      && LinedUp(s, tiles[1..], tiles[0].original.End(), tiles[0].modified.End(), tiles[0].latest.End())
  }

  predicate Diff3(s: Sources, tiles: seq<Tile>) {
    LinedUp(s, tiles, 0, 0, 0)
  }

  // ---------------------------------------------------------------- keeping one side

  datatype Side = Original | Modified | Latest

  function Source(s: Sources, side: Side): Tokens {
    match side case Original => s.original case Modified => s.modified case Latest => s.latest
  }

  function RangeOf(t: Tile, side: Side): Range {
    match side case Original => t.original case Modified => t.modified case Latest => t.latest
  }

  function KeepSide(s: Sources, tiles: seq<Tile>, side: Side): Tokens {
    if tiles == [] then []
    else Slice(Source(s, side), RangeOf(tiles[0], side)) + KeepSide(s, tiles[1..], side)
  }

  lemma {:induction false} KeepSideFrom(s: Sources, tiles: seq<Tile>, side: Side, o: nat, m: nat, l: nat)
    requires LinedUp(s, tiles, o, m, l)
    ensures var at := match side case Original => o case Modified => m case Latest => l;
            at <= |Source(s, side)| && KeepSide(s, tiles, side) == Source(s, side)[at..]
  {
    hide Agrees;
    if tiles != [] {
      var r, source := RangeOf(tiles[0], side), Source(s, side);
      KeepSideFrom(s, tiles[1..], side, tiles[0].original.End(), tiles[0].modified.End(), tiles[0].latest.End());
      assert source[r.start..] == source[r.start..r.End()] + source[r.End()..];
    }
  }

  /** Keeping one side's ranges of a diff reproduces that source. */
  lemma {:induction false} KeepingOneSide(s: Sources, tiles: seq<Tile>, side: Side)
    requires Diff3(s, tiles)
    ensures KeepSide(s, tiles, side) == Source(s, side)
  {
    KeepSideFrom(s, tiles, side, 0, 0, 0);
  }

  // ---------------------------------------------------------------------- the output

  /** A line of the merged text, or a conflict marker. */
  datatype Piece = Line(token: Token) | OpenModified | OpenOriginal | Separator | CloseLatest

  datatype Style =
    | ShowModifiedLatest
    | ShowResolved
    | ShowModifiedOriginalLatest
    | ShowModified
    | ShowLatest
    | ShowOnlyConflicts

  function Lines(tokens: Tokens): (r: seq<Piece>)
    ensures |r| == |tokens| && forall i :: 0 <= i < |r| ==> r[i] == Line(tokens[i])
  {
    seq(|tokens|, i requires 0 <= i < |tokens| => Line(tokens[i]))
  }

  function TwoSides(m: Tokens, l: Tokens): seq<Piece> {
    [OpenModified] + Lines(m) + [Separator] + Lines(l) + [CloseLatest]
  }

  function ThreeSides(m: Tokens, o: Tokens, l: Tokens): seq<Piece> {
    [OpenModified] + Lines(m) + [OpenOriginal] + Lines(o) + [Separator] + Lines(l) + [CloseLatest]
  }

  function PartPieces(s: Sources, p: Part): seq<Piece> {
    if p.same then Lines(Slice(s.modified, p.modified))
    else TwoSides(Slice(s.modified, p.modified), Slice(s.latest, p.latest))
  }

  function PartsPieces(s: Sources, parts: seq<Part>): seq<Piece> {
    if parts == [] then [] else PartsPieces(s, Init(parts)) + PartPieces(s, Last(parts))
  }

  lemma {:induction false} NoParts(s: Sources)
    ensures PartsPieces(s, []) == []
  {
  }

  lemma {:induction false} OneMorePart(s: Sources, parts: seq<Part>, i: nat)
    requires i < |parts|
    ensures PartsPieces(s, parts[..i + 1]) == PartsPieces(s, parts[..i]) + PartPieces(s, parts[i])
  {
    assert Init(parts[..i + 1]) == parts[..i];
  }

  function ConflictPieces(s: Sources, t: Tile, resolved: seq<Part>, style: Style): seq<Piece> {
    var o, m, l := Slice(s.original, t.original), Slice(s.modified, t.modified), Slice(s.latest, t.latest);
    match style
    case ShowModifiedLatest => TwoSides(m, l)
    case ShowResolved => if resolved == [] then TwoSides(m, l) else PartsPieces(s, resolved)
    case ShowModifiedOriginalLatest => ThreeSides(m, o, l)
    case ShowModified => Lines(m)
    case ShowLatest => Lines(l)
    case ShowOnlyConflicts => ThreeSides(m, o, l)
  }

  function TilePieces(s: Sources, t: Tile, style: Style): seq<Piece> {
    if t.kind.Conflict? then ConflictPieces(s, t, t.kind.resolved, style)
    else if style.ShowOnlyConflicts? then []
    else if t.kind.DiffLatest? then Lines(Slice(s.latest, t.latest))
    else Lines(Slice(s.modified, t.modified))
  }

  function MergePieces(s: Sources, tiles: seq<Tile>, style: Style): seq<Piece> {
    if tiles == [] then [] else MergePieces(s, Init(tiles), style) + TilePieces(s, Last(tiles), style)
  }

  class MergeOutput {
    const sources: Sources
    const style: Style
    var output: seq<Piece>

    constructor (sources: Sources, style: Style)
      ensures this.sources == sources && this.style == style && output == []
    {
      this.sources, this.style, output := sources, style, [];
    }

    method OutputRange(source: Tokens, r: Range)
      modifies this
      ensures output == old(output) + Lines(Slice(source, r))
    {
      ghost var was := output;
      var i := r.start;
      if r.End() <= |source| {
        while i < r.End()
          invariant r.start <= i <= r.End()
          invariant output == was + Lines(source[r.start..i])
        {
          assert source[r.start..i + 1] == source[r.start..i] + [source[i]];
          assert Lines(source[r.start..i + 1]) == Lines(source[r.start..i]) + [Line(source[i])];
          output := output + [Line(source[i])];
          i := i + 1;
        }
      }
    }

    method OutputMarker(marker: Piece)
      modifies this
      ensures output == old(output) + [marker]
    {
      output := output + [marker];
    }

    method OutputTwoSides(m: Range, l: Range)
      modifies this
      ensures output == old(output) + TwoSides(Slice(sources.modified, m), Slice(sources.latest, l))
    {
      hide Lines, Slice;
      OutputMarker(OpenModified);
      OutputRange(sources.modified, m);
      OutputMarker(Separator);
      OutputRange(sources.latest, l);
      OutputMarker(CloseLatest);
    }

    method OutputThreeSides(t: Tile)
      modifies this
      ensures output == old(output) + ThreeSides(
                Slice(sources.modified, t.modified),
                Slice(sources.original, t.original),
                Slice(sources.latest, t.latest))
    {
      hide Lines, Slice;
      OutputMarker(OpenModified);
      OutputRange(sources.modified, t.modified);
      OutputMarker(OpenOriginal);
      OutputRange(sources.original, t.original);
      OutputMarker(Separator);
      OutputRange(sources.latest, t.latest);
      OutputMarker(CloseLatest);
    }

    method OutputResolved(parts: seq<Part>)
      modifies this
      ensures output == old(output) + PartsPieces(sources, parts)
    {
      hide TwoSides, Lines, Slice, PartsPieces;
      ghost var was := output;
      NoParts(sources);
      for i := 0 to |parts|
        invariant output == was + PartsPieces(sources, parts[..i])
      {
        OneMorePart(sources, parts, i);
        if parts[i].same {
          OutputRange(sources.modified, parts[i].modified);
        } else {
          OutputTwoSides(parts[i].modified, parts[i].latest);
        }
      }
      assert parts[..|parts|] == parts;
    }

    method OutputConflict(t: Tile, resolved: seq<Part>)
      modifies this
      ensures output == old(output) + ConflictPieces(sources, t, resolved, style)
    {
      hide TwoSides, ThreeSides, PartsPieces, Lines, Slice;
      match style
      case ShowModified => OutputRange(sources.modified, t.modified);
      case ShowLatest => OutputRange(sources.latest, t.latest);
      case ShowModifiedOriginalLatest => OutputThreeSides(t);
      case ShowOnlyConflicts => OutputThreeSides(t);
      case ShowModifiedLatest => OutputTwoSides(t.modified, t.latest);
      case ShowResolved =>
        if resolved == [] {
          OutputTwoSides(t.modified, t.latest);
        } else {
          OutputResolved(resolved);
        }
    }

    /** The callback for the kind of tile. */
    method OutputTile(t: Tile)
      modifies this
      ensures output == old(output) + TilePieces(sources, t, style)
    {
      hide ConflictPieces, Lines, Slice;
      match t.kind
      case Conflict(resolved) => OutputConflict(t, resolved);
      case DiffLatest =>
        if !style.ShowOnlyConflicts? {
          OutputRange(sources.latest, t.latest);
        }
      case _ =>
        if !style.ShowOnlyConflicts? {
          OutputRange(sources.modified, t.modified);
        }
    }

    /** Calls, tile by tile, the callback for its kind. */
    method OutputDiff(tiles: seq<Tile>)
      modifies this
      ensures output == old(output) + MergePieces(sources, tiles, style)
    {
      hide TilePieces;
      ghost var was := output;
      for i := 0 to |tiles|
        invariant output == was + MergePieces(sources, tiles[..i], style)
      {
        assert Init(tiles[..i + 1]) == tiles[..i];
        OutputTile(tiles[i]);
      }
      assert tiles[..|tiles|] == tiles;
    }
  }

  /** Whether some tile is a conflict. */
  predicate HasConflict(tiles: seq<Tile>) {
    exists i :: 0 <= i < |tiles| && tiles[i].kind.Conflict?
  }

  method ContainsConflicts(tiles: seq<Tile>) returns (r: bool)
    ensures r <==> exists i :: 0 <= i < |tiles| && tiles[i].kind.Conflict?
  {
    for i := 0 to |tiles|
      invariant !HasConflict(tiles[..i])
    {
      assert tiles[..i + 1] == tiles[..i] + [tiles[i]];
      if tiles[i].kind.Conflict? {
        return true;
      }
    }
    assert tiles[..|tiles|] == tiles;
    r := false;
  }
}
