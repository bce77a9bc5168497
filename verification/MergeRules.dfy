/** What a three-way merge keeps of its sources. */
module MergeRules {
  import opened Common
  import opened Merge3

  // ------------------------------------------------------------- reading a merged text

  /** Where in a merged text a line is: in no conflict, or in one of its sections. */
  datatype Place = Outside | InModified | InOriginal | InLatest

  function PlaceAfter(at: Place, p: Piece): Place {
    match p
    case Line(_) => at
    case OpenModified => InModified
    case OpenOriginal => InOriginal
    case Separator => InLatest
    case CloseLatest => Outside
  }

  function PlaceAtEnd(at: Place, pieces: seq<Piece>): Place
    decreases |pieces|
  {
    if pieces == [] then at else PlaceAtEnd(PlaceAfter(at, pieces[0]), pieces[1..])
  }

  predicate Shown(at: Place, side: Side) {
    match at
    case Outside => true
    case InModified => side.Modified?
    case InOriginal => side.Original?
    case InLatest => side.Latest?
  }

  /** Settles every conflict of a merged text in favour of one side. */
  function Settle(pieces: seq<Piece>, at: Place, side: Side): Tokens {
    if pieces == [] then []
    else
      (if pieces[0].Line? && Shown(at, side) then [pieces[0].token] else [])
      + Settle(pieces[1..], PlaceAfter(at, pieces[0]), side)
  }

  lemma {:induction false} SettleBoth(a: seq<Piece>, b: seq<Piece>, at: Place, side: Side)
    ensures PlaceAtEnd(at, a + b) == PlaceAtEnd(PlaceAtEnd(at, a), b)
    ensures Settle(a + b, at, side) == Settle(a, at, side) + Settle(b, PlaceAtEnd(at, a), side)
  {
    hide PlaceAfter, Shown, Settle;
    if a == [] {
      assert a + b == b;
      SettleNothing(at, side);
    } else {
      var next := PlaceAfter(at, a[0]);
      SettleBoth(a[1..], b, next, side);
      assert (a + b)[1..] == a[1..] + b && (a + b)[0] == a[0];
      SettleFirst(a, at, side);
      SettleFirst(a + b, at, side);
      var shown := if a[0].Line? && Shown(at, side) then [a[0].token] else [];
      Regroup(shown, Settle(a[1..], next, side), Settle(b, PlaceAtEnd(next, a[1..]), side));
    }
  }

  lemma {:induction false} SettleNothing(at: Place, side: Side)
    ensures Settle([], at, side) == []
  {
  }

  lemma {:induction false} SettleFirst(pieces: seq<Piece>, at: Place, side: Side)
    requires pieces != []
    ensures Settle(pieces, at, side) ==
            (if pieces[0].Line? && Shown(at, side) then [pieces[0].token] else [])
            + Settle(pieces[1..], PlaceAfter(at, pieces[0]), side)
  {
  }

  lemma Regroup(a: Tokens, b: Tokens, c: Tokens)
    ensures (a + b) + c == a + (b + c)
  {
  }

  lemma {:induction false} SettleLines(tokens: Tokens, at: Place, side: Side)
    ensures PlaceAtEnd(at, Lines(tokens)) == at
    ensures Settle(Lines(tokens), at, side) == if Shown(at, side) then tokens else []
  {
    hide Shown;
    if tokens != [] {
      assert Lines(tokens)[1..] == Lines(tokens[1..]);
      SettleLines(tokens[1..], at, side);
      assert tokens == [tokens[0]] + tokens[1..];
    }
  }

  lemma {:induction false} SettleMarker(p: Piece, at: Place, side: Side)
    requires !p.Line?
    ensures PlaceAtEnd(at, [p]) == PlaceAfter(at, p) && Settle([p], at, side) == []
  {
    assert [p][1..] == [];
  }

  /** A section of a conflict and the marker before it. */
  lemma {:induction false} SettleSection(before: seq<Piece>, marker: Piece, tokens: Tokens, at: Place, side: Side)
    requires !marker.Line?
    ensures var here := PlaceAfter(at, marker);
            PlaceAtEnd(Outside, before) == at ==>
              PlaceAtEnd(Outside, before + [marker] + Lines(tokens)) == here &&
              Settle(before + [marker] + Lines(tokens), Outside, side) ==
                Settle(before, Outside, side) + if Shown(here, side) then tokens else []
  {
    hide Settle, PlaceAtEnd, Shown, PlaceAfter;
    SettleBoth(before + [marker], Lines(tokens), Outside, side);
    SettleBoth(before, [marker], Outside, side);
    SettleMarker(marker, PlaceAtEnd(Outside, before), side);
    SettleLines(tokens, PlaceAfter(at, marker), side);
  }

  lemma {:induction false} NothingToSettle(at: Place, side: Side)
    ensures PlaceAtEnd(at, []) == at && Settle([], at, side) == []
  {
  }

  /** A conflict with two sections is settled to either side's range. */
  lemma {:induction false} SettleTwoSides(m: Tokens, l: Tokens, side: Side)
    ensures PlaceAtEnd(Outside, TwoSides(m, l)) == Outside
    ensures side.Modified? ==> Settle(TwoSides(m, l), Outside, side) == m
    ensures side.Latest? ==> Settle(TwoSides(m, l), Outside, side) == l
  {
    hide Settle, PlaceAtEnd, Lines;
    var a := [OpenModified] + Lines(m);
    var b := a + [Separator] + Lines(l);
    NothingToSettle(Outside, side);
    SettleSection([], OpenModified, m, Outside, side);
    assert [] + [OpenModified] + Lines(m) == a;
    SettleSection(a, Separator, l, InModified, side);
    SettleBoth(b, [CloseLatest], Outside, side);
    SettleMarker(CloseLatest, InLatest, side);
  }

  /** A conflict with three sections is settled to any side's range. */
  lemma {:induction false} SettleThreeSides(m: Tokens, o: Tokens, l: Tokens, side: Side)
    ensures PlaceAtEnd(Outside, ThreeSides(m, o, l)) == Outside
    ensures Settle(ThreeSides(m, o, l), Outside, side) ==
            match side case Modified => m case Original => o case Latest => l
  {
    hide Settle, PlaceAtEnd, Lines;
    var a := [OpenModified] + Lines(m);
    var b := a + [OpenOriginal] + Lines(o);
    var c := b + [Separator] + Lines(l);
    NothingToSettle(Outside, side);
    SettleSection([], OpenModified, m, Outside, side);
    assert [] + [OpenModified] + Lines(m) == a;
    SettleSection(a, OpenOriginal, o, InModified, side);
    SettleSection(b, Separator, l, InOriginal, side);
    SettleBoth(c, [CloseLatest], Outside, side);
    SettleMarker(CloseLatest, InLatest, side);
  }

  // ------------------------------------------------------------ settling a merge

  lemma {:induction false} PartsFirst(s: Sources, parts: seq<Part>)
    requires parts != []
    ensures PartsPieces(s, parts) == PartPieces(s, parts[0]) + PartsPieces(s, parts[1..])
  {
    hide PartPieces;
    if |parts| == 1 {
      assert Init(parts) == [] == parts[1..];
    } else {
      PartsFirst(s, Init(parts));
      assert Init(parts)[1..] == Init(parts[1..]) && Last(parts[1..]) == Last(parts);
    }
  }

  lemma SliceAndRest(s: Tokens, r: Range, end: nat)
    requires r.End() <= end <= |s|
    ensures Slice(s, r) + s[r.End()..end] == s[r.start..end]
  {
  }

  /** The parts of a resolved conflict add up to the ranges of the conflict. */
  lemma {:induction false} SettleParts(
      s: Sources, parts: seq<Part>, side: Side, m: nat, l: nat, mEnd: nat, lEnd: nat)
    requires LinedUpParts(s, parts, m, l, mEnd, lEnd) && mEnd <= |s.modified| && lEnd <= |s.latest|
    ensures m <= mEnd && l <= lEnd
    ensures PlaceAtEnd(Outside, PartsPieces(s, parts)) == Outside
    ensures side.Modified? ==> Settle(PartsPieces(s, parts), Outside, side) == s.modified[m..mEnd]
    ensures side.Latest? ==> Settle(PartsPieces(s, parts), Outside, side) == s.latest[l..lEnd]
    decreases |parts|
  {
    hide Settle, PlaceAtEnd, TwoSides, Lines, Slice;
    if parts == [] {
      NothingToSettle(Outside, side);
    } else {
      var p := parts[0];
      var mr, lr := Slice(s.modified, p.modified), Slice(s.latest, p.latest);
      SettleParts(s, parts[1..], side, p.modified.End(), p.latest.End(), mEnd, lEnd);
      PartsFirst(s, parts);
      SettleBoth(PartPieces(s, p), PartsPieces(s, parts[1..]), Outside, side);
      SettleTwoSides(mr, lr, side);
      SettleLines(mr, Outside, side);
      SliceAndRest(s.modified, p.modified, mEnd);
      SliceAndRest(s.latest, p.latest, lEnd);
    }
  }

  predicate HasMarkers(style: Style) {
    style.ShowModifiedLatest? || style.ShowResolved? || style.ShowModifiedOriginalLatest?
  }

  /** Conflicts can be settled for "original" only where it is shown. */
  predicate CanSettle(style: Style, side: Side) {
    side.Original? ==> style.ShowModifiedOriginalLatest?
  }

  predicate InBounds(s: Sources, t: Tile) {
    t.original.End() <= |s.original| && t.modified.End() <= |s.modified| && t.latest.End() <= |s.latest|
  }

  /** What a tile contributes once conflicts are settled for one side. */
  function Chosen(s: Sources, t: Tile, side: Side): Tokens {
    if t.kind.Conflict? then Slice(Source(s, side), RangeOf(t, side))
    else if t.kind.DiffLatest? then Slice(s.latest, t.latest)
    else Slice(s.modified, t.modified)
  }

  /** The three-way rule: the side that differs from "original", or the agreed change. */
  function ThreeWay(o: Tokens, m: Tokens, l: Tokens, otherwise: Tokens): Tokens {
    if m == o then l else if l == o || m == l then m else otherwise
  }

  /** Outside conflicts a tile contributes what the three-way rule says of its three texts. */
  predicate FollowsThreeWay(s: Sources, t: Tile, side: Side) {
    !t.kind.Conflict? ==>
      Chosen(s, t, side) ==
      ThreeWay(Slice(s.original, t.original), Slice(s.modified, t.modified), Slice(s.latest, t.latest), [])
  }

  lemma {:induction false} SettleTile(s: Sources, t: Tile, style: Style, side: Side)
    requires Agrees(s, t) && InBounds(s, t) && HasMarkers(style) && CanSettle(style, side)
    ensures PlaceAtEnd(Outside, TilePieces(s, t, style)) == Outside
    ensures Settle(TilePieces(s, t, style), Outside, side) == Chosen(s, t, side)
  {
    hide Settle, PlaceAtEnd, TwoSides, ThreeSides, PartsPieces, LinedUpParts, Lines;
    var o, m, l := Slice(s.original, t.original), Slice(s.modified, t.modified), Slice(s.latest, t.latest);
    SettleLines(m, Outside, side);
    SettleLines(l, Outside, side);
    SettleTwoSides(m, l, side);
    SettleThreeSides(m, o, l, side);
    if t.kind.Conflict? && t.kind.resolved != [] {
      SettleParts(s, t.kind.resolved, side, t.modified.start, t.latest.start, t.modified.End(), t.latest.End());
    }
  }

  function ChosenText(s: Sources, tiles: seq<Tile>, side: Side): Tokens {
    if tiles == [] then [] else ChosenText(s, Init(tiles), side) + Chosen(s, Last(tiles), side)
  }

  ghost predicate WellFormed(s: Sources, tiles: seq<Tile>) {
    forall i :: 0 <= i < |tiles| ==> Agrees(s, tiles[i]) && InBounds(s, tiles[i])
  }

  lemma {:induction false} LinedUpIsWellFormed(s: Sources, tiles: seq<Tile>, o: nat, m: nat, l: nat)
    requires LinedUp(s, tiles, o, m, l)
    ensures WellFormed(s, tiles)
    decreases |tiles|
  {
    hide Agrees;
    if tiles != [] {
      LinedUpIsWellFormed(s, tiles[1..], tiles[0].original.End(), tiles[0].modified.End(), tiles[0].latest.End());
      assert forall i :: 1 <= i < |tiles| ==> tiles[i] == tiles[1..][i - 1];
    }
  }

  lemma {:induction false} SettleTiles(s: Sources, tiles: seq<Tile>, style: Style, side: Side)
    requires WellFormed(s, tiles) && HasMarkers(style) && CanSettle(style, side)
    ensures PlaceAtEnd(Outside, MergePieces(s, tiles, style)) == Outside
    ensures Settle(MergePieces(s, tiles, style), Outside, side) == ChosenText(s, tiles, side)
  {
    hide Settle, PlaceAtEnd, TilePieces, Agrees, Chosen;
    if tiles == [] {
      NothingToSettle(Outside, side);
    } else {
      SettleTiles(s, Init(tiles), style, side);
      SettleTile(s, Last(tiles), style, side);
      SettleBoth(MergePieces(s, Init(tiles), style), TilePieces(s, Last(tiles), style), Outside, side);
    }
  }

  lemma LinesBoth(a: Tokens, b: Tokens)
    ensures Lines(a) + Lines(b) == Lines(a + b)
  {
  }

  lemma {:induction false} OneSidePieces(s: Sources, tiles: seq<Tile>)
    ensures MergePieces(s, tiles, ShowModified) == Lines(ChosenText(s, tiles, Modified))
    ensures MergePieces(s, tiles, ShowLatest) == Lines(ChosenText(s, tiles, Latest))
  {
    hide Slice;
    if tiles != [] {
      var t := Last(tiles);
      OneSidePieces(s, Init(tiles));
      assert TilePieces(s, t, ShowModified) == Lines(Chosen(s, t, Modified));
      assert TilePieces(s, t, ShowLatest) == Lines(Chosen(s, t, Latest));
      LinesBoth(ChosenText(s, Init(tiles), Modified), Chosen(s, t, Modified));
      LinesBoth(ChosenText(s, Init(tiles), Latest), Chosen(s, t, Latest));
    }
  }

  /**
   * Whatever marker style a merge was put out in, settling its conflicts for one side gives the
   * merge put out in the style that shows just that side. With three sections, settling them for
   * "original" undoes both sides there, and keeps every other change.
   */
  lemma {:induction false} SettledMerge(s: Sources, tiles: seq<Tile>, style: Style)
    requires Diff3(s, tiles) && HasMarkers(style)
    ensures Lines(Settle(MergePieces(s, tiles, style), Outside, Modified)) == MergePieces(s, tiles, ShowModified)
    ensures Lines(Settle(MergePieces(s, tiles, style), Outside, Latest)) == MergePieces(s, tiles, ShowLatest)
    ensures CanSettle(style, Original) ==>
              Settle(MergePieces(s, tiles, style), Outside, Original) == ChosenText(s, tiles, Original)
    ensures forall i, side :: 0 <= i < |tiles| ==> FollowsThreeWay(s, tiles[i], side)
  {
    hide Settle, MergePieces, ChosenText, LinedUp;
    LinedUpIsWellFormed(s, tiles, 0, 0, 0);
    if CanSettle(style, Original) {
      SettleTiles(s, tiles, style, Original);
    }
    SettleTiles(s, tiles, style, Modified);
    SettleTiles(s, tiles, style, Latest);
    OneSidePieces(s, tiles);
  }

  function Conflicts(tiles: seq<Tile>): seq<Tile> {
    if tiles == [] then []
    else Conflicts(Init(tiles)) + if Last(tiles).kind.Conflict? then [Last(tiles)] else []
  }

  /** Showing only conflicts is showing the conflicts, and them alone, with three sections. */
  lemma {:induction false} OnlyConflictsShown(s: Sources, tiles: seq<Tile>)
    requires WellFormed(s, tiles)
    ensures WellFormed(s, Conflicts(tiles))
    ensures MergePieces(s, tiles, ShowOnlyConflicts) == MergePieces(s, Conflicts(tiles), ShowModifiedOriginalLatest)
  {
    hide Agrees, Slice, ThreeSides;
    if tiles != [] {
      OnlyConflictsShown(s, Init(tiles));
      assert Last(tiles) == tiles[|tiles| - 1];
      var conflicts := Conflicts(Init(tiles));
      assert Init(conflicts + [Last(tiles)]) == conflicts && conflicts + [] == conflicts;
      var pieces := MergePieces(s, Init(tiles), ShowOnlyConflicts);
      assert pieces + [] == pieces;
    }
  }

  /** Settling them for any of the three sides gives that side's ranges of the conflicts. */
  lemma {:induction false} SettledConflicts(s: Sources, tiles: seq<Tile>, side: Side)
    requires Diff3(s, tiles)
    ensures Settle(MergePieces(s, tiles, ShowOnlyConflicts), Outside, side) == KeepSide(s, Conflicts(tiles), side)
  {
    hide Settle, MergePieces, KeepSide, LinedUp, WellFormed;
    LinedUpIsWellFormed(s, tiles, 0, 0, 0);
    OnlyConflictsShown(s, tiles);
    SettleTiles(s, Conflicts(tiles), ShowModifiedOriginalLatest, side);
    ConflictsChosen(s, tiles, side);
  }

  lemma {:induction false} ConflictsChosen(s: Sources, tiles: seq<Tile>, side: Side)
    ensures ChosenText(s, Conflicts(tiles), side) == KeepSide(s, Conflicts(tiles), side)
  {
    hide Slice;
    if tiles != [] {
      ConflictsChosen(s, Init(tiles), side);
      var conflicts := Conflicts(Init(tiles));
      assert Init(conflicts + [Last(tiles)]) == conflicts && conflicts + [] == conflicts;
      if Last(tiles).kind.Conflict? {
        KeepSideLast(s, Conflicts(tiles), side);
      }
    }
  }

  // ------------------------------------------------------ merging with nothing to merge

  /** The ranges of two sources are the same in every tile. */
  ghost predicate InStep(tiles: seq<Tile>, a: Side, b: Side) {
    forall i :: 0 <= i < |tiles| ==> RangeOf(tiles[i], a) == RangeOf(tiles[i], b)
  }

  lemma {:induction false} KeepSideLast(s: Sources, tiles: seq<Tile>, side: Side)
    requires tiles != []
    ensures KeepSide(s, tiles, side) ==
            KeepSide(s, Init(tiles), side) + Slice(Source(s, side), RangeOf(Last(tiles), side))
  {
    hide Slice;
    if |tiles| == 1 {
      assert Init(tiles) == [] == tiles[1..];
    } else {
      KeepSideLast(s, tiles[1..], side);
      assert Init(tiles)[1..] == Init(tiles[1..]) && Last(tiles[1..]) == Last(tiles);
    }
  }

  /** Where the tile would take the change of the other side, the other side has none. */
  predicate OtherUntouched(s: Sources, t: Tile, side: Side) {
    && (side.Modified? && t.kind.DiffLatest? ==> Slice(s.latest, t.latest) == Slice(s.original, t.original))
    && (side.Latest? && t.kind.DiffModified? ==> Slice(s.modified, t.modified) == Slice(s.original, t.original))
  }

  /** A tile contributes the text of a side exactly if the other side has no change to contribute. */
  lemma TileKeepsSide(s: Sources, t: Tile, side: Side)
    requires Agrees(s, t) && !side.Original?
    ensures Chosen(s, t, side) == Slice(Source(s, side), RangeOf(t, side)) <==> OtherUntouched(s, t, side)
  {
    hide LinedUpParts;
  }

  ghost predicate AllUntouched(s: Sources, tiles: seq<Tile>, side: Side) {
    forall i :: 0 <= i < |tiles| ==> OtherUntouched(s, tiles[i], side)
  }

  /** If that holds of every tile, settling for the side keeps all of it. */
  lemma {:induction false} ChosenIsSide(s: Sources, tiles: seq<Tile>, side: Side)
    requires WellFormed(s, tiles) && AllUntouched(s, tiles, side) && !side.Original?
    ensures ChosenText(s, tiles, side) == KeepSide(s, tiles, side)
  {
    hide Agrees, OtherUntouched, Slice, Chosen;
    if tiles != [] {
      ChosenIsSide(s, Init(tiles), side);
      KeepSideLast(s, tiles, side);
      assert Last(tiles) == tiles[|tiles| - 1];
      TileKeepsSide(s, Last(tiles), side);
    }
  }

  /** A side that is the original, and in step with it, is untouched in every tile. */
  lemma InStepIsUntouched(s: Sources, tiles: seq<Tile>, same: Side, other: Side)
    requires {same, other} == {Modified, Latest} && same != other
    requires Source(s, same) == s.original && InStep(tiles, Original, same)
    ensures AllUntouched(s, tiles, other)
  {
    forall i | 0 <= i < |tiles|
      ensures OtherUntouched(s, tiles[i], other)
    {
      assert RangeOf(tiles[i], Original) == RangeOf(tiles[i], same);
    }
  }

  ghost predicate OnlyLines(pieces: seq<Piece>) {
    forall i :: 0 <= i < |pieces| ==> pieces[i].Line?
  }

  /** The tile is put out with markers: a conflict, unless all its resolved parts are the same. */
  ghost predicate Marked(t: Tile, style: Style) {
    t.kind.Conflict? && (style.ShowResolved? && t.kind.resolved != [] ==> !AllSame(t.kind.resolved))
  }

  ghost predicate AllSame(parts: seq<Part>) {
    forall i :: 0 <= i < |parts| ==> parts[i].same
  }

  lemma OnlyLinesBoth(a: seq<Piece>, b: seq<Piece>)
    ensures OnlyLines(a + b) <==> OnlyLines(a) && OnlyLines(b)
  {
    if OnlyLines(a + b) {
      assert forall i :: 0 <= i < |a| ==> (a + b)[i] == a[i];
      assert forall i :: 0 <= i < |b| ==> (a + b)[|a| + i] == b[i];
    }
  }

  lemma {:induction false} PartsMarked(s: Sources, parts: seq<Part>)
    ensures OnlyLines(PartsPieces(s, parts)) <==> AllSame(parts)
  {
    hide OnlyLines, PartPieces, AllSame;
    AllSameLast(parts);
    if parts == [] {
      NoLines();
    } else {
      PartsMarked(s, Init(parts));
      OnlyLinesBoth(PartsPieces(s, Init(parts)), PartPieces(s, Last(parts)));
      PartMarked(s, Last(parts));
    }
  }

  lemma AllSameLast(parts: seq<Part>)
    ensures AllSame([])
    ensures parts != [] ==> (AllSame(parts) <==> AllSame(Init(parts)) && Last(parts).same)
  {
    if parts != [] && AllSame(Init(parts)) {
      assert forall i :: 0 <= i < |parts| - 1 ==> Init(parts)[i] == parts[i];
    }
  }

  lemma NoLines()
    ensures OnlyLines([])
  {
  }

  lemma SidesMarked(m: Tokens, o: Tokens, l: Tokens)
    ensures !OnlyLines(TwoSides(m, l)) && !OnlyLines(ThreeSides(m, o, l)) && OnlyLines(Lines(m))
  {
    assert TwoSides(m, l)[0] == OpenModified && ThreeSides(m, o, l)[0] == OpenModified;
  }

  lemma PartMarked(s: Sources, p: Part)
    ensures OnlyLines(PartPieces(s, p)) <==> p.same
  {
    hide OnlyLines, TwoSides, Lines, Slice;
    SidesMarked(Slice(s.modified, p.modified), [], Slice(s.latest, p.latest));
  }

  lemma TileMarked(s: Sources, t: Tile, style: Style)
    requires HasMarkers(style)
    ensures OnlyLines(TilePieces(s, t, style)) <==> !Marked(t, style)
  {
    hide OnlyLines, TwoSides, ThreeSides, Lines, Slice, PartsPieces, AllSame;
    var o, m, l := Slice(s.original, t.original), Slice(s.modified, t.modified), Slice(s.latest, t.latest);
    SidesMarked(m, o, l);
    SidesMarked(l, o, l);
    if t.kind.Conflict? {
      PartsMarked(s, t.kind.resolved);
    }
  }

  lemma {:induction false} MergeMarked(s: Sources, tiles: seq<Tile>, style: Style)
    requires HasMarkers(style)
    ensures OnlyLines(MergePieces(s, tiles, style)) <==> forall i :: 0 <= i < |tiles| ==> !Marked(tiles[i], style)
  {
    hide OnlyLines, TilePieces, Marked;
    if tiles == [] {
      NoLines();
    } else {
      MergeMarked(s, Init(tiles), style);
      OnlyLinesBoth(MergePieces(s, Init(tiles), style), TilePieces(s, Last(tiles), style));
      TileMarked(s, Last(tiles), style);
      assert Last(tiles) == tiles[|tiles| - 1];
      assert forall i :: 0 <= i < |Init(tiles)| ==> Init(tiles)[i] == tiles[i];
    }
  }

  /** A text without markers has nothing to settle. */
  lemma {:induction false} LinesSettle(pieces: seq<Piece>, side: Side)
    requires OnlyLines(pieces)
    ensures pieces == Lines(Settle(pieces, Outside, side))
  {
    if pieces != [] {
      var rest := Settle(pieces[1..], Outside, side);
      assert forall i :: 0 <= i < |pieces[1..]| ==> pieces[1..][i] == pieces[i + 1];
      LinesSettle(pieces[1..], side);
      assert pieces[0].Line?;
      LinesBoth([pieces[0].token], rest);
      assert Lines([pieces[0].token]) == [pieces[0]];
      assert pieces == [pieces[0]] + pieces[1..];
    }
  }

  lemma LinesAreOnlyLines(tokens: Tokens)
    ensures OnlyLines(Lines(tokens))
  {
  }

  /**
   * If no tile takes a change of the other side, settling a merge for a side gives that side; and
   * the merge is that side exactly if no conflict is put out with markers.
   */
  lemma {:induction false} MergeKeepsSide(s: Sources, tiles: seq<Tile>, style: Style, side: Side)
    requires Diff3(s, tiles) && HasMarkers(style) && !side.Original? && AllUntouched(s, tiles, side)
    ensures Settle(MergePieces(s, tiles, style), Outside, side) == Source(s, side)
    ensures MergePieces(s, tiles, style) == Lines(Source(s, side)) <==>
            forall i :: 0 <= i < |tiles| ==> !Marked(tiles[i], style)
  {
    hide Settle, MergePieces, ChosenText, KeepSide, LinedUp, WellFormed, OnlyLines, Marked, Lines, AllUntouched;
    LinedUpIsWellFormed(s, tiles, 0, 0, 0);
    SettleTiles(s, tiles, style, side);
    ChosenIsSide(s, tiles, side);
    KeepingOneSide(s, tiles, side);
    MergeMarked(s, tiles, style);
    if OnlyLines(MergePieces(s, tiles, style)) {
      LinesSettle(MergePieces(s, tiles, style), side);
    }
    LinesAreOnlyLines(Source(s, side));
  }

  /** Tiles that are not all so may add up to the side by accident. */
  lemma KeptByAccident() returns (s: Sources, tiles: seq<Tile>)
    ensures Diff3(s, tiles) && !AllUntouched(s, tiles, Modified)
    ensures Settle(MergePieces(s, tiles, ShowModifiedLatest), Outside, Modified) == s.modified
  {
    var a := Token("a");
    s := Sources([a], [a], [a]);
    var t0 := Tile(DiffLatest, Range(0, 1), Range(0, 1), Range(0, 0));
    var t1 := Tile(DiffLatest, Range(1, 0), Range(1, 0), Range(0, 1));
    tiles := [t0, t1];
    assert Slice(s.original, t0.original) == [a] == Slice(s.modified, t0.modified);
    assert Slice(s.latest, t0.latest) == [] && Slice(s.latest, t1.latest) == [a];
    assert !OtherUntouched(s, tiles[0], Modified);
    TwoLinedUp(s, t0, t1);
    LinedUpIsWellFormed(s, tiles, 0, 0, 0);
    SettleTiles(s, tiles, ShowModifiedLatest, Modified);
    TwoChosen(s, t0, t1, Modified);
    assert Chosen(s, t0, Modified) == [] && Chosen(s, t1, Modified) == [a];
  }

  lemma {:induction false} TwoChosen(s: Sources, t0: Tile, t1: Tile, side: Side)
    ensures ChosenText(s, [t0, t1], side) == Chosen(s, t0, side) + Chosen(s, t1, side)
  {
    hide Chosen;
    assert Init([t0, t1]) == [t0] && Init([t0]) == [];
    assert ChosenText(s, [t0], side) == Chosen(s, t0, side);
  }

  lemma TwoLinedUp(s: Sources, t0: Tile, t1: Tile)
    requires t0.original.start == 0 && t0.modified.start == 0 && t0.latest.start == 0
    requires t1.original.start == t0.original.End() && t1.modified.start == t0.modified.End()
    requires t1.latest.start == t0.latest.End()
    requires t1.original.End() == |s.original| && t1.modified.End() == |s.modified| && t1.latest.End() == |s.latest|
    requires Agrees(s, t0) && Agrees(s, t1) && InBounds(s, t0)
    ensures Diff3(s, [t0, t1])
  {
    hide Agrees;
    assert [t0, t1][1..] == [t1] && [t1][1..] == [];
    assert LinedUp(s, [t1], t1.original.start, t1.modified.start, t1.latest.start);
  }

  /** So it is when one side is the original, and in step with it. */
  lemma {:induction false} NothingToMerge(s: Sources, tiles: seq<Tile>, style: Style, same: Side, other: Side)
    requires Diff3(s, tiles) && HasMarkers(style)
    requires {same, other} == {Modified, Latest} && same != other
    requires Source(s, same) == s.original && InStep(tiles, Original, same)
    ensures Settle(MergePieces(s, tiles, style), Outside, other) == Source(s, other)
    ensures MergePieces(s, tiles, style) == Lines(Source(s, other)) <==>
            forall i :: 0 <= i < |tiles| ==> !Marked(tiles[i], style)
  {
    hide Settle, MergePieces, LinedUp, Marked, Lines, InStep, AllUntouched;
    InStepIsUntouched(s, tiles, same, other);
    MergeKeepsSide(s, tiles, style, other);
  }

  /**
   * Out of step, the stated equalities alone do not give that: the ranges line up and "latest" is
   * "original", yet the merge is not "modified".
   */
  lemma OutOfStep() returns (s: Sources, tiles: seq<Tile>)
    ensures Diff3(s, tiles) && s.latest == s.original && !HasConflict(tiles)
    ensures MergePieces(s, tiles, ShowModifiedLatest) != Lines(s.modified)
  {
    hide *;
    var a, y := Token("a"), Token("y");
    s := Sources([a, a], [a, y], [a, a]);
    var t0 := Tile(DiffLatest, Range(0, 1), Range(0, 1), Range(0, 0));
    var t1 := Tile(DiffModified, Range(1, 1), Range(1, 1), Range(0, 1));
    var t2 := Tile(DiffLatest, Range(2, 0), Range(2, 0), Range(1, 1));
    tiles := [t0, t1, t2];
    OutOfStepTiles(s, a, y, t0, t1, t2);
  }

  lemma {:induction false} OutOfStepTiles(s: Sources, a: Token, y: Token, t0: Tile, t1: Tile, t2: Tile)
    requires a != y && s.original == s.latest == [a, a] && s.modified == [a, y]
    requires t0 == Tile(DiffLatest, Range(0, 1), Range(0, 1), Range(0, 0))
    requires t1 == Tile(DiffModified, Range(1, 1), Range(1, 1), Range(0, 1))
    requires t2 == Tile(DiffLatest, Range(2, 0), Range(2, 0), Range(1, 1))
    ensures Diff3(s, [t0, t1, t2]) && !HasConflict([t0, t1, t2])
    ensures MergePieces(s, [t0, t1, t2], ShowModifiedLatest) != Lines(s.modified)
  {
    hide *;
    OutOfStepDiff(s, t0, t1, t2);
    OutOfStepText(s, a, y, t0, t1, t2);
  }

  lemma OutOfStepDiff(s: Sources, t0: Tile, t1: Tile, t2: Tile)
    requires |s.original| == |s.modified| == |s.latest| == 2
    requires s.original[0] == s.modified[0] && s.original[1] == s.latest[0]
    requires t0 == Tile(DiffLatest, Range(0, 1), Range(0, 1), Range(0, 0))
    requires t1 == Tile(DiffModified, Range(1, 1), Range(1, 1), Range(0, 1))
    requires t2 == Tile(DiffLatest, Range(2, 0), Range(2, 0), Range(1, 1))
    ensures Diff3(s, [t0, t1, t2]) && !HasConflict([t0, t1, t2])
  {
    hide LinedUp, Agrees, Diff3, HasConflict, InBounds;
    NoneConflicts(t0, t1, t2);
    OutOfStepAgrees(s, t0, t1, t2);
    ThreeLinedUp(s, t0, t1, t2);
  }

  lemma {:induction false} OutOfStepText(s: Sources, a: Token, y: Token, t0: Tile, t1: Tile, t2: Tile)
    requires a != y && |s.original| == |s.modified| == |s.latest| == 2
    requires s.original[0] == s.original[1] == s.latest[0] == s.latest[1] == s.modified[0] == a && s.modified[1] == y
    requires t0 == Tile(DiffLatest, Range(0, 1), Range(0, 1), Range(0, 0))
    requires t1 == Tile(DiffModified, Range(1, 1), Range(1, 1), Range(0, 1))
    requires t2 == Tile(DiffLatest, Range(2, 0), Range(2, 0), Range(1, 1))
    ensures MergePieces(s, [t0, t1, t2], ShowModifiedLatest) != Lines(s.modified)
  {
    hide LinedUp, Agrees, TilePieces, MergePieces;
    Pieces0(s, t0);
    Pieces1(s, t1);
    Pieces2(s, t2);
    ThreePieces(s, t0, t1, t2, ShowModifiedLatest);
    assert MergePieces(s, [t0, t1, t2], ShowModifiedLatest)[0] == Line(y);
    assert Lines(s.modified)[0] == Line(a);
  }

  lemma Pieces0(s: Sources, t: Tile)
    requires |s.original| == |s.modified| == |s.latest| == 2 && s.original[0] == s.modified[0]
    requires t == Tile(DiffLatest, Range(0, 1), Range(0, 1), Range(0, 0))
    ensures Agrees(s, t) && TilePieces(s, t, ShowModifiedLatest) == Lines([])
  {
    StepTile(s, t, [s.original[0]], []);
  }

  lemma Pieces1(s: Sources, t: Tile)
    requires |s.original| == |s.modified| == |s.latest| == 2 && s.original[1] == s.latest[0]
    requires t == Tile(DiffModified, Range(1, 1), Range(1, 1), Range(0, 1))
    ensures Agrees(s, t) && TilePieces(s, t, ShowModifiedLatest) == Lines([s.modified[1]])
  {
    ModifiedTile(s, t, [s.original[1]], [s.modified[1]]);
  }

  lemma Pieces2(s: Sources, t: Tile)
    requires |s.original| == |s.modified| == |s.latest| == 2
    requires t == Tile(DiffLatest, Range(2, 0), Range(2, 0), Range(1, 1))
    ensures Agrees(s, t) && TilePieces(s, t, ShowModifiedLatest) == Lines([s.latest[1]])
  {
    StepTile(s, t, [], [s.latest[1]]);
  }

  lemma StepTile(s: Sources, t: Tile, o: Tokens, l: Tokens)
    requires t.kind.DiffLatest? && InBounds(s, t)
    requires o == s.original[t.original.start..t.original.End()] == s.modified[t.modified.start..t.modified.End()]
    requires l == s.latest[t.latest.start..t.latest.End()]
    ensures Agrees(s, t) && TilePieces(s, t, ShowModifiedLatest) == Lines(l)
  {
  }

  lemma ModifiedTile(s: Sources, t: Tile, o: Tokens, m: Tokens)
    requires t.kind.DiffModified? && InBounds(s, t)
    requires o == s.original[t.original.start..t.original.End()] == s.latest[t.latest.start..t.latest.End()]
    requires m == s.modified[t.modified.start..t.modified.End()]
    ensures Agrees(s, t) && TilePieces(s, t, ShowModifiedLatest) == Lines(m)
  {
  }

  lemma OutOfStepAgrees(s: Sources, t0: Tile, t1: Tile, t2: Tile)
    requires |s.original| == |s.modified| == |s.latest| == 2
    requires s.original[0] == s.modified[0] && s.original[1] == s.latest[0]
    requires t0 == Tile(DiffLatest, Range(0, 1), Range(0, 1), Range(0, 0))
    requires t1 == Tile(DiffModified, Range(1, 1), Range(1, 1), Range(0, 1))
    requires t2 == Tile(DiffLatest, Range(2, 0), Range(2, 0), Range(1, 1))
    ensures Agrees(s, t0) && Agrees(s, t1) && Agrees(s, t2) && InBounds(s, t0) && InBounds(s, t1)
  {
    hide Lines, Agrees, TilePieces;
    Pieces0(s, t0);
    Pieces1(s, t1);
    Pieces2(s, t2);
  }

  lemma NoneConflicts(t0: Tile, t1: Tile, t2: Tile)
    requires !t0.kind.Conflict? && !t1.kind.Conflict? && !t2.kind.Conflict?
    ensures !HasConflict([t0, t1, t2])
  {
  }

  lemma ThreeLinedUp(s: Sources, t0: Tile, t1: Tile, t2: Tile)
    requires t2.original.start == t1.original.End() && t2.modified.start == t1.modified.End()
    requires t2.latest.start == t1.latest.End()
    requires t2.original.End() == |s.original| && t2.modified.End() == |s.modified| && t2.latest.End() == |s.latest|
    requires Agrees(s, t2)
    requires t0.original.start == 0 && t0.modified.start == 0 && t0.latest.start == 0
    requires t1.original.start == t0.original.End() && t1.modified.start == t0.modified.End()
    requires t1.latest.start == t0.latest.End()
    requires Agrees(s, t0) && Agrees(s, t1) && InBounds(s, t0) && InBounds(s, t1)
    ensures Diff3(s, [t0, t1, t2])
  {
    hide Agrees;
    assert [t0, t1, t2][1..] == [t1, t2] && [t1, t2][1..] == [t2] && [t2][1..] == [];
    assert LinedUp(s, [t2], t2.original.start, t2.modified.start, t2.latest.start);
    assert LinedUp(s, [t1, t2], t1.original.start, t1.modified.start, t1.latest.start);
  }

  lemma {:induction false} ThreePieces(s: Sources, t0: Tile, t1: Tile, t2: Tile, style: Style)
    ensures MergePieces(s, [t0, t1, t2], style) ==
            TilePieces(s, t0, style) + TilePieces(s, t1, style) + TilePieces(s, t2, style)
  {
    hide TilePieces;
    assert Init([t0, t1, t2]) == [t0, t1] && Init([t0, t1]) == [t0] && Init([t0]) == [];
    assert MergePieces(s, [t0], style) == TilePieces(s, t0, style);
  }

  // ----------------------------------------------------------------- no differences

  /** If every tile is common to all, the three sources are the same. */
  lemma {:induction false} NoDifferences(s: Sources, tiles: seq<Tile>)
    requires WellFormed(s, tiles) && forall i :: 0 <= i < |tiles| ==> tiles[i].kind.CommonToAll?
    ensures KeepSide(s, tiles, Original) == KeepSide(s, tiles, Modified) == KeepSide(s, tiles, Latest)
  {
    hide Slice;
    if tiles != [] {
      assert forall i :: 0 <= i < |tiles[1..]| ==> tiles[1..][i] == tiles[i + 1];
      NoDifferences(s, tiles[1..]);
      assert Agrees(s, tiles[0]);
    }
  }

  method ContainsDiffs(s: Sources, tiles: seq<Tile>) returns (r: bool)
    requires Diff3(s, tiles)
    ensures !r ==> s.original == s.modified == s.latest
    ensures r <==> exists i :: 0 <= i < |tiles| && !tiles[i].kind.CommonToAll?
  {
    hide LinedUp, WellFormed;
    for i := 0 to |tiles|
      invariant forall j :: 0 <= j < i ==> tiles[j].kind.CommonToAll?
    {
      if !tiles[i].kind.CommonToAll? {
        return true;
      }
    }
    LinedUpIsWellFormed(s, tiles, 0, 0, 0);
    NoDifferences(s, tiles);
    KeepingOneSide(s, tiles, Original);
    KeepingOneSide(s, tiles, Modified);
    KeepingOneSide(s, tiles, Latest);
    r := false;
  }
}
