/** Reading a merged text back: its plain lines, and the sections of each conflict. */
module MergeSections {
  import opened Common
  import opened Merge3

  /** A section of a conflict: the marker that begins it, and its lines. */
  datatype Section = Section(marker: Piece, tokens: Tokens)

  datatype Item = Plain(token: Token) | Conflicted(sections: seq<Section>)

  /**
   * Reads a text whose conflicts are well-formed. `open` holds the sections read so far of the
   * conflict that is open, if one is.
   */
  function Read(pieces: seq<Piece>, open: Option<seq<Section>>): Option<seq<Item>>
    decreases |pieces|
  {
    if pieces == [] then if open.None? then Some([]) else None
    else
      var p, rest := pieces[0], pieces[1..];
      match open
      case None =>
        if p.Line? then Before(Plain(p.token), Read(rest, None))
        else if p.OpenModified? then Read(rest, Some([Section(p, [])]))
        else None
      case Some(sections) =>
        if p.Line? then if sections == [] then None else Read(rest, Some(WithLine(sections, p.token)))
        else if p.OpenModified? then None
        else if p.CloseLatest? then Before(Conflicted(sections), Read(rest, None))
        else Read(rest, Some(sections + [Section(p, [])]))
  }

  function Before(item: Item, rest: Option<seq<Item>>): Option<seq<Item>> {
    match rest case None => None case Some(items) => Some([item] + items)
  }

  function WithLine(sections: seq<Section>, token: Token): seq<Section>
    requires sections != []
  {
    Init(sections) + [Section(Last(sections).marker, Last(sections).tokens + [token])]
  }

  function PlainLines(tokens: Tokens): (r: seq<Item>)
    ensures |r| == |tokens| && forall i :: 0 <= i < |r| ==> r[i] == Plain(tokens[i])
  {
    seq(|tokens|, i requires 0 <= i < |tokens| => Plain(tokens[i]))
  }

  // ------------------------------------------------------------- reading pieces

  /** What can be read to its end can be read before more. */
  lemma {:induction false} ReadBoth(a: seq<Piece>, b: seq<Piece>, open: Option<seq<Section>>)
    requires Read(a, open).Some? && Read(b, None).Some?
    ensures Read(a + b, open) == Some(Read(a, open).value + Read(b, None).value)
    decreases |a|
  {
    if a == [] {
      assert a + b == b;
      assert [] + Read(b, None).value == Read(b, None).value;
    } else {
      assert (a + b)[0] == a[0] && (a + b)[1..] == a[1..] + b;
      var p, rest := a[0], a[1..];
      if open.None? && p.Line? {
        ReadBoth(rest, b, None);
        assert [Plain(p.token)] + (Read(rest, None).value + Read(b, None).value)
            == [Plain(p.token)] + Read(rest, None).value + Read(b, None).value;
      } else if open.None? {
        ReadBoth(rest, b, Some([Section(p, [])]));
      } else if p.Line? {
        ReadBoth(rest, b, Some(WithLine(open.value, p.token)));
      } else if p.CloseLatest? {
        ReadBoth(rest, b, None);
        assert [Conflicted(open.value)] + (Read(rest, None).value + Read(b, None).value)
            == [Conflicted(open.value)] + Read(rest, None).value + Read(b, None).value;
      } else {
        ReadBoth(rest, b, Some(open.value + [Section(p, [])]));
      }
    }
  }

  lemma {:induction false} ReadPlain(tokens: Tokens)
    ensures Read(Lines(tokens), None) == Some(PlainLines(tokens))
  {
    if tokens == [] {
      assert Lines(tokens) == [] && PlainLines(tokens) == [];
    } else {
      ReadPlain(tokens[1..]);
      assert Lines(tokens)[1..] == Lines(tokens[1..]);
      assert PlainLines(tokens) == [Plain(tokens[0])] + PlainLines(tokens[1..]);
    }
  }

  /** Lines go to the section that is open. */
  lemma {:induction false} ReadSection(
      before: seq<Section>, marker: Piece, got: Tokens, tokens: Tokens, rest: seq<Piece>)
    ensures Read(Lines(tokens) + rest, Some(before + [Section(marker, got)]))
         == Read(rest, Some(before + [Section(marker, got + tokens)]))
    decreases |tokens|
  {
    var pieces := Lines(tokens) + rest;
    if tokens == [] {
      assert pieces == rest && got + tokens == got;
    } else {
      var sections := before + [Section(marker, got)];
      assert pieces[0] == Line(tokens[0]) && pieces[1..] == Lines(tokens[1..]) + rest;
      assert Init(sections) == before;
      ReadSection(before, marker, got + [tokens[0]], tokens[1..], rest);
      assert got + [tokens[0]] + tokens[1..] == got + tokens;
    }
  }

  /** The next section begins. */
  lemma {:induction false} ReadMarker(sections: seq<Section>, marker: Piece, tokens: Tokens, rest: seq<Piece>)
    requires marker.OpenOriginal? || marker.Separator?
    ensures Read([marker] + (Lines(tokens) + rest), Some(sections))
         == Read(rest, Some(sections + [Section(marker, tokens)]))
  {
    var pieces := [marker] + (Lines(tokens) + rest);
    assert pieces[0] == marker && pieces[1..] == Lines(tokens) + rest;
    ReadSection(sections, marker, [], tokens, rest);
    assert [] + tokens == tokens;
  }

  lemma {:induction false} ReadOpening(tokens: Tokens, rest: seq<Piece>)
    ensures Read([OpenModified] + (Lines(tokens) + rest), None)
         == Read(rest, Some([Section(OpenModified, tokens)]))
  {
    var pieces := [OpenModified] + (Lines(tokens) + rest);
    assert pieces[0] == OpenModified && pieces[1..] == Lines(tokens) + rest;
    ReadSection([], OpenModified, [], tokens, rest);
    assert [] + tokens == tokens && [] + [Section(OpenModified, [])] == [Section(OpenModified, [])];
    assert [] + [Section(OpenModified, tokens)] == [Section(OpenModified, tokens)];
  }

  lemma {:induction false} ReadClosing(sections: seq<Section>)
    ensures Read([CloseLatest], Some(sections)) == Some([Conflicted(sections)])
  {
    var pieces := [CloseLatest];
    assert pieces[1..] == [] && Read(pieces[1..], None) == Some([]);
    assert pieces[0].CloseLatest? && [Conflicted(sections)] + [] == [Conflicted(sections)];
  }

  lemma {:induction false} ReadTwoSides(m: Tokens, l: Tokens)
    ensures Read(TwoSides(m, l), None) == Some([Conflicted([Section(OpenModified, m), Section(Separator, l)])])
  {
    hide Read, Lines;
    var tail := [Separator] + (Lines(l) + [CloseLatest]);
    assert TwoSides(m, l) == [OpenModified] + (Lines(m) + tail);
    ReadOpening(m, tail);
    ReadMarker([Section(OpenModified, m)], Separator, l, [CloseLatest]);
    var sections := [Section(OpenModified, m)] + [Section(Separator, l)];
    ReadClosing(sections);
    assert sections == [Section(OpenModified, m), Section(Separator, l)];
  }

  lemma {:induction false} ReadThreeSides(m: Tokens, o: Tokens, l: Tokens)
    ensures Read(ThreeSides(m, o, l), None)
         == Some([Conflicted([Section(OpenModified, m), Section(OpenOriginal, o), Section(Separator, l)])])
  {
    hide Read, Lines;
    var last := [Separator] + (Lines(l) + [CloseLatest]);
    var tail := [OpenOriginal] + (Lines(o) + last);
    assert ThreeSides(m, o, l) == [OpenModified] + (Lines(m) + tail);
    ReadOpening(m, tail);
    ReadMarker([Section(OpenModified, m)], OpenOriginal, o, last);
    var two := [Section(OpenModified, m)] + [Section(OpenOriginal, o)];
    ReadMarker(two, Separator, l, [CloseLatest]);
    ReadClosing(two + [Section(Separator, l)]);
    assert two + [Section(Separator, l)]
        == [Section(OpenModified, m), Section(OpenOriginal, o), Section(Separator, l)];
  }

  // --------------------------------------------------------------- what is shown

  /** The items that a resolved conflict is to show: each part once, or in two sections. */
  function PartItems(s: Sources, parts: seq<Part>): seq<Item> {
    if parts == [] then []
    else
      PartItems(s, Init(parts)) +
      if Last(parts).same then PlainLines(Slice(s.modified, Last(parts).modified))
      else [Conflicted([
              Section(OpenModified, Slice(s.modified, Last(parts).modified)),
              Section(Separator, Slice(s.latest, Last(parts).latest))])]
  }

  lemma {:induction false} ReadParts(s: Sources, parts: seq<Part>)
    ensures Read(PartsPieces(s, parts), None) == Some(PartItems(s, parts))
  {
    hide Lines, TwoSides, Slice;
    if parts != [] {
      var p := Last(parts);
      ReadParts(s, Init(parts));
      ReadPlain(Slice(s.modified, p.modified));
      ReadTwoSides(Slice(s.modified, p.modified), Slice(s.latest, p.latest));
      ReadBoth(PartsPieces(s, Init(parts)), PartPieces(s, p), None);
    }
  }

  /**
   * What a conflict shows in each style, in this order and nothing else: "modified" and "latest";
   * all three; the parts, if it was resolved in part; or just one side.
   */
  lemma {:induction false} ConflictShows(s: Sources, t: Tile, style: Style)
    requires t.kind.Conflict?
    ensures var o, m, l := Slice(s.original, t.original), Slice(s.modified, t.modified), Slice(s.latest, t.latest);
            var two := Conflicted([Section(OpenModified, m), Section(Separator, l)]);
            var three := Conflicted([Section(OpenModified, m), Section(OpenOriginal, o), Section(Separator, l)]);
            Read(TilePieces(s, t, style), None) == Some(match style
              case ShowModifiedLatest => [two]
              case ShowResolved => if t.kind.resolved == [] then [two] else PartItems(s, t.kind.resolved)
              case ShowModifiedOriginalLatest => [three]
              case ShowOnlyConflicts => [three]
              case ShowModified => PlainLines(m)
              case ShowLatest => PlainLines(l))
  {
    hide Lines, TwoSides, ThreeSides, PartsPieces, PartItems, Read, Slice;
    var o, m, l := Slice(s.original, t.original), Slice(s.modified, t.modified), Slice(s.latest, t.latest);
    ReadTwoSides(m, l);
    ReadThreeSides(m, o, l);
    ReadParts(s, t.kind.resolved);
    ReadPlain(m);
    ReadPlain(l);
  }

  /** Any other tile shows the side that was changed, or whichever if both are alike. */
  lemma {:induction false} TileShows(s: Sources, t: Tile, style: Style)
    requires !t.kind.Conflict?
    ensures Read(TilePieces(s, t, style), None) == Some(
              if style.ShowOnlyConflicts? then []
              else if t.kind == DiffLatest then PlainLines(Slice(s.latest, t.latest))
              else PlainLines(Slice(s.modified, t.modified)))
  {
    hide Lines, Slice;
    ReadPlain(Slice(s.latest, t.latest));
    ReadPlain(Slice(s.modified, t.modified));
  }

  /** The items of the tiles, one tile after the other. */
  function TileItems(s: Sources, tiles: seq<Tile>, style: Style): seq<Item> {
    if tiles == [] then []
    else
      TileItems(s, Init(tiles), style) +
      match Read(TilePieces(s, Last(tiles), style), None) case Some(items) => items case None => []
  }

  /** A merged text shows what its tiles show, one after the other, and nothing between them. */
  lemma {:induction false} MergeShows(s: Sources, tiles: seq<Tile>, style: Style)
    ensures Read(MergePieces(s, tiles, style), None) == Some(TileItems(s, tiles, style))
  {
    hide TilePieces, Slice;
    if tiles == [] {
      assert Read([], None) == Some([]);
    } else {
      var t := Last(tiles);
      MergeShows(s, Init(tiles), style);
      TileReads(s, t, style);
      ReadBoth(MergePieces(s, Init(tiles), style), TilePieces(s, t, style), None);
    }
  }

  lemma TileReads(s: Sources, t: Tile, style: Style)
    ensures Read(TilePieces(s, t, style), None).Some?
  {
    hide TilePieces, Read;
    if t.kind.Conflict? {
      ConflictShows(s, t, style);
    } else {
      TileShows(s, t, style);
    }
  }
}
