/** One hunk of a patch, read as diff text, as original text and as modified text. */
module Hunk {
  import opened Common

  datatype Mark = Context | Minus | Plus

  /** A line of text and its terminator, which the last line of a text may lack. */
  datatype Line = Line(text: string, eol: Option<string>)

  datatype DiffLine = DiffLine(mark: Mark, line: Line)

  function Flip(mark: Mark): Mark {
    match mark case Context => Context case Minus => Plus case Plus => Minus
  }

  function FlipLine(line: DiffLine): DiffLine {
    DiffLine(Flip(line.mark), line.line)
  }

  function Flipped(lines: seq<DiffLine>): (r: seq<DiffLine>)
    ensures |r| == |lines| && forall i :: 0 <= i < |r| ==> r[i] == FlipLine(lines[i])
  {
    seq(|lines|, i requires 0 <= i < |lines| => FlipLine(lines[i]))
  }

  // -------------------------------------------------------------- the three readings

  /** The diff text; reversed, removals are additions and the other way round. */
  function DiffText(lines: seq<DiffLine>, reverse: bool): seq<DiffLine> {
    if reverse then Flipped(lines) else lines
  }

  /** The lines that do not have the mark `left`. */
  function Without(lines: seq<DiffLine>, left: Mark): seq<Line> {
    if lines == [] then []
    else (if lines[0].mark == left then [] else [lines[0].line]) + Without(lines[1..], left)
  }

  function OriginalText(lines: seq<DiffLine>, reverse: bool): seq<Line> {
    Without(lines, if reverse then Minus else Plus)
  }

  function ModifiedText(lines: seq<DiffLine>, reverse: bool): seq<Line> {
    Without(lines, if reverse then Plus else Minus)
  }

  lemma {:induction false} WithoutFlipped(lines: seq<DiffLine>, left: Mark)
    requires !left.Context?
    ensures Without(Flipped(lines), left) == Without(lines, Flip(left))
  {
    if lines != [] {
      assert Flipped(lines)[1..] == Flipped(lines[1..]);
      WithoutFlipped(lines[1..], left);
    }
  }

  /**
   * The original text is the lines at ascending places of the diff text, which are all the places
   * of context and of removed lines; of the modified text, of context and of added lines.
   */
  lemma {:induction false} ReadingPlaces(lines: seq<DiffLine>) returns (original: seq<nat>, modified: seq<nat>)
    ensures ReadAt(OriginalText(lines, false), lines, original)
    ensures ReadAt(ModifiedText(lines, false), lines, modified)
    ensures forall k :: 0 <= k < |lines| ==> (k in original <==> lines[k].mark == Context || lines[k].mark == Minus)
    ensures forall k :: 0 <= k < |lines| ==> (k in modified <==> lines[k].mark == Context || lines[k].mark == Plus)
  {
    original := PlacesWithout(lines, Plus);
    modified := PlacesWithout(lines, Minus);
  }

  /** `text` is the lines at the places `at`, in ascending order. */
  ghost predicate ReadAt(text: seq<Line>, lines: seq<DiffLine>, at: seq<nat>) {
    && |at| == |text|
    && (forall i, j :: 0 <= i < j < |at| ==> at[i] < at[j])
    && (forall i :: 0 <= i < |at| ==> at[i] < |lines| && text[i] == lines[at[i]].line)
  }

  lemma {:induction false} PlacesWithout(lines: seq<DiffLine>, left: Mark) returns (at: seq<nat>)
    ensures ReadAt(Without(lines, left), lines, at)
    ensures forall k :: 0 <= k < |lines| ==> (k in at <==> lines[k].mark != left)
  {
    hide ReadAt;
    if lines == [] {
      at := [];
      NothingRead(lines);
    } else {
      var rest := PlacesWithout(lines[1..], left);
      var later := seq(|rest|, i requires 0 <= i < |rest| => rest[i] + 1);
      ReadLater(Without(lines[1..], left), lines, rest, later);
      if lines[0].mark == left {
        at := later;
        assert [] + Without(lines[1..], left) == Without(lines[1..], left);
      } else {
        at := [0] + later;
        ReadFirst(Without(lines[1..], left), lines, later);
      }
      forall k | 0 <= k < |lines|
        ensures k in at <==> lines[k].mark != left
      {
        assert k > 0 ==> lines[1..][k - 1] == lines[k];
      }
    }
  }

  lemma NothingRead(lines: seq<DiffLine>)
    ensures ReadAt([], lines, [])
  {
  }

  lemma ReadLater(text: seq<Line>, lines: seq<DiffLine>, rest: seq<nat>, later: seq<nat>)
    requires lines != [] && ReadAt(text, lines[1..], rest) && |later| == |rest|
    requires forall i :: 0 <= i < |rest| ==> later[i] == rest[i] + 1
    ensures ReadAt(text, lines, later) && 0 !in later
    ensures forall k :: 1 <= k < |lines| ==> (k in later <==> k - 1 in rest)
  {
    forall k | 1 <= k < |lines|
      ensures k in later <==> k - 1 in rest
    {
      if k - 1 in rest {
        var i :| 0 <= i < |rest| && rest[i] == k - 1;
        assert later[i] == k;
      }
    }
  }

  lemma ReadFirst(text: seq<Line>, lines: seq<DiffLine>, later: seq<nat>)
    requires lines != [] && ReadAt(text, lines, later) && 0 !in later
    ensures ReadAt([lines[0].line] + text, lines, [0] + later)
    ensures forall k: nat :: k in [0] + later <==> k == 0 || k in later
  {
    assert forall i :: 0 <= i < |later| ==> later[i] in later;
  }

  /** The diff text in reverse: added lines are removed ones, and the other way round. */
  lemma ReversedMarks(lines: seq<DiffLine>, k: nat)
    requires k < |lines|
    ensures var r := DiffText(lines, true);
            && |r| == |lines| && r[k].line == lines[k].line
            && (r[k].mark == Context <==> lines[k].mark == Context)
            && (r[k].mark == Plus <==> lines[k].mark == Minus)
            && DiffText(lines, false) == lines
  {
  }

  /** A reversed hunk reads like the hunk of the reversed diff text: the two texts change places. */
  lemma ReversedReadings(lines: seq<DiffLine>, reverse: bool)
    ensures OriginalText(lines, reverse) == OriginalText(DiffText(lines, reverse), false)
    ensures ModifiedText(lines, reverse) == ModifiedText(DiffText(lines, reverse), false)
    ensures OriginalText(lines, reverse) == ModifiedText(lines, !reverse)
  {
    WithoutFlipped(lines, Plus);
    WithoutFlipped(lines, Minus);
  }

  // ----------------------------------------------------------------------- patching

  /** Goes along a text by the diff lines: those not added must be there, and only context stays. */
  function Patch(text: seq<Line>, lines: seq<DiffLine>): Option<seq<Line>> {
    if lines == [] then if text == [] then Some([]) else None
    else if lines[0].mark.Plus? then Prefixed(lines[0].line, Patch(text, lines[1..]))
    else if text == [] || text[0] != lines[0].line then None
    else if lines[0].mark.Minus? then Patch(text[1..], lines[1..])
    else Prefixed(lines[0].line, Patch(text[1..], lines[1..]))
  }

  function Prefixed(line: Line, rest: Option<seq<Line>>): Option<seq<Line>> {
    match rest case None => None case Some(lines) => Some([line] + lines)
  }

  /** The diff text turns the original text into the modified text, and applies to nothing else. */
  lemma {:induction false} PatchIsReplacement(text: seq<Line>, lines: seq<DiffLine>)
    ensures Patch(text, lines) ==
            if text == OriginalText(lines, false) then Some(ModifiedText(lines, false)) else None
    decreases |lines|
  {
    if lines != [] {
      var line, rest := lines[0], lines[1..];
      var original := Without(rest, Plus);
      if line.mark.Plus? {
        PatchIsReplacement(text, rest);
      } else if text == [] || text[0] != line.line {
        assert ([line.line] + original)[0] == line.line;
        assert text != [line.line] + original;
        assert Patch(text, lines) == None;
      } else {
        PatchIsReplacement(text[1..], rest);
        assert text == [line.line] + text[1..];
        assert ([line.line] + original)[1..] == original;
        assert text == [line.line] + original <==> text[1..] == original;
        assert [] + Without(rest, Minus) == Without(rest, Minus);
      }
    }
  }

  /** What a hunk changed, the same hunk in reverse changes back. */
  lemma {:induction false} ReversePatchUndoes(text: seq<Line>, lines: seq<DiffLine>)
    requires Patch(text, lines).Some?
    ensures Patch(Patch(text, lines).value, DiffText(lines, true)) == Some(text)
  {
    PatchIsReplacement(text, lines);
    PatchIsReplacement(Patch(text, lines).value, DiffText(lines, true));
    ReversedReadings(lines, true);
    ReversedReadings(lines, false);
  }

  // ---------------------------------------------------------------------- the hunk

  /** Only the last line may lack a terminator, and then it is not empty. */
  ghost predicate Terminated(text: seq<Line>) {
    forall i :: 0 <= i < |text| ==> text[i].eol.Some? || (i == |text| - 1 && text[i].text != "")
  }

  /** The hunk's two texts are texts of files. */
  ghost predicate WellTerminated(lines: seq<DiffLine>) {
    Terminated(Without(lines, Plus)) && Terminated(Without(lines, Minus))
  }

  lemma {:induction false} RestTerminated(lines: seq<DiffLine>, left: Mark, n: nat)
    requires n <= |lines| && Terminated(Without(lines, left))
    ensures Terminated(Without(lines[n..], left))
  {
    if n > 0 {
      var text, rest := Without(lines, left), Without(lines[1..], left);
      if lines[0].mark != left {
        assert forall i :: 0 <= i < |rest| ==> rest[i] == text[i + 1];
      } else {
        assert text == rest;
      }
      RestTerminated(lines[1..], left, n - 1);
      assert lines[n..] == lines[1..][n - 1..];
    }
  }

  /**
   * One call of a reader that has `before` left to read: it takes a line off, with its terminator,
   * and signals the end if there was none, or the line was the last and had no terminator.
   */
  ghost predicate LineTaken(before: seq<Line>, text: string, eol: Option<string>, eof: bool, after: seq<Line>) {
    && (before == [] ==> text == "" && eol.None? && eof && after == [])
    && (before != [] ==> before == [Line(text, eol)] + after && (eof <==> eol.None?))
    && (eof && before != [] ==> after == [] && text != "")
  }

  class HunkReader {
    const lines: seq<DiffLine>
    const reverse: bool
    var diffPos: nat
    var originalPos: nat
    var modifiedPos: nat

    ghost predicate Valid()
      reads this
    {
      WellTerminated(lines) && diffPos <= |lines| && originalPos <= |lines| && modifiedPos <= |lines|
    }

    constructor (lines: seq<DiffLine>, reverse: bool)
      requires WellTerminated(lines)
      ensures Valid() && this.lines == lines && this.reverse == reverse
      ensures diffPos == originalPos == modifiedPos == 0
    {
      this.lines, this.reverse := lines, reverse;
      diffPos, originalPos, modifiedPos := 0, 0, 0;
    }

    /** What is still to be read of each reading. */
    function DiffLeft(): seq<DiffLine>
      requires Valid()
      reads this
    {
      DiffText(lines[diffPos..], reverse)
    }

    function OriginalLeft(): seq<Line>
      requires Valid()
      reads this
    {
      OriginalText(lines[originalPos..], reverse)
    }

    function ModifiedLeft(): seq<Line>
      requires Valid()
      reads this
    {
      ModifiedText(lines[modifiedPos..], reverse)
    }

    method ReadlineDiffText() returns (line: Option<DiffLine>)
      requires Valid()
      modifies this`diffPos
      ensures Valid()
      ensures line.None? ==> old(DiffLeft()) == [] == DiffLeft()
      ensures line.Some? ==> old(DiffLeft()) == [line.value] + DiffLeft()
    {
      if diffPos == |lines| {
        return None;
      }
      line := Some(if reverse then FlipLine(lines[diffPos]) else lines[diffPos]);
      diffPos := diffPos + 1;
    }

    /** The next line from `pos` on without the mark `left`, and where reading goes on. */
    method NextWithout(left: Mark, pos: nat) returns (text: string, eol: Option<string>, eof: bool, next: nat)
      requires WellTerminated(lines) && pos <= |lines| && !left.Context?
      ensures pos <= next <= |lines|
      ensures LineTaken(Without(lines[pos..], left), text, eol, eof, Without(lines[next..], left))
    {
      RestTerminated(lines, left, pos);
      next := pos;
      while next < |lines| && lines[next].mark == left
        invariant pos <= next <= |lines| && Without(lines[next..], left) == Without(lines[pos..], left)
      {
        assert lines[next..][1..] == lines[next + 1..];
        next := next + 1;
      }
      if next == |lines| {
        return "", None, true, next;
      }
      assert lines[next..][1..] == lines[next + 1..];
      ghost var before := Without(lines[pos..], left);
      assert before[0] == lines[next].line;
      text, eol := lines[next].line.text, lines[next].line.eol;
      eof := eol.None?;
      next := next + 1;
    }

    method ReadlineOriginalText() returns (text: string, eol: Option<string>, eof: bool)
      requires Valid()
      modifies this`originalPos
      ensures Valid()
      ensures LineTaken(old(OriginalLeft()), text, eol, eof, OriginalLeft())
    {
      text, eol, eof, originalPos := NextWithout(if reverse then Minus else Plus, originalPos);
    }

    method ReadlineModifiedText() returns (text: string, eol: Option<string>, eof: bool)
      requires Valid()
      modifies this`modifiedPos
      ensures Valid()
      ensures LineTaken(old(ModifiedLeft()), text, eol, eof, ModifiedLeft())
    {
      text, eol, eof, modifiedPos := NextWithout(if reverse then Plus else Minus, modifiedPos);
    }

    method ResetDiffText()
      modifies this`diffPos
      ensures diffPos == 0
    {
      diffPos := 0;
    }

    method ResetOriginalText()
      modifies this`originalPos
      ensures originalPos == 0
    {
      originalPos := 0;
    }

    method ResetModifiedText()
      modifies this`modifiedPos
      ensures modifiedPos == 0
    {
      modifiedPos := 0;
    }
  }

  /** The line a reader's answer stands for, if any. */
  function Took(text: string, eol: Option<string>, eof: bool): seq<Line> {
    if eof && text == "" then [] else [Line(text, eol)]
  }

  lemma TookIsTaken(
      read: seq<Line>, before: seq<Line>, text: string, eol: Option<string>, eof: bool, after: seq<Line>)
    requires LineTaken(before, text, eol, eof, after)
    ensures read + before == read + Took(text, eol, eof) + after
    ensures eof ==> after == []
    ensures !eof ==> |after| < |before|
  {
  }

  lemma DiffTaken(read: seq<DiffLine>, before: seq<DiffLine>, line: Option<DiffLine>, after: seq<DiffLine>)
    requires if line.None? then before == after == [] else before == [line.value] + after
    ensures read + before == read + (if line.Some? then [line.value] else []) + after
  {
  }

  /**
   * Reads a hunk to its end three ways at once, whatever had been read of it before: after the
   * resets the readings are its three texts in full, and no reading disturbs another.
   */
  method ReadAll(hunk: HunkReader) returns (diff: seq<DiffLine>, original: seq<Line>, modified: seq<Line>)
    requires hunk.Valid()
    modifies hunk
    ensures diff == DiffText(hunk.lines, hunk.reverse)
    ensures original == OriginalText(hunk.lines, hunk.reverse)
    ensures modified == ModifiedText(hunk.lines, hunk.reverse)
    ensures Patch(original, diff) == Some(modified)
  {
    hide DiffText, OriginalText, ModifiedText, WellTerminated, LineTaken, Took, Patch;
    hunk.ResetDiffText();
    hunk.ResetOriginalText();
    hunk.ResetModifiedText();
    assert hunk.lines[0..] == hunk.lines;
    diff, original, modified := [], [], [];
    var d, o, m := true, true, true;
    while d || o || m
      invariant hunk.Valid()
      invariant diff + hunk.DiffLeft() == DiffText(hunk.lines, hunk.reverse)
      invariant original + hunk.OriginalLeft() == OriginalText(hunk.lines, hunk.reverse)
      invariant modified + hunk.ModifiedLeft() == ModifiedText(hunk.lines, hunk.reverse)
      invariant !d ==> hunk.DiffLeft() == []
      invariant !o ==> hunk.OriginalLeft() == []
      invariant !m ==> hunk.ModifiedLeft() == []
      decreases |hunk.DiffLeft()| + |hunk.OriginalLeft()| + |hunk.ModifiedLeft()|, d, o, m
    {
      ghost var diffLeft := hunk.DiffLeft();
      var diffLine := hunk.ReadlineDiffText();
      d := diffLine.Some?;
      DiffTaken(diff, diffLeft, diffLine, hunk.DiffLeft());
      diff := diff + if d then [diffLine.value] else [];
      ghost var originalLeft, modifiedLeft := hunk.OriginalLeft(), hunk.ModifiedLeft();
      var text, eol, eof := hunk.ReadlineOriginalText();
      TookIsTaken(original, originalLeft, text, eol, eof, hunk.OriginalLeft());
      original := original + Took(text, eol, eof);
      o := !eof;
      text, eol, eof := hunk.ReadlineModifiedText();
      TookIsTaken(modified, modifiedLeft, text, eol, eof, hunk.ModifiedLeft());
      modified := modified + Took(text, eol, eof);
      m := !eof;
    }
    PatchIsReplacement(original, diff);
    ReversedReadings(hunk.lines, hunk.reverse);
  }
}
