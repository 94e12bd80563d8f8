/** Breaking a document into lines. */
module Layout {

  const MAX_LINES := 768
  const LINE_MAX := 120

  /** A character on a line and the document offset it comes from. */
  datatype Cell = Cell(c: char, offset: nat)

  /** A line and the document range it stands for. */
  datatype Line = Line(cells: seq<Cell>, start: nat, end: nat)

  predicate Blank(c: char) {
    c == ' ' || c == '\n'
  }

  // ----- what the lines must show -----

  type Marks = nat -> bool

  /** The characters of doc[..n] that must be shown, in order: the visible ones and preformatted spaces. */
  function Visible(doc: string, pre: Marks, n: nat): seq<Cell>
    requires n <= |doc|
  {
    if n == 0 then []
    else if doc[n - 1] == '\n' || (doc[n - 1] == ' ' && !pre(n - 1)) then Visible(doc, pre, n - 1)
    else Visible(doc, pre, n - 1) + [Cell(doc[n - 1], n - 1)]
  }

  /** The cells but for the spaces between words. */
  function Text(pre: Marks, cells: seq<Cell>): seq<Cell> {
    if |cells| == 0 then []
    else
      var c := cells[|cells| - 1];
      Text(pre, cells[..|cells| - 1]) + (if c.c == ' ' && !pre(c.offset) then [] else [c])
  }

  function Flat(lines: seq<Line>): seq<Cell> {
    if |lines| == 0 then [] else Flat(lines[..|lines| - 1]) + lines[|lines| - 1].cells
  }

  /** Cells come from the document and their offsets ascend, up to `limit`. */
  ghost predicate Ascending(doc: string, cells: seq<Cell>, limit: nat) {
    && (forall i | 0 <= i < |cells| :: cells[i].offset < limit <= |doc| && doc[cells[i].offset] == cells[i].c)
    && (forall i, j | 0 <= i < j < |cells| :: cells[i].offset < cells[j].offset)
  }

  ghost predicate Within(cells: seq<Cell>, start: nat, end: nat) {
    forall i | 0 <= i < |cells| :: start <= cells[i].offset < end
  }

  /** Contiguous ranges from 0 to `end`, each line inside its range and at most `columns` wide. */
  ghost predicate Ranges(lines: seq<Line>, end: nat, columns: nat) {
    && (|lines| == 0 ==> end == 0)
    && (|lines| > 0 ==> lines[0].start == 0 && lines[|lines| - 1].end == end)
    && (forall i | 0 <= i < |lines| - 1 :: lines[i].end == lines[i + 1].start)
    && (forall i | 0 <= i < |lines| ::
          lines[i].start <= lines[i].end && Within(lines[i].cells, lines[i].start, lines[i].end) && |lines[i].cells| <= columns)
  }

  lemma TextSnoc(pre: Marks, cells: seq<Cell>, c: Cell)
    ensures Text(pre, cells + [c]) == Text(pre, cells) + (if c.c == ' ' && !pre(c.offset) then [] else [c])
  {
    assert (cells + [c])[..|cells|] == cells;
  }

  lemma FlatSnoc(lines: seq<Line>, l: Line)
    ensures Flat(lines + [l]) == Flat(lines) + l.cells
  {
    assert (lines + [l])[..|lines|] == lines;
  }

  type Widths = nat -> nat

  ghost predicate NoNewline(doc: string, from: nat, end: int) {
    forall o | from <= o < end && o < |doc| :: doc[o] != '\n'
  }

  /** Where the word that offset o belongs to starts. */
  function WordStart(doc: string, o: nat): (j: nat)
    requires o < |doc|
    ensures j <= o
  {
    if o == 0 || Blank(doc[o - 1]) then o else WordStart(doc, o - 1)
  }

  lemma {:induction false} WordStartIs(doc: string, from: nat, o: nat)
    requires from <= o < |doc| && (from == 0 || Blank(doc[from - 1])) && forall k | from <= k < o :: !Blank(doc[k])
    ensures WordStart(doc, o) == from
  {
    if from < o { WordStartIs(doc, from, o - 1); }
  }

  /** Line l ends before a preformatted space that does not fit, before a word that does not fit with a space and one
      character, or inside a word where its columns end. */
  predicate Tight(doc: string, pre: Marks, width: Widths, l: Line) {
    && l.end < |doc| && doc[l.end] != '\n'
    && if doc[l.end] == ' ' then pre(l.end) && |l.cells| >= width(l.end)
       else
         var j := WordStart(doc, l.end);
         if j == l.end then |l.cells| > 0 && |l.cells| + 1 >= width(j) else |l.cells| >= width(j)
  }

  /** A line ends behind a newline or where it is full, and no newline stands inside it. */
  ghost predicate Broken(doc: string, pre: Marks, width: Widths, l: Line) {
    || (l.start < l.end <= |doc| && doc[l.end - 1] == '\n' && NoNewline(doc, l.start, l.end - 1))
    || (NoNewline(doc, l.start, l.end) && Tight(doc, pre, width, l))
  }

  /** The columns a character is held to: those at its word, and a preformatted space's own. */
  predicate Fits(doc: string, pre: Marks, width: Widths, cell: Cell, column: nat) {
    && cell.offset < |doc|
    && (cell.c != ' ' ==> column < width(WordStart(doc, cell.offset)))
    && (cell.c == ' ' && pre(cell.offset) ==> column < width(cell.offset))
  }

  ghost predicate AllFit(doc: string, pre: Marks, width: Widths, cells: seq<Cell>) {
    forall i | 0 <= i < |cells| :: Fits(doc, pre, width, cells[i], i)
  }

  /** Every line keeps to its columns. */
  ghost predicate Fitting(doc: string, pre: Marks, width: Widths, lines: seq<Line>) {
    forall i | 0 <= i < |lines| :: AllFit(doc, pre, width, lines[i].cells)
  }

  ghost predicate AllBroken(doc: string, pre: Marks, width: Widths, lines: seq<Line>) {
    forall i | 0 <= i < |lines| :: Broken(doc, pre, width, lines[i])
  }

  /** Two words on a line are apart, and only by one space: cells next to each other without a space come from next to
      each other in the document, and a space that is not preformatted has text on both sides and stands for the
      blank directly before the second. */
  ghost predicate Spaced(pre: Marks, cells: seq<Cell>) {
    && (forall i | 0 < i < |cells| && cells[i - 1].c != ' ' && cells[i].c != ' ' :: cells[i].offset == cells[i - 1].offset + 1)
    && (forall i | 0 <= i < |cells| && cells[i].c == ' ' && !pre(cells[i].offset) ::
          && 0 < i < |cells| - 1 && cells[i - 1].c != ' '
          && cells[i + 1].c != ' ' && cells[i + 1].offset == cells[i].offset + 1)
  }

  ghost predicate AllSpaced(pre: Marks, lines: seq<Line>) {
    forall i | 0 <= i < |lines| :: Spaced(pre, lines[i].cells)
  }

  lemma AllSpacedSnoc(pre: Marks, lines: seq<Line>, l: Line)
    requires AllSpaced(pre, lines) && Spaced(pre, l.cells)
    ensures AllSpaced(pre, lines + [l])
  {
    hide Spaced;
  }

  lemma SpacedNext(pre: Marks, cells: seq<Cell>, c: Cell)
    requires Spaced(pre, cells)
    requires if c.c == ' ' then pre(c.offset)
             else |cells| == 0 || cells[|cells| - 1].c == ' ' || cells[|cells| - 1].offset + 1 == c.offset
    ensures Spaced(pre, cells + [c])
  {
  }

  /** A space and the first character of a word after another word. */
  lemma SpacedWord(pre: Marks, cells: seq<Cell>, o: nat, c: Cell)
    requires Spaced(pre, cells) && |cells| > 0 && cells[|cells| - 1].c != ' ' && c.c != ' ' && c.offset == o + 1
    ensures Spaced(pre, cells + [Cell(' ', o)] + [c])
  {
  }

  /** What a finished layout must be. */
  ghost predicate Complete(doc: string, pre: Marks, columns: nat, width: Widths, full: seq<Line>) {
    && |full| > 0 && Text(pre, Flat(full)) == Visible(doc, pre, |doc|) && Ascending(doc, Flat(full), |doc|)
    && Ranges(full, full[|full| - 1].end, columns) && AllSpaced(pre, full) && Fitting(doc, pre, width, full)
    && AllBroken(doc, pre, width, full[..|full| - 1]) && NoNewline(doc, full[|full| - 1].start, full[|full| - 1].end - 1)
    && (|doc| > 0 && !Blank(doc[|doc| - 1]) ==> full[|full| - 1].end == |doc|)
  }

  // ----- the state of the loop -----

  /** Lines stored, the line under construction with its start, and whether lines had to be dropped. */
  datatype State = State(lines: seq<Line>, cells: seq<Cell>, start: nat, truncated: bool)

  ghost function All(lines: seq<Line>, cells: seq<Cell>): seq<Cell> {
    Flat(lines) + cells
  }

  /** With `full` for all lines finished so far, everything before `index` is laid out. */
  ghost predicate Laid(doc: string, pre: Marks, columns: nat, full: seq<Line>, s: State, index: nat) {
    && index <= |doc| && s.start <= index
    && |s.cells| <= columns && Within(s.cells, s.start, index)
    && Ranges(full, s.start, columns)
    && Ascending(doc, All(full, s.cells), index)
    && Text(pre, All(full, s.cells)) == Visible(doc, pre, index)
  }

  /** The first lines, as many as there is room for. */
  function Kept(full: seq<Line>): (lines: seq<Line>)
    ensures |lines| <= MAX_LINES && lines <= full
  {
    if |full| <= MAX_LINES then full else full[..MAX_LINES]
  }

  ghost predicate Sound(doc: string, pre: Marks, columns: nat, width: Widths, full: seq<Line>, s: State, index: nat) {
    && s.lines == Kept(full) && s.truncated == (|full| > MAX_LINES)
    && Laid(doc, pre, columns, full, s, index)
    && AllBroken(doc, pre, width, full) && NoNewline(doc, s.start, index) && AllSpaced(pre, full)
    && Fitting(doc, pre, width, full) && AllFit(doc, pre, width, s.cells)
  }

  lemma FittingSnoc(doc: string, pre: Marks, width: Widths, lines: seq<Line>, l: Line)
    requires Fitting(doc, pre, width, lines) && AllFit(doc, pre, width, l.cells)
    ensures Fitting(doc, pre, width, lines + [l])
  {
    hide AllFit;
  }

  lemma FitNext(doc: string, pre: Marks, width: Widths, cells: seq<Cell>, cell: Cell)
    requires AllFit(doc, pre, width, cells) && Fits(doc, pre, width, cell, |cells|)
    ensures AllFit(doc, pre, width, cells + [cell])
  {
    hide Fits;
  }

  lemma AppendLaid(doc: string, pre: Marks, columns: nat, full: seq<Line>, s: State, index: nat)
    requires Laid(doc, pre, columns, full, s, index) && |s.cells| < columns && index < |doc| && doc[index] != '\n'
    ensures Laid(doc, pre, columns, full, s.(cells := s.cells + [Cell(doc[index], index)]), index + 1)
  {
    hide Flat, Text, Ranges;
    var c := Cell(doc[index], index);
    assert All(full, s.cells + [c]) == All(full, s.cells) + [c];
    TextSnoc(pre, All(full, s.cells), c);
  }

  /** A skipped newline or space. */
  lemma SkipLaid(doc: string, pre: Marks, columns: nat, full: seq<Line>, s: State, index: nat)
    requires Laid(doc, pre, columns, full, s, index) && index < |doc|
    requires doc[index] == '\n' || (doc[index] == ' ' && !pre(index))
    ensures Laid(doc, pre, columns, full, s, index + 1)
  {
    hide Flat, Text, Ranges;
  }

  /** The line under construction, ended at `end`. */
  function Ended(s: State, end: nat): Line {
    Line(s.cells, s.start, end)
  }

  function AddLine(s: State, end: nat): State {
    if |s.lines| >= MAX_LINES then s.(cells := [], start := end, truncated := true)
    else State(s.lines + [Ended(s, end)], [], end, s.truncated)
  }

  /** Finishing a line at `end`, before which everything is laid out. */
  lemma FlushLaid(doc: string, pre: Marks, columns: nat, full: seq<Line>, s: State, end: nat)
    requires Laid(doc, pre, columns, full, s, end)
    ensures Laid(doc, pre, columns, full + [Ended(s, end)], AddLine(s, end), end)
  {
    hide Flat, Text;
    FlatSnoc(full, Ended(s, end));
    assert All(full + [Ended(s, end)], []) == All(full, s.cells);
    RangesSnoc(full, s.start, columns, Ended(s, end));
  }

  lemma RangesSnoc(lines: seq<Line>, start: nat, columns: nat, l: Line)
    requires Ranges(lines, start, columns) && l.start == start <= l.end && Within(l.cells, l.start, l.end) && |l.cells| <= columns
    ensures Ranges(lines + [l], l.end, columns)
  {
  }

  /** How the last cell of a line relates to the next character: directly before a blank, or a blank further on. */
  ghost predicate Separated(doc: string, pre: Marks, s: State, index: nat) {
    |s.cells| > 0 && s.cells[|s.cells| - 1].c != ' ' && index <= |doc| ==>
      var last := s.cells[|s.cells| - 1].offset;
      (last + 1 == index && (index < |doc| ==> Blank(doc[index]))) || (last + 1 < index && doc[index - 1] == ' ' && !pre(index - 1))
  }

  method Flush(s: State, end: nat) returns (t: State)
    ensures t == AddLine(s, end)
  {
    if |s.lines| >= MAX_LINES {
      return s.(cells := [], start := end, truncated := true);
    }
    return State(s.lines + [Line(s.cells, s.start, end)], [], end, s.truncated);
  }

  lemma FlushSound(doc: string, pre: Marks, columns: nat, width: Widths, full: seq<Line>, s: State, end: nat)
    requires Sound(doc, pre, columns, width, full, s, end) && Tight(doc, pre, width, Ended(s, end)) && Spaced(pre, s.cells)
    ensures Sound(doc, pre, columns, width, full + [Ended(s, end)], AddLine(s, end), end)
  {
    hide Laid, Tight, AllSpaced, Spaced, Fitting, Fits;
    AllSpacedSnoc(pre, full, Ended(s, end));
    FittingSnoc(doc, pre, width, full, Ended(s, end));
    FlushLaid(doc, pre, columns, full, s, end);
    assert Broken(doc, pre, width, Ended(s, end));
  }

  /** One more character of a word, inside its columns. */
  lemma AppendSound(doc: string, pre: Marks, columns: nat, width: Widths, full: seq<Line>, s: State, index: nat)
    requires Sound(doc, pre, columns, width, full, s, index) && index < |doc| && !Blank(doc[index])
    requires |s.cells| < width(WordStart(doc, index)) <= columns
    ensures Sound(doc, pre, columns, width, full, s.(cells := s.cells + [Cell(doc[index], index)]), index + 1)
  {
    hide Laid, AllBroken, AllSpaced, Fitting, AllFit;
    AppendLaid(doc, pre, columns, full, s, index);
    FitNext(doc, pre, width, s.cells, Cell(doc[index], index));
  }

  /** One visible word from `index`, broken where the line is full. */
  method PlaceWord(doc: string, pre: Marks, columns: nat, width: Widths, ghost f0: seq<Line>, s0: State, from: nat)
    returns (s: State, index: nat, ghost full: seq<Line>)
    requires 1 <= width(from) <= columns < LINE_MAX && from < |doc| && !Blank(doc[from])
    requires Sound(doc, pre, columns, width, f0, s0, from) && Spaced(pre, s0.cells + [Cell(doc[from], from)])
    requires (Spaced(pre, s0.cells) || |s0.cells| < width(from)) && (from == 0 || Blank(doc[from - 1]))
    ensures from < index <= |doc| && Sound(doc, pre, columns, width, full, s, index) && Separated(doc, pre, s, index)
    ensures |s.cells| > 0 && Spaced(pre, s.cells) && (index < |doc| ==> Blank(doc[index]))
  {
    hide Sound, Spaced;
    s, index, full := s0, from, f0;
    var available := width(from);
    while index < |doc| && !Blank(doc[index])
      invariant from <= index <= |doc| && Sound(doc, pre, columns, width, full, s, index)
      invariant forall o | from <= o < index :: !Blank(doc[o])
      invariant index > from ==> |s.cells| > 0 && s.cells[|s.cells| - 1].offset == index - 1
      invariant Spaced(pre, s.cells) || (index == from && |s.cells| < available)
      invariant index < |doc| && !Blank(doc[index]) ==> Spaced(pre, s.cells + [Cell(doc[index], index)])
    {
      Alone(pre, Cell(doc[index], index));
      WordStartIs(doc, from, index);
      if |s.cells| >= available {
        FlushSound(doc, pre, columns, width, full, s, index);
        full := full + [Ended(s, index)];
        s := Flush(s, index);
      }
      if |s.cells| >= LINE_MAX - 1 {
        FlushSound(doc, pre, columns, width, full, s, index);
        full := full + [Ended(s, index)];
        s := Flush(s, index);
      }
      AppendSound(doc, pre, columns, width, full, s, index);
      s := s.(cells := s.cells + [Cell(doc[index], index)]);
      index := index + 1;
      if index < |doc| && !Blank(doc[index]) { SpacedNext(pre, s.cells, Cell(doc[index], index)); }
    }
  }

  lemma Alone(pre: Marks, c: Cell)
    ensures Spaced(pre, []) && (c.c != ' ' || pre(c.offset) ==> Spaced(pre, [] + [c]))
  {
  }

  /** The single space put before a word stands for the blank just before it. */
  lemma SpaceLaid(doc: string, pre: Marks, columns: nat, full: seq<Line>, s: State, index: nat)
    requires Laid(doc, pre, columns, full, s, index) && 0 < |s.cells| < columns && s.cells[|s.cells| - 1].c != ' '
    requires Separated(doc, pre, s, index) && index < |doc| && !Blank(doc[index])
    requires NoNewline(doc, s.start, index)
    ensures index > 0 && Laid(doc, pre, columns, full, s.(cells := s.cells + [Cell(' ', index - 1)]), index)
  {
    hide Flat, Text, Ranges;
    var c := Cell(' ', index - 1);
    var all := All(full, s.cells);
    assert All(full, s.cells + [c]) == all + [c];
    assert all[|all| - 1] == s.cells[|s.cells| - 1];
    TextSnoc(pre, all, c);
  }

  /** A space is kept in preformatted text and skipped elsewhere. */
  method PlaceSpace(doc: string, pre: Marks, columns: nat, width: Widths, ghost f0: seq<Line>, s0: State, index: nat)
    returns (s: State, ghost full: seq<Line>)
    requires index < |doc| && doc[index] == ' ' && 1 <= width(index) <= columns < LINE_MAX
    requires Sound(doc, pre, columns, width, f0, s0, index) && Separated(doc, pre, s0, index) && Spaced(pre, s0.cells)
    ensures Sound(doc, pre, columns, width, full, s, index + 1) && Separated(doc, pre, s, index + 1) && Spaced(pre, s.cells)
  {
    hide Laid, AllBroken, AllSpaced, Spaced, Fitting, AllFit;
    s, full := s0, f0;
    Alone(pre, Cell(' ', index));
    if pre(index) {
      if |s.cells| >= width(index) || |s.cells| >= LINE_MAX - 1 {
        FlushSound(doc, pre, columns, width, full, s, index);
        full := full + [Ended(s, index)];
        s := Flush(s, index);
      }
      AppendLaid(doc, pre, columns, full, s, index);
      SpacedNext(pre, s.cells, Cell(' ', index));
      FitNext(doc, pre, width, s.cells, Cell(' ', index));
      s := s.(cells := s.cells + [Cell(' ', index)]);
    } else {
      SkipLaid(doc, pre, columns, full, s, index);
    }
  }

  /** A word starts on a new line when the space and one character would not fit. */
  method StartWord(doc: string, pre: Marks, columns: nat, width: Widths, ghost f0: seq<Line>, s0: State, index: nat)
    returns (s: State, ghost full: seq<Line>)
    requires index < |doc| && !Blank(doc[index]) && 1 <= width(index) <= columns < LINE_MAX
    requires index == 0 || Blank(doc[index - 1])
    requires Sound(doc, pre, columns, width, f0, s0, index) && Separated(doc, pre, s0, index) && Spaced(pre, s0.cells)
    ensures Sound(doc, pre, columns, width, full, s, index)
    ensures Spaced(pre, s.cells + [Cell(doc[index], index)]) && (Spaced(pre, s.cells) || |s.cells| < width(index))
  {
    hide Laid, AllBroken, AllSpaced, Spaced, Fitting, AllFit;
    s, full := s0, f0;
    Alone(pre, Cell(doc[index], index));
    if |s.cells| > 0 && |s.cells| + 1 >= width(index) {
      FlushSound(doc, pre, columns, width, full, s, index);
      full := full + [Ended(s, index)];
      s := Flush(s, index);
    }
    if |s.cells| > 0 && s.cells[|s.cells| - 1].c != ' ' {
      SpaceLaid(doc, pre, columns, full, s, index);
      SpacedWord(pre, s.cells, index - 1, Cell(doc[index], index));
      FitNext(doc, pre, width, s.cells, Cell(' ', index - 1));
      s := s.(cells := s.cells + [Cell(' ', index - 1)]);
    } else {
      SpacedNext(pre, s.cells, Cell(doc[index], index));
    }
  }

  /** Everything but the end of the last line. */
  method Scan(doc: string, pre: Marks, width: Widths, columns: nat) returns (s: State, ghost full: seq<Line>)
    requires 1 <= columns < LINE_MAX && forall i: nat :: 1 <= width(i) <= columns
    ensures Sound(doc, pre, columns, width, full, s, |doc|) && Spaced(pre, s.cells)
    ensures |doc| > 0 && !Blank(doc[|doc| - 1]) ==> |s.cells| > 0
  {
    hide Sound, Spaced;
    s, full := State([], [], 0, false), [];
    Alone(pre, Cell(' ', 0));
    EmptySound(doc, pre, columns, width, s);
    var index := 0;
    while index < |doc|
      invariant index <= |doc| && Sound(doc, pre, columns, width, full, s, index) && Separated(doc, pre, s, index)
      invariant (index > 0 && !Blank(doc[index - 1]) ==> |s.cells| > 0) && Spaced(pre, s.cells)
      invariant 0 < index < |doc| ==> Blank(doc[index - 1]) || Blank(doc[index])
      decreases |doc| - index
    {
      if doc[index] == '\n' {
        NewlineSound(doc, pre, columns, width, full, s, index);
        full := full + [Ended(s, index + 1)];
        s := Flush(s, index + 1);
        index := index + 1;
      } else if doc[index] == ' ' {
        s, full := PlaceSpace(doc, pre, columns, width, full, s, index);
        index := index + 1;
      } else {
        s, full := StartWord(doc, pre, columns, width, full, s, index);
        s, index, full := PlaceWord(doc, pre, columns, width, full, s, index);
      }
    }
  }

  /** Lays out a document. `pre` marks preformatted offsets and `width` gives the columns available at an offset.
      In the whole layout `full` every visible character and preformatted space appears exactly once and in order,
      offsets ascend strictly over all lines, ranges are contiguous, every line keeps to its columns, every line but
      the last ends at a newline or is full, and words on one line are apart by exactly one space. Of it the first 768
      lines are kept. */
  method LayoutDocument(doc: string, pre: Marks, width: Widths, columns: nat)
    returns (lines: seq<Line>, dropped: bool, ghost full: seq<Line>)
    requires 1 <= columns < LINE_MAX && forall i: nat :: 1 <= width(i) <= columns
    ensures lines == Kept(full) && (dropped <==> |full| > MAX_LINES)
    ensures Complete(doc, pre, columns, width, full)
  {
    hide Sound, Spaced, Complete;
    var s: State;
    s, full := Scan(doc, pre, width, columns);
    if |s.cells| > 0 || |s.lines| == 0 {
      LastLine(doc, pre, columns, width, full, s);
      full := full + [Ended(s, |doc|)];
      s := Flush(s, |doc|);
    } else {
      EmptyLast(doc, pre, columns, width, full, s);
    }
    return s.lines, s.truncated, full;
  }

  lemma EmptySound(doc: string, pre: Marks, columns: nat, width: Widths, s: State)
    requires s == State([], [], 0, false)
    ensures Sound(doc, pre, columns, width, [], s, 0)
  {
  }

  lemma NewlineSound(doc: string, pre: Marks, columns: nat, width: Widths, full: seq<Line>, s: State, index: nat)
    requires Sound(doc, pre, columns, width, full, s, index) && index < |doc| && doc[index] == '\n' && Spaced(pre, s.cells)
    ensures Sound(doc, pre, columns, width, full + [Ended(s, index + 1)], AddLine(s, index + 1), index + 1)
  {
    hide Laid, Tight, AllSpaced, Spaced, Fitting, Fits;
    AllSpacedSnoc(pre, full, Ended(s, index + 1));
    FittingSnoc(doc, pre, width, full, Ended(s, index + 1));
    SkipLaid(doc, pre, columns, full, s, index);
    FlushLaid(doc, pre, columns, full, s, index + 1);
    LaidStart(doc, pre, columns, full, s, index);
    assert Broken(doc, pre, width, Ended(s, index + 1));
  }

  lemma LaidStart(doc: string, pre: Marks, columns: nat, full: seq<Line>, s: State, index: nat)
    requires Laid(doc, pre, columns, full, s, index)
    ensures s.start <= index <= |doc|
  {
  }

  lemma AddLineKept(full: seq<Line>, s: State, end: nat)
    requires s.lines == Kept(full) && s.truncated == (|full| > MAX_LINES)
    ensures var all, t := full + [Ended(s, end)], AddLine(s, end);
            t.lines == Kept(all) && t.truncated == (|all| > MAX_LINES) && t.cells == [] && t.start == end
  {
  }

  lemma LastLine(doc: string, pre: Marks, columns: nat, width: Widths, full: seq<Line>, s: State)
    requires Sound(doc, pre, columns, width, full, s, |doc|) && Spaced(pre, s.cells)
    ensures var all := full + [Ended(s, |doc|)];
            && Complete(doc, pre, columns, width, all)
            && AddLine(s, |doc|).lines == Kept(all) && AddLine(s, |doc|).truncated == (|all| > MAX_LINES)
  {
    AddLineKept(full, s, |doc|);
    hide Laid, AllSpaced, Spaced, Fitting, AllFit, AllBroken, Ranges, Text, Visible, Flat, Ascending, Kept, AddLine, NoNewline;
    var all := full + [Ended(s, |doc|)];
    AllSpacedSnoc(pre, full, Ended(s, |doc|));
    FittingSnoc(doc, pre, width, full, Ended(s, |doc|));
    FlushLaid(doc, pre, columns, full, s, |doc|);
    FinishLaid(doc, pre, columns, all, AddLine(s, |doc|));
    assert all[..|all| - 1] == full;
  }

  /** Nothing is left over: the last line ended with the document, or only skipped blanks follow. */
  lemma EmptyLast(doc: string, pre: Marks, columns: nat, width: Widths, full: seq<Line>, s: State)
    requires Sound(doc, pre, columns, width, full, s, |doc|) && |s.lines| > 0 && s.cells == []
    requires |doc| > 0 ==> Blank(doc[|doc| - 1])
    ensures Complete(doc, pre, columns, width, full) && s.lines == Kept(full) && s.truncated == (|full| > MAX_LINES)
  {
    hide Laid, Tight, AllSpaced, Fitting, Ranges, Text, Visible, Flat, Ascending;
    FinishLaid(doc, pre, columns, full, s);
    assert Broken(doc, pre, width, full[|full| - 1]);
  }

  lemma FinishLaid(doc: string, pre: Marks, columns: nat, full: seq<Line>, s: State)
    requires Laid(doc, pre, columns, full, s, |doc|) && s.cells == [] && |full| > 0
    ensures Text(pre, Flat(full)) == Visible(doc, pre, |doc|) && Ascending(doc, Flat(full), |doc|)
    ensures Ranges(full, full[|full| - 1].end, columns) && s.start == full[|full| - 1].end
  {
    assert All(full, []) == Flat(full);
  }
}
