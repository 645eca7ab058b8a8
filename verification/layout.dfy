/** The vertical layout arithmetic of `generatePdf`: fixed column positions
    on a landscape letter page, the height of one table row from the line
    counts of its wrapped cells, and the cursor that walks down the walks
    table and then the hikes table. Drawing, fonts and colours are not
    modelled. Text wrapping is jsPDF's `splitTextToSize`, which measures
    glyphs; it enters as the parameter `wrap`, giving the number of lines a
    text takes at a width. */
module Layout {
  import opened Records

  type Wrap = (string, int) -> nat

  /** Landscape letter, in points. */
  const PageWidth := 792
  const Margin := 40
  const LineHeight := 16
  const SectionSpacing := 25

  /** Every column starts 5 points after the previous one ends. */
  const DateColX := Margin
  const DateColWidth := 65
  const LocationColX := DateColX + DateColWidth + 5
  const LocationColWidth := 130
  const AddressColX := LocationColX + LocationColWidth + 5
  const AddressColWidth := 120
  const TownColX := AddressColX + AddressColWidth + 5
  const TownColWidth := 80
  const CommentsColX := TownColX + TownColWidth + 5
  const CommentsColWidth := PageWidth - CommentsColX - Margin - 10

  /** Text is wrapped 5 points narrower than its column. */
  function WrapWidth(columnWidth: int): int
  {
    columnWidth - 5
  }

  lemma ColumnGeometry()
    ensures LocationColX == 110 && AddressColX == 245 && TownColX == 370 && CommentsColX == 455
    ensures CommentsColWidth == 287
    ensures CommentsColX + CommentsColWidth + 10 == PageWidth - Margin
  {
  }

  /** The comments cell: `comments || ''`, followed by the meeting notes
      when there are any, with a space between only when the comments are
      not empty. */
  function CommentsText(o: Occurrence): string
  {
    var text := o.comments;
    if o.meetingNotes != "" then text + (if text != "" then " " else "") + o.meetingNotes
    else text
  }

  /** The comments cell is the comments and the meeting notes, joined by one
      space only when both are present. */
  lemma CommentsTextJoins(o: Occurrence)
    ensures var text := CommentsText(o);
      && (o.meetingNotes == "" ==> text == o.comments)
      && (o.comments == "" ==> text == o.meetingNotes)
      && (o.comments != "" && o.meetingNotes != "" ==>
            |text| == |o.comments| + 1 + |o.meetingNotes|
            && text[..|o.comments|] == o.comments
            && text[|o.comments|] == ' '
            && text[|o.comments| + 1..] == o.meetingNotes)
  {
  }

  /** `maxEntryHeight = Math.max(maxEntryHeight, ...)` over the cells in
      turn, starting from `height`. */
  function Tallest(height: int, cells: seq<int>): int
    decreases |cells|
  {
    if |cells| == 0 then height
    else Tallest(if height >= cells[0] then height else cells[0], cells[1..])
  }

  /** The running maximum is at least its start and every cell, and is the
      start or one of the cells. */
  lemma {:induction false} TallestIsMaximum(height: int, cells: seq<int>)
    ensures Tallest(height, cells) >= height
    ensures forall i :: 0 <= i < |cells| ==> Tallest(height, cells) >= cells[i]
    ensures Tallest(height, cells) == height || Tallest(height, cells) in cells
    decreases |cells|
  {
    if |cells| > 0 {
      var next := if height >= cells[0] then height else cells[0];
      TallestIsMaximum(next, cells[1..]);
      assert forall i :: 1 <= i < |cells| ==> cells[i] == cells[1..][i - 1];
      if Tallest(next, cells[1..]) in cells[1..] {
        var j :| 0 <= j < |cells[1..]| && cells[1..][j] == Tallest(next, cells[1..]);
        assert cells[j + 1] == Tallest(next, cells[1..]);
      }
    }
  }

  /** The line counts of the wrapped location, address, town and comments
      cells of a row, in points. */
  function CellHeights(o: Occurrence, wrap: Wrap): seq<int>
  {
    [ wrap(o.location, WrapWidth(LocationColWidth)) * LineHeight,
      wrap(o.address, WrapWidth(AddressColWidth)) * LineHeight,
      wrap(o.town, WrapWidth(TownColWidth)) * LineHeight,
      wrap(CommentsText(o), WrapWidth(CommentsColWidth)) * LineHeight ]
  }

  /** `maxEntryHeight` after the four wrapped cells. */
  function RowHeight(o: Occurrence, wrap: Wrap): int
  {
    Tallest(LineHeight, CellHeights(o, wrap))
  }

  lemma MultipleOfLine(n: int)
    ensures (n * LineHeight) % LineHeight == 0
  {
  }

  /** A row is as tall as its tallest wrapped cell and never less than one
      line: the height is a whole number of lines, at least every cell's,
      and equal to one line or to one of the cells. */
  lemma RowHeightIsTallestCell(o: Occurrence, wrap: Wrap)
    ensures RowHeight(o, wrap) >= LineHeight && RowHeight(o, wrap) % LineHeight == 0
    ensures forall i :: 0 <= i < |CellHeights(o, wrap)| ==> RowHeight(o, wrap) >= CellHeights(o, wrap)[i]
    ensures RowHeight(o, wrap) == LineHeight || RowHeight(o, wrap) in CellHeights(o, wrap)
  {
    var cells := CellHeights(o, wrap);
    TallestIsMaximum(LineHeight, cells);
    MultipleOfLine(wrap(o.location, WrapWidth(LocationColWidth)));
    MultipleOfLine(wrap(o.address, WrapWidth(AddressColWidth)));
    MultipleOfLine(wrap(o.town, WrapWidth(TownColWidth)));
    MultipleOfLine(wrap(CommentsText(o), WrapWidth(CommentsColWidth)));
    assert forall i :: 0 <= i < |cells| ==> cells[i] % LineHeight == 0;
  }

  /** The height of every row of a table, in order. */
  function Heights(rows: seq<Occurrence>, wrap: Wrap): seq<int>
  {
    seq(|rows|, i requires 0 <= i < |rows| => RowHeight(rows[i], wrap))
  }

  /** The extent of rows of the given heights: every height, and 15 points
      (a 5 point gap, the separator rule, then 10) between consecutive rows. */
  function Extent(hs: seq<int>): int
  {
    if |hs| == 0 then 0
    else if |hs| == 1 then hs[0]
    else Extent(hs[..|hs| - 1]) + 15 + hs[|hs| - 1]
  }

  /** The extent of a table body. */
  function BodyHeight(rows: seq<Occurrence>, wrap: Wrap): int
  {
    Extent(Heights(rows, wrap))
  }

  lemma ExtentStep(hs: seq<int>, i: nat)
    requires i < |hs|
    ensures Extent(hs[..i + 1]) == Extent(hs[..i]) + (if i > 0 then 15 else 0) + hs[i]
  {
    assert hs[..i + 1][..i] == hs[..i];
  }

  /** Where the rows of one table went. */
  datatype TableLayout = TableLayout(tops: seq<int>, rules: seq<int>, end: int)

  /** The state of the row loop after `i` of the rows of heights `hs`: a
      top per row drawn, a rule between consecutive rows drawn, and the
      cursor below the last row drawn (and below its rule, unless it was the
      last row). */
  predicate RowsLaidOut(hs: seq<int>, top: int, i: nat, tops: seq<int>, rules: seq<int>, y: int)
    requires i <= |hs|
  {
    && |tops| == i
    && |rules| == (if i == |hs| && i > 0 then i - 1 else i)
    && (i > 0 ==> tops[0] == top)
    && (forall k :: 0 <= k < |rules| ==>
          rules[k] == tops[k] + hs[k] + 5 && (k < i - 1 ==> tops[k + 1] == rules[k] + 10))
    && (0 < i < |hs| ==> y == rules[i - 1] + 10)
    && (i == |hs| > 0 ==> y == tops[i - 1] + hs[i - 1])
    && y == top + Extent(hs[..i]) + (if 0 < i < |hs| then 15 else 0)
  }

  /** One turn of the row loop keeps `RowsLaidOut`. */
  lemma RowsStep(hs: seq<int>, top: int, i: nat, tops: seq<int>, rules: seq<int>, y: int)
    requires i < |hs| && RowsLaidOut(hs, top, i, tops, rules, y)
    ensures var below := y + hs[i];
      if i == |hs| - 1 then RowsLaidOut(hs, top, i + 1, tops + [y], rules, below)
      else RowsLaidOut(hs, top, i + 1, tops + [y], rules + [below + 5], below + 15)
  {
    ExtentStep(hs, i);
  }

  /** Once every row is drawn, the loop state is the finished table. */
  lemma RowsDone(hs: seq<int>, top: int, tops: seq<int>, rules: seq<int>, y: int)
    requires RowsLaidOut(hs, top, |hs|, tops, rules, y)
    ensures |tops| == |hs|
    ensures |rules| == if |hs| == 0 then 0 else |hs| - 1
    ensures |hs| > 0 ==> tops[0] == top
    ensures forall i :: 0 <= i < |hs| - 1 ==>
              rules[i] == tops[i] + hs[i] + 5 && tops[i + 1] == rules[i] + 10
    ensures |hs| > 0 ==> y == tops[|hs| - 1] + hs[|hs| - 1]
    ensures y == top + Extent(hs)
  {
    assert hs[..|hs|] == hs;
  }

  /** The row loop of one table over the rows' heights, starting at `top`:
      each row is drawn at the cursor, the cursor moves down by the row's
      height, and between rows (not after the last) a rule is drawn 5 points
      lower and the cursor moves 10 further. */
  method LayoutRows(hs: seq<int>, top: int) returns (t: TableLayout)
    ensures |t.tops| == |hs|
    ensures |t.rules| == if |hs| == 0 then 0 else |hs| - 1
    ensures |hs| > 0 ==> t.tops[0] == top
    ensures forall i :: 0 <= i < |hs| - 1 ==>
              t.rules[i] == t.tops[i] + hs[i] + 5 && t.tops[i + 1] == t.rules[i] + 10
    ensures |hs| > 0 ==> t.end == t.tops[|hs| - 1] + hs[|hs| - 1]
    ensures t.end == top + Extent(hs)
  {
    var y := top;
    var tops: seq<int> := [];
    var rules: seq<int> := [];
    var i := 0;
    while i < |hs|
      invariant i <= |hs| && RowsLaidOut(hs, top, i, tops, rules, y)
    {
      RowsStep(hs, top, i, tops, rules, y);
      tops := tops + [y];
      y := y + hs[i];
      if i < |hs| - 1 {
        y := y + 5;
        rules := rules + [y];
        y := y + 10;
      }
      i := i + 1;
    }
    RowsDone(hs, top, tops, rules, y);
    t := TableLayout(tops, rules, y);
  }

  /** `t` places `rows` from `top`: one top per row, the first at `top`;
      between consecutive rows a rule 5 points below the earlier row and the
      next row 10 points below the rule; the table ends below the last row,
      its body height after `top`. */
  predicate TablePlaced(t: TableLayout, rows: seq<Occurrence>, top: int, wrap: Wrap)
  {
    && |t.tops| == |rows|
    && |t.rules| == (if |rows| == 0 then 0 else |rows| - 1)
    && (|rows| > 0 ==> t.tops[0] == top)
    && (forall i :: 0 <= i < |rows| - 1 ==>
          t.rules[i] == t.tops[i] + RowHeight(rows[i], wrap) + 5
          && t.tops[i + 1] == t.rules[i] + 10)
    && (|rows| > 0 ==> t.end == t.tops[|rows| - 1] + RowHeight(rows[|rows| - 1], wrap))
    && t.end == top + BodyHeight(rows, wrap)
  }

  /** The row loop of one table: the rows' heights laid out from `top`. */
  method LayoutTable(rows: seq<Occurrence>, top: int, wrap: Wrap) returns (t: TableLayout)
    ensures TablePlaced(t, rows, top, wrap)
  {
    t := LayoutRows(Heights(rows, wrap), top);
  }

  /** Rows are stacked downward: each row starts at least one line plus the
      15-point separator below the start of the previous one. */
  lemma RowsDescend(rows: seq<Occurrence>, top: int, wrap: Wrap, t: TableLayout)
    requires TablePlaced(t, rows, top, wrap)
    ensures forall i :: 0 <= i < |rows| - 1 ==>
              t.tops[i + 1] >= t.tops[i] + LineHeight + 15
              && t.tops[i + 1] - t.tops[i] - 15 == RowHeight(rows[i], wrap)
  {
    forall i | 0 <= i < |rows| - 1
      ensures t.tops[i + 1] >= t.tops[i] + LineHeight + 15
    {
      RowHeightIsTallestCell(rows[i], wrap);
    }
  }

  /** Rows at least one line tall span at least `n` lines plus the
      separators, and exactly that when every row is one line. */
  lemma {:induction false} ExtentBounds(hs: seq<int>)
    requires forall i :: 0 <= i < |hs| ==> hs[i] >= LineHeight
    ensures |hs| > 0 ==> Extent(hs) >= 31 * |hs| - 15
    ensures (forall i :: 0 <= i < |hs| ==> hs[i] == LineHeight) ==>
              Extent(hs) == if |hs| == 0 then 0 else 31 * |hs| - 15
    decreases |hs|
  {
    if |hs| > 1 {
      var init := hs[..|hs| - 1];
      assert forall i :: 0 <= i < |init| ==> init[i] == hs[i];
      ExtentBounds(init);
    }
  }

  /** A table body of `n` rows is at least `n` lines plus the separators,
      and exactly that when no row is taller than one line. */
  lemma BodyHeightBounds(rows: seq<Occurrence>, wrap: Wrap)
    ensures |rows| > 0 ==> BodyHeight(rows, wrap) >= 31 * |rows| - 15
    ensures (forall i :: 0 <= i < |rows| ==> RowHeight(rows[i], wrap) == LineHeight) ==>
              BodyHeight(rows, wrap) == if |rows| == 0 then 0 else 31 * |rows| - 15
  {
    var hs := Heights(rows, wrap);
    forall i | 0 <= i < |rows|
      ensures hs[i] >= LineHeight
    {
      RowHeightIsTallestCell(rows[i], wrap);
    }
    ExtentBounds(hs);
  }

  /** Where everything on the page went. */
  datatype PageLayout = PageLayout(
    walksHeading: int, walks: TableLayout,
    hikesHeading: int, hikes: TableLayout,
    protocol: int)

  /** The cursor of `generatePdf` from the title down: the title block and
      the walks heading take the page to y = 127; each heading, its column
      titles and rule take 36 points; the tables follow; 25 points separate
      the walks table from the hikes heading and the hikes table from the
      closing protocol line. */
  method LayoutPage(walks: seq<Occurrence>, hikes: seq<Occurrence>, wrap: Wrap) returns (p: PageLayout)
    ensures p.walksHeading == 127
    ensures TablePlaced(p.walks, walks, p.walksHeading + 36, wrap)
    ensures p.hikesHeading == p.walks.end + SectionSpacing
    ensures TablePlaced(p.hikes, hikes, p.hikesHeading + 36, wrap)
    ensures p.protocol == p.hikes.end + SectionSpacing
    ensures p.protocol == 249 + BodyHeight(walks, wrap) + BodyHeight(hikes, wrap)
    ensures forall i :: 0 <= i < |walks| - 1 ==> p.walks.tops[i + 1] >= p.walks.tops[i] + 31
    ensures forall i :: 0 <= i < |hikes| - 1 ==> p.hikes.tops[i + 1] >= p.hikes.tops[i] + 31
  {
    var y := 40;                   // month and year title
    y := y + 25;                   // facilitator line
    y := y + LineHeight + 3;       // levels line
    y := y + LineHeight + 2;       // start time line
    y := y + SectionSpacing;
    var walksHeading := y;
    y := y + LineHeight + 5;       // column titles
    y := y + 5;                    // heading rule
    y := y + 10;
    var walksTable := LayoutTable(walks, y, wrap);
    RowsDescend(walks, y, wrap, walksTable);
    y := walksTable.end + SectionSpacing;
    var hikesHeading := y;
    y := y + LineHeight + 5;
    y := y + 5;
    y := y + 10;
    var hikesTable := LayoutTable(hikes, y, wrap);
    RowsDescend(hikes, y, wrap, hikesTable);
    y := hikesTable.end + SectionSpacing;
    p := PageLayout(walksHeading, walksTable, hikesHeading, hikesTable, y);
  }
}
