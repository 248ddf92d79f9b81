/** Position arithmetic of the editor (src/utils.ts): row-major comparison of
    positions and the column range a selection covers on one line. */
module Utils {

  /** A value that may be absent (the source's `T | null`). */
  datatype Option<T> = None | Some(value: T)

  /** A zero-based (row, column) address into the line array. */
  datatype Position = Position(row: nat, col: nat)

  /** Row-major reading order: `a` comes strictly before `b`. */
  predicate Before(a: Position, b: Position) {
    a.row < b.row || (a.row == b.row && a.col < b.col)
  }

  /** Three-way comparison: -1 when `pos1` is before `pos2`, 0 when they are
      the same position, 1 otherwise. */
  function ComparePositions(pos1: Position, pos2: Position): (r: int)
    ensures r == -1 || r == 0 || r == 1
    ensures r == -1 <==> Before(pos1, pos2)
    ensures r == 0 <==> pos1 == pos2
    ensures r == 1 <==> Before(pos2, pos1)
  {
    if pos1.row < pos2.row then -1
    else if pos1.row > pos2.row then 1
    else if pos1.col < pos2.col then -1
    else if pos1.col == pos2.col then 0
    else 1
  }

  lemma CompareReflexive(a: Position)
    ensures ComparePositions(a, a) == 0
  {
  }

  lemma CompareAntisymmetric(a: Position, b: Position)
    ensures ComparePositions(a, b) == -ComparePositions(b, a)
  {
  }

  lemma CompareTransitive(a: Position, b: Position, c: Position)
    requires ComparePositions(a, b) == -1 && ComparePositions(b, c) == -1
    ensures ComparePositions(a, c) == -1
  {
  }

  /** The earlier and the later end of a selection, whatever its direction. */
  function Earlier(a: Position, b: Position): Position {
    if Before(b, a) then b else a
  }

  function Later(a: Position, b: Position): Position {
    if Before(b, a) then a else b
  }

  /** Independent description of the selected columns on line `lineNum`: the
      selection runs from the earlier end to the later end in reading order,
      so a line strictly inside it is covered completely, the first line from
      the earlier end's column, the last line up to the later end's column,
      and a line outside the rows it spans gets (-1, -1). */
  function SelectedColumns(start: Position, end: Position, lineNum: nat, lineLength: nat): (int, int) {
    var lo := Earlier(start, end);
    var hi := Later(start, end);
    if lineNum < lo.row || hi.row < lineNum then (-1, -1)
    else (if lineNum == lo.row then lo.col as int else 0, if lineNum == hi.row then hi.col as int else lineLength)
  }

  /** The column sub-range of line `lineNum` (whose contents are `text`)
      covered by the selection from `start` to `end`, forward or backward. */
  function GetStartAndEndColumnsOnALine(start: Position, end: Position, lineNum: nat, text: string): (r: (int, int))
    ensures r == SelectedColumns(start, end, lineNum, |text|)
  {
    if start.row == lineNum then
      if end.row == lineNum then
        if start.col <= end.col then (start.col as int, end.col as int) else (end.col, start.col)
      else if end.row > lineNum then (start.col, |text|)
      else (0, start.col)
    else if start.row < lineNum then
      if end.row == lineNum then (0, end.col)
      else if end.row > lineNum then (0, |text|)
      else (-1, -1)
    else
      if end.row == lineNum then (end.col, |text|)
      else if end.row < lineNum then (0, |text|)
      else (-1, -1)
  }

  /** Both ends on the line: the range is (smaller column, larger column). */
  lemma ColumnsOnSameLine(start: Position, end: Position, text: string)
    requires start.row == end.row
    ensures GetStartAndEndColumnsOnALine(start, end, start.row, text)
         == (if start.col <= end.col then start.col else end.col,
             if start.col <= end.col then end.col else start.col)
  {
  }

  /** A line strictly between the two ends' rows is selected as a whole. */
  lemma ColumnsOnInnerLine(start: Position, end: Position, lineNum: nat, text: string)
    requires (start.row < lineNum < end.row) || (end.row < lineNum < start.row)
    ensures GetStartAndEndColumnsOnALine(start, end, lineNum, text) == (0, |text|)
  {
  }

  /** A line outside the selection's rows yields (-1, -1), and only such a line does. */
  lemma ColumnsOutsideSelection(start: Position, end: Position, lineNum: nat, text: string)
    ensures GetStartAndEndColumnsOnALine(start, end, lineNum, text) == (-1, -1)
        <==> (lineNum < start.row && lineNum < end.row) || (start.row < lineNum && end.row < lineNum)
  {
  }

  /** Swapping the two ends gives the same range: the result does not depend
      on the direction of the selection. */
  lemma ColumnsDirectionIndependent(start: Position, end: Position, lineNum: nat, text: string)
    ensures GetStartAndEndColumnsOnALine(start, end, lineNum, text)
         == GetStartAndEndColumnsOnALine(end, start, lineNum, text)
  {
  }

  /** For ends whose columns fit their lines, a line inside the span gets a
      non-empty-or-empty range inside the line: 0 <= startCol <= endCol <= |text|. */
  lemma ColumnsWithinLine(start: Position, end: Position, lineNum: nat, text: string)
    requires start.row == lineNum ==> start.col <= |text|
    requires end.row == lineNum ==> end.col <= |text|
    requires Earlier(start, end).row <= lineNum <= Later(start, end).row
    ensures var (s, e) := GetStartAndEndColumnsOnALine(start, end, lineNum, text);
            0 <= s <= e <= |text|
  {
  }
}
