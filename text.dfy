/** The buffer object of the editor (src/text.ts): `TextManager` owns the
    line array and changes it in place. Each method is proved against the
    function of TextOps that describes it, and the queries against the flat
    text of Lines. */
module Text {
  import opened Utils
  import opened Lines
  import opened TextOps

  /** A requested move: a column change (left/right) or, when that is 0, a
      row change (up/down). */
  datatype Change = Change(row: int, col: int)

  /** Rank of an inserted string in the recursion of insertText: a lone break
      and a string without breaks are handled directly, a string with breaks
      by inserting its pieces and breaks. */
  function Rank(s: string): nat {
    if s == "\n" then 0 else if '\n' in s then 2 else 1
  }

  /** The two splices of a cross-row delete: dropping row `s`, then the rows
      strictly between `f` and `s`, leaves rows up to `f` and after `s`. */
  lemma SpliceOutRows(L: seq<string>, f: nat, s: nat)
    requires f < s < |L|
    ensures var M := L[..s] + L[s + 1..];
            M[..f + 1] + M[f + 1 + (s - f - 1)..] == L[..f + 1] + L[s + 1..]
  {
    var M := L[..s] + L[s + 1..];
    assert M[..f + 1] == L[..f + 1];
    assert M[s..] == L[s + 1..];
  }

  lemma JoinRow(L: seq<string>, f: nat, s: nat, joined: string)
    requires f < s < |L|
    ensures (L[..f + 1] + L[s + 1..])[f := joined] == L[..f] + [joined] + L[s + 1..]
  {
  }

  class TextManager {
    var text: seq<string>

    /** The buffer invariant: at least one line, no line holding a break. */
    predicate Valid()
      reads this
    {
      ValidLines(text)
    }

    /** A new manager starts with no lines; `SetText` gives it its text. */
    constructor()
      ensures text == []
    {
      text := [];
    }

    /** getText: the line array itself. */
    method GetText() returns (t: seq<string>)
      ensures t == text
    {
      t := text;
    }

    method SetText(newText: seq<string>)
      modifies this
      ensures text == newText
    {
      text := newText;
    }

    /** restoreFromSnapshot: the buffer is replaced wholesale. */
    method RestoreFromSnapshot(newText: seq<string>)
      modifies this
      ensures text == newText
    {
      text := newText;
    }

    /** changePosition: a column change moves through the flat text, a row
      change moves vertically. */
    method ChangePosition(pos: Position, change: Change) returns (r: Position)
      requires change.col != 0 ==> Valid() && InBounds(text, pos)
      requires change.col == 0 && change.row != 1 ==> pos.row <= |text|
      ensures change.col != 0 ==> InBounds(text, r) && Offset(text, r) == MovedOffset(text, pos, change.col)
      ensures change.col == 1 ==> r == NextPosition(text, pos)
      ensures change.col == -1 ==> r == PrevPosition(text, pos)
      ensures change.col == 0 ==> r == MoveUpOrDown(text, pos, change.row)
    {
      if change.col != 0 {
        r := ChangePosLeftOrRight(pos, change.col);
        if change.col == 1 || change.col == -1 {
          OneStepIsMovedOffset(text, pos, change.col, r);
        }
      } else {
        r := MoveUpOrDown(text, pos, change.row);
      }
    }

    /** changePosLeftOrRight: walks row by row, counting each line break as
      one character, and stops at the end of the last line or at (0, 0).
      The result is the in-bounds position at the clamped target offset. */
    method ChangePosLeftOrRight(pos: Position, numCharsLeftOrRight: int) returns (r: Position)
      requires Valid() && InBounds(text, pos)
      ensures InBounds(text, r)
      ensures Offset(text, r) == MovedOffset(text, pos, numCharsLeftOrRight)
    {
      var row: nat, col: nat := pos.row, pos.col;
      var target := Offset(text, pos) + numCharsLeftOrRight;
      if numCharsLeftOrRight > 0 {
        var n := numCharsLeftOrRight;
        while true
          invariant InBounds(text, Position(row, col)) && n >= 0
          invariant Offset(text, Position(row, col)) + n == target
          decreases |text| - row
        {
          var charsToRight := |text[row]| - col;
          if n > charsToRight {
            if row == |text| - 1 {
              LastOffsetIsEndOfLastLine(text);
              return Position(row, |text[|text| - 1]|);
            }
            BreakAfterRow(text, row);
            row, col := row + 1, 0;
            n := n - (charsToRight + 1);
          } else {
            OffsetAtMostLast(text, Position(row, col + n));
            return Position(row, col + n);
          }
        }
      } else {
        var n := -numCharsLeftOrRight;
        while true
          invariant InBounds(text, Position(row, col)) && n >= 0
          invariant Offset(text, Position(row, col)) - n == target
          decreases row
        {
          var charsToLeft := col;
          if n > charsToLeft {
            if row == 0 {
              assert text[..0] == [];
              return Position(0, 0);
            }
            row := row - 1;
            BreakAfterRow(text, row);
            col := |text[row]|;
            n := n - (charsToLeft + 1);
          } else {
            OffsetAtMostLast(text, Position(row, col - n));
            return Position(row, col - n);
          }
        }
      }
    }

    /** getTextBetweenPositions: per line of the span, the selected columns,
      with a break after every line but the last. For ends in reading order
      this is the flat text between them; on one row it is the slice between
      the smaller and the larger column; ends in the wrong row order give
      the empty string. */
    method GetTextBetweenPositions(pos1: Position, pos2: Position) returns (res: string)
      requires Valid() && InBounds(text, pos1) && InBounds(text, pos2)
      ensures !Before(pos2, pos1) ==> res == Between(text, pos1, pos2)
      ensures pos1.row == pos2.row ==> res == text[pos1.row][Min(pos1.col, pos2.col)..if pos1.col <= pos2.col then pos2.col else pos1.col]
      ensures pos2.row < pos1.row ==> res == ""
    {
      res := "";
      var line := pos1.row;
      while line <= pos2.row
        invariant pos1.row <= pos2.row ==> pos1.row <= line <= pos2.row + 1
        invariant pos2.row < pos1.row ==> line == pos1.row && res == ""
        invariant pos1.row <= pos2.row ==> res == Gathered(text, pos1, pos2, line)
        decreases pos2.row + 1 - line
      {
        GatheredStep(text, pos1, pos2, line);
        var (startCol, endCol) := GetStartAndEndColumnsOnALine(pos1, pos2, line, text[line]);
        res := res + text[line][startCol..endCol];
        if line < pos2.row {
          res := res + "\n";
        }
        line := line + 1;
      }
      if pos1.row == pos2.row && !Before(pos2, pos1) {
        BetweenOnOneRow(text, pos1, pos2);
      }
    }

    /** insertText: a string without breaks goes into the row, a lone break
      splits the row, and a string with breaks is inserted piece by piece
      with a break between consecutive pieces. */
    method InsertText(pos: Position, s: string) returns (r: Position)
      requires Valid() && InBounds(text, pos)
      modifies this
      ensures Valid() && InBounds(text, r)
      ensures Edit(text, r) == TextOps.InsertText(old(text), pos, s)
      decreases Rank(s), 1
    {
      if s != "\n" {
        if '\n' in s {
          var splitLines := Split(s);
          r := InsertSplitLines(pos, splitLines);
        } else {
          r := InsertIntoRow(pos, s);
        }
      } else {
        r := SplitRow(pos);
      }
    }

    /** insertText of a string without breaks: the row becomes its head, the
      string and its tail; the caret ends after the string. */
    method InsertIntoRow(pos: Position, s: string) returns (r: Position)
      requires Valid() && InBounds(text, pos) && NoNewline(s)
      modifies this
      ensures Valid() && InBounds(text, r)
      ensures Edit(text, r) == InsertLine(old(text), pos, s)
    {
      var ln := text[pos.row];
      InsertLineInsertedAt(text, pos, s);
      text := text[pos.row := ln[..pos.col] + s + ln[pos.col..]];
      r := Position(pos.row, pos.col + |s|);
    }

    /** insertText of a lone break: the row is cut at the column and its
      tail becomes a new row below; the caret goes to the new row's start. */
    method SplitRow(pos: Position) returns (r: Position)
      requires Valid() && InBounds(text, pos)
      modifies this
      ensures Valid() && InBounds(text, r)
      ensures Edit(text, r) == SplitLine(old(text), pos)
    {
      var begOfLine := text[pos.row][..pos.col];
      var restOfLine := text[pos.row][pos.col..];
      SplitLineInsertedAt(text, pos);
      ghost var before := text;
      text := text[pos.row := begOfLine];
      text := text[..pos.row + 1] + [restOfLine] + text[pos.row + 1..];
      assert text == before[..pos.row] + [begOfLine, restOfLine] + before[pos.row + 1..];
      r := Position(pos.row + 1, 0);
    }

    /** The `forEach` of insertText over the pieces of a string holding
      breaks: each piece is inserted, followed by a break unless it is the
      last one. */
    method InsertSplitLines(pos: Position, splitLines: seq<string>) returns (r: Position)
      requires Valid() && InBounds(text, pos) && |splitLines| >= 1
      requires forall k :: 0 <= k < |splitLines| ==> NoNewline(splitLines[k])
      modifies this
      ensures Valid() && InBounds(text, r)
      ensures Edit(text, r) == InsertPieces(old(text), pos, splitLines, 0)
      decreases 1, 2
    {
      r := pos;
      var idx := 0;
      while idx < |splitLines|
        invariant 0 <= idx <= |splitLines|
        invariant Valid() && InBounds(text, r)
        invariant idx < |splitLines| ==>
                    InsertPieces(text, r, splitLines, idx) == InsertPieces(old(text), pos, splitLines, 0)
        invariant idx == |splitLines| ==> Edit(text, r) == InsertPieces(old(text), pos, splitLines, 0)
      {
        var l := splitLines[idx];
        assert Rank(l) <= 1 by {
          assert NoNewline(l);
        }
        ghost var (t0, r0) := (text, r);
        r := InsertText(r, l);
        assert Edit(text, r) == InsertLine(t0, r0, l);
        if idx < |splitLines| - 1 {
          ghost var (t1, r1) := (text, r);
          r := InsertText(r, "\n");
          assert Edit(text, r) == SplitLine(t1, r1);
        }
        idx := idx + 1;
      }
    }

    /** deleteText: equal ends change nothing; on one row the columns between
      the ends are cut; across rows the tail of the later row is kept, that
      row and the rows between are spliced out, and the earlier row is cut
      at its column and joined with the kept tail. */
    method DeleteText(pos: Position, endPos: Position) returns (r: Position)
      requires pos == endPos || (InBounds(text, pos) && InBounds(text, endPos))
      modifies this
      ensures Edit(text, r) == TextOps.DeleteText(old(text), pos, endPos)
      ensures old(Valid()) ==> Valid()
    {
      if old(Valid()) {
        DeleteTextKeepsValid(text, pos, endPos);
      }
      if pos == endPos {
        return pos;
      }
      if endPos.row == pos.row {
        var ln := text[pos.row];
        if endPos.col < pos.col {
          text := text[pos.row := ln[..endPos.col] + ln[pos.col..]];
          r := endPos;
        } else {
          text := text[pos.row := ln[..pos.col] + ln[endPos.col..]];
          r := pos;
        }
      } else {
        var firstPos, secondPos := endPos, pos;
        if pos.row < endPos.row {
          firstPos, secondPos := pos, endPos;
        }
        JoinRows(firstPos, secondPos);
        r := firstPos;
      }
    }

    /** The cross-row case of deleteText: the tail of the later row is
      kept, that row and the rows between are spliced out, and the earlier
      row is cut at its column and joined with the kept tail. */
    method JoinRows(firstPos: Position, secondPos: Position)
      requires InBounds(text, firstPos) && InBounds(text, secondPos) && firstPos.row < secondPos.row
      modifies this
      ensures text == old(text[..firstPos.row]) + [old(text[firstPos.row][..firstPos.col] + text[secondPos.row][secondPos.col..])]
                      + old(text[secondPos.row + 1..])
    {
      ghost var before := text;
      var restOfEndPos := text[secondPos.row][secondPos.col..];
      text := text[..secondPos.row] + text[secondPos.row + 1..];
      text := text[..firstPos.row + 1] + text[firstPos.row + 1 + (secondPos.row - firstPos.row - 1)..];
      SpliceOutRows(before, firstPos.row, secondPos.row);
      assert text[firstPos.row] == before[firstPos.row];
      ghost var joined := before[firstPos.row][..firstPos.col] + restOfEndPos;
      text := text[firstPos.row := text[firstPos.row][..firstPos.col] + restOfEndPos];
      JoinRow(before, firstPos.row, secondPos.row, joined);
    }
  }
}
