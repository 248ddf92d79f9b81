/** The editing operations of the buffer (src/text.ts) as functions on the
    line array. `TextManager` in text.dfy runs them in place; here they are
    characterised against the flat text of Lines: insertion puts the string
    at the position's offset, deletion cuts the range between two offsets,
    and the two undo each other. */
module TextOps {
  import opened Utils
  import opened Lines

  /** A new line array and the position the caret goes to. */
  datatype Edit = Edit(lines: seq<string>, pos: Position)

  function Min(a: nat, b: nat): nat {
    if a <= b then a else b
  }

  // ---------------------------------------------------------------------
  // Cursor movement

  /** The reference for one step right: the next column, over the line break
      to the start of the next row, or nowhere at the end of the buffer. */
  function NextPosition(L: seq<string>, p: Position): Position
    requires InBounds(L, p)
  {
    if p.col < |L[p.row]| then Position(p.row, p.col + 1)
    else if p.row + 1 < |L| then Position(p.row + 1, 0)
    else p
  }

  /** The reference for one step left: the previous column, over the line
      break to the end of the previous row, or nowhere at (0, 0). */
  function PrevPosition(L: seq<string>, p: Position): Position
    requires InBounds(L, p)
  {
    if p.col > 0 then Position(p.row, p.col - 1)
    else if p.row > 0 then Position(p.row - 1, |L[p.row - 1]|)
    else p
  }

  /** One step right is one character of the flat text, clamped at the end. */
  lemma NextPositionOffset(L: seq<string>, p: Position)
    requires InBounds(L, p)
    ensures InBounds(L, NextPosition(L, p))
    ensures Offset(L, NextPosition(L, p))
         == if Offset(L, p) < LastOffset(L) then Offset(L, p) + 1 else LastOffset(L)
  {
    OffsetAtMostLast(L, p);
    if p.col < |L[p.row]| {
      OffsetAtMostLast(L, Position(p.row, |L[p.row]|));
    } else if p.row + 1 < |L| {
      BreakAfterRow(L, p.row);
      OffsetAtMostLast(L, Position(p.row + 1, 0));
    } else {
      LastOffsetIsEndOfLastLine(L);
    }
  }

  /** One step left is one character of the flat text, clamped at 0. */
  lemma PrevPositionOffset(L: seq<string>, p: Position)
    requires InBounds(L, p)
    ensures InBounds(L, PrevPosition(L, p))
    ensures Offset(L, PrevPosition(L, p)) == if Offset(L, p) > 0 then Offset(L, p) - 1 else 0
  {
    if p.col > 0 {
    } else if p.row > 0 {
      BreakAfterRow(L, p.row - 1);
    } else {
      assert L[..0] == [];
    }
  }

  /** The clamped offset that a horizontal move of `n` characters aims at. */
  function MovedOffset(L: seq<string>, p: Position, n: int): nat
    requires InBounds(L, p)
  {
    var target := Offset(L, p) + n;
    if target < 0 then 0 else if target > LastOffset(L) then LastOffset(L) else target
  }

  /** A move by +1 or -1 that lands on the clamped offset is the one-step
      move: the only in-bounds position with that offset. */
  lemma OneStepIsMovedOffset(L: seq<string>, p: Position, n: int, r: Position)
    requires InBounds(L, p) && InBounds(L, r)
    requires n == 1 || n == -1
    requires Offset(L, r) == MovedOffset(L, p, n)
    ensures n == 1 ==> r == NextPosition(L, p)
    ensures n == -1 ==> r == PrevPosition(L, p)
  {
    OffsetAtMostLast(L, p);
    if n == 1 {
      NextPositionOffset(L, p);
      OffsetInjective(L, r, NextPosition(L, p));
    } else {
      PrevPositionOffset(L, p);
      OffsetInjective(L, r, PrevPosition(L, p));
    }
  }

  /** Vertical move (changePosUpOrDown): `n == 1` goes down a row, anything
      else goes up; on the last (first) row nothing moves, otherwise the
      column is kept when the target row is long enough and clamped to its
      length when not. */
  function MoveUpOrDown(L: seq<string>, pos: Position, n: int): (r: Position)
    requires n != 1 ==> pos.row <= |L|
    ensures n == 1 && pos.row + 1 >= |L| ==> r == pos
    ensures n != 1 && pos.row == 0 ==> r == pos
    ensures n == 1 && pos.row + 1 < |L| ==> r == Position(pos.row + 1, Min(pos.col, |L[pos.row + 1]|))
    ensures n != 1 && 0 < pos.row ==> r == Position(pos.row - 1, Min(pos.col, |L[pos.row - 1]|))
  {
    if n == 1 then
      if pos.row + 1 >= |L| then pos
      else if pos.col <= |L[pos.row + 1]| then pos.(row := pos.row + 1)
      else Position(pos.row + 1, |L[pos.row + 1]|)
    else
      if pos.row == 0 then pos
      else if pos.col <= |L[pos.row - 1]| then pos.(row := pos.row - 1)
      else Position(pos.row - 1, |L[pos.row - 1]|)
  }

  /** Moving down and then back up returns to the start whenever the row
      below was long enough for the column; moving up and back down does
      the same for the row above. */
  lemma MoveUpOrDownUndone(L: seq<string>, pos: Position)
    requires InBounds(L, pos)
    ensures pos.row + 1 < |L| && pos.col <= |L[pos.row + 1]| ==> MoveUpOrDown(L, MoveUpOrDown(L, pos, 1), -1) == pos
    ensures 0 < pos.row && pos.col <= |L[pos.row - 1]| ==> MoveUpOrDown(L, MoveUpOrDown(L, pos, -1), 1) == pos
  {
  }

  /** A vertical move keeps an in-bounds position in bounds. */
  lemma MoveUpOrDownInBounds(L: seq<string>, pos: Position, n: int)
    requires InBounds(L, pos)
    ensures InBounds(L, MoveUpOrDown(L, pos, n))
  {
  }

  /** Clamping of a raw position (getEditPositionFromPos): below the last row
      goes to the end of the last line, past the end of a line goes to the
      end of that line, and an in-bounds position is left alone. */
  function EditPosition(L: seq<string>, pos: Position): (r: Position)
    requires |L| >= 1
    ensures InBounds(L, r)
    ensures InBounds(L, pos) ==> r == pos
    ensures pos.row >= |L| ==> r == Position(|L| - 1, |L[|L| - 1]|)
    ensures pos.row < |L| ==> r.row == pos.row && r.col == Min(pos.col, |L[pos.row]|)
  {
    if pos.row >= |L| then Position(|L| - 1, |L[|L| - 1]|)
    else if pos.col > |L[pos.row]| then Position(pos.row, |L[pos.row]|)
    else pos
  }

  /** Clamping twice is clamping once. */
  lemma EditPositionIdempotent(L: seq<string>, pos: Position)
    requires |L| >= 1
    ensures EditPosition(L, EditPosition(L, pos)) == EditPosition(L, pos)
  {
  }

  // ---------------------------------------------------------------------
  // Text between two positions

  /** The flat text from `a` up to `b`. */
  function Between(L: seq<string>, a: Position, b: Position): string
    requires InBounds(L, a) && InBounds(L, b) && !Before(b, a)
  {
    OffsetOrder(L, b, a);
    FlatAt(L, b);
    Flat(L)[Offset(L, a)..Offset(L, b)]
  }

  /** On one row the text between is the slice of that line. */
  lemma BetweenOnOneRow(L: seq<string>, a: Position, b: Position)
    requires InBounds(L, a) && InBounds(L, b) && a.row == b.row && a.col <= b.col
    ensures Between(L, a, b) == L[a.row][a.col..b.col]
  {
    FlatAt(L, a);
    FlatAt(L, b);
    var pre := Flat(L[..a.row]);
    var ln := L[a.row];
    assert Flat(L)[..Offset(L, b)] == pre + ln[..b.col];
    assert Flat(L)[..Offset(L, b)][Offset(L, a)..] == ln[..b.col][a.col..];
  }

  /** Across rows the text between is the tail of the first line, a break,
      the whole lines in between each with its break, and the head of the
      last line. */
  lemma BetweenAcrossRows(L: seq<string>, a: Position, b: Position)
    requires InBounds(L, a) && InBounds(L, b) && a.row < b.row
    ensures Between(L, a, b) == L[a.row][a.col..] + "\n" + Flat(L[a.row + 1..b.row]) + L[b.row][..b.col]
  {
    var ta, M, hb := L[a.row][a.col..], Flat(L[a.row + 1..b.row]), L[b.row][..b.col];
    var t := ta + "\n" + M + hb;
    var u := L[b.row][b.col..] + "\n" + Flat(L[b.row + 1..]);
    FlatAt(L, a);
    FlatAt(L, b);
    OffsetOrder(L, a, b);
    RowsUpTo(L, a.row + 1, b);
    RegroupFour(ta + "\n", M, hb, u);
    SliceBetweenSuffixes(Flat(L), Offset(L, a), Offset(L, b), t, u);
  }

  /** The rows from `r` on, cut at position `b` of a later row. */
  lemma RowsUpTo(L: seq<string>, r: nat, b: Position)
    requires InBounds(L, b) && r <= b.row
    ensures Flat(L[r..]) == Flat(L[r..b.row]) + (L[b.row][..b.col] + (L[b.row][b.col..] + "\n" + Flat(L[b.row + 1..])))
  {
    var hb := L[b.row][..b.col];
    assert L[r..] == L[r..b.row] + L[b.row..];
    FlatAppend(L[r..b.row], L[b.row..]);
    FlatCons(L[b.row..]);
    assert L[b.row..][1..] == L[b.row + 1..];
    assert L[b.row] == hb + L[b.row][b.col..];
    RegroupLine(hb, L[b.row][b.col..], Flat(L[b.row + 1..]));
  }


  /** So the text between splits back into exactly those pieces, and holds
      `b.row - a.row` breaks. */
  lemma SplitBetween(L: seq<string>, a: Position, b: Position)
    requires ValidLines(L) && InBounds(L, a) && InBounds(L, b) && a.row < b.row
    ensures Split(Between(L, a, b)) == [L[a.row][a.col..]] + L[a.row + 1..b.row] + [L[b.row][..b.col]]
  {
    BetweenAcrossRows(L, a, b);
    var head, mid, tail := L[a.row][a.col..], L[a.row + 1..b.row], L[b.row][..b.col];
    var P := [head] + mid + [tail];
    FlatAppend([head] + mid, [tail]);
    FlatAppend([head], mid);
    FlatSingle(head);
    FlatSingle(tail);
    assert Flat(P) == Between(L, a, b) + "\n";
    NoNewlineSlice(L[a.row], a.col, |L[a.row]|);
    NoNewlineSlice(L[b.row], 0, b.col);
    assert head == L[a.row][a.col..|L[a.row]|] && tail == L[b.row][0..b.col];
    forall i | 0 <= i < |P|
      ensures NoNewline(P[i])
    {
      if 0 < i < |P| - 1 {
        assert P[i] == L[a.row + i];
      }
    }
    FlatInjective(Split(Between(L, a, b)), P);
  }

  lemma Regroup(a: string, b: string, c: string, d: string, e: string)
    ensures a + (b + c + d + "\n") + e == (a + b) + c + (d + "\n" + e)
  {
  }

  /** What getTextBetweenPositions has gathered before visiting row `line`:
      nothing at the first row, the flat text from `a` up to the start of
      `line` after that, and once past the last row the whole result: the
      slice between the columns on one row, the text between otherwise. */
  function Gathered(L: seq<string>, a: Position, b: Position, line: nat): string
    requires InBounds(L, a) && InBounds(L, b) && a.row <= line <= b.row + 1
  {
    if line == a.row then ""
    else if line <= b.row then
      NextRowStart(L, a.row);
      RowStartMonotone(L, a.row + 1, line);
      RowStartMonotone(L, line, |L|);
      assert L[..|L|] == L;
      Flat(L)[Offset(L, a)..|Flat(L[..line])|]
    else if a.row == b.row then L[a.row][Min(a.col, b.col)..if a.col <= b.col then b.col else a.col]
    else Between(L, a, b)
  }

  /** Visiting row `line` appends its selected columns, and a break unless
      it is the last row. */
  lemma GatheredStep(L: seq<string>, a: Position, b: Position, line: nat)
    requires InBounds(L, a) && InBounds(L, b) && a.row <= line <= b.row
    ensures var (s, e) := GetStartAndEndColumnsOnALine(a, b, line, L[line]);
            0 <= s <= e <= |L[line]|
            && Gathered(L, a, b, line + 1)
               == Gathered(L, a, b, line) + L[line][s..e] + (if line < b.row then "\n" else "")
  {
    ColumnsWithinLine(a, b, line, L[line]);
    if a.row < line < b.row {
      GatheredInner(L, a, b, line);
      assert L[line][0..|L[line]|] == L[line];
    } else if line == a.row && line < b.row {
      GatheredFirst(L, a, b);
    } else if a.row < line && line == b.row {
      GatheredLast(L, a, b);
    }
  }

  /** A row strictly inside the span adds the whole row and its break. */
  lemma GatheredInner(L: seq<string>, a: Position, b: Position, line: nat)
    requires InBounds(L, a) && InBounds(L, b) && a.row < line < b.row
    ensures Gathered(L, a, b, line + 1) == Gathered(L, a, b, line) + L[line] + "\n"
  {
    var F, o1 := Flat(L), Offset(L, a);
    FlatAt(L, a);
    RowInFlat(L, line);
    RowStartMonotone(L, a.row + 1, line);
    NextRowStart(L, a.row);
    AdjacentSlices(F, o1, |Flat(L[..line])|, |Flat(L[..line + 1])|);
  }

  /** The first row of a span over several rows adds its tail and a break. */
  lemma GatheredFirst(L: seq<string>, a: Position, b: Position)
    requires InBounds(L, a) && InBounds(L, b) && a.row < b.row
    ensures Gathered(L, a, b, a.row + 1) == L[a.row][a.col..] + "\n"
  {
    FlatAt(L, a);
    NextRowStart(L, a.row);
  }

  /** The last row of a span over several rows adds its head, and the
      result is the text between the ends. */
  lemma GatheredLast(L: seq<string>, a: Position, b: Position)
    requires InBounds(L, a) && InBounds(L, b) && a.row < b.row
    ensures Gathered(L, a, b, b.row + 1) == Gathered(L, a, b, b.row) + L[b.row][..b.col]
  {
    var F, o1, line := Flat(L), Offset(L, a), b.row;
    FlatAt(L, a);
    RowInFlat(L, line);
    RowStartMonotone(L, a.row + 1, line);
    NextRowStart(L, a.row);
    FlatAt(L, b);
    assert F[|Flat(L[..line])|..Offset(L, b)] == L[line][..b.col];
    AdjacentSlices(F, o1, |Flat(L[..line])|, Offset(L, b));
  }


  lemma RegroupCut(a: string, b: string, d: string, e: string)
    ensures a + (b + d + "\n") + e == (a + b) + (d + "\n" + e)
  {
  }

  lemma RegroupLine(x: string, y: string, z: string)
    ensures x + y + "\n" + z == x + (y + "\n" + z)
  {
  }

  lemma RegroupFour(x: string, y: string, z: string, w: string)
    ensures x + (y + (z + w)) == x + y + z + w
  {
  }

  lemma FlatSingle(s: string)
    ensures Flat([s]) == s + "\n"
  {
    assert [s][..0] == [];
  }

  lemma NoNewlineSlice(s: string, i: nat, j: nat)
    requires NoNewline(s) && i <= j <= |s|
    ensures NoNewline(s[i..j])
  {
    forall k | 0 <= k < j - i
      ensures s[i..j][k] != '\n'
    {
      assert s[i..j][k] == s[i + k];
      assert s[i + k] in s;
    }
  }

  // ---------------------------------------------------------------------
  // Insertion

  /** Inserts a string without breaks into row `p.row` at column `p.col`. */
  function InsertLine(L: seq<string>, p: Position, s: string): (r: Edit)
    requires InBounds(L, p)
    ensures InBounds(r.lines, r.pos) && |r.lines| == |L|
  {
    var ln := L[p.row];
    Edit(L[p.row := ln[..p.col] + s + ln[p.col..]], Position(p.row, p.col + |s|))
  }

  /** Breaks row `p.row` at column `p.col`; the caret goes to the start of
      the new row. */
  function SplitLine(L: seq<string>, p: Position): (r: Edit)
    requires InBounds(L, p)
    ensures InBounds(r.lines, r.pos) && |r.lines| == |L| + 1
  {
    var ln := L[p.row];
    Edit(L[..p.row] + [ln[..p.col], ln[p.col..]] + L[p.row + 1..], Position(p.row + 1, 0))
  }

  /** Inserts `pieces[i..]` one after the other with a line break between
      consecutive pieces, as the `forEach` over the split string does. */
  function InsertPieces(L: seq<string>, p: Position, pieces: seq<string>, i: nat): (r: Edit)
    requires InBounds(L, p) && i < |pieces|
    ensures InBounds(r.lines, r.pos)
    decreases |pieces| - i
  {
    var e := InsertLine(L, p, pieces[i]);
    if i == |pieces| - 1 then e
    else
      var e2 := SplitLine(e.lines, e.pos);
      InsertPieces(e2.lines, e2.pos, pieces, i + 1)
  }

  /** insertText: a lone break splits the line, a string holding breaks is
      inserted piece by piece, any other string goes into the line. */
  function InsertText(L: seq<string>, p: Position, s: string): (r: Edit)
    requires InBounds(L, p)
    ensures InBounds(r.lines, r.pos)
  {
    if s == "\n" then SplitLine(L, p)
    else if '\n' in s then InsertPieces(L, p, Split(s), 0)
    else InsertLine(L, p, s)
  }

  /** The pieces joined with a break between consecutive ones (`join('\n')`). */
  function Joined(pieces: seq<string>): string
    requires |pieces| >= 1
  {
    if |pieces| == 1 then pieces[0] else pieces[0] + "\n" + Joined(pieces[1..])
  }

  lemma {:induction false} FlatIsJoined(pieces: seq<string>)
    requires |pieces| >= 1
    ensures Flat(pieces) == Joined(pieces) + "\n"
    decreases |pieces|
  {
    FlatCons(pieces);
    if |pieces| > 1 {
      FlatIsJoined(pieces[1..]);
    } else {
      assert pieces[1..] == [];
    }
  }

  /** Splitting and joining again gives the string back. */
  lemma JoinedSplit(s: string)
    ensures Joined(Split(s)) == s
  {
    FlatIsJoined(Split(s));
    var j := Joined(Split(s));
    assert j + "\n" == s + "\n";
    assert j == (j + "\n")[..|j|] == (s + "\n")[..|s|] == s;
  }

  /** `L2` with caret `q` is `L` with `t` put in at `p`: the flat text gains
      exactly `t` at the offset of `p`, and `q` sits right after it. Both
      arrays keep the buffer invariant and both positions are in bounds. */
  predicate InsertedAt(L: seq<string>, p: Position, t: string, L2: seq<string>, q: Position) {
    ValidLines(L) && ValidLines(L2) && InBounds(L, p) && InBounds(L2, q)
    && Offset(L, p) <= |Flat(L)|
    && Flat(L2) == Flat(L)[..Offset(L, p)] + t + Flat(L)[Offset(L, p)..]
    && Offset(L2, q) == Offset(L, p) + |t|
  }

  /** Replacing row `p.row` by rows whose flat text is that row with `t`
      put in at column `p.col` puts `t` into the flat text at the offset of
      `p`. */
  lemma RowSplice(L: seq<string>, p: Position, t: string, M: seq<string>)
    requires ValidLines(L) && InBounds(L, p) && |M| >= 1
    requires forall i :: 0 <= i < |M| ==> NoNewline(M[i])
    requires Flat(M) == L[p.row][..p.col] + t + L[p.row][p.col..] + "\n"
    ensures ValidLines(L[..p.row] + M + L[p.row + 1..])
    ensures Offset(L, p) <= |Flat(L)|
    ensures Flat(L[..p.row] + M + L[p.row + 1..]) == Flat(L)[..Offset(L, p)] + t + Flat(L)[Offset(L, p)..]
  {
    var r := p.row;
    var pre, h, tl, post := Flat(L[..r]), L[r][..p.col], L[r][p.col..], Flat(L[r + 1..]);
    FlatAt(L, p);
    FlatThree(L[..r], M, L[r + 1..]);
    Regroup(pre, h, t, tl, post);
    ReplaceRowValid(L, r, M);
  }

  lemma ReplaceRowValid(L: seq<string>, r: nat, M: seq<string>)
    requires ValidLines(L) && r < |L| && |M| >= 1
    requires forall i :: 0 <= i < |M| ==> NoNewline(M[i])
    ensures ValidLines(L[..r] + M + L[r + 1..])
  {
    var N := L[..r] + M + L[r + 1..];
    forall i | 0 <= i < |N|
      ensures NoNewline(N[i])
    {
      if i < r {
        assert N[i] == L[i];
      } else if i >= r + |M| {
        assert N[i] == L[i - |M| + 1];
      }
    }
  }

  lemma InsertLineInsertedAt(L: seq<string>, p: Position, s: string)
    requires ValidLines(L) && InBounds(L, p) && NoNewline(s)
    ensures InsertedAt(L, p, s, InsertLine(L, p, s).lines, InsertLine(L, p, s).pos)
  {
    var ln := L[p.row];
    var nl := ln[..p.col] + s + ln[p.col..];
    var r := InsertLine(L, p, s);
    assert r.lines == L[..p.row] + [nl] + L[p.row + 1..];
    FlatSingle(nl);
    NoNewlineSlice(ln, 0, p.col);
    NoNewlineSlice(ln, p.col, |ln|);
    assert ln[..p.col] == ln[0..p.col] && ln[p.col..] == ln[p.col..|ln|];
    RowSplice(L, p, s, [nl]);
    assert r.lines[..p.row] == L[..p.row];
  }

  lemma SplitLineInsertedAt(L: seq<string>, p: Position)
    requires ValidLines(L) && InBounds(L, p)
    ensures InsertedAt(L, p, "\n", SplitLine(L, p).lines, SplitLine(L, p).pos)
  {
    var ln := L[p.row];
    var h, tl := ln[..p.col], ln[p.col..];
    var M := [h, tl];
    var r := SplitLine(L, p);
    FlatCons(M);
    assert M[1..] == [tl];
    FlatSingle(tl);
    NoNewlineSlice(ln, 0, p.col);
    NoNewlineSlice(ln, p.col, |ln|);
    assert h == ln[0..p.col] && tl == ln[p.col..|ln|];
    RowSplice(L, p, "\n", M);
    assert r.lines[..p.row + 1] == L[..p.row] + [h];
    FlatAppend(L[..p.row], [h]);
    FlatSingle(h);
  }

  /** Inserting `t1` and then `t2` at the caret the first insertion left is
      inserting `t1 + t2`. */
  lemma InsertedAtCompose(L: seq<string>, p: Position, t1: string, L1: seq<string>, q1: Position,
                          t2: string, L2: seq<string>, q2: Position)
    requires InsertedAt(L, p, t1, L1, q1) && InsertedAt(L1, q1, t2, L2, q2)
    ensures InsertedAt(L, p, t1 + t2, L2, q2)
  {
    var F, o := Flat(L), Offset(L, p);
    var F1, o1 := Flat(L1), Offset(L1, q1);
    assert F1 == (F[..o] + t1) + F[o..];
    assert F1[..o1] == F[..o] + t1;
    assert F1[o1..] == F[o..];
  }

  /** What was inserted, where, determines the result. */
  lemma InsertedAtUnique(L: seq<string>, p: Position, t: string,
                         L2: seq<string>, q2: Position, L3: seq<string>, q3: Position)
    requires InsertedAt(L, p, t, L2, q2) && InsertedAt(L, p, t, L3, q3)
    ensures L2 == L3 && q2 == q3
  {
    FlatInjective(L2, L3);
    OffsetInjective(L2, q2, q3);
  }

  /** Two arrays into which the same text at the same place gives the same
      result are the same. */
  lemma InsertedAtCancel(L: seq<string>, M: seq<string>, p: Position, t: string, L2: seq<string>, q: Position)
    requires InsertedAt(L, p, t, L2, q) && InsertedAt(M, p, t, L2, q)
    ensures L == M
  {
    var o := Offset(L, p);
    assert Offset(M, p) == o;
    var F2 := Flat(L2);
    assert Flat(L)[..o] == F2[..o] == Flat(M)[..o];
    assert Flat(L)[o..] == F2[o + |t|..] == Flat(M)[o..];
    assert Flat(L) == Flat(L)[..o] + Flat(L)[o..];
    assert Flat(M) == Flat(M)[..o] + Flat(M)[o..];
    FlatInjective(L, M);
  }

  /** The start of an insertion stays where it was, before (or at) its end. */
  lemma InsertedAtKeepsStart(L: seq<string>, p: Position, t: string, L2: seq<string>, q: Position)
    requires InsertedAt(L, p, t, L2, q)
    ensures InBounds(L2, p) && Offset(L2, p) == Offset(L, p) && !Before(q, p)
  {
    var o := Offset(L, p);
    OffsetAtMostLast(L, p);
    assert Flat(L2)[..o] == Flat(L)[..o];
    assert |Flat(L2)| == |Flat(L)| + |t|;
    PrefixFixesPosition(L, L2, o, p);
    OffsetOrder(L2, q, p);
  }

  /** Inserting the pieces from `i` on inserts them joined by breaks. */
  lemma {:induction false} InsertPiecesInsertedAt(L: seq<string>, p: Position, pieces: seq<string>, i: nat)
    requires ValidLines(L) && InBounds(L, p) && i < |pieces|
    requires forall k :: 0 <= k < |pieces| ==> NoNewline(pieces[k])
    ensures InsertedAt(L, p, Joined(pieces[i..]), InsertPieces(L, p, pieces, i).lines,
                       InsertPieces(L, p, pieces, i).pos)
    decreases |pieces| - i
  {
    var e := InsertLine(L, p, pieces[i]);
    InsertLineInsertedAt(L, p, pieces[i]);
    if i == |pieces| - 1 {
      assert pieces[i..] == [pieces[i]];
    } else {
      var e2 := SplitLine(e.lines, e.pos);
      SplitLineInsertedAt(e.lines, e.pos);
      InsertPiecesInsertedAt(e2.lines, e2.pos, pieces, i + 1);
      InsertedAtCompose(L, p, pieces[i], e.lines, e.pos, "\n", e2.lines, e2.pos);
      InsertedAtCompose(L, p, pieces[i] + "\n", e2.lines, e2.pos, Joined(pieces[i + 1..]),
                        InsertPieces(L, p, pieces, i).lines, InsertPieces(L, p, pieces, i).pos);
      assert pieces[i..][1..] == pieces[i + 1..];
      assert Joined(pieces[i..]) == pieces[i] + "\n" + Joined(pieces[i + 1..]);
    }
  }

  /** insertText puts exactly `s` in at `p` and leaves the caret after it. */
  lemma InsertTextInsertedAt(L: seq<string>, p: Position, s: string)
    requires ValidLines(L) && InBounds(L, p)
    ensures InsertedAt(L, p, s, InsertText(L, p, s).lines, InsertText(L, p, s).pos)
  {
    if s == "\n" {
      SplitLineInsertedAt(L, p);
    } else if '\n' in s {
      InsertPiecesInsertedAt(L, p, Split(s), 0);
      assert Split(s)[0..] == Split(s);
      JoinedSplit(s);
    } else {
      InsertLineInsertedAt(L, p, s);
    }
  }

  /** So insertText is the only result an insertion of `s` at `p` can have. */
  lemma InsertTextOfInsertedAt(L: seq<string>, p: Position, s: string, L2: seq<string>, q: Position)
    requires InsertedAt(L, p, s, L2, q)
    ensures InsertText(L, p, s) == Edit(L2, q)
  {
    InsertTextInsertedAt(L, p, s);
    var r := InsertText(L, p, s);
    InsertedAtUnique(L, p, s, r.lines, r.pos, L2, q);
  }

  /** A string without breaks changes only its own row, which becomes
      prefix + s + suffix; the line count stays and the caret moves |s| right. */
  lemma InsertWithoutBreak(L: seq<string>, p: Position, s: string)
    requires InBounds(L, p) && s != "\n" && NoNewline(s)
    ensures |InsertText(L, p, s).lines| == |L|
    ensures InsertText(L, p, s).lines[p.row] == L[p.row][..p.col] + s + L[p.row][p.col..]
    ensures forall i :: 0 <= i < |L| && i != p.row ==> InsertText(L, p, s).lines[i] == L[i]
    ensures InsertText(L, p, s).pos == Position(p.row, p.col + |s|)
  {
  }

  /** A lone break splits the row at the column: one more line, the caret at
      the start of the new row. */
  lemma InsertBreak(L: seq<string>, p: Position)
    requires InBounds(L, p)
    ensures InsertText(L, p, "\n").lines
         == L[..p.row] + [L[p.row][..p.col], L[p.row][p.col..]] + L[p.row + 1..]
    ensures InsertText(L, p, "\n").pos == Position(p.row + 1, 0)
  {
  }

  lemma SplitExample()
    ensures Split("\nXY") == ["", "XY"]
  {
    assert "\nXY"[..2] == "\nX" && "\nX"[..1] == "\n" && "\n"[..0] == "";
    assert Split("") == [""];
    assert Split("\n") == ["", ""];
    var x := Split("\n");
    assert x[..1] == [""] && x[1] + ['X'] == "X";
    assert Split("\nX") == ["", "X"];
    var y := Split("\nX");
    assert y[..1] == [""] && y[1] + ['Y'] == "XY";
  }

  /** The worked case: "\nXY" at the end of "abc" in ["abc", "def"]. */
  lemma InsertExample()
    ensures InsertText(["abc", "def"], Position(0, 3), "\nXY") == Edit(["abc", "XY", "def"], Position(1, 2))
  {
    var L, p0, s, P := ["abc", "def"], Position(0, 3), "\nXY", ["", "XY"];
    SplitExample();
    assert s != "\n" && s[0] == '\n';
    var e := InsertLine(L, p0, "");
    assert "abc"[..3] + "" + "abc"[3..] == "abc";
    assert e == Edit(L, p0);
    var e2 := SplitLine(L, p0);
    assert e2 == Edit(["abc", "", "def"], Position(1, 0));
    var e3 := InsertLine(e2.lines, e2.pos, "XY");
    assert ""[..0] + "XY" + ""[0..] == "XY";
    assert e3 == Edit(["abc", "XY", "def"], Position(1, 2));
    assert InsertPieces(e2.lines, e2.pos, P, 1) == e3;
    assert InsertPieces(L, p0, P, 0) == e3;
  }

  // ---------------------------------------------------------------------
  // Deletion

  /** deleteText: equal ends change nothing; on one row the columns between
      the ends go; across rows the first row keeps its head, takes the tail
      of the last row, and the rows after it up to the last one go. The
      caret goes to the earlier end. */
  function DeleteText(L: seq<string>, p: Position, e: Position): (r: Edit)
    requires p == e || (InBounds(L, p) && InBounds(L, e))
    ensures r.pos == Earlier(p, e)
  {
    if p == e then Edit(L, p)
    else if e.row == p.row then
      var ln := L[p.row];
      if e.col < p.col then Edit(L[p.row := ln[..e.col] + ln[p.col..]], e)
      else Edit(L[p.row := ln[..p.col] + ln[e.col..]], p)
    else
      var first := if p.row < e.row then p else e;
      var second := if p.row < e.row then e else p;
      var joined := L[first.row][..first.col] + L[second.row][second.col..];
      Edit(L[..first.row] + [joined] + L[second.row + 1..], first)
  }

  /** Same-row deletion does not depend on the order of the two ends, cuts
      the columns between them out of that row and leaves every other row
      as it was. */
  lemma DeleteOnOneRow(L: seq<string>, p: Position, e: Position)
    requires InBounds(L, p) && InBounds(L, e) && p.row == e.row
    ensures DeleteText(L, p, e) == DeleteText(L, e, p)
    ensures |DeleteText(L, p, e).lines| == |L|
    ensures DeleteText(L, p, e).lines[p.row]
         == L[p.row][..Min(p.col, e.col)] + L[p.row][if p.col <= e.col then e.col else p.col..]
    ensures DeleteText(L, p, e).lines
         == L[p.row := L[p.row][..Min(p.col, e.col)] + L[p.row][if p.col <= e.col then e.col else p.col..]]
  {
    if p.col == e.col {
      assert L[p.row][..p.col] + L[p.row][p.col..] == L[p.row];
    }
  }

  /** Cross-row deletion leaves `b.row - a.row` fewer lines. */
  lemma DeleteAcrossRows(L: seq<string>, p: Position, e: Position)
    requires InBounds(L, p) && InBounds(L, e) && p.row != e.row
    ensures |DeleteText(L, p, e).lines| == |L| - (Later(p, e).row - Earlier(p, e).row)
    ensures DeleteText(L, p, e).lines[Earlier(p, e).row]
         == L[Earlier(p, e).row][..Earlier(p, e).col] + L[Later(p, e).row][Later(p, e).col..]
    ensures DeleteText(L, p, e).lines[..Earlier(p, e).row] == L[..Earlier(p, e).row]
    ensures DeleteText(L, p, e).lines[Earlier(p, e).row + 1..] == L[Later(p, e).row + 1..]
  {
  }

  /** The flat text after a deletion that is not a no-op: what preceded the
      earlier end, then what followed the later end. */
  lemma DeleteTextFlat(L: seq<string>, a: Position, b: Position, D: seq<string>)
    requires ValidLines(L) && InBounds(L, a) && InBounds(L, b) && Before(a, b)
    requires D == L[..a.row] + [L[a.row][..a.col] + L[b.row][b.col..]] + L[b.row + 1..]
    ensures ValidLines(D) && D[..a.row] == L[..a.row] && InBounds(D, a)
    ensures Offset(L, a) <= Offset(L, b) < |Flat(L)|
    ensures Flat(D) == Flat(L)[..Offset(L, a)] + Flat(L)[Offset(L, b)..]
  {
    var ha, tb := L[a.row][..a.col], L[b.row][b.col..];
    var pre, post := Flat(L[..a.row]), Flat(L[b.row + 1..]);
    FlatAt(L, a);
    FlatAt(L, b);
    OffsetOrder(L, a, b);
    FlatThree(L[..a.row], [ha + tb], L[b.row + 1..]);
    FlatSingle(ha + tb);
    RegroupCut(pre, ha, tb, post);
    DeleteTextValid(L, a, b, D);
  }

  lemma DeleteTextValid(L: seq<string>, a: Position, b: Position, D: seq<string>)
    requires ValidLines(L) && InBounds(L, a) && InBounds(L, b) && a.row <= b.row
    requires D == L[..a.row] + [L[a.row][..a.col] + L[b.row][b.col..]] + L[b.row + 1..]
    ensures ValidLines(D) && D[..a.row] == L[..a.row] && InBounds(D, a)
  {
    NoNewlineSlice(L[a.row], 0, a.col);
    NoNewlineSlice(L[b.row], b.col, |L[b.row]|);
    assert L[a.row][..a.col] == L[a.row][0..a.col] && L[b.row][b.col..] == L[b.row][b.col..|L[b.row]|];
    forall i | 0 <= i < |D|
      ensures NoNewline(D[i])
    {
      if i < a.row {
        assert D[i] == L[i];
      } else if i > a.row {
        assert D[i] == L[i + b.row - a.row];
      }
    }
  }

  /** deleteText removes exactly the text between the two ends: putting that
      text back at the earlier end gives the array it started from, with the
      caret on the later end. */
  lemma DeleteTextInsertedAt(L: seq<string>, p: Position, e: Position)
    requires ValidLines(L) && InBounds(L, p) && InBounds(L, e)
    ensures InsertedAt(DeleteText(L, p, e).lines, Earlier(p, e),
                       Between(L, Earlier(p, e), Later(p, e)), L, Later(p, e))
  {
    var a, b := Earlier(p, e), Later(p, e);
    var D := DeleteText(L, p, e).lines;
    var t := Between(L, a, b);
    OffsetOrder(L, a, b);
    FlatAt(L, b);
    var oa, ob := Offset(L, a), Offset(L, b);
    var F := Flat(L);
    assert F == F[..oa] + t + F[ob..];
    if p == e {
      assert D == L;
    } else {
      if a.row == b.row {
        assert D == L[a.row := L[a.row][..a.col] + L[a.row][b.col..]];
        assert D == L[..a.row] + [L[a.row][..a.col] + L[b.row][b.col..]] + L[b.row + 1..];
      }
      DeleteTextFlat(L, a, b, D);
      assert Flat(D)[..oa] == F[..oa];
      assert Flat(D)[oa..] == F[ob..];
    }
  }

  lemma DeleteTextKeepsValid(L: seq<string>, p: Position, e: Position)
    requires ValidLines(L) && (p == e || (InBounds(L, p) && InBounds(L, e)))
    ensures ValidLines(DeleteText(L, p, e).lines)
  {
    if p != e {
      DeleteTextInsertedAt(L, p, e);
    }
  }

  /** The insert/delete round trip: deleting what insertText put in brings
      the array back, with the caret at the insertion point; the order in
      which the two ends are given does not matter. */
  lemma DeleteAfterInsert(L: seq<string>, p: Position, s: string)
    requires ValidLines(L) && InBounds(L, p)
    ensures InBounds(InsertText(L, p, s).lines, p)
    ensures var r := InsertText(L, p, s);
            DeleteText(r.lines, p, r.pos) == Edit(L, p) && DeleteText(r.lines, r.pos, p) == Edit(L, p)
  {
    var r := InsertText(L, p, s);
    InsertTextInsertedAt(L, p, s);
    DeleteOfInsertedAt(L, p, s, r.lines, r.pos);
  }

  lemma DeleteOfInsertedAt(L: seq<string>, p: Position, t: string, L2: seq<string>, q: Position)
    requires InsertedAt(L, p, t, L2, q)
    ensures InBounds(L2, p)
    ensures DeleteText(L2, p, q) == Edit(L, p) && DeleteText(L2, q, p) == Edit(L, p)
  {
    InsertedAtKeepsStart(L, p, t, L2, q);
    var o := Offset(L, p);
    assert Earlier(p, q) == p && Later(p, q) == q && Earlier(q, p) == p && Later(q, p) == q;
    assert Between(L2, p, q) == t;
    DeleteTextInsertedAt(L2, p, q);
    InsertedAtCancel(DeleteText(L2, p, q).lines, L, p, t, L2, q);
    DeleteTextInsertedAt(L2, q, p);
    InsertedAtCancel(DeleteText(L2, q, p).lines, L, p, t, L2, q);
  }

  /** The delete/insert round trip: putting the deleted text back at the
      earlier end brings the array back, with the caret on the later end. */
  lemma InsertAfterDelete(L: seq<string>, p: Position, e: Position)
    requires ValidLines(L) && InBounds(L, p) && InBounds(L, e)
    ensures var d := DeleteText(L, p, e);
            InsertText(d.lines, d.pos, Between(L, Earlier(p, e), Later(p, e))) == Edit(L, Later(p, e))
  {
    DeleteTextInsertedAt(L, p, e);
    InsertTextOfInsertedAt(DeleteText(L, p, e).lines, Earlier(p, e),
                           Between(L, Earlier(p, e), Later(p, e)), L, Later(p, e));
  }

  /** The unit one step left removes: the previous character on the row, the
      break before the row at column 0, nothing at (0, 0). */
  lemma UnitBeforePosition(L: seq<string>, p: Position)
    requires ValidLines(L) && InBounds(L, p)
    ensures !Before(p, PrevPosition(L, p))
    ensures Between(L, PrevPosition(L, p), p)
         == if p.col > 0 then [L[p.row][p.col - 1]] else if p.row > 0 then "\n" else ""
  {
    var q := PrevPosition(L, p);
    if p.col > 0 {
      BetweenOnOneRow(L, q, p);
    } else if p.row > 0 {
      BetweenAcrossRows(L, q, p);
      assert L[p.row - 1][|L[p.row - 1]|..] == "";
      assert L[q.row + 1..p.row] == [];
    }
  }
}
