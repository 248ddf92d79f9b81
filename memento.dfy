/** Undo records (src/memento.ts). A memento is one inverse recipe: delete
    the range from `finalStart` to `finalEnd` (nothing when `finalEnd` is
    absent), then insert `deletedText` at `initStart`. `Recipe` is that
    record as a value and `Restored` its effect on a line array; the class
    `Memento` holds the same fields on a shared object that the editor grows
    in place. The lemmas show that restoring undoes each kind of edit,
    including a run of typed characters or backspaces grown into one
    memento. */
module Mementos {
  import opened Utils
  import opened Lines
  import opened TextOps
  import opened Text

  datatype Recipe = Recipe(initStart: Position, finalStart: Position,
                           finalEnd: Option<Position>, deletedText: string)

  /** The end of the range to delete: `finalEnd`, or `finalStart` itself
      (an empty range) when there is none. */
  function DeleteEnd(m: Recipe): Position {
    if m.finalEnd.Some? then m.finalEnd.value else m.finalStart
  }

  /** The recipe can be carried out on `L` without leaving the buffer: the
      deletion's ends are in bounds (or equal), and so is the insertion
      point in what the deletion leaves. */
  predicate Applicable(L: seq<string>, m: Recipe) {
    ValidLines(L)
    && (m.finalStart == DeleteEnd(m) || (InBounds(L, m.finalStart) && InBounds(L, DeleteEnd(m))))
    && InBounds(DeleteText(L, m.finalStart, DeleteEnd(m)).lines, m.initStart)
  }

  /** restore: the lines after deleting the final range and inserting the
      deleted text, with the caret after the inserted text. */
  function Restored(L: seq<string>, m: Recipe): (r: Edit)
    requires Applicable(L, m)
    ensures InsertedAt(DeleteText(L, m.finalStart, DeleteEnd(m)).lines, m.initStart, m.deletedText, r.lines, r.pos)
  {
    var d := DeleteText(L, m.finalStart, DeleteEnd(m));
    DeleteTextKeepsValid(L, m.finalStart, DeleteEnd(m));
    InsertTextInsertedAt(d.lines, m.initStart, m.deletedText);
    InsertText(d.lines, m.initStart, m.deletedText)
  }

  /** createNull: every position (0, 0), no text. */
  function NullRecipe(): (r: Recipe)
    ensures r.initStart == r.finalStart == DeleteEnd(r) == Position(0, 0) && r.deletedText == ""
  {
    Recipe(Position(0, 0), Position(0, 0), Some(Position(0, 0)), "")
  }

  /** The delete kinds (single-character delete, selection delete): nothing
      to delete on undo, `text` to put back at `at`. */
  function DeleteRecipe(at: Position, text: string): (r: Recipe)
    ensures r.initStart == r.finalStart == DeleteEnd(r) == at && r.deletedText == text
  {
    Recipe(at, at, None, text)
  }

  /** The insert kinds (single character, clipboard): delete from `at` to
      `end` on undo, put nothing back. */
  function InsertRecipe(at: Position, end: Position): (r: Recipe)
    ensures r.initStart == r.finalStart == at && DeleteEnd(r) == end && r.deletedText == ""
  {
    Recipe(at, at, Some(end), "")
  }

  /** The replacement kind: delete the new text from `at` to `end`, put the
      replaced `text` back at `at`. */
  function ReplaceRecipe(at: Position, end: Position, text: string): (r: Recipe)
    ensures r.initStart == r.finalStart == at && DeleteEnd(r) == end && r.deletedText == text
  {
    Recipe(at, at, Some(end), text)
  }

  /** addDeleteToMemento: one more unit deleted to the left of the run. */
  function AddDelete(m: Recipe, delCharPos: Position, text: string): (r: Recipe)
    ensures r.finalStart == m.finalStart && DeleteEnd(r) == DeleteEnd(m)
    ensures r.initStart == delCharPos && r.deletedText == text + m.deletedText
  {
    m.(deletedText := text + m.deletedText, initStart := delCharPos)
  }

  /** addCharacterToMemento: the run of inserted characters now ends later. */
  function AddCharacter(m: Recipe, newCharPos: Position): (r: Recipe)
    ensures r.initStart == m.initStart && r.finalStart == m.finalStart && r.deletedText == m.deletedText
    ensures DeleteEnd(r) == newCharPos
  {
    m.(finalEnd := Some(newCharPos))
  }

  // ---------------------------------------------------------------------
  // Restoring each kind

  /** Restoring the null memento changes nothing and puts the caret at (0, 0). */
  lemma RestoreNull(L: seq<string>)
    requires ValidLines(L)
    ensures Applicable(L, NullRecipe()) && Restored(L, NullRecipe()) == Edit(L, Position(0, 0))
  {
    var o := Position(0, 0);
    assert InsertLine(L, o, "").lines == L[0 := L[0][..0] + "" + L[0][0..]];
    assert L[0][..0] + "" + L[0][0..] == L[0];
  }

  /** A recipe whose restore reinserts `t` at its insertion point, after an
      empty deletion. */
  lemma RestoreInsertion(L: seq<string>, m: Recipe, L0: seq<string>, p0: Position)
    requires m.finalStart == DeleteEnd(m)
    requires InsertedAt(L, m.initStart, m.deletedText, L0, p0)
    ensures Applicable(L, m) && Restored(L, m) == Edit(L0, p0)
  {
    assert DeleteText(L, m.finalStart, DeleteEnd(m)).lines == L;
    InsertTextOfInsertedAt(L, m.initStart, m.deletedText, L0, p0);
  }

  /** Restoring after a paste (or one typed character) removes exactly what
      was inserted and puts the caret back where it was. */
  lemma RestoreStringInsert(L: seq<string>, p: Position, s: string)
    requires ValidLines(L) && InBounds(L, p)
    ensures var r := InsertText(L, p, s);
            Applicable(r.lines, InsertRecipe(p, r.pos)) && Restored(r.lines, InsertRecipe(p, r.pos)) == Edit(L, p)
  {
    var r := InsertText(L, p, s);
    InsertTextInsertedAt(L, p, s);
    DeleteOfInsertedAt(L, p, s, r.lines, r.pos);
    RestoreNothingBack(L, p);
  }

  /** Inserting nothing changes nothing. */
  lemma RestoreNothingBack(L: seq<string>, p: Position)
    requires InBounds(L, p)
    ensures InsertText(L, p, "") == Edit(L, p)
  {
    assert L[p.row][..p.col] + "" + L[p.row][p.col..] == L[p.row];
  }

  /** Restoring after a selection delete puts the deleted text back at the
      earlier end and leaves the caret on the later end. */
  lemma RestoreStringDelete(L: seq<string>, p: Position, e: Position)
    requires ValidLines(L) && InBounds(L, p) && InBounds(L, e)
    ensures var d := DeleteText(L, p, e);
            var m := DeleteRecipe(Earlier(p, e), Between(L, Earlier(p, e), Later(p, e)));
            m.finalEnd.None?
            && Applicable(d.lines, m) && Restored(d.lines, m) == Edit(L, Later(p, e))
  {
    DeleteTextInsertedAt(L, p, e);
    var m := DeleteRecipe(Earlier(p, e), Between(L, Earlier(p, e), Later(p, e)));
    RestoreInsertion(DeleteText(L, p, e).lines, m, L, Later(p, e));
  }

  /** Restoring after a selection is replaced deletes the new text and puts
      the replaced text back: the lines before the edit come back, with the
      caret on the later end of the old selection. */
  lemma RestoreReplacement(L: seq<string>, p: Position, e: Position, s: string)
    requires ValidLines(L) && InBounds(L, p) && InBounds(L, e)
    ensures var a := Earlier(p, e);
            var d := DeleteText(L, p, e);
            InBounds(d.lines, a)
            && var r := InsertText(d.lines, a, s);
               var m := ReplaceRecipe(a, r.pos, Between(L, a, Later(p, e)));
               Applicable(r.lines, m) && Restored(r.lines, m) == Edit(L, Later(p, e))
  {
    var a, b := Earlier(p, e), Later(p, e);
    var d := DeleteText(L, p, e);
    DeleteTextInsertedAt(L, p, e);
    var r := InsertText(d.lines, a, s);
    InsertTextInsertedAt(d.lines, a, s);
    DeleteOfInsertedAt(d.lines, a, s, r.lines, r.pos);
    InsertTextOfInsertedAt(d.lines, a, Between(L, a, b), L, b);
  }

  // ---------------------------------------------------------------------
  // Runs of typed characters

  /** `m` is the open memento of a typing run that started at its insertion
      point on `L0` and has typed `t` so far, leaving `L` with the caret at
      `m.finalEnd`. */
  predicate Typed(L0: seq<string>, m: Recipe, t: string, L: seq<string>) {
    m.finalEnd.Some? && m.deletedText == "" && m.initStart == m.finalStart
    && InsertedAt(L0, m.initStart, t, L, m.finalEnd.value)
  }

  /** The first character of a run creates the insert memento. */
  lemma TypingStart(L: seq<string>, p: Position, c: string)
    requires ValidLines(L) && InBounds(L, p)
    ensures var r := InsertText(L, p, c);
            Typed(L, InsertRecipe(p, r.pos), c, r.lines)
  {
    InsertTextInsertedAt(L, p, c);
  }

  /** Each further character at the caret only moves the memento's end. */
  lemma TypingGrow(L0: seq<string>, m: Recipe, t: string, L: seq<string>, c: string)
    requires Typed(L0, m, t, L)
    ensures var r := InsertText(L, m.finalEnd.value, c);
            Typed(L0, AddCharacter(m, r.pos), t + c, r.lines)
  {
    var q := m.finalEnd.value;
    InsertTextInsertedAt(L, q, c);
    var r := InsertText(L, q, c);
    InsertedAtCompose(L0, m.initStart, t, L, q, c, r.lines, r.pos);
  }

  /** One restore of the open memento of a typing run removes the whole run. */
  lemma TypingRestore(L0: seq<string>, m: Recipe, t: string, L: seq<string>)
    requires Typed(L0, m, t, L)
    ensures Applicable(L, m) && Restored(L, m) == Edit(L0, m.initStart)
  {
    var p, q := m.initStart, m.finalEnd.value;
    DeleteOfInsertedAt(L0, p, t, L, q);
    InsertedAtKeepsStart(L0, p, t, L, q);
    RestoreNothingBack(L0, p);
  }

  /** Typing `keys` one after the other at the caret, from `p` on `L`: the
      lines, the caret and the open memento afterwards. */
  function TypeRun(L: seq<string>, p: Position, keys: seq<string>): (r: (Edit, Recipe))
    requires ValidLines(L) && InBounds(L, p) && |keys| >= 1
    ensures InBounds(r.0.lines, r.0.pos) && r.1.initStart == r.1.finalStart == p && r.1.deletedText == ""
    ensures DeleteEnd(r.1) == r.0.pos
    decreases |keys|, 0
  {
    if |keys| == 1 then
      var r := InsertText(L, p, keys[0]);
      (r, InsertRecipe(p, r.pos))
    else
      var (e, m) := TypeRun(L, p, keys[..|keys| - 1]);
      TypeRunTyped(L, p, keys[..|keys| - 1]);
      var r := InsertText(e.lines, e.pos, keys[|keys| - 1]);
      (r, AddCharacter(m, r.pos))
  }

  function Concat(keys: seq<string>): string {
    if keys == [] then "" else Concat(keys[..|keys| - 1]) + keys[|keys| - 1]
  }

  lemma {:induction false} TypeRunTyped(L: seq<string>, p: Position, keys: seq<string>)
    requires ValidLines(L) && InBounds(L, p) && |keys| >= 1
    ensures var (e, m) := TypeRun(L, p, keys);
            Typed(L, m, Concat(keys), e.lines) && e.pos == m.finalEnd.value && m.initStart == p
            && ValidLines(e.lines) && InBounds(e.lines, e.pos)
    decreases |keys|, 1
  {
    if |keys| == 1 {
      TypingStart(L, p, keys[0]);
      assert keys[..0] == [];
      assert Concat(keys) == keys[0];
    } else {
      var init := keys[..|keys| - 1];
      TypeRunTyped(L, p, init);
      var (e, m) := TypeRun(L, p, init);
      TypingGrow(L, m, Concat(init), e.lines, keys[|keys| - 1]);
    }
  }

  /** After any number of characters typed in one run and grown into one
      memento, a single restore brings back the lines from before the run
      and the caret to where the run started. */
  lemma TypingRunRestore(L: seq<string>, p: Position, keys: seq<string>)
    requires ValidLines(L) && InBounds(L, p) && |keys| >= 1
    ensures var (e, m) := TypeRun(L, p, keys);
            Applicable(e.lines, m) && Restored(e.lines, m) == Edit(L, p)
  {
    TypeRunTyped(L, p, keys);
    var (e, m) := TypeRun(L, p, keys);
    TypingRestore(L, m, Concat(keys), e.lines);
  }

  // ---------------------------------------------------------------------
  // Runs of backspaces

  /** `m` is the open memento of a backspace run that started with the caret
      at `p0` on `L0`: putting its text back at its insertion point (the
      caret now) gives `L0` with the caret at `p0`. */
  predicate Backspaced(L0: seq<string>, p0: Position, m: Recipe, L: seq<string>) {
    m.finalEnd.None? && InsertedAt(L, m.initStart, m.deletedText, L0, p0)
  }

  /** One backspace at `p`: the unit left of the caret is deleted and the
      caret moves onto its start (a line join at column 0, nothing at (0, 0)). */
  function Backspace(L: seq<string>, p: Position): (r: (Edit, string))
    requires ValidLines(L) && InBounds(L, p)
    ensures r.0.pos == PrevPosition(L, p)
  {
    var q := PrevPosition(L, p);
    UnitBeforePosition(L, p);
    PrevPositionOffset(L, p);
    (DeleteText(L, p, q), Between(L, q, p))
  }

  lemma BackspaceInsertedAt(L: seq<string>, p: Position)
    requires ValidLines(L) && InBounds(L, p)
    ensures var (d, t) := Backspace(L, p);
            InsertedAt(d.lines, d.pos, t, L, p)
  {
    var q := PrevPosition(L, p);
    UnitBeforePosition(L, p);
    PrevPositionOffset(L, p);
    DeleteTextInsertedAt(L, p, q);
    OffsetOrder(L, q, p);
    assert Earlier(p, q) == q && Later(p, q) == p;
  }

  /** The first backspace of a run creates the single-character delete memento. */
  lemma BackspaceStart(L: seq<string>, p: Position)
    requires ValidLines(L) && InBounds(L, p)
    ensures var (d, t) := Backspace(L, p);
            Backspaced(L, p, DeleteRecipe(d.pos, t), d.lines)
  {
    BackspaceInsertedAt(L, p);
  }

  /** Each further backspace at the caret prepends its unit and moves the
      insertion point back. */
  lemma BackspaceGrow(L0: seq<string>, p0: Position, m: Recipe, L: seq<string>)
    requires Backspaced(L0, p0, m, L)
    ensures var (d, t) := Backspace(L, m.initStart);
            Backspaced(L0, p0, AddDelete(m, d.pos, t), d.lines)
  {
    var (d, t) := Backspace(L, m.initStart);
    BackspaceInsertedAt(L, m.initStart);
    InsertedAtCompose(d.lines, d.pos, t, L, m.initStart, m.deletedText, L0, p0);
  }

  /** One restore of the open memento of a backspace run re-inserts every
      deleted unit in order. */
  lemma BackspaceRestore(L0: seq<string>, p0: Position, m: Recipe, L: seq<string>)
    requires Backspaced(L0, p0, m, L)
    ensures Applicable(L, m) && Restored(L, m) == Edit(L0, p0)
  {
    RestoreInsertion(L, m, L0, p0);
  }

  /** `k` backspaces in a row from `p` on `L`: the lines, the caret and the
      open memento afterwards. */
  function BackspaceRun(L: seq<string>, p: Position, k: nat): (r: (Edit, Recipe))
    requires ValidLines(L) && InBounds(L, p) && k >= 1
    ensures ValidLines(r.0.lines) && InBounds(r.0.lines, r.0.pos) && r.0.pos == r.1.initStart
    ensures Backspaced(L, p, r.1, r.0.lines)
    decreases k
  {
    if k == 1 then
      var (d, t) := Backspace(L, p);
      BackspaceStart(L, p);
      (d, DeleteRecipe(d.pos, t))
    else
      var (e, m) := BackspaceRun(L, p, k - 1);
      var (d, t) := Backspace(e.lines, e.pos);
      BackspaceGrow(L, p, m, e.lines);
      (d, AddDelete(m, d.pos, t))
  }

  /** After `k` backspaces grown into one memento, a single restore brings
      back the lines and the caret from before the run. */
  lemma BackspaceRunRestore(L: seq<string>, p: Position, k: nat)
    requires ValidLines(L) && InBounds(L, p) && k >= 1
    ensures var (e, m) := BackspaceRun(L, p, k);
            Applicable(e.lines, m) && Restored(e.lines, m) == Edit(L, p)
  {
    var (e, m) := BackspaceRun(L, p, k);
    BackspaceRestore(L, p, m, e.lines);
  }

  // ---------------------------------------------------------------------
  // The memento object

  class Memento {
    const textMgr: TextManager
    var finalStartPos: Position
    var finalEndPos: Option<Position>
    var initStartPos: Position
    var deletedText: string

    /** The recipe this memento currently holds. */
    function View(): Recipe
      reads this
    {
      Recipe(initStartPos, finalStartPos, finalEndPos, deletedText)
    }

    constructor(textMgr: TextManager, initStartPos: Position, finalStartPos: Position,
                finalEndPos: Option<Position>, delText: string)
      ensures this.textMgr == textMgr
      ensures View() == Recipe(initStartPos, finalStartPos, finalEndPos, delText)
    {
      this.textMgr := textMgr;
      this.initStartPos := initStartPos;
      this.finalStartPos := finalStartPos;
      this.finalEndPos := finalEndPos;
      this.deletedText := delText;
    }

    static method CreateNull(textMgr: TextManager) returns (m: Memento)
      ensures fresh(m) && m.textMgr == textMgr && m.View() == NullRecipe()
    {
      m := new Memento(textMgr, Position(0, 0), Position(0, 0), Some(Position(0, 0)), "");
    }

    /** Undo: delete the final range, then insert the deleted text; the
      caret goes after it. */
    method Restore() returns (r: Position)
      requires textMgr.Valid() && Applicable(textMgr.text, View())
      modifies textMgr
      ensures textMgr.Valid()
      ensures Edit(textMgr.text, r) == Restored(old(textMgr.text), View())
    {
      var d := textMgr.DeleteText(finalStartPos, if finalEndPos.Some? then finalEndPos.value else finalStartPos);
      r := textMgr.InsertText(initStartPos, deletedText);
    }

    static method CreateSingleCharDeleteMemento(textMgr: TextManager, cursorPos: Position,
                                                newCursorPos: Position, text: string) returns (m: Memento)
      ensures fresh(m) && m.textMgr == textMgr && m.View() == DeleteRecipe(newCursorPos, text)
    {
      m := new Memento(textMgr, newCursorPos, newCursorPos, None, text);
    }

    method AddDeleteToMemento(delCharPos: Position, text: string)
      modifies this
      ensures View() == AddDelete(old(View()), delCharPos, text)
    {
      deletedText := text + deletedText;
      initStartPos := delCharPos;
    }

    static method CreateSingleCharacterInsertMemento(textMgr: TextManager, cursorPos: Position,
                                                     newCharPos: Position) returns (m: Memento)
      ensures fresh(m) && m.textMgr == textMgr && m.View() == InsertRecipe(cursorPos, newCharPos)
    {
      m := new Memento(textMgr, cursorPos, cursorPos, Some(newCharPos), "");
    }

    method AddCharacterToMemento(newCharPos: Position)
      modifies this
      ensures View() == AddCharacter(old(View()), newCharPos)
    {
      finalEndPos := Some(newCharPos);
    }

    static method CreateStringInsertMemento(textMgr: TextManager, cursorPos: Position,
                                            endCursorPos: Position) returns (m: Memento)
      ensures fresh(m) && m.textMgr == textMgr && m.View() == InsertRecipe(cursorPos, endCursorPos)
    {
      m := new Memento(textMgr, cursorPos, cursorPos, Some(endCursorPos), "");
    }

    /** The end of the deleted selection is not recorded. */
    static method CreateStringDeleteMemento(textMgr: TextManager, startPos: Position,
                                            endPos: Position, text: string) returns (m: Memento)
      ensures fresh(m) && m.textMgr == textMgr && m.View() == DeleteRecipe(startPos, text)
    {
      m := new Memento(textMgr, startPos, startPos, None, text);
    }

    static method CreateStringReplacementMemento(textMgr: TextManager, startPos: Position, endPos: Position,
                                                 newTextEndPos: Position, text: string) returns (m: Memento)
      ensures fresh(m) && m.textMgr == textMgr && m.View() == ReplaceRecipe(startPos, newTextEndPos, text)
    {
      m := new Memento(textMgr, startPos, startPos, Some(newTextEndPos), text);
    }
  }
}
