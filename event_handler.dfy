/** The edit session (src/event_handler.ts): the caret `selStart`, an
    optional selection end, the clipboard, the open memento and the two
    coalescing flags, updated by keyboard and mouse events. Mouse events are
    given as the buffer position the mouse maps to. */
module Events {
  import opened Utils
  import opened Lines
  import opened TextOps
  import opened Text
  import opened Mementos
  import opened Histories

  /** A keyboard event as the handler reads it: the key's name and whether
      Shift and Ctrl were held. */
  datatype KeyEvent = KeyEvent(key: string, shiftKey: bool, ctrlKey: bool)

  /** The move each arrow key asks for; other keys ask for none. */
  function ArrowChange(key: string): (r: Option<Change>)
    ensures key == "ArrowLeft" ==> r == Some(Change(0, -1))
    ensures key == "ArrowRight" ==> r == Some(Change(0, 1))
    ensures key == "ArrowUp" ==> r == Some(Change(-1, 0))
    ensures key == "ArrowDown" ==> r == Some(Change(1, 0))
    ensures key !in {"ArrowLeft", "ArrowRight", "ArrowUp", "ArrowDown"} ==> r.None?
  {
    if key == "ArrowLeft" then Some(Change(0, -1))
    else if key == "ArrowRight" then Some(Change(0, 1))
    else if key == "ArrowUp" then Some(Change(-1, 0))
    else if key == "ArrowDown" then Some(Change(1, 0))
    else None
  }

  /** A Ctrl shortcut: Ctrl is held and the key is not one of those handled
      before the shortcuts (the arrows, Enter, Backspace). */
  predicate IsShortcut(ev: KeyEvent) {
    ArrowChange(ev.key).None? && ev.key != "Enter" && ev.key != "Backspace" && ev.ctrlKey
  }

  /** Where one arrow step takes the caret: one unit right or left through
      the flat text, or one row up or down. */
  function ArrowTarget(L: seq<string>, pos: Position, change: Change): (r: Position)
    requires ValidLines(L) && InBounds(L, pos)
    ensures InBounds(L, r)
  {
    MoveUpOrDownInBounds(L, pos, change.row);
    NextPositionOffset(L, pos);
    PrevPositionOffset(L, pos);
    if change.col == 1 then NextPosition(L, pos)
    else if change.col == -1 then PrevPosition(L, pos)
    else MoveUpOrDown(L, pos, change.row)
  }

  /** The lines and caret after the selection between `p` and `e` is
      replaced by `s`: the selection is deleted and `s` goes in at its
      earlier end. */
  function Replaced(L: seq<string>, p: Position, e: Position, s: string): (r: Edit)
    requires ValidLines(L) && InBounds(L, p) && InBounds(L, e)
    ensures ValidLines(r.lines) && InBounds(r.lines, r.pos)
  {
    DeleteTextInsertedAt(L, p, e);
    InsertTextInsertedAt(DeleteText(L, p, e).lines, Earlier(p, e), s);
    InsertText(DeleteText(L, p, e).lines, Earlier(p, e), s)
  }

  /** The replacement memento undoes a replacement: restoring it on the
      lines after the replacement gives back the lines before it, with the
      caret on the later end of the old selection. */
  lemma ReplacedUndone(L: seq<string>, p: Position, e: Position, s: string)
    requires ValidLines(L) && InBounds(L, p) && InBounds(L, e)
    ensures var d := DeleteText(L, p, e);
            ValidLines(d.lines) && InBounds(d.lines, Earlier(p, e))
    ensures var r := Replaced(L, p, e, s);
            var m := ReplaceRecipe(Earlier(p, e), r.pos, Between(L, Earlier(p, e), Later(p, e)));
            Applicable(r.lines, m) && Restored(r.lines, m) == Edit(L, Later(p, e))
  {
    DeleteTextInsertedAt(L, p, e);
    RestoreReplacement(L, p, e, s);
  }

  /** Typing "H" over the selection (0, 0)-(0, 5) of "hello world" leaves
      "H world" with the caret after the "H"; restoring the replacement
      memento gives back "hello world", with the caret at (0, 5) and no
      selection. */
  lemma ReplaceExample()
    ensures Replaced(["hello world"], Position(0, 0), Position(0, 5), "H") == Edit(["H world"], Position(0, 1))
    ensures var m := ReplaceRecipe(Position(0, 0), Position(0, 1), "hello");
            Applicable(["H world"], m) && Restored(["H world"], m) == Edit(["hello world"], Position(0, 5))
  {
    ReplaceExampleEdit();
    ReplacedUndone(["hello world"], Position(0, 0), Position(0, 5), "H");
  }

  /** The forward half of ReplaceExample: the selected text and the edit. */
  lemma ReplaceExampleEdit()
    ensures Between(["hello world"], Position(0, 0), Position(0, 5)) == "hello"
    ensures Replaced(["hello world"], Position(0, 0), Position(0, 5), "H") == Edit(["H world"], Position(0, 1))
  {
    var L := ["hello world"];
    assert ValidLines(L);
    BetweenOnOneRow(L, Position(0, 0), Position(0, 5));
    assert L[0][0..5] == "hello";
    assert L[0][..0] + L[0][5..] == " world";
    assert DeleteText(L, Position(0, 0), Position(0, 5)) == Edit([" world"], Position(0, 0));
    InsertWithoutBreak([" world"], Position(0, 0), "H");
    assert "" + "H" + " world" == "H world";
  }

  /** Backspace at (1, 0) of ["abc", "def"] joins the rows into "abcdef"
      with the caret at (0, 3); restoring the delete memento splits them
      again and puts the caret back at (1, 0). */
  lemma JoinExample()
    ensures Backspace(["abc", "def"], Position(1, 0)) == (Edit(["abcdef"], Position(0, 3)), "\n")
    ensures var m := DeleteRecipe(Position(0, 3), "\n");
            Applicable(["abcdef"], m) && Restored(["abcdef"], m) == Edit(["abc", "def"], Position(1, 0))
  {
    var L := ["abc", "def"];
    assert ValidLines(L);
    UnitBeforePosition(L, Position(1, 0));
    assert DeleteText(L, Position(1, 0), Position(0, 3)).lines == [L[0][..3] + L[1][0..]];
    assert L[0][..3] + L[1][0..] == "abcdef";
    BackspaceStart(L, Position(1, 0));
    BackspaceRestore(L, Position(1, 0), DeleteRecipe(Position(0, 3), "\n"), ["abcdef"]);
  }

  class EventHandler {
    var selStart: Position
    var selEnd: Option<Position>
    const text: TextManager
    var clipboard: Option<string>
    const historyMgr: History
    var definingSelection: bool
    var seeingConsecutiveRegularKeys: bool
    var seeingConsecutiveBackspaceKeys: bool
    var mem: Memento

    /** The session invariant: the buffer holds at least one line, the caret
      and the selection end lie in it, every memento edits this buffer, at
      most one kind of run is being collected, and the memento of a run
      being collected is not yet in the history. */
    predicate Valid()
      reads this, text, historyMgr
    {
      text.Valid()
      && InBounds(text.text, selStart)
      && (selEnd.Some? ==> InBounds(text.text, selEnd.value))
      && mem.textMgr == text
      && (forall m :: m in historyMgr.stack ==> m.textMgr == text)
      && !(seeingConsecutiveRegularKeys && seeingConsecutiveBackspaceKeys)
      && (seeingConsecutiveRegularKeys || seeingConsecutiveBackspaceKeys ==> mem !in historyMgr.stack)
    }

    /** The most recently stored memento. */
    function Top(): Memento
      reads this, historyMgr
      requires |historyMgr.stack| > 0
    {
      historyMgr.stack[|historyMgr.stack| - 1]
    }

    /** The memento Ctrl-z restores once the open run has been stored: the
      open memento when a run is being collected, else the top of the
      history. */
    predicate UndoReady()
      reads this, text, historyMgr, mem, historyMgr.stack
    {
      if seeingConsecutiveRegularKeys || seeingConsecutiveBackspaceKeys then
        Applicable(text.text, mem.View())
      else
        |historyMgr.stack| > 0 ==> Applicable(text.text, historyMgr.stack[|historyMgr.stack| - 1].View())
    }

    /** A new session: caret at (0, 0), no selection, empty clipboard, no
      run, and the null memento open. */
    constructor(text: TextManager, historyMgr: History)
      ensures this.text == text && this.historyMgr == historyMgr
      ensures selStart == Position(0, 0) && selEnd == None && clipboard == None
      ensures !definingSelection && !seeingConsecutiveRegularKeys && !seeingConsecutiveBackspaceKeys
      ensures fresh(mem) && mem.textMgr == text && mem.View() == NullRecipe()
      ensures text.Valid() && (forall m :: m in historyMgr.stack ==> m.textMgr == text) ==> Valid()
    {
      this.selStart := Position(0, 0);
      this.selEnd := None;
      this.text := text;
      this.clipboard := None;
      this.historyMgr := historyMgr;
      this.definingSelection := false;
      this.seeingConsecutiveRegularKeys := false;
      this.seeingConsecutiveBackspaceKeys := false;
      var m := Memento.CreateNull(text);
      this.mem := m;
    }

    // -------------------------------------------------------------------
    // Selection accessors

    method GetSelStart() returns (p: Position)
      ensures p == selStart
    {
      p := selStart;
    }

    method GetSelEnd() returns (p: Option<Position>)
      ensures p == selEnd
    {
      p := selEnd;
    }

    method SelectionExists() returns (b: bool)
      ensures b <==> selEnd.Some?
    {
      b := selEnd.Some?;
    }

    /** setSelStart takes the position as given, without clamping. */
    method SetSelStart(pos: Position)
      modifies this`selStart
      ensures selStart == pos
    {
      selStart := pos;
    }

    /** setSelEnd clamps a present position into the buffer. */
    method SetSelEnd(pos: Option<Position>)
      requires text.Valid()
      modifies this`selEnd
      ensures pos.Some? ==> selEnd == Some(EditPosition(text.text, pos.value)) && InBounds(text.text, selEnd.value)
      ensures pos.None? ==> selEnd == None
    {
      selEnd := if pos.Some? then Some(EditPosition(text.text, pos.value)) else None;
    }

    method SetSelStartFromMouseEvent(pos: Position)
      requires text.Valid()
      modifies this`selStart
      ensures selStart == EditPosition(text.text, pos)
    {
      SetSelStart(EditPosition(text.text, pos));
    }

    /** The position is clamped twice (here and in setSelEnd); the second
      clamp changes nothing. */
    method SetSelEndFromMouseEvent(pos: Position)
      requires text.Valid()
      modifies this`selEnd
      ensures selEnd == Some(EditPosition(text.text, pos))
    {
      EditPositionIdempotent(text.text, pos);
      SetSelEnd(Some(EditPosition(text.text, pos)));
    }

    /** The caret stays; only the selection end goes. */
    method RemoveSelection()
      modifies this`selEnd
      ensures selEnd == None
    {
      selEnd := None;
    }

    // -------------------------------------------------------------------
    // Mouse

    /** Mouse down: any selection is dropped; with Shift the selection end
      goes to the clicked position, otherwise the caret does; a drag starts. */
    method HandleMouseDown(pos: Position, shiftKey: bool)
      requires Valid()
      modifies this`selStart, this`selEnd, this`definingSelection
      ensures Valid() && definingSelection
      ensures shiftKey ==> selStart == old(selStart) && selEnd == Some(EditPosition(text.text, pos))
      ensures !shiftKey ==> selStart == EditPosition(text.text, pos) && selEnd == None
    {
      if selEnd.Some? {
        RemoveSelection();
      }
      if shiftKey {
        SetSelEndFromMouseEvent(pos);
      } else {
        SetSelStartFromMouseEvent(pos);
      }
      definingSelection := true;
    }

    /** Mouse move: during a drag the selection end follows the mouse;
      otherwise nothing happens. */
    method HandleMouseMoved(pos: Position)
      requires Valid()
      modifies this`selEnd
      ensures Valid()
      ensures selEnd == if definingSelection then Some(EditPosition(text.text, pos)) else old(selEnd)
    {
      if !definingSelection {
        return;
      }
      SetSelEndFromMouseEvent(pos);
    }

    /** Mouse up: released on the caret (compared with the raw position) it
      was a click, so the selection goes; the drag ends either way. */
    method HandleMouseUp(pos: Position)
      requires Valid()
      modifies this`selEnd, this`definingSelection
      ensures Valid() && !definingSelection
      ensures selEnd == if pos == selStart then None else old(selEnd)
    {
      var orig := GetSelStart();
      if orig.row == pos.row && orig.col == pos.col {
        RemoveSelection();
      }
      definingSelection := false;
    }

    // -------------------------------------------------------------------
    // Keys

    /** Ends the run being collected: its memento goes on the history and
      both flags are cleared. */
    method FlushOpenMemento()
      requires Valid()
      modifies this`seeingConsecutiveRegularKeys, this`seeingConsecutiveBackspaceKeys, historyMgr
      ensures Valid()
      ensures !seeingConsecutiveRegularKeys && !seeingConsecutiveBackspaceKeys
      ensures historyMgr.stack == old(historyMgr.stack) + (if old(seeingConsecutiveRegularKeys || seeingConsecutiveBackspaceKeys) then [mem] else [])
    {
      if seeingConsecutiveRegularKeys || seeingConsecutiveBackspaceKeys {
        historyMgr.StoreNewMemento(mem);
        seeingConsecutiveRegularKeys, seeingConsecutiveBackspaceKeys := false, false;
      }
    }

    /** startSelectionOrMoveCursor: the run being collected is stored. With
      Shift the selection end (seeded from the caret when there is none)
      moves and the caret stays; without Shift the caret moves from the
      selection end if there is one, else from itself, and the selection
      goes. */
    method StartSelectionOrMoveCursor(change: Change, shiftKey: bool)
      requires Valid()
      requires change.col == -1 || change.col == 0 || change.col == 1
      modifies this`selStart, this`selEnd, this`seeingConsecutiveRegularKeys, this`seeingConsecutiveBackspaceKeys, historyMgr
      ensures Valid()
      ensures !seeingConsecutiveRegularKeys && !seeingConsecutiveBackspaceKeys
      ensures historyMgr.stack == old(historyMgr.stack) + (if old(seeingConsecutiveRegularKeys || seeingConsecutiveBackspaceKeys) then [mem] else [])
      ensures var from := if old(selEnd).Some? then old(selEnd).value else old(selStart);
              if shiftKey then selStart == old(selStart) && selEnd == Some(ArrowTarget(text.text, from, change))
              else selStart == ArrowTarget(text.text, from, change) && selEnd == None
    {
      FlushOpenMemento();
      if shiftKey {
        if selEnd.None? {
          selEnd := Some(selStart);
        }
        var p := text.ChangePosition(selEnd.value, change);
        SetSelEnd(Some(p));
      } else {
        var hasSelection := SelectionExists();
        if hasSelection {
          var p := text.ChangePosition(selEnd.value, change);
          SetSelStart(p);
        } else {
          var p := text.ChangePosition(selStart, change);
          SetSelStart(p);
        }
        RemoveSelection();
      }
    }

    /** handleRegularKey with a selection: the selection is deleted, the key
      is inserted at its earlier end, and a replacement memento goes
      straight on the history; the caret ends after the new text and the
      selection goes. By ReplacedUndone, restoring that memento gives back
      the lines from before the key, with the caret on the later end of the
      old selection. The
      run flags and the open memento are left as they were. */
    method ReplaceSelection(key: string)
      requires Valid() && selEnd.Some?
      modifies this`selStart, this`selEnd, text, historyMgr
      ensures Valid() && selEnd == None
      ensures Edit(text.text, selStart) == Replaced(old(text.text), old(selStart), old(selEnd.value), key)
      ensures |historyMgr.stack| > 0 && historyMgr.stack == old(historyMgr.stack) + [Top()]
      ensures Top().View() == ReplaceRecipe(Earlier(old(selStart), old(selEnd.value)), selStart,
                                            Between(old(text.text), Earlier(old(selStart), old(selEnd.value)),
                                                    Later(old(selStart), old(selEnd.value))))
    {
      ghost var L0, p, e, S0 := text.text, selStart, selEnd.value, historyMgr.stack;
      ghost var R0, B0, M0 := seeingConsecutiveRegularKeys, seeingConsecutiveBackspaceKeys, mem;
      assert !(R0 && B0) && (R0 || B0 ==> mem !in S0);
      var first, second, text2del, res := ReplaceInBuffer(key);
      var m := Memento.CreateStringReplacementMemento(text, first, second, res, text2del);
      assert m != mem && m.textMgr == text && m.View() == ReplaceRecipe(first, res, text2del);
      historyMgr.StoreNewMemento(m);
      assert historyMgr.stack == S0 + [m];
      SetSelStart(res);
      RemoveSelection();
      assert Top() == m;
      assert seeingConsecutiveRegularKeys == R0 && seeingConsecutiveBackspaceKeys == B0 && mem == M0;
    }

    /** The buffer part of replacing the selection: its ends in reading
      order and the text between them are read, the selection is deleted
      and `key` goes in at the earlier end; `res` is the caret after it. */
    method ReplaceInBuffer(key: string) returns (first: Position, second: Position, text2del: string, res: Position)
      requires Valid() && selEnd.Some?
      modifies text
      ensures first == Earlier(selStart, selEnd.value) && second == Later(selStart, selEnd.value)
      ensures text2del == Between(old(text.text), first, second)
      ensures text.Valid() && Edit(text.text, res) == Replaced(old(text.text), selStart, selEnd.value, key)
    {
      ghost var L0 := text.text;
      var diff := ComparePositions(selStart, selEnd.value);
      first, second := selEnd.value, selStart;
      if diff < 0 {
        first, second := selStart, selEnd.value;
      }
      text2del := text.GetTextBetweenPositions(first, second);
      DeleteTextInsertedAt(L0, selStart, selEnd.value);
      var _ := text.DeleteText(selStart, selEnd.value);
      res := text.InsertText(first, key);
    }

    /** handleRegularKey without a selection: a backspace run being collected
      is stored first; the key goes in at the caret; the first key of a run
      opens an insert memento and later keys only move its end; the caret
      ends after the key and a typing run is being collected. */
    method TypeAtCaret(key: string)
      requires Valid() && selEnd.None?
      modifies this`selStart, this`mem, this`seeingConsecutiveRegularKeys, this`seeingConsecutiveBackspaceKeys, text, historyMgr, mem
      ensures Valid() && selEnd == None
      ensures seeingConsecutiveRegularKeys && !seeingConsecutiveBackspaceKeys
      ensures var r := InsertText(old(text.text), old(selStart), key);
              text.text == r.lines && selStart == r.pos
              && (old(seeingConsecutiveRegularKeys) ==> mem == old(mem) && mem.View() == AddCharacter(old(mem.View()), r.pos))
              && (!old(seeingConsecutiveRegularKeys) ==> fresh(mem) && mem.View() == InsertRecipe(old(selStart), r.pos))
      ensures !old(seeingConsecutiveRegularKeys) ==> unchanged(old(mem))
      ensures historyMgr.stack == old(historyMgr.stack) + (if old(seeingConsecutiveBackspaceKeys) then [old(mem)] else [])
    {
      FlushBackspaceRun();
      TypeInRun(key);
    }

    /** A backspace run being collected is stored and its flag cleared. */
    method FlushBackspaceRun()
      requires Valid()
      modifies this`seeingConsecutiveBackspaceKeys, historyMgr
      ensures Valid() && !seeingConsecutiveBackspaceKeys
      ensures historyMgr.stack == old(historyMgr.stack) + (if old(seeingConsecutiveBackspaceKeys) then [mem] else [])
    {
      if seeingConsecutiveBackspaceKeys {
        historyMgr.StoreNewMemento(mem);
        seeingConsecutiveBackspaceKeys := false;
      }
    }

    /** Typing at the caret once no backspace run is open. */
    method TypeInRun(key: string)
      requires Valid() && selEnd.None? && !seeingConsecutiveBackspaceKeys
      modifies this`selStart, this`mem, this`seeingConsecutiveRegularKeys, text, mem
      ensures Valid() && seeingConsecutiveRegularKeys
      ensures var r := InsertText(old(text.text), old(selStart), key);
              text.text == r.lines && selStart == r.pos
              && (old(seeingConsecutiveRegularKeys) ==> mem == old(mem) && mem.View() == AddCharacter(old(mem.View()), r.pos))
              && (!old(seeingConsecutiveRegularKeys) ==> fresh(mem) && mem.View() == InsertRecipe(old(selStart), r.pos))
      ensures !old(seeingConsecutiveRegularKeys) ==> unchanged(old(mem))
    {
      ghost var S := historyMgr.stack;
      var newPos := text.InsertText(selStart, key);
      if seeingConsecutiveRegularKeys {
        mem.AddCharacterToMemento(newPos);
      } else {
        mem := Memento.CreateSingleCharacterInsertMemento(text, selStart, newPos);
      }
      assert historyMgr.stack == S;
      assert mem.textMgr == text && mem !in S;
      SetSelStart(newPos);
      seeingConsecutiveRegularKeys := true;
    }

    /** handleRegularKey: replace the selection, or type at the caret. */
    method HandleRegularKey(key: string)
      requires Valid()
      modifies this`selStart, this`selEnd, this`mem, this`seeingConsecutiveRegularKeys, this`seeingConsecutiveBackspaceKeys, text, historyMgr, mem
      ensures Valid() && selEnd == None
      ensures old(selEnd).Some? ==>
                seeingConsecutiveRegularKeys == old(seeingConsecutiveRegularKeys)
                && seeingConsecutiveBackspaceKeys == old(seeingConsecutiveBackspaceKeys)
                && mem == old(mem) && unchanged(mem)
                && Edit(text.text, selStart) == Replaced(old(text.text), old(selStart), old(selEnd.value), key)
                && |historyMgr.stack| > 0 && historyMgr.stack == old(historyMgr.stack) + [Top()]
                && Top().View() == ReplaceRecipe(Earlier(old(selStart), old(selEnd.value)), selStart,
                                                 Between(old(text.text), Earlier(old(selStart), old(selEnd.value)),
                                                         Later(old(selStart), old(selEnd.value))))
      ensures old(selEnd).None? ==>
                seeingConsecutiveRegularKeys && !seeingConsecutiveBackspaceKeys
                && Edit(text.text, selStart) == InsertText(old(text.text), old(selStart), key)
                && (old(seeingConsecutiveRegularKeys) ==>
                      mem == old(mem) && mem.View() == AddCharacter(old(mem.View()), selStart))
                && (!old(seeingConsecutiveRegularKeys) ==>
                      fresh(mem) && mem.View() == InsertRecipe(old(selStart), selStart) && unchanged(old(mem)))
                && historyMgr.stack == old(historyMgr.stack) + (if old(seeingConsecutiveBackspaceKeys) then [old(mem)] else [])
    {
      var hasSelection := SelectionExists();
      if hasSelection {
        ReplaceSelection(key);
      } else {
        TypeAtCaret(key);
      }
    }

    /** Backspace with a selection: the selection is deleted and a delete
      memento (holding the deleted text and its earlier end) goes straight
      on the history; the caret goes to the earlier end. By
      RestoreStringDelete, restoring that memento gives back the lines, with
      the caret on the later end. */
    method DeleteSelection()
      requires Valid() && selEnd.Some?
      modifies this`selStart, this`selEnd, text, historyMgr
      ensures Valid() && selEnd == None
      ensures Edit(text.text, selStart) == DeleteText(old(text.text), old(selStart), old(selEnd.value))
      ensures |historyMgr.stack| > 0 && historyMgr.stack == old(historyMgr.stack) + [Top()]
      ensures Top().View() == DeleteRecipe(selStart, Between(old(text.text), Earlier(old(selStart), old(selEnd.value)),
                                                             Later(old(selStart), old(selEnd.value))))
    {
      ghost var S0 := historyMgr.stack;
      ghost var R0, B0, M0 := seeingConsecutiveRegularKeys, seeingConsecutiveBackspaceKeys, mem;
      assert !(R0 && B0) && (R0 || B0 ==> mem !in S0);
      var startPos, text2Del, newSelStart := DeleteInBuffer();
      var m := Memento.CreateStringDeleteMemento(text, startPos, newSelStart, text2Del);
      assert m != mem && m.textMgr == text && m.View() == DeleteRecipe(newSelStart, text2Del);
      historyMgr.StoreNewMemento(m);
      assert historyMgr.stack == S0 + [m];
      SetSelStart(newSelStart);
      RemoveSelection();
      assert Top() == m;
      assert seeingConsecutiveRegularKeys == R0 && seeingConsecutiveBackspaceKeys == B0 && mem == M0;
    }

    /** The buffer part of deleting the selection: the earlier end, the text
      between the ends read in reading order, and the selection deleted;
      `newSelStart` is where the deletion leaves the caret. */
    method DeleteInBuffer() returns (startPos: Position, text2Del: string, newSelStart: Position)
      requires Valid() && selEnd.Some?
      modifies text
      ensures startPos == newSelStart == Earlier(selStart, selEnd.value)
      ensures text2Del == Between(old(text.text), Earlier(selStart, selEnd.value), Later(selStart, selEnd.value))
      ensures text.Valid() && InBounds(text.text, newSelStart)
      ensures Edit(text.text, newSelStart) == DeleteText(old(text.text), selStart, selEnd.value)
    {
      ghost var L0 := text.text;
      var diff := ComparePositions(selStart, selEnd.value);
      if diff < 0 {
        text2Del := text.GetTextBetweenPositions(selStart, selEnd.value);
      } else {
        text2Del := text.GetTextBetweenPositions(selEnd.value, selStart);
      }
      DeleteTextInsertedAt(L0, selStart, selEnd.value);
      newSelStart := text.DeleteText(selStart, selEnd.value);
      startPos := if diff < 0 then selStart else selEnd.value;
    }

    /** Backspace without a selection: a typing run being collected is
      stored first; the unit left of the caret is deleted (a line join at
      column 0, nothing at (0, 0)); the first backspace of a run opens a
      delete memento and later ones prepend to it; a backspace run is being
      collected afterwards. */
    method BackspaceAtCaret()
      requires Valid() && selEnd.None?
      modifies this`selStart, this`mem, this`seeingConsecutiveRegularKeys, this`seeingConsecutiveBackspaceKeys, text, historyMgr, mem
      ensures Valid() && selEnd == None
      ensures seeingConsecutiveBackspaceKeys && !seeingConsecutiveRegularKeys
      ensures Edit(text.text, selStart) == Backspace(old(text.text), old(selStart)).0
      ensures old(seeingConsecutiveBackspaceKeys) ==>
                mem == old(mem) && mem.View() == AddDelete(old(mem.View()), selStart, Backspace(old(text.text), old(selStart)).1)
      ensures !old(seeingConsecutiveBackspaceKeys) ==>
                fresh(mem) && mem.View() == DeleteRecipe(selStart, Backspace(old(text.text), old(selStart)).1)
      ensures !old(seeingConsecutiveBackspaceKeys) ==> unchanged(old(mem))
      ensures historyMgr.stack == old(historyMgr.stack) + (if old(seeingConsecutiveRegularKeys) then [old(mem)] else [])
    {
      FlushTypingRun();
      BackspaceInRun();
    }

    /** A typing run being collected is stored and its flag cleared. */
    method FlushTypingRun()
      requires Valid()
      modifies this`seeingConsecutiveRegularKeys, historyMgr
      ensures Valid() && !seeingConsecutiveRegularKeys
      ensures historyMgr.stack == old(historyMgr.stack) + (if old(seeingConsecutiveRegularKeys) then [mem] else [])
    {
      if seeingConsecutiveRegularKeys {
        historyMgr.StoreNewMemento(mem);
        seeingConsecutiveRegularKeys := false;
      }
    }

    /** Backspace at the caret once no typing run is open. */
    method BackspaceInRun()
      requires Valid() && selEnd.None? && !seeingConsecutiveRegularKeys
      modifies this`selStart, this`mem, this`seeingConsecutiveBackspaceKeys, text, mem
      ensures Valid() && seeingConsecutiveBackspaceKeys
      ensures Edit(text.text, selStart) == Backspace(old(text.text), old(selStart)).0
      ensures old(seeingConsecutiveBackspaceKeys) ==>
                mem == old(mem) && mem.View() == AddDelete(old(mem.View()), selStart, Backspace(old(text.text), old(selStart)).1)
      ensures !old(seeingConsecutiveBackspaceKeys) ==>
                fresh(mem) && mem.View() == DeleteRecipe(selStart, Backspace(old(text.text), old(selStart)).1)
      ensures !old(seeingConsecutiveBackspaceKeys) ==> unchanged(old(mem))
    {
      ghost var S := historyMgr.stack;
      var newPos, deletedText := DeleteUnitBeforeCaret();
      if seeingConsecutiveBackspaceKeys {
        mem.AddDeleteToMemento(newPos, deletedText);
      } else {
        mem := Memento.CreateSingleCharDeleteMemento(text, selStart, newPos, deletedText);
      }
      assert historyMgr.stack == S;
      assert mem.textMgr == text && mem !in S;
      SetSelStart(newPos);
      seeingConsecutiveBackspaceKeys := true;
    }

    /** The buffer part of a backspace: the caret moved one unit left, the
      text between the two positions, and that text deleted. */
    method DeleteUnitBeforeCaret() returns (newPos: Position, deletedText: string)
      requires Valid()
      modifies text
      ensures text.Valid() && (Edit(text.text, newPos), deletedText) == Backspace(old(text.text), selStart)
    {
      ghost var L0 := text.text;
      BackspaceInsertedAt(L0, selStart);
      newPos := text.ChangePosition(selStart, Change(0, -1));
      UnitBeforePosition(L0, selStart);
      PrevPositionOffset(L0, selStart);
      deletedText := text.GetTextBetweenPositions(newPos, selStart);
      var _ := text.DeleteText(selStart, newPos);
    }

    /** copySelectionToClipboard: the selected text, read in reading order;
      an empty selection leaves the clipboard as it was. */
    method CopySelectionToClipboard()
      requires Valid() && selEnd.Some?
      modifies this`clipboard
      ensures clipboard == if selStart == selEnd.value then old(clipboard)
                           else Some(Between(text.text, Earlier(selStart, selEnd.value), Later(selStart, selEnd.value)))
    {
      var diff := ComparePositions(selStart, selEnd.value);
      if diff < 0 {
        var s := text.GetTextBetweenPositions(selStart, selEnd.value);
        clipboard := Some(s);
      } else if diff > 0 {
        var s := text.GetTextBetweenPositions(selEnd.value, selStart);
        clipboard := Some(s);
      }
    }

    /** pasteClipboardOverSelection: an absent or empty clipboard changes
      nothing; otherwise the selection is replaced by the clipboard text in
      the same steps as a typed key replaces it. */
    method PasteClipboardOverSelection()
      requires Valid() && selEnd.Some?
      modifies this`selStart, this`selEnd, text, historyMgr
      ensures Valid()
      ensures clipboard.None? || clipboard == Some("") ==>
                text.text == old(text.text) && selStart == old(selStart) && selEnd == old(selEnd)
                && historyMgr.stack == old(historyMgr.stack)
      ensures clipboard.Some? && clipboard != Some("") ==>
                selEnd == None
                && Edit(text.text, selStart) == Replaced(old(text.text), old(selStart), old(selEnd.value), clipboard.value)
                && |historyMgr.stack| > 0 && historyMgr.stack == old(historyMgr.stack) + [Top()]
                && Top().View() == ReplaceRecipe(Earlier(old(selStart), old(selEnd.value)), selStart,
                                                 Between(old(text.text), Earlier(old(selStart), old(selEnd.value)),
                                                         Later(old(selStart), old(selEnd.value))))
    {
      if clipboard.None? || clipboard.value == "" {
        return;
      }
      ReplaceSelection(clipboard.value);
    }

    /** pasteClipboardAtCursor: an absent or empty clipboard changes
      nothing; otherwise the clipboard text goes in at the caret, a string
      insert memento becomes the open memento and goes on the history, and
      the caret ends after the pasted text. By RestoreStringInsert,
      restoring that memento removes the pasted text. Called only with no selection and once no run is being
      collected. */
    method PasteClipboardAtCursor()
      requires Valid() && selEnd.None? && !seeingConsecutiveRegularKeys && !seeingConsecutiveBackspaceKeys
      modifies this`selStart, this`mem, text, historyMgr
      ensures Valid()
      ensures clipboard.None? || clipboard == Some("") ==>
                text.text == old(text.text) && selStart == old(selStart) && mem == old(mem)
                && historyMgr.stack == old(historyMgr.stack)
      ensures clipboard.Some? && clipboard != Some("") ==>
                Edit(text.text, selStart) == InsertText(old(text.text), old(selStart), clipboard.value)
                && fresh(mem) && mem.View() == InsertRecipe(old(selStart), selStart)
                && historyMgr.stack == old(historyMgr.stack) + [mem]
    {
      if clipboard.None? || clipboard.value == "" {
        return;
      }
      ghost var L0, p, S0 := text.text, selStart, historyMgr.stack;
      var res := text.InsertText(selStart, clipboard.value);
      mem := Memento.CreateStringInsertMemento(text, selStart, res);
      assert mem.View() == InsertRecipe(p, res);
      historyMgr.StoreNewMemento(mem);
      assert historyMgr.stack == S0 + [mem];
      SetSelStart(res);
    }

    /** Ctrl-v once no run is open: paste over the selection if there is
      one, else at the caret. */
    method Paste()
      requires Valid() && !seeingConsecutiveRegularKeys && !seeingConsecutiveBackspaceKeys
      modifies this`selStart, this`selEnd, this`mem, text, historyMgr
      ensures Valid()
      ensures clipboard.None? || clipboard == Some("") ==>
                text.text == old(text.text) && selStart == old(selStart) && selEnd == old(selEnd)
                && mem == old(mem) && historyMgr.stack == old(historyMgr.stack)
      ensures clipboard.Some? && clipboard != Some("") && old(selEnd).Some? ==>
                selEnd == None && mem == old(mem)
                && Edit(text.text, selStart) == Replaced(old(text.text), old(selStart), old(selEnd.value), clipboard.value)
                && |historyMgr.stack| > 0 && historyMgr.stack == old(historyMgr.stack) + [Top()]
                && Top().View() == ReplaceRecipe(Earlier(old(selStart), old(selEnd.value)), selStart,
                                                 Between(old(text.text), Earlier(old(selStart), old(selEnd.value)),
                                                         Later(old(selStart), old(selEnd.value))))
      ensures clipboard.Some? && clipboard != Some("") && old(selEnd).None? ==>
                selEnd == None
                && Edit(text.text, selStart) == InsertText(old(text.text), old(selStart), clipboard.value)
                && fresh(mem) && mem.View() == InsertRecipe(old(selStart), selStart)
                && historyMgr.stack == old(historyMgr.stack) + [mem]
    {
      var hasSelection := SelectionExists();
      if hasSelection {
        PasteClipboardOverSelection();
      } else {
        PasteClipboardAtCursor();
      }
    }

    /** restoreStateFromSnapshot: with an empty history nothing happens;
      otherwise the top memento is popped and restored, the caret goes to
      the position restore returns and the selection goes. */
    method RestoreStateFromSnapshot()
      requires Valid()
      requires |historyMgr.stack| > 0 ==> Applicable(text.text, historyMgr.stack[|historyMgr.stack| - 1].View())
      modifies this`selStart, this`selEnd, text, historyMgr
      ensures Valid()
      ensures old(|historyMgr.stack|) == 0 ==>
                text.text == old(text.text) && selStart == old(selStart) && selEnd == old(selEnd)
                && historyMgr.stack == old(historyMgr.stack)
      ensures old(|historyMgr.stack|) > 0 ==>
                historyMgr.stack == old(historyMgr.stack[..|historyMgr.stack| - 1])
                && Edit(text.text, selStart) == Restored(old(text.text), old(historyMgr.stack[|historyMgr.stack| - 1].View()))
                && selEnd == None
    {
      var has := historyMgr.HasSnapshotToRestore();
      if has {
        var s, e := historyMgr.RestoreFromSnapshot();
        SetSelStart(s);
        SetSelEnd(e);
      }
    }

    /** Ctrl-a: the caret goes to the start of its line and the selection goes. */
    method MoveToLineStart()
      requires Valid()
      modifies this`selStart, this`selEnd
      ensures Valid()
      ensures selStart == Position(old(selStart).row, 0) && selEnd == None
    {
      SetSelStart(Position(selStart.row, 0));
      RemoveSelection();
    }

    /** Ctrl-e: the caret goes to column 1000000 of its line, clamped to the
      line's end, and the selection goes. */
    method MoveToLineEnd()
      requires Valid()
      modifies this`selStart, this`selEnd
      ensures Valid()
      ensures selStart == Position(old(selStart).row, Min(1000000, |text.text[old(selStart).row]|)) && selEnd == None
    {
      SetSelStart(EditPosition(text.text, Position(selStart.row, 1000000)));
      RemoveSelection();
    }

    /** The Backspace key: with a selection the selection is deleted, else
      the unit left of the caret; either way the selection goes. */
    method HandleBackspaceKey()
      requires Valid()
      modifies this`selStart, this`selEnd, this`mem, this`seeingConsecutiveRegularKeys, this`seeingConsecutiveBackspaceKeys, text, historyMgr, mem
      ensures Valid() && selEnd == None
      ensures old(selEnd).Some? ==>
                Edit(text.text, selStart) == DeleteText(old(text.text), old(selStart), old(selEnd.value))
                && seeingConsecutiveRegularKeys == old(seeingConsecutiveRegularKeys)
                && seeingConsecutiveBackspaceKeys == old(seeingConsecutiveBackspaceKeys)
                && mem == old(mem) && unchanged(mem)
                && |historyMgr.stack| > 0 && historyMgr.stack == old(historyMgr.stack) + [Top()]
                && Top().View() == DeleteRecipe(selStart, Between(old(text.text), Earlier(old(selStart), old(selEnd.value)),
                                                                  Later(old(selStart), old(selEnd.value))))
      ensures old(selEnd).None? ==>
                Edit(text.text, selStart) == Backspace(old(text.text), old(selStart)).0
                && seeingConsecutiveBackspaceKeys && !seeingConsecutiveRegularKeys
                && (old(seeingConsecutiveBackspaceKeys) ==>
                      mem == old(mem) && mem.View() == AddDelete(old(mem.View()), selStart, Backspace(old(text.text), old(selStart)).1))
                && (!old(seeingConsecutiveBackspaceKeys) ==>
                      fresh(mem) && mem.View() == DeleteRecipe(selStart, Backspace(old(text.text), old(selStart)).1)
                      && unchanged(old(mem)))
                && historyMgr.stack == old(historyMgr.stack) + (if old(seeingConsecutiveRegularKeys) then [old(mem)] else [])
    {
      var hasSelection := SelectionExists();
      if hasSelection {
        DeleteSelection();
      } else {
        BackspaceAtCaret();
      }
      RemoveSelection();
    }

    /** A Ctrl shortcut: the run being collected is stored, then c copies,
      z undoes, v pastes (over the selection if there is one), a and e move
      the caret to the start or end of its line; other keys do nothing more.
      Ctrl-z straight after a run restores that run's memento. */
    method HandleShortcut(key: string)
      requires Valid()
      requires key == "c" ==> selEnd.Some?
      requires key == "z" ==> UndoReady()
      modifies this`selStart, this`selEnd, this`mem, this`clipboard,
               this`seeingConsecutiveRegularKeys, this`seeingConsecutiveBackspaceKeys, text, historyMgr
      ensures Valid()
      ensures !seeingConsecutiveRegularKeys && !seeingConsecutiveBackspaceKeys
      ensures key !in {"z", "v"} ==>
                text.text == old(text.text)
                && historyMgr.stack == old(historyMgr.stack) + (if old(seeingConsecutiveRegularKeys || seeingConsecutiveBackspaceKeys) then [old(mem)] else [])
      ensures key != "c" ==> clipboard == old(clipboard)
      ensures key != "v" ==> mem == old(mem)
      ensures key == "c" ==>
                selStart == old(selStart) && selEnd == old(selEnd)
                && clipboard == if old(selStart) == old(selEnd).value then old(clipboard)
                                else Some(Between(old(text.text), Earlier(old(selStart), old(selEnd.value)),
                                                  Later(old(selStart), old(selEnd.value))))
      ensures key == "z" && old(seeingConsecutiveRegularKeys || seeingConsecutiveBackspaceKeys) ==>
                historyMgr.stack == old(historyMgr.stack)
                && Edit(text.text, selStart) == Restored(old(text.text), old(mem.View())) && selEnd == None
      ensures key == "z" && !old(seeingConsecutiveRegularKeys || seeingConsecutiveBackspaceKeys) ==>
                if old(|historyMgr.stack|) == 0 then
                  text.text == old(text.text) && selStart == old(selStart) && selEnd == old(selEnd)
                  && historyMgr.stack == old(historyMgr.stack)
                else
                  historyMgr.stack == old(historyMgr.stack[..|historyMgr.stack| - 1])
                  && Edit(text.text, selStart) == Restored(old(text.text), old(historyMgr.stack[|historyMgr.stack| - 1].View()))
                  && selEnd == None
      ensures key == "v" ==>
                var flushed := old(historyMgr.stack) + (if old(seeingConsecutiveRegularKeys || seeingConsecutiveBackspaceKeys) then [old(mem)] else []);
                if clipboard.None? || clipboard == Some("") then
                  text.text == old(text.text) && selStart == old(selStart) && selEnd == old(selEnd)
                  && mem == old(mem) && historyMgr.stack == flushed
                else if old(selEnd).Some? then
                  selEnd == None && mem == old(mem)
                  && Edit(text.text, selStart) == Replaced(old(text.text), old(selStart), old(selEnd.value), clipboard.value)
                  && |historyMgr.stack| > 0 && historyMgr.stack == flushed + [Top()]
                  && Top().View() == ReplaceRecipe(Earlier(old(selStart), old(selEnd.value)), selStart,
                                                   Between(old(text.text), Earlier(old(selStart), old(selEnd.value)),
                                                           Later(old(selStart), old(selEnd.value))))
                else
                  selEnd == None
                  && Edit(text.text, selStart) == InsertText(old(text.text), old(selStart), clipboard.value)
                  && fresh(mem) && mem.View() == InsertRecipe(old(selStart), selStart)
                  && historyMgr.stack == flushed + [mem]
      ensures key == "a" ==> selStart == Position(old(selStart).row, 0) && selEnd == None
      ensures key == "e" ==>
                selStart == Position(old(selStart).row, Min(1000000, |text.text[old(selStart).row]|)) && selEnd == None
      ensures key !in {"c", "z", "v", "a", "e"} ==> selStart == old(selStart) && selEnd == old(selEnd)
    {
      FlushOpenMemento();
      if key == "c" {
        CopySelectionToClipboard();
      } else if key == "z" {
        RestoreStateFromSnapshot();
      } else if key == "v" {
        Paste();
      } else if key == "a" {
        MoveToLineStart();
      } else if key == "e" {
        MoveToLineEnd();
      }
    }

    /** handleKeyStrokes: arrows move the caret or the selection end, Enter
      is the key "\n", Backspace deletes, a Ctrl shortcut is handled as
      above, and any other key is typed. Copy reads the selection end
      without checking it, and undo needs the memento it restores to fit the
      buffer. The coalescing flags afterwards: cleared by an arrow or a
      shortcut, set for the kind of key typed at a caret with no selection,
      and left alone when a selection is replaced or deleted. */
    method HandleKeyStrokes(ev: KeyEvent)
      requires Valid()
      requires IsShortcut(ev) && ev.key == "c" ==> selEnd.Some?
      requires IsShortcut(ev) && ev.key == "z" ==> UndoReady()
      modifies this`selStart, this`selEnd, this`mem, this`clipboard,
               this`seeingConsecutiveRegularKeys, this`seeingConsecutiveBackspaceKeys, text, historyMgr, mem
      ensures Valid()
      ensures ArrowChange(ev.key).Some? || IsShortcut(ev) ==>
                !seeingConsecutiveRegularKeys && !seeingConsecutiveBackspaceKeys
      ensures ArrowChange(ev.key).None? && !IsShortcut(ev) && old(selEnd).None? ==>
                if ev.key == "Backspace" then seeingConsecutiveBackspaceKeys && !seeingConsecutiveRegularKeys
                else seeingConsecutiveRegularKeys && !seeingConsecutiveBackspaceKeys
      ensures ArrowChange(ev.key).None? && !IsShortcut(ev) && old(selEnd).Some? ==>
                seeingConsecutiveRegularKeys == old(seeingConsecutiveRegularKeys)
                && seeingConsecutiveBackspaceKeys == old(seeingConsecutiveBackspaceKeys)
    {
      var arrow := ArrowChange(ev.key);
      if arrow.Some? {
        StartSelectionOrMoveCursor(arrow.value, ev.shiftKey);
        return;
      }
      if ev.key == "Enter" {
        HandleRegularKey("\n");
        return;
      }
      if ev.key == "Backspace" {
        HandleBackspaceKey();
        return;
      }
      if ev.ctrlKey {
        HandleShortcut(ev.key);
        return;
      }
      HandleRegularKey(ev.key);
    }
  }
}
