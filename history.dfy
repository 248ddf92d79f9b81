/** The undo history (src/history.ts): an unbounded stack of mementos, the
    most recent on top. */
module Histories {
  import opened Utils
  import opened TextOps
  import opened Text
  import opened Mementos

  class History {
    var stack: seq<Memento>

    constructor()
      ensures stack == []
    {
      stack := [];
    }

    /** storeNewMemento: the memento goes on top; everything stored earlier
      stays where it was (there is no capacity bound). */
    method StoreNewMemento(mem: Memento)
      modifies this
      ensures stack == old(stack) + [mem]
    {
      PushSnapshot(mem);
    }

    /** hasSnapshotToRestore: whether an undo is possible. */
    method HasSnapshotToRestore() returns (b: bool)
      ensures b <==> |stack| > 0
    {
      b := |stack| != 0;
    }

    /** restoreFromSnapshot: pops the most recently stored memento and
      restores it; the position it returns is the caret after the restored
      text, and the selection end it reports is always absent. The source
      force-unwraps the popped value, so the stack must not be empty. */
    method RestoreFromSnapshot() returns (s: Position, e: Option<Position>)
      requires |stack| > 0
      requires stack[|stack| - 1].textMgr.Valid()
      requires Applicable(stack[|stack| - 1].textMgr.text, stack[|stack| - 1].View())
      modifies this, stack[|stack| - 1].textMgr
      ensures stack == old(stack[..|stack| - 1])
      ensures e == None
      ensures var top := old(stack[|stack| - 1]);
              top.textMgr.Valid()
              && Edit(top.textMgr.text, s) == Restored(old(top.textMgr.text), old(top.View()))
    {
      var mem := PopSnapshot();
      s := mem.value.Restore();
      e := None;
    }

    method PushSnapshot(s: Memento)
      modifies this
      ensures stack == old(stack) + [s]
    {
      stack := stack + [s];
    }

    /** popSnapshot: the top memento and the stack without it; on an empty
      stack nothing (the source's `undefined`) and no change. */
    method PopSnapshot() returns (top: Option<Memento>)
      modifies this
      ensures old(stack) == [] ==> top == None && stack == []
      ensures old(stack) != [] ==> top == Some(old(stack[|stack| - 1])) && stack == old(stack[..|stack| - 1])
    {
      if |stack| == 0 {
        return None;
      }
      top := Some(stack[|stack| - 1]);
      stack := stack[..|stack| - 1];
    }
  }

  /** Last in, first out: storing a memento and then popping gives that
      memento back and leaves the stack as it was. */
  method StoreThenPop(h: History, m: Memento) returns (top: Option<Memento>)
    modifies h
    ensures top == Some(m) && h.stack == old(h.stack)
  {
    h.StoreNewMemento(m);
    top := h.PopSnapshot();
  }
}
