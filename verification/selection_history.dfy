/**
  `SelectionStack`, the bounded undo/redo history of selections, and
  `_apply_selection`, which records the current selection before changing it.

  A snapshot is any value `S`; the host's `cmds.select(snapshot.nodes,
  replace=True)` performed by `SelectionSnapshot.restore` appears as the
  snapshot an `Undo` or `Redo` hands back.
 */
module SelectionHistory {
  import opened Wrappers

  /**
    The stack's private state: the snapshots, the index of the current one
    (-1 before the first push), and the size limit.
   */
  datatype History<S> = History(entries: seq<S>, index: int, maxSize: int)
  {
    /**
      What `push`, `undo` and `redo` keep true: the index is -1 exactly on an
      empty stack and otherwise points at an entry, and the stack never holds
      more than `max_size` entries (none at all when `max_size` is not positive).
     */
    ghost predicate Valid() {
      && -1 <= index < |entries|
      && (entries != [] ==> 0 <= index)
      && |entries| <= Capacity(maxSize)
    }
  }

  /** The most entries a stack with this limit can hold. */
  function Capacity(maxSize: int): nat {
    if maxSize < 0 then 0 else maxSize
  }

  /** `SelectionStack(max_size)`: empty, with index -1; the default limit is 50. */
  function NewHistory<S>(maxSize: int := 50): (h: History<S>)
    ensures h.Valid() && h.entries == [] && h.index == -1 && h.maxSize == maxSize
  {
    History([], -1, maxSize)
  }

  /**
    `push`: the entries after the current one are discarded, the snapshot is
    appended and becomes current, and when the stack is then over its limit
    the oldest entry is dropped.
   */
  function Push<S>(h: History<S>, s: S): (r: History<S>)
    requires h.Valid()
    ensures r.Valid() && r.maxSize == h.maxSize
    ensures h.maxSize < 1 ==> r.entries == [] && r.index == -1
    ensures h.maxSize >= 1 ==> r.entries != [] && r.index == |r.entries| - 1 && r.entries[r.index] == s
    ensures |r.entries| == if h.index + 2 <= Capacity(h.maxSize) then h.index + 2 else Capacity(h.maxSize)
    ensures h.maxSize >= 1 ==> r.entries == h.entries[h.index + 2 - |r.entries|..h.index + 1] + [s]
  {
    var i := h.index + 1;
    var kept := if i < |h.entries| then h.entries[..i] else h.entries;
    assert kept == h.entries[..i];
    var entries := kept + [s];
    if |entries| > h.maxSize then
      assert i == Capacity(h.maxSize);
      assert i >= 1 ==> entries[1..] == h.entries[1..i] + [s];
      History(entries[1..], i - 1, h.maxSize)
    else
      History(entries, i, h.maxSize)
  }

  /** The outcome of `undo` or `redo`: the new state and the snapshot restored, `None` for a `False` return. */
  datatype Moved<S> = Moved(history: History<S>, restored: Option<S>)

  /** `undo`: possible only past the first entry; the index steps back and that entry is restored. */
  function Undo<S>(h: History<S>): (r: Moved<S>)
    requires h.Valid()
    ensures r.history.Valid()
    ensures r.restored.Some? <==> h.index > 0
    ensures r.restored.Some? ==>
      && r.history == h.(index := h.index - 1)
      && r.restored.value == h.entries[h.index - 1]
    ensures r.restored.None? ==> r.history == h
  {
    if h.index > 0 then Moved(h.(index := h.index - 1), Some(h.entries[h.index - 1]))
    else Moved(h, None)
  }

  /** `redo`: possible only before the last entry; the index steps forward and that entry is restored. */
  function Redo<S>(h: History<S>): (r: Moved<S>)
    requires h.Valid()
    ensures r.history.Valid()
    ensures r.restored.Some? <==> h.index < |h.entries| - 1
    ensures r.restored.Some? ==>
      && r.history == h.(index := h.index + 1)
      && r.restored.value == h.entries[h.index + 1]
    ensures r.restored.None? ==> r.history == h
  {
    if h.index < |h.entries| - 1 then Moved(h.(index := h.index + 1), Some(h.entries[h.index + 1]))
    else Moved(h, None)
  }

  /** A fresh stack can be neither undone nor redone. */
  lemma NewHistoryIsStuck<S>(maxSize: int)
    ensures Undo(NewHistory<S>(maxSize)) == Moved(NewHistory(maxSize), None)
    ensures Redo(NewHistory<S>(maxSize)) == Moved(NewHistory(maxSize), None)
  {
  }

  /** A successful undo followed by a redo returns to the original state and restores the entry that was current. */
  lemma UndoThenRedo<S>(h: History<S>)
    requires h.Valid() && Undo(h).restored.Some?
    ensures Redo(Undo(h).history) == Moved(h, Some(h.entries[h.index]))
  {
  }

  /** A successful redo followed by an undo returns to the original state and restores the entry that was current. */
  lemma RedoThenUndo<S>(h: History<S>)
    requires h.Valid() && Redo(h).restored.Some?
    ensures Undo(Redo(h).history) == Moved(h, Some(h.entries[h.index]))
  {
  }

  /** After a push there is nothing to redo: the redo tail was discarded. */
  lemma NoRedoAfterPush<S>(h: History<S>, s: S)
    requires h.Valid()
    ensures Redo(Push(h, s)).restored == None
  {
  }

  /**
    Undoing a push restores the entry that was current before it, also when
    the push dropped the oldest entry, as long as the stack can hold two.
   */
  lemma UndoAfterPush<S>(h: History<S>, s: S)
    requires h.Valid() && h.maxSize >= 2 && h.index >= 0
    ensures Undo(Push(h, s)).restored == Some(h.entries[h.index])
  {
    var r := Push(h, s);
    var lo := h.index + 2 - |r.entries|;
    assert r.entries[r.index - 1] == h.entries[lo..h.index + 1][r.index - 1];
  }

  // ---------------------------------------------------------------------------
  // _apply_selection

  /** `SelectionMode`. */
  datatype Mode = Replace | Add | Remove | Toggle

  /** The `cmds.select(nodes, ...)` call `_apply_selection` issues, with the flag its mode picks. */
  datatype SelectCall = SelectCall(nodes: seq<string>, mode: Mode)

  /** The shared history after the call and the selection command issued, if any. */
  datatype Applied = Applied(history: History<seq<string>>, call: Option<SelectCall>)

  /**
    `_apply_selection(nodes, mode)` against the module's stack `h`, with
    `current` the selection `cmds.ls(selection=True)` reports: an empty list
    changes nothing; otherwise the current selection is pushed and then the
    selection command is issued.
   */
  function ApplySelection(h: History<seq<string>>, current: seq<string>, nodes: seq<string>, mode: Mode): (r: Applied)
    requires h.Valid()
    ensures r.history.Valid()
    ensures nodes == [] <==> r.call.None?
    ensures nodes == [] ==> r.history == h
    ensures nodes != [] ==> r.call == Some(SelectCall(nodes, mode)) && r.history == Push(h, current)
  {
    if nodes == [] then Applied(h, None)
    else Applied(Push(h, current), Some(SelectCall(nodes, mode)))
  }

  /**
    As written, the history holds only selections from before each change and
    undo steps to the entry before the current one: after a single selection
    change on a fresh stack there is nothing to undo.
   */
  lemma FirstChangeCannotBeUndone(current: seq<string>, nodes: seq<string>, mode: Mode)
    requires nodes != []
    ensures Undo(ApplySelection(NewHistory(), current, nodes, mode).history).restored == None
  {
  }

  /**
    As written, after two selection changes on a fresh stack, undo restores
    the selection from before the first change, not the one from before the
    second.
   */
  lemma UndoSkipsLatestChange(first: seq<string>, second: seq<string>, nodes1: seq<string>, nodes2: seq<string>, mode: Mode)
    requires nodes1 != [] && nodes2 != []
    ensures var h1 := ApplySelection(NewHistory(), first, nodes1, mode).history;
      var h2 := ApplySelection(h1, second, nodes2, mode).history;
      Undo(h2).restored == Some(first)
  {
    var h1 := ApplySelection(NewHistory(), first, nodes1, mode).history;
    assert h1.entries == [first] && h1.index == 0;
    var h2 := ApplySelection(h1, second, nodes2, mode).history;
    assert h2.entries == [first, second] && h2.index == 1;
  }
}
