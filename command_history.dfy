/**
 * The command pattern of `tests/dp-memento.cc`: `history_t` keeps executed
 * commands in a list used as a stack, and `editors_holder` keeps the open
 * editors and an iterator to the current one, here an index.
 */
module CommandHistory {
  import opened Optional

  class History<Cmd> {
    /** `_history`, oldest first. */
    var history: seq<Cmd>

    constructor()
      ensures history == []
    {
      history := [];
    }

    /** `push`: the command goes to the back. */
    method Push(cmd: Cmd)
      modifies this
      ensures history == old(history) + [cmd]
    {
      history := history + [cmd];
    }

    /** `pop`: reads `back()` first, so the history must not be empty; returns and removes the last command. */
    method Pop() returns (cmd: Cmd)
      requires history != []
      modifies this
      ensures cmd == old(history)[|old(history)| - 1]
      ensures history == old(history)[..|old(history)| - 1]
    {
      cmd := history[|history| - 1];
      history := history[..|history| - 1];
    }
  }

  class EditorsHolder<Editor> {
    /** `_editors`, in the order they were added. */
    var editors: seq<Editor>
    /** `_current`; None while it is still a singular iterator. */
    var current: Option<nat>

    constructor()
      ensures editors == [] && current == None
    {
      editors := [];
      current := None;
    }

    predicate HasCurrent()
      reads this
    {
      current.Some? && current.value < |editors|
    }

    /** `current`: the editor `_current` points at; dereferencing it requires one. */
    function Current(): Editor
      reads this
      requires HasCurrent()
    {
      editors[current.value]
    }

    /** `add`: appends, leaves the earlier editors in place, and makes the new one current. */
    method Add(editor: Editor)
      modifies this
      ensures editors == old(editors) + [editor]
      ensures current == Some(|editors| - 1)
      ensures HasCurrent() && Current() == editor
    {
      editors := editors + [editor];
      current := Some(|editors| - 1);
    }
  }

  /** Two commands pushed and popped come back in reverse order, leaving the history as it was. */
  method HistoryIsLifo<Cmd>(h: History<Cmd>, a: Cmd, b: Cmd) returns (first: Cmd, second: Cmd)
    modifies h
    ensures first == b && second == a
    ensures h.history == old(h.history)
  {
    h.Push(a);
    h.Push(b);
    assert h.history == (old(h.history) + [a]) + [b];
    first := h.Pop();
    assert h.history == old(h.history) + [a];
    second := h.Pop();
  }

  /** `test_command_basic`: after adding one editor to an empty holder, it is the current one. */
  method HolderTest<Editor>(e: Editor) returns (current: Editor, count: nat)
    ensures current == e && count == 1
  {
    var holder := new EditorsHolder<Editor>();
    holder.Add(e);
    current := holder.Current();
    count := |holder.editors|;
  }
}
