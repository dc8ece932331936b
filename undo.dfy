/**
 * The memento pattern of `tests/undo.cc`: a `memento_t` keeps saved states
 * in a list used as a stack, and an `originator_t` saves its current state
 * there and restores the most recent one.
 */
module Undo {
  import opened Optional

  class Memento<State> {
    /** `_saved_states`, oldest first. */
    var saved: seq<State>

    constructor()
      ensures saved == []
    {
      saved := [];
    }

    /** `push`: the state goes to the back. */
    method Push(s: State)
      modifies this
      ensures saved == old(saved) + [s]
    {
      saved := saved + [s];
    }

    /** `pop`: an empty optional on an empty memento, otherwise the most recently pushed state, which is removed. */
    method Pop() returns (r: Option<State>)
      modifies this
      ensures old(saved) == [] ==> r == None && saved == old(saved)
      ensures old(saved) != [] ==> r == Some(old(saved)[|old(saved)| - 1]) && saved == old(saved)[..|old(saved)| - 1]
      ensures r.Some? ==> old(saved) == saved + [r.value]
    {
      if saved == [] {
        return None;
      }
      r := Some(saved[|saved| - 1]);
      saved := saved[..|saved| - 1];
    }

    /** `size`. */
    function Size(): (n: nat)
      reads this
      ensures n == |saved|
    {
      |saved|
    }

    /** `empty`. */
    function Empty(): (e: bool)
      reads this
      ensures e <==> Size() == 0
    {
      saved == []
    }

    /** `can_pop`: exactly when the memento is not empty. */
    function CanPop(): (c: bool)
      reads this
      ensures c <==> !Empty()
      ensures c <==> Size() > 0
    {
      !Empty()
    }
  }

  class Originator<State> {
    var state: State
    const history: Memento<State>

    /** `_state` starts as the default-constructed state `init`; the history is empty. */
    constructor(init: State)
      ensures state == init && fresh(history) && history.saved == []
    {
      state := init;
      history := new Memento();
    }

    /** `set`: the state is replaced; the history is untouched. */
    method Set(s: State)
      modifies this
      ensures state == s
    {
      state := s;
    }

    /**
     * `save_to_memento`: `push` copies its named argument, so the current
     * state is saved and also kept.
     */
    method SaveToMemento()
      modifies history
      ensures history.saved == old(history.saved) + [state]
    {
      history.Push(state);
    }

    /** `restore_from_memento`: dereferences what `pop` returns, so the history must not be empty. */
    method RestoreFromMemento()
      requires history.saved != []
      modifies this, history
      ensures state == old(history.saved)[|old(history.saved)| - 1]
      ensures history.saved == old(history.saved)[..|old(history.saved)| - 1]
    {
      var r := history.Pop();
      state := r.value;
    }
  }

  /** `caretaker::run`: after the restore the state is "state3", and "state2" is still saved. */
  method CaretakerRun() returns (state: string, saved: seq<string>)
    ensures state == "state3" && saved == ["state2"]
  {
    var o := new Originator<string>("");
    o.Set("state1");
    o.Set("state2");
    o.SaveToMemento();
    o.Set("state3");
    o.SaveToMemento();
    o.Set("state4");
    o.RestoreFromMemento();
    state, saved := o.state, o.history.saved;
  }
}
