/**
  One cell of the game field: a bomb flag and a five-state visibility machine.
 */
module Cells {

  datatype CellState = Closed | Opened | MarkedAsBomb | Defused | Detonated {
    /** Closed and MarkedAsBomb cells are still to be uncovered; the other three are final. */
    predicate IsHidden() {
      this == Closed || this == MarkedAsBomb
    }
  }

  /** The state a cell in state s moves to when it is opened; `other` is the state a bomb takes. */
  function Uncovered(s: CellState, isBomb: bool, other: CellState): CellState {
    if s.IsHidden() then (if isBomb then other else Opened) else s
  }

  /** The state a cell in state s moves to when the player toggles its bomb mark. */
  function Toggled(s: CellState): CellState {
    match s
    case Closed => MarkedAsBomb
    case MarkedAsBomb => Closed
    case _ => s
  }

  /** A cell opened by a move in a running game: it kept its state or went from hidden to Opened. */
  predicate OpenedOrKept(before: CellState, after: CellState) {
    after == before || (before.IsHidden() && after == Opened)
  }

  /**
    Opening changes a hidden cell and nothing else; a hidden cell becomes the given final
    state when it holds a bomb and Opened otherwise, and opening again changes nothing.
   */
  lemma UncoveredSpec(s: CellState, isBomb: bool, other: CellState)
    requires other == Defused || other == Detonated
    ensures Uncovered(s, isBomb, other) != s <==> s.IsHidden()
    ensures s.IsHidden() ==> Uncovered(s, isBomb, other) == (if isBomb then other else Opened)
    ensures !Uncovered(s, isBomb, other).IsHidden()
    ensures Uncovered(Uncovered(s, isBomb, other), isBomb, other) == Uncovered(s, isBomb, other)
  {
  }

  /** Toggling swaps Closed and MarkedAsBomb, leaves the final states alone, and undoes itself. */
  lemma ToggledSpec(s: CellState)
    ensures Toggled(s) != s <==> s.IsHidden()
    ensures Toggled(s).IsHidden() == s.IsHidden()
    ensures Toggled(Toggled(s)) == s
  {
  }

  class Cell {
    var state: CellState
    var isBomb: bool
    /** Where the board keeps this cell; it only serves to tell the board's cells apart. */
    ghost const position: (int, int)

    /** A closed cell without a bomb. */
    constructor (ghost position: (int, int))
      ensures state == Closed && !isBomb && this.position == position
    {
      state := Closed;
      isBomb := false;
      this.position := position;
    }

    /** Opens the cell, or detonates it if it holds a bomb; reports whether the state changed. */
    method OpenOrDetonate() returns (changed: bool)
      modifies this
      ensures isBomb == old(isBomb)
      ensures state == Uncovered(old(state), isBomb, Detonated)
      ensures changed == old(state).IsHidden() && changed == (state != old(state))
    {
      changed := OpenOrDoOtherIfBomb(Detonated);
    }

    /** Opens the cell, or defuses it if it holds a bomb; reports whether the state changed. */
    method OpenOrDefuse() returns (changed: bool)
      modifies this
      ensures isBomb == old(isBomb)
      ensures state == Uncovered(old(state), isBomb, Defused)
      ensures changed == old(state).IsHidden() && changed == (state != old(state))
    {
      changed := OpenOrDoOtherIfBomb(Defused);
    }

    /** Turns the player's bomb mark on or off; reports whether the state changed. */
    method ToggleBombMark() returns (changed: bool)
      modifies this
      ensures isBomb == old(isBomb)
      ensures state == Toggled(old(state))
      ensures changed == (state != old(state))
    {
      var initialState := state;
      match state {
        case MarkedAsBomb => state := Closed;
        case Closed => state := MarkedAsBomb;
        case _ =>
      }
      changed := initialState != state;
    }

    /** Removes the bomb and closes the cell; reports whether the state changed. */
    method Reset() returns (changed: bool)
      modifies this
      ensures state == Closed && !isBomb
      ensures changed == (old(state) != Closed)
    {
      isBomb := false;
      if state != Closed {
        state := Closed;
        return true;
      }
      return false;
    }

    /** The shared transition of opening: a hidden cell becomes `other` if it holds a bomb, else Opened. */
    method OpenOrDoOtherIfBomb(other: CellState) returns (changed: bool)
      requires other == Defused || other == Detonated
      modifies this
      ensures isBomb == old(isBomb)
      ensures state == Uncovered(old(state), isBomb, other)
      ensures changed == old(state).IsHidden() && changed == (state != old(state))
    {
      if state == Closed || state == MarkedAsBomb {
        state := if isBomb then other else Opened;
        return true;
      }
      return false;
    }
  }
}
