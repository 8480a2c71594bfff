/**
  The board of a Minesweeper game: an n-by-n field of cells, the placement of bombs,
  opening cells (with the cascade over cells that have no bomb around them), toggling
  bomb marks, and the game phase INITIATED -> READY -> RUNNING -> WIN | LOSS.
 */
module Game {
  import opened Field
  import opened Cells

  datatype GameState = Initiated | Ready | Running | Win | Loss

  datatype Option<T> = None | Some(value: T)

  /** What the board tells about a cell: its state, and its number of adjacent bombs once opened. */
  datatype CellData = CellData(state: CellState, numberBombs: Option<nat>)

  /** The phase may stay put or move forward; only a restart brings it back to Ready. */
  predicate Advances(before: GameState, after: GameState) {
    || before == after
    || (before == Ready && after in {Running, Win, Loss})
    || (before == Running && after in {Win, Loss})
  }

  /** Advances is a partial order, and Win and Loss are final. */
  lemma AdvancesIsAnOrder(a: GameState, b: GameState, c: GameState)
    ensures Advances(a, a)
    ensures Advances(a, b) && Advances(b, c) ==> Advances(a, c)
    ensures Advances(a, b) && Advances(b, a) ==> a == b
    ensures (a == Win || a == Loss) && Advances(a, b) ==> b == a
  {
  }

  /** The states a cell can be in during each phase of the game. */
  predicate CellFits(phase: GameState, s: CellState, isBomb: bool) {
    match phase
    case Initiated => s == Closed && !isBomb
    case Ready => s == Closed
    case Running => s.IsHidden() || (s == Opened && !isBomb)
    case Win => (s == Opened && !isBomb) || (s == Defused && isBomb)
    case Loss => (s == Opened && !isBomb) || (s == Detonated && isBomb)
  }

  class Minesweeper {
    const fieldSize: nat
    const bombNumber: int
    var state: GameState
    const field: array2<Cell>
    /** The cells of the field, as a set of objects (the frame of the board's methods). */
    ghost const cells: set<Cell>

    /** The field is fieldSize by fieldSize and holds a distinct cell at each position. */
    ghost predicate Valid()
      reads field
    {
      && field.Length0 == fieldSize && field.Length1 == fieldSize
      && forall i, j | 0 <= i < fieldSize && 0 <= j < fieldSize ::
           field[i, j] in cells && field[i, j].position == (i, j)
    }

    /** The positions that hold a bomb. */
    ghost function Bombs(): set<Pos>
      reads field, set i, j | 0 <= i < field.Length0 && 0 <= j < field.Length1 :: field[i, j]
    {
      set q | q in Positions(fieldSize) && q.0 < field.Length0 && q.1 < field.Length1 && field[q.0, q.1].isBomb
    }

    /** The positions still to be uncovered (Closed or MarkedAsBomb). */
    ghost function Hidden(): set<Pos>
      reads field, set i, j | 0 <= i < field.Length0 && 0 <= j < field.Length1 :: field[i, j]
    {
      set q | q in Positions(fieldSize) && q.0 < field.Length0 && q.1 < field.Length1 && field[q.0, q.1].state.IsHidden()
    }

    /** The bombs are well placed, and every cell is in a state its phase allows. */
    ghost predicate Consistent()
      reads this, field, cells
      requires Valid()
    {
      && WellPlaced(fieldSize, Bombs())
      && forall i, j | 0 <= i < fieldSize && 0 <= j < fieldSize ::
           CellFits(state, field[i, j].state, field[i, j].isBomb)
    }

    /** No cell is closed and every bomb mark is right. */
    ghost predicate WinCondition()
      reads field, cells
      requires Valid()
    {
      forall i, j | 0 <= i < fieldSize && 0 <= j < fieldSize ::
        field[i, j].state != Closed && (field[i, j].state == MarkedAsBomb ==> field[i, j].isBomb)
    }

    /** The positions of rightly marked bombs: what may stay hidden in a won game. */
    ghost function MarkedBombs(): set<Pos>
      reads field, set i, j | 0 <= i < field.Length0 && 0 <= j < field.Length1 :: field[i, j]
    {
      set q | q in Positions(fieldSize) && q.0 < field.Length0 && q.1 < field.Length1
                && field[q.0, q.1].state == MarkedAsBomb && field[q.0, q.1].isBomb
    }

    /** The win condition of the field as it would be once the bomb mark at (x, y) is toggled. */
    ghost predicate WinConditionToggled(x: int, y: int)
      reads field, cells
      requires Valid()
    {
      forall i, j | 0 <= i < fieldSize && 0 <= j < fieldSize ::
        var s := if (i, j) == (x, y) then Toggled(field[i, j].state) else field[i, j].state;
        s != Closed && (s == MarkedAsBomb ==> field[i, j].isBomb)
    }

    /** A running game is not already won: the win check runs after every move. */
    ghost predicate Settled()
      reads this, field, cells
      requires Valid()
    {
      state == Running ==> !WinCondition()
    }

    /** A board of closed cells without bombs that waits for StartGame. */
    constructor (fieldSize: nat, bombNumber: int)
      ensures Valid() && Consistent() && Settled()
      ensures this.fieldSize == fieldSize && this.bombNumber == bombNumber && state == Initiated
      ensures fresh(field) && fresh(cells)
      ensures cells == set i, j | 0 <= i < fieldSize && 0 <= j < fieldSize :: field[i, j]
    {
      var placeholder := new Cell((-1, -1));
      var f := new Cell[fieldSize, fieldSize]((i, j) => placeholder);
      for i := 0 to fieldSize
        invariant forall i', j' | 0 <= i' < i && 0 <= j' < fieldSize ::
          fresh(f[i', j']) && f[i', j'].position == (i', j') && f[i', j'].state == Closed && !f[i', j'].isBomb
      {
        for j := 0 to fieldSize
          invariant forall i', j' | 0 <= i' < i && 0 <= j' < fieldSize ::
            fresh(f[i', j']) && f[i', j'].position == (i', j') && f[i', j'].state == Closed && !f[i', j'].isBomb
          invariant forall j' | 0 <= j' < j ::
            fresh(f[i, j']) && f[i, j'].position == (i, j') && f[i, j'].state == Closed && !f[i, j'].isBomb
        {
          f[i, j] := new Cell((i, j));
        }
      }
      this.fieldSize := fieldSize;
      this.bombNumber := bombNumber;
      state := Initiated;
      field := f;
      cells := set i, j | 0 <= i < fieldSize && 0 <= j < fieldSize :: f[i, j];
    }

    method SetGameState(newState: GameState)
      modifies this
      ensures state == newState
    {
      state := newState;
    }

    /** Whether every neighbour of (x, y) holds a bomb (so also when (x, y) has no neighbour). */
    method AllAdjacentCellsAreBombs(x: int, y: int) returns (allBombs: bool)
      requires Valid() && InField(fieldSize, (x, y))
      ensures allBombs == Surrounded(fieldSize, Bombs(), (x, y))
    {
      var adjacent := AdjacentCells(fieldSize, (x, y));
      AdjacentCellsSpec(fieldSize, (x, y));
      allBombs := true;
      for k := 0 to |adjacent|
        invariant allBombs
        invariant forall m | 0 <= m < k :: adjacent[m] in Bombs()
      {
        var q := adjacent[k];
        assert q in adjacent;
        if !field[q.0, q.1].isBomb {
          allBombs := false;
          break;
        }
      }
      if allBombs {
        forall q | Adjacent(fieldSize, (x, y), q) ensures q in Bombs() {
          var m :| 0 <= m < |adjacent| && adjacent[m] == q;
        }
      }
    }

    /** The number of bombs among the neighbours of (x, y). */
    method NumberAdjacentBombs(x: int, y: int) returns (number: nat)
      requires Valid() && InField(fieldSize, (x, y))
      ensures number == AdjacentBombs(fieldSize, Bombs(), (x, y))
      ensures number <= 8
      ensures number == |set q | q in Bombs() && Adjacent(fieldSize, (x, y), q)|
    {
      var adjacent := AdjacentCells(fieldSize, (x, y));
      AdjacentCellsSpec(fieldSize, (x, y));
      number := 0;
      for k := 0 to |adjacent|
        invariant number == CountIn(adjacent[..k], Bombs())
      {
        var q := adjacent[k];
        assert q in adjacent;
        assert adjacent[..k + 1][..k] == adjacent[..k];
        if field[q.0, q.1].isBomb {
          number := number + 1;
        }
      }
      assert adjacent[..|adjacent|] == adjacent;
      AdjacentBombsSpec(fieldSize, Bombs(), (x, y));
      AdjacentBombsIsCardinality(fieldSize, Bombs(), (x, y));
    }

    /** The state of the cell at (x, y) and, only if it is opened, its number of adjacent bombs. */
    method GetCellData(x: int, y: int) returns (data: CellData)
      requires Valid() && InField(fieldSize, (x, y))
      ensures data.state == field[x, y].state
      ensures data.numberBombs.Some? <==> data.state == Opened
      ensures data.numberBombs.Some? ==>
        data.numberBombs.value == AdjacentBombs(fieldSize, Bombs(), (x, y)) && data.numberBombs.value <= 8
    {
      var s := field[x, y].state;
      var numberBombs: Option<nat> := None;
      if s == Opened {
        var n := NumberAdjacentBombs(x, y);
        numberBombs := Some(n);
      }
      data := CellData(s, numberBombs);
    }

    /**
      Resets every cell, places the bombs and makes the game Ready. The ghost result
      `draws` is the sequence of positions the placement loop drew.
     */
    method StartGame() returns (ghost draws: seq<Pos>)
      requires Valid()
      modifies this, cells
      ensures Valid() && Consistent() && Settled() && state == Ready
      ensures Hidden() == Positions(fieldSize)
      ensures PlacementRun(fieldSize, bombNumber, draws) && Bombs() == Placement(fieldSize, bombNumber, draws).bombs
      ensures |Bombs()| <= Max(bombNumber, 0)
      ensures |Bombs()| == Max(bombNumber, 0) || Placement(fieldSize, bombNumber, draws).failuresLeft == 0
      ensures |draws| <= Max(bombNumber, 0) + fieldSize * fieldSize
    {
      draws := ResetGameField();
    }

    /**
      Closes every cell and removes every bomb, then draws positions until bombNumber bombs
      are placed or fieldSize * fieldSize draws have failed. A draw fails on a bomb, on a cell
      whose neighbours all hold bombs, and on a cell whose bomb would leave some neighbouring
      bomb surrounded by bombs. Which positions are drawn is left open; they are the ghost
      result `draws`.
     */
    method ResetGameField() returns (ghost draws: seq<Pos>)
      requires Valid()
      modifies this, cells
      ensures Valid() && Consistent() && Settled() && state == Ready
      ensures Hidden() == Positions(fieldSize)
      ensures PlacementRun(fieldSize, bombNumber, draws) && Bombs() == Placement(fieldSize, bombNumber, draws).bombs
      ensures |Bombs()| <= Max(bombNumber, 0)
      ensures |Bombs()| == Max(bombNumber, 0) || Placement(fieldSize, bombNumber, draws).failuresLeft == 0
      ensures |draws| <= Max(bombNumber, 0) + fieldSize * fieldSize
    {
      ResetCells();
      draws := PlaceBombs();
      ghost var placed := Bombs();
      SetGameState(Ready);
      assert Bombs() == placed;
      assert Hidden() == Positions(fieldSize);
    }

    /**
      The placement loop on a field of closed cells without bombs: the bombs it leaves are
      those of the loop's rule run over the positions it drew.
     */
    method PlaceBombs() returns (ghost draws: seq<Pos>)
      requires Valid() && Bombs() == {}
      requires forall i, j | 0 <= i < fieldSize && 0 <= j < fieldSize :: field[i, j].state == Closed
      modifies cells
      ensures PlacementRun(fieldSize, bombNumber, draws) && Bombs() == Placement(fieldSize, bombNumber, draws).bombs
      ensures WellPlaced(fieldSize, Bombs())
      ensures forall i, j | 0 <= i < fieldSize && 0 <= j < fieldSize :: field[i, j].state == Closed
      ensures |Bombs()| <= Max(bombNumber, 0)
      ensures |Bombs()| == Max(bombNumber, 0) || Placement(fieldSize, bombNumber, draws).failuresLeft == 0
      ensures |draws| <= Max(bombNumber, 0) + fieldSize * fieldSize
    {
      var numberPutBombs := 0;
      var admissibleNumberFailedAttemptsToPutBomb: nat := fieldSize * fieldSize;
      draws := [];
      while numberPutBombs < bombNumber && admissibleNumberFailedAttemptsToPutBomb != 0
        invariant |Bombs()| == numberPutBombs
        invariant Placement(fieldSize, bombNumber, draws) == PlacementState(Bombs(), admissibleNumberFailedAttemptsToPutBomb)
        invariant forall k | 0 <= k < |draws| ::
          InField(fieldSize, draws[k]) && Placing(bombNumber, Placement(fieldSize, bombNumber, draws[..k]))
        invariant admissibleNumberFailedAttemptsToPutBomb != 0 ==> fieldSize > 0
        invariant WellPlaced(fieldSize, Bombs())
        invariant forall i, j | 0 <= i < fieldSize && 0 <= j < fieldSize :: field[i, j].state == Closed
        decreases admissibleNumberFailedAttemptsToPutBomb + (bombNumber - numberPutBombs)
      {
        var x :| 0 <= x < fieldSize;
        var y :| 0 <= y < fieldSize;
        PlacementExtend(fieldSize, bombNumber, draws, (x, y));
        draws := draws + [(x, y)];
        var bombPut := TryPutBomb(x, y);
        if bombPut {
          numberPutBombs := numberPutBombs + 1;
        } else {
          admissibleNumberFailedAttemptsToPutBomb := admissibleNumberFailedAttemptsToPutBomb - 1;
        }
      }
      PlacementRunSpec(fieldSize, bombNumber, draws);
    }

    /** One draw of the placement loop: puts a bomb at (x, y) if the placement test admits it. */
    method TryPutBomb(x: int, y: int) returns (bombPut: bool)
      requires Valid() && InField(fieldSize, (x, y)) && WellPlaced(fieldSize, Bombs())
      modifies field[x, y]
      ensures forall i, j | 0 <= i < fieldSize && 0 <= j < fieldSize :: field[i, j].state == old(field[i, j].state)
      ensures bombPut == BombAdmissible(fieldSize, old(Bombs()), (x, y))
      ensures Bombs() == if bombPut then old(Bombs()) + {(x, y)} else old(Bombs())
      ensures |Bombs()| == |old(Bombs())| + if bombPut then 1 else 0
      ensures WellPlaced(fieldSize, Bombs())
    {
      ghost var before := Bombs();
      bombPut := BombCanBePutHere(x, y);
      if bombPut {
        assert (x, y) !in before;
        SetBomb(x, y, true);
        PlacementKeepsWellPlaced(fieldSize, before, (x, y));
      }
    }

    /** Puts a bomb at (x, y) or takes it away; nothing else changes. */
    method SetBomb(x: int, y: int, isBomb: bool)
      requires Valid() && InField(fieldSize, (x, y))
      modifies field[x, y]
      ensures field[x, y].isBomb == isBomb && field[x, y].state == old(field[x, y].state)
      ensures Bombs() == if isBomb then old(Bombs()) + {(x, y)} else old(Bombs()) - {(x, y)}
    {
      var selectedCell := field[x, y];
      ghost var before := Bombs();
      selectedCell.isBomb := isBomb;
      forall q ensures q in Bombs() <==> q in (if isBomb then before + {(x, y)} else before - {(x, y)}) {
        if InField(fieldSize, q) && q != (x, y) {
          assert field[q.0, q.1] != selectedCell;
        }
      }
    }

    /** Closes every cell and removes every bomb. */
    method ResetCells()
      requires Valid()
      modifies cells
      ensures forall i, j | 0 <= i < fieldSize && 0 <= j < fieldSize ::
        field[i, j].state == Closed && !field[i, j].isBomb
      ensures Bombs() == {} && Hidden() == Positions(fieldSize)
    {
      for i := 0 to fieldSize
        invariant forall i', j' | 0 <= i' < i && 0 <= j' < fieldSize ::
          field[i', j'].state == Closed && !field[i', j'].isBomb
      {
        for j := 0 to fieldSize
          invariant forall i', j' | 0 <= i' < i && 0 <= j' < fieldSize ::
            field[i', j'].state == Closed && !field[i', j'].isBomb
          invariant forall j' | 0 <= j' < j :: field[i, j'].state == Closed && !field[i, j'].isBomb
        {
          var changed := field[i, j].Reset();
        }
      }
      assert Bombs() == {};
    }

    /**
      The placement test for the drawn position (x, y): no bomb there yet, some neighbour
      without a bomb, and, with a trial bomb at (x, y), no neighbouring bomb surrounded by
      bombs. The trial bomb is taken away again.
     */
    method BombCanBePutHere(x: int, y: int) returns (bombCanBePutHere: bool)
      requires Valid() && InField(fieldSize, (x, y))
      modifies field[x, y]
      ensures field[x, y].isBomb == old(field[x, y].isBomb) && field[x, y].state == old(field[x, y].state)
      ensures Bombs() == old(Bombs())
      ensures bombCanBePutHere == BombAdmissible(fieldSize, Bombs(), (x, y))
    {
      var selectedCell := field[x, y];
      bombCanBePutHere := false;
      if !selectedCell.isBomb {
        var allBombs := AllAdjacentCellsAreBombs(x, y);
        bombCanBePutHere := !allBombs;
        if bombCanBePutHere {
          // A trial bomb, to test the neighbours as they would be with it.
          SetBomb(x, y, true);
          var neighbourSurrounded := SomeAdjacentBombIsSurrounded(x, y);
          bombCanBePutHere := !neighbourSurrounded;
          SetBomb(x, y, false);
        }
      }
    }

    /** Whether some neighbour of (x, y) holds a bomb and has only bombs as neighbours. */
    method SomeAdjacentBombIsSurrounded(x: int, y: int) returns (found: bool)
      requires Valid() && InField(fieldSize, (x, y))
      ensures found <==> exists q :: Adjacent(fieldSize, (x, y), q) && q in Bombs() && Surrounded(fieldSize, Bombs(), q)
    {
      var adjacent := AdjacentCells(fieldSize, (x, y));
      AdjacentCellsSpec(fieldSize, (x, y));
      found := false;
      for k := 0 to |adjacent|
        invariant forall m | 0 <= m < k :: !(adjacent[m] in Bombs() && Surrounded(fieldSize, Bombs(), adjacent[m]))
      {
        var q := adjacent[k];
        assert q in adjacent;
        if field[q.0, q.1].isBomb {
          var surrounded := AllAdjacentCellsAreBombs(q.0, q.1);
          if surrounded {
            found := true;
            return;
          }
        }
      }
    }

    /** Whether the game is ready to run or running; a Ready game starts running. */
    method StartGameIfNeeded() returns (running: bool)
      requires Valid() && Consistent()
      modifies this
      ensures Valid() && Consistent()
      ensures state == (if old(state) == Ready then Running else old(state))
      ensures running == (state == Running)
    {
      if state == Ready {
        SetGameState(Running);
      }
      running := state == Running;
    }

    /**
      Opens every hidden cell, giving cells with a bomb the state `other` (Detonated when
      the game is lost, Defused when it is won).
     */
    method UncoverEveryCell(other: CellState)
      requires Valid() && (other == Defused || other == Detonated)
      modifies cells
      ensures forall i, j | 0 <= i < fieldSize && 0 <= j < fieldSize ::
        && field[i, j].isBomb == old(field[i, j].isBomb)
        && field[i, j].state == Uncovered(old(field[i, j].state), field[i, j].isBomb, other)
      ensures Bombs() == old(Bombs())
    {
      for i := 0 to fieldSize
        invariant forall i', j' | 0 <= i' < fieldSize && 0 <= j' < fieldSize ::
          && field[i', j'].isBomb == old(field[i', j'].isBomb)
          && field[i', j'].state == if i' < i then Uncovered(old(field[i', j'].state), field[i', j'].isBomb, other)
                                   else old(field[i', j'].state)
      {
        for j := 0 to fieldSize
          invariant forall i', j' | 0 <= i' < fieldSize && 0 <= j' < fieldSize ::
            && field[i', j'].isBomb == old(field[i', j'].isBomb)
            && field[i', j'].state == if i' < i || (i' == i && j' < j) then Uncovered(old(field[i', j'].state), field[i', j'].isBomb, other)
                                     else old(field[i', j'].state)
        {
          var changed;
          if other == Detonated {
            changed := field[i, j].OpenOrDetonate();
          } else {
            changed := field[i, j].OpenOrDefuse();
          }
        }
      }
      assert Bombs() == old(Bombs());
    }

    /** Opens every cell and detonates every bomb; the game is lost. */
    method SetLoss()
      requires Valid() && WellPlaced(fieldSize, Bombs())
      requires forall i, j | 0 <= i < fieldSize && 0 <= j < fieldSize ::
        field[i, j].state.IsHidden() || CellFits(Loss, field[i, j].state, field[i, j].isBomb)
      modifies this, cells
      ensures Consistent() && state == Loss
      ensures Bombs() == old(Bombs())
      ensures forall i, j | 0 <= i < fieldSize && 0 <= j < fieldSize ::
        field[i, j].state == Uncovered(old(field[i, j].state), field[i, j].isBomb, Detonated)
    {
      UncoverEveryCell(Detonated);
      SetGameState(Loss);
    }

    /** Whether the win condition holds: no cell is closed and no bomb mark is wrong. */
    method IsWon() returns (win: bool)
      requires Valid()
      ensures win == WinCondition()
    {
      win := true;
      for i := 0 to fieldSize
        invariant forall i', j' | 0 <= i' < i && 0 <= j' < fieldSize ::
          field[i', j'].state != Closed && (field[i', j'].state == MarkedAsBomb ==> field[i', j'].isBomb)
      {
        for j := 0 to fieldSize
          invariant forall j' | 0 <= j' < j ::
            field[i, j'].state != Closed && (field[i, j'].state == MarkedAsBomb ==> field[i, j'].isBomb)
        {
          var cell := field[i, j];
          if cell.state == Closed || (cell.state == MarkedAsBomb && !cell.isBomb) {
            return false;
          }
        }
      }
    }

    /**
      In a running game, once the win condition holds, opens every cell and defuses every
      bomb; the game is won.
     */
    method SetWinIfNeeded()
      requires Valid() && Consistent()
      modifies this, cells
      ensures Consistent() && Settled()
      ensures Bombs() == old(Bombs())
      ensures old(state) == Running && old(WinCondition()) ==>
        && state == Win
        && forall i, j | 0 <= i < fieldSize && 0 <= j < fieldSize ::
             field[i, j].state == Uncovered(old(field[i, j].state), field[i, j].isBomb, Defused)
      ensures !(old(state) == Running && old(WinCondition())) ==>
        && state == old(state)
        && forall i, j | 0 <= i < fieldSize && 0 <= j < fieldSize :: field[i, j].state == old(field[i, j].state)
    {
      if state != Running {
        return;
      }
      var win := IsWon();
      if win {
        UncoverEveryCell(Defused);
        SetGameState(Win);
      }
    }

    /**
      Opens the cell at (x, y) of a running game. A hidden bomb detonates and the game is
      lost. A hidden cell without a bomb opens, and when none of its neighbours holds a
      bomb, each neighbour is opened in the same way. A cell already uncovered stays as it is.
      The recursion through SpreadFrom, OpenAdjacentCells and OpenNeighbour ends because
      each round opens a cell: the measure is the set of hidden cells, then the rank 3..0.
     */
    method OpenAt(x: int, y: int)
      requires Valid() && Consistent() && state == Running && InField(fieldSize, (x, y))
      modifies this, cells
      decreases Hidden(), 3
      ensures Consistent() && Bombs() == old(Bombs())
      ensures state == if old(field[x, y].state).IsHidden() && field[x, y].isBomb then Loss else Running
      ensures state == Loss ==> forall i, j | 0 <= i < fieldSize && 0 <= j < fieldSize ::
        field[i, j].state == Uncovered(old(field[i, j].state), field[i, j].isBomb, Detonated)
      ensures state == Running ==>
        && Hidden() <= old(Hidden())
        && forall i, j | 0 <= i < fieldSize && 0 <= j < fieldSize ::
             OpenedOrKept(old(field[i, j].state), field[i, j].state)
      ensures state == Running && old(field[x, y].state).IsHidden() ==>
        Cascade(fieldSize, Bombs(), (x, y), old(Hidden()) - Hidden(), Hidden())
      ensures !old(field[x, y].state).IsHidden() ==> Hidden() == old(Hidden())
      ensures (x, y) !in Hidden()
    {
      var cell := field[x, y];
      var stateChanged := cell.OpenOrDetonate();
      assert Bombs() == old(Bombs());
      if !stateChanged {
        assert Hidden() == old(Hidden());
      } else if cell.state == Detonated {
        SetLoss();
      } else {
        assert Hidden() == old(Hidden()) - {(x, y)};
        SpreadFrom(x, y, old(Hidden()));
      }
    }

    /**
      The cell at (x, y) has just been opened, out of the hidden cells h0, and holds no
      bomb: when no neighbour holds a bomb either, the neighbours are opened too.
     */
    method SpreadFrom(x: int, y: int, ghost h0: set<Pos>)
      requires Valid() && Consistent() && state == Running && InField(fieldSize, (x, y))
      requires (x, y) in h0 && Hidden() == h0 - {(x, y)}
      modifies this, cells
      decreases h0, 2
      ensures Consistent() && state == Running && Bombs() == old(Bombs())
      ensures Hidden() <= old(Hidden())
      ensures forall i, j | 0 <= i < fieldSize && 0 <= j < fieldSize ::
        OpenedOrKept(old(field[i, j].state), field[i, j].state)
      ensures Cascade(fieldSize, Bombs(), (x, y), h0 - Hidden(), Hidden())
    {
      var number := NumberAdjacentBombs(x, y);
      if number == 0 {
        OpenAdjacentCells(x, y, h0);
      } else {
        CascadeStart(fieldSize, Bombs(), (x, y), h0);
      }
    }

    /**
      Opens every neighbour of (x, y), a cell with no bomb around it that has just been
      opened out of the hidden cells h0.
     */
    method OpenAdjacentCells(x: int, y: int, ghost h0: set<Pos>)
      requires Valid() && Consistent() && state == Running && InField(fieldSize, (x, y))
      requires (x, y) in h0 && Hidden() == h0 - {(x, y)} && AdjacentBombs(fieldSize, Bombs(), (x, y)) == 0
      modifies this, cells
      decreases h0, 1
      ensures Consistent() && state == Running && Bombs() == old(Bombs())
      ensures Hidden() <= old(Hidden())
      ensures forall i, j | 0 <= i < fieldSize && 0 <= j < fieldSize ::
        OpenedOrKept(old(field[i, j].state), field[i, j].state)
      ensures Cascade(fieldSize, Bombs(), (x, y), h0 - Hidden(), Hidden())
    {
      var adjacent := AdjacentCells(fieldSize, (x, y));
      AdjacentCellsSpec(fieldSize, (x, y));
      CascadeStart(fieldSize, Bombs(), (x, y), h0);
      for k := 0 to |adjacent|
        invariant Consistent() && state == Running && Bombs() == old(Bombs())
        invariant Hidden() <= old(Hidden())
        invariant ReachedFrom(fieldSize, Bombs(), (x, y), h0 - Hidden())
        invariant ZeroClosed(fieldSize, Bombs(), h0 - Hidden() - {(x, y)}, Hidden())
        invariant forall m | 0 <= m < k :: adjacent[m] !in Hidden()
        invariant forall i, j | 0 <= i < fieldSize && 0 <= j < fieldSize ::
          OpenedOrKept(old(field[i, j].state), field[i, j].state)
      {
        var q := adjacent[k];
        assert q in adjacent;
        OpenNeighbour(x, y, q, h0, adjacent, k);
      }
      CascadeFinish(fieldSize, Bombs(), (x, y), h0, Hidden());
    }

    /**
      Opens q, a neighbour of the cell (x, y) that has no bomb around it and the k-th entry of
      its visiting order `adjacent`; the neighbours visited before q stay uncovered, and the
      cells opened since (x, y) was opened out of h0 stay a region reached from (x, y).
     */
    method OpenNeighbour(x: int, y: int, q: Pos, ghost h0: set<Pos>, ghost adjacent: seq<Pos>, ghost k: nat)
      requires Valid() && Consistent() && state == Running && Adjacent(fieldSize, (x, y), q)
      requires k < |adjacent| && adjacent[k] == q && forall m | 0 <= m < k :: adjacent[m] !in Hidden()
      requires (x, y) in h0 && Hidden() <= h0 - {(x, y)} && AdjacentBombs(fieldSize, Bombs(), (x, y)) == 0
      requires ReachedFrom(fieldSize, Bombs(), (x, y), h0 - Hidden())
      requires ZeroClosed(fieldSize, Bombs(), h0 - Hidden() - {(x, y)}, Hidden())
      modifies this, cells
      decreases h0, 0
      ensures Consistent() && state == Running && Bombs() == old(Bombs())
      ensures Hidden() <= old(Hidden()) && q !in Hidden()
      ensures forall m | 0 <= m <= k :: adjacent[m] !in Hidden()
      ensures forall i, j | 0 <= i < fieldSize && 0 <= j < fieldSize ::
        OpenedOrKept(old(field[i, j].state), field[i, j].state)
      ensures ReachedFrom(fieldSize, Bombs(), (x, y), h0 - Hidden())
      ensures ZeroClosed(fieldSize, Bombs(), h0 - Hidden() - {(x, y)}, Hidden())
    {
      AdjacentBombsSpec(fieldSize, Bombs(), (x, y));
      OpenAt(q.0, q.1);
      CascadeStep(fieldSize, Bombs(), (x, y), q, h0, old(Hidden()), Hidden());
    }

    /**
      The player opens the cell at (x, y). Only a Ready or Running game takes the move, and
      a Ready game starts running; then the cell is opened (with its cascade) and the win
      condition is checked.
     */
    method OpenCell(x: int, y: int)
      requires Valid() && Consistent() && Settled() && InField(fieldSize, (x, y))
      modifies this, cells
      ensures Consistent() && Settled() && Bombs() == old(Bombs())
      ensures Advances(old(state), state)
      ensures old(state) !in {Ready, Running} ==>
        && state == old(state)
        && forall i, j | 0 <= i < fieldSize && 0 <= j < fieldSize :: field[i, j].state == old(field[i, j].state)
      ensures old(state) in {Ready, Running} && old(field[x, y].state).IsHidden() && field[x, y].isBomb ==>
        && state == Loss
        && forall i, j | 0 <= i < fieldSize && 0 <= j < fieldSize ::
             field[i, j].state == Uncovered(old(field[i, j].state), field[i, j].isBomb, Detonated)
      ensures old(state) in {Ready, Running} && old(field[x, y].state).IsHidden() && !field[x, y].isBomb ==>
        field[x, y].state == Opened && (state == Running || state == Win)
      ensures old(state) in {Ready, Running} && old(field[x, y].state).IsHidden() && state == Running ==>
        && Cascade(fieldSize, Bombs(), (x, y), old(Hidden()) - Hidden(), Hidden())
        && forall i, j | 0 <= i < fieldSize && 0 <= j < fieldSize ::
             OpenedOrKept(old(field[i, j].state), field[i, j].state)
      ensures old(state) in {Ready, Running} && old(field[x, y].state).IsHidden() && state == Win ==>
        Cascade(fieldSize, Bombs(), (x, y), old(Hidden()) - old(MarkedBombs()), old(MarkedBombs()))
      ensures old(state) in {Ready, Running} && !old(field[x, y].state).IsHidden() ==>
        && state == Running
        && forall i, j | 0 <= i < fieldSize && 0 <= j < fieldSize :: field[i, j].state == old(field[i, j].state)
    {
      var running := StartGameIfNeeded();
      if !running {
        return;
      }
      // A game that has just started has all its cells closed, so it is not won yet.
      assert old(state) == Ready ==> field[x, y].state == Closed;
      assert Hidden() == old(Hidden()) && MarkedBombs() == old(MarkedBombs());
      OpenAndCheckWin(x, y);
    }

    /** The move of OpenCell in a running game: opens the cell, with its cascade, then checks the win condition. */
    method OpenAndCheckWin(x: int, y: int)
      requires Valid() && Consistent() && Settled() && state == Running && InField(fieldSize, (x, y))
      modifies this, cells
      ensures Consistent() && Settled() && Bombs() == old(Bombs())
      ensures old(field[x, y].state).IsHidden() && field[x, y].isBomb ==>
        && state == Loss
        && forall i, j | 0 <= i < fieldSize && 0 <= j < fieldSize ::
             field[i, j].state == Uncovered(old(field[i, j].state), field[i, j].isBomb, Detonated)
      ensures old(field[x, y].state).IsHidden() && !field[x, y].isBomb ==>
        field[x, y].state == Opened && (state == Running || state == Win)
      ensures old(field[x, y].state).IsHidden() && state == Running ==>
        && Cascade(fieldSize, Bombs(), (x, y), old(Hidden()) - Hidden(), Hidden())
        && forall i, j | 0 <= i < fieldSize && 0 <= j < fieldSize ::
             OpenedOrKept(old(field[i, j].state), field[i, j].state)
      ensures old(field[x, y].state).IsHidden() && state == Win ==>
        Cascade(fieldSize, Bombs(), (x, y), old(Hidden()) - old(MarkedBombs()), old(MarkedBombs()))
      ensures !old(field[x, y].state).IsHidden() ==>
        && state == Running
        && forall i, j | 0 <= i < fieldSize && 0 <= j < fieldSize :: field[i, j].state == old(field[i, j].state)
    {
      ghost var uncovered := !field[x, y].state.IsHidden();
      OpenAt(x, y);
      ghost var afterOpening := Hidden();
      if uncovered {
        // Nothing changed, so the win condition still fails, as it did before the move.
        forall i, j | 0 <= i < fieldSize && 0 <= j < fieldSize ensures field[i, j].state == old(field[i, j].state) {
          assert (i, j) in Hidden() <==> (i, j) in old(Hidden());
        }
        ghost var i, j :| && 0 <= i < fieldSize && 0 <= j < fieldSize
                          && (old(field[i, j].state) == Closed
                              || (old(field[i, j].state) == MarkedAsBomb && !old(field[i, j].isBomb)));
        assert (i, j) in Bombs() <==> (i, j) in old(Bombs());
      }
      if !uncovered && state == Running && WinCondition() {
        // The win check fires: the cascade left hidden exactly the rightly marked bombs.
        forall q | q in Hidden() ensures q in old(MarkedBombs()) {
          assert q in Bombs() <==> q in old(Bombs());
        }
        forall q | q in old(MarkedBombs()) ensures q in Hidden() {
          assert q in Bombs() <==> q in old(Bombs());
        }
        assert afterOpening == old(MarkedBombs());
      }
      SetWinIfNeeded();
      if state == Running {
        // The win check changed nothing, so the cascade of OpenAt is what the move left.
        assert Hidden() == afterOpening;
      }
    }

    /**
      The player puts or takes away a bomb mark at (x, y). Only a Ready or Running game takes
      the move, and a Ready game starts running; when the mark changed, the win condition is
      checked.
     */
    method ToggleCellBombMark(x: int, y: int)
      requires Valid() && Consistent() && Settled() && InField(fieldSize, (x, y))
      modifies this, cells
      ensures Consistent() && Settled() && Bombs() == old(Bombs())
      ensures Advances(old(state), state)
      ensures old(state) !in {Ready, Running} ==>
        && state == old(state)
        && forall i, j | 0 <= i < fieldSize && 0 <= j < fieldSize :: field[i, j].state == old(field[i, j].state)
      ensures old(state) in {Ready, Running} ==> state == Running || state == Win
      ensures old(state) in {Ready, Running} ==> (state == Win <==> old(WinConditionToggled(x, y)))
      ensures state == Running ==>
        && field[x, y].state == Toggled(old(field[x, y].state))
        && forall i, j | 0 <= i < fieldSize && 0 <= j < fieldSize && (i, j) != (x, y) ::
             field[i, j].state == old(field[i, j].state)
      ensures old(state) != Win && state == Win ==>
        forall i, j | 0 <= i < fieldSize && 0 <= j < fieldSize ::
          field[i, j].state ==
            Uncovered(if (i, j) == (x, y) then Toggled(old(field[i, j].state)) else old(field[i, j].state),
                      field[i, j].isBomb, Defused)
    {
      var running := StartGameIfNeeded();
      if !running {
        return;
      }
      var cell := field[x, y];
      var stateChanged := cell.ToggleBombMark();
      assert Bombs() == old(Bombs());
      // The win check sees the field with the mark toggled; a mark that did not change leaves a game not won.
      assert WinCondition() == old(WinConditionToggled(x, y));
      assert !stateChanged ==> old(state) == Running && !WinCondition();
      if stateChanged {
        SetWinIfNeeded();
      }
    }
  }

  /** A one-cell game, whatever number of bombs it asks for: none fits, so opening the only cell wins. */
  method SingleCellGame(bombNumber: int) returns (game: Minesweeper)
    ensures game.Valid() && game.Consistent() && game.state == Win && game.Bombs() == {}
  {
    game := new Minesweeper(1, bombNumber);
    ghost var draws := game.StartGame();
    SingleCellFieldHasNoBombs(game.Bombs());
    assert (0, 0) !in game.Bombs() && (0, 0) in game.Hidden();
    game.OpenCell(0, 0);
    assert game.WinCondition();
  }
}
