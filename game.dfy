/**
 * The Minesweeper engine: a square board of cells, mines placed without
 * repetition, neighbour counts, reveals with flood fill, flags, and the
 * won/lost status of one game.
 */
module Game {
  import opened Grid

  /** One square of the board, as the engine keeps it. */
  datatype Cell = Cell(isMine: bool, number: nat, revealed: bool, flagged: bool)

  /** The value every square starts with. */
  const Blank := Cell(false, 0, false, false)

  /**
   * The square at `p` as the engine's sets describe it: a mine when listed,
   * otherwise showing its count of neighbouring mines; revealed when the
   * player opened it or, after a loss, when it is a mine; flagged when in
   * the flag set.
   */
  ghost function Render(size: nat, mines: seq<Pos>, revealed: set<Pos>, flags: set<Pos>, lost: bool, p: Pos): Cell {
    var isMine := p in mines;
    Cell(isMine,
         if isMine then 0 else MineCount(size, Elems(mines), p),
         p in revealed || (lost && isMine),
         p in flags)
  }

  /** Changing the flag set at `q` changes the rendering of `q` alone, and only its flag. */
  lemma RenderFlag(size: nat, mines: seq<Pos>, revealed: set<Pos>, flags: set<Pos>, flags': set<Pos>, lost: bool, q: Pos, p: Pos)
    requires forall o :: o != q ==> (o in flags <==> o in flags')
    ensures Render(size, mines, revealed, flags', lost, p) ==
      if p == q then Render(size, mines, revealed, flags, lost, p).(flagged := q in flags')
      else Render(size, mines, revealed, flags, lost, p)
  {
  }

  /** Revealing `q` changes the rendering of `q` alone, and only its revealed bit. */
  lemma RenderReveal(size: nat, mines: seq<Pos>, revealed: set<Pos>, revealed': set<Pos>, flags: set<Pos>, q: Pos, p: Pos)
    requires forall o :: o != q ==> (o in revealed <==> o in revealed')
    requires q in revealed'
    ensures Render(size, mines, revealed', flags, false, p) ==
      if p == q then Render(size, mines, revealed, flags, false, p).(revealed := true)
      else Render(size, mines, revealed, flags, false, p)
  {
  }

  /** What a reveal reports: refused, a mine hit, the winning move, or a safe cell. */
  datatype RevealResult = Rejected | Mine | Win | Safe

  /** What a flag toggle reports: refused, a flag put down, or a flag lifted. */
  datatype FlagResult = NotToggled | Added | Removed

  class MinesweeperGame {
    const size: nat
    const minesCount: nat
    const playerName: string
    var board: array2<Cell>
    var minePositions: seq<Pos>
    var revealedCells: set<Pos>
    var flaggedCells: set<Pos>
    var gameOver: bool
    var gameWon: bool
    var moveCount: nat

    // -------------------------------------------------------------------
    // The invariant, piece by piece

    ghost predicate Shaped()
      reads this`board
    {
      board.Length0 == size && board.Length1 == size
    }

    ghost function MineSet(): set<Pos>
      reads this`minePositions
    {
      Elems(minePositions)
    }

    /** `minePositions` lists `minesCount` distinct squares of the board. */
    ghost predicate MinesListed()
      reads this`minePositions
    {
      |minePositions| == minesCount && |MineSet()| == minesCount &&
      forall k :: 0 <= k < |minePositions| ==> OnBoard(size, minePositions[k])
    }

    /** A square is a mine exactly when `minePositions` lists it. */
    ghost predicate MinesAgree()
      reads this`board, this`minePositions, board
      requires Shaped()
    {
      forall i, j {:trigger board[i, j]} :: 0 <= i < size && 0 <= j < size ==>
        (board[i, j].isMine <==> Pos(i, j) in minePositions)
    }

    /**
     * Every square shows what the engine's sets say about it: a mine exactly
     * when listed in `minePositions`, its neighbour count when safe, revealed
     * when in `revealedCells` (or, once `lost`, when a mine), flagged exactly
     * when in `flaggedCells`.
     */
    ghost predicate Matches(lost: bool)
      reads this`board, this`minePositions, this`revealedCells, this`flaggedCells, board
      requires Shaped()
    {
      forall i, j {:trigger board[i, j]} :: 0 <= i < size && 0 <= j < size ==>
        board[i, j] == Render(size, minePositions, revealedCells, flaggedCells, lost, Pos(i, j))
    }

    /** Flags and revealed squares lie on the board. */
    ghost predicate SetsOnBoard()
      reads this`flaggedCells, this`revealedCells
    {
      (forall p :: p in flaggedCells ==> OnBoard(size, p)) &&
      (forall p :: p in revealedCells ==> OnBoard(size, p))
    }

    /** No revealed square is a mine or carries a flag. */
    ghost predicate RevealedSafe()
      reads this`revealedCells, this`minePositions, this`flaggedCells
    {
      forall p :: p in revealedCells ==> p !in minePositions && p !in flaggedCells
    }

    /**
     * The state a flood fill works in: no mine hit, every revealed square safe
     * and unflagged, and the board in step with the sets.
     */
    ghost predicate Live()
      reads this`board, this`minePositions, this`revealedCells, this`flaggedCells, board
    {
      Shaped() && MinesListed() && SetsOnBoard() && RevealedSafe() && Matches(false)
    }

    ghost predicate Lost()
      reads this`gameOver, this`gameWon
    {
      gameOver && !gameWon
    }

    /** The facts about the sets and the status that every public operation keeps. */
    ghost predicate SetsOk()
      reads this`minePositions, this`revealedCells, this`flaggedCells, this`gameOver, this`gameWon
    {
      0 < minesCount < size * size && MinesListed() && SetsOnBoard() &&
      (gameWon ==> gameOver) &&
      (!Lost() ==> RevealedSafe()) &&
      (!gameOver ==> |revealedCells| < size * size - minesCount) &&
      (gameWon ==> |revealedCells| == size * size - minesCount)
    }

    ghost predicate Valid()
      reads this`board, this`minePositions, this`revealedCells, this`flaggedCells, this`gameOver, this`gameWon, board
    {
      Shaped() && SetsOk() && Matches(Lost())
    }

    /** A won game has every safe square of the board revealed and no other. */
    lemma WonRevealsAllSafe()
      requires Valid() && gameWon
      ensures revealedCells == SafeCells(size, MineSet())
    {
      WinIffAllSafeRevealed(size, MineSet(), revealedCells);
    }

    /**
     * What a flood fill from `start` has done since the revealed set was
     * `before`: every zero it opened has no closed safe neighbour left, and
     * every other square it opened touches `start` or a zero it opened.
     */
    ghost predicate FilledFrom(start: Pos, before: set<Pos>)
      reads this`minePositions, this`flaggedCells, this`revealedCells
    {
      ZerosSettled(size, MineSet(), flaggedCells, before, revealedCells) &&
      Supported(size, MineSet(), start, before, revealedCells)
    }

    /** Nothing is left to open around `c`. */
    ghost predicate SettledAt(c: Pos)
      reads this`minePositions, this`flaggedCells, this`revealedCells
    {
      Settled(size, MineSet(), flaggedCells, revealedCells, c)
    }

    // -------------------------------------------------------------------
    // Construction

    constructor (size: nat, minesCount: nat, playerName: string)
      requires playerName != "" && 0 < minesCount < size * size
      ensures Valid() && fresh(board)
      ensures this.size == size && this.minesCount == minesCount && this.playerName == playerName
      ensures |minePositions| == minesCount && Distinct(minePositions)
      ensures forall i, j {:trigger board[i, j]} :: 0 <= i < size && 0 <= j < size ==>
        board[i, j] == Cell(Pos(i, j) in minePositions,
                            if Pos(i, j) in minePositions then 0 else MineCount(size, MineSet(), Pos(i, j)),
                            false, false)
      ensures revealedCells == {} && flaggedCells == {}
      ensures !gameOver && !gameWon && moveCount == 0
    {
      this.size := size;
      this.minesCount := minesCount;
      this.playerName := playerName;
      board := new Cell[0, 0];
      minePositions := [];
      revealedCells := {};
      flaggedCells := {};
      gameOver := false;
      gameWon := false;
      new;
      InitializeBoard();
      PlaceMines();
      CalculateNumbers();
      moveCount := 0;
      NewGameValid();
    }

    /**
     * A board whose squares are all closed and unflagged, with the listed
     * mines and every safe square numbered, starts a valid game.
     */
    lemma NewGameValid()
      requires Shaped() && MinesListed() && 0 < minesCount < size * size
      requires revealedCells == {} && flaggedCells == {} && !gameOver && !gameWon
      requires forall i, j {:trigger board[i, j]} :: 0 <= i < size && 0 <= j < size ==>
        board[i, j] == Cell(Pos(i, j) in minePositions,
                            if Pos(i, j) in minePositions then 0 else MineCount(size, MineSet(), Pos(i, j)),
                            false, false)
      ensures Valid()
    {
    }

    /** Replaces the board by a fresh `size` × `size` board of blank squares. */
    method InitializeBoard()
      modifies this`board
      ensures fresh(board) && Shaped()
      ensures forall i, j {:trigger board[i, j]} :: 0 <= i < size && 0 <= j < size ==> board[i, j] == Blank
    {
      var b := new Cell[size, size];
      for i := 0 to size
        invariant forall i', j :: 0 <= i' < i && 0 <= j < size ==> b[i', j] == Blank
      {
        for j := 0 to size
          invariant forall i', j' :: 0 <= i' < i && 0 <= j' < size ==> b[i', j'] == Blank
          invariant forall j' :: 0 <= j' < j ==> b[i, j'] == Blank
        {
          b[i, j] := Blank;
        }
      }
      board := b;
    }

    /** The squares whose mine bit is set. */
    ghost function MinedSquares(): (mined: set<Pos>)
      reads this`board, board
      requires Shaped()
      ensures forall p :: p in mined <==> OnBoard(size, p) && board[p.x, p.y].isMine
    {
      set i, j | 0 <= i < size && 0 <= j < size && board[i, j].isMine :: Pos(i, j)
    }

    /**
     * Puts `minesCount` mines on squares that are not mines yet and lists
     * them in `minePositions` in the order they were placed.
     */
    method PlaceMines()
      requires Shaped() && |MinedSquares()| + minesCount <= size * size
      modifies this`minePositions, board
      ensures MinesListed() && Distinct(minePositions) && MineSet() !! old(MinedSquares())
      ensures forall i, j {:trigger board[i, j]} :: 0 <= i < size && 0 <= j < size ==>
        board[i, j] == old(board[i, j]).(isMine := old(board[i, j]).isMine || Pos(i, j) in minePositions)
    {
      ghost var before := MinedSquares();
      minePositions := [];
      var minesPlaced := 0;
      while minesPlaced < minesCount
        invariant minesPlaced <= minesCount && |minePositions| == minesPlaced
        invariant |MineSet()| == minesPlaced && MineSet() !! before
        invariant forall p :: p in MineSet() ==> OnBoard(size, p)
        invariant forall i, j {:trigger board[i, j]} :: 0 <= i < size && 0 <= j < size ==>
          board[i, j] == old(board[i, j]).(isMine := old(board[i, j]).isMine || Pos(i, j) in MineSet())
        decreases minesCount - minesPlaced
      {
        FreeSquareExists(before, MineSet());
        var x, y :| 0 <= x < size && 0 <= y < size && !board[x, y].isMine;
        assert Pos(x, y) !in before && Pos(x, y) !in MineSet();
        board[x, y] := board[x, y].(isMine := true);
        ElemsSnoc(minePositions, Pos(x, y));
        minePositions := minePositions + [Pos(x, y)];
        minesPlaced := minesPlaced + 1;
      }
      DistinctIffCard(minePositions);
    }

    /**
     * While every mine lies in `mined` or `placed` and the two together
     * number fewer than the board's squares, some square is still free of
     * mines, so the random draw can succeed.
     */
    lemma FreeSquareExists(mined: set<Pos>, placed: set<Pos>)
      requires Shaped()
      requires forall p :: p in mined ==> OnBoard(size, p)
      requires forall p :: p in placed ==> OnBoard(size, p)
      requires |mined| + |placed| < size * size
      requires forall i, j {:trigger board[i, j]} :: 0 <= i < size && 0 <= j < size && board[i, j].isMine ==>
        Pos(i, j) in mined || Pos(i, j) in placed
      ensures exists x, y {:trigger board[x, y]} :: 0 <= x < size && 0 <= y < size && !board[x, y].isMine
    {
      var taken := mined + placed;
      assert |taken| <= |mined| + |placed|;
      FreeCellExists(size, taken);
      var i, j :| 0 <= i < size && 0 <= j < size && Pos(i, j) !in taken;
      assert !board[i, j].isMine;
    }

    /** A mine-free square with its number set; other squares are left as they are. */
    ghost function Numbered(c: Cell, p: Pos): Cell
      reads this`minePositions
    {
      if c.isMine then c else c.(number := MineCount(size, MineSet(), p))
    }

    /** Gives every safe square its count of neighbouring mines. */
    method CalculateNumbers()
      requires Shaped() && MinesAgree()
      modifies board
      ensures forall i, j {:trigger board[i, j]} :: 0 <= i < size && 0 <= j < size ==>
        board[i, j] == Numbered(old(board[i, j]), Pos(i, j))
    {
      for x := 0 to size
        invariant forall i, j {:trigger board[i, j]} :: 0 <= i < size && 0 <= j < size ==>
          board[i, j] == if i < x then Numbered(old(board[i, j]), Pos(i, j)) else old(board[i, j])
      {
        for y := 0 to size
          invariant forall i, j {:trigger board[i, j]} :: 0 <= i < size && 0 <= j < size ==>
            board[i, j] == if i < x || (i == x && j < y) then Numbered(old(board[i, j]), Pos(i, j)) else old(board[i, j])
        {
          if !board[x, y].isMine {
            var n := CountAdjacentMines(x, y);
            board[x, y] := board[x, y].(number := n);
          }
        }
      }
    }

    /** The number of mines among the in-board neighbours of (x, y). */
    method CountAdjacentMines(x: int, y: int) returns (count: nat)
      requires Shaped() && MinesAgree()
      ensures count == MineCount(size, MineSet(), Pos(x, y))
      ensures count <= 8
    {
      ghost var c := Pos(x, y);
      count := 0;
      for dx := -1 to 2
        invariant count == |Scanned(size, MineSet(), c, dx, -1)|
      {
        for dy := -1 to 2
          invariant count == |Scanned(size, MineSet(), c, dx, dy)|
        {
          ScanStep(size, MineSet(), c, dx, dy);
          if dx == 0 && dy == 0 {
            continue;
          }
          var newX := x + dx;
          var newY := y + dy;
          if IsValidPosition(newX, newY) {
            assert board[newX, newY].isMine <==> Pos(newX, newY) in MineSet();
          }
          if IsValidPosition(newX, newY) && board[newX, newY].isMine {
            count := count + 1;
          }
        }
        ScanRowEnd(size, MineSet(), c, dx);
      }
      ScanEnd(size, MineSet(), c);
      MineCountBound(size, MineSet(), c);
    }

    function IsValidPosition(x: int, y: int): (valid: bool)
      ensures valid <==> Pos(x, y) in Cells(size)
    {
      x >= 0 && x < size && y >= 0 && y < size
    }

    // -------------------------------------------------------------------
    // Revealing

    /**
     * Opens (x, y). A mine ends the game and shows every mine; a zero square
     * opens its surroundings; opening the last safe square wins.
     */
    method RevealCell(x: int, y: int) returns (r: RevealResult)
      requires Valid()
      modifies this`moveCount, this`revealedCells, this`gameOver, this`gameWon, board
      ensures Valid()
      ensures r == Rejected <==>
        old(gameOver) || old(gameWon) || !IsValidPosition(x, y) ||
        old(board[x, y].revealed) || old(board[x, y].flagged)
      ensures r == Rejected ==> unchanged(this) && unchanged(board)
      ensures r != Rejected ==>
        moveCount == old(moveCount) + 1 && Pos(x, y) in revealedCells && board[x, y].revealed &&
        old(revealedCells) <= revealedCells
      ensures r == Mine <==> r != Rejected && Pos(x, y) in minePositions
      ensures r == Mine ==>
        gameOver && !gameWon && revealedCells == old(revealedCells) + {Pos(x, y)} &&
        forall k :: 0 <= k < |minePositions| ==> board[minePositions[k].x, minePositions[k].y].revealed
      ensures r == Win || r == Safe ==>
        RevealedSafe() &&
        (MineCount(size, MineSet(), Pos(x, y)) != 0 ==> revealedCells == old(revealedCells) + {Pos(x, y)}) &&
        ZerosSettled(size, MineSet(), flaggedCells, old(revealedCells), revealedCells) &&
        Supported(size, MineSet(), Pos(x, y), old(revealedCells), revealedCells)
      ensures r == Win <==> r != Rejected && r != Mine && |revealedCells| == size * size - minesCount
      ensures r == Win ==> gameOver && gameWon && revealedCells == SafeCells(size, MineSet())
      ensures r == Safe ==> !gameOver && !gameWon
    {
      if gameOver || gameWon {
        return Rejected;
      }
      if !IsValidPosition(x, y) {
        return Rejected;
      }
      if board[x, y].revealed || board[x, y].flagged {
        return Rejected;
      }
      assert board[x, y] == Render(size, minePositions, revealedCells, flaggedCells, false, Pos(x, y));

      moveCount := moveCount + 1;
      board[x, y] := board[x, y].(revealed := true);
      revealedCells := revealedCells + {Pos(x, y)};

      if board[x, y].isMine {
        gameOver := true;
        RevealAllMines();
        MineHit(Pos(x, y));
        return Mine;
      }
      CellOpened(Pos(x, y));
      r := FinishSafeReveal(x, y, old(revealedCells));
    }

    /**
     * The rest of a reveal once the square (x, y) has turned out safe and been
     * opened: the flood fill when it shows 0, then the win check. `before` is
     * the revealed set before (x, y) was opened.
     */
    method FinishSafeReveal(x: int, y: int, ghost before: set<Pos>) returns (r: RevealResult)
      requires Live() && 0 < minesCount < size * size && !gameOver && !gameWon
      requires OnBoard(size, Pos(x, y)) && Pos(x, y) !in before && revealedCells == before + {Pos(x, y)}
      requires |before| < size * size - minesCount
      requires board[x, y].number == MineCount(size, MineSet(), Pos(x, y))
      modifies this`revealedCells, this`gameOver, this`gameWon, board
      ensures Valid() && before <= revealedCells && board[x, y].revealed
      ensures r == Win || r == Safe
      ensures RevealedSafe()
      ensures MineCount(size, MineSet(), Pos(x, y)) != 0 ==> revealedCells == before + {Pos(x, y)}
      ensures FilledFrom(Pos(x, y), before)
      ensures r == Win <==> |revealedCells| == size * size - minesCount
      ensures r == Win ==> gameOver && gameWon && revealedCells == SafeCells(size, MineSet())
      ensures r == Safe ==> !gameOver && !gameWon
    {
      if board[x, y].number == 0 {
        RevealAdjacentCells(x, y);
        ZerosSettledJoin(size, MineSet(), flaggedCells, before, before, Pos(x, y), revealedCells);
        SupportedFromStart(size, MineSet(), Pos(x, y), before, revealedCells);
      } else {
        ZerosSettledAdd(size, MineSet(), flaggedCells, before, before, Pos(x, y));
      }
      assert FilledFrom(Pos(x, y), before);

      WinIffAllSafeRevealed(size, MineSet(), revealedCells);
      CheckWinCondition();
      if gameWon {
        gameOver := true;
        r := Win;
      } else {
        r := Safe;
      }
      LiveIsValid();
    }

    /**
     * The flood fill from (x, y): visits the eight neighbours of (x, y) in
     * order and opens each as `OpenNeighbour` says.
     */
    method RevealAdjacentCells(x: int, y: int)
      requires Live()
      modifies this`revealedCells, board
      ensures Live()
      ensures old(revealedCells) <= revealedCells
      ensures SettledAt(Pos(x, y))
      ensures ZerosSettled(size, MineSet(), flaggedCells, old(revealedCells), revealedCells)
      ensures Supported(size, MineSet(), Pos(x, y), old(revealedCells), revealedCells)
      decreases size * size - |revealedCells|, 1
    {
      ghost var c := Pos(x, y);
      for dx := -1 to 2
        invariant Live()
        invariant old(revealedCells) <= revealedCells
        invariant ScanDone(size, MineSet(), flaggedCells, revealedCells, c, dx, -1)
        invariant ZerosSettled(size, MineSet(), flaggedCells, old(revealedCells), revealedCells)
        invariant Supported(size, MineSet(), c, old(revealedCells), revealedCells)
      {
        for dy := -1 to 2
          invariant Live()
          invariant old(revealedCells) <= revealedCells
          invariant ScanDone(size, MineSet(), flaggedCells, revealedCells, c, dx, dy)
          invariant ZerosSettled(size, MineSet(), flaggedCells, old(revealedCells), revealedCells)
          invariant Supported(size, MineSet(), c, old(revealedCells), revealedCells)
        {
          NeighboursMember(size, c, Pos(x + dx, y + dy));
          if dx == 0 && dy == 0 {
            ScanDoneStep(size, MineSet(), flaggedCells, revealedCells, c, dx, dy);
            continue;
          }
          ghost var before := revealedCells;
          SubsetCard(old(revealedCells), revealedCells);
          OnBoardCard(size, revealedCells);
          OpenNeighbour(c, x + dx, y + dy);
          ZerosSettledTrans(size, MineSet(), flaggedCells, old(revealedCells), before, revealedCells);
          SupportedTrans(size, MineSet(), c, old(revealedCells), before, revealedCells);
          ScanDoneGrows(size, MineSet(), flaggedCells, before, revealedCells, c, dx, dy);
          ScanDoneStep(size, MineSet(), flaggedCells, revealedCells, c, dx, dy);
        }
        ScanDoneRowEnd(size, MineSet(), flaggedCells, revealedCells, c, dx);
      }
    }

    /**
     * One step of the flood fill around `c`: the neighbour (newX, newY) is
     * opened when it is on the board, still closed, unflagged and not a mine,
     * and the fill continues from it when it shows 0. Afterwards that
     * neighbour, if on the board, is revealed, flagged or a mine. When the
     * guard fails nothing changes, and a neighbour showing a number is the
     * only square opened.
     */
    method OpenNeighbour(ghost c: Pos, newX: int, newY: int)
      requires Live() && Adjacent(c, Pos(newX, newY))
      modifies this`revealedCells, board
      ensures Live()
      ensures old(revealedCells) <= revealedCells
      ensures OnBoard(size, Pos(newX, newY)) ==>
        Pos(newX, newY) in revealedCells || Pos(newX, newY) in flaggedCells || Pos(newX, newY) in MineSet()
      ensures !(OnBoard(size, Pos(newX, newY)) && Pos(newX, newY) !in old(revealedCells) &&
                Pos(newX, newY) !in flaggedCells && Pos(newX, newY) !in MineSet()) ==>
        revealedCells == old(revealedCells) && unchanged(board)
      ensures OnBoard(size, Pos(newX, newY)) && Pos(newX, newY) !in old(revealedCells) &&
              Pos(newX, newY) !in flaggedCells && Pos(newX, newY) !in MineSet() &&
              MineCount(size, MineSet(), Pos(newX, newY)) != 0 ==>
        revealedCells == old(revealedCells) + {Pos(newX, newY)}
      ensures ZerosSettled(size, MineSet(), flaggedCells, old(revealedCells), revealedCells)
      ensures Supported(size, MineSet(), c, old(revealedCells), revealedCells)
      decreases size * size - |revealedCells|, 0
    {
      var n := Pos(newX, newY);
      if IsValidPosition(newX, newY) &&
         !board[newX, newY].revealed &&
         !board[newX, newY].flagged &&
         !board[newX, newY].isMine
      {
        assert board[newX, newY] == Render(size, minePositions, revealedCells, flaggedCells, false, n);
        board[newX, newY] := board[newX, newY].(revealed := true);
        revealedCells := revealedCells + {n};
        CellOpened(n);
        SupportedAdd(size, MineSet(), c, old(revealedCells), old(revealedCells), n);

        if board[newX, newY].number == 0 {
          ghost var middle := revealedCells;
          OnBoardCard(size, revealedCells);
          RevealAdjacentCells(newX, newY);
          SupportedJoin(size, MineSet(), c, old(revealedCells), middle, n, revealedCells);
          ZerosSettledJoin(size, MineSet(), flaggedCells, old(revealedCells), old(revealedCells), n, revealedCells);
        } else {
          ZerosSettledAdd(size, MineSet(), flaggedCells, old(revealedCells), old(revealedCells), n);
        }
      } else if IsValidPosition(newX, newY) {
        assert board[newX, newY] == Render(size, minePositions, revealedCells, flaggedCells, false, n);
      }
    }

    /**
     * A flood-fill state whose status agrees with its revealed count is a
     * valid game, won or still going.
     */
    lemma LiveIsValid()
      requires Live() && 0 < minesCount < size * size && gameWon == gameOver
      requires !gameOver ==> |revealedCells| < size * size - minesCount
      requires gameWon ==> |revealedCells| == size * size - minesCount
      ensures Valid()
    {
    }

    /**
     * Opening one more safe, unflagged square of the board, in the revealed
     * set and on the board alike, keeps the flood-fill state.
     */
    twostate lemma CellOpened(q: Pos)
      requires old(Live())
      requires OnBoard(size, q) && q !in minePositions && q !in flaggedCells
      requires unchanged(this`board, this`minePositions, this`flaggedCells)
      requires revealedCells == old(revealedCells) + {q}
      requires forall i, j {:trigger board[i, j]} :: 0 <= i < size && 0 <= j < size ==>
        board[i, j] == if Pos(i, j) == q then old(board[i, j]).(revealed := true) else old(board[i, j])
      ensures Live()
    {
      forall i, j {:trigger board[i, j]} | 0 <= i < size && 0 <= j < size
        ensures board[i, j] == Render(size, minePositions, revealedCells, flaggedCells, false, Pos(i, j))
      {
        RenderReveal(size, minePositions, old(revealedCells), revealedCells, flaggedCells, q, Pos(i, j));
      }
    }

    /**
     * Stepping on the mine `q` while the game is on, then showing every mine,
     * leaves a lost game that keeps the invariant.
     */
    twostate lemma MineHit(q: Pos)
      requires old(Valid()) && !old(gameOver) && !old(gameWon)
      requires q in minePositions && gameOver && !gameWon
      requires unchanged(this`board, this`minePositions, this`flaggedCells)
      requires revealedCells == old(revealedCells) + {q}
      requires forall i, j {:trigger board[i, j]} :: 0 <= i < size && 0 <= j < size ==>
        board[i, j] == old(board[i, j]).(revealed := old(board[i, j]).revealed || Pos(i, j) == q || Pos(i, j) in minePositions)
      ensures Valid()
    {
    }

    /** Shows every mine listed in `minePositions`. */
    method RevealAllMines()
      requires Shaped() && MinesListed()
      modifies board
      ensures forall i, j {:trigger board[i, j]} :: 0 <= i < size && 0 <= j < size ==>
        board[i, j] == old(board[i, j]).(revealed := old(board[i, j]).revealed || Pos(i, j) in minePositions)
    {
      for k := 0 to |minePositions|
        invariant forall i, j {:trigger board[i, j]} :: 0 <= i < size && 0 <= j < size ==>
          board[i, j] == old(board[i, j]).(revealed := old(board[i, j]).revealed || Pos(i, j) in minePositions[..k])
      {
        var pos := minePositions[k];
        board[pos.x, pos.y] := board[pos.x, pos.y].(revealed := true);
        assert minePositions[..k + 1] == minePositions[..k] + [pos];
      }
      assert minePositions[..|minePositions|] == minePositions;
    }

    /** Marks the game won once as many cells are revealed as the board has safe cells. */
    method CheckWinCondition()
      modifies this`gameWon
      ensures gameWon == (old(gameWon) || |revealedCells| == size * size - minesCount)
    {
      var totalCells := size * size;
      var nonMineCells := totalCells - minesCount;
      if |revealedCells| == nonMineCells {
        gameWon := true;
      }
    }

    // -------------------------------------------------------------------
    // Flags

    /** Puts a flag on (x, y) or lifts it. */
    method ToggleFlag(x: int, y: int) returns (r: FlagResult)
      requires Valid()
      modifies this`flaggedCells, board
      ensures Valid()
      ensures r == NotToggled <==> old(gameOver) || old(gameWon) || !IsValidPosition(x, y) || old(board[x, y].revealed)
      ensures r == NotToggled ==> flaggedCells == old(flaggedCells) && unchanged(board)
      ensures r == Added ==> Pos(x, y) !in old(flaggedCells) && flaggedCells == old(flaggedCells) + {Pos(x, y)}
      ensures r == Removed ==> Pos(x, y) in old(flaggedCells) && flaggedCells == old(flaggedCells) - {Pos(x, y)}
      ensures r != NotToggled ==>
        forall i, j {:trigger board[i, j]} :: 0 <= i < size && 0 <= j < size ==>
          board[i, j] == if i == x && j == y then old(board[i, j]).(flagged := !old(board[i, j].flagged))
                         else old(board[i, j])
      ensures GetRemainingMines() == old(GetRemainingMines()) - (if r == Added then 1 else if r == Removed then -1 else 0)
    {
      if gameOver || gameWon {
        return NotToggled;
      }
      if !IsValidPosition(x, y) {
        return NotToggled;
      }
      if board[x, y].revealed {
        return NotToggled;
      }

      var cellKey := Pos(x, y);
      if cellKey in flaggedCells {
        flaggedCells := flaggedCells - {cellKey};
        board[x, y] := board[x, y].(flagged := false);
        r := Removed;
      } else {
        flaggedCells := flaggedCells + {cellKey};
        board[x, y] := board[x, y].(flagged := true);
        r := Added;
      }
      FlagToggled(cellKey);
    }

    /**
     * Toggling the flag of an unrevealed square `q` while the game is on, in
     * the flag set and on the board alike, keeps the invariant.
     */
    twostate lemma FlagToggled(q: Pos)
      requires old(Valid()) && !old(gameOver) && !old(gameWon)
      requires OnBoard(size, q) && q !in revealedCells
      requires unchanged(this`board, this`minePositions, this`revealedCells, this`gameOver, this`gameWon)
      requires forall o :: o != q ==> (o in flaggedCells <==> o in old(flaggedCells))
      requires forall i, j {:trigger board[i, j]} :: 0 <= i < size && 0 <= j < size ==>
        board[i, j] == if Pos(i, j) == q then old(board[i, j]).(flagged := q in flaggedCells) else old(board[i, j])
      ensures Valid()
    {
      forall i, j {:trigger board[i, j]} | 0 <= i < size && 0 <= j < size
        ensures board[i, j] == Render(size, minePositions, revealedCells, flaggedCells, false, Pos(i, j))
      {
        RenderFlag(size, minePositions, revealedCells, old(flaggedCells), flaggedCells, false, q, Pos(i, j));
      }
    }

    /** The number of flags on the board. */
    function GetFlagCount(): (count: nat)
      reads this`board, this`minePositions, this`revealedCells, this`flaggedCells, this`gameOver, this`gameWon, board
      requires Valid()
      ensures count == |flaggedCells| && count <= size * size
    {
      CellsCard(size);
      OnBoardCells(size, flaggedCells);
      SubsetCard(flaggedCells, Cells(size));
      |flaggedCells|
    }

    /** How many mines are still unflagged, as the player sees it; negative when over-flagged. */
    function GetRemainingMines(): (remaining: int)
      reads this`board, this`minePositions, this`revealedCells, this`flaggedCells, this`gameOver, this`gameWon, board
      requires Valid()
      ensures remaining == minesCount - GetFlagCount()
      ensures minesCount - size * size <= remaining <= minesCount
    {
      minesCount - GetFlagCount()
    }
  }

  /** Toggling the same square twice leaves the flags and the board as they were. */
  method ToggleFlagTwice(g: MinesweeperGame, x: int, y: int) returns (first: FlagResult, second: FlagResult)
    requires g.Valid()
    modifies g`flaggedCells, g.board
    ensures g.Valid()
    ensures first == NotToggled <==> second == NotToggled
    ensures first == Added <==> second == Removed
    ensures g.flaggedCells == old(g.flaggedCells)
    ensures forall i, j {:trigger g.board[i, j]} :: 0 <= i < g.size && 0 <= j < g.size ==> g.board[i, j] == old(g.board[i, j])
  {
    first := g.ToggleFlag(x, y);
    second := g.ToggleFlag(x, y);
  }

  /**
   * A fresh 3 × 3 game whose one mine is in the centre: opening a corner is
   * safe and opens that corner alone (it shows 1), and then opening the
   * centre hits the mine and loses.
   */
  method ThreeByThreeGame(g: MinesweeperGame) returns (first: RevealResult, second: RevealResult)
    requires g.Valid() && g.size == 3 && g.minePositions == [Pos(1, 1)]
    requires g.revealedCells == {} && g.flaggedCells == {} && !g.gameOver
    modifies g`moveCount, g`revealedCells, g`gameOver, g`gameWon, g.board
    ensures first == Safe && second == Mine
    ensures g.gameOver && !g.gameWon && g.revealedCells == {Pos(0, 0), Pos(1, 1)}
  {
    assert g.MineSet() == {Pos(1, 1)};
    CornerOfThreeByThree();
    first := g.RevealCell(0, 0);
    assert g.revealedCells == {Pos(0, 0)};
    second := g.RevealCell(1, 1);
  }

  /**
   * A fresh 2 × 2 game with its mine at (0, 0): each of the three safe
   * squares shows 1, so each reveal opens one square, and the third wins.
   */
  method TwoByTwoGame(g: MinesweeperGame) returns (first: RevealResult, second: RevealResult, third: RevealResult)
    requires g.Valid() && g.size == 2 && g.minePositions == [Pos(0, 0)]
    requires g.revealedCells == {} && g.flaggedCells == {} && !g.gameOver
    modifies g`moveCount, g`revealedCells, g`gameOver, g`gameWon, g.board
    ensures first == Safe && second == Safe && third == Win
    ensures g.gameOver && g.gameWon && g.revealedCells == SafeCells(2, {Pos(0, 0)})
  {
    assert g.MineSet() == {Pos(0, 0)};
    CellsMember(2, Pos(0, 1));
    CellsMember(2, Pos(1, 0));
    CellsMember(2, Pos(1, 1));
    TwoByTwo(Pos(0, 1));
    TwoByTwo(Pos(1, 0));
    TwoByTwo(Pos(1, 1));
    first := g.RevealCell(0, 1);
    assert g.revealedCells == {Pos(0, 1)};
    second := g.RevealCell(1, 0);
    assert g.revealedCells == {Pos(0, 1), Pos(1, 0)};
    third := g.RevealCell(1, 1);
  }
}
