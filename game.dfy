/** The game itself: a rows x cols board of mines and numbers, which cells are
    revealed or flagged, and the operations a click, a right click, the reset
    button and the automated player perform on it. */
module Game {
  import opened Grid

  class Minesweeper {
    const rows: nat
    const cols: nat
    const mines: nat

    /** -1 on a mine; on any other cell, the number of mines around it. */
    var board: array2<int>
    var revealed: array2<bool>
    var flagged: array2<bool>
    var gameOver: bool
    var isFirstClick: bool
    /** Mines minus flags placed; negative when the player over-flags. */
    var minesLeft: int

    /** The cells that hold a mine. */
    ghost var Mines: set<Cell>

    ghost predicate Shape()
      reads this`board, this`revealed, this`flagged
    {
      board.Length0 == rows && board.Length1 == cols &&
      revealed.Length0 == rows && revealed.Length1 == cols &&
      flagged.Length0 == rows && flagged.Length1 == cols &&
      revealed != flagged
    }

    /** A cell on the board: both coordinates within range. */
    predicate IsValidCell(row: int, col: int): (valid: bool)
      ensures valid <==> 0 <= row < rows && 0 <= col < cols
    {
      InBounds(rows, cols, Cell(row, col))
    }

    /** board agrees with Mines: -1 exactly on the mines, and every other cell
        holds the number of mines around it. */
    ghost predicate Consistent()
      reads this`board, this`revealed, this`flagged, this`Mines, board
      requires Shape()
    {
      (forall p :: p in Mines ==> InBounds(rows, cols, p)) &&
      forall a, b :: 0 <= a < rows && 0 <= b < cols ==> Agrees(a, b)
    }

    /** The cell (a, b) holds -1 if it is a mine and its mine count otherwise. */
    ghost predicate Agrees(a: int, b: int)
      reads this`board, this`revealed, this`flagged, this`Mines, board
      requires Shape() && 0 <= a < rows && 0 <= b < cols
    {
      if Cell(a, b) in Mines then board[a, b] == -1 else board[a, b] == MineCount(Mines, Cell(a, b))
    }

    ghost function FlaggedCells(): set<Cell>
      reads this`board, this`revealed, this`flagged, flagged
      requires Shape()
    {
      set p | p in AllCells(rows, cols) && IsFlagged(p)
    }

    /** The cells not revealed yet, flagged or not. */
    ghost function Concealed(): set<Cell>
      reads this`board, this`revealed, this`flagged, revealed
      requires Shape()
    {
      set p | p in AllCells(rows, cols) && !IsRevealed(p)
    }

    /** While a game runs, no revealed cell is flagged and none is a mine. */
    ghost predicate InPlay()
      reads this`board, this`revealed, this`flagged, board, revealed, flagged
      requires Shape()
    {
      forall a, b {:trigger revealed[a, b]} :: 0 <= a < rows && 0 <= b < cols && revealed[a, b] ==>
        !flagged[a, b] && board[a, b] != -1
    }

    /** The invariant every operation keeps. Mines are laid by the first
        accepted click, so before it there are none and after it there are
        exactly `mines`; minesLeft always counts down the flags. */
    ghost predicate Valid()
      reads this, board, revealed, flagged
    {
      Shape() && Consistent() &&
      (if isFirstClick then Mines == {} && NoneRevealed() else |Mines| == mines) &&
      minesLeft == mines - |FlaggedCells()| &&
      (!gameOver ==> InPlay())
    }

    /** The board as a new game starts: all zeros, nothing revealed or flagged. */
    ghost predicate Blank()
      reads this`board, this`revealed, this`flagged, board, revealed, flagged
      requires Shape()
    {
      forall a, b :: 0 <= a < rows && 0 <= b < cols ==>
        board[a, b] == 0 && !revealed[a, b] && !flagged[a, b]
    }

    ghost predicate NoneRevealed()
      reads this`board, this`revealed, this`flagged, revealed
      requires Shape()
    {
      forall a, b :: 0 <= a < rows && 0 <= b < cols ==> !revealed[a, b]
    }

    ghost predicate AllRevealed()
      reads this`board, this`revealed, this`flagged, revealed
      requires Shape()
    {
      forall a, b :: 0 <= a < rows && 0 <= b < cols ==> revealed[a, b]
    }

    /** Every cell that is not a mine is revealed. */
    ghost predicate Cleared()
      reads this`board, this`revealed, this`flagged, board, revealed
      requires Shape()
    {
      forall a, b {:trigger revealed[a, b]} :: 0 <= a < rows && 0 <= b < cols && board[a, b] != -1 ==> revealed[a, b]
    }

    /** p is on the board, not revealed and not flagged. */
    predicate Unrevealed(p: Cell)
      reads this`board, this`revealed, this`flagged, revealed, flagged
      requires Shape()
    {
      InBounds(rows, cols, p) && !revealed[p.row, p.col] && !flagged[p.row, p.col]
    }

    predicate IsRevealed(p: Cell)
      reads this`board, this`revealed, this`flagged, revealed
      requires Shape()
    {
      InBounds(rows, cols, p) && revealed[p.row, p.col]
    }

    predicate IsFlagged(p: Cell)
      reads this`board, this`revealed, this`flagged, flagged
      requires Shape()
    {
      InBounds(rows, cols, p) && flagged[p.row, p.col]
    }

    /** A new game; like the source, ten rows, ten columns and ten mines
        unless the caller says otherwise. */
    constructor (rows: nat := 10, cols: nat := 10, mines: nat := 10)
      ensures this.rows == rows && this.cols == cols && this.mines == mines
      ensures Valid() && Blank()
      ensures !gameOver && isFirstClick && minesLeft == mines
    {
      this.rows, this.cols, this.mines := rows, cols, mines;
      board := new int[rows, cols]((a, b) => 0);
      revealed := new bool[rows, cols]((a, b) => false);
      flagged := new bool[rows, cols]((a, b) => false);
      gameOver, isFirstClick, minesLeft := false, true, mines;
      Mines := {};
      new;
      assert FlaggedCells() == {};
    }

    /** Fresh arrays for an empty board. */
    method InitializeBoard()
      modifies this`board, this`revealed, this`flagged
      ensures Shape() && Blank()
      ensures fresh(board) && fresh(revealed) && fresh(flagged)
    {
      board := new int[rows, cols]((a, b) => 0);
      revealed := new bool[rows, cols]((a, b) => false);
      flagged := new bool[rows, cols]((a, b) => false);
    }

    /** Back to a new game of the same size and mine count. */
    method Reset()
      modifies this
      ensures Valid() && Blank()
      ensures fresh(board) && fresh(revealed) && fresh(flagged)
      ensures !gameOver && isFirstClick && minesLeft == mines
    {
      gameOver := false;
      isFirstClick := true;
      minesLeft := mines;
      Mines := {};
      InitializeBoard();
      assert FlaggedCells() == {};
    }

    /** The mines are the first `mines` distinct picks outside the 3x3 block
        around the first click. */
    ghost predicate PlacedFrom(picks: seq<Cell>, first: Cell)
      reads this`Mines
    {
      |Mines| == mines &&
      (forall p :: p in Mines ==> !InZone(p, first)) &&
      exists k :: 0 <= k <= |picks| && Mines == Eligible(picks[..k], first)
    }

    /** The random draws lie on the board and offer enough distinct cells
        outside the first click's block for the loop to finish. */
    ghost predicate PicksSuffice(picks: seq<Cell>, first: Cell)
    {
      (forall i :: 0 <= i < |picks| ==> InBounds(rows, cols, picks[i])) &&
      mines <= |Eligible(picks, first)|
    }

    /** Raise by one the number of every safe cell around (row, col). */
    method BumpNeighbours(row: int, col: int)
      requires Shape()
      modifies board
      ensures forall a, b :: 0 <= a < rows && 0 <= b < cols ==>
        board[a, b] == old(board[a, b]) +
          (if old(board[a, b]) != -1 && Adjacent(Cell(a, b), Cell(row, col)) then 1 else 0)
    {
      for i := -1 to 2
        invariant forall a, b :: 0 <= a < rows && 0 <= b < cols ==>
          board[a, b] == old(board[a, b]) +
            (if old(board[a, b]) != -1 && Adjacent(Cell(a, b), Cell(row, col)) && a - row < i then 1 else 0)
      {
        for j := -1 to 2
          invariant forall a, b :: 0 <= a < rows && 0 <= b < cols ==>
            board[a, b] == old(board[a, b]) +
              (if old(board[a, b]) != -1 && Adjacent(Cell(a, b), Cell(row, col)) &&
                  (a - row < i || (a - row == i && b - col < j)) then 1 else 0)
        {
          if i == 0 && j == 0 {
            continue;
          }
          var newRow, newCol := row + i, col + j;
          if IsValidCell(newRow, newCol) && board[newRow, newCol] != -1 {
            board[newRow, newCol] := board[newRow, newCol] + 1;
          }
        }
      }
    }

    /** Lay the mines on a fresh board, drawing cells from `picks` (the
        source's Math.random draws) and skipping the 3x3 block around the
        first click and cells that already hold a mine. */
    method PlaceMines(firstRow: int, firstCol: int, picks: seq<Cell>)
      requires Shape() && Consistent() && Mines == {}
      requires PicksSuffice(picks, Cell(firstRow, firstCol))
      modifies this`Mines, board
      ensures Shape() && Consistent()
      ensures PlacedFrom(picks, Cell(firstRow, firstCol))
    {
      var first := Cell(firstRow, firstCol);
      var minesPlaced := 0;
      var k := 0;
      assert picks[..|picks|] == picks;
      while minesPlaced < mines
        invariant 0 <= k <= |picks|
        invariant Shape() && Consistent()
        invariant Mines == Eligible(picks[..k], first)
        invariant minesPlaced == |Mines| <= mines
        decreases |picks| - k
      {
        assert k < |picks|;
        var pick := picks[k];
        var row, col := pick.row, pick.col;
        k := k + 1;
        assert picks[..k] == picks[..k - 1] + [pick];
        EligibleAppend(picks[..k - 1], pick, first);
        if Abs(row - firstRow) <= 1 && Abs(col - firstCol) <= 1 {
          continue;
        }
        if board[row, col] != -1 {
          AddMine(pick);
          minesPlaced := minesPlaced + 1;
        } else {
          assert Agrees(row, col);
        }
      }
    }

    /** Turn the safe cell p into a mine and count it in the numbers around it. */
    method AddMine(p: Cell)
      requires Shape() && Consistent() && InBounds(rows, cols, p) && board[p.row, p.col] != -1
      modifies this`Mines, board
      ensures Shape() && Consistent()
      ensures p !in old(Mines) && Mines == old(Mines) + {p}
    {
      assert Agrees(p.row, p.col);
      board[p.row, p.col] := -1;
      Mines := Mines + {p};
      label Marked:
      BumpNeighbours(p.row, p.col);
      forall a, b | 0 <= a < rows && 0 <= b < cols
        ensures Agrees(a, b)
      {
        assert old(Agrees(a, b));
        if Cell(a, b) != p {
          assert old@Marked(board[a, b]) == old(board[a, b]);
          CountInsert(Around(Cell(a, b)), old(Mines), p);
        }
      }
    }

    /** On a consistent board a cell showing 0 has no mine around it. */
    lemma ZeroHasNoMineAround(c: Cell)
      requires Shape() && Consistent() && InBounds(rows, cols, c)
      requires board[c.row, c.col] == 0
      ensures forall q :: q in Around(c) ==> q !in Mines
    {
      assert Agrees(c.row, c.col);
    }

    /** With no mine in the 3x3 block around c, c shows 0. */
    lemma {:induction false} ClearBlockShowsZero(c: Cell)
      requires Shape() && Consistent() && InBounds(rows, cols, c)
      requires forall p :: p in Mines ==> !InZone(p, c)
      ensures board[c.row, c.col] == 0
    {
      var around := Around(c);
      assert Agrees(c.row, c.col);
      forall i | 0 <= i < |around| ensures around[i] !in Mines {
        assert Adjacent(around[i], c);
      }
    }

    /** p is on the board and shows 0. */
    ghost predicate ShowsZero(p: Cell)
      reads this`board, this`revealed, this`flagged, board
      requires Shape()
    {
      InBounds(rows, cols, p) && board[p.row, p.col] == 0
    }

    /** p is an unflagged safe cell on the board. */
    ghost predicate Openable(p: Cell)
      reads this`board, this`revealed, this`flagged, board, flagged
      requires Shape()
    {
      InBounds(rows, cols, p) && !flagged[p.row, p.col] && board[p.row, p.col] != -1
    }

    /** Every on-board neighbour of p in `hidden` is flagged. */
    ghost predicate Uncovered(p: Cell, hidden: set<Cell>)
      reads this`board, this`revealed, this`flagged, flagged
      requires Shape()
    {
      forall q :: q in Around(p) && q in hidden && InBounds(rows, cols, q) ==> IsFlagged(q)
    }

    /** Every cell of `shown` is an unflagged safe cell on the board, and some
        ranking of `shown` links every cell but start to a 0 of `shown` of
        lower rank: each is reached from start through a chain of shown 0s. */
    ghost predicate Spread(start: Cell, shown: set<Cell>)
      reads this`board, this`revealed, this`flagged, board, flagged
      requires Shape()
    {
      (forall p :: p in shown ==> Openable(p)) &&
      exists rank: map<Cell, nat> :: Ranked(start, shown, rank)
    }

    /** rank orders `shown` so that every cell but start touches a shown 0 ranked below it. */
    ghost predicate Ranked(start: Cell, shown: set<Cell>, rank: map<Cell, nat>)
      reads this`board, this`revealed, this`flagged, board
      requires Shape()
    {
      forall p :: p in shown ==> p in rank && (p == start || FedBelow(p, shown, rank))
    }

    /** p touches a shown 0 that rank puts below p. */
    ghost predicate FedBelow(p: Cell, shown: set<Cell>, rank: map<Cell, nat>)
      reads this`board, this`revealed, this`flagged, board
      requires Shape()
    {
      exists q :: q in shown && q in rank && p in rank && Adjacent(q, p) && ShowsZero(q) && rank[q] < rank[p]
    }

    /** A path of adjacent cells of `shown` from start to its last entry, every
        step taken out of a cell showing 0. */
    ghost predicate Path(start: Cell, shown: set<Cell>, path: seq<Cell>)
      reads this`board, this`revealed, this`flagged, board
      requires Shape()
    {
      |path| > 0 && path[0] == start &&
      (forall k :: 0 <= k < |path| ==> path[k] in shown) &&
      (forall k :: 0 <= k < |path| - 1 ==> Adjacent(path[k], path[k + 1]) && ShowsZero(path[k]))
    }

    /** The ranking is what makes a fill connected: every cell it spread to
        lies at the end of a path from start through shown 0s. */
    lemma SpreadReaches(start: Cell, shown: set<Cell>, p: Cell)
      requires Shape() && Spread(start, shown) && start in shown && p in shown
      ensures exists path :: Path(start, shown, path) && path[|path| - 1] == p
    {
      var rank :| Ranked(start, shown, rank);
      var path := RankedPath(start, shown, rank, p);
    }

    lemma {:induction false} RankedPath(start: Cell, shown: set<Cell>, rank: map<Cell, nat>, p: Cell)
      returns (path: seq<Cell>)
      requires Shape() && Ranked(start, shown, rank) && start in shown && p in shown
      ensures Path(start, shown, path) && path[|path| - 1] == p
      decreases rank[p]
    {
      if p == start {
        path := [start];
      } else {
        var q :| q in shown && q in rank && p in rank && Adjacent(q, p) && ShowsZero(q) && rank[q] < rank[p];
        var prefix := RankedPath(start, shown, rank, q);
        path := prefix + [p];
      }
    }

    /** A fill that revealed nothing spreads. */
    lemma SpreadNothing(start: Cell)
      requires Shape()
      ensures Spread(start, {})
    {
      assert Ranked(start, {}, map[]);
    }

    /** A fill that revealed only its start spreads. */
    lemma SpreadAlone(start: Cell)
      requires Shape() && Openable(start)
      ensures Spread(start, {start})
    {
      assert Ranked(start, {start}, map[start := 0]);
    }

    /** No shown 0 has a neighbour still in `hidden` that is not flagged. */
    ghost predicate Closed(shown: set<Cell>, hidden: set<Cell>)
      reads this`board, this`revealed, this`flagged, board, flagged
      requires Shape()
    {
      forall p :: p in shown && ShowsZero(p) ==> Uncovered(p, hidden)
    }

    /** A flood fill from start that revealed `shown` and left `hidden` concealed:
        it reached only cells connected to start through 0s and stopped only at
        numbers, flags and the board's edge. */
    ghost predicate FloodFill(start: Cell, shown: set<Cell>, hidden: set<Cell>)
      reads this`board, this`revealed, this`flagged, board, flagged
      requires Shape()
    {
      Spread(start, shown) && Closed(shown, hidden)
    }

    /** Reveal (row, col) while the game runs; on a mine, end the game and show
        the whole board; on a 0, reveal the eight cells around it, recursively. */
    method Reveal(row: int, col: int)
      requires Valid() && !isFirstClick && !gameOver
      modifies this`gameOver, revealed
      decreases Concealed(), 0
      ensures Valid()
      ensures Concealed() <= old(Concealed())
      ensures !IsValidCell(row, col) || old(revealed[row, col]) || flagged[row, col] ==>
        unchanged(revealed) && !gameOver
      ensures IsValidCell(row, col) && !old(revealed[row, col]) && !flagged[row, col] && board[row, col] == -1 ==>
        gameOver && AllRevealed()
      ensures IsValidCell(row, col) && !flagged[row, col] && board[row, col] != -1 ==>
        !gameOver && revealed[row, col] &&
        FloodFill(Cell(row, col), old(Concealed()) - Concealed(), Concealed())
    {
      if !IsValidCell(row, col) || revealed[row, col] || flagged[row, col] {
        SpreadNothing(Cell(row, col));
        assert old(Concealed()) - Concealed() == {};
        return;
      }
      revealed[row, col] := true;
      if board[row, col] == -1 {
        gameOver := true;
        RevealAll();
        return;
      }
      var start := Cell(row, col);
      ConcealedShrinks(start);
      assert Agrees(row, col);
      SpreadAlone(start);
      assert old(Concealed()) - Concealed() == {start};
      if board[row, col] == 0 {
        RevealAround(start, old(Concealed()));
      }
    }

    /** The recursive step of Reveal at the 0 at start: reveal the eight cells
        around it, row offset outside, column offset inside. */
    method RevealAround(start: Cell, ghost before: set<Cell>)
      requires Filling(start, before)
      modifies this`gameOver, revealed
      decreases Concealed(), 2
      ensures Filling(start, before) && Uncovered(start, Concealed())
      ensures Concealed() <= old(Concealed())
    {
      for i := -1 to 2
        invariant Filling(start, before) && Swept(start, i, -1, Concealed())
        invariant Concealed() <= old(Concealed())
      {
        for j := -1 to 2
          invariant Filling(start, before) && Swept(start, i, j, Concealed())
          invariant Concealed() <= old(Concealed())
        {
          if i == 0 && j == 0 {
            SweptStep(start, i, j, Concealed());
            continue;
          }
          RevealNeighbour(start, i, j, before);
        }
        SweptNextRow(start, i, Concealed());
      }
      SweptUncovers(start, Concealed());
    }

    /** Revealing start took it, and only it, out of the concealed cells. */
    twostate lemma ConcealedShrinks(start: Cell)
      requires Shape() && unchanged(this)
      requires InBounds(rows, cols, start) && !old(revealed[start.row, start.col]) && revealed[start.row, start.col]
      requires forall a, b :: 0 <= a < rows && 0 <= b < cols && Cell(a, b) != start ==>
        revealed[a, b] == old(revealed[a, b])
      ensures Concealed() == old(Concealed()) - {start}
    {
    }

    /** The neighbour q of a revealed 0 is off the board, not in `hidden`, or flagged. */
    ghost predicate Settled(q: Cell, hidden: set<Cell>)
      reads this`board, this`revealed, this`flagged, flagged
      requires Shape()
    {
      !InBounds(rows, cols, q) || q !in hidden || flagged[q.row, q.col]
    }

    /** The cell at offset (a, b) from c is settled. */
    ghost predicate SettledAt(c: Cell, a: int, b: int, hidden: set<Cell>)
      reads this`board, this`revealed, this`flagged, flagged
      requires Shape()
    {
      Settled(Cell(c.row + a, c.col + b), hidden)
    }

    /** The offsets the loops around c have visited before (i, j) are settled. */
    ghost predicate Swept(c: Cell, i: int, j: int, hidden: set<Cell>)
      reads this`board, this`revealed, this`flagged, flagged
      requires Shape()
    {
      forall a, b :: -1 <= a <= 1 && -1 <= b <= 1 && (a < i || (a == i && b < j)) ==> SettledAt(c, a, b, hidden)
    }

    lemma SweptShrink(c: Cell, i: int, j: int, hidden: set<Cell>, rest: set<Cell>)
      requires Shape() && Swept(c, i, j, hidden) && rest <= hidden
      ensures Swept(c, i, j, rest)
    {
      forall a, b | -1 <= a <= 1 && -1 <= b <= 1 && (a < i || (a == i && b < j))
        ensures SettledAt(c, a, b, rest)
      {
        assert SettledAt(c, a, b, hidden);
      }
    }

    lemma SweptStep(c: Cell, i: int, j: int, hidden: set<Cell>)
      requires Shape() && Swept(c, i, j, hidden) && SettledAt(c, i, j, hidden)
      ensures Swept(c, i, j + 1, hidden)
    {
    }

    lemma SweptNextRow(c: Cell, i: int, hidden: set<Cell>)
      requires Shape() && Swept(c, i, 2, hidden)
      ensures Swept(c, i + 1, -1, hidden)
    {
    }

    /** Once all eight offsets are settled, every hidden neighbour of c is flagged. */
    lemma SweptUncovers(c: Cell, hidden: set<Cell>)
      requires Shape() && Swept(c, 2, -1, hidden)
      ensures Uncovered(c, hidden)
    {
      forall q | q in Around(c) && InBounds(rows, cols, q) && q in hidden
        ensures flagged[q.row, q.col]
      {
        assert SettledAt(c, q.row - c.row, q.col - c.col, hidden);
      }
    }

    /** Midway through the flood fill from the 0 at start, begun when `before`
        was concealed: the game runs and what it has revealed so far spreads
        from start and is closed except around start itself. */
    ghost predicate Filling(start: Cell, before: set<Cell>)
      reads this, board, revealed, flagged
    {
      Valid() && !isFirstClick && !gameOver &&
      InBounds(rows, cols, start) && board[start.row, start.col] == 0 &&
      start in before && Concealed() <= before - {start} &&
      Spread(start, before - Concealed()) &&
      Closed(before - Concealed() - {start}, Concealed())
    }

    /** One step of the flood fill from the 0 at start: reveal the cell at
        offset (i, j) from it. */
    method RevealNeighbour(start: Cell, i: int, j: int, ghost before: set<Cell>)
      requires Filling(start, before) && Swept(start, i, j, Concealed())
      requires -1 <= i <= 1 && -1 <= j <= 1 && (i != 0 || j != 0)
      modifies this`gameOver, revealed
      decreases Concealed(), 1
      ensures Filling(start, before) && Swept(start, i, j + 1, Concealed())
      ensures Concealed() <= old(Concealed())
    {
      var next := Cell(start.row + i, start.col + j);
      ghost var mid := Concealed();
      assert Adjacent(next, start);
      ZeroHasNoMineAround(start);
      if InBounds(rows, cols, next) {
        assert Agrees(next.row, next.col);
      }
      Reveal(next.row, next.col);
      if IsValidCell(next.row, next.col) && !flagged[next.row, next.col] {
        FillJoin(start, next, before, mid, Concealed());
      }
      SweptShrink(start, i, j, mid, Concealed());
      SweptStep(start, i, j, Concealed());
    }

    /** What a flood fill from the neighbour next of the 0 at start revealed,
        from `mid` down to `rest`, extends the fill from start so far. */
    lemma FillJoin(start: Cell, next: Cell, before: set<Cell>, mid: set<Cell>, rest: set<Cell>)
      requires Shape() && InBounds(rows, cols, start) && board[start.row, start.col] == 0
      requires start in before && Adjacent(next, start) && mid <= before - {start} && rest <= mid
      requires Spread(start, before - mid) && Closed(before - mid - {start}, mid)
      requires FloodFill(next, mid - rest, rest)
      ensures Spread(start, before - rest) && Closed(before - rest - {start}, rest)
    {
      assert before - rest == (before - mid) + (mid - rest);
      SpreadJoin(start, before - mid, next, mid - rest);
      ClosedJoin(before - mid - {start}, mid, mid - rest, rest);
      assert before - rest - {start} == (before - mid - {start}) + (mid - rest);
    }

    /** A fill from a neighbour q of the 0 at start extends a fill from start:
        q's cells are ranked above everything start's fill ranked so far. */
    lemma SpreadJoin(start: Cell, shown: set<Cell>, q: Cell, more: set<Cell>)
      requires Shape() && InBounds(rows, cols, start) && board[start.row, start.col] == 0
      requires start in shown && Adjacent(q, start) && shown !! more
      requires Spread(start, shown) && Spread(q, more)
      ensures Spread(start, shown + more)
    {
      var r1 :| Ranked(start, shown, r1);
      var r2 :| Ranked(q, more, r2);
      var k := r1[start] + 1;
      var rank := map p | p in shown + more :: if p in shown then r1[p] else k + r2[p];
      forall p | p in shown + more
        ensures p in rank && (p == start || FedBelow(p, shown + more, rank))
      {
        if p in shown && p != start {
          var w :| w in shown && w in r1 && p in r1 && Adjacent(w, p) && ShowsZero(w) && r1[w] < r1[p];
          assert rank[w] < rank[p];
        } else if p in more && p != q {
          var w :| w in more && w in r2 && p in r2 && Adjacent(w, p) && ShowsZero(w) && r2[w] < r2[p];
          assert w !in shown && rank[w] < rank[p];
        } else if p == q {
          assert Adjacent(start, q) && ShowsZero(start) && rank[start] < rank[q];
        }
      }
      assert Ranked(start, shown + more, rank);
    }

    /** Closed fills stay closed together, against the smaller hidden set. */
    lemma ClosedJoin(shown: set<Cell>, hidden: set<Cell>, more: set<Cell>, rest: set<Cell>)
      requires Shape() && rest <= hidden
      requires Closed(shown, hidden) && Closed(more, rest)
      ensures Closed(shown + more, rest)
    {
    }

    /** Reveal every cell, as the game does on a loss. */
    method RevealAll()
      requires Shape()
      modifies revealed
      ensures AllRevealed()
    {
      for i := 0 to rows
        invariant forall a, b :: 0 <= a < i && 0 <= b < cols ==> revealed[a, b]
      {
        for j := 0 to cols
          invariant forall a, b :: 0 <= a < i && 0 <= b < cols ==> revealed[a, b]
          invariant forall b :: 0 <= b < j ==> revealed[i, b]
        {
          revealed[i, j] := true;
        }
      }
    }

    /** Whether every cell that is not a mine is revealed. */
    method CheckWin() returns (won: bool)
      requires Shape()
      ensures won <==> Cleared()
    {
      for i := 0 to rows
        invariant forall a, b :: 0 <= a < i && 0 <= b < cols && board[a, b] != -1 ==> revealed[a, b]
      {
        for j := 0 to cols
          invariant forall a, b :: 0 <= a < i && 0 <= b < cols && board[a, b] != -1 ==> revealed[a, b]
          invariant forall b :: 0 <= b < j && board[i, b] != -1 ==> revealed[i, b]
        {
          if board[i, j] != -1 && !revealed[i, j] {
            return false;
          }
        }
      }
      return true;
    }

    /** The first accepted click: the game starts and the mines are laid
        around (row, col), which is left showing 0. */
    method StartGame(row: int, col: int, picks: seq<Cell>)
      requires Valid() && IsValidCell(row, col) && isFirstClick && !gameOver
      requires PicksSuffice(picks, Cell(row, col))
      modifies this`isFirstClick, this`Mines, board
      ensures Valid() && !isFirstClick
      ensures PlacedFrom(picks, Cell(row, col)) && board[row, col] == 0
      ensures Concealed() == old(Concealed())
    {
      isFirstClick := false;
      PlaceMines(row, col, picks);
      ClearBlockShowsZero(Cell(row, col));
    }

    /** A left click. Ignored once the game is over or on a flagged cell. The
        first accepted click lays the mines around it, then the cell is
        revealed and the win check runs; winAlert tells whether the win
        message is scheduled. */
    method HandleClick(row: int, col: int, picks: seq<Cell>) returns (winAlert: bool)
      requires Valid() && IsValidCell(row, col)
      requires !gameOver && isFirstClick && !flagged[row, col] ==> PicksSuffice(picks, Cell(row, col))
      modifies this`gameOver, this`isFirstClick, this`Mines, board, revealed
      ensures Valid()
      ensures Concealed() <= old(Concealed())
      ensures old(gameOver) || flagged[row, col] ==>
        !winAlert && unchanged(this) && unchanged(board) && unchanged(revealed)
      ensures !old(gameOver) && !flagged[row, col] ==>
        !isFirstClick && revealed[row, col] && winAlert == Cleared() &&
        (old(isFirstClick) ==> PlacedFrom(picks, Cell(row, col)) && board[row, col] == 0) &&
        (!old(isFirstClick) ==> Mines == old(Mines) && unchanged(board))
      ensures !old(gameOver) && !flagged[row, col] && board[row, col] == -1 ==>
        gameOver && AllRevealed() && winAlert
      ensures !old(gameOver) && !flagged[row, col] && board[row, col] != -1 ==>
        gameOver == winAlert && FloodFill(Cell(row, col), old(Concealed()) - Concealed(), Concealed())
    {
      if gameOver || flagged[row, col] {
        return false;
      }
      if isFirstClick {
        StartGame(row, col, picks);
      }
      winAlert := Open(row, col);
    }

    /** The click on an unflagged cell of a running game once the mines are
        laid: reveal it, then end the game if the board is cleared. */
    method Open(row: int, col: int) returns (winAlert: bool)
      requires Valid() && IsValidCell(row, col) && !isFirstClick && !gameOver && !flagged[row, col]
      modifies this`gameOver, revealed
      ensures Concealed() <= old(Concealed())
      ensures board[row, col] != -1 ==>
        gameOver == winAlert && FloodFill(Cell(row, col), old(Concealed()) - Concealed(), Concealed())
      ensures board[row, col] == -1 ==> gameOver && AllRevealed() && winAlert
      ensures revealed[row, col] && winAlert == Cleared()
      ensures Valid()
    {
      Reveal(row, col);
      winAlert := EndIfWon();
    }

    /** The win check after a click: a cleared board ends the game. */
    method EndIfWon() returns (won: bool)
      requires Valid()
      modifies this`gameOver
      ensures won == Cleared() && gameOver == (old(gameOver) || won)
      ensures Valid()
    {
      won := CheckWin();
      if won {
        gameOver := true;
      }
    }

    /** A right click: flag or unflag a hidden cell while the game runs. The
        flag at (row, col) flips, no other flag changes, and the mine counter
        moves the other way. */
    method ToggleFlag(row: int, col: int)
      requires Valid() && IsValidCell(row, col)
      modifies this`minesLeft, flagged
      ensures Valid()
      ensures gameOver || revealed[row, col] ==> unchanged(flagged) && minesLeft == old(minesLeft)
      ensures !gameOver && !revealed[row, col] ==>
        (Cell(row, col) in FlaggedCells() <==> Cell(row, col) !in old(FlaggedCells())) &&
        FlaggedCells() - {Cell(row, col)} == old(FlaggedCells()) - {Cell(row, col)} &&
        minesLeft == old(minesLeft) + (if Cell(row, col) in FlaggedCells() then -1 else 1)
    {
      if gameOver || revealed[row, col] {
        return;
      }
      Flip(Cell(row, col));
    }

    /** Flip the flag on a hidden cell of a running game. */
    method Flip(c: Cell)
      requires Valid() && !gameOver && InBounds(rows, cols, c) && !revealed[c.row, c.col]
      modifies this`minesLeft, flagged
      ensures Valid()
      ensures (c in FlaggedCells() <==> c !in old(FlaggedCells())) &&
        FlaggedCells() - {c} == old(FlaggedCells()) - {c} &&
        minesLeft == old(minesLeft) + (if c in FlaggedCells() then -1 else 1)
    {
      ghost var before := FlaggedCells();
      flagged[c.row, c.col] := !flagged[c.row, c.col];
      minesLeft := minesLeft + (if flagged[c.row, c.col] then -1 else 1);
      assert InPlay();
      ghost var after := FlaggedCells();
      forall p ensures p in after <==> if p == c then c !in before else p in before {
      }
      FlipCount(before, after, c);
    }

    /** Flipping one element in or out of a set changes its size by one. */
    lemma FlipCount(before: set<Cell>, after: set<Cell>, c: Cell)
      requires forall p :: p in after <==> if p == c then c !in before else p in before
      ensures c in after ==> |after| == |before| + 1
      ensures c !in after ==> |before| == |after| + 1
    {
      if c in after {
        assert after == before + {c};
      } else {
        assert before == after + {c};
      }
    }

    /** The on-board cells around (row, col), in the order of the offset loops. */
    method GetSurroundingCells(row: int, col: int) returns (cells: seq<Cell>)
      ensures cells == Neighbours(rows, cols, Cell(row, col))
    {
      var c := Cell(row, col);
      cells := [];
      for i := -1 to 2
        invariant Sorted(cells)
        invariant forall p :: p in cells ==> p.row < row + i
        invariant forall p :: p in cells <==> InBounds(rows, cols, p) && Adjacent(p, c) && p.row < row + i
      {
        for j := -1 to 2
          invariant Sorted(cells)
          invariant forall p :: p in cells ==> Before(p, Cell(row + i, col + j))
          invariant forall p :: p in cells <==>
            InBounds(rows, cols, p) && Adjacent(p, c) && Before(p, Cell(row + i, col + j))
        {
          if i == 0 && j == 0 {
            continue;
          }
          var newRow, newCol := row + i, col + j;
          if IsValidCell(newRow, newCol) {
            cells := cells + [Cell(newRow, newCol)];
          }
        }
      }
      SortedUnique(cells, Neighbours(rows, cols, c));
    }

    /** The cells of the board that are neither revealed nor flagged, in row-major order. */
    method GetUnrevealedCells() returns (cells: seq<Cell>)
      requires Shape()
      ensures Sorted(cells)
      ensures forall p :: p in cells <==> Unrevealed(p)
    {
      cells := [];
      for i := 0 to rows
        invariant Sorted(cells)
        invariant forall p :: p in cells ==> p.row < i
        invariant forall p :: p in cells <==> Unrevealed(p) && p.row < i
      {
        for j := 0 to cols
          invariant Sorted(cells)
          invariant forall p :: p in cells ==> Before(p, Cell(i, j))
          invariant forall p :: p in cells <==> Unrevealed(p) && Before(p, Cell(i, j))
        {
          if !revealed[i, j] && !flagged[i, j] {
            cells := cells + [Cell(i, j)];
          }
        }
      }
    }

    /** The cells of `cells` that are neither revealed nor flagged, in their order. */
    function UnrevealedAmong(cells: seq<Cell>): (r: seq<Cell>)
      reads this`board, this`revealed, this`flagged, revealed, flagged
      requires Shape()
      requires forall i :: 0 <= i < |cells| ==> InBounds(rows, cols, cells[i])
      ensures |r| <= |cells|
      ensures forall p :: p in r <==> p in cells && Unrevealed(p)
      ensures Sorted(cells) ==> Sorted(r)
    {
      if cells == [] then []
      else
        var rest := UnrevealedAmong(cells[1..]);
        TailOf(cells);
        if Unrevealed(cells[0]) then
          HeadBeforeRest(cells, rest);
          [cells[0]] + rest
        else rest
    }

    /** The flagged cells of `cells`, in their order. */
    function FlaggedAmong(cells: seq<Cell>): (r: seq<Cell>)
      reads this`board, this`revealed, this`flagged, flagged
      requires Shape()
      requires forall i :: 0 <= i < |cells| ==> InBounds(rows, cols, cells[i])
      ensures |r| <= |cells|
      ensures forall p :: p in r <==> p in cells && IsFlagged(p)
      ensures Sorted(cells) ==> Sorted(r)
    {
      if cells == [] then []
      else
        var rest := FlaggedAmong(cells[1..]);
        TailOf(cells);
        if IsFlagged(cells[0]) then
          HeadBeforeRest(cells, rest);
          [cells[0]] + rest
        else rest
    }

    /** How close cell is to a revealed safe cell q: its Manhattan distance, or
        Infinite when q is hidden or a mine. */
    function Reach(c: Cell, a: int, b: int): Distance
      reads this`board, this`revealed, this`flagged, board, revealed
      requires Shape() && 0 <= a < rows && 0 <= b < cols
    {
      if revealed[a, b] && board[a, b] != -1 then Finite(Manhattan(c, Cell(a, b))) else Infinite
    }

    /** The least Reach over the first j cells of row a. */
    function RowMin(c: Cell, a: int, j: int): Distance
      reads this`board, this`revealed, this`flagged, board, revealed
      requires Shape() && 0 <= a < rows && 0 <= j <= cols
    {
      if j == 0 then Infinite else Min(RowMin(c, a, j - 1), Reach(c, a, j - 1))
    }

    /** The least Reach over the first i rows. */
    function GridMin(c: Cell, i: int): Distance
      reads this`board, this`revealed, this`flagged, board, revealed
      requires Shape() && 0 <= i <= rows
    {
      if i == 0 then Infinite else Min(GridMin(c, i - 1), RowMin(c, i - 1, cols))
    }

    /** The distance from c to the nearest revealed safe cell; Infinite if there is none. */
    function MinDistance(c: Cell): Distance
      reads this`board, this`revealed, this`flagged, board, revealed
      requires Shape()
    {
      GridMin(c, rows)
    }

    /** The scan over the whole board that computes MinDistance. */
    method GetMinDistanceToRevealedCell(c: Cell) returns (minDistance: Distance)
      requires Shape()
      ensures minDistance == MinDistance(c)
    {
      minDistance := Infinite;
      for i := 0 to rows
        invariant minDistance == GridMin(c, i)
      {
        for j := 0 to cols
          invariant minDistance == Min(GridMin(c, i), RowMin(c, i, j))
        {
          if revealed[i, j] && board[i, j] != -1 {
            var distance := Abs(c.row - i) + Abs(c.col - j);
            MinAssociative(GridMin(c, i), RowMin(c, i, j), Finite(distance));
            minDistance := Min(minDistance, Finite(distance));
          } else {
            MinAssociative(GridMin(c, i), RowMin(c, i, j), Infinite);
          }
        }
      }
    }

    /** MinDistance(c) is below no revealed safe cell's distance, and it is the
        distance of one of them, or Infinite exactly when there is none. */
    lemma {:induction false} MinDistanceIsLeast(c: Cell)
      requires Shape()
      ensures forall a, b :: 0 <= a < rows && 0 <= b < cols && revealed[a, b] && board[a, b] != -1 ==>
        !Less(Finite(Manhattan(c, Cell(a, b))), MinDistance(c))
      ensures MinDistance(c) == Infinite <==>
        forall a, b :: 0 <= a < rows && 0 <= b < cols ==> !(revealed[a, b] && board[a, b] != -1)
      ensures MinDistance(c).Finite? ==>
        exists a, b :: 0 <= a < rows && 0 <= b < cols && revealed[a, b] && board[a, b] != -1 &&
          MinDistance(c) == Finite(Manhattan(c, Cell(a, b)))
    {
      GridMinIsLeast(c, rows);
      forall a, b | 0 <= a < rows && 0 <= b < cols && revealed[a, b] && board[a, b] != -1
        ensures !Less(Finite(Manhattan(c, Cell(a, b))), MinDistance(c))
      {
        assert Reach(c, a, b) == Finite(Manhattan(c, Cell(a, b)));
      }
    }

    lemma {:induction false} GridMinIsLeast(c: Cell, i: int)
      requires Shape() && 0 <= i <= rows
      ensures forall a, b :: 0 <= a < i && 0 <= b < cols ==> !Less(Reach(c, a, b), GridMin(c, i))
      ensures GridMin(c, i) == Infinite || exists a, b :: 0 <= a < i && 0 <= b < cols && GridMin(c, i) == Reach(c, a, b)
    {
      if i > 0 {
        GridMinIsLeast(c, i - 1);
        RowMinIsLeast(c, i - 1, cols);
        MinIsLeast(GridMin(c, i - 1), RowMin(c, i - 1, cols));
        forall a, b | 0 <= a < i && 0 <= b < cols ensures !Less(Reach(c, a, b), GridMin(c, i)) {
          NotBelowMin(Reach(c, a, b), GridMin(c, i - 1), RowMin(c, i - 1, cols));
        }
      }
    }

    lemma {:induction false} RowMinIsLeast(c: Cell, a: int, j: int)
      requires Shape() && 0 <= a < rows && 0 <= j <= cols
      ensures forall b :: 0 <= b < j ==> !Less(Reach(c, a, b), RowMin(c, a, j))
      ensures RowMin(c, a, j) == Infinite || exists b :: 0 <= b < j && RowMin(c, a, j) == Reach(c, a, b)
    {
      if j > 0 {
        RowMinIsLeast(c, a, j - 1);
        MinIsLeast(RowMin(c, a, j - 1), Reach(c, a, j - 1));
        forall b | 0 <= b < j ensures !Less(Reach(c, a, b), RowMin(c, a, j)) {
          NotBelowMin(Reach(c, a, b), RowMin(c, a, j - 1), Reach(c, a, j - 1));
        }
      }
    }

    /** Every flag stands on a mine. */
    ghost predicate FlagsOnMines()
      reads this`board, this`revealed, this`flagged, this`Mines, flagged
      requires Shape()
    {
      FlaggedCells() <= Mines
    }

    /** A safe cell's number counts the mines among its on-board neighbours. */
    lemma NumberCountsNeighbours(c: Cell)
      requires Shape() && Consistent() && InBounds(rows, cols, c) && board[c.row, c.col] != -1
      ensures board[c.row, c.col] == CountIn(Neighbours(rows, cols, c), Mines)
    {
      assert Agrees(c.row, c.col);
      CountInBoundsOnly(rows, cols, Around(c), Mines);
    }

    /** While the game runs and every flag is on a mine, the mines among some
        cells are the flagged ones plus the mines among the unknown ones. */
    lemma {:induction false} CountSplit(s: seq<Cell>)
      requires Valid() && !gameOver && FlagsOnMines()
      requires forall i :: 0 <= i < |s| ==> InBounds(rows, cols, s[i])
      ensures CountIn(s, Mines) == |FlaggedAmong(s)| + CountIn(UnrevealedAmong(s), Mines)
    {
      if s != [] {
        var p := s[0];
        CountSplit(s[1..]);
        assert Agrees(p.row, p.col);
        if Unrevealed(p) {
          assert ([p] + UnrevealedAmong(s[1..]))[1..] == UnrevealedAmong(s[1..]);
        }
      }
    }
  }
}
