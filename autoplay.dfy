/** One call of the automated player: it looks for a revealed number whose
    hidden neighbours are all mines (and flags them) or all safe (and opens
    the first), and otherwise guesses the hidden cell nearest to the revealed
    area. The choice and its execution are kept apart: Decide reads the board
    and names the move, AutoPlay makes it. */
module AutoPlay {
  import opened Grid
  import opened Game

  datatype Option<T> = None | Some(value: T)

  datatype Move =
    | Idle                                  // the game is over: nothing to do
    | FirstClick                            // no mines yet: open the top-left corner
    | FlagAll(at: Cell, cells: seq<Cell>)   // the hidden neighbours of `at` are mines
    | OpenSafe(at: Cell, cell: Cell)        // the hidden neighbours of `at` are safe
    | Guess(cell: Cell)                     // no rule applies: open the nearest hidden cell
    | NoMove                                // no rule applies and no hidden cell is near anything

  /** The hidden, unflagged on-board neighbours of c, in the game's order. */
  function Unknown(g: Minesweeper, c: Cell): (r: seq<Cell>)
    reads g, g.revealed, g.flagged
    requires g.Shape() && InBounds(g.rows, g.cols, c)
    ensures Sorted(r)
    ensures forall p :: p in r <==> Adjacent(p, c) && g.Unrevealed(p)
  {
    g.UnrevealedAmong(Neighbours(g.rows, g.cols, c))
  }

  /** The flagged on-board neighbours of c, in the game's order. */
  function Flags(g: Minesweeper, c: Cell): (r: seq<Cell>)
    reads g, g.flagged
    requires g.Shape() && InBounds(g.rows, g.cols, c)
    ensures Sorted(r)
    ensures forall p :: p in r <==> Adjacent(p, c) && g.IsFlagged(p)
  {
    g.FlaggedAmong(Neighbours(g.rows, g.cols, c))
  }

  /** c is a revealed cell showing a positive number. */
  predicate Numbered(g: Minesweeper, c: Cell)
    reads g, g.board, g.revealed
    requires g.Shape()
  {
    InBounds(g.rows, g.cols, c) && g.revealed[c.row, c.col] && g.board[c.row, c.col] > 0
  }

  /** The mines c still misses are exactly as many as its hidden neighbours. */
  predicate MineRule(g: Minesweeper, c: Cell)
    reads g, g.board, g.revealed, g.flagged
    requires g.Shape()
  {
    Numbered(g, c) && |Unknown(g, c)| > 0 &&
    g.board[c.row, c.col] - |Flags(g, c)| == |Unknown(g, c)|
  }

  /** The mine rule does not apply at c, but its flags already match its number. */
  predicate SafeRule(g: Minesweeper, c: Cell)
    reads g, g.board, g.revealed, g.flagged
    requires g.Shape()
  {
    Numbered(g, c) && |Unknown(g, c)| > 0 &&
    g.board[c.row, c.col] - |Flags(g, c)| != |Unknown(g, c)| &&
    |Flags(g, c)| == g.board[c.row, c.col]
  }

  predicate Fires(g: Minesweeper, c: Cell)
    reads g, g.board, g.revealed, g.flagged
    requires g.Shape()
  {
    MineRule(g, c) || SafeRule(g, c)
  }

  /** No cell before c in row-major order lets a rule fire. */
  ghost predicate QuietBefore(g: Minesweeper, c: Cell)
    reads g, g.board, g.revealed, g.flagged
    requires g.Shape()
  {
    forall a, b :: 0 <= a < g.rows && 0 <= b < g.cols && Before(Cell(a, b), c) ==> !Fires(g, Cell(a, b))
  }

  /** No cell of the board lets a rule fire. */
  ghost predicate Quiet(g: Minesweeper)
    reads g, g.board, g.revealed, g.flagged
    requires g.Shape()
  {
    forall a, b :: 0 <= a < g.rows && 0 <= b < g.cols ==> !Fires(g, Cell(a, b))
  }

  /** m is the move a rule prescribes at c. */
  ghost predicate RuleMoveAt(g: Minesweeper, c: Cell, m: Move)
    reads g, g.board, g.revealed, g.flagged
    requires g.Shape()
  {
    match m
    case FlagAll(at, cells) => at == c && MineRule(g, c) && cells == Unknown(g, c)
    case OpenSafe(at, cell) => at == c && SafeRule(g, c) && cell == Unknown(g, c)[0]
    case _ => false
  }

  /** m is the rule move at the first cell, in row-major order, where a rule fires. */
  ghost predicate Chosen(g: Minesweeper, m: Move)
    reads g, g.board, g.revealed, g.flagged
    requires g.Shape()
  {
    (m.FlagAll? || m.OpenSafe?) && RuleMoveAt(g, m.at, m) && QuietBefore(g, m.at)
  }

  /** p is a hidden cell at the least finite distance from the revealed safe
      cells, and the first such cell in row-major order. */
  ghost predicate Nearest(g: Minesweeper, p: Cell)
    reads g, g.board, g.revealed, g.flagged
    requires g.Shape()
  {
    g.Unrevealed(p) && g.MinDistance(p).Finite? &&
    (forall q :: g.Unrevealed(q) ==> !Less(g.MinDistance(q), g.MinDistance(p))) &&
    (forall q :: g.Unrevealed(q) && Before(q, p) ==> Less(g.MinDistance(p), g.MinDistance(q)))
  }

  /** The move the automated player makes on the board g. */
  ghost predicate Decided(g: Minesweeper, m: Move)
    reads g, g.board, g.revealed, g.flagged
    requires g.Shape()
  {
    if g.gameOver then m == Idle
    else if g.isFirstClick then m == FirstClick
    else
      Chosen(g, m) ||
      (Quiet(g) && m.Guess? && Nearest(g, m.cell)) ||
      (Quiet(g) && m == NoMove && forall q :: g.Unrevealed(q) ==> g.MinDistance(q) == Infinite)
  }

  /** Two cells that both fire, with nothing firing before either, are one cell. */
  lemma FirstFiring(g: Minesweeper, c: Cell, d: Cell)
    requires g.Shape() && Fires(g, c) && Fires(g, d) && QuietBefore(g, c) && QuietBefore(g, d)
    ensures c == d
  {
    assert !Before(c, d);
    assert !Before(d, c);
  }

  /** The board g admits one move only. */
  lemma DecidedUnique(g: Minesweeper, m: Move, m': Move)
    requires g.Shape() && Decided(g, m) && Decided(g, m')
    ensures m == m'
  {
    if !g.gameOver && !g.isFirstClick {
      assert Chosen(g, m) ==> Fires(g, m.at) && !Quiet(g);
      assert Chosen(g, m') ==> Fires(g, m'.at) && !Quiet(g);
      if Chosen(g, m) && Chosen(g, m') {
        FirstFiring(g, m.at, m'.at);
      }
      assert m.Guess? && Nearest(g, m.cell) ==> g.MinDistance(m.cell) != Infinite;
      assert m'.Guess? && Nearest(g, m'.cell) ==> g.MinDistance(m'.cell) != Infinite;
      if m.Guess? && m'.Guess? && Nearest(g, m.cell) && Nearest(g, m'.cell) {
        assert !Before(m.cell, m'.cell) && !Before(m'.cell, m.cell);
      }
    }
  }

  /** The scan of the automated player, without acting on what it finds:
      rows then columns until a rule fires, then the nearest hidden cell. */
  method Decide(g: Minesweeper) returns (m: Move)
    requires g.Shape()
    ensures Decided(g, m)
  {
    if g.gameOver {
      return Idle;
    }
    if g.isFirstClick {
      return FirstClick;
    }
    m := NoMove;
    var found := false;
    var i := 0;
    while i < g.rows && !found
      invariant 0 <= i <= g.rows
      invariant found ==> Chosen(g, m)
      invariant !found ==> QuietBefore(g, Cell(i, 0))
    {
      var j := 0;
      while j < g.cols && !found
        invariant 0 <= j <= g.cols
        invariant found ==> Chosen(g, m)
        invariant !found ==> QuietBefore(g, Cell(i, j))
      {
        m, found := Consider(g, i, j);
        if !found {
          QuietStep(g, i, j);
        }
        j := j + 1;
      }
      if !found {
        QuietNextRow(g, i);
      }
      i := i + 1;
    }
    if !found {
      QuietAll(g);
      m := Fallback(g);
    }
  }

  /** The scan's test at cell (i, j): the move a rule prescribes there, if any. */
  method Consider(g: Minesweeper, i: int, j: int) returns (m: Move, found: bool)
    requires g.Shape() && 0 <= i < g.rows && 0 <= j < g.cols
    ensures found ==> RuleMoveAt(g, Cell(i, j), m)
    ensures !found ==> !Fires(g, Cell(i, j))
  {
    m, found := NoMove, false;
    if g.revealed[i, j] && g.board[i, j] > 0 {
      var surroundingCells := g.GetSurroundingCells(i, j);
      var unrevealedCells := g.UnrevealedAmong(surroundingCells);
      var flaggedCells := g.FlaggedAmong(surroundingCells);
      if |unrevealedCells| > 0 {
        if g.board[i, j] - |flaggedCells| == |unrevealedCells| {
          m, found := FlagAll(Cell(i, j), unrevealedCells), true;
        } else if |flaggedCells| == g.board[i, j] {
          m, found := OpenSafe(Cell(i, j), unrevealedCells[0]), true;
        }
      }
    }
  }

  lemma QuietStep(g: Minesweeper, i: int, j: int)
    requires g.Shape() && QuietBefore(g, Cell(i, j)) && !Fires(g, Cell(i, j))
    ensures QuietBefore(g, Cell(i, j + 1))
  {
    forall a, b | 0 <= a < g.rows && 0 <= b < g.cols && Before(Cell(a, b), Cell(i, j + 1))
      ensures !Fires(g, Cell(a, b))
    {
      if (a, b) != (i, j) {
        assert Before(Cell(a, b), Cell(i, j));
      }
    }
  }

  lemma QuietNextRow(g: Minesweeper, i: int)
    requires g.Shape() && QuietBefore(g, Cell(i, g.cols))
    ensures QuietBefore(g, Cell(i + 1, 0))
  {
  }

  lemma QuietAll(g: Minesweeper)
    requires g.Shape() && QuietBefore(g, Cell(g.rows, 0))
    ensures Quiet(g)
  {
  }

  /** The guess when no rule fires: the first hidden cell whose distance to the
      revealed safe cells is strictly below that of every earlier one. */
  method Fallback(g: Minesweeper) returns (m: Move)
    requires g.Shape()
    ensures (m.Guess? && Nearest(g, m.cell)) ||
            (m == NoMove && forall q :: g.Unrevealed(q) ==> g.MinDistance(q) == Infinite)
  {
    m := NoMove;
    var unrevealedCells := g.GetUnrevealedCells();
    if |unrevealedCells| > 0 {
      var bestCell: Option<Cell> := None;
      var minDistance := Infinite;
      ghost var best := 0;
      for k := 0 to |unrevealedCells|
        invariant bestCell.None? ==> minDistance == Infinite
        invariant forall t :: 0 <= t < k ==> !Less(g.MinDistance(unrevealedCells[t]), minDistance)
        invariant bestCell.Some? ==>
          0 <= best < k && bestCell.value == unrevealedCells[best] &&
          minDistance == g.MinDistance(bestCell.value) && minDistance.Finite? &&
          forall t :: 0 <= t < best ==> Less(minDistance, g.MinDistance(unrevealedCells[t]))
      {
        var cell := unrevealedCells[k];
        var distance := g.GetMinDistanceToRevealedCell(cell);
        if Less(distance, minDistance) {
          minDistance, bestCell, best := distance, Some(cell), k;
        }
      }
      if bestCell.Some? {
        m := Guess(bestCell.value);
        forall q | g.Unrevealed(q) && Before(q, m.cell)
          ensures Less(g.MinDistance(m.cell), g.MinDistance(q))
        {
          var t :| 0 <= t < |unrevealedCells| && unrevealedCells[t] == q;
          SortedOrder(unrevealedCells, t, best);
        }
      }
    }
  }

  /** With every flag on a mine, the mine rule at c only names mines. */
  lemma MineRuleSound(g: Minesweeper, c: Cell)
    requires g.Valid() && !g.gameOver && g.FlagsOnMines()
    requires MineRule(g, c)
    ensures forall p :: p in Unknown(g, c) ==> p in g.Mines
  {
    var n := Neighbours(g.rows, g.cols, c);
    g.NumberCountsNeighbours(c);
    g.CountSplit(n);
    var u := Unknown(g, c);
    forall p | p in u ensures p in g.Mines {
      var i :| 0 <= i < |u| && u[i] == p;
    }
  }

  /** With every flag on a mine, a number whose flags match it has no mine
      among its hidden neighbours. */
  lemma SafeRuleSound(g: Minesweeper, c: Cell)
    requires g.Valid() && !g.gameOver && g.FlagsOnMines()
    requires Numbered(g, c) && |Flags(g, c)| == g.board[c.row, c.col]
    ensures forall p :: p in Unknown(g, c) ==> p !in g.Mines
  {
    var n := Neighbours(g.rows, g.cols, c);
    g.NumberCountsNeighbours(c);
    g.CountSplit(n);
    var u := Unknown(g, c);
    forall p | p in u ensures p !in g.Mines {
      var i :| 0 <= i < |u| && u[i] == p;
    }
  }

  /** `unrevealedCells.forEach(cell => this.toggleFlag(...))` over hidden,
      unflagged, distinct cells: each gets a flag, nothing else changes. */
  method FlagCells(g: Minesweeper, cells: seq<Cell>)
    requires g.Valid() && !g.gameOver && Sorted(cells)
    requires forall i :: 0 <= i < |cells| ==> g.Unrevealed(cells[i])
    modifies g`minesLeft, g.flagged
    ensures g.Valid()
    ensures forall p :: p in g.FlaggedCells() <==> p in old(g.FlaggedCells()) || p in cells
    ensures g.minesLeft == old(g.minesLeft) - |cells|
  {
    for k := 0 to |cells|
      invariant g.Valid()
      invariant forall p :: p in g.FlaggedCells() <==> p in old(g.FlaggedCells()) || p in cells[..k]
      invariant g.minesLeft == old(g.minesLeft) - k
    {
      var cell := cells[k];
      assert cell !in cells[..k] by {
        forall t | 0 <= t < k ensures cells[t] != cell {
          assert Before(cells[t], cell);
        }
      }
      assert old(g.Unrevealed(cell)) && !g.revealed[cell.row, cell.col];
      assert forall p :: p in cells[..k + 1] <==> p in cells[..k] || p == cell by {
        assert cells[..k + 1] == cells[..k] + [cell];
      }
      ghost var pre := g.FlaggedCells();
      assert cell !in pre;
      g.ToggleFlag(cell.row, cell.col);
      ghost var post := g.FlaggedCells();
      FlipAdds(pre, post, cell);
    }
    assert cells[..|cells|] == cells;
  }

  /** Flipping the flag of an unflagged cell adds it to the flags. */
  lemma FlipAdds(pre: set<Cell>, post: set<Cell>, c: Cell)
    requires c !in pre && (c in post <==> c !in pre) && post - {c} == pre - {c}
    ensures post == pre + {c}
  {
    assert post == (post - {c}) + {c};
  }

  /** One call of `autoPlay`: the move Decide names, carried out with the
      game's own click and right-click. `picks` stands for the random draws
      of the first click. */
  method AutoPlay(g: Minesweeper, picks: seq<Cell>) returns (m: Move)
    requires g.Valid()
    requires !g.gameOver && g.isFirstClick ==>
      g.IsValidCell(0, 0) && (!g.flagged[0, 0] ==> g.PicksSuffice(picks, Cell(0, 0)))
    modifies g`gameOver, g`isFirstClick, g`Mines, g`minesLeft, g.board, g.revealed, g.flagged
    ensures old(Decided(g, m))
    ensures g.Valid() && Made(g, m, picks, old(Snap(g)))
  {
    m := Decide(g);
    DecidedLegal(g, m);
    Play(g, m, picks);
  }

  /** The game as the player sees it: whether it is over or awaits its first
      click, the mine counter, the mines, the flags and the hidden cells. */
  datatype Snapshot = Snapshot(
    over: bool, first: bool, left: int,
    mines: set<Cell>, flags: set<Cell>, hidden: set<Cell>)

  ghost function Snap(g: Minesweeper): Snapshot
    reads g, g.revealed, g.flagged
    requires g.Shape()
  {
    Snapshot(g.gameOver, g.isFirstClick, g.minesLeft, g.Mines, g.FlaggedCells(), g.Concealed())
  }

  /** What the game's click on c did to a game that was s before: nothing
      when the game was over or c flagged; otherwise the first-click phase is
      over (with the mines laid from the picks around a 0 at c if it was the
      first click, and kept otherwise), c is revealed, no cell is hidden
      again, flags and counter are untouched, and either c was a mine and
      the game is over with the board shown, or a flood fill from c revealed
      what was hidden and is no longer, and the game is over exactly when
      every safe cell is revealed. */
  ghost predicate Clicked(g: Minesweeper, c: Cell, picks: seq<Cell>, s: Snapshot)
    reads g, g.board, g.revealed, g.flagged
    requires g.Shape()
  {
    if s.over || c in s.flags then Snap(g) == s
    else
      !g.isFirstClick && g.IsRevealed(c) && g.Concealed() <= s.hidden &&
      g.FlaggedCells() == s.flags && g.minesLeft == s.left &&
      (if s.first then g.PlacedFrom(picks, c) && g.ShowsZero(c) else g.Mines == s.mines) &&
      (c in g.Mines ==> g.gameOver && g.AllRevealed()) &&
      (c !in g.Mines ==>
        (g.gameOver <==> g.Cleared()) && g.FloodFill(c, s.hidden - g.Concealed(), g.Concealed()))
  }

  /** The game's click on the board cell c, as `autoPlay` makes it. */
  method Click(g: Minesweeper, c: Cell, picks: seq<Cell>)
    requires g.Valid() && g.IsValidCell(c.row, c.col)
    requires !g.gameOver && g.isFirstClick && !g.flagged[c.row, c.col] ==> g.PicksSuffice(picks, c)
    modifies g`gameOver, g`isFirstClick, g`Mines, g.board, g.revealed
    ensures g.Valid() && Clicked(g, c, picks, old(Snap(g)))
  {
    ghost var s := Snap(g);
    assert c in s.flags <==> g.flagged[c.row, c.col];
    var winAlert := g.HandleClick(c.row, c.col, picks);
    assert g.Agrees(c.row, c.col);
    assert g.FlaggedCells() == s.flags;
  }

  /** What making the move m did to a game that was s before: nothing when
      there is no move; a click move is the game's click on its cell; the
      mine rule adds exactly its cells to the flags and keeps every flag on a
      mine; the safe rule's click does not hit a mine. */
  ghost predicate Made(g: Minesweeper, m: Move, picks: seq<Cell>, s: Snapshot)
    reads g, g.board, g.revealed, g.flagged
    requires g.Shape()
  {
    (m == Idle || m == NoMove ==> Snap(g) == s) &&
    (m == FirstClick ==> Clicked(g, Cell(0, 0), picks, s)) &&
    (m.FlagAll? ==>
      Snap(g) == s.(flags := g.FlaggedCells(), left := s.left - |m.cells|) &&
      (forall p :: p in g.FlaggedCells() <==> p in s.flags || p in m.cells) &&
      (s.flags <= s.mines ==> g.FlaggedCells() <= g.Mines)) &&
    (m.OpenSafe? ==> Clicked(g, m.cell, picks, s) && (s.flags <= s.mines ==> m.cell !in g.Mines)) &&
    (m.Guess? ==> Clicked(g, m.cell, picks, s))
  }

  /** What a move needs of the board it is made on. */
  ghost predicate Legal(g: Minesweeper, m: Move)
    reads g, g.board, g.revealed, g.flagged
    requires g.Shape()
  {
    match m
    case Idle => g.gameOver
    case FirstClick => !g.gameOver && g.isFirstClick
    case FlagAll(at, cells) => !g.gameOver && MineRule(g, at) && cells == Unknown(g, at)
    case OpenSafe(at, cell) =>
      !g.gameOver && !g.isFirstClick && SafeRule(g, at) && cell == Unknown(g, at)[0]
    case Guess(cell) => !g.gameOver && !g.isFirstClick && g.Unrevealed(cell)
    case NoMove => true
  }

  lemma DecidedLegal(g: Minesweeper, m: Move)
    requires g.Shape() && Decided(g, m)
    ensures Legal(g, m)
  {
  }

  /** Carry out a legal move. */
  method Play(g: Minesweeper, m: Move, picks: seq<Cell>)
    requires g.Valid() && Legal(g, m)
    requires m == FirstClick ==>
      g.IsValidCell(0, 0) && (!g.flagged[0, 0] ==> g.PicksSuffice(picks, Cell(0, 0)))
    modifies g`gameOver, g`isFirstClick, g`Mines, g`minesLeft, g.board, g.revealed, g.flagged
    ensures g.Valid() && Made(g, m, picks, old(Snap(g)))
  {
    match m
    case FirstClick =>
      OpenCorner(g, picks);
    case FlagAll(at, cells) =>
      MineRuleCells(g, at);
      FlagMines(g, at, cells);
    case OpenSafe(at, cell) =>
      OpenSafeCell(g, at, cell, picks);
    case Guess(cell) =>
      OpenGuess(g, cell, picks);
    case _ =>
  }

  /** The first move: a click on the top-left corner. */
  method OpenCorner(g: Minesweeper, picks: seq<Cell>)
    requires g.Valid() && !g.gameOver && g.isFirstClick && g.IsValidCell(0, 0)
    requires !g.flagged[0, 0] ==> g.PicksSuffice(picks, Cell(0, 0))
    modifies g`gameOver, g`isFirstClick, g`Mines, g`minesLeft, g.board, g.revealed, g.flagged
    ensures g.Valid() && Made(g, FirstClick, picks, old(Snap(g)))
  {
    Click(g, Cell(0, 0), picks);
  }

  /** The cells the mine rule flags are hidden, in row-major order, and mines
      whenever every flag is on a mine. */
  lemma MineRuleCells(g: Minesweeper, at: Cell)
    requires g.Valid() && !g.gameOver && MineRule(g, at)
    ensures Sorted(Unknown(g, at))
    ensures forall i :: 0 <= i < |Unknown(g, at)| ==> g.Unrevealed(Unknown(g, at)[i])
    ensures g.FlagsOnMines() ==> forall p :: p in Unknown(g, at) ==> p in g.Mines
  {
    var cells := Unknown(g, at);
    if g.FlagsOnMines() {
      MineRuleSound(g, at);
    }
    assert forall i :: 0 <= i < |cells| ==> cells[i] in cells;
  }

  /** The mine rule's move at `at`: flag all its hidden neighbours. When every
      flag was on a mine, every flag still is. */
  method FlagMines(g: Minesweeper, at: Cell, cells: seq<Cell>)
    requires g.Valid() && !g.gameOver && Sorted(cells)
    requires forall i :: 0 <= i < |cells| ==> g.Unrevealed(cells[i])
    requires g.FlagsOnMines() ==> forall p :: p in cells ==> p in g.Mines
    modifies g`gameOver, g`isFirstClick, g`Mines, g`minesLeft, g.board, g.revealed, g.flagged
    ensures g.Valid() && Made(g, FlagAll(at, cells), [], old(Snap(g)))
  {
    FlagCells(g, cells);
    assert g.Concealed() == old(g.Concealed());
  }

  /** The guess: a click on the chosen hidden cell. */
  method OpenGuess(g: Minesweeper, cell: Cell, picks: seq<Cell>)
    requires g.Valid() && !g.gameOver && !g.isFirstClick && g.Unrevealed(cell)
    modifies g`gameOver, g`isFirstClick, g`Mines, g`minesLeft, g.board, g.revealed, g.flagged
    ensures g.Valid() && Made(g, Guess(cell), picks, old(Snap(g)))
  {
    Click(g, cell, picks);
  }

  /** The safe rule's action at `at`: click its first hidden neighbour. When
      every flag was on a mine, the click does not hit one. */
  method OpenSafeCell(g: Minesweeper, at: Cell, cell: Cell, picks: seq<Cell>)
    requires g.Valid() && !g.gameOver && !g.isFirstClick && SafeRule(g, at) && cell == Unknown(g, at)[0]
    modifies g`gameOver, g`isFirstClick, g`Mines, g`minesLeft, g.board, g.revealed, g.flagged
    ensures g.Valid() && Made(g, OpenSafe(at, cell), picks, old(Snap(g)))
  {
    assert cell in Unknown(g, at);
    if g.FlagsOnMines() {
      SafeRuleSound(g, at);
    }
    Click(g, cell, picks);
  }
}
