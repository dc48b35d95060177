/** The automated player of script.js, which differs from script_new.js after
    the first click: it first flags the hidden neighbours of the first number
    that still misses any mine at all, whether or not they must be mines, and
    only when no number misses a mine looks for a number whose flags match it.
    The file ends inside that second pass, before the test that decides
    whether it acts on a matching number, so the model reports every matching
    number the pass inspects, in its scan order, with the hidden neighbours it
    declares safe there. */
module AggressiveAutoPlay {
  import opened Grid
  import opened Game
  import AutoPlay

  /** The two board scans, in the order the player runs them. */
  datatype Pass = Suspicion | Matching

  datatype Action =
    | Stop                                        // the game is over
    | Corner                                      // no mines yet: open the top-left corner
    | FlagSuspects(at: Cell, cells: seq<Cell>)    // flag every hidden neighbour of `at`
    | SafeScan(found: seq<Found>)                 // the second pass, up to where the file ends

  /** A number whose flags match it, and its hidden neighbours, which the flags clear. */
  datatype Found = Found(at: Cell, safe: seq<Cell>)

  /** The test a pass applies to a revealed number at c. */
  predicate Hit(g: Minesweeper, pass: Pass, c: Cell)
    reads g, g.board, g.revealed, g.flagged
    requires g.Shape()
  {
    AutoPlay.Numbered(g, c) &&
    match pass
    case Suspicion =>
      |AutoPlay.Unknown(g, c)| > 0 && g.board[c.row, c.col] - |AutoPlay.Flags(g, c)| > 0
    case Matching =>
      |AutoPlay.Flags(g, c)| == g.board[c.row, c.col]
  }

  /** The pass finds nothing before c in row-major order. */
  ghost predicate ClearBefore(g: Minesweeper, pass: Pass, c: Cell)
    reads g, g.board, g.revealed, g.flagged
    requires g.Shape()
  {
    forall a, b :: 0 <= a < g.rows && 0 <= b < g.cols && Before(Cell(a, b), c) ==> !Hit(g, pass, Cell(a, b))
  }

  /** The pass finds nothing on the board. */
  ghost predicate Clear(g: Minesweeper, pass: Pass)
    reads g, g.board, g.revealed, g.flagged
    requires g.Shape()
  {
    forall a, b :: 0 <= a < g.rows && 0 <= b < g.cols ==> !Hit(g, pass, Cell(a, b))
  }

  /** c is where the pass stops: it holds there and nowhere before. */
  ghost predicate FirstHit(g: Minesweeper, pass: Pass, c: Cell)
    reads g, g.board, g.revealed, g.flagged
    requires g.Shape()
  {
    Hit(g, pass, c) && ClearBefore(g, pass, c)
  }

  /** The action the player takes on the board g. */
  ghost predicate Decided(g: Minesweeper, act: Action)
    reads g, g.board, g.revealed, g.flagged
    requires g.Shape()
  {
    if g.gameOver then act == Stop
    else if g.isFirstClick then act == Corner
    else
      match act
      case FlagSuspects(at, cells) =>
        FirstHit(g, Suspicion, at) && cells == AutoPlay.Unknown(g, at)
      case SafeScan(found) => Clear(g, Suspicion) && AllMatched(g, found)
      case _ => false
  }

  /** The cells of the entries, in order. */
  function Ats(found: seq<Found>): seq<Cell> {
    seq(|found|, k requires 0 <= k < |found| => found[k].at)
  }

  /** f pairs a number whose flags match it with its hidden neighbours. */
  ghost predicate Entry(g: Minesweeper, f: Found)
    reads g, g.board, g.revealed, g.flagged
    requires g.Shape()
  {
    InBounds(g.rows, g.cols, f.at) && Hit(g, Matching, f.at) && f.safe == AutoPlay.Unknown(g, f.at)
  }

  /** found is what the second pass computes before cell c: in scan order,
      every entry a number whose flags match it, paired with its hidden
      neighbours, and every such number before c listed. */
  ghost predicate Listing(g: Minesweeper, found: seq<Found>, c: Cell)
    reads g, g.board, g.revealed, g.flagged
    requires g.Shape()
  {
    Sorted(Ats(found)) &&
    (forall k :: 0 <= k < |found| ==> Before(found[k].at, c) && Entry(g, found[k])) &&
    (forall p {:trigger Hit(g, Matching, p)} :: InBounds(g.rows, g.cols, p) && Before(p, c) && Hit(g, Matching, p) ==>
      p in Ats(found))
  }

  /** found is what the second pass computes on the whole board. */
  ghost predicate AllMatched(g: Minesweeper, found: seq<Found>)
    reads g, g.board, g.revealed, g.flagged
    requires g.Shape()
  {
    Listing(g, found, Cell(g.rows, 0))
  }

  /** The second pass's result is determined by the board. */
  lemma MatchesUnique(g: Minesweeper, found: seq<Found>, other: seq<Found>)
    requires g.Shape() && AllMatched(g, found) && AllMatched(g, other)
    ensures found == other
  {
    var x, y := Ats(found), Ats(other);
    ListedCells(g, found);
    ListedCells(g, other);
    SortedUnique(x, y);
    forall k | 0 <= k < |found| ensures found[k] == other[k] {
      assert x[k] == y[k];
      assert Entry(g, found[k]) && Entry(g, other[k]);
    }
  }

  /** The cells of a complete listing are exactly the numbers whose flags match them. */
  lemma ListedCells(g: Minesweeper, found: seq<Found>)
    requires g.Shape() && AllMatched(g, found)
    ensures forall p :: p in Ats(found) <==> InBounds(g.rows, g.cols, p) && Hit(g, Matching, p)
  {
    forall p | p in Ats(found) ensures InBounds(g.rows, g.cols, p) && Hit(g, Matching, p) {
      var k :| 0 <= k < |found| && Ats(found)[k] == p;
      assert Entry(g, found[k]);
    }
  }

  /** When every flag is on a mine, no cell the second pass declares safe is a mine. */
  lemma MatchesAreSafe(g: Minesweeper, found: seq<Found>)
    requires g.Valid() && !g.gameOver && g.FlagsOnMines() && AllMatched(g, found)
    ensures forall k, p :: 0 <= k < |found| && p in found[k].safe ==> p !in g.Mines
  {
    forall k, p | 0 <= k < |found| && p in found[k].safe ensures p !in g.Mines {
      AutoPlay.SafeRuleSound(g, found[k].at);
    }
  }

  /** The first pass's test at cell (i, j), computed as the source computes
      it, together with the hidden neighbours it flags when the test holds. */
  method Test(g: Minesweeper, i: int, j: int) returns (hit: bool, cells: seq<Cell>)
    requires g.Shape() && 0 <= i < g.rows && 0 <= j < g.cols
    ensures hit == Hit(g, Suspicion, Cell(i, j))
    ensures hit ==> cells == AutoPlay.Unknown(g, Cell(i, j))
  {
    hit, cells := false, [];
    if g.revealed[i, j] && g.board[i, j] > 0 {
      var surroundingCells := g.GetSurroundingCells(i, j);
      var unrevealedCells := g.UnrevealedAmong(surroundingCells);
      var flaggedCells := g.FlaggedAmong(surroundingCells);
      hit, cells := |unrevealedCells| > 0 && g.board[i, j] - |flaggedCells| > 0, unrevealedCells;
    }
  }

  /** The first pass: rows then columns, stopping at the first hit. */
  method Scan(g: Minesweeper) returns (at: AutoPlay.Option<Cell>, cells: seq<Cell>)
    requires g.Shape()
    ensures at.Some? ==> FirstHit(g, Suspicion, at.value) && cells == AutoPlay.Unknown(g, at.value)
    ensures at.None? ==> Clear(g, Suspicion)
  {
    for i := 0 to g.rows
      invariant ClearBefore(g, Suspicion, Cell(i, 0))
    {
      at, cells := ScanRow(g, i);
      if at.Some? {
        return;
      }
      ClearNextRow(g, Suspicion, i);
    }
    ClearAll(g, Suspicion);
    at, cells := AutoPlay.None, [];
  }

  /** The column loop of the first pass over row i. */
  method ScanRow(g: Minesweeper, i: int) returns (at: AutoPlay.Option<Cell>, cells: seq<Cell>)
    requires g.Shape() && 0 <= i < g.rows && ClearBefore(g, Suspicion, Cell(i, 0))
    ensures at.Some? ==> FirstHit(g, Suspicion, at.value) && cells == AutoPlay.Unknown(g, at.value)
    ensures at.None? ==> ClearBefore(g, Suspicion, Cell(i, g.cols))
  {
    for j := 0 to g.cols
      invariant ClearBefore(g, Suspicion, Cell(i, j))
    {
      var hit;
      hit, cells := Test(g, i, j);
      if hit {
        return AutoPlay.Some(Cell(i, j)), cells;
      }
      ClearStep(g, Suspicion, i, j);
    }
    at, cells := AutoPlay.None, [];
  }

  lemma ClearStep(g: Minesweeper, pass: Pass, i: int, j: int)
    requires g.Shape() && ClearBefore(g, pass, Cell(i, j)) && !Hit(g, pass, Cell(i, j))
    ensures ClearBefore(g, pass, Cell(i, j + 1))
  {
    forall a, b | 0 <= a < g.rows && 0 <= b < g.cols && Before(Cell(a, b), Cell(i, j + 1))
      ensures !Hit(g, pass, Cell(a, b))
    {
      if (a, b) != (i, j) {
        assert Before(Cell(a, b), Cell(i, j));
      }
    }
  }

  lemma ClearNextRow(g: Minesweeper, pass: Pass, i: int)
    requires g.Shape() && ClearBefore(g, pass, Cell(i, g.cols))
    ensures ClearBefore(g, pass, Cell(i + 1, 0))
  {
  }

  lemma ClearAll(g: Minesweeper, pass: Pass)
    requires g.Shape() && ClearBefore(g, pass, Cell(g.rows, 0))
    ensures Clear(g, pass)
  {
  }

  /** The two passes of script.js, without acting on what they find. */
  method Decide(g: Minesweeper) returns (act: Action)
    requires g.Shape()
    ensures Decided(g, act)
  {
    if g.gameOver {
      return Stop;
    }
    if g.isFirstClick {
      return Corner;
    }
    var at, unrevealedCells := Scan(g);
    if at.Some? {
      return FlagSuspects(at.value, unrevealedCells);
    }
    act := SafePass(g);
  }

  /** The second pass, run when the first finds nothing. */
  method SafePass(g: Minesweeper) returns (act: Action)
    requires g.Shape() && !g.gameOver && !g.isFirstClick && Clear(g, Suspicion)
    ensures Decided(g, act)
  {
    var found := CollectMatches(g);
    act := SafeScan(found);
  }

  /** The row loop of the second pass. */
  method CollectMatches(g: Minesweeper) returns (found: seq<Found>)
    requires g.Shape()
    ensures AllMatched(g, found)
  {
    found := [];
    for i := 0 to g.rows
      invariant Listing(g, found, Cell(i, 0))
    {
      found := MatchRow(g, i, found);
    }
  }

  /** The column loop of the second pass over row i, appending to what the
      rows before found. The hidden and flagged neighbours are filtered from
      the cells `getSurroundingCells` returns, here its specification
      `Neighbours`. */
  method MatchRow(g: Minesweeper, i: int, before: seq<Found>) returns (found: seq<Found>)
    requires g.Shape() && 0 <= i < g.rows && Listing(g, before, Cell(i, 0))
    ensures Listing(g, found, Cell(i + 1, 0))
  {
    found := before;
    for j := 0 to g.cols
      invariant Listing(g, found, Cell(i, j))
    {
      ghost var prev := found;
      if g.revealed[i, j] && g.board[i, j] > 0 {
        var surroundingCells := Neighbours(g.rows, g.cols, Cell(i, j));
        var flaggedCells := g.FlaggedAmong(surroundingCells);
        if |flaggedCells| == g.board[i, j] {
          var safeCells := g.UnrevealedAmong(surroundingCells);
          found := found + [Found(Cell(i, j), safeCells)];
          assert Entry(g, Found(Cell(i, j), safeCells));
          ListingAppend(g, prev, Cell(i, j), safeCells);
        }
      }
      if found == prev {
        ListingSkip(g, found, i, j);
      }
    }
  }

  /** A matching number at c extends the listing before c to the listing before
      the next cell. */
  lemma ListingAppend(g: Minesweeper, found: seq<Found>, c: Cell, safe: seq<Cell>)
    requires g.Shape() && InBounds(g.rows, g.cols, c) && c.col + 1 <= g.cols
    requires Listing(g, found, c) && Entry(g, Found(c, safe))
    ensures Listing(g, found + [Found(c, safe)], Cell(c.row, c.col + 1))
  {
    var f := found + [Found(c, safe)];
    AtsAppend(found, Found(c, safe));
    AppendSorted(found, c, Ats(f));
    forall p | InBounds(g.rows, g.cols, p) && Before(p, Cell(c.row, c.col + 1)) && Hit(g, Matching, p)
      ensures p in Ats(f)
    {
      if p != c {
        assert Before(p, c);
        assert p in Ats(found);
      }
    }
    forall k | 0 <= k < |f| ensures Before(f[k].at, Cell(c.row, c.col + 1)) && Entry(g, f[k]) {
      if k < |found| {
        assert f[k] == found[k];
      }
    }
  }

  lemma AtsAppend(found: seq<Found>, x: Found)
    ensures Ats(found + [x]) == Ats(found) + [x.at]
  {
  }

  /** Appending c after cells that all come before it keeps them sorted. */
  lemma AppendSorted(found: seq<Found>, c: Cell, cells: seq<Cell>)
    requires Sorted(Ats(found)) && forall k :: 0 <= k < |found| ==> Before(found[k].at, c)
    requires cells == Ats(found) + [c]
    ensures Sorted(cells)
  {
  }

  /** A cell where the flags do not match extends the listing unchanged. */
  lemma ListingSkip(g: Minesweeper, found: seq<Found>, i: int, j: int)
    requires g.Shape() && 0 <= i < g.rows && 0 <= j < g.cols && Listing(g, found, Cell(i, j))
    requires !(g.revealed[i, j] && g.board[i, j] > 0 &&
               |g.FlaggedAmong(Neighbours(g.rows, g.cols, Cell(i, j)))| == g.board[i, j])
    ensures Listing(g, found, Cell(i, j + 1))
  {
    assert !Hit(g, Matching, Cell(i, j));
    forall a, b | 0 <= a < g.rows && 0 <= b < g.cols && Before(Cell(a, b), Cell(i, j + 1)) && Hit(g, Matching, Cell(a, b))
      ensures Cell(a, b) in Ats(found)
    {
      assert Before(Cell(a, b), Cell(i, j));
    }
  }

  /** The suspicion pass flags a safe cell whenever a number misses fewer
      mines than it has hidden neighbours, even when every flag so far was
      right. */
  lemma SuspicionFlagsSafeCell(g: Minesweeper, c: Cell)
    requires g.Valid() && !g.gameOver && g.FlagsOnMines()
    requires Hit(g, Suspicion, c)
    requires g.board[c.row, c.col] - |AutoPlay.Flags(g, c)| < |AutoPlay.Unknown(g, c)|
    ensures exists p :: p in AutoPlay.Unknown(g, c) && p !in g.Mines
  {
    var n := Neighbours(g.rows, g.cols, c);
    g.NumberCountsNeighbours(c);
    g.CountSplit(n);
    var u := AutoPlay.Unknown(g, c);
    var i :| 0 <= i < |u| && u[i] !in g.Mines;
    assert u[i] in u;
  }

  /** When a number misses exactly as many mines as it has hidden neighbours,
      the suspicion pass is the sound mine rule. */
  lemma SuspicionExactIsSound(g: Minesweeper, c: Cell)
    requires g.Valid() && !g.gameOver && g.FlagsOnMines()
    requires Hit(g, Suspicion, c)
    requires g.board[c.row, c.col] - |AutoPlay.Flags(g, c)| == |AutoPlay.Unknown(g, c)|
    ensures forall p :: p in AutoPlay.Unknown(g, c) ==> p in g.Mines
  {
    AutoPlay.MineRuleSound(g, c);
  }

  /** What taking act did to a game that was s before: the corner is the
      game's click on (0, 0), the suspicion pass adds exactly its cells to the
      flags, and the rest change nothing. */
  ghost predicate Made(g: Minesweeper, act: Action, picks: seq<Cell>, s: AutoPlay.Snapshot)
    reads g, g.board, g.revealed, g.flagged
    requires g.Shape()
  {
    (act == Stop || act.SafeScan? ==> AutoPlay.Snap(g) == s) &&
    (act == Corner ==> AutoPlay.Clicked(g, Cell(0, 0), picks, s)) &&
    (act.FlagSuspects? ==>
      AutoPlay.Snap(g) == s.(flags := g.FlaggedCells(), left := s.left - |act.cells|) &&
      (forall p :: p in g.FlaggedCells() <==> p in s.flags || p in act.cells))
  }

  /** One call of script.js's `autoPlay`, up to where the file ends. */
  method AggressiveAutoPlay(g: Minesweeper, picks: seq<Cell>) returns (act: Action)
    requires g.Valid()
    requires !g.gameOver && g.isFirstClick ==>
      g.IsValidCell(0, 0) && (!g.flagged[0, 0] ==> g.PicksSuffice(picks, Cell(0, 0)))
    modifies g`gameOver, g`isFirstClick, g`Mines, g`minesLeft, g.board, g.revealed, g.flagged
    ensures old(Decided(g, act))
    ensures g.Valid() && Made(g, act, picks, old(AutoPlay.Snap(g)))
  {
    act := Decide(g);
    DecidedLegal(g, act);
    Take(g, act, picks);
  }

  /** What an action needs of the board it is taken on. */
  ghost predicate Legal(g: Minesweeper, act: Action)
    reads g, g.board, g.revealed, g.flagged
    requires g.Shape()
  {
    match act
    case Stop => g.gameOver
    case Corner => !g.gameOver && g.isFirstClick
    case FlagSuspects(at, cells) =>
      !g.gameOver && Sorted(cells) && forall p :: p in cells ==> g.Unrevealed(p)
    case _ => true
  }

  lemma DecidedLegal(g: Minesweeper, act: Action)
    requires g.Shape() && Decided(g, act)
    ensures Legal(g, act)
  {
  }

  /** Carry out a legal action: the corner click, or the flags of the
      suspicion pass. */
  method Take(g: Minesweeper, act: Action, picks: seq<Cell>)
    requires g.Valid() && Legal(g, act)
    requires act == Corner ==>
      g.IsValidCell(0, 0) && (!g.flagged[0, 0] ==> g.PicksSuffice(picks, Cell(0, 0)))
    modifies g`gameOver, g`isFirstClick, g`Mines, g`minesLeft, g.board, g.revealed, g.flagged
    ensures g.Valid() && Made(g, act, picks, old(AutoPlay.Snap(g)))
  {
    match act
    case Corner =>
      AutoPlay.Click(g, Cell(0, 0), picks);
    case FlagSuspects(at, cells) =>
      FlagAllSuspects(g, cells);
    case _ =>
  }

  /** `unrevealedCells.forEach(cell => this.toggleFlag(...))` in the suspicion pass. */
  method FlagAllSuspects(g: Minesweeper, cells: seq<Cell>)
    requires g.Valid() && !g.gameOver && Sorted(cells)
    requires forall p :: p in cells ==> g.Unrevealed(p)
    modifies g`minesLeft, g.flagged
    ensures g.Valid()
    ensures AutoPlay.Snap(g) == old(AutoPlay.Snap(g)).(flags := g.FlaggedCells(), left := old(g.minesLeft) - |cells|)
    ensures forall p :: p in g.FlaggedCells() <==> p in old(g.FlaggedCells()) || p in cells
  {
    assert forall i :: 0 <= i < |cells| ==> cells[i] in cells;
    AutoPlay.FlagCells(g, cells);
    assert g.Concealed() == old(g.Concealed());
  }
}
