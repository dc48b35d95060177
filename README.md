# Minesweeper, modelled in Dafny

A browser Minesweeper written as one JavaScript class, `Minesweeper`. The class
keeps three `rows x cols` grids. `board` holds -1 on a mine and the number of
neighbouring mines elsewhere. `revealed` and `flagged` record what the player
has done. The class also keeps the flags `gameOver` and `isFirstClick` and the
counter `minesLeft`. Mines are laid only at the first click, and never inside
the 3x3 block around it, so the first click always opens a 0. A click reveals
a cell. On a mine it ends the game and shows the whole board. On a 0 it
spreads to the eight neighbours, recursively. A right click toggles a flag.
The game is won once every safe cell is revealed.

The repository ships the class twice. `script.js` and `script_new.js` are
identical up to line 207. They differ only in `autoPlay`, the automated player:

- `script_new.js` scans the board in row-major order for the first revealed
  number where one of two rules fires:
  - the mine rule: the mines it still misses equal its hidden neighbours, so
    the player flags them all;
  - the safe rule: its flags already match it, so the player opens its first
    hidden neighbour.
  When no rule fires, the player guesses the first hidden cell at the least
  Manhattan distance from a revealed safe cell.
- `script.js` first flags every hidden neighbour of the first number that
  still misses any mine at all. Only when no number does that does it look for
  a number whose flags match it. The file ends in the middle of that second
  pass, at line 260.

The model is split into four files:

- `grid.dfy` (module `Grid`): cells, the eight-cell neighbourhood in the
  game's order, row-major order, counting mines, and the random picks that
  place the mines.
- `game.dfy` (module `Game`): the class `Minesweeper`.
  - It keeps the three grids as `array2` fields and a ghost set `Mines`.
  - `Valid()` ties the fields together:
    - the board agrees with the mines;
    - no mines exist before the first click;
    - `minesLeft` is `mines` minus the flags;
    - while the game runs, no revealed cell is flagged or a mine.
  - The public operations keep `Valid()` and state the new state: the
    constructor, `Reset`, `HandleClick`, `ToggleFlag` and both automated
    players. The steps inside them (`InitializeBoard`, `PlaceMines`,
    `AddMine`, `BumpNeighbours`, `RevealAll`) state what they change on the
    grids, and their callers restore `Valid()`.
- `autoplay.dfy` (module `AutoPlay`): one call of `script_new.js`'s
  `autoPlay`.
  - `Decide` is a read-only scan that names the move. It is proved to return
    the unique move that the ghost predicate `Decided` describes.
  - `AutoPlay` makes that move with the game's own click and right-click.
  - Lemmas show that both rules are sound whenever every flag sits on a mine.
- `aggressive.dfy` (module `AggressiveAutoPlay`): one call of `script.js`'s
  `autoPlay`, with the same decide-then-act split.
  - A lemma shows that its first pass can flag a safe cell even when every
    earlier flag was right.
  - Its second pass is modelled up to where the file ends. It lists every
    number whose flags match it, in scan order, with the hidden neighbours
    those flags clear.

A few behaviours of the source are kept on purpose:

- A loss also reports a win. `reveal` shows the whole board on a mine, so the
  win check that `handleClick` runs next succeeds. `HandleClick` returns that
  check as `winAlert`, and its contract says it is true on a loss.
- `minesLeft` goes negative when the player places more flags than there are
  mines.

## Model

| member | source | states |
|---|---|---|
| Game.Minesweeper.constructor | script_new.js:2-17 | The new game has the given size and mine count, ten of each unless given, is valid, has a blank board, awaits its first click, is not over, and shows every mine as left. |
| Game.Minesweeper.IsValidCell | script_new.js:86-88 | True exactly when the row lies in 0 to rows - 1 and the column in 0 to cols - 1. |
| Game.Minesweeper.InitializeBoard | script_new.js:19-29 | Three fresh `rows x cols` grids: all zeros, nothing revealed, nothing flagged. |
| Game.Minesweeper.Reset | script_new.js:188-199 | Back to a valid blank game on fresh grids: not over, awaiting the first click, with all mines left. |
| Game.Minesweeper.BumpNeighbours | script_new.js:72-81 | Every safe on-board neighbour of the new mine gains one. Every other cell, mines included, keeps its value. |
| Game.Minesweeper.AddMine | script_new.js:67-81 | Placing a mine on a safe cell adds exactly that cell to the mines and keeps the board consistent: -1 on the mines, the mine count elsewhere. |
| Game.Minesweeper.PlaceMines | script_new.js:56-84 | The mines are the first `mines` distinct picks outside the 3x3 block around the first click, and the board is consistent with them. |
| Game.Minesweeper.ClearBlockShowsZero | script_new.js:62-65 | When no mine lies in the 3x3 block around a cell, that cell shows 0. So the first click always opens a 0. |
| Game.Minesweeper.ZeroHasNoMineAround | script_new.js:122-130 | A cell showing 0 has no mine among its eight neighbours, so the flood fill never opens a mine. |
| Game.Minesweeper.NumberCountsNeighbours | script_new.js:67-81 | A safe cell's number is the number of mines among the neighbours `getSurroundingCells` lists. |
| Game.Minesweeper.StartGame | script_new.js:93-97 | The first click places the mines from the picks, clears the first-click flag, and leaves the clicked cell showing 0, with nothing revealed yet. |
| Game.Minesweeper.Reveal | script_new.js:109-131 | Off-board, already revealed or flagged: nothing changes. On a mine: game over with the whole board shown. On a safe cell: the game goes on, the cell is revealed, and what got revealed is a flood fill. Every newly revealed cell is on the board, safe and unflagged. Each one is the start or has a ranked predecessor: a revealed 0 next to it that was reached earlier. Every newly revealed 0 has all its hidden neighbours flagged. No revealed cell is hidden again. |
| Game.Minesweeper.SpreadReaches | script_new.js:122-130 | Every cell a flood fill reveals ends a chain of revealed cells that starts at the clicked cell. Consecutive cells in the chain touch, and every cell but the last shows 0. |
| Game.Minesweeper.RevealAround | script_new.js:122-130 | After the eight recursive calls around a revealed 0, the fill invariant holds and every hidden neighbour of the 0 is flagged. |
| Game.Minesweeper.RevealNeighbour | script_new.js:124-128 | One recursive call of the neighbour loop keeps the fill invariant and settles one more neighbour offset. |
| Game.Minesweeper.RevealAll | script_new.js:170-177 | Every cell is revealed. |
| Game.Minesweeper.CheckWin | script_new.js:179-186 | True exactly when every safe cell is revealed. |
| Game.Minesweeper.HandleClick | script_new.js:90-107 | Over or flagged: nothing changes and no alert. No revealed cell is ever hidden again. Otherwise the click ends the first-click phase, places the mines on a first click, reveals the cell and returns the win check. On a mine: game over, board shown, and the win alert fires too. On a safe cell: a flood fill from the cell, as for Reveal, and the game is over exactly when it is won. |
| Game.Minesweeper.Open | script_new.js:99-106 | Reveal followed by the win check. No revealed cell is hidden again. On a mine: game over with the board shown and the alert. On a safe cell: a flood fill from the cell, and the game is over exactly when it is won. |
| Game.Minesweeper.EndIfWon | script_new.js:102-106 | The result is the win check. The game is over afterwards exactly when it was over before or is won. |
| Game.Minesweeper.ToggleFlag | script_new.js:133-140 | Over or revealed: no change. Otherwise exactly this cell's flag flips, and `minesLeft` drops by one on a new flag and rises by one on a removed flag. |
| Game.Minesweeper.GetSurroundingCells | script_new.js:291-304 | Exactly the on-board neighbours of the cell, in the order of the offset loops. |
| Game.Minesweeper.GetUnrevealedCells | script_new.js:306-316 | Exactly the hidden, unflagged cells, in row-major order. |
| Game.Minesweeper.UnrevealedAmong | script_new.js:224-226 | The filter keeps exactly the listed cells that are hidden and unflagged, in their order. |
| Game.Minesweeper.FlaggedAmong | script_new.js:227-229 | The filter keeps exactly the listed cells that are flagged, in their order. |
| Game.Minesweeper.GetMinDistanceToRevealedCell | script_new.js:278-289 | The scan returns MinDistance: the least Manhattan distance to a revealed safe cell, or Infinity when there is none. |
| Game.Minesweeper.MinDistanceIsLeast | script_new.js:278-289 | MinDistance is below no candidate. It is Infinity exactly when no revealed safe cell exists, and otherwise it is attained by one. |
| Game.Minesweeper.CountSplit | script_new.js:222-229 | When every flag is on a mine, the mines among a cell's neighbours are its flags plus the mines among its hidden, unflagged neighbours. |
| Grid.Around | script_new.js:293-301 | The eight offsets are listed in row-major order, and a cell is listed exactly when it touches the centre. |
| Grid.Neighbours | script_new.js:291-304 | The in-bounds neighbours, sorted, each on the board, and every on-board cell touching the centre is listed. |
| Grid.CountInsert | script_new.js:72-81 | A new mine raises the count over a neighbour list by one exactly when the list holds it. |
| Grid.PicksFitRoom | script_new.js:58-65 | Picks on the board never offer more eligible cells than the board has outside the first click's block. |
| Grid.RoomGivesPicks | script_new.js:58-65 | When the mines fit outside the first click's block, some run of random picks places them all, so the precondition on picks can be met. |
| Grid.MinIsLeast | script_new.js:284 | `Math.min` returns one of its arguments and is below neither. |
| AutoPlay.Unknown | script_new.js:223-226 | The hidden, unflagged neighbours of a cell, sorted. A cell is listed exactly when it touches the centre and is hidden and unflagged. |
| AutoPlay.Flags | script_new.js:227-229 | The flagged neighbours of a cell, sorted. A cell is listed exactly when it touches the centre and is flagged. |
| AutoPlay.Consider | script_new.js:222-244 | At one cell, the scan acts exactly when a rule fires, and its move is that rule's move: flag every hidden neighbour, or open the first one. |
| AutoPlay.QuietStep | script_new.js:220-221 | A cell where no rule fires extends the quiet prefix of the row-major scan by one cell. |
| AutoPlay.Fallback | script_new.js:250-270 | The guess is the first hidden cell at the least finite distance. With no hidden cell at a finite distance, there is no move. |
| AutoPlay.Decide | script_new.js:208-270 | Over: idle. Before the first click: the corner. Otherwise the rule move at the first cell where a rule fires. With none, the guess or no move. |
| AutoPlay.DecidedUnique | script_new.js:208-270 | Exactly one move meets this description on a given board. |
| AutoPlay.FirstFiring | script_new.js:220-221 | The scan stops at one cell: two first firing cells are the same cell. |
| AutoPlay.MineRuleSound | script_new.js:231-237 | When every flag is on a mine, the mine rule flags only mines. |
| AutoPlay.MineRuleCells | script_new.js:223-237 | The cells the mine rule flags are hidden, listed in row-major order, and all mines whenever every flag is on a mine. |
| AutoPlay.SafeRuleSound | script_new.js:239-243 | When every flag is on a mine, a number whose flags match it has no mine among its hidden neighbours, so the safe rule's click does not lose. |
| AutoPlay.FlagCells | script_new.js:234-237 | The flags afterwards are the old flags plus exactly the listed cells, and `minesLeft` drops by the number of listed cells. |
| AutoPlay.Click | script_new.js:90-107 | The game's click as the player makes it. Over or flagged: nothing changes. Otherwise the first-click phase ends and the cell is revealed. No revealed cell is hidden again, and the flags and `minesLeft` stay. A first click lays the mines from the picks and opens a 0. A later click keeps the mines. On a mine: game over, board shown. Otherwise a flood fill from the cell, and the game is over exactly when every safe cell is revealed. |
| AutoPlay.DecidedLegal | script_new.js:208-270 | The decided move is one the board allows: its cells are hidden and its rule holds. |
| AutoPlay.AutoPlay | script_new.js:208-276 | The move made is the decided move. Idle and no move change nothing. The corner click, the safe rule's click and the guess each have the whole effect of the game's click on their cell, as stated for Click. The corner click also opens a 0. The mine rule adds exactly its cells to the flags and keeps every flag on a mine. The safe rule's cell is no mine when every flag was on a mine. The game stays valid. |
| AutoPlay.Play | script_new.js:211-270 | A legal move is carried out with the effect described for AutoPlay, each click with the whole effect of Click. |
| AutoPlay.OpenCorner | script_new.js:211-215 | The click on (0, 0) before the first click has the whole effect of Click. When (0, 0) is not flagged, the mines are laid from the picks and (0, 0) is revealed showing 0 with a flood fill around it. |
| AutoPlay.FlagMines | script_new.js:233-237 | Flagging the mine rule's cells adds exactly those flags and changes nothing else. Flags all on mines stay on mines. |
| AutoPlay.OpenSafeCell | script_new.js:240-242 | The safe rule's click has the whole effect of Click on its cell. That cell is not a mine when every flag was on a mine, so the click fills rather than loses. |
| AutoPlay.OpenGuess | script_new.js:266-268 | The guess has the whole effect of Click on the guessed cell: a loss with the board shown on a mine, otherwise a flood fill and the win check. |
| AggressiveAutoPlay.Test | script.js:224-235 | At one cell, the result is the first pass's test: a revealed number with a hidden neighbour and fewer flags around it than its value. When the test holds, its hidden neighbours are returned. |
| AggressiveAutoPlay.ScanRow | script.js:223-242 | The column loop of the first pass stops at the first hit in its row. If it does not stop, the row holds no hit. |
| AggressiveAutoPlay.Scan | script.js:222-243 | The first pass finds the first hit in row-major order and its hidden neighbours. Otherwise it reports no hit on the whole board. |
| AggressiveAutoPlay.ClearStep | script.js:222-223 | A cell without a hit extends the clear prefix of the scan by one cell. |
| AggressiveAutoPlay.Decide | script.js:209-259 | Over: stop. Before the first click: the corner. Otherwise the hidden neighbours of the first number missing any mine. Failing that, every number whose flags match it, in row-major order, each with its hidden neighbours. That is all the second pass computes before the file ends. |
| AggressiveAutoPlay.SafePass | script.js:245-259 | When the first pass found nothing, the result lists exactly the revealed numbers whose flags match them, in row-major order, each with its hidden neighbours. |
| AggressiveAutoPlay.CollectMatches | script.js:247-259 | The row loop of the second pass lists, in row-major order, exactly the numbers on the board whose flags match them, each with its hidden neighbours. |
| AggressiveAutoPlay.MatchRow | script.js:248-259 | The column loop over one row extends the listing of the earlier rows by exactly the matching numbers of this row, in column order. |
| AggressiveAutoPlay.ListingAppend | script.js:254-259 | A matching number appended with its hidden neighbours extends the listing past its cell: still sorted, and still complete. |
| AggressiveAutoPlay.ListingSkip | script.js:250-254 | A cell that is not a revealed number, or whose flags do not match it, extends the listing past its cell unchanged. |
| AggressiveAutoPlay.MatchesUnique | script.js:247-259 | One board admits only one complete listing, so the second pass's result is determined by the board. |
| AggressiveAutoPlay.ListedCells | script.js:247-259 | The cells in a complete listing are exactly the numbers on the board whose flags match them. |
| AggressiveAutoPlay.MatchesAreSafe | script.js:254-259 | When every flag is on a mine, no cell the second pass calls safe is a mine. |
| AggressiveAutoPlay.SuspicionFlagsSafeCell | script.js:233-240 | Even with every flag on a mine, when a number misses fewer mines than it has hidden neighbours, the pass flags a cell that is not a mine. |
| AggressiveAutoPlay.SuspicionExactIsSound | script.js:233-240 | When the missing mines equal the hidden neighbours, the pass flags only mines. |
| AggressiveAutoPlay.DecidedLegal | script.js:209-259 | The decided action is one the board allows. |
| AggressiveAutoPlay.AggressiveAutoPlay | script.js:209-260 | The action taken is the decided action. The corner click has the whole effect of the game's click, as stated for AutoPlay.Click. Flagging adds exactly the suspects to the flags and lowers `minesLeft` by their number, with nothing else changed. Stop and the second pass change nothing before the file ends. |
| AggressiveAutoPlay.Take | script.js:211-242 | A legal action is carried out with the effect described for AggressiveAutoPlay, the corner click with the whole effect of AutoPlay.Click. |
| AggressiveAutoPlay.FlagAllSuspects | script.js:236-239 | The flags afterwards are the old ones plus exactly the suspects. `minesLeft` drops by their number, and nothing else changes. |

## Left out

- Rendering (`renderBoard`, `setupEventListeners`, the `mineCount` and `timer` text), the timer (`startTimer`, `clearInterval`) and the `alert` pop-ups are user interface. The alerts are visible only as `HandleClick`'s `winAlert` result.
- The `setTimeout` that re-runs `autoPlay` after 300 ms: `AutoPlay` and `AggressiveAutoPlay` model one call each.
- `Math.random` becomes the parameter `picks`, the sequence of random cells `placeMines` draws. `PlaceMines` requires that the picks lie on the board and hold enough distinct cells outside the first click's block. The source loops until it finds them. `RoomGivesPicks` shows such picks exist whenever the mines fit.
- The global instance `new Minesweeper(10, 10, 90)` at script_new.js:320 is not modelled. The constructor takes the size and mine count as parameters, ten of each by default as in the source.
- AggressiveAutoPlay.SafePass: script.js breaks off at line 260, at the test that decides whether the second pass acts on a matching number. The model lists every matching number the pass reaches, with the cells it calls safe. It does not say which of them, if any, the lost code opens, or where the pass stops. `AggressiveAutoPlay` changes nothing in that case.
- AggressiveAutoPlay.MatchRow: it computes a cell's neighbours with `Neighbours`, the function that specifies `getSurroundingCells`, and does not call that method.
- Game.Minesweeper.HandleClick: requires a cell on the board. The board's listeners and `autoPlay` only click board cells. An off-board row would make the source throw.
- Game.Minesweeper.ToggleFlag: requires a cell on the board, for the same reason.
- AutoPlay.AutoPlay: for the first click it requires (0, 0) to be on the board, which fails only on an empty board.
- AutoPlay.AutoPlay: it does not say in so many words that the numbers on the board stay the same. They follow from the unchanged `Mines` through `Valid()`.
- JavaScript numbers are doubles. Every count here stays far below 2^53, so the model uses unbounded integers.
