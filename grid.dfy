/** Board coordinates, the eight-cell neighbourhood, row-major order and the
    counting that a cell's number is made of. Nothing here touches the heap. */
module Grid {

  /** A board coordinate, as the `{ row, col }` objects the game passes around. */
  datatype Cell = Cell(row: int, col: int)

  function Abs(x: int): nat {
    if x < 0 then -x else x
  }

  /** City-block distance, as the automated player measures it. */
  function Manhattan(p: Cell, q: Cell): nat {
    Abs(p.row - q.row) + Abs(p.col - q.col)
  }

  /** A distance that may be the `Infinity` the source starts its minimum searches from. */
  datatype Distance = Finite(n: nat) | Infinite

  /** `Math.min` on distances. */
  function Min(a: Distance, b: Distance): Distance {
    if Less(b, a) then b else a
  }

  /** `<` on distances: nothing is below Infinity, and Infinity is below nothing. */
  predicate Less(a: Distance, b: Distance) {
    match (a, b)
    case (Finite(x), Finite(y)) => x < y
    case (Finite(_), Infinite) => true
    case (Infinite, _) => false
  }

  /** Min picks one of its arguments and is below neither. */
  lemma MinIsLeast(a: Distance, b: Distance)
    ensures Min(a, b) == a || Min(a, b) == b
    ensures !Less(a, Min(a, b)) && !Less(b, Min(a, b))
  {
  }

  /** Whatever is not below one of a and b is not below their minimum. */
  lemma NotBelowMin(x: Distance, a: Distance, b: Distance)
    requires !Less(x, a) || !Less(x, b)
    ensures !Less(x, Min(a, b))
  {
  }

  lemma MinAssociative(a: Distance, b: Distance, c: Distance)
    ensures Min(Min(a, b), c) == Min(a, Min(b, c))
  {
  }

  predicate InBounds(rows: int, cols: int, p: Cell) {
    0 <= p.row < rows && 0 <= p.col < cols
  }

  /** p and q are different cells that touch, diagonals included. */
  predicate Adjacent(p: Cell, q: Cell) {
    p != q && Abs(p.row - q.row) <= 1 && Abs(p.col - q.col) <= 1
  }

  /** p lies in the 3x3 block centred on c (c included). */
  predicate InZone(p: Cell, c: Cell) {
    Abs(p.row - c.row) <= 1 && Abs(p.col - c.col) <= 1
  }

  /** Row-major order: the order in which a row loop around a column loop visits cells. */
  predicate Before(p: Cell, q: Cell) {
    p.row < q.row || (p.row == q.row && p.col < q.col)
  }

  predicate Sorted(s: seq<Cell>) {
    forall i, j :: 0 <= i < j < |s| ==> Before(s[i], s[j])
  }

  /** The eight cells around c in the order of the game's offset loops:
      row offset -1..1 outside, column offset -1..1 inside, the centre skipped. */
  function Around(c: Cell): (s: seq<Cell>)
    ensures |s| == 8 && Sorted(s)
    ensures forall p :: p in s <==> Adjacent(p, c)
  {
    [Cell(c.row - 1, c.col - 1), Cell(c.row - 1, c.col), Cell(c.row - 1, c.col + 1),
     Cell(c.row, c.col - 1), Cell(c.row, c.col + 1),
     Cell(c.row + 1, c.col - 1), Cell(c.row + 1, c.col), Cell(c.row + 1, c.col + 1)]
  }

  /** How many entries of s lie in m. */
  function CountIn(s: seq<Cell>, m: set<Cell>): (n: nat)
    ensures n <= |s|
    ensures n == 0 <==> forall i :: 0 <= i < |s| ==> s[i] !in m
    ensures n == |s| <==> forall i :: 0 <= i < |s| ==> s[i] in m
  {
    if s == [] then 0
    else
      var rest := CountIn(s[1..], m);
      assert forall i :: 1 <= i < |s| ==> s[i] == s[1..][i - 1];
      (if s[0] in m then 1 else 0) + rest
  }

  /** The number a safe cell at c shows when the mines are m: its mine neighbours. */
  function MineCount(m: set<Cell>, c: Cell): nat {
    CountIn(Around(c), m)
  }

  /** Adding one mine x raises the count over a duplicate-free list by one exactly when x is listed. */
  lemma {:induction false} CountInsert(s: seq<Cell>, m: set<Cell>, x: Cell)
    requires Sorted(s) && x !in m
    ensures CountIn(s, m + {x}) == CountIn(s, m) + (if x in s then 1 else 0)
  {
    if s != [] {
      CountInsert(s[1..], m, x);
      if x == s[0] {
        assert x !in s[1..] by {
          forall i | 0 <= i < |s[1..]| ensures s[1..][i] != x {
            assert Before(s[0], s[i + 1]);
          }
        }
      }
      assert x in s <==> x == s[0] || x in s[1..] by {
        assert s == [s[0]] + s[1..];
      }
    }
  }

  /** The entries of s that lie on a rows x cols board, in their order. */
  function InBoundsOnly(rows: int, cols: int, s: seq<Cell>): (r: seq<Cell>)
    ensures forall p :: p in r <==> p in s && InBounds(rows, cols, p)
    ensures Sorted(s) ==> Sorted(r)
  {
    if s == [] then []
    else
      var rest := InBoundsOnly(rows, cols, s[1..]);
      assert forall p :: p in s <==> p == s[0] || p in s[1..] by {
        assert s == [s[0]] + s[1..];
      }
      if InBounds(rows, cols, s[0]) then
        assert Sorted(s) ==> forall p :: p in rest ==> Before(s[0], p) by {
          if Sorted(s) {
            forall p | p in rest ensures Before(s[0], p) {
              var i :| 0 <= i < |s[1..]| && s[1..][i] == p;
              assert s[i + 1] == p;
            }
          }
        }
        [s[0]] + rest
      else rest
  }

  /** The in-bounds neighbours of c, in the order the game lists them. */
  function Neighbours(rows: int, cols: int, c: Cell): (r: seq<Cell>)
    ensures Sorted(r)
    ensures forall p :: p in r <==> InBounds(rows, cols, p) && Adjacent(p, c)
    ensures forall i :: 0 <= i < |r| ==> InBounds(rows, cols, r[i])
  {
    var r := InBoundsOnly(rows, cols, Around(c));
    assert forall i :: 0 <= i < |r| ==> r[i] in r;
    r
  }

  /** Dropping off-board entries does not change a count of on-board cells. */
  lemma {:induction false} CountInBoundsOnly(rows: int, cols: int, s: seq<Cell>, m: set<Cell>)
    requires forall p :: p in m ==> InBounds(rows, cols, p)
    ensures CountIn(InBoundsOnly(rows, cols, s), m) == CountIn(s, m)
  {
    if s != [] {
      CountInBoundsOnly(rows, cols, s[1..], m);
    }
  }

  /** A sorted list is fixed by the cells it holds. */
  lemma {:induction false} SortedUnique(a: seq<Cell>, b: seq<Cell>)
    requires Sorted(a) && Sorted(b)
    requires forall p :: p in a <==> p in b
    ensures a == b
  {
    assert forall i :: 0 <= i < |a| ==> a[i] in a;
    assert forall i :: 0 <= i < |b| ==> b[i] in b;
    if a != [] && b != [] {
      var k :| 0 <= k < |b| && b[k] == a[0];
      var l :| 0 <= l < |a| && a[l] == b[0];
      TailMembers(a);
      TailMembers(b);
      SortedUnique(a[1..], b[1..]);
      assert a == [a[0]] + a[1..] && b == [b[0]] + b[1..];
    }
  }

  /** The tail of a sorted list holds every listed cell but the head. */
  lemma TailMembers(s: seq<Cell>)
    requires Sorted(s) && s != []
    ensures Sorted(s[1..])
    ensures forall p :: p in s[1..] <==> p in s && p != s[0]
  {
    assert s == [s[0]] + s[1..];
    forall p | p in s[1..] ensures p != s[0] {
      var i :| 0 <= i < |s[1..]| && s[1..][i] == p;
      assert Before(s[0], s[i + 1]);
    }
  }

  /** A list is its head followed by its tail. */
  lemma TailOf(s: seq<Cell>)
    requires s != []
    ensures forall p :: p in s <==> p == s[0] || p in s[1..]
    ensures Sorted(s) ==> Sorted(s[1..])
  {
    assert s == [s[0]] + s[1..];
  }

  /** The head of a sorted list can lead any sorted selection from its tail. */
  lemma HeadBeforeRest(s: seq<Cell>, r: seq<Cell>)
    requires s != [] && forall p :: p in r ==> p in s[1..]
    requires Sorted(s) ==> Sorted(r)
    ensures Sorted(s) ==> Sorted([s[0]] + r)
  {
    if Sorted(s) {
      forall p | p in r ensures Before(s[0], p) {
        var i :| 0 <= i < |s[1..]| && s[1..][i] == p;
        assert s[i + 1] == p;
      }
    }
  }

  /** In a sorted list, row-major order of entries is order of positions. */
  lemma SortedOrder(s: seq<Cell>, i: int, j: int)
    requires Sorted(s) && 0 <= i < |s| && 0 <= j < |s|
    requires Before(s[i], s[j])
    ensures i < j
  {
  }

  /** The distinct picks that may become mines when the first click is at c. */
  ghost function Eligible(picks: seq<Cell>, c: Cell): set<Cell> {
    set p | p in picks && !InZone(p, c)
  }

  lemma EligibleAppend(picks: seq<Cell>, x: Cell, c: Cell)
    ensures Eligible(picks + [x], c) == Eligible(picks, c) + (if InZone(x, c) then {} else {x})
  {
    assert forall p :: p in picks + [x] <==> p in picks || p == x;
  }

  /** Every cell of a rows x cols board. */
  ghost function AllCells(rows: int, cols: int): (r: set<Cell>)
    ensures forall p :: p in r <==> InBounds(rows, cols, p)
  {
    set a, b | 0 <= a < rows && 0 <= b < cols :: Cell(a, b)
  }

  /** The board cells outside the 3x3 block around c: the room there is for mines. */
  ghost function OutsideZone(rows: int, cols: int, c: Cell): set<Cell> {
    set p | p in AllCells(rows, cols) && !InZone(p, c)
  }

  /** Picks drawn on the board never offer more eligible cells than there is room. */
  lemma PicksFitRoom(rows: int, cols: int, picks: seq<Cell>, c: Cell)
    requires forall i :: 0 <= i < |picks| ==> InBounds(rows, cols, picks[i])
    ensures |Eligible(picks, c)| <= |OutsideZone(rows, cols, c)|
  {
    var e, o := Eligible(picks, c), OutsideZone(rows, cols, c);
    forall p | p in e ensures p in o {
      var i :| 0 <= i < |picks| && picks[i] == p;
    }
    assert o == e + (o - e);
  }

  /** Some list holding exactly the cells of s. */
  ghost function Enumerate(s: set<Cell>): (r: seq<Cell>)
    ensures forall p :: p in r <==> p in s
  {
    if s == {} then []
    else
      var x :| x in s;
      [x] + Enumerate(s - {x})
  }

  /** Whenever the mines fit outside the first click's block, some run of
      random picks on the board places them all. */
  lemma RoomGivesPicks(rows: int, cols: int, mines: nat, c: Cell)
    requires mines <= |OutsideZone(rows, cols, c)|
    ensures exists picks: seq<Cell> ::
      (forall i :: 0 <= i < |picks| ==> InBounds(rows, cols, picks[i])) &&
      mines <= |Eligible(picks, c)|
  {
    var o := OutsideZone(rows, cols, c);
    var picks := Enumerate(o);
    forall i | 0 <= i < |picks| ensures InBounds(rows, cols, picks[i]) {
      assert picks[i] in o;
    }
    assert Eligible(picks, c) == o;
  }
}
