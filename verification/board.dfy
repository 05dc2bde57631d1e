/** The 8x8 Othello board shared by the three engines: cells, coordinates,
    the eight compass directions, painting cells and counting them. */
module Board {

  /** `Valid` is not a disc: it marks an empty cell that is currently a legal
      move for the side to move. */
  datatype Cell = Empty | Black | White | Valid

  /** A coordinate: `x` is the column and `y` the row, as in the (x, y) tuples. */
  datatype Pos = Pos(x: int, y: int)

  /** A compass direction, one step along each axis. */
  datatype Dir = Dir(dx: int, dy: int)

  /** The board in row-major order: cell (x, y) is element y * 8 + x. */
  type Board = b: seq<Cell> | |b| == 64 witness seq(64, i => Empty)

  predicate OnBoard(p: Pos) {
    var Pos(x, y) := p;
    0 <= x < 8 && 0 <= y < 8
  }

  function Index(p: Pos): (i: nat)
    requires OnBoard(p)
    ensures i < 64
  {
    var Pos(x, y) := p;
    y * 8 + x
  }

  /** The coordinate stored at row-major index `i`; the inverse of `Index`. */
  function PosOf(i: int): (p: Pos)
    requires 0 <= i < 64
    ensures OnBoard(p) && Index(p) == i
  {
    Pos(i % 8, i / 8)
  }

  lemma IndexInjective(p: Pos, q: Pos)
    requires OnBoard(p) && OnBoard(q)
    ensures Index(p) == Index(q) <==> p == q
  {
  }

  lemma PosOfIndex(p: Pos)
    requires OnBoard(p)
    ensures PosOf(Index(p)) == p
  {
    IndexInjective(PosOf(Index(p)), p);
  }

  function At(b: Board, p: Pos): Cell
    requires OnBoard(p)
  {
    b[Index(p)]
  }

  predicate IsBlank(c: Cell) {
    c == Empty || c == Valid
  }

  predicate IsDisc(c: Cell) {
    c == Black || c == White
  }

  /** Two boards hold the same discs in the same places; they may differ only
      in which blank cells carry a `Valid` mark. */
  ghost predicate SameDiscs(a: Board, b: Board) {
    forall i {:trigger a[i], b[i]} :: 0 <= i < 64 && (IsDisc(a[i]) || IsDisc(b[i])) ==> a[i] == b[i]
  }

  // ---------------------------------------------------------------------
  // Counting

  /** The row-major indices of the cells holding `c`. */
  function Cells(b: Board, c: Cell): set<int> {
    set i | 0 <= i < 64 && b[i] == c
  }

  function Count(b: Board, c: Cell): nat {
    |Cells(b, c)|
  }

  /** Number of cells that are empty or marked `Valid`: the cells still to fill. */
  function Blanks(b: Board): nat {
    Count(b, Empty) + Count(b, Valid)
  }

  /** The integers 0 .. n-1. */
  function Range(n: nat): (r: set<int>)
    ensures forall i :: i in r <==> 0 <= i < n
    ensures |r| == n
  {
    if n == 0 then {} else Range(n - 1) + {n - 1}
  }

  lemma DisjointUnionSize(a: set<int>, c: set<int>)
    requires a !! c
    ensures |a + c| == |a| + |c|
  {
  }

  lemma CoverSub(b: Board)
    ensures Range(|b|) <= Cells(b, Black) + Cells(b, White) + Cells(b, Empty) + Cells(b, Valid)
  {
    forall i | i in Range(|b|)
      ensures i in Cells(b, Black) + Cells(b, White) + Cells(b, Empty) + Cells(b, Valid)
    {
      if b[i] == Black { assert i in Cells(b, Black); }
      else if b[i] == White { assert i in Cells(b, White); }
      else if b[i] == Empty { assert i in Cells(b, Empty); }
      else { assert i in Cells(b, Valid); }
    }
  }
  lemma CellsInRange(b: Board, c: Cell)
    ensures Cells(b, c) <= Range(|b|)
  {
  }

  lemma CoverSup(b: Board)
    ensures Cells(b, Black) + Cells(b, White) + Cells(b, Empty) + Cells(b, Valid) <= Range(|b|)
  {
    CellsInRange(b, Black);
    CellsInRange(b, White);
    CellsInRange(b, Empty);
    CellsInRange(b, Valid);
  }

  lemma CellsCover(b: Board)
    ensures Cells(b, Black) + Cells(b, White) + Cells(b, Empty) + Cells(b, Valid) == Range(|b|)
  {
    CoverSub(b); CoverSup(b);
  }

  /** A cell holds one value: the cells of different values are disjoint. */
  lemma CellsDisjoint(b: Board, c: Cell, d: Cell)
    requires c != d
    ensures Cells(b, c) !! Cells(b, d)
  {
  }

  /** Every cell holds exactly one of the four values, so the four counts add
      up to the 64 cells of the board. */
  lemma CountPartition(b: Board)
    ensures Count(b, Black) + Count(b, White) + Count(b, Empty) + Count(b, Valid) == 64
  {
    var bl, wh, em, va := Cells(b, Black), Cells(b, White), Cells(b, Empty), Cells(b, Valid);
    CellsCover(b);
    CellsDisjoint(b, Black, White);
    CellsDisjoint(b, Black, Empty);
    CellsDisjoint(b, White, Empty);
    CellsDisjoint(b, Black, Valid);
    CellsDisjoint(b, White, Valid);
    CellsDisjoint(b, Empty, Valid);
    DisjointUnionSize(bl, wh);
    DisjointUnionSize(bl + wh, em);
    DisjointUnionSize(bl + wh + em, va);
  }

  /** Boards with the same discs have the same disc counts and the same number
      of blank cells. */
  lemma SameDiscsCounts(a: Board, b: Board)
    requires SameDiscs(a, b)
    ensures Count(a, Black) == Count(b, Black) && Count(a, White) == Count(b, White)
    ensures Blanks(a) == Blanks(b)
  {
    assert Cells(a, Black) == Cells(b, Black);
    assert Cells(a, White) == Cells(b, White);
    CountPartition(a);
    CountPartition(b);
  }

  lemma SameDiscsSymmetric(a: Board, b: Board)
    requires SameDiscs(a, b)
    ensures SameDiscs(b, a)
  {
  }

  lemma SameDiscsTransitive(a: Board, b: Board, c: Board)
    requires SameDiscs(a, b) && SameDiscs(b, c)
    ensures SameDiscs(a, c)
  {
    forall i | 0 <= i < 64 && (IsDisc(a[i]) || IsDisc(c[i]))
      ensures a[i] == c[i]
    {
      if IsDisc(a[i]) {
        assert a[i] == b[i];
      } else {
        assert b[i] == c[i];
      }
    }
  }

  // ---------------------------------------------------------------------
  // Painting a list of cells

  predicate AllOnBoard(cells: seq<Pos>) {
    forall j :: 0 <= j < |cells| ==> OnBoard(cells[j])
  }

  predicate Distinct<T(==)>(s: seq<T>) {
    forall i, j :: 0 <= i < j < |s| ==> s[i] != s[j]
  }

  /** Sets every listed cell to `c`, one after the other. */
  function Paint(b: Board, cells: seq<Pos>, c: Cell): (r: Board)
    requires AllOnBoard(cells)
    ensures forall i {:trigger r[i]} :: 0 <= i < 64 ==> r[i] == if PosOf(i) in cells then c else b[i]
    decreases |cells|
  {
    if cells == [] then b
    else
      var r := Paint(b[Index(cells[0]) := c], cells[1..], c);
      assert forall i :: 0 <= i < 64 ==> (PosOf(i) in cells <==> PosOf(i) == cells[0] || PosOf(i) in cells[1..]) by {
        assert forall i :: 0 <= i < 64 ==> (PosOf(i) == cells[0] <==> i == Index(cells[0])) by {
          forall i | 0 <= i < 64
            ensures PosOf(i) == cells[0] <==> i == Index(cells[0])
          {
            PosOfIndex(cells[0]);
          }
        }
        assert cells == [cells[0]] + cells[1..];
      }
      r
  }

  /** The row-major indices of the listed cells. */
  function Spots(cells: seq<Pos>): set<int> {
    set i | 0 <= i < 64 && PosOf(i) in cells
  }

  /** An on-board cell's index is a spot of a list exactly when it is listed. */
  lemma SpotOf(q: Pos, cells: seq<Pos>)
    requires OnBoard(q)
    ensures Index(q) in Spots(cells) <==> q in cells
  {
    PosOfIndex(q);
  }

  lemma SpotsCons(cells: seq<Pos>)
    requires cells != [] && OnBoard(cells[0])
    ensures Spots(cells) == Spots(cells[1..]) + {Index(cells[0])}
  {
    assert cells == [cells[0]] + cells[1..];
    forall i | 0 <= i < 64
      ensures PosOf(i) == cells[0] <==> i == Index(cells[0])
    {
      PosOfIndex(cells[0]);
    }
  }

  /** A list of distinct on-board cells covers as many board indices as it has elements. */
  lemma {:induction false} SpotsSize(cells: seq<Pos>)
    requires AllOnBoard(cells) && Distinct(cells)
    ensures |Spots(cells)| == |cells|
    decreases |cells|
  {
    if cells != [] {
      var rest := cells[1..];
      assert AllOnBoard(rest) && Distinct(rest);
      SpotsSize(rest);
      SpotsCons(cells);
      assert cells[0] !in rest;
      SpotOf(cells[0], rest);
    }
  }

  // ---------------------------------------------------------------------
  // Directions and rays

  /** The eight directions, in the order the source scans them. */
  const Directions: seq<Dir> :=
    [Dir(1, 0), Dir(-1, 0), Dir(0, 1), Dir(0, -1), Dir(1, 1), Dir(-1, -1), Dir(1, -1), Dir(-1, 1)]

  predicate IsDir(d: Dir) {
    var Dir(dx, dy) := d;
    -1 <= dx <= 1 && -1 <= dy <= 1 && (dx != 0 || dy != 0)
  }

  lemma DirectionsAreDirs()
    ensures forall j :: 0 <= j < |Directions| ==> IsDir(Directions[j])
    ensures Distinct(Directions)
  {
  }

  /** `k` steps of size `delta` in {-1, 0, 1}, written without multiplication. */
  function Step(delta: int, k: int): int {
    if delta == 1 then k else if delta == -1 then -k else 0
  }

  /** The cell `k` steps away from `p` in direction `d`. */
  function Shift(p: Pos, d: Dir, k: int): Pos {
    var Pos(x, y) := p;
    var Dir(dx, dy) := d;
    Pos(x + Step(dx, k), y + Step(dy, k))
  }

  /** Distinct (direction, distance) pairs reach distinct cells: the eight rays
      from one cell are pairwise disjoint and never come back to it. */
  lemma ShiftInjective(p: Pos, d: Dir, k: int, e: Dir, m: int)
    requires IsDir(d) && IsDir(e) && 1 <= k && 1 <= m
    ensures Shift(p, d, k) == Shift(p, e, m) ==> d == e && k == m
  {
  }

  lemma ShiftNotOrigin(p: Pos, d: Dir, k: int)
    requires IsDir(d) && 1 <= k
    ensures Shift(p, d, k) != p
  {
  }

  // ---------------------------------------------------------------------
  // Listing the cells marked `Valid`

  /** The two scan orders of the engines: by column then row (x outer), or by
      row then column (y outer). */
  datatype Order = ColumnMajor | RowMajor

  /** Position of a cell in a scan order. */
  function Rank(q: Pos, order: Order): int {
    var Pos(x, y) := q;
    if order == RowMajor then y * 8 + x else x * 8 + y
  }

  /** The cell visited `j`-th by a scan in the given order. */
  function ScanPos(j: int, order: Order): (q: Pos)
    requires 0 <= j < 64
    ensures OnBoard(q) && Rank(q, order) == j
  {
    if order == RowMajor then Pos(j % 8, j / 8) else Pos(j / 8, j % 8)
  }

  lemma RankInjective(q: Pos, r: Pos, order: Order)
    requires OnBoard(q) && OnBoard(r)
    ensures Rank(q, order) == Rank(r, order) ==> q == r
  {
  }

  /** The `Valid` cells among the last `n` cells of the scan, in scan order.
      Counting the cells still to visit (rather than the position reached)
      keeps the scan positions symbolic, so the verifier does not evaluate
      the whole board scan eagerly. */
  function ValidCellsLast(b: Board, order: Order, n: int): (r: seq<Pos>)
    requires 0 <= n <= 64
    ensures forall k :: 0 <= k < |r| ==> OnBoard(r[k]) && At(b, r[k]) == Valid && Rank(r[k], order) >= 64 - n
    ensures forall k, l :: 0 <= k < l < |r| ==> Rank(r[k], order) < Rank(r[l], order)
    ensures forall q {:trigger q in r} :: OnBoard(q) && At(b, q) == Valid && Rank(q, order) >= 64 - n ==> q in r
    decreases |b| - 64 + n
  {
    if n == 0 then []
    else
      var q := ScanPos(64 - n, order);
      var rest := ValidCellsLast(b, order, n - 1);
      assert forall c :: OnBoard(c) && Rank(c, order) == 64 - n ==> c == q by {
        forall c | OnBoard(c) && Rank(c, order) == 64 - n
          ensures c == q
        {
          RankInjective(c, q, order);
        }
      }
      (if At(b, q) == Valid then [q] else []) + rest
  }

  /** All `Valid` cells in scan order: exactly the marked cells, each once,
      strictly increasing in the order. */
  function ValidCells(b: Board, order: Order): (r: seq<Pos>)
    ensures forall q {:trigger q in r} :: q in r <==> OnBoard(q) && At(b, q) == Valid
    ensures forall k, l :: 0 <= k < l < |r| ==> Rank(r[k], order) < Rank(r[l], order)
  {
    ValidCellsLast(b, order, |b|)
  }

  /** The list of marked cells is empty exactly when no cell is marked. */
  lemma ValidCellsEmptyIff(b: Board, order: Order)
    ensures ValidCells(b, order) == [] <==> Count(b, Valid) == 0
  {
    var r := ValidCells(b, order);
    if Count(b, Valid) != 0 {
      MarkedCellListed(b, order);
    }
    if r != [] {
      ListedCellMarked(b, order);
    }
  }

  lemma ListedCellMarked(b: Board, order: Order)
    requires ValidCells(b, order) != []
    ensures Count(b, Valid) != 0
  {
    var q := ValidCells(b, order)[0];
    assert q in ValidCells(b, order);
    MarkedCounted(b, q);
  }

  lemma MarkedCounted(b: Board, q: Pos)
    requires OnBoard(q) && At(b, q) == Valid
    ensures Count(b, Valid) != 0
  {
    assert Index(q) in Cells(b, Valid);
  }

  lemma MarkedCellListed(b: Board, order: Order)
    requires Count(b, Valid) != 0
    ensures ValidCells(b, order) != []
  {
    var i :| i in Cells(b, Valid);
    var q := PosOf(i);
    assert At(b, q) == Valid;
    assert q in ValidCells(b, order);
  }

  /** Distinct elements follow from a strictly increasing rank. */
  lemma RankedDistinct(r: seq<Pos>, order: Order)
    requires forall k, l :: 0 <= k < l < |r| ==> Rank(r[k], order) < Rank(r[l], order)
    ensures Distinct(r)
  {
  }

  lemma HeadIn<T>(s: seq<T>)
    ensures s != [] ==> s[0] in s
  {
  }

  /** A strictly increasing list: rank order of its positions. */
  predicate Ranked(r: seq<Pos>, order: Order) {
    forall k, l :: 0 <= k < l < |r| ==> Rank(r[k], order) < Rank(r[l], order)
  }

  /** A later element of a ranked list is not its head. */
  lemma RankedTail(a: seq<Pos>, q: Pos, order: Order)
    requires a != [] && Ranked(a, order) && q in a
    ensures q in a[1..] <==> q != a[0]
  {
    var i :| 0 <= i < |a| && a[i] == q;
    if i != 0 {
      assert a[1..][i - 1] == q;
    }
  }

  lemma RankedHeads(a: seq<Pos>, c: seq<Pos>, order: Order)
    requires a != [] && c != [] && Ranked(a, order) && Ranked(c, order)
    requires forall q :: q in a <==> q in c
    ensures a[0] == c[0]
  {
    HeadIn(a);
    HeadIn(c);
    var j :| 0 <= j < |c| && c[j] == a[0];
    var k :| 0 <= k < |a| && a[k] == c[0];
  }

  lemma RankedTails(a: seq<Pos>, c: seq<Pos>, order: Order)
    requires a != [] && c != [] && Ranked(a, order) && Ranked(c, order)
    requires forall q :: q in a <==> q in c
    requires a[0] == c[0]
    ensures forall q :: q in a[1..] <==> q in c[1..]
  {
    forall q
      ensures q in a[1..] <==> q in c[1..]
    {
      if q in a {
        RankedTail(a, q, order);
        RankedTail(c, q, order);
      }
    }
  }

  /** Two lists that are both strictly increasing in a scan order and hold the
      same cells are the same list: the scan order fixes the listing. */
  lemma {:induction false} RankedEqual(a: seq<Pos>, c: seq<Pos>, order: Order)
    requires Ranked(a, order) && Ranked(c, order)
    requires forall q :: q in a <==> q in c
    ensures a == c
    decreases |a|
  {
    HeadIn(a);
    HeadIn(c);
    if a != [] && c != [] {
      RankedHeads(a, c, order);
      RankedTails(a, c, order);
      RankedEqual(a[1..], c[1..], order);
      assert a == [a[0]] + a[1..] && c == [c[0]] + c[1..];
    }
  }
}
