/** The canonical rules engine (`src/core/othello.py`): phases, applying a
    move, recounting scores, re-marking the legal cells and resolving passes
    and the end of the game. */
module Rules {
  import opened Board
  import opened Capture

  datatype Phase = BlackTurn | WhiteTurn | BlackWon | WhiteWon | Draw

  predicate IsTurn(ph: Phase) {
    ph == BlackTurn || ph == WhiteTurn
  }

  /** The colour of the side to move; the source's `reverse` / `player`. */
  function Mover(ph: Phase): Cell {
    if ph == BlackTurn then Black else White
  }

  /** The colour of the other side; the source's `opponent`. */
  function Opponent(ph: Phase): Cell {
    if ph == BlackTurn then White else Black
  }

  /** The turn switch: White after Black, Black after anything else. */
  function Other(ph: Phase): Phase {
    if ph == BlackTurn then WhiteTurn else BlackTurn
  }

  /** The final phase decided by the disc counts. */
  function ByScore(black: int, white: int): (ph: Phase)
    ensures ph == BlackWon <==> black > white
    ensures ph == WhiteWon <==> black < white
    ensures ph == Draw <==> black == white
  {
    if black > white then BlackWon else if black < white then WhiteWon else Draw
  }

  datatype Game = Game(board: Board, blackScore: int, whiteScore: int, phase: Phase)

  datatype MoveError = GameOver | InvalidPosition

  /** `make_move` either leaves a new game or raises: `ValueError` is
      `GameOver`, `IndexError` is `InvalidPosition`. */
  datatype MoveResult = Moved(game: Game) | Rejected(error: MoveError)

  // ---------------------------------------------------------------------
  // Legal cells and their marks

  /** A move at `p` is legal for the side to move in `ph` when the cell is
      blank and flips at least one disc. */
  predicate Legal(b: Board, p: Pos, ph: Phase) {
    OnBoard(p) && IsBlank(At(b, p)) && Flipped(b, p, Mover(ph), Opponent(ph)) != []
  }

  /** The value the marking pass gives cell `i`: discs stay, a blank cell
      becomes `Valid` when it is legal and `Empty` otherwise. */
  function Mark(b: Board, ph: Phase, i: int): Cell
    requires 0 <= i < 64
  {
    if !IsBlank(b[i]) then b[i]
    else if Flipped(b, PosOf(i), Mover(ph), Opponent(ph)) != [] then Valid
    else Empty
  }

  /** Exactly the legal cells carry a `Valid` mark. */
  ghost predicate MarksExact(b: Board, ph: Phase) {
    forall i {:trigger Legal(b, PosOf(i), ph)} :: 0 <= i < 64 ==> (b[i] == Valid <==> Legal(b, PosOf(i), ph))
  }

  lemma SameDiscsAway(a: Board, c: Board, p: Pos)
    requires OnBoard(p) && SameDiscs(a, c)
    ensures SameDiscsAwayFrom(a, c, p)
  {
  }

  /** Marks depend only on the discs: boards with the same discs are marked alike. */
  lemma MarkFrame(a: Board, c: Board, ph: Phase, i: int)
    requires SameDiscs(a, c) && 0 <= i < 64
    ensures Mark(a, ph, i) == Mark(c, ph, i)
    ensures Legal(a, PosOf(i), ph) <==> Legal(c, PosOf(i), ph)
  {
    SameDiscsAway(a, c, PosOf(i));
    FlippedFrame(a, c, PosOf(i), Mover(ph), Opponent(ph));
  }

  /** The first half of a step of the marking loop of `_update_valid_cells`
      at row-major index `j`: a `Valid` cell is cleared. */
  function ClearMark(b: Board, j: int): (c: Board)
    requires 0 <= j < 64
    ensures SameDiscs(b, c)
    ensures c[j] == if b[j] == Valid then Empty else b[j]
    ensures forall i :: 0 <= i < 64 && i != j ==> c[i] == b[i]
  {
    if b[j] == Valid then b[j := Empty] else b
  }

  /** The second half: an `Empty` cell that flips something is marked. */
  function SetMark(c: Board, ph: Phase, j: int): (d: Board)
    requires 0 <= j < 64 && c[j] != Valid
    ensures SameDiscs(c, d)
    ensures d[j] == Mark(c, ph, j)
    ensures forall i :: 0 <= i < 64 && i != j ==> d[i] == c[i]
  {
    if c[j] == Empty && Flipped(c, PosOf(j), Mover(ph), Opponent(ph)) != [] then
      MarkOne(c, j)
    else
      c
  }

  /** Marks cell `j` as `Valid`; the discs are untouched. */
  function MarkOne(c: Board, j: int): (d: Board)
    requires 0 <= j < 64 && IsBlank(c[j])
    ensures SameDiscs(c, d)
    ensures d[j] == Valid
    ensures forall i :: 0 <= i < 64 && i != j ==> d[i] == c[i]
  {
    c[j := Valid]
  }

  /** One full step of the marking loop. */
  function MarkCell(b: Board, ph: Phase, j: int): (r: Board)
    requires 0 <= j < 64
    ensures SameDiscs(b, r)
    ensures r[j] == Mark(b, ph, j)
    ensures forall i :: 0 <= i < 64 && i != j ==> r[i] == b[i]
  {
    var c := ClearMark(b, j);
    var d := SetMark(c, ph, j);
    MarkFrame(c, b, ph, j);
    SameDiscsTransitive(b, c, d);
    d
  }

  /** The marking loop from index `j` on. Each step reads the board as the
      earlier steps left it. */
  function MarkFrom(b: Board, ph: Phase, j: int): (r: Board)
    requires 0 <= j <= 64
    ensures SameDiscs(b, r)
    ensures forall i :: 0 <= i < j ==> r[i] == b[i]
    ensures forall i :: j <= i < 64 ==> r[i] == Mark(b, ph, i)
    decreases |b| - j
  {
    if j == 64 then b
    else
      var d := MarkCell(b, ph, j);
      var r := MarkFrom(d, ph, j + 1);
      SameDiscsTransitive(b, d, r);
      MarkRest(b, d, r, ph, j);
      r
  }

  /** The cells after the cursor are marked as on the original board. */
  lemma MarkRest(b: Board, d: Board, r: Board, ph: Phase, j: int)
    requires 0 <= j < 64 && SameDiscs(b, d)
    requires forall i :: j + 1 <= i < 64 ==> r[i] == Mark(d, ph, i)
    ensures forall i :: j + 1 <= i < 64 ==> r[i] == Mark(b, ph, i)
  {
    forall i | j + 1 <= i < 64
      ensures r[i] == Mark(b, ph, i)
    {
      MarkFrame(d, b, ph, i);
    }
  }

  /** `_update_valid_cells`: re-marks the whole board for the side to move.
      The discs stay, and afterwards exactly the legal cells are marked. */
  function MarkValid(b: Board, ph: Phase): (r: Board)
    ensures SameDiscs(b, r)
    ensures MarksExact(r, ph)
  {
    var r := MarkFrom(b, ph, 0);
    MarkedExactly(b, r, ph);
    r
  }

  lemma MarkedExactly(b: Board, r: Board, ph: Phase)
    requires SameDiscs(b, r)
    requires forall i {:trigger r[i]} :: 0 <= i < 64 ==> r[i] == Mark(b, ph, i)
    ensures MarksExact(r, ph)
  {
    forall i | 0 <= i < 64
      ensures r[i] == Valid <==> Legal(r, PosOf(i), ph)
    {
      MarkFrame(b, r, ph, i);
    }
  }

  // ---------------------------------------------------------------------
  // Listing moves, fullness and the phase machine

  /** `_is_full`: no cell is empty or marked. */
  predicate IsFull(b: Board) {
    forall i :: 0 <= i < 64 ==> !IsBlank(b[i])
  }

  /** The board is full exactly when no blank cell is left to count. */
  lemma IsFullIff(b: Board)
    ensures IsFull(b) <==> Blanks(b) == 0
  {
    if !IsFull(b) {
      var i :| 0 <= i < 64 && IsBlank(b[i]);
      if b[i] == Empty {
        assert i in Cells(b, Empty);
      } else {
        assert i in Cells(b, Valid);
      }
    }
    if Count(b, Empty) != 0 {
      var i :| i in Cells(b, Empty);
      assert IsBlank(b[i]);
    }
    if Count(b, Valid) != 0 {
      var i :| i in Cells(b, Valid);
      assert IsBlank(b[i]);
    }
  }

  /** `get_valid_moves`: nothing once the game is over, otherwise the marked
      cells by column, then by row. */
  function ValidMoves(g: Game): (r: seq<Pos>)
    ensures forall q {:trigger q in r} :: q in r <==> IsTurn(g.phase) && OnBoard(q) && At(g.board, q) == Valid
    ensures forall k, l :: 0 <= k < l < |r| ==> Rank(r[k], ColumnMajor) < Rank(r[l], ColumnMajor)
  {
    if !IsTurn(g.phase) then [] else ValidCells(g.board, ColumnMajor)
  }

  /** `_update_state`, run after the mover of `ph` has played on `b`: recount
      the scores, end the game on a full board or a wiped-out side, and
      otherwise hand the turn over. */
  function UpdateState(b: Board, ph: Phase): (g: Game)
    ensures g.blackScore == Count(b, Black) && g.whiteScore == Count(b, White)
    ensures IsFull(b) || g.blackScore == 0 || g.whiteScore == 0 ==> g.board == b && !IsTurn(g.phase)
    ensures IsTurn(g.phase) ==> ValidMoves(g) != []
    ensures !IsTurn(g.phase) ==> g.phase == ByScore(g.blackScore, g.whiteScore)
  {
    var black := Count(b, Black);
    var white := Count(b, White);
    if IsFull(b) || black == 0 || white == 0 then
      Game(b, black, white, ByScore(black, white))
    else
      SwitchTurn(b, black, white, ph)
  }

  /** The second half of `_update_state`: the other side is re-marked and
      moves if it has a marked cell; otherwise the turn passes back. */
  function SwitchTurn(b: Board, black: int, white: int, ph: Phase): (g: Game)
    ensures g.blackScore == black && g.whiteScore == white
    ensures IsTurn(g.phase) ==> ValidMoves(g) != [] && (g.phase == Other(ph) || g.phase == Other(Other(ph)))
    ensures !IsTurn(g.phase) ==> g.phase == ByScore(black, white)
  {
    var next := Other(ph);
    var b1 := MarkValid(b, next);
    if ValidMoves(Game(b1, black, white, next)) != [] then
      Game(b1, black, white, next)
    else
      PassBack(b1, black, white, Other(next))
  }

  /** The pass: the side `back` is re-marked and moves again if it can;
      otherwise neither side can move and the scores decide. */
  function PassBack(b: Board, black: int, white: int, back: Phase): (g: Game)
    ensures g.blackScore == black && g.whiteScore == white
    ensures IsTurn(g.phase) ==> g.phase == back && ValidMoves(g) != []
    ensures !IsTurn(g.phase) ==> g.phase == ByScore(black, white)
  {
    var b2 := MarkValid(b, back);
    if ValidMoves(Game(b2, black, white, back)) != [] then
      Game(b2, black, white, back)
    else
      Game(b2, black, white, ByScore(black, white))
  }

  /** The invariant every reachable game keeps: the scores are the disc
      counts, and while a side is to move exactly its legal cells are marked
      and there is at least one of them. */
  ghost predicate WellFormed(g: Game) {
    && g.blackScore == Count(g.board, Black)
    && g.whiteScore == Count(g.board, White)
    && (IsTurn(g.phase) ==> MarksExact(g.board, g.phase) && Count(g.board, Valid) > 0)
  }

  /** A side is to move only with a correctly marked board holding a mark. */
  ghost predicate TurnReady(g: Game) {
    IsTurn(g.phase) ==> MarksExact(g.board, g.phase) && Count(g.board, Valid) > 0
  }

  /** A game listing a move has a marked cell to count. */
  lemma ListedCounted(g: Game)
    requires ValidMoves(g) != []
    ensures Count(g.board, Valid) > 0
  {
    ListedCellMarked(g.board, ColumnMajor);
  }

  lemma PassBackReady(b: Board, black: int, white: int, back: Phase)
    ensures var g := PassBack(b, black, white, back);
      SameDiscs(b, g.board) && g.blackScore == black && g.whiteScore == white && TurnReady(g)
  {
    var g2 := Game(MarkValid(b, back), black, white, back);
    if ValidMoves(g2) != [] {
      ListedCounted(g2);
      assert PassBack(b, black, white, back) == g2;
    } else {
      assert !IsTurn(PassBack(b, black, white, back).phase);
    }
  }

  lemma SwitchTurnReady(b: Board, black: int, white: int, ph: Phase)
    ensures var g := SwitchTurn(b, black, white, ph);
      SameDiscs(b, g.board) && g.blackScore == black && g.whiteScore == white && TurnReady(g)
  {
    var next := Other(ph);
    var b1 := MarkValid(b, next);
    if ValidMoves(Game(b1, black, white, next)) != [] {
      ListedCounted(Game(b1, black, white, next));
    } else {
      PassBackReady(b1, black, white, Other(next));
      SameDiscsTransitive(b, b1, PassBack(b1, black, white, Other(next)).board);
    }
  }

  /** `_update_state` leaves a well-formed game with the discs it was given:
      the scores are recounted from the board, and a side is to move only
      with its legal cells marked and at least one of them. */
  lemma UpdateStateWellFormed(b: Board, ph: Phase)
    ensures SameDiscs(b, UpdateState(b, ph).board)
    ensures WellFormed(UpdateState(b, ph))
  {
    var black, white := Count(b, Black), Count(b, White);
    if !(IsFull(b) || black == 0 || white == 0) {
      var g := SwitchTurn(b, black, white, ph);
      SwitchTurnReady(b, black, white, ph);
      SameDiscsCounts(b, g.board);
    }
  }

  /** The cells of `b` that are legal for `ph`. */
  ghost predicate HasLegal(b: Board, ph: Phase) {
    exists q :: Legal(b, q, ph)
  }

  /** A listed cell of a correctly marked board is legal on any board with
      the same discs. */
  lemma ListedIsLegal(b: Board, m: Board, ph: Phase)
    requires MarksExact(m, ph) && SameDiscs(b, m)
    requires ValidCells(m, ColumnMajor) != []
    ensures HasLegal(b, ph)
  {
    var q := ValidCells(m, ColumnMajor)[0];
    assert q in ValidCells(m, ColumnMajor);
    LegalAt(b, m, ph, q);
  }

  lemma LegalAt(b: Board, m: Board, ph: Phase, q: Pos)
    requires MarksExact(m, ph) && SameDiscs(b, m)
    requires OnBoard(q)
    ensures At(m, q) == Valid <==> Legal(b, q, ph)
  {
    PosOfIndex(q);
    assert Legal(m, PosOf(Index(q)), ph) <==> m[Index(q)] == Valid;
    MarkFrame(m, b, ph, Index(q));
  }

  /** A legal cell is listed on a correctly marked board with the same discs. */
  lemma LegalIsListed(b: Board, m: Board, ph: Phase)
    requires MarksExact(m, ph) && SameDiscs(b, m)
    requires HasLegal(b, ph)
    ensures ValidCells(m, ColumnMajor) != []
  {
    var q :| Legal(b, q, ph);
    LegalAt(b, m, ph, q);
    assert q in ValidCells(m, ColumnMajor);
  }

  /** A correctly marked board lists a move exactly when its side can move. */
  lemma ListedIffLegal(b: Board, m: Board, ph: Phase)
    requires MarksExact(m, ph) && SameDiscs(b, m)
    ensures ValidCells(m, ColumnMajor) != [] <==> HasLegal(b, ph)
  {
    if ValidCells(m, ColumnMajor) != [] {
      ListedIsLegal(b, m, ph);
    }
    if HasLegal(b, ph) {
      LegalIsListed(b, m, ph);
    }
  }

  /** Phase resolution after a move by the side to move in `ph`: a full board
      or a wiped-out side ends the game by score; otherwise the other side
      moves if it can, else the same side moves again if it can, else the
      game ends by score. */
  lemma PhaseResolution(b: Board, ph: Phase)
    requires IsTurn(ph)
    ensures var g := UpdateState(b, ph);
      var black, white := Count(b, Black), Count(b, White);
      if Blanks(b) == 0 || black == 0 || white == 0 then g.phase == ByScore(black, white)
      else if HasLegal(b, Other(ph)) then g.phase == Other(ph)
      else if HasLegal(b, ph) then g.phase == ph
      else g.phase == ByScore(black, white)
  {
    IsFullIff(b);
    if Blanks(b) != 0 && Count(b, Black) != 0 && Count(b, White) != 0 {
      SwitchResolution(b, Count(b, Black), Count(b, White), ph);
    }
  }

  lemma SwitchResolution(b: Board, black: int, white: int, ph: Phase)
    requires IsTurn(ph)
    ensures var g := SwitchTurn(b, black, white, ph);
      if HasLegal(b, Other(ph)) then g.phase == Other(ph)
      else if HasLegal(b, ph) then g.phase == ph
      else g.phase == ByScore(black, white)
  {
    if HasLegal(b, Other(ph)) {
      SwitchToOther(b, black, white, ph);
    } else {
      SwitchPassesBack(b, black, white, ph);
      PassResolution(b, MarkValid(b, Other(ph)), black, white, ph);
    }
  }

  /** On a correctly marked board the side to move has a listed move
      exactly when it has a legal cell. */
  lemma MovesIffLegal(b: Board, m: Board, black: int, white: int, ph: Phase)
    requires IsTurn(ph) && MarksExact(m, ph) && SameDiscs(b, m)
    ensures ValidMoves(Game(m, black, white, ph)) != [] <==> HasLegal(b, ph)
  {
    ListedIffLegal(b, m, ph);
  }

  lemma SwitchToOther(b: Board, black: int, white: int, ph: Phase)
    requires HasLegal(b, Other(ph))
    ensures SwitchTurn(b, black, white, ph).phase == Other(ph)
  {
    MovesIffLegal(b, MarkValid(b, Other(ph)), black, white, Other(ph));
  }

  lemma SwitchPassesBack(b: Board, black: int, white: int, ph: Phase)
    requires IsTurn(ph) && !HasLegal(b, Other(ph))
    ensures SwitchTurn(b, black, white, ph) == PassBack(MarkValid(b, Other(ph)), black, white, ph)
    ensures SameDiscs(b, MarkValid(b, Other(ph)))
  {
    MovesIffLegal(b, MarkValid(b, Other(ph)), black, white, Other(ph));
    assert Other(Other(ph)) == ph;
  }

  lemma PassResolution(b: Board, b1: Board, black: int, white: int, back: Phase)
    requires IsTurn(back) && SameDiscs(b, b1)
    ensures var g := PassBack(b1, black, white, back);
      if HasLegal(b, back) then g.phase == back else g.phase == ByScore(black, white)
  {
    var b2 := MarkValid(b1, back);
    assert ValidCells(b2, ColumnMajor) != [] <==> HasLegal(b, back) by {
      SameDiscsTransitive(b, b1, b2);
      ListedIffLegal(b, b2, back);
    }
  }

  // ---------------------------------------------------------------------
  // Playing a move

  /** The board after the side to move in `ph` plays at `p`: the disc is
      placed first, then every run it brackets is painted in its colour. */
  function Place(b: Board, p: Pos, ph: Phase): (r: Board)
    requires OnBoard(p)
    ensures forall i {:trigger r[i]} :: 0 <= i < 64 ==>
      r[i] == if i == Index(p) || PosOf(i) in Flipped(b, p, Mover(ph), Opponent(ph)) then Mover(ph) else b[i]
  {
    var placed := b[Index(p) := Mover(ph)];
    var flips := Flipped(placed, p, Mover(ph), Opponent(ph));
    assert SameDiscsAwayFrom(placed, b, p);
    FlippedFrame(placed, b, p, Mover(ph), Opponent(ph));
    Paint(placed, flips, Mover(ph))
  }

  /** `make_move`: refused once the game is over or on a cell not marked
      `Valid`, and otherwise the placed board handed to `_update_state`. */
  function MakeMove(g: Game, p: Pos): (r: MoveResult)
    ensures r == Rejected(GameOver) <==> !IsTurn(g.phase)
    ensures r == Rejected(InvalidPosition) <==> IsTurn(g.phase) && !(OnBoard(p) && At(g.board, p) == Valid)
    ensures r.Moved? ==> r.game == UpdateState(Place(g.board, p, g.phase), g.phase)
  {
    if !IsTurn(g.phase) then Rejected(GameOver)
    else if !OnBoard(p) || At(g.board, p) != Valid then Rejected(InvalidPosition)
    else Moved(UpdateState(Place(g.board, p, g.phase), g.phase))
  }

  // ---------------------------------------------------------------------
  // What a move does to the discs and the scores

  /** The score the game records for a colour. */
  function Score(g: Game, c: Cell): int {
    if c == Black then g.blackScore else g.whiteScore
  }

  /** The cells of each colour after placing on a legal cell: the mover gains
      the played cell and the flipped cells, which were the opponent's. */
  lemma PlaceCells(b: Board, p: Pos, ph: Phase)
    requires Legal(b, p, ph)
    ensures var f := Spots(Flipped(b, p, Mover(ph), Opponent(ph)));
      var r := Place(b, p, ph);
      && Cells(r, Mover(ph)) == Cells(b, Mover(ph)) + {Index(p)} + f
      && Cells(r, Opponent(ph)) == Cells(b, Opponent(ph)) - f
      && f <= Cells(b, Opponent(ph))
      && Index(p) !in Cells(b, Mover(ph)) + f
      && Cells(b, Mover(ph)) !! f
  {
    var flips := Flipped(b, p, Mover(ph), Opponent(ph));
    var f := Spots(flips);
    var r := Place(b, p, ph);
    FlippedDistinct(b, p, Mover(ph), Opponent(ph));
    SpotOf(p, flips);
    forall i | i in f
      ensures b[i] == Opponent(ph)
    {
      PosOfIndex(PosOf(i));
    }
  }

  lemma SubsetSize(a: set<int>, f: set<int>)
    requires f <= a
    ensures |a - f| == |a| - |f|
  {
    assert (a - f) + f == a;
    DisjointUnionSize(a - f, f);
  }

  lemma GrowSize(a: set<int>, x: int, f: set<int>)
    requires x !in a + f && a !! f
    ensures |a + {x} + f| == |a| + 1 + |f|
  {
    DisjointUnionSize(a, f);
    DisjointUnionSize(a + f, {x});
    assert a + {x} + f == a + f + {x};
  }

  lemma PlaceMoverCount(b: Board, p: Pos, ph: Phase)
    requires Legal(b, p, ph)
    ensures Count(Place(b, p, ph), Mover(ph))
         == Count(b, Mover(ph)) + 1 + |Flipped(b, p, Mover(ph), Opponent(ph))|
  {
    var flips := Flipped(b, p, Mover(ph), Opponent(ph));
    var f := Spots(flips);
    PlaceCells(b, p, ph);
    FlippedDistinct(b, p, Mover(ph), Opponent(ph));
    SpotsSize(flips);
    GrowSize(Cells(b, Mover(ph)), Index(p), f);
  }

  lemma PlaceOpponentCount(b: Board, p: Pos, ph: Phase)
    requires Legal(b, p, ph)
    ensures Count(Place(b, p, ph), Opponent(ph))
         == Count(b, Opponent(ph)) - |Flipped(b, p, Mover(ph), Opponent(ph))|
  {
    var flips := Flipped(b, p, Mover(ph), Opponent(ph));
    PlaceCells(b, p, ph);
    FlippedDistinct(b, p, Mover(ph), Opponent(ph));
    SpotsSize(flips);
    SubsetSize(Cells(b, Opponent(ph)), Spots(flips));
  }

  /** Placing on a legal cell: the mover gains one disc plus one per flipped
      disc, the opponent loses the flipped discs, and one blank cell is filled. */
  lemma PlaceCounts(b: Board, p: Pos, ph: Phase)
    requires Legal(b, p, ph)
    ensures var n := |Flipped(b, p, Mover(ph), Opponent(ph))|;
      var r := Place(b, p, ph);
      && Count(r, Mover(ph)) == Count(b, Mover(ph)) + 1 + n
      && Count(r, Opponent(ph)) == Count(b, Opponent(ph)) - n
      && Blanks(r) == Blanks(b) - 1
  {
    PlaceMoverCount(b, p, ph);
    PlaceOpponentCount(b, p, ph);
    CountPartition(b);
    CountPartition(Place(b, p, ph));
  }

  /** A marked cell of a well-formed game is legal. */
  lemma MarkedIsLegal(g: Game, p: Pos)
    requires WellFormed(g) && IsTurn(g.phase) && OnBoard(p)
    ensures At(g.board, p) == Valid <==> Legal(g.board, p, g.phase)
  {
    LegalAt(g.board, g.board, g.phase, p);
  }

  /** Every accepted move flips at least one disc; the mover's score grows by
      one plus the flipped discs, the opponent's shrinks by the flipped discs,
      and exactly one blank cell is filled, so the number of blank cells is a
      measure that every move decreases. */
  lemma MoveAccounting(g: Game, p: Pos)
    requires WellFormed(g) && MakeMove(g, p).Moved?
    ensures var n := |Flipped(g.board, p, Mover(g.phase), Opponent(g.phase))|;
      var r := MakeMove(g, p).game;
      && n >= 1
      && Score(r, Mover(g.phase)) == Score(g, Mover(g.phase)) + 1 + n
      && Score(r, Opponent(g.phase)) == Score(g, Opponent(g.phase)) - n
      && Blanks(r.board) == Blanks(g.board) - 1
  {
    var placed := Place(g.board, p, g.phase);
    MarkedIsLegal(g, p);
    PlaceCounts(g.board, p, g.phase);
    UpdateStateWellFormed(placed, g.phase);
    SameDiscsCounts(placed, UpdateState(placed, g.phase).board);
  }

  /** The scores of a well-formed game and its blank cells make up the board. */
  lemma ScoresPartition(g: Game)
    requires WellFormed(g)
    ensures g.blackScore + g.whiteScore + Blanks(g.board) == 64
  {
    CountPartition(g.board);
  }

  /** Every accepted move leaves a well-formed game, whatever it started from. */
  lemma MakeMoveWellFormed(g: Game, p: Pos)
    ensures MakeMove(g, p).Moved? ==> WellFormed(MakeMove(g, p).game)
  {
    if MakeMove(g, p).Moved? {
      UpdateStateWellFormed(Place(g.board, p, g.phase), g.phase);
    }
  }

  /** In a well-formed game a move is accepted exactly on a legal cell. */
  lemma MakeMoveAcceptsLegal(g: Game, p: Pos)
    requires WellFormed(g) && IsTurn(g.phase)
    ensures MakeMove(g, p).Moved? <==> Legal(g.board, p, g.phase)
  {
    if OnBoard(p) {
      MarkedIsLegal(g, p);
    }
  }

  /** In a well-formed game the listed moves are exactly the legal cells of the
      side to move, and nothing is listed once the game is over. */
  lemma ValidMovesAreLegal(g: Game, q: Pos)
    requires WellFormed(g)
    ensures q in ValidMoves(g) <==> IsTurn(g.phase) && Legal(g.board, q, g.phase)
  {
    if IsTurn(g.phase) && OnBoard(q) {
      MarkedIsLegal(g, q);
    }
  }
}
