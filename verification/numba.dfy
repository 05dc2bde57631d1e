/** The array engine of `src_numba/core_numba/othello.py`. It shares the
    capture scan and move placement with the canonical engine, and differs
    in four ways: moves are listed row by row, the scores are kept
    incrementally, the re-marking pass never re-checks a cell that was
    marked on entry, and a reversible move with its undo is provided. */
module NumbaRules {
  import opened Board
  import opened Capture
  import opened Rules
  import opened Opening

  // ---------------------------------------------------------------------
  // Re-marking in one pass

  /** What `update_valid_cells` makes of cell `i`: a `Valid` cell is cleared
      and not looked at again; an `Empty` cell is marked when it flips
      something. */
  function ElifMark(b: Board, ph: Phase, i: int): Cell
    requires 0 <= i < 64
  {
    if b[i] == Valid then Empty
    else if b[i] == Empty && Flipped(b, PosOf(i), Mover(ph), Opponent(ph)) != [] then Valid
    else b[i]
  }

  lemma ElifFrame(a: Board, c: Board, ph: Phase, i: int)
    requires SameDiscs(a, c) && 0 <= i < 64 && a[i] == c[i]
    ensures ElifMark(a, ph, i) == ElifMark(c, ph, i)
  {
    SameDiscsAway(a, c, PosOf(i));
    FlippedFrame(a, c, PosOf(i), Mover(ph), Opponent(ph));
  }

  /** The loop body at row-major index `j`. */
  function ElifCell(b: Board, ph: Phase, j: int): (r: Board)
    requires 0 <= j < 64
    ensures SameDiscs(b, r)
    ensures r[j] == ElifMark(b, ph, j)
    ensures forall i :: 0 <= i < 64 && i != j ==> r[i] == b[i]
  {
    b[j := ElifMark(b, ph, j)]
  }

  /** The loop from index `j` on, each step reading the board as the earlier
      steps left it. */
  function ElifFrom(b: Board, ph: Phase, j: int): (r: Board)
    requires 0 <= j <= 64
    ensures SameDiscs(b, r)
    ensures forall i :: 0 <= i < j ==> r[i] == b[i]
    ensures forall i :: j <= i < 64 ==> r[i] == ElifMark(b, ph, i)
    decreases |b| - j
  {
    if j == 64 then b
    else
      var d := ElifCell(b, ph, j);
      var r := ElifFrom(d, ph, j + 1);
      SameDiscsTransitive(b, d, r);
      ElifRest(b, d, r, ph, j);
      r
  }

  lemma ElifRest(b: Board, d: Board, r: Board, ph: Phase, j: int)
    requires 0 <= j < 64 && SameDiscs(b, d)
    requires forall i :: 0 <= i < 64 && i != j ==> d[i] == b[i]
    requires forall i :: j + 1 <= i < 64 ==> r[i] == ElifMark(d, ph, i)
    ensures forall i :: j + 1 <= i < 64 ==> r[i] == ElifMark(b, ph, i)
  {
    forall i | j + 1 <= i < 64
      ensures r[i] == ElifMark(b, ph, i)
    {
      ElifFrame(d, b, ph, i);
    }
  }

  /** Every marked cell is legal for the side to move: the marks are a
      subset of the legal cells. */
  ghost predicate MarksSound(b: Board, ph: Phase) {
    forall i {:trigger b[i]} :: 0 <= i < 64 && b[i] == Valid ==> Legal(b, PosOf(i), ph)
  }

  /** `update_valid_cells`: the discs stay; afterwards a cell is marked exactly
      when it was `Empty` on entry and is legal, so every mark is legal but a
      legal cell that was marked on entry is left unmarked. */
  function MarkValidElif(b: Board, ph: Phase): (r: Board)
    ensures SameDiscs(b, r)
    ensures forall i {:trigger r[i]} :: 0 <= i < 64 ==> (r[i] == Valid <==> b[i] == Empty && Legal(b, PosOf(i), ph))
    ensures MarksSound(r, ph)
  {
    var r := ElifFrom(b, ph, 0);
    ElifSound(b, r, ph);
    r
  }

  lemma ElifSound(b: Board, r: Board, ph: Phase)
    requires SameDiscs(b, r)
    requires forall i :: 0 <= i < 64 ==> r[i] == ElifMark(b, ph, i)
    ensures MarksSound(r, ph)
  {
    forall i | 0 <= i < 64 && r[i] == Valid
      ensures Legal(r, PosOf(i), ph)
    {
      MarkFrame(b, r, ph, i);
    }
  }

  /** Exact marks are in particular sound. */
  lemma ExactIsSound(b: Board, ph: Phase)
    requires MarksExact(b, ph)
    ensures MarksSound(b, ph)
  {
  }

  /** White to move; (0,0) is still marked from Black's turn, (1,0) is black
      and (2,0) white. */
  function ElifCellAt(i: int): Cell {
    if i == 0 then Valid else if i == 1 then Black else if i == 2 then White else Empty
  }

  const ElifBoard: Board := seq(64, i => ElifCellAt(i))

  /** White at (0,0) would flip (1,0), yet the one-pass marking clears (0,0)
      and never re-checks it, while the canonical re-marking marks it. */
  lemma ElifDropsLegalCell()
    ensures Legal(ElifBoard, Pos(0, 0), WhiteTurn)
    ensures MarkValidElif(ElifBoard, WhiteTurn)[0] == Empty
    ensures MarkValid(ElifBoard, WhiteTurn)[0] == Valid
  {
    var p := Pos(0, 0);
    assert Brackets(ElifBoard, p, Directions[0], White, Black, 1);
    FlippedNonEmptyIff(ElifBoard, p, White, Black);
    MarkFrame(ElifBoard, MarkValid(ElifBoard, WhiteTurn), WhiteTurn, 0);
  }

  // ---------------------------------------------------------------------
  // Listing, phase and moves

  /** `get_valid_moves`: nothing once the game is over, otherwise the marked
      cells row by row. */
  function ValidMoves(g: Game): (r: seq<Pos>)
    ensures forall q {:trigger q in r} :: q in r <==> IsTurn(g.phase) && OnBoard(q) && At(g.board, q) == Valid
    ensures Ranked(r, RowMajor)
  {
    if !IsTurn(g.phase) then [] else ValidCells(g.board, RowMajor)
  }

  /** The numba listing holds the same cells as the canonical one, row by
      row instead of column by column. */
  lemma SameMovesOtherOrder(g: Game, q: Pos)
    ensures q in ValidMoves(g) <==> q in Rules.ValidMoves(g)
  {
  }

  /** The opening moves, row by row. */
  lemma StartMovesByRow()
    ensures ValidMoves(Start) == [Pos(3, 2), Pos(2, 3), Pos(5, 4), Pos(4, 5)]
  {
    var r := ValidMoves(Start);
    var want := [Pos(3, 2), Pos(2, 3), Pos(5, 4), Pos(4, 5)];
    forall q
      ensures q in r <==> q in want
    {
      if OnBoard(q) {
        StartAt(q);
      }
    }
    RankedEqual(r, want, RowMajor);
  }

  /** `update_state`, given the board after the mover of `ph` played and the
      scores as kept incrementally. */
  function UpdateState(b: Board, black: int, white: int, ph: Phase): (g: Game)
    ensures g.blackScore == black && g.whiteScore == white
    ensures IsFull(b) || black == 0 || white == 0 ==> g.board == b && !IsTurn(g.phase)
    ensures IsTurn(g.phase) ==> ValidMoves(g) != [] && (g.phase == Other(ph) || g.phase == Other(Other(ph)))
    ensures !IsTurn(g.phase) ==> g.phase == ByScore(black, white)
  {
    if IsFull(b) || black == 0 || white == 0 then
      Game(b, black, white, ByScore(black, white))
    else
      var next := Other(ph);
      var b1 := MarkValidElif(b, next);
      if ValidMoves(Game(b1, black, white, next)) != [] then
        Game(b1, black, white, next)
      else
        var back := Other(next);
        var b2 := MarkValidElif(b1, back);
        if ValidMoves(Game(b2, black, white, back)) != [] then
          Game(b2, black, white, back)
        else
          Game(b2, black, white, ByScore(black, white))
  }

  /** The invariant of the array engine: the scores are the disc counts, and
      while a side is to move its marks are legal and there is at least one. */
  ghost predicate WellFormed(g: Game) {
    && g.blackScore == Count(g.board, Black)
    && g.whiteScore == Count(g.board, White)
    && (IsTurn(g.phase) ==> MarksSound(g.board, g.phase) && Count(g.board, Valid) > 0)
  }

  lemma RowListedCounted(g: Game)
    requires ValidMoves(g) != []
    ensures Count(g.board, Valid) > 0
  {
    ListedCellMarked(g.board, RowMajor);
  }

  /** `update_state` keeps the discs and the scores it is given, and hands the
      turn only to a side with a legal mark. */
  lemma UpdateStateReady(b: Board, black: int, white: int, ph: Phase)
    ensures var g := UpdateState(b, black, white, ph);
      && SameDiscs(b, g.board) && g.blackScore == black && g.whiteScore == white
      && (IsTurn(g.phase) ==> MarksSound(g.board, g.phase) && Count(g.board, Valid) > 0)
  {
    if !(IsFull(b) || black == 0 || white == 0) {
      var next := Other(ph);
      var b1 := MarkValidElif(b, next);
      var b2 := MarkValidElif(b1, Other(next));
      SameDiscsTransitive(b, b1, b2);
      if ValidMoves(Game(b1, black, white, next)) != [] {
        RowListedCounted(Game(b1, black, white, next));
      } else if ValidMoves(Game(b2, black, white, Other(next))) != [] {
        RowListedCounted(Game(b2, black, white, Other(next)));
      }
    }
  }

  /** `make_move` returns the game and a success flag. */
  datatype Outcome = Outcome(game: Game, success: bool)

  /** The score change of a move: the mover gains the placed disc and the
      flipped ones, the opponent loses the flipped ones. */
  function ScoresAfter(g: Game, n: int): (int, int)
    requires IsTurn(g.phase)
  {
    if Mover(g.phase) == Black then (g.blackScore + 1 + n, g.whiteScore - n)
    else (g.blackScore - n, g.whiteScore + 1 + n)
  }

  /** `make_move`: refused with the inputs unchanged once the game is over or
      on a cell not marked `Valid`; otherwise the disc is placed, the runs are
      flipped and the scores adjusted by the number flipped. */
  function MakeMove(g: Game, p: Pos): (r: Outcome)
    ensures !r.success <==> !IsTurn(g.phase) || !(OnBoard(p) && At(g.board, p) == Valid)
    ensures !r.success ==> r.game == g
  {
    if !IsTurn(g.phase) || !(OnBoard(p) && At(g.board, p) == Valid) then Outcome(g, false)
    else
      var n := |Flipped(g.board, p, Mover(g.phase), Opponent(g.phase))|;
      var (black, white) := ScoresAfter(g, n);
      Outcome(UpdateState(Place(g.board, p, g.phase), black, white, g.phase), true)
  }

  /** The incrementally kept scores equal a recount of the board after every
      accepted move, and the invariant is kept. */
  lemma MakeMoveWellFormed(g: Game, p: Pos)
    requires WellFormed(g)
    ensures WellFormed(MakeMove(g, p).game)
    ensures MakeMove(g, p).success ==>
      && MakeMove(g, p).game.blackScore == Count(MakeMove(g, p).game.board, Black)
      && MakeMove(g, p).game.whiteScore == Count(MakeMove(g, p).game.board, White)
  {
    if MakeMove(g, p).success {
      var placed := Place(g.board, p, g.phase);
      var n := |Flipped(g.board, p, Mover(g.phase), Opponent(g.phase))|;
      var (black, white) := ScoresAfter(g, n);
      PosOfIndex(p);
      PlaceCounts(g.board, p, g.phase);
      UpdateStateReady(placed, black, white, g.phase);
      SameDiscsCounts(placed, UpdateState(placed, black, white, g.phase).board);
    }
  }

  /** Every accepted move flips at least one disc and fills one blank cell. */
  lemma MoveFlipsAndFills(g: Game, p: Pos)
    requires WellFormed(g) && MakeMove(g, p).success
    ensures Flipped(g.board, p, Mover(g.phase), Opponent(g.phase)) != []
    ensures Blanks(MakeMove(g, p).game.board) == Blanks(g.board) - 1
  {
    var placed := Place(g.board, p, g.phase);
    var n := |Flipped(g.board, p, Mover(g.phase), Opponent(g.phase))|;
    var (black, white) := ScoresAfter(g, n);
    PosOfIndex(p);
    PlaceCounts(g.board, p, g.phase);
    UpdateStateReady(placed, black, white, g.phase);
    SameDiscsCounts(placed, UpdateState(placed, black, white, g.phase).board);
  }

  /** The starting game satisfies the array engine's invariant. */
  lemma StartWellFormedHere()
    ensures WellFormed(Start)
  {
    StartWellFormed();
  }

  // ---------------------------------------------------------------------
  // Reversible moves

  /** `make_move_reversible`: the same move, also returning the flipped cells,
      and nothing flipped when the move is refused. */
  function MakeMoveReversible(g: Game, p: Pos): (r: (Game, seq<Pos>))
    ensures r.0 == MakeMove(g, p).game
  {
    if !IsTurn(g.phase) || !(OnBoard(p) && At(g.board, p) == Valid) then (g, [])
    else
      var flipped := Flipped(g.board[Index(p) := Mover(g.phase)], p, Mover(g.phase), Opponent(g.phase));
      var n := |Flipped(g.board, p, Mover(g.phase), Opponent(g.phase))|;
      var (black, white) := ScoresAfter(g, n);
      SameFlips(g.board, p, g.phase);
      (UpdateState(Place(g.board, p, g.phase), black, white, g.phase), flipped)
  }

  /** The scan after placing the disc finds what the scan before it finds:
      the played cell is never on its own rays. */
  lemma SameFlips(b: Board, p: Pos, ph: Phase)
    requires OnBoard(p)
    ensures Flipped(b[Index(p) := Mover(ph)], p, Mover(ph), Opponent(ph)) == Flipped(b, p, Mover(ph), Opponent(ph))
  {
    assert SameDiscsAwayFrom(b[Index(p) := Mover(ph)], b, p);
    FlippedFrame(b[Index(p) := Mover(ph)], b, p, Mover(ph), Opponent(ph));
  }

  /** On a soundly marked game the flipped list is empty exactly when the
      move is refused. */
  lemma ReversibleEmptyIffRejected(g: Game, p: Pos)
    requires WellFormed(g)
    ensures MakeMoveReversible(g, p).1 == [] <==> !MakeMove(g, p).success
  {
    if MakeMove(g, p).success {
      PosOfIndex(p);
      SameFlips(g.board, p, g.phase);
    }
  }

  /** `undo_move`: the flipped cells go back to the opponent and the played
      cell is emptied. */
  function UndoMove(b: Board, p: Pos, flipped: seq<Pos>, original: Phase): (u: Board)
    requires OnBoard(p) && AllOnBoard(flipped)
    ensures u[Index(p)] == Empty
    ensures forall i {:trigger u[i]} :: 0 <= i < 64 && i != Index(p) ==>
      u[i] == if PosOf(i) in flipped then Opponent(original) else b[i]
  {
    Paint(b, flipped, Opponent(original))[Index(p) := Empty]
  }

  /** A reversible move followed by its undo gives back every disc of the
      original board and leaves the played cell empty; the marks and the
      phase are not restored. */
  lemma UndoRestoresDiscs(g: Game, p: Pos)
    requires IsTurn(g.phase) && OnBoard(p) && At(g.board, p) == Valid
    ensures var (after, flipped) := MakeMoveReversible(g, p);
      AllOnBoard(flipped) &&
      var u := UndoMove(after.board, p, flipped, g.phase);
      SameDiscs(g.board, u) && u[Index(p)] == Empty
  {
    var placed := Place(g.board, p, g.phase);
    var f := Flipped(g.board, p, Mover(g.phase), Opponent(g.phase));
    var (black, white) := ScoresAfter(g, |f|);
    var after := UpdateState(placed, black, white, g.phase);
    SameFlips(g.board, p, g.phase);
    UpdateStateReady(placed, black, white, g.phase);
    UndoCells(g.board, placed, after.board, UndoMove(after.board, p, f, g.phase), p, f, Mover(g.phase), Opponent(g.phase));
  }

  lemma UndoCells(b: Board, placed: Board, after: Board, u: Board, p: Pos, f: seq<Pos>, mover: Cell, opp: Cell)
    requires OnBoard(p) && b[Index(p)] == Valid && IsDisc(opp)
    requires forall k :: 0 <= k < |f| ==> OnBoard(f[k]) && At(b, f[k]) == opp
    requires forall i {:trigger placed[i]} :: 0 <= i < 64 ==>
      placed[i] == if i == Index(p) || PosOf(i) in f then mover else b[i]
    requires SameDiscs(placed, after)
    requires u[Index(p)] == Empty
    requires forall i {:trigger u[i]} :: 0 <= i < 64 && i != Index(p) ==>
      u[i] == if PosOf(i) in f then opp else after[i]
    ensures SameDiscs(b, u)
  {
    forall i | 0 <= i < 64 && (IsDisc(b[i]) || IsDisc(u[i]))
      ensures b[i] == u[i]
    {
      if i != Index(p) && PosOf(i) in f {
        var k :| 0 <= k < |f| && f[k] == PosOf(i);
        assert b[i] == opp == u[i];
      } else {
        assert placed[i] == b[i] && u[i] == after[i];
      }
    }
  }

  // ---------------------------------------------------------------------
  // The scanning loops

  /** `get_flipped_cells`: the eight rays appended one after another. */
  method GetFlippedCells(b: Board, p: Pos, player: Cell, opp: Cell) returns (flipped: seq<Pos>)
    requires OnBoard(p) && player != opp
    ensures flipped == Flipped(b, p, player, opp)
  {
    DirectionsAreDirs();
    ghost var total := Flipped(b, p, player, opp);
    AlongEnds(b, p, player, opp);
    flipped := [];
    var k := 0;
    while k < |Directions|
      invariant 0 <= k <= |Directions|
      invariant flipped + FlippedAlong(b, p, player, opp, Directions[k..]) == total
    {
      var line := FlippedInDirection(b, p, Directions[k], player, opp);
      AlongStep(b, p, player, opp, k);
      ConcatShift(flipped, line, FlippedAlong(b, p, player, opp, Directions[k + 1..]), total);
      flipped := flipped + line;
      k := k + 1;
    }
  }

  lemma ConcatShift<T>(a: seq<T>, c: seq<T>, d: seq<T>, t: seq<T>)
    requires a + (c + d) == t
    ensures (a + c) + d == t
  {
  }

  /** All eight rays are the flipped list; none of them is nothing. */
  lemma AlongEnds(b: Board, p: Pos, player: Cell, opp: Cell)
    requires OnBoard(p) && player != opp
    ensures AllDirs(Directions[0..]) && AllDirs(Directions[|Directions|..])
    ensures FlippedAlong(b, p, player, opp, Directions[0..]) == Flipped(b, p, player, opp)
    ensures FlippedAlong(b, p, player, opp, Directions[|Directions|..]) == []
  {
    DirectionsAreDirs();
    assert Directions[0..] == Directions;
    assert Directions[|Directions|..] == [];
  }

  /** `len_flipped_cells`: the number of discs the move would flip, summed ray
      by ray without building the list. */
  method LenFlippedCells(b: Board, p: Pos, player: Cell, opp: Cell) returns (count: nat)
    requires OnBoard(p) && player != opp
    ensures count == |Flipped(b, p, player, opp)|
    ensures count == 0 <==> Flipped(b, p, player, opp) == []
  {
    DirectionsAreDirs();
    count := 0;
    var k := 0;
    while k < |Directions|
      invariant 0 <= k <= |Directions|
      invariant count + |FlippedAlong(b, p, player, opp, Directions[k..])| == |Flipped(b, p, player, opp)|
    {
      var line := FlippedInDirection(b, p, Directions[k], player, opp);
      AlongStep(b, p, player, opp, k);
      count := count + |line|;
      k := k + 1;
    }
  }

  /** The rays from the `k`-th direction on: the `k`-th ray, then the rest. */
  lemma AlongStep(b: Board, p: Pos, player: Cell, opp: Cell, k: int)
    requires OnBoard(p) && player != opp && 0 <= k < |Directions|
    ensures AllDirs(Directions[k..])
    ensures FlippedAlong(b, p, player, opp, Directions[k..])
         == FlippedInDirection(b, p, Directions[k], player, opp) + FlippedAlong(b, p, player, opp, Directions[k + 1..])
  {
    DirectionsAreDirs();
    assert Directions[k..][1..] == Directions[k + 1..];
  }
}
