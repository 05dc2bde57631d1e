/** The older engine in `core/othello.py`. Its move application, capture scan,
    re-marking and phase resolution are those of the canonical engine
    (`Rules`); the one difference is that its `get_valid_moves` lists the
    marked cells without asking whether the game is still running. */
module Legacy {
  import opened Board
  import opened Capture
  import opened Rules

  /** `get_valid_moves` of the older engine: the marked cells by column, then
      by row, in every phase. */
  function ValidMoves(g: Game): (r: seq<Pos>)
    ensures forall q {:trigger q in r} :: q in r <==> OnBoard(q) && At(g.board, q) == Valid
    ensures Ranked(r, ColumnMajor)
  {
    ValidCells(g.board, ColumnMajor)
  }

  /** While a side is to move, both listings agree. */
  lemma AgreesWhileTurn(g: Game)
    ensures IsTurn(g.phase) ==> ValidMoves(g) == Rules.ValidMoves(g)
  {
  }

  // ---------------------------------------------------------------------
  // A wipe-out that leaves the loser's marks behind

  /** A move that takes the last disc of a side ends the game on the board
      as placed, without re-marking it: every other cell that was marked for
      the mover stays marked, and the older listing still offers it although
      the canonical one lists nothing. */
  lemma StaleAfterWipeout(g: Game, p: Pos, q: Pos)
    requires MakeMove(g, p).Moved?
    requires MakeMove(g, p).game.blackScore == 0 || MakeMove(g, p).game.whiteScore == 0
    requires OnBoard(q) && q != p && At(g.board, q) == Valid
    ensures !IsTurn(MakeMove(g, p).game.phase)
    ensures q in ValidMoves(MakeMove(g, p).game)
    ensures Rules.ValidMoves(MakeMove(g, p).game) == []
  {
    var placed := Place(g.board, p, g.phase);
    PosOfIndex(q);
    IndexInjective(p, q);
    assert q !in Flipped(g.board, p, Mover(g.phase), Opponent(g.phase));
    assert placed[Index(q)] == Valid;
  }

  // The constructed position below is one such wipe-out. It is not reached
  // from the opening (it holds three discs), but it shows that the
  // hypotheses of `StaleAfterWipeout` can be met.

  /** Black on (0,0) and (1,0), White on (1,1), and Black's two legal cells
      (1,2) and (2,2) marked. */
  function WipeoutCell(i: int): Cell {
    if i == 0 || i == 1 then Black
    else if i == 9 then White
    else if i == 17 || i == 18 then Valid
    else Empty
  }

  const WipeoutBoard: Board := seq(64, i => WipeoutCell(i))

  const WipeoutGame: Game := Game(WipeoutBoard, 2, 1, BlackTurn)

  lemma WipeoutAt(q: Pos)
    requires OnBoard(q)
    ensures At(WipeoutBoard, q) == White <==> q == Pos(1, 1)
    ensures At(WipeoutBoard, q) == Black <==> q == Pos(0, 0) || q == Pos(1, 0)
    ensures At(WipeoutBoard, q) == Valid <==> q == Pos(1, 2) || q == Pos(2, 2)
  {
    var Pos(x, y) := q;
    assert At(WipeoutBoard, q) == WipeoutCell(y * 8 + x);
  }

  /** With a single white disc Black brackets it only from (1,2) or (2,2). */
  lemma WipeoutBrackets(p: Pos, d: Dir, n: int)
    requires OnBoard(p) && IsDir(d)
    requires Brackets(WipeoutBoard, p, d, Black, White, n)
    ensures p == Pos(1, 2) || p == Pos(2, 2)
  {
    RayCellsAt(p, d);
    if n >= 2 {
      ShiftInjective(p, d, 1, d, 2);
    }
  }

  lemma RayCellsAt(p: Pos, d: Dir)
    ensures OnBoard(Shift(p, d, 1)) ==> (At(WipeoutBoard, Shift(p, d, 1)) == White <==> Shift(p, d, 1) == Pos(1, 1))
    ensures OnBoard(Shift(p, d, 2)) ==> (At(WipeoutBoard, Shift(p, d, 2)) == White <==> Shift(p, d, 2) == Pos(1, 1))
    ensures OnBoard(Shift(p, d, 2)) ==>
      (At(WipeoutBoard, Shift(p, d, 2)) == Black <==> Shift(p, d, 2) == Pos(0, 0) || Shift(p, d, 2) == Pos(1, 0))
  {
    if OnBoard(Shift(p, d, 1)) {
      WipeoutAt(Shift(p, d, 1));
    }
    if OnBoard(Shift(p, d, 2)) {
      WipeoutAt(Shift(p, d, 2));
    }
  }

  lemma CapturesOnlyNearWhite(p: Pos)
    requires OnBoard(p) && Captures(WipeoutBoard, p, Black, White, Directions)
    ensures p == Pos(1, 2) || p == Pos(2, 2)
  {
    var j, n :| 0 <= j < |Directions| && Brackets(WipeoutBoard, p, Directions[j], Black, White, n);
    DirectionsAreDirs();
    WipeoutBrackets(p, Directions[j], n);
  }

  lemma NearWhiteCaptures(p: Pos)
    requires p == Pos(1, 2) || p == Pos(2, 2)
    ensures Captures(WipeoutBoard, p, Black, White, Directions)
  {
    var j := if p == Pos(1, 2) then 3 else 5;
    RayCellsAt(p, Directions[j]);
    assert Brackets(WipeoutBoard, p, Directions[j], Black, White, 1);
  }

  lemma WipeoutLegal(p: Pos)
    requires OnBoard(p)
    ensures Legal(WipeoutBoard, p, BlackTurn) <==> p == Pos(1, 2) || p == Pos(2, 2)
  {
    FlippedNonEmptyIff(WipeoutBoard, p, Black, White);
    WipeoutAt(p);
    if Captures(WipeoutBoard, p, Black, White, Directions) {
      CapturesOnlyNearWhite(p);
    }
    if p == Pos(1, 2) || p == Pos(2, 2) {
      NearWhiteCaptures(p);
    }
  }

  /** The position is a well-formed game with Black to move. */
  lemma WipeoutWellFormed()
    ensures WellFormed(WipeoutGame)
  {
    forall i | 0 <= i < 64
      ensures WipeoutBoard[i] == Valid <==> Legal(WipeoutBoard, PosOf(i), BlackTurn)
    {
      WipeoutAt(PosOf(i));
      WipeoutLegal(PosOf(i));
    }
    assert Cells(WipeoutBoard, Black) == {0, 1};
    assert Cells(WipeoutBoard, White) == {9};
    assert 17 in Cells(WipeoutBoard, Valid);
  }

  /** Black's move at (2,2) flips the lone white disc. */
  lemma WipeoutFlips()
    ensures Pos(1, 1) in Flipped(WipeoutBoard, Pos(2, 2), Black, White)
  {
    var f := Flipped(WipeoutBoard, Pos(2, 2), Black, White);
    WipeoutLegal(Pos(2, 2));
    WipeoutAt(f[0]);
  }

  /** Playing (2,2) takes White's last disc: the game is over, yet the older
      listing still offers (1,2), a cell left marked from Black's turn. */
  lemma StaleMovesAfterWipeout()
    ensures MakeMove(WipeoutGame, Pos(2, 2)).Moved?
    ensures MakeMove(WipeoutGame, Pos(2, 2)).game.phase == BlackWon
    ensures Pos(1, 2) in ValidMoves(MakeMove(WipeoutGame, Pos(2, 2)).game)
    ensures Rules.ValidMoves(MakeMove(WipeoutGame, Pos(2, 2)).game) == []
  {
    var placed := Place(WipeoutBoard, Pos(2, 2), BlackTurn);
    var f := Flipped(WipeoutBoard, Pos(2, 2), Black, White);
    WipeoutAt(Pos(2, 2));
    WipeoutFlips();
    PosOfIndex(Pos(1, 1));
    forall i | 0 <= i < 64
      ensures placed[i] != White
    {
      WipeoutAt(PosOf(i));
    }
    assert Cells(placed, White) == {};
    WipeoutAt(Pos(0, 0));
    WipeoutAt(Pos(1, 2));
    assert 0 in Cells(placed, Black);
    assert placed[17] == Valid;
  }
}
