/** The starting position of `Othello.__init__`: four discs in the centre,
    Black to move, and Black's four legal cells already marked. */
module Opening {
  import opened Board
  import opened Capture
  import opened Rules

  /** The cell at row-major index `i` of the starting board. */
  function StartCell(i: int): Cell {
    if i == 27 || i == 36 then White
    else if i == 28 || i == 35 then Black
    else if i == 19 || i == 26 || i == 37 || i == 44 then Valid
    else Empty
  }

  const StartBoard: Board := seq(64, i => StartCell(i))

  /** The game every engine starts from. */
  const Start: Game := Game(StartBoard, 2, 2, BlackTurn)

  /** The four cells Black may open with. */
  predicate IsOpening(p: Pos) {
    p == Pos(2, 3) || p == Pos(3, 2) || p == Pos(4, 5) || p == Pos(5, 4)
  }

  lemma StartAt(q: Pos)
    requires OnBoard(q)
    ensures At(StartBoard, q) == White <==> q == Pos(3, 3) || q == Pos(4, 4)
    ensures At(StartBoard, q) == Black <==> q == Pos(4, 3) || q == Pos(3, 4)
    ensures At(StartBoard, q) == Valid <==> IsOpening(q)
  {
    var Pos(x, y) := q;
    assert At(StartBoard, q) == StartCell(y * 8 + x);
  }

  /** Three steps along a ray never stay on the two white discs. */
  lemma NoLongRun(p: Pos, d: Dir, n: int)
    requires IsDir(d) && 2 <= n
    requires OppRun(StartBoard, p, d, White, n)
    ensures n == 2 && !(OnBoard(Shift(p, d, 3)) && At(StartBoard, Shift(p, d, 3)) == Black)
  {
    var q1, q2 := Shift(p, d, 1), Shift(p, d, 2);
    StartAt(q1);
    StartAt(q2);
    ShiftInjective(p, d, 1, d, 2);
    if n >= 3 {
      var q3 := Shift(p, d, 3);
      StartAt(q3);
      ShiftInjective(p, d, 1, d, 3);
      ShiftInjective(p, d, 2, d, 3);
    } else if OnBoard(Shift(p, d, 3)) {
      StartAt(Shift(p, d, 3));
    }
  }

  /** On the starting board Black brackets a single white disc, and only
      from the four opening cells. */
  lemma StartBrackets(p: Pos, d: Dir, n: int)
    requires OnBoard(p) && IsDir(d)
    requires Brackets(StartBoard, p, d, Black, White, n)
    ensures n == 1 && IsOpening(p)
  {
    if n >= 2 {
      NoLongRun(p, d, n);
    }
    StartAt(Shift(p, d, 1));
    StartAt(Shift(p, d, 2));
  }

  lemma CapturesOnlyFromOpening(p: Pos)
    requires OnBoard(p) && Captures(StartBoard, p, Black, White, Directions)
    ensures IsOpening(p)
  {
    var j, n :| 0 <= j < |Directions| && Brackets(StartBoard, p, Directions[j], Black, White, n);
    DirectionsAreDirs();
    StartBrackets(p, Directions[j], n);
  }

  /** From each opening cell one direction brackets the adjacent white disc. */
  lemma OpeningCaptures(p: Pos)
    requires IsOpening(p)
    ensures Captures(StartBoard, p, Black, White, Directions)
  {
    var j := if p == Pos(2, 3) then 0 else if p == Pos(5, 4) then 1 else if p == Pos(3, 2) then 2 else 3;
    var d := Directions[j];
    StartAt(Shift(p, d, 1));
    StartAt(Shift(p, d, 2));
    assert Brackets(StartBoard, p, d, Black, White, 1);
  }

  /** Black's legal cells at the start are exactly the four opening cells. */
  lemma StartLegal(p: Pos)
    requires OnBoard(p)
    ensures Legal(StartBoard, p, BlackTurn) <==> IsOpening(p)
  {
    FlippedNonEmptyIff(StartBoard, p, Black, White);
    StartAt(p);
    if Captures(StartBoard, p, Black, White, Directions) {
      CapturesOnlyFromOpening(p);
    }
    if IsOpening(p) {
      OpeningCaptures(p);
    }
  }

  lemma StartMarksExact()
    ensures MarksExact(StartBoard, BlackTurn)
  {
    forall i | 0 <= i < 64
      ensures StartBoard[i] == Valid <==> Legal(StartBoard, PosOf(i), BlackTurn)
    {
      StartAt(PosOf(i));
      StartLegal(PosOf(i));
    }
  }

  lemma StartCounts()
    ensures Count(StartBoard, Black) == 2 && Count(StartBoard, White) == 2
    ensures Count(StartBoard, Valid) == 4 && Count(StartBoard, Empty) == 56
  {
    assert Cells(StartBoard, Black) == {28, 35};
    assert Cells(StartBoard, White) == {27, 36};
    assert Cells(StartBoard, Valid) == {19, 26, 37, 44};
    CountPartition(StartBoard);
  }

  /** The starting game is well formed: the scores are the disc counts and
      exactly Black's legal cells are marked. */
  lemma StartWellFormed()
    ensures WellFormed(Start)
  {
    StartMarksExact();
    StartCounts();
  }

  /** The opening moves listed by `get_valid_moves`, column by column. */
  lemma StartMoves()
    ensures ValidMoves(Start) == [Pos(2, 3), Pos(3, 2), Pos(4, 5), Pos(5, 4)]
  {
    var r := ValidMoves(Start);
    var want := [Pos(2, 3), Pos(3, 2), Pos(4, 5), Pos(5, 4)];
    forall q
      ensures q in r <==> q in want
    {
      if OnBoard(q) {
        StartAt(q);
      }
    }
    RankedEqual(r, want, ColumnMajor);
  }
}
