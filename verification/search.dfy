/** Alpha-beta minimax as the three `minimax.py` files run it. Each copy's
    `_minimax` is the search of `Trees` over the tree of positions it
    explores: the leaves are `_evaluate_board`, a node's children are the
    positions after each listed move, in the order `get_valid_moves` lists
    them. A `Variant` selects the engine, the sentinels and the bound update. */
module Search {
  import opened Board
  import opened Rules
  import opened Evaluation
  import Legacy
  import NumbaRules
  import Trees

  /** The invariant of the engine a variant plays on. */
  ghost predicate Ready(v: Variant, g: Game) {
    if v == Numba then NumbaRules.WellFormed(g) else Rules.WellFormed(g)
  }

  /** The variant's `get_valid_moves`. */
  function Moves(v: Variant, g: Game): seq<Pos> {
    match v
    case Src => Rules.ValidMoves(g)
    case Core => Legacy.ValidMoves(g)
    case Numba => NumbaRules.ValidMoves(g)
  }

  /** The copied game after `make_move`. A refused move leaves the copy as it
      was; `ListedPlay` shows that no listed move is refused. */
  function Play(v: Variant, g: Game, p: Pos): Game {
    if v == Numba then NumbaRules.MakeMove(g, p).game
    else match Rules.MakeMove(g, p)
      case Moved(h) => h
      case Rejected(_) => g
  }

  /** Every listed move of a running game is accepted, keeps the engine's
      invariant and fills one blank cell: the recursion's measure. */
  lemma ListedPlay(v: Variant, g: Game, p: Pos)
    requires Ready(v, g) && IsTurn(g.phase) && p in Moves(v, g)
    ensures Ready(v, Play(v, g, p))
    ensures Blanks(Play(v, g, p).board) == Blanks(g.board) - 1
    ensures v != Numba ==> MakeMove(g, p).Moved?
    ensures v == Numba ==> NumbaRules.MakeMove(g, p).success
  {
    if v == Numba {
      NumbaRules.MakeMoveWellFormed(g, p);
      NumbaRules.MoveFlipsAndFills(g, p);
    } else {
      Legacy.AgreesWhileTurn(g);
      ValidMovesAreLegal(g, p);
      MakeMoveAcceptsLegal(g, p);
      MoveAccounting(g, p);
      MakeMoveWellFormed(g, p);
    }
  }

  /** A side to move always has a listed move. */
  lemma TurnHasMoves(v: Variant, g: Game)
    requires Ready(v, g) && IsTurn(g.phase)
    ensures Moves(v, g) != []
  {
    Legacy.AgreesWhileTurn(g);
    ValidCellsEmptyIff(g.board, if v == Numba then RowMajor else ColumnMajor);
  }

  /** The bound the searches start from: `sys.maxsize`, 10000 or infinity. */
  function High(v: Variant): Value {
    match v
    case Src => Fin(MaxSize)
    case Core => Fin(10000)
    case Numba => PosInf
  }

  /** `best_value` before the first move: the negated bound at a maximizing
      node, the bound at a minimizing one. */
  function Initial(v: Variant, maxNode: bool): Value {
    if maxNode then Neg(High(v)) else High(v)
  }

  // ---------------------------------------------------------------------
  // The tree of positions

  /** The positions `_minimax` explores from `g` for the side `me`: a leaf
      scored by `_evaluate_board` at depth zero, once the game is over, or
      when no move is listed (the array copy's `if not moves`); otherwise a
      node that maximizes when `me` is to move. A negative depth never
      reaches zero and explores to the end of the game. */
  function GameTree(v: Variant, g: Game, me: Phase, depth: int): Trees.Tree
    decreases Blanks(g.board), 2
  {
    if depth == 0 || !IsTurn(g.phase) || Moves(v, g) == [] then Trees.Leaf(Level(Evaluate(v, g, me)))
    else Trees.Node(g.phase == me, Level(Initial(v, g.phase == me)), Children(v, g, me, depth))
  }

  /** The trees after each listed move, in the listed order. */
  function Children(v: Variant, g: Game, me: Phase, depth: int): (r: seq<Trees.Tree>)
    ensures |r| == |Moves(v, g)|
    decreases Blanks(g.board), 1
  {
    seq(|Moves(v, g)|, i requires 0 <= i < |Moves(v, g)| => Subtree(v, g, me, depth, i))
  }

  /** The tree of the position after the `i`-th listed move, one level
      shallower. A move that fills no cell would end the branch there;
      `SubtreePlays` shows that no listed move of a running game does. */
  function Subtree(v: Variant, g: Game, me: Phase, depth: int, i: int): Trees.Tree
    requires 0 <= i < |Moves(v, g)|
    decreases Blanks(g.board), 0
  {
    var h := Play(v, g, Moves(v, g)[i]);
    if Blanks(h.board) < Blanks(g.board) then GameTree(v, h, me, depth - 1)
    else Trees.Leaf(Level(Evaluate(v, h, me)))
  }

  /** In a game that keeps its engine's invariant the branch never ends
      early: the subtree of a listed move is the tree of the position the
      move leads to, and that position keeps the invariant. */
  lemma SubtreePlays(v: Variant, g: Game, me: Phase, depth: int, i: int)
    requires Ready(v, g) && IsTurn(g.phase) && 0 <= i < |Moves(v, g)|
    ensures Ready(v, Play(v, g, Moves(v, g)[i]))
    ensures Subtree(v, g, me, depth, i) == GameTree(v, Play(v, g, Moves(v, g)[i]), me, depth - 1)
  {
    ListedPlay(v, g, Moves(v, g)[i]);
  }

  /** In such a game a running position above depth zero is a node: the
      `Moves == []` leaf is reached only by the array copy's `if not moves`,
      never by a game that keeps the invariant. */
  lemma RunningIsNode(v: Variant, g: Game, me: Phase, depth: int)
    requires Ready(v, g) && IsTurn(g.phase) && depth != 0
    ensures GameTree(v, g, me, depth).Node?
    ensures |GameTree(v, g, me, depth).kids| == |Moves(v, g)| > 0
  {
    TurnHasMoves(v, g);
  }

  /** The largest score a variant's leaves reach: `sys.maxsize`, 1100 or
      `Infinity`. */
  function Bound(v: Variant): int {
    Level(Top(v))
  }

  /** Every tree the engines explore is proper for the variant's range: the
      leaves lie within it, a node has a move, and `best_value` starts at
      the far end of the range or beyond. */
  lemma {:induction false} GameTreeProper(v: Variant, g: Game, me: Phase, depth: int)
    ensures Trees.Proper(GameTree(v, g, me, depth), -Bound(v), Bound(v))
    decreases Blanks(g.board), 1
  {
    EvaluateLevelBounded(v, g, me);
    if depth != 0 && IsTurn(g.phase) && Moves(v, g) != [] {
      ChildrenProper(v, g, me, depth);
    }
  }

  lemma {:induction false} ChildrenProper(v: Variant, g: Game, me: Phase, depth: int)
    ensures forall i :: 0 <= i < |Moves(v, g)| ==> Trees.Proper(Children(v, g, me, depth)[i], -Bound(v), Bound(v))
    decreases Blanks(g.board), 0
  {
    forall i | 0 <= i < |Moves(v, g)|
      ensures Trees.Proper(Subtree(v, g, me, depth, i), -Bound(v), Bound(v))
    {
      var h := Play(v, g, Moves(v, g)[i]);
      if Blanks(h.board) < Blanks(g.board) {
        GameTreeProper(v, h, me, depth - 1);
      } else {
        EvaluateLevelBounded(v, h, me);
      }
    }
  }

  // ---------------------------------------------------------------------
  // The searches

  /** The score `_minimax` returns with the window (alpha, beta): the value
      of `g` for the side `me`. */
  function AlphaBetaScore(v: Variant, g: Game, me: Phase, depth: int, alpha: int, beta: int): int {
    Trees.Search(GameTree(v, g, me, depth), alpha, beta, v == Core).0
  }

  /** The move `_minimax` returns with it: the listed move the score came
      from, (-1, -1) at a leaf. */
  function AlphaBetaMove(v: Variant, g: Game, me: Phase, depth: int, alpha: int, beta: int): (p: Pos)
    ensures p == Pos(-1, -1) || p in Moves(v, g)
  {
    var t := GameTree(v, g, me, depth);
    if t.Leaf? then Pos(-1, -1)
    else Moves(v, g)[Trees.Search(t, alpha, beta, v == Core).1]
  }

  /** Plain minimax over the same positions: every move examined. */
  function MinimaxScore(v: Variant, g: Game, me: Phase, depth: int): int {
    Trees.Minimax(GameTree(v, g, me, depth))
  }

  /** Alpha-beta is sound in every window: a score below beta is at least
      the minimax score, one above alpha at most. */
  lemma AlphaBetaSound(v: Variant, g: Game, me: Phase, depth: int, alpha: int, beta: int)
    requires alpha < beta
    ensures AlphaBetaScore(v, g, me, depth, alpha, beta) < beta ==>
              MinimaxScore(v, g, me, depth) <= AlphaBetaScore(v, g, me, depth, alpha, beta)
    ensures alpha < AlphaBetaScore(v, g, me, depth, alpha, beta) ==>
              AlphaBetaScore(v, g, me, depth, alpha, beta) <= MinimaxScore(v, g, me, depth)
  {
    Trees.SearchSound(GameTree(v, g, me, depth), alpha, beta, v == Core);
  }

  /** In a window that holds every leaf score, as each copy calls it,
      alpha-beta finds exactly the minimax score. */
  lemma AlphaBetaExact(v: Variant, g: Game, me: Phase, depth: int, alpha: int, beta: int)
    requires alpha <= -Bound(v) && Bound(v) <= beta && alpha < beta
    ensures AlphaBetaScore(v, g, me, depth, alpha, beta) == MinimaxScore(v, g, me, depth)
  {
    GameTreeProper(v, g, me, depth);
    Trees.FullWindowExact(GameTree(v, g, me, depth), -Bound(v), Bound(v), alpha, beta, v == Core);
  }

  /** A node's children are the subtrees of the listed moves. */
  lemma ChildrenAre(v: Variant, g: Game, me: Phase, depth: int)
    ensures forall j :: 0 <= j < |Moves(v, g)| ==> Children(v, g, me, depth)[j] == Subtree(v, g, me, depth, j)
  {
  }

  /** The minimax score, for the side to move, of the position after the
      `j`-th listed move. */
  function ChildScore(v: Variant, g: Game, depth: int, j: int): int
    requires 0 <= j < |Moves(v, g)|
  {
    Trees.Minimax(Subtree(v, g, g.phase, depth, j))
  }

  // ---------------------------------------------------------------------
  // The move at the root

  /** The root search of `src/core/minimax.py` and the array copy: alpha
      and `best_value` both start at minus the bound, beta at the bound. */
  function RootMove(v: Variant, g: Game, depth: int): (p: Pos)
    ensures p == Pos(-1, -1) || p in Moves(v, g)
  {
    AlphaBetaMove(v, g, g.phase, depth, Level(Neg(High(v))), Level(High(v)))
  }

  /** The index, among the listed moves, of the move the root search returns. */
  function RootIndex(v: Variant, g: Game, depth: int): int {
    Trees.Search(GameTree(v, g, g.phase, depth), Level(Neg(High(v))), Level(High(v)), v == Core).1
  }

  /** When the side to move has a move and depth remains, the root returns
      a listed move: the one at `RootIndex`. */
  lemma RootMoveListed(v: Variant, g: Game, depth: int)
    requires IsTurn(g.phase) && depth != 0 && Moves(v, g) != []
    ensures 0 <= RootIndex(v, g, depth) < |Moves(v, g)|
    ensures Moves(v, g)[RootIndex(v, g, depth)] == RootMove(v, g, depth)
  {
  }

  /** The root's choice in terms of the tree: the child at `RootIndex`
      scores the root's minimax score and every earlier child less. */
  lemma RootKidIsFirstBest(v: Variant, g: Game, depth: int)
    requires IsTurn(g.phase) && depth != 0 && Moves(v, g) != [] && v != Core
    ensures GameTree(v, g, g.phase, depth).Node?
    ensures 0 <= RootIndex(v, g, depth) < |GameTree(v, g, g.phase, depth).kids|
    ensures Trees.Minimax(GameTree(v, g, g.phase, depth).kids[RootIndex(v, g, depth)]) == MinimaxScore(v, g, g.phase, depth)
    ensures forall j :: 0 <= j < RootIndex(v, g, depth) ==>
              Trees.Minimax(GameTree(v, g, g.phase, depth).kids[j]) < MinimaxScore(v, g, g.phase, depth)
  {
    var t := GameTree(v, g, g.phase, depth);
    GameTreeProper(v, g, g.phase, depth);
    LevelOrder(High(v), High(v));
    assert t.Node? && t.maxNode && t.start == Level(Neg(High(v))) == -Bound(v);
    Trees.RootChoice(t, -Bound(v), Bound(v), Level(High(v)));
    assert RootIndex(v, g, depth) == Trees.Search(t, t.start, Level(High(v)), false).1;
  }

  /** The score of a listed move is the minimax score of the matching child
      of a running node. */
  lemma ChildScoreIsKid(v: Variant, g: Game, depth: int)
    requires IsTurn(g.phase) && depth != 0 && Moves(v, g) != []
    ensures forall j :: 0 <= j < |Moves(v, g)| ==>
              ChildScore(v, g, depth, j) == Trees.Minimax(GameTree(v, g, g.phase, depth).kids[j])
  {
    ChildrenAre(v, g, g.phase, depth);
  }

  /** With the side to move searching, the root returns the first move whose
      position has the best minimax score: every earlier move scores less. */
  lemma RootMoveIsFirstBest(v: Variant, g: Game, depth: int)
    requires IsTurn(g.phase) && depth != 0 && Moves(v, g) != [] && v != Core
    ensures var i := RootIndex(v, g, depth);
      0 <= i < |Moves(v, g)|
      && ChildScore(v, g, depth, i) == MinimaxScore(v, g, g.phase, depth)
      && forall j :: 0 <= j < i ==> ChildScore(v, g, depth, j) < MinimaxScore(v, g, g.phase, depth)
  {
    RootMoveListed(v, g, depth);
    RootKidIsFirstBest(v, g, depth);
    ChildScoreIsKid(v, g, depth);
  }

  /** The tree below the root of `core/minimax.py`: every listed move, each
      searched to `depth - 1` even when `depth` is zero. */
  function CoreTree(g: Game, depth: int): (t: Trees.Tree)
    ensures t.Node? && |t.kids| == |Moves(Core, g)|
  {
    Trees.Node(true, -10000, Children(Core, g, g.phase, depth))
  }

  /** The root loop of `core/minimax.py` as written: `best_value` starts at
      -10000 for Black and at 10000 for White, every move is searched in the
      window (-10000, 10000), and the loop stops at a score of 300. */
  function CoreRootAsWritten(g: Game, depth: int): (i: int)
    requires Moves(Core, g) != []
    ensures 0 <= i < |Moves(Core, g)|
  {
    Trees.CoreRootScan(CoreTree(g, depth), 0, -10000, 10000, 300, if g.phase == BlackTurn then -10000 else 10000, 0)
  }

  /** The root loop with `best_value` starting at -10000 for either side, as
      the scores are always the mover's own. */
  function CoreRoot(g: Game, depth: int): (i: int)
    requires Moves(Core, g) != []
    ensures 0 <= i < |Moves(Core, g)|
  {
    Trees.CoreRootScan(CoreTree(g, depth), 0, -10000, 10000, 300, -10000, 0)
  }

  lemma CoreTreeProper(g: Game, depth: int)
    requires Moves(Core, g) != []
    ensures Trees.Proper(CoreTree(g, depth), -1100, 1100)
  {
    ChildrenProper(Core, g, g.phase, depth);
  }

  /** As written, White's root never improves on 10000: whatever the
      scores, White plays the first listed move. */
  lemma CoreWhiteTakesFirst(g: Game, depth: int)
    requires Moves(Core, g) != [] && g.phase == WhiteTurn
    ensures CoreRootAsWritten(g, depth) == 0
  {
    CoreTreeProper(g, depth);
    Trees.CoreRootStuck(CoreTree(g, depth), 0, -10000, 10000, 300, 10000, 0, -1100, 1100);
  }

  /** For Black the two loops agree. */
  lemma CoreBlackUnchanged(g: Game, depth: int)
    requires Moves(Core, g) != [] && g.phase == BlackTurn
    ensures CoreRootAsWritten(g, depth) == CoreRoot(g, depth)
  {
  }

  /** The corrected root picks the first move whose position scores at
      least 300 if there is one, and otherwise the first move of best score. */
  lemma CoreRootPicks(g: Game, depth: int)
    requires Moves(Core, g) != []
    ensures var i := CoreRoot(g, depth);
      if exists j :: 0 <= j < |Moves(Core, g)| && 300 <= ChildScore(Core, g, depth, j) then
        300 <= ChildScore(Core, g, depth, i) && forall j :: 0 <= j < i ==> ChildScore(Core, g, depth, j) < 300
      else
        (forall j :: 0 <= j < |Moves(Core, g)| ==> ChildScore(Core, g, depth, j) <= ChildScore(Core, g, depth, i))
        && forall j :: 0 <= j < i ==> ChildScore(Core, g, depth, j) < ChildScore(Core, g, depth, i)
  {
    CoreTreeProper(g, depth);
    Trees.CoreRootPicks(CoreTree(g, depth), -10000, 10000, 300, -10000, -1100, 1100);
    ChildrenAre(Core, g, g.phase, depth);
  }

  // ---------------------------------------------------------------------
  // `minimax_move`

  /** `minimax_move`: the only move, a move drawn by `pick` in the first
      rounds, and otherwise the root search at the depth the round calls
      for. With nothing listed the array copy returns (-1, -1) at once; the
      canonical copy reaches its search, which returns (-1, -1) when the game
      is over or no depth remains and otherwise indexes the first listed
      move; the older copy always indexes or draws from the list. The older
      copy's unguarded listing can also offer stale marks once the game is
      over, and its root loop then plays them, which `make_move` refuses.
      The precondition admits exactly the cases that do not raise. The older
      copy's root is the corrected loop `CoreRoot`. */
  function ChooseMove(v: Variant, g: Game, depth: int, pick: nat): (p: Pos)
    requires Moves(v, g) == [] ==>
      v == Numba || (v == Src && Round(g.board) >= 3 && (!IsTurn(g.phase) || SearchDepth(v, Round(g.board), depth) == 0))
    requires v == Core && |Moves(v, g)| > 1 && Round(g.board) >= 3 ==> IsTurn(g.phase)
    ensures p == Pos(-1, -1) || p in Moves(v, g)
    ensures Moves(v, g) == [] ==> p == Pos(-1, -1)
    ensures |Moves(v, g)| == 1 ==> p == Moves(v, g)[0]
    ensures |Moves(v, g)| > 1 && (v == Core || Round(g.board) < 3 || SearchDepth(v, Round(g.board), depth) != 0) ==>
              p in Moves(v, g)
    ensures |Moves(v, g)| > 1 && v != Core && Round(g.board) >= 3 && SearchDepth(v, Round(g.board), depth) == 0 ==>
              p == Pos(-1, -1)
  {
    var moves := Moves(v, g);
    if moves == [] then Pos(-1, -1)
    else if |moves| == 1 then moves[0]
    else if Round(g.board) < 3 then moves[pick % |moves|]
    else
      var d := SearchDepth(v, Round(g.board), depth);
      if v == Core then moves[CoreRoot(g, d)]
      else RootMove(v, g, d)
  }

  /** In a well-formed game with a side to move and a positive depth, every
      copy's `minimax_move` returns one of the listed moves. */
  lemma ChooseMoveListed(v: Variant, g: Game, depth: int, pick: nat)
    requires Ready(v, g) && IsTurn(g.phase) && depth > 0
    ensures Moves(v, g) != [] && ChooseMove(v, g, depth, pick) in Moves(v, g)
  {
    TurnHasMoves(v, g);
    var moves := Moves(v, g);
    if |moves| > 1 && Round(g.board) >= 3 && v != Core {
      RootMoveListed(v, g, SearchDepth(v, Round(g.board), depth));
    }
  }

  /** From round 3 on, with a choice to make, the canonical engine and the
      array copy return the first listed move whose subtree scores the
      root's minimax value at the adjusted depth. */
  lemma ChooseMoveFirstBest(v: Variant, g: Game, depth: int, pick: nat)
    requires v != Core && IsTurn(g.phase) && |Moves(v, g)| > 1 && Round(g.board) >= 3
    requires SearchDepth(v, Round(g.board), depth) != 0
    ensures var d := SearchDepth(v, Round(g.board), depth);
      var i := RootIndex(v, g, d);
      && 0 <= i < |Moves(v, g)|
      && ChooseMove(v, g, depth, pick) == Moves(v, g)[i]
      && ChildScore(v, g, d, i) == MinimaxScore(v, g, g.phase, d)
      && forall j :: 0 <= j < i ==> ChildScore(v, g, d, j) < MinimaxScore(v, g, g.phase, d)
  {
    var d := SearchDepth(v, Round(g.board), depth);
    RootMoveListed(v, g, d);
    RootMoveIsFirstBest(v, g, d);
  }

  /** From round 3 on, with a side to move and a choice to make, the older
      copy with its root loop corrected returns a move that either reaches
      the cut-off of 300 or scores best among all listed moves at the
      adjusted depth. */
  lemma ChooseMoveCore(g: Game, depth: int, pick: nat)
    requires IsTurn(g.phase) && |Moves(Core, g)| > 1 && Round(g.board) >= 3
    ensures var d := SearchDepth(Core, Round(g.board), depth);
      var i := CoreRoot(g, d);
      && ChooseMove(Core, g, depth, pick) == Moves(Core, g)[i]
      && (300 <= ChildScore(Core, g, d, i)
          || forall j :: 0 <= j < |Moves(Core, g)| ==> ChildScore(Core, g, d, j) <= ChildScore(Core, g, d, i))
  {
    CoreRootPicks(g, SearchDepth(Core, Round(g.board), depth));
  }
}
