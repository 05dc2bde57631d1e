/** The leaf evaluation and the round bookkeeping of the three `minimax.py`
    files: the positional weight table, the terminal sentinels, the round
    index and the depth schedule. */
module Evaluation {
  import opened Board
  import opened Rules
  import opened Opening

  /** Which copy of the program: `src/core`, `core` or `src_numba/core_numba`. */
  datatype Variant = Src | Core | Numba

  /** A search value: an integer, or one of the infinities the array engine
      starts from and scores a finished game with. */
  datatype Value = NegInf | Fin(n: int) | PosInf

  predicate Le(a: Value, c: Value) {
    a.NegInf? || c.PosInf? || (a.Fin? && c.Fin? && a.n <= c.n)
  }

  predicate Lt(a: Value, c: Value) {
    !Le(c, a)
  }

  /** Python's `max` of two values: the first when they tie. */
  function Max(a: Value, c: Value): (r: Value)
    ensures Le(a, r) && Le(c, r) && (r == a || r == c)
  {
    if Le(c, a) then a else c
  }

  function Min(a: Value, c: Value): (r: Value)
    ensures Le(r, a) && Le(r, c) && (r == a || r == c)
  {
    if Le(a, c) then a else c
  }

  /** The same value seen from the other side. */
  function Neg(a: Value): (r: Value)
    ensures r.Fin? <==> a.Fin?
    ensures a.Fin? ==> r.n == -a.n
  {
    match a
    case NegInf => PosInf
    case Fin(n) => Fin(-n)
    case PosInf => NegInf
  }

  // ---------------------------------------------------------------------
  // The weight table

  /** `REWARDS`: one row of eight weights per board row. */
  const Rewards: seq<seq<int>> := [
    [80, -20, 20, 10, 10, 20, -20, 80],
    [-20, -40, -10, -10, -10, -10, -40, -20],
    [20, -10, 10, 0, 0, 10, -10, 20],
    [10, -10, 0, 5, 5, 0, -10, 10],
    [10, -10, 0, 5, 5, 0, -10, 10],
    [20, -10, 10, 0, 0, 10, -10, 20],
    [-20, -40, -10, -10, -10, -10, -40, -20],
    [80, -20, 20, 10, 10, 20, -20, 80]]

  function Abs(n: int): nat {
    if n < 0 then -n else n
  }

  /** What a cell adds to the reward of the side `me`: its weight for a disc
      of `me`'s colour, minus its weight for any other disc, nothing for a
      blank cell. */
  function Contribution(c: Cell, w: int, me: Phase): int {
    if c == Black then (if me == BlackTurn then w else -w)
    else if c == White then (if me == WhiteTurn then w else -w)
    else 0
  }

  /** Eight rows of eight weights. */
  predicate IsTable(t: seq<seq<int>>) {
    |t| == 8 && forall y :: 0 <= y < 8 ==> |t[y]| == 8
  }

  /** The reward of the first `n` cells of row `y` under the weights `t`. */
  function RowReward(t: seq<seq<int>>, b: Board, me: Phase, y: int, n: int): int
    requires IsTable(t) && 0 <= y < 8 && 0 <= n <= 8
  {
    if n == 0 then 0 else RowReward(t, b, me, y, n - 1) + Contribution(b[y * 8 + n - 1], t[y][n - 1], me)
  }

  /** The reward of the first `m` rows under the weights `t`. */
  function RewardUpTo(t: seq<seq<int>>, b: Board, me: Phase, m: int): int
    requires IsTable(t) && 0 <= m <= 8
  {
    if m == 0 then 0 else RewardUpTo(t, b, me, m - 1) + RowReward(t, b, me, m - 1, 8)
  }

  /** The weighted disc sum of `_evaluate_board` for a running game. */
  function Heuristic(b: Board, me: Phase): int {
    RewardUpTo(Rewards, b, me, 8)
  }

  /** The weight magnitudes of the first `n` cells of a row. */
  function RowWeight(row: seq<int>, n: int): nat
    requires 0 <= n <= |row|
  {
    if n == 0 then 0 else RowWeight(row, n - 1) + Abs(row[n - 1])
  }

  /** The weight magnitudes of the first `m` rows. */
  function TableWeight(t: seq<seq<int>>, m: int): nat
    requires IsTable(t) && 0 <= m <= 8
  {
    if m == 0 then 0 else TableWeight(t, m - 1) + RowWeight(t[m - 1], 8)
  }

  lemma {:induction false} RowAntisymmetric(t: seq<seq<int>>, b: Board, y: int, n: int)
    requires IsTable(t) && 0 <= y < 8 && 0 <= n <= 8
    ensures RowReward(t, b, BlackTurn, y, n) == -RowReward(t, b, WhiteTurn, y, n)
  {
    if n > 0 {
      RowAntisymmetric(t, b, y, n - 1);
    }
  }

  lemma {:induction false} RewardAntisymmetric(t: seq<seq<int>>, b: Board, m: int)
    requires IsTable(t) && 0 <= m <= 8
    ensures RewardUpTo(t, b, BlackTurn, m) == -RewardUpTo(t, b, WhiteTurn, m)
  {
    if m > 0 {
      RewardAntisymmetric(t, b, m - 1);
      RowAntisymmetric(t, b, m - 1, 8);
    }
  }

  /** Black's reward is the negation of White's. */
  lemma HeuristicAntisymmetric(b: Board)
    ensures Heuristic(b, BlackTurn) == -Heuristic(b, WhiteTurn)
  {
    RewardAntisymmetric(Rewards, b, 8);
  }

  lemma {:induction false} RowBounded(t: seq<seq<int>>, b: Board, me: Phase, y: int, n: int)
    requires IsTable(t) && 0 <= y < 8 && 0 <= n <= 8
    ensures Abs(RowReward(t, b, me, y, n)) <= RowWeight(t[y], n)
  {
    if n > 0 {
      RowBounded(t, b, me, y, n - 1);
    }
  }

  lemma {:induction false} RewardBounded(t: seq<seq<int>>, b: Board, me: Phase, m: int)
    requires IsTable(t) && 0 <= m <= 8
    ensures Abs(RewardUpTo(t, b, me, m)) <= TableWeight(t, m)
  {
    if m > 0 {
      RewardBounded(t, b, me, m - 1);
      RowBounded(t, b, me, m - 1, 8);
    }
  }

  lemma RowWeights()
    ensures RowWeight(Rewards[0], 8) == 260 && RowWeight(Rewards[1], 8) == 160
    ensures RowWeight(Rewards[2], 8) == 80 && RowWeight(Rewards[3], 8) == 50
    ensures RowWeight(Rewards[4], 8) == 50 && RowWeight(Rewards[5], 8) == 80
    ensures RowWeight(Rewards[6], 8) == 160 && RowWeight(Rewards[7], 8) == 260
  {
  }

  /** The weights add up to 1100 in magnitude. */
  lemma TotalWeight()
    ensures IsTable(Rewards) && TableWeight(Rewards, 8) == 1100
  {
    RowWeights();
  }

  /** No position is worth more than 1100 or less than -1100 to either side. */
  lemma HeuristicBounded(b: Board, me: Phase)
    ensures -1100 <= Heuristic(b, me) <= 1100
  {
    RowWeights();
    TotalWeight();
    TableBounded(Rewards, b, me);
  }

  lemma TableBounded(t: seq<seq<int>>, b: Board, me: Phase)
    requires IsTable(t) && TableWeight(t, 8) == 1100
    ensures -1100 <= RewardUpTo(t, b, me, 8) <= 1100
  {
    RewardBounded(t, b, me, 8);
  }

  /** `_evaluate_board`'s double loop over rows and columns. */
  method EvaluateBoard(b: Board, me: Phase) returns (reward: int)
    ensures reward == Heuristic(b, me)
    ensures -1100 <= reward <= 1100
  {
    reward := 0;
    var y := 0;
    while y < 8
      invariant 0 <= y <= 8
      invariant reward == RewardUpTo(Rewards, b, me, y)
    {
      var x := 0;
      while x < 8
        invariant 0 <= x <= 8
        invariant reward == RewardUpTo(Rewards, b, me, y) + RowReward(Rewards, b, me, y, x)
      {
        var cell := b[y * 8 + x];
        if cell == Black {
          reward := reward + (if me == BlackTurn then Rewards[y][x] else -Rewards[y][x]);
        } else if cell == White {
          reward := reward + (if me == WhiteTurn then Rewards[y][x] else -Rewards[y][x]);
        }
        x := x + 1;
      }
      y := y + 1;
    }
    HeuristicBounded(b, me);
  }

  // ---------------------------------------------------------------------
  // Leaf values

  /** `sys.maxsize` on a 64-bit build. */
  const MaxSize: int := 9223372036854775807

  /** The value of a won game: `sys.maxsize`, 300 or infinity. */
  function WinValue(v: Variant): Value {
    match v
    case Src => Fin(MaxSize)
    case Core => Fin(300)
    case Numba => PosInf
  }

  /** The colour that won in a finished phase. */
  predicate WonBy(ph: Phase, c: Cell) {
    (ph == BlackWon && c == Black) || (ph == WhiteWon && c == White)
  }

  /** `_evaluate_board` (and the terminal tests of `core/minimax.py`): the
      win value when `me`'s side won, its negation when it lost, zero for a
      draw and the weighted disc sum while the game runs. */
  function Evaluate(v: Variant, g: Game, me: Phase): (r: Value)
    ensures g.phase == Draw ==> r == Fin(0)
    ensures IsTurn(me) && WonBy(g.phase, Mover(me)) ==> r == WinValue(v)
    ensures IsTurn(me) && WonBy(g.phase, Opponent(me)) ==> r == Neg(WinValue(v))
    ensures IsTurn(g.phase) ==> r.Fin? && -1100 <= r.n <= 1100
  {
    match g.phase
    case BlackWon => if me == BlackTurn then WinValue(v) else Neg(WinValue(v))
    case WhiteWon => if me == WhiteTurn then WinValue(v) else Neg(WinValue(v))
    case Draw => Fin(0)
    case _ => HeuristicBounded(g.board, me); Fin(Heuristic(g.board, me))
  }

  /** What Black gains White loses, at every leaf and in every variant. */
  lemma EvaluateAntisymmetric(v: Variant, g: Game)
    ensures Evaluate(v, g, BlackTurn) == Neg(Evaluate(v, g, WhiteTurn))
  {
    HeuristicAntisymmetric(g.board);
  }

  /** The largest leaf value of a variant: `sys.maxsize`, the heuristic's
      1100 (above the 300 of a win), or infinity. */
  function Top(v: Variant): Value {
    match v
    case Src => Fin(MaxSize)
    case Core => Fin(1100)
    case Numba => PosInf
  }

  lemma EvaluateBounded(v: Variant, g: Game, me: Phase)
    ensures Le(Neg(Top(v)), Evaluate(v, g, me)) && Le(Evaluate(v, g, me), Top(v))
  {
    HeuristicBounded(g.board, me);
  }

  /** One more than `sys.maxsize`: the integer that stands for the array
      engine's infinity, above every finite value any copy produces. */
  const Infinity: int := MaxSize + 1

  /** Values that are infinite or no larger in size than `sys.maxsize`. */
  predicate Bounded(a: Value) {
    a.Fin? ==> -MaxSize <= a.n <= MaxSize
  }

  /** A value as an integer, the infinities as plus or minus `Infinity`. */
  function Level(a: Value): int {
    match a
    case NegInf => -Infinity
    case Fin(n) => n
    case PosInf => Infinity
  }

  /** On bounded values the integers keep the order of the values, and
      negation. */
  lemma LevelOrder(a: Value, c: Value)
    requires Bounded(a) && Bounded(c)
    ensures Le(a, c) <==> Level(a) <= Level(c)
    ensures Level(Neg(a)) == -Level(a)
  {
  }

  /** Every leaf value, as an integer, lies within the variant's top value. */
  lemma EvaluateLevelBounded(v: Variant, g: Game, me: Phase)
    ensures -Level(Top(v)) <= Level(Evaluate(v, g, me)) <= Level(Top(v))
  {
    HeuristicBounded(g.board, me);
  }

  /** Black's four corners on an otherwise empty board. */
  const CornerBoard: Board := seq(64, i => if i == 0 || i == 7 || i == 56 || i == 63 then Black else Empty)

  lemma {:induction false} CornerRow(y: int, n: int)
    requires 0 <= y < 8 && 0 <= n <= 8
    ensures RowReward(Rewards, CornerBoard, BlackTurn, y, n) ==
      if (y != 0 && y != 7) || n == 0 then 0 else if n < 8 then 80 else 160
  {
    if n > 0 {
      CornerRow(y, n - 1);
    }
  }

  lemma {:induction false} CornerRows(m: int)
    requires 0 <= m <= 8
    ensures RewardUpTo(Rewards, CornerBoard, BlackTurn, m) == if m == 0 then 0 else if m < 8 then 160 else 320
  {
    if m > 0 {
      CornerRows(m - 1);
      CornerRow(m - 1, 8);
    }
  }

  /** Black's four corners alone are worth 320 to Black, more than the 300
      that `core/minimax.py` gives a won game. */
  lemma CornersOutrankWin()
    ensures Heuristic(CornerBoard, BlackTurn) == 320
    ensures Lt(WinValue(Core), Fin(Heuristic(CornerBoard, BlackTurn)))
  {
    CornerRows(8);
  }

  // ---------------------------------------------------------------------
  // Rounds and depth

  /** `_calculate_round` / `_round`: the number of discs minus three. */
  function Round(b: Board): (r: int)
    ensures -3 <= r <= 61
  {
    CountPartition(b);
    Count(b, Black) + Count(b, White) - 3
  }

  /** The opening position is round 1. */
  lemma StartRound()
    ensures Round(StartBoard) == 1
  {
    StartCounts();
  }

  /** Every accepted move advances the round by one, so the round is below 3
      exactly for the first two plies of a game. */
  lemma RoundAdvances(g: Game, p: Pos)
    requires WellFormed(g) && MakeMove(g, p).Moved?
    ensures Round(MakeMove(g, p).game.board) == Round(g.board) + 1
  {
    MoveAccounting(g, p);
    MakeMoveWellFormed(g, p);
  }

  /** The search depth after the round bonus: ten more plies from round 50,
      two more past round 40 (44 in `core`), one more past round 30 (34). */
  function SearchDepth(v: Variant, round: int, depth: int): (r: int)
    ensures depth <= r <= depth + 10
  {
    if round >= 50 then depth + 10
    else if round > (if v == Core then 44 else 40) then depth + 2
    else if round > (if v == Core then 34 else 30) then depth + 1
    else depth
  }

  /** Later rounds never search less deeply. */
  lemma DepthMonotone(v: Variant, r1: int, r2: int, depth: int)
    requires r1 <= r2
    ensures SearchDepth(v, r1, depth) <= SearchDepth(v, r2, depth)
  {
  }
}
