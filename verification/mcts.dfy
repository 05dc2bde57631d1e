/** Monte Carlo tree search as the three `mcts.py` files run it. The tree is
    immutable: one iteration walks down from the root, selecting by UCT
    while a node is fully expanded, expands one unexplored move, plays the
    game out at random, and on the way back up adds a visit and the win
    increment to every node of the path. The UCT score (floating point) and
    the random draws are oracle parameters: every property below holds for
    all of them. */
module Mcts {
  import opened Board
  import opened Rules
  import opened Evaluation
  import NumbaRules
  import Legacy
  import Search

  /** A tree node: the move that led to it, the side that made that move
      (`turn`), the legal moves not yet tried, the tried ones as children,
      and the visit and win counters. */
  datatype Node = Node(move: Pos, turn: Phase, unexplored: seq<Pos>, children: seq<Node>, visits: int, wins: int)

  /** The UCT score of a child from its wins, its visits and its parent's
      visits; the sources compute `wins / visits + sqrt(2 ln(total) / visits)`. */
  type Uct = (int, int, int) -> int

  /** The random draws of one iteration: `pick` chooses the unexplored move
      to expand, `roll(k)` the move of the `k`-th step of the playout. */
  datatype Draws = Draws(pick: nat, roll: nat -> nat)

  /** A playout ends in a phase, or raises or never returns (`Aborted`). */
  datatype Ending = Ended(winner: Phase) | Aborted

  /** One iteration returns the updated node and the playout's result, or
      raises (`Crashed`). */
  datatype Iteration = Iterated(node: Node, winner: Phase) | Crashed

  /** A whole search leaves a grown root, or raised on the way. */
  datatype Grown = Grown(root: Node) | Failed

  /** The move `mcts_move` returns, or none when it raises. */
  datatype Choice = Chose(move: Pos) | NoMove

  // ---------------------------------------------------------------------
  // Win increments and first maxima

  /** The side whose win is `+1` for a node whose move `turn` made. */
  function WonBy(turn: Phase): Phase {
    if turn == BlackTurn then BlackWon else WhiteWon
  }

  /** `compute_win_increment` and the backpropagation step of the two list
      based copies: 0 for a draw, +1 when the side that made the node's move
      won, -1 when the other side won. */
  function WinIncrement(winner: Phase, turn: Phase): (r: int)
    ensures -1 <= r <= 1
    ensures winner == Draw <==> r == 0
    ensures IsTurn(turn) && !IsTurn(winner) ==>
              (r == 1 <==> winner == WonBy(turn)) && (r == -1 <==> winner == WonBy(Other(turn)))
  {
    if winner == Draw then 0
    else if (winner == BlackWon) == (turn == BlackTurn) then 1
    else -1
  }

  /** The two sides' increments for one finished game cancel out. */
  lemma IncrementsCancel(winner: Phase)
    requires !IsTurn(winner)
    ensures WinIncrement(winner, BlackTurn) + WinIncrement(winner, WhiteTurn) == 0
  {
  }

  /** The index of the first largest element: a scan from the left that
      replaces the best only on a strictly larger element. */
  function FirstMax(s: seq<int>): (i: int)
    requires |s| > 0
    ensures 0 <= i < |s|
    ensures forall j :: 0 <= j < |s| ==> s[j] <= s[i]
    ensures forall j :: 0 <= j < i ==> s[j] < s[i]
  {
    if |s| == 1 then 0
    else
      var k := FirstMax(s[..|s| - 1]);
      if s[k] < s[|s| - 1] then |s| - 1 else k
  }

  /** `find_most_visited`: the first index of largest visit count. */
  method FindMostVisited(visits: seq<int>) returns (maxIdx: int)
    requires |visits| > 0
    ensures maxIdx == FirstMax(visits)
  {
    maxIdx := 0;
    var maxVisits := visits[0];
    for i := 1 to |visits|
      invariant 0 <= maxIdx < i && maxVisits == visits[maxIdx]
      invariant forall j :: 0 <= j < i ==> visits[j] <= maxVisits
      invariant forall j :: 0 <= j < maxIdx ==> visits[j] < maxVisits
    {
      if visits[i] > maxVisits {
        maxVisits := visits[i];
        maxIdx := i;
      }
    }
    FirstMaxUnique(visits, maxIdx);
  }

  /** The first largest element is unique: any index with its two
      properties is `FirstMax`. */
  lemma FirstMaxUnique(s: seq<int>, i: int)
    requires 0 <= i < |s|
    requires forall j :: 0 <= j < |s| ==> s[j] <= s[i]
    requires forall j :: 0 <= j < i ==> s[j] < s[i]
    ensures i == FirstMax(s)
  {
    var k := FirstMax(s);
    assert s[i] <= s[k] && s[k] <= s[i];
  }

  function Visits(cs: seq<Node>): (r: seq<int>)
    ensures |r| == |cs| && forall j :: 0 <= j < |cs| ==> r[j] == cs[j].visits
  {
    seq(|cs|, i requires 0 <= i < |cs| => cs[i].visits)
  }

  /** `get_most_visited`: `max` with the visit count as key, which keeps
      the first of equal maxima. */
  function MostVisited(cs: seq<Node>): (i: int)
    requires |cs| > 0
    ensures 0 <= i < |cs|
    ensures forall j :: 0 <= j < |cs| ==> cs[j].visits <= cs[i].visits
    ensures forall j :: 0 <= j < i ==> cs[j].visits < cs[i].visits
  {
    FirstMax(Visits(cs))
  }

  /** `select_child`: the first child of largest UCT score. */
  function SelectChild(n: Node, uct: Uct): (i: int)
    requires |n.children| > 0
    ensures 0 <= i < |n.children|
    ensures forall j :: 0 <= j < |n.children| ==>
              uct(n.children[j].wins, n.children[j].visits, n.visits) <= uct(n.children[i].wins, n.children[i].visits, n.visits)
    ensures forall j :: 0 <= j < i ==>
              uct(n.children[j].wins, n.children[j].visits, n.visits) < uct(n.children[i].wins, n.children[i].visits, n.visits)
  {
    FirstMax(Scores(n, uct))
  }

  /** The UCT score of every child of `n`. */
  function Scores(n: Node, uct: Uct): (r: seq<int>)
    ensures |r| == |n.children|
    ensures forall j :: 0 <= j < |n.children| ==> r[j] == uct(n.children[j].wins, n.children[j].visits, n.visits)
  {
    seq(|n.children|, j requires 0 <= j < |n.children| => uct(n.children[j].wins, n.children[j].visits, n.visits))
  }

  /** `select_child` takes `log` of the node's visits and divides by every
      child's: it raises unless all of them are positive. */
  predicate Selectable(n: Node) {
    n.visits > 0 && forall i :: 0 <= i < |n.children| ==> n.children[i].visits > 0
  }

  // ---------------------------------------------------------------------
  // Expansion and backpropagation

  /** Where `m` first occurs in `s`. */
  function FirstIndex(s: seq<Pos>, m: Pos): (k: nat)
    requires m in s
    ensures k < |s| && s[k] == m && m !in s[..k]
  {
    if s[0] == m then 0
    else
      var k := FirstIndex(s[1..], m) + 1;
      assert s[..k] == [s[0]] + s[1..][..k - 1];
      k
  }

  /** `list.remove`: drop the first occurrence of `m`, keeping the order of
      the rest. */
  function Remove(s: seq<Pos>, m: Pos): (r: seq<Pos>)
    ensures m in s ==> var k := FirstIndex(s, m); r == s[..k] + s[k + 1..]
    ensures m !in s ==> r == s
    ensures m in s ==> multiset(r) == multiset(s) - multiset{m} && |r| == |s| - 1
  {
    if s == [] then []
    else
      assert s == [s[0]] + s[1..];
      if s[0] == m then s[1..]
      else
        var t := Remove(s[1..], m);
        RemoveStep(s, m, t);
        [s[0]] + t
  }

  /** Keeping a head that is not `m` in front of the rest with `m` removed
      removes the first `m` of the whole. */
  lemma RemoveStep(s: seq<Pos>, m: Pos, t: seq<Pos>)
    requires s != [] && s[0] != m
    requires m in s[1..] ==> var k := FirstIndex(s[1..], m); t == s[1..][..k] + s[1..][k + 1..]
    requires m !in s[1..] ==> t == s[1..]
    ensures m in s ==> var k := FirstIndex(s, m); [s[0]] + t == s[..k] + s[k + 1..]
    ensures m !in s ==> [s[0]] + t == s
  {
  }

  /** The moves of a list of children, in order. */
  function ChildMoves(cs: seq<Node>): (r: seq<Pos>)
    ensures |r| == |cs|
  {
    seq(|cs|, i requires 0 <= i < |cs| => cs[i].move)
  }

  /** One more visit, credited with the playout's result. */
  function Visit(n: Node, winner: Phase): (r: Node)
    ensures r.visits == n.visits + 1
    ensures r.wins - n.wins == WinIncrement(winner, n.turn)
    ensures r.move == n.move && r.turn == n.turn && r.unexplored == n.unexplored && r.children == n.children
  {
    n.(visits := n.visits + 1, wins := n.wins + WinIncrement(winner, n.turn))
  }

  /** The expansion step (`add_and_get_child`): `m` leaves the unexplored
      moves and one child for it, with `turn` and the moves listed after it,
      joins the children, already visited once by the playout's result. */
  function Expand(n: Node, m: Pos, turn: Phase, listed: seq<Pos>, winner: Phase): (r: Node)
    requires m in n.unexplored
    ensures var k := FirstIndex(n.unexplored, m); r.unexplored == n.unexplored[..k] + n.unexplored[k + 1..]
    ensures multiset(r.unexplored) == multiset(n.unexplored) - multiset{m}
    ensures |r.children| == |n.children| + 1 && r.children == n.children + [r.children[|n.children|]]
    ensures var c := r.children[|n.children|];
      c.move == m && c.turn == turn && c.unexplored == listed && c.children == [] && c.visits == 1
    ensures r.move == n.move && r.turn == n.turn && r.visits == n.visits && r.wins == n.wins
  {
    var child := Visit(Node(m, turn, listed, [], 0, 0), winner);
    n.(unexplored := Remove(n.unexplored, m), children := n.children + [child])
  }

  // ---------------------------------------------------------------------
  // Moves and playouts

  /** What the search asks of a rules engine: its `get_valid_moves`,
      whether its `make_move` accepts a move, the position after it, and
      whether a refused move raises (the list-based copies) or is reported
      (the array copy). */
  datatype Engine = Engine(listed: Game -> seq<Pos>, accepts: (Game, Pos) -> bool, play: (Game, Pos) -> Game,
                           refusalRaises: bool)

  /** The variant's `make_move` accepts `p`. */
  predicate Accepts(v: Variant, g: Game, p: Pos) {
    if v == Numba then NumbaRules.MakeMove(g, p).success else MakeMove(g, p).Moved?
  }

  /** The engine each copy's search runs on. */
  function EngineOf(v: Variant): (e: Engine)
    ensures e.refusalRaises <==> v != Numba
  {
    Engine(g => Search.Moves(v, g), (g, p) => Accepts(v, g, p), (g, p) => Search.Play(v, g, p), v != Numba)
  }

  /** The random playout: a uniformly drawn listed move until the game is
      over. With no listed move the list-based copies raise (`randint(0,
      -1)`) and the array copy plays the pass move (0, 0), which is refused
      and leaves the position as it was, forever (`PassRefused`); a refused
      move raises in the list-based copies and ends the array copy's loop in
      the current phase. A move that fills no cell would also repeat
      forever. `PlayoutEnds` shows that a well-formed game reaches none of
      these. */
  function Playout(e: Engine, g: Game, roll: nat -> nat, k: nat): (r: Ending)
    ensures r.Ended? && e.refusalRaises ==> !IsTurn(r.winner)
    ensures !IsTurn(g.phase) ==> r == Ended(g.phase)
    decreases Blanks(g.board)
  {
    if !IsTurn(g.phase) then Ended(g.phase)
    else
      var moves := e.listed(g);
      if moves == [] then Aborted
      else
        var m := moves[roll(k) % |moves|];
        if !e.accepts(g, m) then (if e.refusalRaises then Aborted else Ended(g.phase))
        else
          var h := e.play(g, m);
          if Blanks(h.board) < Blanks(g.board) then Playout(e, h, roll, k + 1) else Aborted
  }

  /** In the array copy the pass branch is refused: with nothing listed,
      (0, 0) is not a marked cell, and the position stays as it was. */
  lemma PassRefused(g: Game)
    requires IsTurn(g.phase) && NumbaRules.ValidMoves(g) == []
    ensures !NumbaRules.MakeMove(g, Pos(0, 0)).success
    ensures NumbaRules.MakeMove(g, Pos(0, 0)).game == g
  {
    assert Pos(0, 0) !in NumbaRules.ValidMoves(g);
  }

  /** What a well-formed game gives the search: a side to move has a listed
      move, and a listed move is accepted, fills one cell and keeps the
      game well-formed. */
  lemma EngineStep(v: Variant, g: Game, p: Pos)
    requires Search.Ready(v, g) && IsTurn(g.phase)
    ensures EngineOf(v).listed(g) != []
    ensures p in EngineOf(v).listed(g) ==>
              && EngineOf(v).accepts(g, p)
              && Search.Ready(v, EngineOf(v).play(g, p))
              && Blanks(EngineOf(v).play(g, p).board) < Blanks(g.board)
  {
    Search.TurnHasMoves(v, g);
    if p in Search.Moves(v, g) {
      Search.ListedPlay(v, g, p);
    }
  }

  /** From a well-formed game every playout ends in a finished phase. */
  lemma {:induction false} PlayoutEnds(v: Variant, g: Game, roll: nat -> nat, k: nat)
    requires Search.Ready(v, g)
    ensures Playout(EngineOf(v), g, roll, k).Ended?
    ensures !IsTurn(Playout(EngineOf(v), g, roll, k).winner)
    decreases Blanks(g.board)
  {
    if IsTurn(g.phase) {
      var e := EngineOf(v);
      EngineStep(v, g, Pos(0, 0));
      var moves := e.listed(g);
      var m := moves[roll(k) % |moves|];
      EngineStep(v, g, m);
      PlayoutEnds(v, e.play(g, m), roll, k + 1);
    }
  }

  // ---------------------------------------------------------------------
  // One iteration

  /** One iteration below `n`, whose position is `g`: while `n` is fully
      expanded and has children, select one and go down (`Select`);
      otherwise expand and play out (`Grow`). `broke` is set once the array
      copy's replay of a selected move was refused, which stops the descent. */
  function Descend(e: Engine, n: Node, g: Game, uct: Uct, d: Draws, broke: bool): (r: Iteration)
    ensures r.Iterated? ==> r.node.move == n.move && r.node.turn == n.turn && r.node.visits == n.visits + 1
    ensures r.Iterated? ==> |n.children| <= |r.node.children|
    decreases n, 1
  {
    if !broke && n.unexplored == [] && n.children != [] then Select(e, n, g, uct, d) else Grow(e, n, g, d)
  }

  /** The selection step: `select_child` (which raises unless every visit
      count involved is positive), the replay of the child's move on the
      copy, the iteration below the child, and the credit on the way back. */
  function Select(e: Engine, n: Node, g: Game, uct: Uct, d: Draws): (r: Iteration)
    requires n.children != []
    ensures r.Iterated? ==> r.node.move == n.move && r.node.turn == n.turn && r.node.visits == n.visits + 1
    ensures r.Iterated? ==> |n.children| == |r.node.children|
    decreases n, 0
  {
    if !Selectable(n) then Crashed
    else
      var i := SelectChild(n, uct);
      var c := n.children[i];
      var ok := e.accepts(g, c.move);
      if !ok && e.refusalRaises then Crashed
      else
        match Descend(e, c, e.play(g, c.move), uct, d, !ok)
        case Crashed => Crashed
        case Iterated(c1, w) => Iterated(Backup(n, i, c1, w), w)
  }

  /** The way back through `n`: the `i`-th child replaced by its updated
      version, and one more visit credited with the result. */
  function Backup(n: Node, i: int, c1: Node, winner: Phase): (r: Node)
    requires 0 <= i < |n.children|
    ensures r.move == n.move && r.turn == n.turn && r.visits == n.visits + 1 && |r.children| == |n.children|
    ensures r.wins - n.wins == WinIncrement(winner, n.turn) && r.unexplored == n.unexplored
    ensures r.children[i] == c1
    ensures forall j :: 0 <= j < |n.children| && j != i ==> r.children[j] == n.children[j]
  {
    Visit(n.(children := n.children[i := c1]), winner)
  }

  /** The expansion step and the playout: the drawn unexplored move is
      played on the copy (refused: the list-based copies raise, the array
      copy keeps the tree as it is), its child joins the tree, the game is
      played out from there, and the result is credited. Without unexplored
      moves the playout starts from `g` itself. */
  function Grow(e: Engine, n: Node, g: Game, d: Draws): (r: Iteration)
    ensures r.Iterated? ==> r.node.move == n.move && r.node.turn == n.turn && r.node.visits == n.visits + 1
    ensures r.Iterated? ==> |n.children| <= |r.node.children|
  {
    if n.unexplored != [] then
      var m := n.unexplored[d.pick % |n.unexplored|];
      var ok := e.accepts(g, m);
      var h := e.play(g, m);
      if !ok && e.refusalRaises then Crashed
      else
        match Playout(e, h, d.roll, 0)
        case Aborted => Crashed
        case Ended(w) =>
          if ok then Iterated(Visit(Expand(n, m, g.phase, e.listed(h), w), w), w)
          else Iterated(Visit(n, w), w)
    else
      match Playout(e, g, d.roll, 0)
      case Aborted => Crashed
      case Ended(w) => Iterated(Visit(n, w), w)
  }

  /** `mcts_move`'s loop: one iteration per draw, from the root. */
  function Run(e: Engine, root: Node, g: Game, uct: Uct, draws: seq<Draws>): (r: Grown)
    ensures r.Grown? ==> r.root.visits == root.visits + |draws|
    ensures r.Grown? ==> |root.children| <= |r.root.children|
    decreases |draws|
  {
    if draws == [] then Grown(root)
    else
      match Descend(e, root, g, uct, draws[0], false)
      case Crashed => Failed
      case Iterated(r, _) => Run(e, r, g, uct, draws[1..])
  }

  /** The root of a search from `g`: no move, the side to move, every
      listed move unexplored. */
  function Root(e: Engine, g: Game): Node {
    Node(Pos(-1, -1), g.phase, e.listed(g), [], 0, 0)
  }

  /** `mcts_move` with one iteration per draw: the most visited child of
      the root, or no move when the search raises or the root has no child
      (`max` of an empty list). */
  function MctsMove(v: Variant, g: Game, uct: Uct, draws: seq<Draws>): (c: Choice)
    ensures c.Chose? ==> c.move in Search.Moves(v, g)
  {
    var e := EngineOf(v);
    RootKeeps(e, g);
    match Run(e, Root(e, g), g, uct, draws)
    case Failed => NoMove
    case Grown(r) =>
      if r.children == [] then NoMove
      else
        RunKeeps(e, Root(e, g), g, uct, draws);
        ChildListed(e, r, g, MostVisited(r.children));
        Chose(r.children[MostVisited(r.children)].move)
  }

  // ---------------------------------------------------------------------
  // The counters

  function SumVisits(cs: seq<Node>): int {
    if cs == [] then 0 else SumVisits(cs[..|cs| - 1]) + cs[|cs| - 1].visits
  }

  lemma SumAppend(cs: seq<Node>, c: Node)
    ensures SumVisits(cs + [c]) == SumVisits(cs) + c.visits
  {
    assert (cs + [c])[..|cs|] == cs;
  }

  lemma {:induction false} SumUpdate(cs: seq<Node>, i: int, c: Node)
    requires 0 <= i < |cs|
    ensures SumVisits(cs[i := c]) == SumVisits(cs) - cs[i].visits + c.visits
  {
    var last := |cs| - 1;
    if i < last {
      assert cs[i := c][..last] == cs[..last][i := c];
      SumUpdate(cs[..last], i, c);
    } else {
      assert cs[i := c][..last] == cs[..last];
    }
  }

  lemma {:induction false} SumPositive(cs: seq<Node>)
    requires cs != [] && forall i :: 0 <= i < |cs| ==> cs[i].visits > 0
    ensures SumVisits(cs) > 0
  {
    if |cs| > 1 {
      SumPositive(cs[..|cs| - 1]);
    }
  }

  /** The counters the loop keeps: wins never exceed visits in size, a node
      has at least as many visits as its children together, and every child
      has been visited. */
  predicate Counted(n: Node)
    decreases n
  {
    && -n.visits <= n.wins <= n.visits
    && SumVisits(n.children) <= n.visits
    && forall i :: 0 <= i < |n.children| ==> n.children[i].visits > 0 && Counted(n.children[i])
  }

  /** So `select_child` never takes `log(0)` nor divides by zero. */
  lemma CountedSelectable(n: Node)
    requires Counted(n) && n.children != []
    ensures Selectable(n)
  {
    SumPositive(n.children);
  }

  /** The way back keeps the counters when the child it replaces gains
      one visit and keeps them itself. */
  lemma BackupCounted(n: Node, i: int, c1: Node, winner: Phase)
    requires Counted(n) && 0 <= i < |n.children|
    requires Counted(c1) && c1.visits == n.children[i].visits + 1
    ensures Counted(Backup(n, i, c1, winner))
  {
    SumUpdate(n.children, i, c1);
  }

  /** Expansion followed by its visit keeps the counters. */
  lemma ExpandCounted(n: Node, m: Pos, turn: Phase, listed: seq<Pos>, winner: Phase)
    requires Counted(n) && m in n.unexplored
    ensures Counted(Visit(Expand(n, m, turn, listed, winner), winner))
  {
    var x := Expand(n, m, turn, listed, winner);
    SumAppend(n.children, x.children[|n.children|]);
  }

  lemma GrowCounted(e: Engine, n: Node, g: Game, d: Draws)
    requires Counted(n)
    ensures Grow(e, n, g, d).Iterated? ==> Counted(Grow(e, n, g, d).node)
  {
    if n.unexplored != [] {
      var m := n.unexplored[d.pick % |n.unexplored|];
      var h := e.play(g, m);
      var r := Playout(e, h, d.roll, 0);
      if r.Ended? {
        ExpandCounted(n, m, g.phase, e.listed(h), r.winner);
      }
    }
  }

  /** An iteration keeps the counters. */
  lemma {:induction false} DescendCounted(e: Engine, n: Node, g: Game, uct: Uct, d: Draws, broke: bool)
    requires Counted(n)
    ensures Descend(e, n, g, uct, d, broke).Iterated? ==> Counted(Descend(e, n, g, uct, d, broke).node)
    decreases n, 1
  {
    if !broke && n.unexplored == [] && n.children != [] {
      SelectCounted(e, n, g, uct, d);
    } else {
      GrowCounted(e, n, g, d);
    }
  }

  lemma {:induction false} SelectCounted(e: Engine, n: Node, g: Game, uct: Uct, d: Draws)
    requires Counted(n) && n.children != []
    ensures Select(e, n, g, uct, d).Iterated? ==> Counted(Select(e, n, g, uct, d).node)
    decreases n, 0
  {
    if Selectable(n) {
      var i := SelectChild(n, uct);
      var c := n.children[i];
      var ok := e.accepts(g, c.move);
      var rc := Descend(e, c, e.play(g, c.move), uct, d, !ok);
      DescendCounted(e, c, e.play(g, c.move), uct, d, !ok);
      if rc.Iterated? {
        BackupCounted(n, i, rc.node, rc.winner);
      }
    }
  }

  // ---------------------------------------------------------------------
  // The tree matches the game

  lemma ChildMovesAppend(cs: seq<Node>, c: Node)
    ensures ChildMoves(cs + [c]) == ChildMoves(cs) + [c.move]
  {
  }

  lemma ChildMovesUpdate(cs: seq<Node>, i: int, c: Node)
    requires 0 <= i < |cs| && c.move == cs[i].move
    ensures ChildMoves(cs[i := c]) == ChildMoves(cs)
  {
  }

  /** A node at position `g` is consistent when its children's moves and its
      unexplored moves together are exactly the moves `g` lists, every child
      was made by the side to move at `g`, and every child is consistent with
      the position its move leads to. */
  predicate Consistent(e: Engine, n: Node, g: Game)
    decreases n
  {
    && multiset(ChildMoves(n.children) + n.unexplored) == multiset(e.listed(g))
    && forall i :: 0 <= i < |n.children| ==>
         n.children[i].turn == g.phase && Consistent(e, n.children[i], e.play(g, n.children[i].move))
  }

  /** The moves of a consistent node's children are listed moves. */
  lemma ChildListed(e: Engine, n: Node, g: Game, i: int)
    requires Consistent(e, n, g) && 0 <= i < |n.children|
    ensures n.children[i].move in e.listed(g)
  {
    assert ChildMoves(n.children)[i] == n.children[i].move;
    assert n.children[i].move in multiset(ChildMoves(n.children) + n.unexplored);
  }

  /** So are its unexplored moves. */
  lemma UnexploredListed(e: Engine, n: Node, g: Game, m: Pos)
    requires Consistent(e, n, g) && m in n.unexplored
    ensures m in e.listed(g)
  {
    assert m in multiset(ChildMoves(n.children) + n.unexplored);
  }

  /** A consistent node whose position lists nothing has nothing below it. */
  lemma NothingListed(e: Engine, n: Node, g: Game)
    requires Consistent(e, n, g) && e.listed(g) == []
    ensures n.unexplored == [] && n.children == []
  {
    assert |multiset(ChildMoves(n.children) + n.unexplored)| == 0;
  }

  /** The way back keeps the tree consistent when the child it replaces
      keeps its move and side and is consistent itself. */
  lemma BackupConsistent(e: Engine, n: Node, g: Game, i: int, c1: Node, winner: Phase)
    requires Consistent(e, n, g) && 0 <= i < |n.children|
    requires c1.move == n.children[i].move && c1.turn == n.children[i].turn
    requires Consistent(e, c1, e.play(g, c1.move))
    ensures Consistent(e, Backup(n, i, c1, winner), g)
  {
    ChildMovesUpdate(n.children, i, c1);
  }

  /** Expansion moves one move from the unexplored ones to a new child made
      by the side to move at `g`, which lists the moves after it. */
  lemma ExpandConsistent(e: Engine, n: Node, g: Game, m: Pos, winner: Phase)
    requires Consistent(e, n, g) && m in n.unexplored
    ensures Consistent(e, Visit(Expand(n, m, g.phase, e.listed(e.play(g, m)), winner), winner), g)
  {
    var x := Expand(n, m, g.phase, e.listed(e.play(g, m)), winner);
    ExpandedConsistent(e, n, g, m, winner);
    SameShapeConsistent(e, x, Visit(x, winner), g);
  }

  /** The expanded node, before its own visit is counted. */
  lemma ExpandedConsistent(e: Engine, n: Node, g: Game, m: Pos, winner: Phase)
    requires Consistent(e, n, g) && m in n.unexplored
    ensures Consistent(e, Expand(n, m, g.phase, e.listed(e.play(g, m)), winner), g)
  {
    var x := Expand(n, m, g.phase, e.listed(e.play(g, m)), winner);
    var c := x.children[|n.children|];
    ChildMovesAppend(n.children, c);
    assert ChildMoves(c.children) == [];
    assert Consistent(e, c, e.play(g, m));
    assert multiset(ChildMoves(x.children) + x.unexplored) == multiset(ChildMoves(n.children) + n.unexplored);
  }

  /** Consistency looks only at the moves, never at the counters. */
  lemma SameShapeConsistent(e: Engine, n: Node, n': Node, g: Game)
    requires n'.unexplored == n.unexplored && n'.children == n.children
    ensures Consistent(e, n, g) <==> Consistent(e, n', g)
  {
  }

  lemma GrowConsistent(e: Engine, n: Node, g: Game, d: Draws)
    requires Consistent(e, n, g)
    ensures Grow(e, n, g, d).Iterated? ==> Consistent(e, Grow(e, n, g, d).node, g)
  {
    if n.unexplored != [] {
      var m := n.unexplored[d.pick % |n.unexplored|];
      var r := Playout(e, e.play(g, m), d.roll, 0);
      if r.Ended? {
        if e.accepts(g, m) {
          ExpandConsistent(e, n, g, m, r.winner);
        } else {
          SameShapeConsistent(e, n, Visit(n, r.winner), g);
        }
      }
    } else {
      var r := Playout(e, g, d.roll, 0);
      if r.Ended? {
        SameShapeConsistent(e, n, Visit(n, r.winner), g);
      }
    }
  }

  /** An iteration keeps the tree consistent with the game. */
  lemma {:induction false} DescendConsistent(e: Engine, n: Node, g: Game, uct: Uct, d: Draws, broke: bool)
    requires Consistent(e, n, g)
    ensures Descend(e, n, g, uct, d, broke).Iterated? ==> Consistent(e, Descend(e, n, g, uct, d, broke).node, g)
    decreases n, 1
  {
    if !broke && n.unexplored == [] && n.children != [] {
      SelectConsistent(e, n, g, uct, d);
    } else {
      GrowConsistent(e, n, g, d);
    }
  }

  lemma {:induction false} SelectConsistent(e: Engine, n: Node, g: Game, uct: Uct, d: Draws)
    requires Consistent(e, n, g) && n.children != []
    ensures Select(e, n, g, uct, d).Iterated? ==> Consistent(e, Select(e, n, g, uct, d).node, g)
    decreases n, 0
  {
    if Selectable(n) {
      var i := SelectChild(n, uct);
      var c := n.children[i];
      var ok := e.accepts(g, c.move);
      var rc := Descend(e, c, e.play(g, c.move), uct, d, !ok);
      DescendConsistent(e, c, e.play(g, c.move), uct, d, !ok);
      if rc.Iterated? {
        BackupConsistent(e, n, g, i, rc.node, rc.winner);
      }
    }
  }

  /** A whole search keeps both invariants. */
  lemma {:induction false} RunKeeps(e: Engine, root: Node, g: Game, uct: Uct, draws: seq<Draws>)
    requires Counted(root) && Consistent(e, root, g)
    ensures Run(e, root, g, uct, draws).Grown? ==>
              Counted(Run(e, root, g, uct, draws).root) && Consistent(e, Run(e, root, g, uct, draws).root, g)
    decreases |draws|
  {
    if draws != [] {
      DescendCounted(e, root, g, uct, draws[0], false);
      DescendConsistent(e, root, g, uct, draws[0], false);
      var r := Descend(e, root, g, uct, draws[0], false);
      if r.Iterated? {
        RunKeeps(e, r.node, g, uct, draws[1..]);
      }
    }
  }

  // ---------------------------------------------------------------------
  // No crash, and a legal move

  /** The canonical engine and the array copy list nothing once the game is
      over. */
  lemma ListedOnlyInTurn(v: Variant, g: Game)
    requires v != Core
    ensures EngineOf(v).listed(g) != [] ==> IsTurn(g.phase)
  {
  }

  /** With those engines a node at a finished position is never expanded:
      it has neither unexplored moves nor children. */
  lemma FinishedNodeIsLeaf(v: Variant, n: Node, g: Game)
    requires v != Core && Consistent(EngineOf(v), n, g) && !IsTurn(g.phase)
    ensures n.unexplored == [] && n.children == []
  {
    ListedOnlyInTurn(v, g);
    NothingListed(EngineOf(v), n, g);
  }

  /** Expansion and playout never raise on a well-formed game, and an
      unexplored move always becomes a child. */
  lemma GrowSafe(v: Variant, n: Node, g: Game, d: Draws)
    requires v != Core && Search.Ready(v, g) && Consistent(EngineOf(v), n, g)
    ensures Grow(EngineOf(v), n, g, d).Iterated?
    ensures n.unexplored != [] ==> |Grow(EngineOf(v), n, g, d).node.children| == |n.children| + 1
  {
    var e := EngineOf(v);
    if n.unexplored != [] {
      var m := n.unexplored[d.pick % |n.unexplored|];
      UnexploredListed(e, n, g, m);
      ListedOnlyInTurn(v, g);
      EngineStep(v, g, m);
      PlayoutEnds(v, e.play(g, m), d.roll, 0);
    } else {
      PlayoutEnds(v, g, d.roll, 0);
    }
  }

  /** Replaying a child's move on the copy always lands on a listed cell:
      the move is accepted and the game stays well-formed. In the array
      copy this makes the `break` of the selection loop unreachable. */
  lemma ReplayAccepted(v: Variant, n: Node, g: Game, i: int)
    requires v != Core && Search.Ready(v, g) && Consistent(EngineOf(v), n, g)
    requires 0 <= i < |n.children|
    ensures EngineOf(v).accepts(g, n.children[i].move)
    ensures Search.Ready(v, EngineOf(v).play(g, n.children[i].move))
  {
    ChildListed(EngineOf(v), n, g, i);
    ListedOnlyInTurn(v, g);
    EngineStep(v, g, n.children[i].move);
  }

  /** Likewise every unexplored move is accepted when it is expanded. */
  lemma ExpansionAccepted(v: Variant, n: Node, g: Game, m: Pos)
    requires v != Core && Search.Ready(v, g) && Consistent(EngineOf(v), n, g)
    requires m in n.unexplored
    ensures EngineOf(v).accepts(g, m)
    ensures Search.Ready(v, EngineOf(v).play(g, m))
  {
    UnexploredListed(EngineOf(v), n, g, m);
    ListedOnlyInTurn(v, g);
    EngineStep(v, g, m);
  }

  /** The tree changes only when the expanded move is accepted: then exactly
      that move leaves the unexplored list and one child for it is appended;
      a refused move (the array copy's `success == 0`) leaves both lists as
      they were. */
  lemma GrowChangesOnlyOnSuccess(e: Engine, n: Node, g: Game, d: Draws)
    requires n.unexplored != []
    ensures var m := n.unexplored[d.pick % |n.unexplored|];
      var r := Grow(e, n, g, d);
      r.Iterated? ==>
        (!e.accepts(g, m) ==> r.node.children == n.children && r.node.unexplored == n.unexplored) &&
        (e.accepts(g, m) ==>
          multiset(r.node.unexplored) == multiset(n.unexplored) - multiset{m} &&
          |r.node.children| == |n.children| + 1 && r.node.children[..|n.children|] == n.children &&
          r.node.children[|n.children|].move == m)
  {
  }

  /** An iteration from a well-formed game over a tree that keeps both
      invariants never raises: selection sees positive visit counts, every
      replayed move is accepted, and every playout ends. */
  lemma {:induction false} DescendSafe(v: Variant, n: Node, g: Game, uct: Uct, d: Draws)
    requires v != Core && Search.Ready(v, g) && Consistent(EngineOf(v), n, g) && Counted(n)
    ensures Descend(EngineOf(v), n, g, uct, d, false).Iterated?
    decreases n, 1
  {
    if n.unexplored == [] && n.children != [] {
      SelectSafe(v, n, g, uct, d);
    } else {
      GrowSafe(v, n, g, d);
    }
  }

  lemma {:induction false} SelectSafe(v: Variant, n: Node, g: Game, uct: Uct, d: Draws)
    requires v != Core && Search.Ready(v, g) && Consistent(EngineOf(v), n, g) && Counted(n)
    requires n.unexplored == [] && n.children != []
    ensures Select(EngineOf(v), n, g, uct, d).Iterated?
    decreases n, 0
  {
    var e := EngineOf(v);
    CountedSelectable(n);
    var i := SelectChild(n, uct);
    var c := n.children[i];
    ChildListed(e, n, g, i);
    ListedOnlyInTurn(v, g);
    EngineStep(v, g, c.move);
    DescendSafe(v, c, e.play(g, c.move), uct, d);
  }

  /** A whole search from a well-formed game never raises. */
  lemma {:induction false} RunSafe(v: Variant, root: Node, g: Game, uct: Uct, draws: seq<Draws>)
    requires v != Core && Search.Ready(v, g) && Consistent(EngineOf(v), root, g) && Counted(root)
    ensures Run(EngineOf(v), root, g, uct, draws).Grown?
    decreases |draws|
  {
    if draws != [] {
      var e := EngineOf(v);
      DescendSafe(v, root, g, uct, draws[0]);
      DescendCounted(e, root, g, uct, draws[0], false);
      DescendConsistent(e, root, g, uct, draws[0], false);
      RunSafe(v, Descend(e, root, g, uct, draws[0], false).node, g, uct, draws[1..]);
    }
  }

  /** The root of a search keeps both invariants. */
  lemma RootKeeps(e: Engine, g: Game)
    ensures Counted(Root(e, g)) && Consistent(e, Root(e, g), g)
  {
    assert ChildMoves([]) == [];
  }

  /** With the side to move searching at least once, the canonical engine's
      and the array copy's `mcts_move` return one of the listed moves, the
      most visited child of the root. */
  lemma MctsMoveLegal(v: Variant, g: Game, uct: Uct, draws: seq<Draws>)
    requires v != Core && Search.Ready(v, g) && IsTurn(g.phase) && |draws| > 0
    ensures MctsMove(v, g, uct, draws).Chose?
    ensures MctsMove(v, g, uct, draws).move in Search.Moves(v, g)
  {
    var e := EngineOf(v);
    var root := Root(e, g);
    RootKeeps(e, g);
    EngineStep(v, g, Pos(0, 0));
    GrowSafe(v, root, g, draws[0]);
    var first := Descend(e, root, g, uct, draws[0], false).node;
    DescendCounted(e, root, g, uct, draws[0], false);
    DescendConsistent(e, root, g, uct, draws[0], false);
    RunSafe(v, first, g, uct, draws[1..]);
    RunKeeps(e, first, g, uct, draws[1..]);
    var r := Run(e, first, g, uct, draws[1..]).root;
    assert Run(e, root, g, uct, draws) == Grown(r);
    ChildListed(e, r, g, MostVisited(r.children));
  }

  // ---------------------------------------------------------------------
  // The older copy's call of `make_move`

  /** The engine `core/mcts.py` runs on as written: it passes the move as
      one tuple to a `make_move` that takes `x` and `y`, so every call
      raises a `TypeError`, as a refusal that raises. */
  function CoreAsCalled(): Engine {
    Engine(g => Legacy.ValidMoves(g), (g, p) => false, (g, p) => g, true)
  }

  /** As written, the search of a running game raises in its first
      iteration, at the first expansion. */
  lemma CoreAsCalledRaises(g: Game, uct: Uct, draws: seq<Draws>)
    requires Rules.WellFormed(g) && IsTurn(g.phase) && |draws| > 0
    ensures Run(CoreAsCalled(), Root(CoreAsCalled(), g), g, uct, draws) == Failed
  {
    Search.TurnHasMoves(Core, g);
  }

  /** With the coordinates passed as `make_move(move[0], move[1])`, as
      `core/minimax.py` does, the first iteration of a running game expands
      one listed move. */
  lemma CoreFirstIterationExpands(g: Game, uct: Uct, d: Draws)
    requires Rules.WellFormed(g) && IsTurn(g.phase)
    ensures var e := EngineOf(Core);
      var r := Descend(e, Root(e, g), g, uct, d, false);
      r.Iterated? && |r.node.children| == 1 && r.node.children[0].move in Rules.ValidMoves(g)
  {
    var e := EngineOf(Core);
    Search.TurnHasMoves(Core, g);
    Legacy.AgreesWhileTurn(g);
    var m := e.listed(g)[d.pick % |e.listed(g)|];
    EngineStep(Core, g, m);
    PlayoutEnds(Core, e.play(g, m), d.roll, 0);
  }

  // ---------------------------------------------------------------------
  // The older copy raises after a wipe-out

  /** In the older copy, an iteration that reaches a node at a finished
      position with a move still unexplored raises: `make_move` refuses to
      play on a finished game. */
  lemma CoreStaleNodeCrashes(n: Node, g: Game, uct: Uct, d: Draws)
    requires !IsTurn(g.phase) && n.unexplored != []
    ensures Descend(EngineOf(Core), n, g, uct, d, false) == Crashed
  {
  }

  /** Such nodes arise: in the wipe-out position Black's listed move (2,2)
      ends the game, yet the older copy lists a move after it, and that list
      becomes the new child's unexplored moves. The canonical engine lists
      nothing there. */
  lemma CoreWipeoutLeavesStaleChild()
    ensures Pos(2, 2) in EngineOf(Core).listed(Legacy.WipeoutGame)
    ensures EngineOf(Core).accepts(Legacy.WipeoutGame, Pos(2, 2))
    ensures !IsTurn(EngineOf(Core).play(Legacy.WipeoutGame, Pos(2, 2)).phase)
    ensures EngineOf(Core).listed(EngineOf(Core).play(Legacy.WipeoutGame, Pos(2, 2))) != []
    ensures EngineOf(Src).listed(EngineOf(Src).play(Legacy.WipeoutGame, Pos(2, 2))) == []
  {
    var w, p := Legacy.WipeoutGame, Pos(2, 2);
    Legacy.StaleMovesAfterWipeout();
    var h := Rules.MakeMove(w, p).game;
    assert EngineOf(Core).play(w, p) == h && EngineOf(Src).play(w, p) == h;
    assert EngineOf(Core).listed(h) == Legacy.ValidMoves(h);
    assert EngineOf(Src).listed(h) == Rules.ValidMoves(h);
    WipeoutListed();
  }

  /** The wipe-out game lists (2,2) for Black, and the move is accepted. */
  lemma WipeoutListed()
    ensures Pos(2, 2) in EngineOf(Core).listed(Legacy.WipeoutGame)
    ensures EngineOf(Core).accepts(Legacy.WipeoutGame, Pos(2, 2))
  {
    var w, p := Legacy.WipeoutGame, Pos(2, 2);
    Legacy.StaleMovesAfterWipeout();
    Legacy.WipeoutAt(p);
    assert p in Legacy.ValidMoves(w);
    assert EngineOf(Core).listed(w) == Legacy.ValidMoves(w);
  }
}
