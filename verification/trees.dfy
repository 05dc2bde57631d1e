/** Alpha-beta search over an explicit tree of scores, and plain minimax as
    its reference. The searches of the three `minimax.py` files are this
    search over the tree of positions they explore (module `Search`). */
module Trees {
  /** A leaf holds its score; a node says whether it maximizes, holds the
      `best_value` its loop starts from and its children in move order. */
  datatype Tree = Leaf(value: int) | Node(maxNode: bool, start: int, kids: seq<Tree>)

  function Max(a: int, b: int): int { if a < b then b else a }
  function Min(a: int, b: int): int { if b < a then b else a }

  // ---------------------------------------------------------------------
  // Plain minimax

  function Minimax(t: Tree): int
    decreases t, 1, 0
  {
    match t
    case Leaf(x) => x
    case Node(_, _, _) => BestFrom(t, 0)
  }

  /** The largest (at a maximizing node) or smallest score of the children
      from the `k`-th on and the node's start value. */
  function BestFrom(t: Tree, k: int): (r: int)
    requires t.Node? && 0 <= k <= |t.kids|
    ensures t.maxNode ==> t.start <= r
    ensures !t.maxNode ==> r <= t.start
    decreases t, 0, |t.kids| - k
  {
    if k == |t.kids| then t.start
    else if t.maxNode then Max(Minimax(t.kids[k]), BestFrom(t, k + 1))
    else Min(Minimax(t.kids[k]), BestFrom(t, k + 1))
  }

  // ---------------------------------------------------------------------
  // Alpha-beta

  /** The search of a (sub)tree in the window (alpha, beta): the score found
      and the index of the child it came from, -1 at a leaf. `core` selects
      the bound update of `core/minimax.py`, which moves the bound by the
      child's score instead of by the best score. */
  function Search(t: Tree, alpha: int, beta: int, core: bool): (r: (int, int))
    ensures t.Node? && t.kids != [] ==> 0 <= r.1 < |t.kids|
    decreases t, 1, 0
  {
    match t
    case Leaf(x) => (x, -1)
    case Node(_, start, kids) =>
      if kids == [] then (start, -1) else Scan(t, 0, alpha, beta, start, 0, core)
  }

  /** The loop over the children from the `k`-th on. A maximizing node keeps
      the first strictly larger score and raises alpha, a minimizing node the
      first strictly smaller score and lowers beta; the loop stops as soon
      as alpha reaches beta. */
  function Scan(t: Tree, k: int, alpha: int, beta: int, best: int, bestIdx: int, core: bool): (r: (int, int))
    requires t.Node? && 0 <= k <= |t.kids| && 0 <= bestIdx < |t.kids|
    ensures 0 <= r.1 < |t.kids|
    decreases t, 0, |t.kids| - k
  {
    if k == |t.kids| then (best, bestIdx)
    else
      var value := Search(t.kids[k], alpha, beta, core).0;
      if t.maxNode then
        var (best1, idx1) := if best < value then (value, k) else (best, bestIdx);
        var alpha1 := if core then Max(alpha, value) else Max(alpha, best1);
        if beta <= alpha1 then (best1, idx1)
        else Scan(t, k + 1, alpha1, beta, best1, idx1, core)
      else
        var (best1, idx1) := if value < best then (value, k) else (best, bestIdx);
        var beta1 := if core then Min(beta, value) else Min(beta, best1);
        if beta1 <= alpha then (best1, idx1)
        else Scan(t, k + 1, alpha, beta1, best1, idx1, core)
  }

  // ---------------------------------------------------------------------
  // Soundness

  /** The fail-soft contract of alpha-beta: a result below beta bounds the
      true score from above, a result above alpha bounds it from below, so a
      result strictly inside the window is the true score. */
  predicate Sound(f: int, val: int, alpha: int, beta: int) {
    (f < beta ==> val <= f) && (alpha < f ==> f <= val)
  }

  /** For every window alpha < beta and either bound update, the pruned
      search is sound with respect to plain minimax. */
  lemma {:induction false} SearchSound(t: Tree, alpha: int, beta: int, core: bool)
    requires alpha < beta
    ensures Sound(Search(t, alpha, beta, core).0, Minimax(t), alpha, beta)
    decreases t, 1, 0
  {
    if t.Node? && t.kids != [] {
      if t.maxNode {
        ScanMaxSound(t, 0, alpha, alpha, beta, t.start, 0, t.start, core);
      } else {
        ScanMinSound(t, 0, beta, alpha, beta, t.start, 0, t.start, core);
      }
    }
  }

  /** One child of a maximizing node: a cut-off leaves a sound result,
      otherwise the loop's invariant carries over. */
  lemma MaxStep(alpha0: int, alpha: int, beta: int, best: int, prefix: int, start: int,
                value: int, cv: int, rest: int, best1: int, alpha1: int, core: bool)
    requires alpha0 <= alpha < beta && alpha <= Max(alpha0, best)
    requires start <= best && start <= prefix
    requires best < beta ==> prefix <= best
    requires alpha0 < best ==> best <= prefix
    requires Sound(value, cv, alpha, beta)
    requires best1 == if best < value then value else best
    requires alpha1 == if core then Max(alpha, value) else Max(alpha, best1)
    ensures beta <= alpha1 ==> Sound(best1, Max(prefix, Max(cv, rest)), alpha0, beta)
    ensures alpha1 < beta ==> alpha0 <= alpha1 && alpha1 <= Max(alpha0, best1)
    ensures start <= best1 && start <= Max(prefix, cv)
    ensures best1 < beta ==> Max(prefix, cv) <= best1
    ensures alpha0 < best1 ==> best1 <= Max(prefix, cv)
    ensures Max(prefix, Max(cv, rest)) == Max(Max(prefix, cv), rest)
  {
  }

  /** One child of a minimizing node, symmetrically. */
  lemma MinStep(beta0: int, alpha: int, beta: int, best: int, prefix: int, start: int,
                value: int, cv: int, rest: int, best1: int, beta1: int, core: bool)
    requires alpha < beta <= beta0 && Min(beta0, best) <= beta
    requires best <= start && prefix <= start
    requires alpha < best ==> best <= prefix
    requires best < beta0 ==> prefix <= best
    requires Sound(value, cv, alpha, beta)
    requires best1 == if value < best then value else best
    requires beta1 == if core then Min(beta, value) else Min(beta, best1)
    ensures beta1 <= alpha ==> Sound(best1, Min(prefix, Min(cv, rest)), alpha, beta0)
    ensures alpha < beta1 ==> beta1 <= beta0 && Min(beta0, best1) <= beta1
    ensures best1 <= start && Min(prefix, cv) <= start
    ensures alpha < best1 ==> best1 <= Min(prefix, cv)
    ensures best1 < beta0 ==> Min(prefix, cv) <= best1
    ensures Min(prefix, Min(cv, rest)) == Min(Min(prefix, cv), rest)
  {
  }

  /** The maximizing loop is sound for the children from the `k`-th on:
      the window only narrows, `prefix` is the largest child score so far
      (and the start value), `best` its pruned estimate. */
  lemma {:induction false} ScanMaxSound(t: Tree, k: int, alpha0: int, alpha: int, beta: int,
                                        best: int, bestIdx: int, prefix: int, core: bool)
    requires t.Node? && t.maxNode && 0 <= k <= |t.kids| && 0 <= bestIdx < |t.kids|
    requires alpha0 <= alpha < beta && alpha <= Max(alpha0, best)
    requires t.start <= best && t.start <= prefix
    requires best < beta ==> prefix <= best
    requires alpha0 < best ==> best <= prefix
    ensures Sound(Scan(t, k, alpha, beta, best, bestIdx, core).0, Max(prefix, BestFrom(t, k)), alpha0, beta)
    decreases t, 0, |t.kids| - k
  {
    if k < |t.kids| {
      var value := Search(t.kids[k], alpha, beta, core).0;
      SearchSound(t.kids[k], alpha, beta, core);
      var (best1, idx1) := if best < value then (value, k) else (best, bestIdx);
      var alpha1 := if core then Max(alpha, value) else Max(alpha, best1);
      MaxStep(alpha0, alpha, beta, best, prefix, t.start, value, Minimax(t.kids[k]), BestFrom(t, k + 1), best1, alpha1, core);
      if alpha1 < beta {
        ScanMaxSound(t, k + 1, alpha0, alpha1, beta, best1, idx1, Max(prefix, Minimax(t.kids[k])), core);
      }
    }
  }

  /** The minimizing loop, symmetrically. */
  lemma {:induction false} ScanMinSound(t: Tree, k: int, beta0: int, alpha: int, beta: int,
                                        best: int, bestIdx: int, prefix: int, core: bool)
    requires t.Node? && !t.maxNode && 0 <= k <= |t.kids| && 0 <= bestIdx < |t.kids|
    requires alpha < beta <= beta0 && Min(beta0, best) <= beta
    requires best <= t.start && prefix <= t.start
    requires alpha < best ==> best <= prefix
    requires best < beta0 ==> prefix <= best
    ensures Sound(Scan(t, k, alpha, beta, best, bestIdx, core).0, Min(prefix, BestFrom(t, k)), alpha, beta0)
    decreases t, 0, |t.kids| - k
  {
    if k < |t.kids| {
      var value := Search(t.kids[k], alpha, beta, core).0;
      SearchSound(t.kids[k], alpha, beta, core);
      var (best1, idx1) := if value < best then (value, k) else (best, bestIdx);
      var beta1 := if core then Min(beta, value) else Min(beta, best1);
      MinStep(beta0, alpha, beta, best, prefix, t.start, value, Minimax(t.kids[k]), BestFrom(t, k + 1), best1, beta1, core);
      if alpha < beta1 {
        ScanMinSound(t, k + 1, beta0, alpha, beta1, best1, idx1, Min(prefix, Minimax(t.kids[k])), core);
      }
    }
  }

  // ---------------------------------------------------------------------
  // Trees whose scores lie in a range

  /** Every leaf scores within [lo, hi], every node has a child, and a node's
      start value is no better for it than any score in the range, as for
      the trees the engines explore. */
  predicate Proper(t: Tree, lo: int, hi: int)
    decreases t
  {
    match t
    case Leaf(x) => lo <= x <= hi
    case Node(maxNode, start, kids) =>
      && kids != []
      && (maxNode ==> start <= lo)
      && (!maxNode ==> hi <= start)
      && forall i :: 0 <= i < |kids| ==> Proper(kids[i], lo, hi)
  }

  /** In such a tree both plain minimax and the pruned search, in any
      window, score within the range. */
  lemma {:induction false} ProperBounds(t: Tree, lo: int, hi: int, alpha: int, beta: int, core: bool)
    requires Proper(t, lo, hi)
    ensures lo <= Minimax(t) <= hi
    ensures lo <= Search(t, alpha, beta, core).0 <= hi
    decreases t, 1, 0
  {
    if t.Node? {
      BestFromBounded(t, 0, lo, hi);
      ScanBounded(t, 0, alpha, beta, t.start, 0, core, lo, hi);
    }
  }

  lemma {:induction false} BestFromBounded(t: Tree, k: int, lo: int, hi: int)
    requires t.Node? && Proper(t, lo, hi) && 0 <= k < |t.kids|
    ensures lo <= BestFrom(t, k) <= hi
    decreases t, 0, |t.kids| - k
  {
    ProperBounds(t.kids[k], lo, hi, lo, hi, false);
    if k + 1 < |t.kids| {
      BestFromBounded(t, k + 1, lo, hi);
    }
  }

  lemma {:induction false} ScanBounded(t: Tree, k: int, alpha: int, beta: int, best: int, bestIdx: int,
                                       core: bool, lo: int, hi: int)
    requires t.Node? && Proper(t, lo, hi) && 0 <= k <= |t.kids| && 0 <= bestIdx < |t.kids|
    requires (k == 0 && best == t.start) || lo <= best <= hi
    ensures lo <= Scan(t, k, alpha, beta, best, bestIdx, core).0 <= hi
    decreases t, 0, |t.kids| - k
  {
    if k < |t.kids| {
      var value := Search(t.kids[k], alpha, beta, core).0;
      ProperBounds(t.kids[k], lo, hi, alpha, beta, core);
      if t.maxNode {
        var (best1, idx1) := if best < value then (value, k) else (best, bestIdx);
        var alpha1 := if core then Max(alpha, value) else Max(alpha, best1);
        if alpha1 < beta {
          ScanBounded(t, k + 1, alpha1, beta, best1, idx1, core, lo, hi);
        }
      } else {
        var (best1, idx1) := if value < best then (value, k) else (best, bestIdx);
        var beta1 := if core then Min(beta, value) else Min(beta, best1);
        if alpha < beta1 {
          ScanBounded(t, k + 1, alpha, beta1, best1, idx1, core, lo, hi);
        }
      }
    }
  }

  /** A window that holds the whole range loses nothing: the pruned search
      returns the minimax score. */
  lemma FullWindowExact(t: Tree, lo: int, hi: int, alpha: int, beta: int, core: bool)
    requires Proper(t, lo, hi) && alpha <= lo && hi <= beta && alpha < beta
    ensures Search(t, alpha, beta, core).0 == Minimax(t)
  {
    SearchSound(t, alpha, beta, core);
    ProperBounds(t, lo, hi, alpha, beta, core);
  }

  // ---------------------------------------------------------------------
  // The move chosen at the root

  /** The move the search returns at a maximizing root whose alpha starts at
      the start value: its child scores the root's minimax score, and every
      earlier child scores strictly less, so it is the first best move. */
  lemma RootChoice(t: Tree, lo: int, hi: int, beta: int)
    requires Proper(t, lo, hi) && t.Node? && t.maxNode && t.start < beta && hi <= beta
    ensures Minimax(t.kids[Search(t, t.start, beta, false).1]) == Minimax(t)
    ensures forall j :: 0 <= j < Search(t, t.start, beta, false).1 ==> Minimax(t.kids[j]) < Minimax(t)
  {
    FullWindowExact(t, lo, hi, t.start, beta, false);
    RootScan(t, 0, beta, t.start, 0, lo, hi);
  }

  /** The root loop keeps alpha equal to the best score; `c` is the child
      the best score came from. */
  lemma {:induction false} RootScan(t: Tree, k: int, beta: int, best: int, c: int, lo: int, hi: int)
    requires Proper(t, lo, hi) && t.Node? && t.maxNode && t.start < beta && hi <= beta
    requires 0 <= k <= |t.kids| && 0 <= c < |t.kids| && best < beta
    requires k == 0 ==> c == 0 && best == t.start
    requires k > 0 ==> c < k && Minimax(t.kids[c]) == best
    requires forall j :: 0 <= j < k ==> Minimax(t.kids[j]) <= best
    requires forall j :: 0 <= j < c ==> Minimax(t.kids[j]) < best
    ensures Minimax(t.kids[Scan(t, k, best, beta, best, c, false).1]) == Scan(t, k, best, beta, best, c, false).0
    ensures forall j :: 0 <= j < Scan(t, k, best, beta, best, c, false).1 ==>
              Minimax(t.kids[j]) < Scan(t, k, best, beta, best, c, false).0
    decreases |t.kids| - k
  {
    if k < |t.kids| {
      var value := Search(t.kids[k], best, beta, false).0;
      RootChild(t, k, beta, best, lo, hi);
      if best < value {
        if value < beta {
          RootScan(t, k + 1, beta, value, k, lo, hi);
        }
      } else {
        RootScan(t, k + 1, beta, best, c, lo, hi);
      }
    }
  }

  /** One child of the root, searched in the window (best, beta): a score
      above the best so far is the child's exact score, and any other score
      bounds the child's score by the best; the score is never below `lo`. */
  lemma RootChild(t: Tree, k: int, beta: int, best: int, lo: int, hi: int)
    requires Proper(t, lo, hi) && t.Node? && 0 <= k < |t.kids| && best < beta && hi <= beta
    ensures var value := Search(t.kids[k], best, beta, false).0;
      && (best < value ==> Minimax(t.kids[k]) == value && value <= beta)
      && (value <= best ==> Minimax(t.kids[k]) <= best)
      && lo <= Minimax(t.kids[k])
  {
    SearchSound(t.kids[k], best, beta, false);
    ProperBounds(t.kids[k], lo, hi, best, beta, false);
  }

  // ---------------------------------------------------------------------
  // The root loop of `core/minimax.py`

  /** Every child is searched in the same window; a strictly larger score
      becomes the best, and the loop stops at the first child scoring at
      least `enough`. The result is the index of the chosen child. */
  function CoreRootScan(t: Tree, k: int, alpha: int, beta: int, enough: int, best: int, bestIdx: int): (r: int)
    requires t.Node? && 0 <= k <= |t.kids| && 0 <= bestIdx < |t.kids|
    ensures 0 <= r < |t.kids|
    decreases |t.kids| - k
  {
    if k == |t.kids| then bestIdx
    else
      var value := Search(t.kids[k], alpha, beta, true).0;
      var (best1, idx1) := if best < value then (value, k) else (best, bestIdx);
      if enough <= value then idx1 else CoreRootScan(t, k + 1, alpha, beta, enough, best1, idx1)
  }

  /** A best score that starts above every score in the range never moves:
      the loop returns the child it started with. */
  lemma {:induction false} CoreRootStuck(t: Tree, k: int, alpha: int, beta: int, enough: int, best: int,
                                         bestIdx: int, lo: int, hi: int)
    requires Proper(t, lo, hi) && t.Node? && 0 <= k <= |t.kids| && 0 <= bestIdx < |t.kids| && hi < best
    ensures CoreRootScan(t, k, alpha, beta, enough, best, bestIdx) == bestIdx
    decreases |t.kids| - k
  {
    if k < |t.kids| {
      ProperBounds(t.kids[k], lo, hi, alpha, beta, true);
      CoreRootStuck(t, k + 1, alpha, beta, enough, best, bestIdx, lo, hi);
    }
  }

  /** What the root loop should pick: the first child scoring at least
      `enough` if there is one, else the first child of largest score. */
  predicate FirstGoodOrBest(t: Tree, i: int, enough: int)
    requires t.Node? && 0 <= i < |t.kids|
  {
    if exists j :: 0 <= j < |t.kids| && enough <= Minimax(t.kids[j]) then
      enough <= Minimax(t.kids[i]) && forall j :: 0 <= j < i ==> Minimax(t.kids[j]) < enough
    else
      (forall j :: 0 <= j < |t.kids| ==> Minimax(t.kids[j]) <= Minimax(t.kids[i]))
      && forall j :: 0 <= j < i ==> Minimax(t.kids[j]) < Minimax(t.kids[i])
  }

  /** With a full window and a best score starting below the range, the
      root loop picks the first good child, or else the first best one. */
  lemma CoreRootPicks(t: Tree, alpha: int, beta: int, enough: int, best: int, lo: int, hi: int)
    requires Proper(t, lo, hi) && t.Node? && alpha <= lo && hi <= beta && alpha < beta && best < lo
    ensures FirstGoodOrBest(t, CoreRootScan(t, 0, alpha, beta, enough, best, 0), enough)
  {
    CoreRootPicksFrom(t, 0, alpha, beta, enough, best, 0, lo, hi);
  }

  lemma {:induction false} CoreRootPicksFrom(t: Tree, k: int, alpha: int, beta: int, enough: int, best: int,
                                             c: int, lo: int, hi: int)
    requires Proper(t, lo, hi) && t.Node? && alpha <= lo && hi <= beta && alpha < beta
    requires 0 <= k <= |t.kids| && 0 <= c < |t.kids|
    requires k == 0 ==> c == 0 && best < lo
    requires k > 0 ==> c < k && Minimax(t.kids[c]) == best
    requires forall j :: 0 <= j < k ==> Minimax(t.kids[j]) <= best && Minimax(t.kids[j]) < enough
    requires forall j :: 0 <= j < c ==> Minimax(t.kids[j]) < best
    ensures FirstGoodOrBest(t, CoreRootScan(t, k, alpha, beta, enough, best, c), enough)
    decreases |t.kids| - k
  {
    if k < |t.kids| {
      var value := Search(t.kids[k], alpha, beta, true).0;
      FullWindowExact(t.kids[k], lo, hi, alpha, beta, true);
      ProperBounds(t.kids[k], lo, hi, alpha, beta, true);
      var (best1, idx1) := if best < value then (value, k) else (best, c);
      if enough <= value {
        assert idx1 == k;
      } else {
        CoreRootPicksFrom(t, k + 1, alpha, beta, enough, best1, idx1, lo, hi);
      }
    }
  }
}
