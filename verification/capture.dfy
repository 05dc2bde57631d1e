/** Capture along rays: which opponent discs a disc placed at a cell would
    flip. The three engines share this code (`_flipped_cells_in_direction`,
    `_flipped_cells`, `flipped_cells_in_direction`, `get_flipped_cells`). */
module Capture {
  import opened Board

  /** The cells 1 .. n steps from `p` along `d` are on the board and hold `opp`. */
  ghost predicate OppRun(b: Board, p: Pos, d: Dir, opp: Cell, n: int) {
    forall k :: 1 <= k <= n ==> OnBoard(Shift(p, d, k)) && At(b, Shift(p, d, k)) == opp
  }

  /** An unbroken run of `n >= 1` opponent discs next to `p` along `d`,
      immediately closed by a `player` disc on the board. */
  ghost predicate Brackets(b: Board, p: Pos, d: Dir, player: Cell, opp: Cell, n: int) {
    && 1 <= n
    && OppRun(b, p, d, opp, n)
    && OnBoard(Shift(p, d, n + 1))
    && At(b, Shift(p, d, n + 1)) == player
  }

  /** The scanning loop of one direction: `k` is the distance of the cell under
      test and `run` the opponent discs passed so far. */
  function ScanRay(b: Board, p: Pos, d: Dir, player: Cell, opp: Cell, k: int, run: seq<Pos>): (r: seq<Pos>)
    requires OnBoard(p) && IsDir(d) && player != opp && 1 <= k
    requires |run| == k - 1 && forall i :: 0 <= i < |run| ==> run[i] == Shift(p, d, i + 1)
    requires OppRun(b, p, d, opp, k - 1)
    ensures r == [] || Brackets(b, p, d, player, opp, |r|)
    ensures forall i :: 0 <= i < |r| ==> r[i] == Shift(p, d, i + 1)
    decreases |b| - k
  {
    var q := Shift(p, d, k);
    if OnBoard(q) && At(b, q) == opp then
      ScanRay(b, p, d, player, opp, k + 1, run + [q])
    else if !OnBoard(q) || At(b, q) != player then
      []
    else
      run
  }

  /** The discs a move at `p` flips along `d`: the whole opponent run when a
      `player` disc closes it, and nothing otherwise. */
  function FlippedInDirection(b: Board, p: Pos, d: Dir, player: Cell, opp: Cell): (r: seq<Pos>)
    requires OnBoard(p) && IsDir(d) && player != opp
    ensures r == [] || Brackets(b, p, d, player, opp, |r|)
    ensures forall i :: 0 <= i < |r| ==> r[i] == Shift(p, d, i + 1)
  {
    ScanRay(b, p, d, player, opp, 1, [])
  }

  /** A bracketed run is unique: the closing disc is not an opponent disc. */
  lemma BracketsUnique(b: Board, p: Pos, d: Dir, player: Cell, opp: Cell, n: int, m: int)
    requires player != opp
    requires Brackets(b, p, d, player, opp, n) && Brackets(b, p, d, player, opp, m)
    ensures n == m
  {
    if n < m {
      ghost var q := Shift(p, d, n + 1);
      assert false;
    } else if m < n {
      ghost var q := Shift(p, d, m + 1);
      assert false;
    }
  }

  lemma {:induction false} ScanRayFindsBracket(b: Board, p: Pos, d: Dir, player: Cell, opp: Cell, k: int, run: seq<Pos>, n: int)
    requires OnBoard(p) && IsDir(d) && player != opp && 1 <= k
    requires |run| == k - 1 && forall i :: 0 <= i < |run| ==> run[i] == Shift(p, d, i + 1)
    requires OppRun(b, p, d, opp, k - 1)
    requires Brackets(b, p, d, player, opp, n)
    ensures |ScanRay(b, p, d, player, opp, k, run)| == n
    decreases 8 - k
  {
    var q := Shift(p, d, k);
    if k <= n {
      assert OnBoard(q) && At(b, q) == opp;
      ScanRayFindsBracket(b, p, d, player, opp, k + 1, run + [q], n);
    } else if k == n + 1 {
      assert OnBoard(q) && At(b, q) == player;
    } else {
      ghost var c := Shift(p, d, n + 1);
      assert false;
    }
  }

  /** The capture rule of one direction: something is flipped exactly when
      there is a bracketed run, and then the flipped cells are that run. */
  lemma RayCapturesIffBracketed(b: Board, p: Pos, d: Dir, player: Cell, opp: Cell, n: int)
    requires OnBoard(p) && IsDir(d) && player != opp
    ensures Brackets(b, p, d, player, opp, n) <==> FlippedInDirection(b, p, d, player, opp) != [] && |FlippedInDirection(b, p, d, player, opp)| == n
  {
    if Brackets(b, p, d, player, opp, n) {
      ScanRayFindsBracket(b, p, d, player, opp, 1, [], n);
    }
  }

  // ---------------------------------------------------------------------
  // All eight directions

  predicate AllDirs(dirs: seq<Dir>) {
    forall j :: 0 <= j < |dirs| ==> IsDir(dirs[j])
  }

  /** `q` lies on one of the rays from `p` along `dirs`. */
  ghost predicate OnSomeRay(p: Pos, dirs: seq<Dir>, q: Pos) {
    exists j, k :: 0 <= j < |dirs| && 1 <= k && q == Shift(p, dirs[j], k)
  }

  /** The concatenation of the rays along `dirs`, in order. */
  function FlippedAlong(b: Board, p: Pos, player: Cell, opp: Cell, dirs: seq<Dir>): (r: seq<Pos>)
    requires OnBoard(p) && player != opp && AllDirs(dirs)
    ensures forall i :: 0 <= i < |r| ==> OnBoard(r[i]) && At(b, r[i]) == opp && OnSomeRay(p, dirs, r[i])
    decreases |b| + |dirs|
  {
    if dirs == [] then []
    else
      var here := FlippedInDirection(b, p, dirs[0], player, opp);
      var rest := FlippedAlong(b, p, player, opp, dirs[1..]);
      assert forall i :: 0 <= i < |here| ==> OnSomeRay(p, dirs, here[i]) by {
        forall i | 0 <= i < |here|
          ensures OnSomeRay(p, dirs, here[i])
        {
          assert here[i] == Shift(p, dirs[0], i + 1);
        }
      }
      assert forall i :: 0 <= i < |rest| ==> OnSomeRay(p, dirs, rest[i]) by {
        forall i | 0 <= i < |rest|
          ensures OnSomeRay(p, dirs, rest[i])
        {
          var j, k :| 0 <= j < |dirs[1..]| && 1 <= k && rest[i] == Shift(p, dirs[1..][j], k);
          assert rest[i] == Shift(p, dirs[j + 1], k);
        }
      }
      assert forall i :: 0 <= i < |here| ==> OnBoard(here[i]) && At(b, here[i]) == opp by {
        forall i | 0 <= i < |here|
          ensures OnBoard(here[i]) && At(b, here[i]) == opp
        {
          assert here[i] == Shift(p, dirs[0], i + 1);
        }
      }
      here + rest
  }

  /** The discs a move at `p` flips: the eight rays in the source's order. */
  function Flipped(b: Board, p: Pos, player: Cell, opp: Cell): (r: seq<Pos>)
    requires OnBoard(p) && player != opp
    ensures forall i :: 0 <= i < |r| ==> OnBoard(r[i]) && At(b, r[i]) == opp
  {
    DirectionsAreDirs();
    FlippedAlong(b, p, player, opp, Directions)
  }

  /** A cell on the first ray is not on any later ray when the directions differ. */
  lemma RayMissesLaterRays(p: Pos, dirs: seq<Dir>, k: int, q: Pos)
    requires AllDirs(dirs) && Distinct(dirs) && |dirs| > 0 && 1 <= k
    requires OnSomeRay(p, dirs[1..], q)
    ensures Shift(p, dirs[0], k) != q
  {
    var j, m :| 0 <= j < |dirs[1..]| && 1 <= m && q == Shift(p, dirs[1..][j], m);
    ShiftInjective(p, dirs[0], k, dirs[j + 1], m);
  }

  /** The flipped cells never include the played cell and never repeat, since
      the eight rays are disjoint. */
  lemma {:induction false} FlippedAlongDistinct(b: Board, p: Pos, player: Cell, opp: Cell, dirs: seq<Dir>)
    requires OnBoard(p) && player != opp && AllDirs(dirs) && Distinct(dirs)
    ensures Distinct(FlippedAlong(b, p, player, opp, dirs))
    ensures p !in FlippedAlong(b, p, player, opp, dirs)
    decreases |dirs|
  {
    if dirs != [] {
      var here := FlippedInDirection(b, p, dirs[0], player, opp);
      var rest := FlippedAlong(b, p, player, opp, dirs[1..]);
      assert Distinct(dirs[1..]);
      FlippedAlongDistinct(b, p, player, opp, dirs[1..]);
      forall i, j | 0 <= i < |here| && 0 <= j < |rest|
        ensures here[i] != rest[j]
      {
        RayMissesLaterRays(p, dirs, i + 1, rest[j]);
      }
      forall i, j | 0 <= i < j < |here|
        ensures here[i] != here[j]
      {
        ShiftInjective(p, dirs[0], i + 1, dirs[0], j + 1);
      }
      forall i | 0 <= i < |here|
        ensures here[i] != p
      {
        ShiftNotOrigin(p, dirs[0], i + 1);
      }
      DistinctConcat(here, rest);
    }
  }

  lemma DistinctConcat<T>(a: seq<T>, c: seq<T>)
    requires Distinct(a) && Distinct(c)
    requires forall i, j :: 0 <= i < |a| && 0 <= j < |c| ==> a[i] != c[j]
    ensures Distinct(a + c)
  {
    var r := a + c;
    forall i, j | 0 <= i < j < |r|
      ensures r[i] != r[j]
    {
      if j < |a| {
      } else if i < |a| {
        assert r[j] == c[j - |a|];
      } else {
        assert r[i] == c[i - |a|] && r[j] == c[j - |a|];
      }
    }
  }

  lemma FlippedDistinct(b: Board, p: Pos, player: Cell, opp: Cell)
    requires OnBoard(p) && player != opp
    ensures Distinct(Flipped(b, p, player, opp))
    ensures p !in Flipped(b, p, player, opp)
  {
    DirectionsAreDirs();
    FlippedAlongDistinct(b, p, player, opp, Directions);
  }

  /** A move captures something along some direction. */
  ghost predicate Captures(b: Board, p: Pos, player: Cell, opp: Cell, dirs: seq<Dir>) {
    exists j, n :: 0 <= j < |dirs| && Brackets(b, p, dirs[j], player, opp, n)
  }

  /** One direction flips something exactly when it holds a bracketed run. */
  lemma RayNonEmptyIff(b: Board, p: Pos, d: Dir, player: Cell, opp: Cell)
    requires OnBoard(p) && IsDir(d) && player != opp
    ensures FlippedInDirection(b, p, d, player, opp) != [] <==> exists n :: Brackets(b, p, d, player, opp, n)
  {
    if exists n :: Brackets(b, p, d, player, opp, n) {
      var n :| Brackets(b, p, d, player, opp, n);
      RayCapturesIffBracketed(b, p, d, player, opp, n);
    }
  }

  /** Capturing along `dirs` is capturing along the first or along the rest. */
  lemma CapturesCons(b: Board, p: Pos, player: Cell, opp: Cell, dirs: seq<Dir>)
    requires dirs != []
    ensures Captures(b, p, player, opp, dirs) <==>
      (exists n :: Brackets(b, p, dirs[0], player, opp, n)) || Captures(b, p, player, opp, dirs[1..])
  {
    if Captures(b, p, player, opp, dirs) {
      var j, n :| 0 <= j < |dirs| && Brackets(b, p, dirs[j], player, opp, n);
      if j != 0 {
        assert Brackets(b, p, dirs[1..][j - 1], player, opp, n);
      }
    }
    if Captures(b, p, player, opp, dirs[1..]) {
      var j, n :| 0 <= j < |dirs[1..]| && Brackets(b, p, dirs[1..][j], player, opp, n);
      assert Brackets(b, p, dirs[j + 1], player, opp, n);
    }
  }

  lemma {:induction false} FlippedAlongNonEmptyIff(b: Board, p: Pos, player: Cell, opp: Cell, dirs: seq<Dir>)
    requires OnBoard(p) && player != opp && AllDirs(dirs)
    ensures FlippedAlong(b, p, player, opp, dirs) != [] <==> Captures(b, p, player, opp, dirs)
    decreases |dirs|
  {
    if dirs != [] {
      FlippedAlongNonEmptyIff(b, p, player, opp, dirs[1..]);
      RayNonEmptyIff(b, p, dirs[0], player, opp);
      CapturesCons(b, p, player, opp, dirs);
    }
  }

  /** A move flips something exactly when some direction holds a bracketed run. */
  lemma FlippedNonEmptyIff(b: Board, p: Pos, player: Cell, opp: Cell)
    requires OnBoard(p) && player != opp
    ensures Flipped(b, p, player, opp) != [] <==> Captures(b, p, player, opp, Directions)
  {
    DirectionsAreDirs();
    FlippedAlongNonEmptyIff(b, p, player, opp, Directions);
  }

  // ---------------------------------------------------------------------
  // Framing: the scan reads only disc cells other than the played one

  /** `a` and `c` hold the same discs everywhere except possibly at `p`. */
  ghost predicate SameDiscsAwayFrom(a: Board, c: Board, p: Pos)
    requires OnBoard(p)
  {
    forall i {:trigger a[i], c[i]} :: 0 <= i < 64 && i != Index(p) && (IsDisc(a[i]) || IsDisc(c[i])) ==> a[i] == c[i]
  }

  lemma {:induction false} ScanRayFrame(a: Board, c: Board, p: Pos, d: Dir, player: Cell, opp: Cell, k: int, run: seq<Pos>)
    requires OnBoard(p) && IsDir(d) && player != opp && IsDisc(player) && IsDisc(opp) && 1 <= k
    requires |run| == k - 1 && forall i :: 0 <= i < |run| ==> run[i] == Shift(p, d, i + 1)
    requires OppRun(a, p, d, opp, k - 1) && OppRun(c, p, d, opp, k - 1)
    requires SameDiscsAwayFrom(a, c, p)
    ensures ScanRay(a, p, d, player, opp, k, run) == ScanRay(c, p, d, player, opp, k, run)
    decreases 8 - k
  {
    var q := Shift(p, d, k);
    ShiftNotOrigin(p, d, k);
    if OnBoard(q) {
      IndexInjective(q, p);
      assert At(a, q) == opp <==> At(c, q) == opp;
      assert At(a, q) == player <==> At(c, q) == player;
      if At(a, q) == opp {
        ScanRayFrame(a, c, p, d, player, opp, k + 1, run + [q]);
      }
    }
  }

  lemma {:induction false} FlippedAlongFrame(a: Board, c: Board, p: Pos, player: Cell, opp: Cell, dirs: seq<Dir>)
    requires OnBoard(p) && player != opp && IsDisc(player) && IsDisc(opp) && AllDirs(dirs)
    requires SameDiscsAwayFrom(a, c, p)
    ensures FlippedAlong(a, p, player, opp, dirs) == FlippedAlong(c, p, player, opp, dirs)
    decreases |dirs|
  {
    if dirs != [] {
      ScanRayFrame(a, c, p, dirs[0], player, opp, 1, []);
      FlippedAlongFrame(a, c, p, player, opp, dirs[1..]);
    }
  }

  /** The flipped cells depend only on the discs away from the played cell:
      neither `Valid` marks nor the played cell itself matter. */
  lemma FlippedFrame(a: Board, c: Board, p: Pos, player: Cell, opp: Cell)
    requires OnBoard(p) && player != opp && IsDisc(player) && IsDisc(opp)
    requires SameDiscsAwayFrom(a, c, p)
    ensures Flipped(a, p, player, opp) == Flipped(c, p, player, opp)
  {
    DirectionsAreDirs();
    FlippedAlongFrame(a, c, p, player, opp, Directions);
  }
}
