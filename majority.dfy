/** The majority-vote relaxation of `updateMatrix` (matrix_update.cpp:44-110)
    as pure functions on a grid of state codes, with the properties the
    in-place engine relies on. */
module Majority {
  import opened Colors

  type Grid = seq<seq<int>>

  /** The number of slots of the local `freq` vector (matrix_update.cpp:64). */
  const Slots := 4

  /** The cap on sweeps of the do-while loop (matrix_update.cpp:107). */
  const MaxSweeps := 1000

  /** A non-empty rectangular grid: `matrix[0]` exists (line 47) and every
      row has its length. */
  predicate IsRect(g: Grid) {
    |g| >= 1 && |g[0]| >= 1 && forall i | 0 <= i < |g| :: |g[i]| == |g[0]|
  }

  predicate InGrid(g: Grid, i: int, j: int) {
    |g| >= 1 && 0 <= i < |g| && 0 <= j < |g[0]|
  }

  /** The states a sweep re-evaluates (line 63). */
  predicate Mutable(v: int) {
    v == WHITE || v == ORANGE
  }

  /** A code `freq` has a slot for. */
  predicate InSlots(v: int) {
    0 <= v < Slots
  }

  predicate AllInSlots(s: seq<int>) {
    forall p | 0 <= p < |s| :: InSlots(s[p])
  }

  // ---------------------------------------------------------------- neighbours

  /** One periodic coordinate `(x + d + m) % m` (lines 70-71). The operand is
      never negative, so C's truncating `%` and Dafny's agree. The body picks
      the wrapped value by cases; the last ensures ties it to the source's
      expression. */
  function Wrap(x: int, d: int, m: int): (r: int)
    requires 0 <= x < m && -1 <= d <= 1
    ensures 0 <= r < m
    ensures 0 <= x + d < m ==> r == x + d
    ensures x + d == -1 ==> r == m - 1
    ensures x + d == m ==> r == 0
    ensures r == (x + d + m) % m
  {
    if x + d < 0 then
      ModBelow(x + d + m, m); x + d + m
    else if x + d >= m then
      ModDouble(m); x + d - m
    else
      ModAbove(x + d + m, m); x + d
  }

  /** `%` on the three ranges the operand of `Wrap` can fall in. */
  lemma ModBelow(a: int, m: int)
    requires 0 <= a < m
    ensures a % m == a
  {
  }

  lemma ModAbove(a: int, m: int)
    requires 0 < m <= a < 2 * m
    ensures a % m == a - m
  {
    ModBelow(a - m, m);
  }

  lemma ModDouble(m: int)
    requires 0 < m
    ensures (m + m) % m == 0
  {
    ModAbove(m, m);
  }

  /** The eight offsets in the order the `di`/`dj` loops visit them, the
      centre skipped (lines 67-69). */
  const Offsets: seq<(int, int)> :=
    [(-1, -1), (-1, 0), (-1, 1), (0, -1), (0, 1), (1, -1), (1, 0), (1, 1)]

  /** Offsets are exactly the non-zero pairs over {-1, 0, 1}, each once. */
  lemma OffsetsAreTheEightNeighbours()
    ensures |Offsets| == 8
    ensures forall di, dj | -1 <= di <= 1 && -1 <= dj <= 1 ::
              ((di, dj) in Offsets <==> (di, dj) != (0, 0))
    ensures forall p, q | 0 <= p < q < 8 :: Offsets[p] != Offsets[q]
  {
  }

  /** The coordinates of the `p`-th neighbour of `(i, j)` in an m x n torus. */
  function Neighbour(m: int, n: int, i: int, j: int, p: int): (c: (int, int))
    requires 0 <= i < m && 0 <= j < n && 0 <= p < |Offsets|
    ensures 0 <= c.0 < m && 0 <= c.1 < n
  {
    (Wrap(i, Offsets[p].0, m), Wrap(j, Offsets[p].1, n))
  }

  /** The neighbourhood wraps: the corner `(0, 0)` sees the opposite corner,
      the last row and the last column. */
  lemma CornerWraps(m: int, n: int)
    requires m >= 2 && n >= 2
    ensures Neighbour(m, n, 0, 0, 0) == (m - 1, n - 1)
    ensures Neighbour(m, n, 0, 0, 1) == (m - 1, 0)
    ensures Neighbour(m, n, 0, 0, 2) == (m - 1, 1)
    ensures Neighbour(m, n, 0, 0, 3) == (0, n - 1)
    ensures Neighbour(m, n, 0, 0, 5) == (1, n - 1)
  {
  }

  /** Being a neighbour is symmetric: going back along the opposite offset
      returns to the cell. */
  lemma NeighbourSymmetric(m: int, n: int, i: int, j: int, p: int)
    requires 0 <= i < m && 0 <= j < n && 0 <= p < |Offsets|
    ensures Offsets[7 - p] == (-Offsets[p].0, -Offsets[p].1)
    ensures var c := Neighbour(m, n, i, j, p); Neighbour(m, n, c.0, c.1, 7 - p) == (i, j)
  {
    var c := Neighbour(m, n, i, j, p);
    WrapBack(i, Offsets[p].0, m);
    WrapBack(j, Offsets[p].1, n);
  }

  lemma WrapBack(x: int, d: int, m: int)
    requires 0 <= x < m && -1 <= d <= 1
    ensures Wrap(Wrap(x, d, m), -d, m) == x
  {
    var y := Wrap(x, d, m);
    if x + d == -1 {
      assert y == m - 1;
    } else if x + d == m {
      assert y == 0;
    }
  }

  /** On a torus of at least 3 x 3 no neighbour is the cell itself, and the
      eight neighbours are distinct cells. */
  lemma NeighboursDistinct(m: int, n: int, i: int, j: int)
    requires m >= 3 && n >= 3 && 0 <= i < m && 0 <= j < n
    ensures forall p | 0 <= p < 8 :: Neighbour(m, n, i, j, p) != (i, j)
    ensures forall p, q | 0 <= p < q < 8 :: Neighbour(m, n, i, j, p) != Neighbour(m, n, i, j, q)
  {
    forall p, q | 0 <= p < 8 && 0 <= q < 8 && p != q
      ensures Neighbour(m, n, i, j, p) != Neighbour(m, n, i, j, q)
    {
      WrapInjective(i, Offsets[p].0, Offsets[q].0, m);
      WrapInjective(j, Offsets[p].1, Offsets[q].1, n);
    }
    forall p | 0 <= p < 8 ensures Neighbour(m, n, i, j, p) != (i, j) {
      WrapInjective(i, Offsets[p].0, 0, m);
      WrapInjective(j, Offsets[p].1, 0, n);
    }
  }

  lemma WrapInjective(x: int, d: int, e: int, m: int)
    requires m >= 3 && 0 <= x < m && -1 <= d <= 1 && -1 <= e <= 1
    ensures Wrap(x, d, m) == Wrap(x, e, m) <==> d == e
  {
  }

  /** The position in Offsets of the pair `(di, dj)` the loops of lines
      67-69 have reached. */
  function OffsetIndex(di: int, dj: int): (p: int)
    requires -1 <= di <= 1 && -1 <= dj <= 1 && (di, dj) != (0, 0)
    ensures 0 <= p < |Offsets| && Offsets[p] == (di, dj)
  {
    if di == -1 then dj + 1 else if di == 0 then (if dj == -1 then 3 else 4) else dj + 6
  }

  /** The codes of the eight neighbours of `(i, j)`, read from `g`. */
  function Neighbours(g: Grid, i: int, j: int): (nb: seq<int>)
    requires IsRect(g) && InGrid(g, i, j)
    ensures |nb| == |Offsets|
  {
    seq(|Offsets|, p requires 0 <= p < |Offsets| =>
      var c := Neighbour(|g|, |g[0]|, i, j, p); g[c.0][c.1])
  }

  /** The neighbour the loops reach at `(di, dj)` is the cell at
      `((i + di + m) % m, (j + dj + n) % n)`. */
  lemma NeighbourAtOffset(g: Grid, i: int, j: int, di: int, dj: int)
    requires IsRect(g) && InGrid(g, i, j)
    requires -1 <= di <= 1 && -1 <= dj <= 1 && (di, dj) != (0, 0)
    ensures Neighbours(g, i, j)[OffsetIndex(di, dj)] == g[(i + di + |g|) % |g|][(j + dj + |g[0]|) % |g[0]|]
  {
  }

  /** Reading the neighbours in loop order: the neighbour at offset
      `(di, dj)` extends the prefix read so far by one. */
  lemma NextNeighbour(g: Grid, i: int, j: int, di: int, dj: int, seen: seq<int>)
    requires IsRect(g) && InGrid(g, i, j)
    requires -1 <= di <= 1 && -1 <= dj <= 1 && (di, dj) != (0, 0)
    requires |seen| == OffsetIndex(di, dj) && seen == Neighbours(g, i, j)[..|seen|]
    ensures Neighbours(g, i, j)[|seen|] == g[(i + di + |g|) % |g|][(j + dj + |g[0]|) % |g[0]|]
    ensures Neighbours(g, i, j)[..|seen| + 1] == seen + [Neighbours(g, i, j)[|seen|]]
  {
    NeighbourAtOffset(g, i, j, di, dj);
  }

  // ---------------------------------------------------------------- counting

  /** How many entries of `s` equal `k`, counted one entry at a time as
      `++freq[...]` does (line 72). */
  function Count(s: seq<int>, k: int): (c: nat)
    ensures c <= |s|
  {
    if s == [] then 0 else Count(s[..|s| - 1], k) + (if s[|s| - 1] == k then 1 else 0)
  }

  /** Count agrees with the multiplicity of `k` in `s`. */
  lemma {:induction false} CountIsMultiplicity(s: seq<int>, k: int)
    ensures Count(s, k) == multiset(s)[k]
  {
    if s != [] {
      CountIsMultiplicity(s[..|s| - 1], k);
      assert s == s[..|s| - 1] + [s[|s| - 1]];
    }
  }

  /** The frequency vector of a neighbourhood (lines 64-74). Only codes in
      `[0, Slots)` are counted: a neighbour code outside `[0, 4)`, negative
      ones included, would index outside the source's four-slot vector,
      which is undefined behaviour there, so this (and `Sweep` and `Relax`
      built on it) matches the program only on grids that are `Safe`. */
  function Freq(nb: seq<int>): (f: seq<int>)
    ensures |f| == Slots
    ensures forall k | 0 <= k < Slots :: 0 <= f[k] <= |nb|
  {
    seq(Slots, k requires 0 <= k < Slots => Count(nb, k))
  }

  function Sum(s: seq<int>): int {
    if s == [] then 0 else Sum(s[..|s| - 1]) + s[|s| - 1]
  }

  lemma SumOfFour(f: seq<int>)
    requires |f| == 4
    ensures Sum(f) == f[0] + f[1] + f[2] + f[3]
  {
    assert Sum(f) == Sum(f[..3]) + f[3];
    assert Sum(f[..3]) == Sum(f[..2]) + f[2] by { assert f[..3][..2] == f[..2]; }
    assert Sum(f[..2]) == Sum(f[..1]) + f[1] by { assert f[..2][..1] == f[..1]; }
    assert Sum(f[..1]) == f[0] by { assert f[..1][..0] == []; }
  }

  lemma CountSnoc(s: seq<int>, x: int)
    ensures forall k :: Count(s + [x], k) == Count(s, k) + (if x == k then 1 else 0)
  {
    assert (s + [x])[..|s|] == s;
  }

  /** Appending one in-range code increases exactly its own slot by one. */
  lemma FreqSnoc(s: seq<int>, x: int)
    ensures forall k | 0 <= k < Slots :: Freq(s + [x])[k] == Freq(s)[k] + (if x == k then 1 else 0)
  {
    assert (s + [x])[..|s|] == s;
  }

  /** When every code has a slot, the counts add up to the number of
      entries counted. */
  lemma {:induction false} FreqSum(s: seq<int>)
    requires AllInSlots(s)
    ensures Sum(Freq(s)) == |s|
  {
    SumOfFour(Freq(s));
    if s != [] {
      var t := s[..|s| - 1];
      FreqSum(t);
      SumOfFour(Freq(t));
      FreqSnoc(t, s[|s| - 1]);
      assert t + [s[|s| - 1]] == s;
    }
  }

  /** In particular the eight neighbour counts are non-negative and sum to 8. */
  lemma NeighbourFreqSum(g: Grid, i: int, j: int)
    requires IsRect(g) && InGrid(g, i, j) && AllInSlots(Neighbours(g, i, j))
    ensures forall k | 0 <= k < Slots :: Freq(Neighbours(g, i, j))[k] >= 0
    ensures Sum(Freq(Neighbours(g, i, j))) == 8
  {
    FreqSum(Neighbours(g, i, j));
  }

  // ---------------------------------------------------------------- the vote

  /** `w` is a positive count strictly above every other among the first
      `k` entries of `freq`. */
  predicate WinsAmong(freq: seq<int>, k: int, w: int)
    requires 0 <= k <= |freq|
  {
    0 <= w < k && 0 < freq[w] && forall l | 0 <= l < k && l != w :: freq[l] < freq[w]
  }

  predicate Wins(freq: seq<int>, w: int) {
    WinsAmong(freq, |freq|, w)
  }

  /** The new value of a cell whose current value is `cur`: the unique
      strict maximum of `freq`, else (the maximum is shared) `cur`
      (lines 77-90). */
  function Vote(freq: seq<int>, cur: int): (r: int)
    ensures forall w | Wins(freq, w) :: r == w
    ensures (forall w | 0 <= w < |freq| :: !Wins(freq, w)) ==> r == cur
  {
    if exists w | 0 <= w < |freq| :: Wins(freq, w) then
      var w :| 0 <= w < |freq| && Wins(freq, w); w
    else cur
  }

  /** Among neighbour counts a strict maximum is always positive, so the
      vote is the strict maximum whenever there is one. */
  lemma {:induction false} StrictMaxOfCountsWins(nb: seq<int>, w: int)
    requires 0 <= w < Slots
    requires forall l | 0 <= l < Slots && l != w :: Freq(nb)[l] < Freq(nb)[w]
    ensures Wins(Freq(nb), w)
    ensures forall cur :: Vote(Freq(nb), cur) == w
  {
    var l := if w == 0 then 1 else 0;
    assert Freq(nb)[l] >= 0;
    assert Wins(Freq(nb), w);
    forall cur ensures Vote(Freq(nb), cur) == w {
      var r := Vote(Freq(nb), cur);
    }
  }

  /** The vote is either a slot code or the current value. */
  lemma VoteRange(freq: seq<int>, cur: int)
    ensures Vote(freq, cur) == cur || 0 <= Vote(freq, cur) < |freq|
  {
  }

  // ---------------------------------------------------------------- one sweep

  /** The value a sweep leaves at `(i, j)`, read entirely from the snapshot
      `g` (lines 63-96). */
  function NewValue(g: Grid, i: int, j: int): (v: int)
    requires IsRect(g) && InGrid(g, i, j)
    ensures !Mutable(g[i][j]) ==> v == g[i][j]
    ensures Mutable(g[i][j]) ==> InSlots(v)
  {
    if Mutable(g[i][j]) then Vote(Freq(Neighbours(g, i, j)), g[i][j]) else g[i][j]
  }

  /** Every neighbour a sweep would count has a slot: exactly what line 72
      needs not to index `freq` out of bounds. */
  ghost predicate Safe(g: Grid)
    requires IsRect(g)
  {
    forall i, j | InGrid(g, i, j) && Mutable(g[i][j]) :: AllInSlots(Neighbours(g, i, j))
  }

  ghost predicate AllCodesInSlots(g: Grid)
    requires IsRect(g)
  {
    forall i, j | InGrid(g, i, j) :: InSlots(g[i][j])
  }

  /** A grid whose every cell has a slot is safe. */
  lemma AllCodesSafe(g: Grid)
    requires IsRect(g) && AllCodesInSlots(g)
    ensures Safe(g)
  {
    forall i, j | InGrid(g, i, j) && Mutable(g[i][j]) ensures AllInSlots(Neighbours(g, i, j)) {
      forall p | 0 <= p < 8 ensures InSlots(Neighbours(g, i, j)[p]) {
        var c := Neighbour(|g|, |g[0]|, i, j, p);
        assert InGrid(g, c.0, c.1);
      }
    }
  }

  /** One synchronous sweep: every cell recomputed from the same snapshot. */
  function Sweep(g: Grid): (h: Grid)
    requires IsRect(g)
    ensures IsRect(h) && |h| == |g| && |h[0]| == |g[0]|
    ensures forall i, j | InGrid(g, i, j) :: h[i][j] == NewValue(g, i, j)
  {
    seq(|g|, i requires 0 <= i < |g| =>
      seq(|g[0]|, j requires 0 <= j < |g[0]| => NewValue(g, i, j)))
  }

  /** Two grids of the same shape are equal when they agree on every cell. */
  lemma GridExt(g: Grid, h: Grid)
    requires IsRect(g) && IsRect(h) && |g| == |h| && |g[0]| == |h[0]|
    ensures g == h <==> forall i, j | InGrid(g, i, j) :: g[i][j] == h[i][j]
  {
    if forall i, j | InGrid(g, i, j) :: g[i][j] == h[i][j] {
      forall i | 0 <= i < |g| ensures g[i] == h[i] {
        assert forall j | 0 <= j < |g[0]| :: g[i][j] == h[i][j];
      }
    }
  }

  /** A sweep changes the grid exactly when it changes some cell, which is
      when the `updated` flag is raised (lines 93-96). */
  lemma SweepChangedIff(g: Grid)
    requires IsRect(g)
    ensures Sweep(g) != g <==> exists i, j | InGrid(g, i, j) :: NewValue(g, i, j) != g[i][j]
  {
    GridExt(Sweep(g), g);
  }

  /** Cell `(r, c)` comes before `(i, j)` in row-major order. */
  predicate Before(r: int, c: int, i: int, j: int) {
    r < i || (r == i && c < j)
  }

  /** Some cell before `(i, j)` in row-major order is changed by the sweep:
      what the `updated` flag records once the loops have reached `(i, j)`. */
  ghost predicate ChangedBefore(g: Grid, i: int, j: int)
    requires IsRect(g)
  {
    exists r, c | InGrid(g, r, c) && Before(r, c, i, j) :: NewValue(g, r, c) != g[r][c]
  }

  lemma ChangedBeforeNext(g: Grid, i: int, j: int)
    requires IsRect(g) && InGrid(g, i, j)
    ensures ChangedBefore(g, i, j + 1) <==> ChangedBefore(g, i, j) || NewValue(g, i, j) != g[i][j]
  {
    if ChangedBefore(g, i, j + 1) {
      var r, c :| InGrid(g, r, c) && Before(r, c, i, j + 1) && NewValue(g, r, c) != g[r][c];
      assert Before(r, c, i, j) || (r, c) == (i, j);
    }
  }

  lemma ChangedBeforeNextRow(g: Grid, i: int)
    requires IsRect(g) && 0 <= i < |g|
    ensures ChangedBefore(g, i, |g[0]|) <==> ChangedBefore(g, i + 1, 0)
  {
    if ChangedBefore(g, i + 1, 0) {
      var r, c :| InGrid(g, r, c) && Before(r, c, i + 1, 0) && NewValue(g, r, c) != g[r][c];
      assert Before(r, c, i, |g[0]|);
    }
  }

  /** Once every cell has been visited, the flag says whether the sweep
      changed the grid. */
  lemma ChangedBeforeAll(g: Grid)
    requires IsRect(g)
    ensures ChangedBefore(g, |g|, 0) <==> Sweep(g) != g
  {
    SweepChangedIff(g);
    if Sweep(g) != g {
      var r, c :| InGrid(g, r, c) && NewValue(g, r, c) != g[r][c];
      assert Before(r, c, |g|, 0);
    }
  }

  /** A sweep never touches a cell outside WHITE/ORANGE; a cell it does
      rewrite ends in a slot code, and only a cell that was WHITE/ORANGE can
      be WHITE/ORANGE afterwards. */
  lemma SweepFrame(g: Grid, i: int, j: int)
    requires IsRect(g) && InGrid(g, i, j)
    ensures !Mutable(g[i][j]) ==> Sweep(g)[i][j] == g[i][j]
    ensures Mutable(Sweep(g)[i][j]) ==> Mutable(g[i][j])
    ensures Sweep(g)[i][j] != g[i][j] ==> Mutable(g[i][j]) && InSlots(Sweep(g)[i][j])
  {
  }

  /** A sweep keeps every cell a slot code. */
  lemma SweepKeepsCodes(g: Grid)
    requires IsRect(g) && AllCodesInSlots(g)
    ensures AllCodesInSlots(Sweep(g))
  {
  }

  /** A sweep keeps a safe grid safe: WHITE/ORANGE cells afterwards were
      WHITE/ORANGE before, and their neighbours stay slot codes. */
  lemma SweepKeepsSafe(g: Grid)
    requires IsRect(g) && Safe(g)
    ensures Safe(Sweep(g))
  {
    var h := Sweep(g);
    forall i, j | InGrid(h, i, j) && Mutable(h[i][j]) ensures AllInSlots(Neighbours(h, i, j)) {
      assert Mutable(g[i][j]);
      forall p | 0 <= p < 8 ensures InSlots(Neighbours(h, i, j)[p]) {
        var c := Neighbour(|g|, |g[0]|, i, j, p);
        assert Neighbours(g, i, j)[p] == g[c.0][c.1];
        assert Neighbours(h, i, j)[p] == h[c.0][c.1] == NewValue(g, c.0, c.1);
      }
    }
  }

  /** A grid without WHITE/ORANGE cells is a fixed point of the sweep. */
  lemma NoMutableFixed(g: Grid)
    requires IsRect(g)
    requires forall i, j | InGrid(g, i, j) :: !Mutable(g[i][j])
    ensures Sweep(g) == g
  {
    GridExt(Sweep(g), g);
  }

  // ---------------------------------------------------------------- relaxation

  /** The do-while loop (lines 56-107) entered after `done` sweeps: the
      final grid and the sweep count. */
  function RelaxFrom(g: Grid, done: nat): (r: (Grid, nat))
    requires IsRect(g) && done < MaxSweeps
    ensures IsRect(r.0) && |r.0| == |g| && |r.0[0]| == |g[0]|
    ensures done < r.1 <= MaxSweeps
    ensures r.1 < MaxSweeps ==> Sweep(r.0) == r.0
    decreases MaxSweeps - done
  {
    var h := Sweep(g);
    if h != g && done + 1 < MaxSweeps then RelaxFrom(h, done + 1) else (h, done + 1)
  }

  /** One turn of the do-while loop: sweep, count it, and go on only if the
      sweep changed something and the cap is not reached. */
  lemma RelaxFromStep(g: Grid, done: nat)
    requires IsRect(g) && done < MaxSweeps
    ensures RelaxFrom(g, done) ==
              if Sweep(g) != g && done + 1 < MaxSweeps then RelaxFrom(Sweep(g), done + 1)
              else (Sweep(g), done + 1)
  {
  }

  /** `updateMatrix`: the final grid and the number of sweeps, between 1 and
      1000; below 1000 the final grid is a fixed point. */
  function Relax(g: Grid): (r: (Grid, nat))
    requires IsRect(g)
    ensures IsRect(r.0) && |r.0| == |g| && |r.0[0]| == |g[0]|
    ensures 1 <= r.1 <= MaxSweeps
    ensures r.1 < MaxSweeps ==> Sweep(r.0) == r.0
  {
    RelaxFrom(g, 0)
  }

  /** A fixed point takes exactly one sweep and is left as it is. */
  lemma FixedPointOneSweep(g: Grid)
    requires IsRect(g) && Sweep(g) == g
    ensures Relax(g) == (g, 1)
  {
  }

  /** Relaxing the result of a relaxation that stopped before the cap
      takes one sweep and changes nothing. */
  lemma RelaxIdempotent(g: Grid)
    requires IsRect(g) && Relax(g).1 < MaxSweeps
    ensures Relax(Relax(g).0) == (Relax(g).0, 1)
  {
    FixedPointOneSweep(Relax(g).0);
  }

  /** A grid with no WHITE/ORANGE cell converges in exactly one sweep. */
  lemma NoMutableOneSweep(g: Grid)
    requires IsRect(g)
    requires forall i, j | InGrid(g, i, j) :: !Mutable(g[i][j])
    ensures Relax(g) == (g, 1)
  {
    NoMutableFixed(g);
  }

  /** `k` sweeps in a row. */
  function Iterate(g: Grid, k: nat): (h: Grid)
    requires IsRect(g)
    ensures IsRect(h) && |h| == |g| && |h[0]| == |g[0]|
  {
    if k == 0 then g else Sweep(Iterate(g, k - 1))
  }

  lemma {:induction false} IterateAdd(g: Grid, k: nat, l: nat)
    requires IsRect(g)
    ensures Iterate(g, k + l) == Iterate(Iterate(g, k), l)
  {
    if l > 0 {
      IterateAdd(g, k, l - 1);
    }
  }

  /** The relaxation's grid is its sweep count's worth of sweeps. */
  lemma {:induction false} RelaxFromIsIterate(g0: Grid, done: nat)
    requires IsRect(g0) && done < MaxSweeps
    ensures RelaxFrom(Iterate(g0, done), done) == (Iterate(g0, RelaxFrom(Iterate(g0, done), done).1), RelaxFrom(Iterate(g0, done), done).1)
    decreases MaxSweeps - done
  {
    var g := Iterate(g0, done);
    var h := Sweep(g);
    assert h == Iterate(g0, done + 1);
    if h != g && done + 1 < MaxSweeps {
      RelaxFromIsIterate(g0, done + 1);
    }
  }

  lemma RelaxIsIterate(g: Grid)
    requires IsRect(g)
    ensures Relax(g).0 == Iterate(g, Relax(g).1)
  {
    RelaxFromIsIterate(g, 0);
  }

  /** A cell outside WHITE/ORANGE keeps its value through any number of
      sweeps. */
  lemma {:induction false} IterateKeepsFixedCell(g: Grid, k: nat, i: int, j: int)
    requires IsRect(g) && InGrid(g, i, j) && !Mutable(g[i][j])
    ensures Iterate(g, k)[i][j] == g[i][j]
  {
    if k > 0 {
      IterateKeepsFixedCell(g, k - 1, i, j);
      SweepFrame(Iterate(g, k - 1), i, j);
    }
  }

  /** Once a cell has left WHITE/ORANGE (for instance become GREEN or RED)
      it is never re-evaluated again. */
  lemma SettledCellStays(g: Grid, k: nat, l: nat, i: int, j: int)
    requires IsRect(g) && InGrid(g, i, j) && !Mutable(Iterate(g, k)[i][j])
    ensures Iterate(g, k + l)[i][j] == Iterate(g, k)[i][j]
  {
    IterateAdd(g, k, l);
    IterateKeepsFixedCell(Iterate(g, k), l, i, j);
  }

  /** `updateMatrix` leaves every cell outside WHITE/ORANGE as it found it. */
  lemma RelaxKeepsFixedCells(g: Grid, i: int, j: int)
    requires IsRect(g) && InGrid(g, i, j) && !Mutable(g[i][j])
    ensures Relax(g).0[i][j] == g[i][j]
  {
    RelaxIsIterate(g);
    IterateKeepsFixedCell(g, Relax(g).1, i, j);
  }

  lemma {:induction false} IterateKeepsCodes(g: Grid, k: nat)
    requires IsRect(g) && AllCodesInSlots(g)
    ensures AllCodesInSlots(Iterate(g, k))
  {
    if k > 0 {
      IterateKeepsCodes(g, k - 1);
      SweepKeepsCodes(Iterate(g, k - 1));
    }
  }

  /** `updateMatrix` keeps every cell a slot code and the grid's shape. */
  lemma RelaxKeepsCodes(g: Grid)
    requires IsRect(g) && AllCodesInSlots(g)
    ensures AllCodesInSlots(Relax(g).0)
    ensures |Relax(g).0| == |g| && |Relax(g).0[0]| == |g[0]|
  {
    RelaxIsIterate(g);
    IterateKeepsCodes(g, Relax(g).1);
  }
}
