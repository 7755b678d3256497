/** `updateMatrix` as it runs: an m x n `array2` updated in place, a snapshot
    array refreshed at the start of every sweep, a 4-slot `freq` array per
    evaluated cell, and the do-while loop capped at 1000 sweeps
    (matrix_update.cpp:44-110). Each method is proved against the pure
    functions of module Majority. */
module Engine {
  import opened Colors
  import opened Majority

  /** The grid an array holds, row by row. */
  ghost function ToGrid(a: array2<int>): (g: Grid)
    reads a
    ensures |g| == a.Length0
    ensures forall i | 0 <= i < a.Length0 :: |g[i]| == a.Length1
    ensures forall i, j | 0 <= i < a.Length0 && 0 <= j < a.Length1 :: g[i][j] == a[i, j]
  {
    seq(a.Length0, i requires 0 <= i < a.Length0 reads a =>
      seq(a.Length1, j requires 0 <= j < a.Length1 reads a => a[i, j]))
  }

  // ---------------------------------------------------------------- counting

  /** Counts the codes of the eight periodic neighbours of `(i, j)` in the
      snapshot (lines 64-74). Each neighbour must be a code with a slot. */
  method CountNeighbours(snap: array2<int>, i: int, j: int) returns (freq: array<int>)
    requires 0 <= i < snap.Length0 && 0 <= j < snap.Length1
    requires AllInSlots(Neighbours(ToGrid(snap), i, j))
    ensures fresh(freq)
    ensures freq[..] == Freq(Neighbours(ToGrid(snap), i, j))
  {
    var m, n := snap.Length0, snap.Length1;
    ghost var g := ToGrid(snap);
    ghost var nb := Neighbours(g, i, j);
    freq := new int[Slots](_ => 0);
    ghost var seen: seq<int> := [];
    for di := -1 to 2
      invariant |seen| == 3 * (di + 1) - (if di > 0 then 1 else 0)
      invariant seen == nb[..|seen|]
      invariant forall k | 0 <= k < Slots :: freq[k] == Count(seen, k)
    {
      for dj := -1 to 2
        invariant |seen| == 3 * (di + 1) + (dj + 1) - (if di > 0 || (di == 0 && dj > 0) then 1 else 0)
        invariant seen == nb[..|seen|]
        invariant forall k | 0 <= k < Slots :: freq[k] == Count(seen, k)
      {
        if di == 0 && dj == 0 {
          continue;
        }
        var ni := (i + di + m) % m;
        var nj := (j + dj + n) % n;
        assert |seen| == OffsetIndex(di, dj);
        var v := snap[ni, nj];
        CountStep(g, i, j, di, dj, seen, v);
        freq[v] := freq[v] + 1;
        seen := seen + [v];
      }
    }
    assert seen == nb;
  }

  /** One turn of the counting loops: the value read at `(di, dj)` extends
      the neighbours read so far and raises its own count by one. */
  lemma CountStep(g: Grid, i: int, j: int, di: int, dj: int, seen: seq<int>, v: int)
    requires IsRect(g) && InGrid(g, i, j) && AllInSlots(Neighbours(g, i, j))
    requires -1 <= di <= 1 && -1 <= dj <= 1 && (di, dj) != (0, 0)
    requires |seen| == OffsetIndex(di, dj) && seen == Neighbours(g, i, j)[..|seen|]
    requires v == g[(i + di + |g|) % |g|][(j + dj + |g[0]|) % |g[0]|]
    ensures InSlots(v)
    ensures Neighbours(g, i, j)[..|seen| + 1] == seen + [v]
    ensures forall k :: Count(seen + [v], k) == Count(seen, k) + (if v == k then 1 else 0)
  {
    NextNeighbour(g, i, j, di, dj, seen);
    CountSnoc(seen, v);
  }

  // ---------------------------------------------------------------- the vote

  /** What the tie-break scan knows after the first `k` slots: `maxFreq` is
      the largest count so far (0 if none is positive), and `newValue` is
      the unique positive maximum so far, or `cur` when there is none. */
  ghost predicate ScanState(s: seq<int>, k: int, maxFreq: int, newValue: int, cur: int)
    requires 0 <= k <= |s|
  {
    && 0 <= maxFreq
    && (forall l | 0 <= l < k :: s[l] <= maxFreq)
    && (maxFreq == 0 || exists l | 0 <= l < k :: s[l] == maxFreq)
    && (forall w | 0 <= w < k && WinsAmong(s, k, w) :: newValue == w && s[w] == maxFreq)
    && ((forall w | 0 <= w < k :: !WinsAmong(s, k, w)) ==> newValue == cur)
  }

  /** The running maximum and result after the scan has seen the first `k`
      slots, one slot at a time as the loop of lines 79-90 does. */
  ghost function ScanPrefix(s: seq<int>, k: int, cur: int): (int, int)
    requires 0 <= k <= |s|
  {
    if k == 0 then (0, cur)
    else
      var prev := ScanPrefix(s, k - 1, cur);
      if s[k - 1] == prev.0 then (prev.0, cur)
      else if s[k - 1] > prev.0 then (s[k - 1], k - 1)
      else prev
  }

  /** The three branches of the scan's loop body, each taking the scan from
      the first `k - 1` slots to the first `k` (the state of the shorter
      prefix comes from `ScanPrefixState`).

      A count equal to the running maximum: nobody among the first `k`
      slots is a unique winner any more, so the cell keeps `cur`
      (lines 81-83). */
  lemma ScanTie(s: seq<int>, k: int, cur: int)
    requires 0 < k <= |s| && s[k - 1] == ScanPrefix(s, k - 1, cur).0
    ensures ScanState(s, k, ScanPrefix(s, k, cur).0, ScanPrefix(s, k, cur).1, cur)
    decreases k, 0
  {
    ScanPrefixState(s, k - 1, cur);
    var j, maxFreq := k - 1, ScanPrefix(s, k - 1, cur).0;
    forall w | 0 <= w < k ensures !WinsAmong(s, k, w) {
      if w == j && maxFreq > 0 {
        var l :| 0 <= l < j && s[l] == maxFreq;
        assert l != w && s[l] >= s[w];
      } else if w < j {
        assert s[j] >= s[w];
      }
    }
    assert ScanState(s, k, maxFreq, cur, cur);
    assert ScanPrefix(s, k, cur).0 == maxFreq && ScanPrefix(s, k, cur).1 == cur;
  }

  /** A count above the running maximum: slot `k - 1` is the unique winner
      so far (lines 86-88). */
  lemma ScanRise(s: seq<int>, k: int, cur: int)
    requires 0 < k <= |s| && s[k - 1] > ScanPrefix(s, k - 1, cur).0
    ensures ScanState(s, k, ScanPrefix(s, k, cur).0, ScanPrefix(s, k, cur).1, cur)
    decreases k, 0
  {
    ScanPrefixState(s, k - 1, cur);
    var j := k - 1;
    assert forall l | 0 <= l < k :: s[l] <= s[j];
    assert WinsAmong(s, k, j);
    forall w | 0 <= w < j ensures !WinsAmong(s, k, w) {
      assert s[j] > s[w];
    }
    assert ScanState(s, k, s[j], j, cur);
    assert ScanPrefix(s, k, cur).0 == s[j] && ScanPrefix(s, k, cur).1 == j;
  }

  /** A winner among the first `k + 1` slots is a winner among the first `k`. */
  lemma WinnerAmongFewer(s: seq<int>, k: int, w: int)
    requires 0 <= w < k < |s| && WinsAmong(s, k + 1, w)
    ensures WinsAmong(s, k, w)
  {
  }

  /** A winner among the first `k` slots stays one when slot `k` counts less. */
  lemma WinnerAmongMore(s: seq<int>, k: int, w: int)
    requires 0 <= w < k < |s| && WinsAmong(s, k, w) && s[k] < s[w]
    ensures WinsAmong(s, k + 1, w)
  {
  }

  /** The running maximum is still the maximum, and still attained, after a
      lower count. */
  lemma BelowKeepsMax(s: seq<int>, k: int, maxFreq: int)
    requires 0 <= k < |s| && s[k] < maxFreq
    requires forall l | 0 <= l < k :: s[l] <= maxFreq
    requires maxFreq == 0 || exists l | 0 <= l < k :: s[l] == maxFreq
    ensures forall l | 0 <= l < k + 1 :: s[l] <= maxFreq
    ensures maxFreq == 0 || exists l | 0 <= l < k + 1 :: s[l] == maxFreq
  {
    if maxFreq > 0 {
      var l :| 0 <= l < k && s[l] == maxFreq;
      assert 0 <= l < k + 1 && s[l] == maxFreq;
    }
  }

  /** A count below the running maximum changes nothing. */
  lemma ScanBelow(s: seq<int>, k: int, cur: int)
    requires 0 < k <= |s| && s[k - 1] < ScanPrefix(s, k - 1, cur).0
    ensures ScanState(s, k, ScanPrefix(s, k, cur).0, ScanPrefix(s, k, cur).1, cur)
    decreases k, 0
  {
    ScanPrefixState(s, k - 1, cur);
    var j, maxFreq, newValue := k - 1, ScanPrefix(s, k - 1, cur).0, ScanPrefix(s, k - 1, cur).1;
    assert ScanPrefix(s, k, cur) == (maxFreq, newValue);
    BelowKeepsMax(s, j, maxFreq);
    assert !WinsAmong(s, k, j) by {
      if maxFreq > 0 {
        var l :| 0 <= l < j && s[l] == maxFreq;
        assert l != j && s[l] > s[j];
      }
    }
    forall w | 0 <= w < k && WinsAmong(s, k, w) ensures newValue == w && s[w] == maxFreq {
      WinnerAmongFewer(s, j, w);
    }
    if exists w | 0 <= w < j :: WinsAmong(s, j, w) {
      var w :| 0 <= w < j && WinsAmong(s, j, w);
      WinnerAmongMore(s, j, w);
    }
  }

  /** After any prefix, the scan's maximum and result mean what `ScanState`
      says: by induction on the prefix, through the three branch lemmas. */
  lemma {:induction false} ScanPrefixState(s: seq<int>, k: int, cur: int)
    requires 0 <= k <= |s|
    ensures ScanState(s, k, ScanPrefix(s, k, cur).0, ScanPrefix(s, k, cur).1, cur)
    decreases k, 1
  {
    if k > 0 {
      var maxFreq := ScanPrefix(s, k - 1, cur).0;
      if s[k - 1] == maxFreq {
        ScanTie(s, k, cur);
      } else if s[k - 1] > maxFreq {
        ScanRise(s, k, cur);
      } else {
        ScanBelow(s, k, cur);
      }
    }
  }

  /** At the end of the scan its meaning is the vote. */
  lemma ScanDone(s: seq<int>, maxFreq: int, newValue: int, cur: int)
    requires ScanState(s, |s|, maxFreq, newValue, cur)
    ensures forall w | Wins(s, w) :: newValue == w
    ensures (forall w | 0 <= w < |s| :: !Wins(s, w)) ==> newValue == cur
    ensures newValue == Vote(s, cur)
  {
    if exists w | 0 <= w < |s| :: Wins(s, w) {
      var w :| 0 <= w < |s| && Wins(s, w);
      assert WinsAmong(s, |s|, w);
    } else {
      forall w | 0 <= w < |s| ensures !WinsAmong(s, |s|, w) {
        assert !Wins(s, w);
      }
    }
  }

  /** The tie-break scan (lines 77-90): the unique strict maximum of `freq`
      wins, and on any tie for the maximum the cell keeps `cur`. */
  method PickWinner(freq: array<int>, cur: int) returns (newValue: int)
    ensures forall w | Wins(freq[..], w) :: newValue == w
    ensures (forall w | 0 <= w < freq.Length :: !Wins(freq[..], w)) ==> newValue == cur
    ensures newValue == Vote(freq[..], cur)
  {
    ghost var s := freq[..];
    var maxFreq := 0;
    newValue := cur;
    for k := 0 to freq.Length
      invariant (maxFreq, newValue) == ScanPrefix(s, k, cur)
    {
      if freq[k] == maxFreq {
        newValue := cur;
        continue;
      }
      if freq[k] > maxFreq {
        maxFreq := freq[k];
        newValue := k;
      }
    }
    ScanPrefixState(s, |s|, cur);
    ScanDone(s, maxFreq, newValue, cur);
  }

  // ---------------------------------------------------------------- one sweep

  /** `temp_matrix = matrix` (line 58). */
  method CopyGrid(src: array2<int>, dst: array2<int>)
    requires src != dst
    requires dst.Length0 == src.Length0 && dst.Length1 == src.Length1
    modifies dst
    ensures ToGrid(dst) == ToGrid(src)
  {
    for i := 0 to src.Length0
      invariant forall r, c | 0 <= r < i && 0 <= c < src.Length1 :: dst[r, c] == src[r, c]
    {
      for j := 0 to src.Length1
        invariant forall r, c | 0 <= r < i && 0 <= c < src.Length1 :: dst[r, c] == src[r, c]
        invariant forall c | 0 <= c < j :: dst[i, c] == src[i, c]
      {
        dst[i, j] := src[i, j];
      }
    }
    forall i | 0 <= i < src.Length0 ensures ToGrid(dst)[i] == ToGrid(src)[i] {
    }
  }

  /** The work on one cell (lines 63-97): a WHITE/ORANGE cell, whose live
      value still equals the snapshot's, is given the vote of its snapshot
      neighbourhood; `changed` says whether it was rewritten. */
  method UpdateCell(matrix: array2<int>, snap: array2<int>, ghost s: Grid, i: int, j: int)
    returns (changed: bool)
    requires matrix != snap && IsRect(s) && s == ToGrid(snap) && Safe(s)
    requires snap.Length0 == matrix.Length0 && snap.Length1 == matrix.Length1
    requires 0 <= i < matrix.Length0 && 0 <= j < matrix.Length1
    requires matrix[i, j] == snap[i, j]
    modifies matrix
    ensures matrix[i, j] == NewValue(s, i, j)
    ensures forall r, c | 0 <= r < matrix.Length0 && 0 <= c < matrix.Length1 && (r, c) != (i, j) ::
              matrix[r, c] == old(matrix[r, c])
    ensures changed <==> NewValue(s, i, j) != s[i][j]
  {
    changed := false;
    if matrix[i, j] == WHITE || matrix[i, j] == ORANGE {
      var freq := CountNeighbours(snap, i, j);
      var newValue := PickWinner(freq, matrix[i, j]);
      if newValue != matrix[i, j] {
        matrix[i, j] := newValue;
        changed := true;
      }
    }
  }

  /** The grid mid-sweep: the cells before `(i, j)` in row-major order hold
      their sweep value, the rest their snapshot value. */
  ghost predicate DoneUpTo(matrix: array2<int>, snap: array2<int>, s: Grid, i: int, j: int)
    requires IsRect(s) && matrix.Length0 == |s| && matrix.Length1 == |s[0]|
    requires snap.Length0 == |s| && snap.Length1 == |s[0]|
    reads matrix, snap
  {
    forall r, c | 0 <= r < matrix.Length0 && 0 <= c < matrix.Length1 ::
      matrix[r, c] == if Before(r, c, i, j) then NewValue(s, r, c) else snap[r, c]
  }

  /** One pass of the inner loop (lines 62-98) over row `i`. */
  method SweepRow(matrix: array2<int>, snap: array2<int>, ghost s: Grid, i: int, updated0: bool)
    returns (updated: bool)
    requires matrix != snap && IsRect(s) && s == ToGrid(snap) && Safe(s)
    requires snap.Length0 == matrix.Length0 && snap.Length1 == matrix.Length1
    requires 0 <= i < matrix.Length0
    requires DoneUpTo(matrix, snap, s, i, 0) && (updated0 <==> ChangedBefore(s, i, 0))
    modifies matrix
    ensures DoneUpTo(matrix, snap, s, i + 1, 0) && (updated <==> ChangedBefore(s, i + 1, 0))
  {
    updated := updated0;
    for j := 0 to matrix.Length1
      invariant DoneUpTo(matrix, snap, s, i, j)
      invariant updated <==> ChangedBefore(s, i, j)
    {
      label Visit:
      var changed := UpdateCell(matrix, snap, s, i, j);
      forall r, c | 0 <= r < matrix.Length0 && 0 <= c < matrix.Length1
        ensures matrix[r, c] == if Before(r, c, i, j + 1) then NewValue(s, r, c) else snap[r, c]
      {
        if (r, c) != (i, j) {
          assert matrix[r, c] == old@Visit(matrix[r, c]);
          assert Before(r, c, i, j + 1) == Before(r, c, i, j);
        }
      }
      ChangedBeforeNext(s, i, j);
      updated := updated || changed;
    }
    ChangedBeforeNextRow(s, i);
  }

  lemma ArrayIsSweep(a: array2<int>, s: Grid)
    requires IsRect(s) && a.Length0 == |s| && a.Length1 == |s[0]|
    requires forall r, c | 0 <= r < a.Length0 && 0 <= c < a.Length1 :: a[r, c] == NewValue(s, r, c)
    ensures ToGrid(a) == Sweep(s)
  {
    var t := ToGrid(a);
    assert IsRect(t);
    GridExt(t, Sweep(s));
  }

  /** The body of one sweep after the snapshot is taken (lines 57-99): every
      WHITE/ORANGE cell gets its vote, and `updated` says if any cell
      changed. */
  method SweepOnce(matrix: array2<int>, snap: array2<int>) returns (updated: bool)
    requires matrix != snap
    requires matrix.Length0 >= 1 && matrix.Length1 >= 1
    requires snap.Length0 == matrix.Length0 && snap.Length1 == matrix.Length1
    requires ToGrid(snap) == ToGrid(matrix)
    requires Safe(ToGrid(snap))
    modifies matrix
    ensures ToGrid(matrix) == Sweep(old(ToGrid(matrix)))
    ensures updated <==> ToGrid(matrix) != old(ToGrid(matrix))
  {
    ghost var s := ToGrid(snap);
    assert IsRect(s);
    updated := false;
    for i := 0 to matrix.Length0
      invariant DoneUpTo(matrix, snap, s, i, 0)
      invariant updated <==> ChangedBefore(s, i, 0)
    {
      updated := SweepRow(matrix, snap, s, i, updated);
    }
    ArrayIsSweep(matrix, s);
    ChangedBeforeAll(s);
  }

  // ---------------------------------------------------------------- relaxation

  /** One turn of the do-while loop (lines 57-99): take the snapshot, then
      sweep. */
  method SweepStep(matrix: array2<int>, tempMatrix: array2<int>) returns (updated: bool)
    requires matrix != tempMatrix
    requires matrix.Length0 >= 1 && matrix.Length1 >= 1
    requires tempMatrix.Length0 == matrix.Length0 && tempMatrix.Length1 == matrix.Length1
    requires Safe(ToGrid(matrix))
    modifies matrix, tempMatrix
    ensures ToGrid(matrix) == Sweep(old(ToGrid(matrix)))
    ensures updated <==> ToGrid(matrix) != old(ToGrid(matrix))
  {
    CopyGrid(matrix, tempMatrix);
    updated := SweepOnce(matrix, tempMatrix);
  }

  /** `updateMatrix`: sweeps until one changes nothing or 1000 have run,
      and returns how many ran. The grid must be non-empty and every
      neighbour of a WHITE/ORANGE cell a code with a slot in `freq`. */
  method UpdateMatrix(matrix: array2<int>) returns (iterations: int)
    requires matrix.Length0 >= 1 && matrix.Length1 >= 1
    requires Safe(ToGrid(matrix))
    modifies matrix
    ensures (ToGrid(matrix), iterations) == Relax(old(ToGrid(matrix)))
    ensures 1 <= iterations <= MaxSweeps
    ensures iterations < MaxSweeps ==> Sweep(ToGrid(matrix)) == ToGrid(matrix)
  {
    var m, n := matrix.Length0, matrix.Length1;
    iterations := 0;
    var updated: bool;
    var tempMatrix := new int[m, n];
    ghost var g0 := ToGrid(matrix);
    ghost var g := g0;
    assert IsRect(g);
    while true
      invariant 0 <= iterations < MaxSweeps
      invariant g == ToGrid(matrix) && IsRect(g) && Safe(g)
      invariant RelaxFrom(g, iterations) == Relax(g0)
      decreases MaxSweeps - iterations
    {
      ghost var h := Sweep(g);
      updated := SweepStep(matrix, tempMatrix);
      assert ToGrid(matrix) == h && (updated <==> h != g);
      SweepKeepsSafe(g);
      RelaxFromStep(g, iterations);
      ghost var prev, done := g, iterations;
      g := h;
      iterations := iterations + 1;
      if !(updated && iterations < MaxSweeps) {
        break;
      }
      assert RelaxFrom(prev, done) == RelaxFrom(g, iterations);
    }
  }
}
