/** Small grids worked through by hand, as fixed checks of the model. */
module Scenarios {
  import opened Colors
  import opened Majority

  /** A neighbourhood of one repeated code counts all of it in that slot. */
  lemma {:induction false} UniformCount(s: seq<int>, x: int, k: int)
    requires forall p | 0 <= p < |s| :: s[p] == x
    ensures Count(s, k) == if k == x then |s| else 0
  {
    if s != [] {
      UniformCount(s[..|s| - 1], x, k);
    }
  }

  lemma UniformFreq(nb: seq<int>, x: int)
    requires |nb| == 8 && InSlots(x)
    requires forall p | 0 <= p < |nb| :: nb[p] == x
    ensures Freq(nb)[x] == 8
    ensures forall k | 0 <= k < Slots && k != x :: Freq(nb)[k] == 0
  {
    forall k | 0 <= k < Slots ensures Freq(nb)[k] == if k == x then 8 else 0 {
      UniformCount(nb, x, k);
    }
  }

  /** Counting over a concatenation adds the counts of the parts. */
  lemma {:induction false} CountAppend(s: seq<int>, t: seq<int>, k: int)
    ensures Count(s + t, k) == Count(s, k) + Count(t, k)
  {
    if t == [] {
      assert s + t == s;
    } else {
      CountAppend(s, t[..|t| - 1], k);
      assert (s + t)[..|s + t| - 1] == s + t[..|t| - 1];
      assert (s + t)[|s + t| - 1] == t[|t| - 1];
    }
  }

  /** Four GREEN followed by four RED: a tie. */
  lemma TieFreq(nb: seq<int>)
    requires nb == [GREEN, GREEN, GREEN, GREEN, RED, RED, RED, RED]
    ensures Freq(nb) == [4, 4, 0, 0]
  {
    var a, b := nb[..4], nb[4..];
    assert nb == a + b;
    forall k | 0 <= k < Slots ensures Freq(nb)[k] == (if k == GREEN then 4 else 0) + (if k == RED then 4 else 0) {
      CountAppend(a, b, k);
      UniformCount(a, GREEN, k);
      UniformCount(b, RED, k);
    }
  }

  /** Counts tied at the top leave the current value. */
  lemma TieKeepsCurrent(f: seq<int>, cur: int)
    requires f == [4, 4, 0, 0]
    ensures Vote(f, cur) == cur
  {
    forall w | 0 <= w < Slots ensures !Wins(f, w) {
      if w == 0 {
        assert f[1] >= f[0];
      } else {
        assert f[0] >= f[w];
      }
    }
  }

  /** Away from the border no index wraps. */
  lemma InteriorNeighbour(m: int, n: int, i: int, j: int, p: int)
    requires 1 <= i < m - 1 && 1 <= j < n - 1 && 0 <= p < |Offsets|
    ensures Neighbour(m, n, i, j, p) == (i + Offsets[p].0, j + Offsets[p].1)
  {
    var d := Offsets[p];
    assert -1 <= d.0 <= 1 && -1 <= d.1 <= 1;
  }

  /** A lone WHITE cell is its own eight neighbours: it stays WHITE and
      the relaxation stops after one sweep. */
  lemma SingleWhiteCell()
    ensures Relax([[WHITE]]) == ([[WHITE]], 1)
  {
    var g := [[WHITE]];
    var nb := Neighbours(g, 0, 0);
    UniformFreq(nb, WHITE);
    StrictMaxOfCountsWins(nb, WHITE);
    GridExt(Sweep(g), g);
    FixedPointOneSweep(g);
  }

  /** An ORANGE cell surrounded by GREEN turns GREEN in the first sweep;
      the second sweep changes nothing, so two sweeps are counted. */
  lemma OrangeAmongGreen()
    ensures Relax([[GREEN, GREEN, GREEN], [GREEN, ORANGE, GREEN], [GREEN, GREEN, GREEN]])
         == ([[GREEN, GREEN, GREEN], [GREEN, GREEN, GREEN], [GREEN, GREEN, GREEN]], 2)
  {
    var g := [[GREEN, GREEN, GREEN], [GREEN, ORANGE, GREEN], [GREEN, GREEN, GREEN]];
    var h := [[GREEN, GREEN, GREEN], [GREEN, GREEN, GREEN], [GREEN, GREEN, GREEN]];
    var nb := Neighbours(g, 1, 1);
    forall p | 0 <= p < 8 ensures nb[p] == GREEN {
      InteriorNeighbour(3, 3, 1, 1, p);
    }
    UniformFreq(nb, GREEN);
    StrictMaxOfCountsWins(nb, GREEN);
    assert Sweep(g)[1][1] == GREEN;
    GridExt(Sweep(g), h);
    NoMutableFixed(h);
    RelaxFromStep(g, 0);
    RelaxFromStep(h, 1);
  }

  const TieGrid: Grid := [[GREEN, GREEN, GREEN], [GREEN, ORANGE, RED], [RED, RED, RED]]

  lemma TieNeighbours()
    ensures IsRect(TieGrid) && Neighbours(TieGrid, 1, 1) == [GREEN, GREEN, GREEN, GREEN, RED, RED, RED, RED]
  {
    var expected := [GREEN, GREEN, GREEN, GREEN, RED, RED, RED, RED];
    forall p | 0 <= p < 8 ensures Neighbours(TieGrid, 1, 1)[p] == expected[p] {
      InteriorNeighbour(3, 3, 1, 1, p);
    }
  }

  /** An ORANGE cell with four GREEN and four RED neighbours keeps its
      value, so the grid is a fixed point. */
  lemma OrangeTieKeeps()
    ensures IsRect(TieGrid) && Sweep(TieGrid) == TieGrid && Relax(TieGrid) == (TieGrid, 1)
  {
    var g := TieGrid;
    TieNeighbours();
    TieFreq(Neighbours(g, 1, 1));
    TieKeepsCurrent(Freq(Neighbours(g, 1, 1)), ORANGE);
    assert Sweep(g)[1][1] == ORANGE;
    GridExt(Sweep(g), g);
    FixedPointOneSweep(g);
  }

  /** The counts of a neighbourhood `[a, b, a, b, b, a, b, a]`. */
  lemma AlternatingFreq(nb: seq<int>, a: int, b: int)
    requires a != b && InSlots(a) && InSlots(b)
    requires nb == [a, b, a, b, b, a, b, a]
    ensures Freq(nb)[a] == 4 && Freq(nb)[b] == 4
    ensures forall k | 0 <= k < Slots && k != a && k != b :: Freq(nb)[k] == 0
  {
    var ab, ba := [a, b], [b, a];
    var x, y := ab + ab, ba + ba;
    assert nb == x + y;
    forall k | 0 <= k < Slots
      ensures Count(nb, k) == (if k == a then 4 else 0) + (if k == b then 4 else 0)
    {
      assert ab[..1] == [a] && ba[..1] == [b];
      assert Count(ab, k) == (if a == k then 1 else 0) + (if b == k then 1 else 0);
      assert Count(ba, k) == (if b == k then 1 else 0) + (if a == k then 1 else 0);
      CountAppend(ab, ab, k);
      CountAppend(ba, ba, k);
      CountAppend(x, y, k);
    }
  }

  /** Two codes tied at four counts each leave the current value. */
  lemma TieOfTwo(f: seq<int>, a: int, b: int, cur: int)
    requires |f| == Slots && a != b && InSlots(a) && InSlots(b)
    requires f[a] == 4 && f[b] == 4
    requires forall k | 0 <= k < Slots && k != a && k != b :: f[k] == 0
    ensures Vote(f, cur) == cur
  {
    forall w | 0 <= w < Slots ensures !Wins(f, w) {
      if w == a {
        assert f[b] >= f[w];
      } else {
        assert f[a] >= f[w];
      }
    }
  }

  const Checkerboard: Grid := [[WHITE, ORANGE], [ORANGE, WHITE]]

  /** On a torus of size 2 any non-zero step lands on the other index. */
  lemma WrapTwo(x: int, d: int)
    requires 0 <= x < 2 && -1 <= d <= 1
    ensures Wrap(x, d, 2) == if d == 0 then x else 1 - x
  {
  }

  /** Each cell of the checkerboard shares its colour with the diagonal
      cell and differs from both edge-adjacent cells. */
  lemma CheckerboardColours(i: int, j: int)
    requires 0 <= i < 2 && 0 <= j < 2
    ensures Checkerboard[1 - i][1 - j] == Checkerboard[i][j]
    ensures Checkerboard[i][1 - j] == Checkerboard[1 - i][j] != Checkerboard[i][j]
  {
  }

  /** The neighbour of a checkerboard cell at offset `(di, dj)`: its own
      colour on a diagonal, the other colour along an edge. */
  lemma CheckerboardAt(i: int, j: int, di: int, dj: int)
    requires 0 <= i < 2 && 0 <= j < 2
    requires -1 <= di <= 1 && -1 <= dj <= 1 && (di, dj) != (0, 0)
    ensures IsRect(Checkerboard)
    ensures Neighbours(Checkerboard, i, j)[OffsetIndex(di, dj)] ==
              if di != 0 && dj != 0 then Checkerboard[i][j] else Checkerboard[1 - i][j]
  {
    var g := Checkerboard;
    assert IsRect(g) && |g| == 2 && |g[0]| == 2;
    NeighbourAtOffset(g, i, j, di, dj);
    WrapTwo(i, di);
    WrapTwo(j, dj);
    CheckerboardColours(i, j);
  }

  lemma EightEqual(s: seq<int>, t: seq<int>)
    requires |s| == 8 && |t| == 8
    requires s[0] == t[0] && s[1] == t[1] && s[2] == t[2] && s[3] == t[3]
    requires s[4] == t[4] && s[5] == t[5] && s[6] == t[6] && s[7] == t[7]
    ensures s == t
  {
    assert forall p | 0 <= p < 8 :: s[p] == t[p];
  }

  /** On the 2 x 2 torus each cell sees its own colour on the diagonals and
      the other colour on the edges, four of each. */
  lemma CheckerboardNeighbours(i: int, j: int)
    requires 0 <= i < 2 && 0 <= j < 2
    ensures IsRect(Checkerboard)
    ensures var a := Checkerboard[i][j];
            var b := Checkerboard[1 - i][j];
            Neighbours(Checkerboard, i, j) == [a, b, a, b, b, a, b, a]
  {
    var a := Checkerboard[i][j];
    var b := Checkerboard[1 - i][j];
    var nb := Neighbours(Checkerboard, i, j);
    CheckerboardAt(i, j, -1, -1);
    assert OffsetIndex(-1, -1) == 0 && nb[0] == a;
    CheckerboardAt(i, j, -1, 0);
    assert OffsetIndex(-1, 0) == 1 && nb[1] == b;
    CheckerboardAt(i, j, -1, 1);
    assert OffsetIndex(-1, 1) == 2 && nb[2] == a;
    CheckerboardAt(i, j, 0, -1);
    assert OffsetIndex(0, -1) == 3 && nb[3] == b;
    CheckerboardAt(i, j, 0, 1);
    assert OffsetIndex(0, 1) == 4 && nb[4] == b;
    CheckerboardAt(i, j, 1, -1);
    assert OffsetIndex(1, -1) == 5 && nb[5] == a;
    CheckerboardAt(i, j, 1, 0);
    assert OffsetIndex(1, 0) == 6 && nb[6] == b;
    CheckerboardAt(i, j, 1, 1);
    assert OffsetIndex(1, 1) == 7 && nb[7] == a;
    EightEqual(nb, [a, b, a, b, b, a, b, a]);
  }

  /** A WHITE/ORANGE checkerboard ties 4/4 at every cell, so it is a fixed
      point and the relaxation stops after one sweep. */
  lemma CheckerboardFixed()
    ensures IsRect(Checkerboard) && Sweep(Checkerboard) == Checkerboard
    ensures Relax(Checkerboard) == (Checkerboard, 1)
  {
    var g := Checkerboard;
    forall i, j | InGrid(g, i, j) ensures Sweep(g)[i][j] == g[i][j] {
      CheckerboardNeighbours(i, j);
      var nb := Neighbours(g, i, j);
      AlternatingFreq(nb, g[i][j], g[1 - i][j]);
      TieOfTwo(Freq(nb), g[i][j], g[1 - i][j], g[i][j]);
    }
    GridExt(Sweep(g), g);
    FixedPointOneSweep(g);
  }
}
