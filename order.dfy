/** A sweep visits every cell once, reading neighbours from the snapshot and
    the cell's own value from the live grid (matrix_update.cpp:58-99). The
    source runs these visits in parallel, in no fixed order; this module
    shows the order cannot be observed. */
module SweepOrder {
  import opened Majority

  predicate SameShape(g: Grid, h: Grid) {
    IsRect(g) && IsRect(h) && |g| == |h| && |g[0]| == |h[0]|
  }

  /** One visit of cell `c`: the test at line 63 and the current value at
      lines 78-93 are read from the live grid `cur`, the counts from `snap`. */
  function Visit(snap: Grid, cur: Grid, c: (int, int)): (h: Grid)
    requires SameShape(snap, cur) && InGrid(snap, c.0, c.1)
    ensures SameShape(snap, h)
    ensures forall r, s | InGrid(h, r, s) && (r, s) != c :: h[r][s] == cur[r][s]
  {
    var v := cur[c.0][c.1];
    var nv := if Mutable(v) then Vote(Freq(Neighbours(snap, c.0, c.1)), v) else v;
    cur[c.0 := cur[c.0][c.1 := nv]]
  }

  predicate InRange(snap: Grid, order: seq<(int, int)>) {
    forall p | 0 <= p < |order| :: InGrid(snap, order[p].0, order[p].1)
  }

  predicate Distinct(order: seq<(int, int)>) {
    forall p, q | 0 <= p < q < |order| :: order[p] != order[q]
  }

  /** The visits of `order`, one after another, starting from the snapshot. */
  function VisitAll(snap: Grid, order: seq<(int, int)>): (h: Grid)
    requires IsRect(snap) && InRange(snap, order)
    ensures SameShape(snap, h)
  {
    if order == [] then snap
    else Visit(snap, VisitAll(snap, order[..|order| - 1]), order[|order| - 1])
  }

  /** After visiting distinct cells, each visited cell holds its sweep value
      and every other cell its snapshot value. */
  lemma {:induction false} VisitAllCells(snap: Grid, order: seq<(int, int)>)
    requires IsRect(snap) && InRange(snap, order) && Distinct(order)
    ensures forall r, s | InGrid(snap, r, s) ::
              VisitAll(snap, order)[r][s] == if (r, s) in order then NewValue(snap, r, s) else snap[r][s]
  {
    if order != [] {
      var front := order[..|order| - 1];
      var c := order[|order| - 1];
      VisitAllCells(snap, front);
      assert c !in front;
      assert order == front + [c];
      var prev := VisitAll(snap, front);
      assert prev[c.0][c.1] == snap[c.0][c.1];
    }
  }

  /** Any order that visits every cell exactly once yields the sweep. */
  lemma OrderIndependent(snap: Grid, order: seq<(int, int)>)
    requires IsRect(snap) && InRange(snap, order) && Distinct(order)
    requires forall r, s | InGrid(snap, r, s) :: (r, s) in order
    ensures VisitAll(snap, order) == Sweep(snap)
  {
    VisitAllCells(snap, order);
    GridExt(VisitAll(snap, order), Sweep(snap));
  }
}
