/** The glider scenario of the engine's tick test, on a 6 x 6 torus. */
module Scenarios {
  import opened Cells
  import opened Grid
  import opened Seeding
  import opened Conway

  /** The pairs the test seeds before the tick. */
  function GliderPairs(): seq<(nat, nat)>
  {
    [(1, 2), (2, 3), (3, 1), (3, 2), (3, 3)]
  }

  /** The pairs the test seeds as the expected grid after the tick. */
  function GliderNextPairs(): seq<(nat, nat)>
  {
    [(2, 1), (2, 3), (3, 2), (3, 3), (4, 2)]
  }

  /** The live positions (row, column) of the glider before the tick. */
  predicate GliderAt(r: nat, c: nat)
  {
    (r == 1 && c == 3) || (r == 2 && c == 1) || (r == 2 && c == 3) || (r == 3 && c == 2) || (r == 3 && c == 3)
  }

  /** The live positions of the glider after the tick: the same shape, one phase on. */
  predicate GliderNextAt(r: nat, c: nat)
  {
    (r == 1 && c == 2) || (r == 2 && c == 3) || (r == 2 && c == 4) || (r == 3 && c == 2) || (r == 3 && c == 3)
  }

  /** A 6 x 6 grid holding exactly the glider before the tick. */
  predicate IsGlider(g: seq<Cell>)
  {
    |g| == 36 &&
    forall r: nat, c: nat | r < 6 && c < 6 :: g[Index(6, r, c)] == if GliderAt(r, c) then Alive else Dead
  }

  /** A 6 x 6 grid holding exactly the glider after the tick. */
  predicate IsGliderNext(g: seq<Cell>)
  {
    |g| == 36 &&
    forall r: nat, c: nat | r < 6 && c < 6 :: g[Index(6, r, c)] == if GliderNextAt(r, c) then Alive else Dead
  }

  /** The first pairs mark the indices 9, 13, 15, 20 and 21. */
  lemma MarkedGlider(p: seq<(nat, nat)>)
    requires p == GliderPairs()
    ensures SeedsInRange(36, 6, p)
    ensures Marked(6, p) == {9, 13, 15, 20, 21}
  {
    assert SeedIndex(6, p[0]) == 13 && SeedIndex(6, p[1]) == 20 && SeedIndex(6, p[2]) == 9;
    assert SeedIndex(6, p[3]) == 15 && SeedIndex(6, p[4]) == 21;
    assert 13 in Marked(6, p) && 20 in Marked(6, p) && 9 in Marked(6, p);
    assert 15 in Marked(6, p) && 21 in Marked(6, p);
  }

  /** The second pairs mark the indices 8, 15, 16, 20 and 21. */
  lemma MarkedGliderNext(q: seq<(nat, nat)>)
    requires q == GliderNextPairs()
    ensures SeedsInRange(36, 6, q)
    ensures Marked(6, q) == {8, 15, 16, 20, 21}
  {
    assert SeedIndex(6, q[0]) == 8 && SeedIndex(6, q[1]) == 20 && SeedIndex(6, q[2]) == 15;
    assert SeedIndex(6, q[3]) == 21 && SeedIndex(6, q[4]) == 16;
    assert 8 in Marked(6, q) && 20 in Marked(6, q) && 15 in Marked(6, q);
    assert 21 in Marked(6, q) && 16 in Marked(6, q);
  }

  /** Seeding an all-Dead 6 x 6 grid with the test's first pairs gives the glider. */
  lemma SeededGlider(cells: seq<Cell>, p: seq<(nat, nat)>)
    requires cells == AllDead(36) && p == GliderPairs()
    ensures SeedsInRange(36, 6, p)
    ensures IsGlider(Seeded(cells, 6, p))
  {
    MarkedGlider(p);
    forall r: nat, c: nat | r < 6 && c < 6
      ensures Seeded(cells, 6, p)[Index(6, r, c)] == if GliderAt(r, c) then Alive else Dead
    {
      IndexInverse(6, r, c);
    }
  }

  /** Seeding an all-Dead 6 x 6 grid with the test's second pairs gives the moved glider. */
  lemma SeededGliderNext(cells: seq<Cell>, q: seq<(nat, nat)>)
    requires cells == AllDead(36) && q == GliderNextPairs()
    ensures SeedsInRange(36, 6, q)
    ensures IsGliderNext(Seeded(cells, 6, q))
  {
    MarkedGliderNext(q);
    forall r: nat, c: nat | r < 6 && c < 6
      ensures Seeded(cells, 6, q)[Index(6, r, c)] == if GliderNextAt(r, c) then Alive else Dead
    {
      IndexInverse(6, r, c);
    }
  }

  /**
   * Every cell of row `r` from column `c` on holds the rule applied to its
   * pre-step state and its toroidal neighbour count.
   */
  predicate RowFrom(cells: seq<Cell>, next: seq<Cell>, w: nat, h: nat, r: nat, c: nat)
    requires |cells| == |next| == w * h && r < h
    decreases w - c
  {
    c >= w || (IndexInRange(w, h, r, c);
               next[Index(w, r, c)] == Rule(cells[Index(w, r, c)], TorusCount(cells, w, h, r, c)) &&
               RowFrom(cells, next, w, h, r, c + 1))
  }

  /** A row that agrees from column `c` on agrees at every column `y >= c`. */
  lemma {:induction false} RowFromAt(cells: seq<Cell>, next: seq<Cell>, w: nat, h: nat, r: nat, c: nat, y: nat)
    requires |cells| == |next| == w * h && r < h && c <= y < w
    requires RowFrom(cells, next, w, h, r, c)
    ensures Index(w, r, y) < |next|
    ensures next[Index(w, r, y)] == Rule(cells[Index(w, r, y)], TorusCount(cells, w, h, r, y))
    decreases y - c
  {
    IndexInRange(w, h, r, y);
    if c < y {
      RowFromAt(cells, next, w, h, r, c + 1, y);
    }
  }

  /** Every row from `r` on agrees with the torus rule. */
  predicate RowsFrom(cells: seq<Cell>, next: seq<Cell>, w: nat, h: nat, r: nat)
    requires |cells| == |next| == w * h
    decreases h - r
  {
    r >= h || (RowFrom(cells, next, w, h, r, 0) && RowsFrom(cells, next, w, h, r + 1))
  }

  /** The rows from `r` on agree, so row `x >= r` agrees. */
  lemma {:induction false} RowsFromAt(cells: seq<Cell>, next: seq<Cell>, w: nat, h: nat, r: nat, x: nat)
    requires |cells| == |next| == w * h && r <= x < h
    requires RowsFrom(cells, next, w, h, r)
    ensures RowFrom(cells, next, w, h, x, 0)
    decreases x - r
  {
    if r < x {
      RowsFromAt(cells, next, w, h, r + 1, x);
    }
  }

  /** A grid at least 2 x 2 whose every row agrees with the torus rule is the step of `cells`. */
  lemma StepFromRows(cells: seq<Cell>, next: seq<Cell>, w: nat, h: nat)
    requires |cells| == |next| == w * h && w >= 2 && h >= 2
    requires RowsFrom(cells, next, w, h, 0)
    ensures Step(cells, w, h) == next
  {
    forall i | 0 <= i < w * h
      ensures Step(cells, w, h)[i] == next[i]
    {
      IndexOnto(w, h, i);
      var r, y := i / w, i % w;
      RowsFromAt(cells, next, w, h, 0, r);
      RowFromAt(cells, next, w, h, r, 0, y);
      StepIsTorus(cells, w, h, r, y);
    }
  }

  /** Row 0 of the glider steps to row 0 of the moved glider. */
  lemma GliderRow0(g: seq<Cell>, gn: seq<Cell>)
    requires IsGlider(g) && IsGliderNext(gn)
    ensures RowFrom(g, gn, 6, 6, 0, 0)
  {
    assert TorusCount(g, 6, 6, 0, 0) == 0;
    assert TorusCount(g, 6, 6, 0, 1) == 0;
    assert TorusCount(g, 6, 6, 0, 2) == 1;
    assert TorusCount(g, 6, 6, 0, 3) == 1;
    assert TorusCount(g, 6, 6, 0, 4) == 1;
    assert TorusCount(g, 6, 6, 0, 5) == 0;
    assert RowFrom(g, gn, 6, 6, 0, 5);
    assert RowFrom(g, gn, 6, 6, 0, 4);
    assert RowFrom(g, gn, 6, 6, 0, 3);
    assert RowFrom(g, gn, 6, 6, 0, 2);
    assert RowFrom(g, gn, 6, 6, 0, 1);
  }

  /** Row 1 of the glider steps to row 1 of the moved glider. */
  lemma GliderRow1(g: seq<Cell>, gn: seq<Cell>)
    requires IsGlider(g) && IsGliderNext(gn)
    ensures RowFrom(g, gn, 6, 6, 1, 0)
  {
    assert TorusCount(g, 6, 6, 1, 0) == 1;
    assert TorusCount(g, 6, 6, 1, 1) == 1;
    assert TorusCount(g, 6, 6, 1, 2) == 3;
    assert TorusCount(g, 6, 6, 1, 3) == 1;
    assert TorusCount(g, 6, 6, 1, 4) == 2;
    assert TorusCount(g, 6, 6, 1, 5) == 0;
    assert RowFrom(g, gn, 6, 6, 1, 5);
    assert RowFrom(g, gn, 6, 6, 1, 4);
    assert RowFrom(g, gn, 6, 6, 1, 3);
    assert RowFrom(g, gn, 6, 6, 1, 2);
    assert RowFrom(g, gn, 6, 6, 1, 1);
  }

  /** Row 2 of the glider steps to row 2 of the moved glider. */
  lemma GliderRow2(g: seq<Cell>, gn: seq<Cell>)
    requires IsGlider(g) && IsGliderNext(gn)
    ensures RowFrom(g, gn, 6, 6, 2, 0)
  {
    assert TorusCount(g, 6, 6, 2, 0) == 1;
    assert TorusCount(g, 6, 6, 2, 1) == 1;
    assert TorusCount(g, 6, 6, 2, 2) == 5;
    assert TorusCount(g, 6, 6, 2, 3) == 3;
    assert TorusCount(g, 6, 6, 2, 4) == 3;
    assert TorusCount(g, 6, 6, 2, 5) == 0;
    assert RowFrom(g, gn, 6, 6, 2, 5);
    assert RowFrom(g, gn, 6, 6, 2, 4);
    assert RowFrom(g, gn, 6, 6, 2, 3);
    assert RowFrom(g, gn, 6, 6, 2, 2);
    assert RowFrom(g, gn, 6, 6, 2, 1);
  }

  /** Row 3 of the glider steps to row 3 of the moved glider. */
  lemma GliderRow3(g: seq<Cell>, gn: seq<Cell>)
    requires IsGlider(g) && IsGliderNext(gn)
    ensures RowFrom(g, gn, 6, 6, 3, 0)
  {
    assert TorusCount(g, 6, 6, 3, 0) == 1;
    assert TorusCount(g, 6, 6, 3, 1) == 2;
    assert TorusCount(g, 6, 6, 3, 2) == 3;
    assert TorusCount(g, 6, 6, 3, 3) == 2;
    assert TorusCount(g, 6, 6, 3, 4) == 2;
    assert TorusCount(g, 6, 6, 3, 5) == 0;
    assert RowFrom(g, gn, 6, 6, 3, 5);
    assert RowFrom(g, gn, 6, 6, 3, 4);
    assert RowFrom(g, gn, 6, 6, 3, 3);
    assert RowFrom(g, gn, 6, 6, 3, 2);
    assert RowFrom(g, gn, 6, 6, 3, 1);
  }

  /** Row 4 of the glider steps to row 4 of the moved glider. */
  lemma GliderRow4(g: seq<Cell>, gn: seq<Cell>)
    requires IsGlider(g) && IsGliderNext(gn)
    ensures RowFrom(g, gn, 6, 6, 4, 0)
  {
    assert TorusCount(g, 6, 6, 4, 0) == 0;
    assert TorusCount(g, 6, 6, 4, 1) == 1;
    assert TorusCount(g, 6, 6, 4, 2) == 2;
    assert TorusCount(g, 6, 6, 4, 3) == 2;
    assert TorusCount(g, 6, 6, 4, 4) == 1;
    assert TorusCount(g, 6, 6, 4, 5) == 0;
    assert RowFrom(g, gn, 6, 6, 4, 5);
    assert RowFrom(g, gn, 6, 6, 4, 4);
    assert RowFrom(g, gn, 6, 6, 4, 3);
    assert RowFrom(g, gn, 6, 6, 4, 2);
    assert RowFrom(g, gn, 6, 6, 4, 1);
  }

  /** Row 5 of the glider steps to row 5 of the moved glider. */
  lemma GliderRow5(g: seq<Cell>, gn: seq<Cell>)
    requires IsGlider(g) && IsGliderNext(gn)
    ensures RowFrom(g, gn, 6, 6, 5, 0)
  {
    assert TorusCount(g, 6, 6, 5, 0) == 0;
    assert TorusCount(g, 6, 6, 5, 1) == 0;
    assert TorusCount(g, 6, 6, 5, 2) == 0;
    assert TorusCount(g, 6, 6, 5, 3) == 0;
    assert TorusCount(g, 6, 6, 5, 4) == 0;
    assert TorusCount(g, 6, 6, 5, 5) == 0;
    assert RowFrom(g, gn, 6, 6, 5, 5);
    assert RowFrom(g, gn, 6, 6, 5, 4);
    assert RowFrom(g, gn, 6, 6, 5, 3);
    assert RowFrom(g, gn, 6, 6, 5, 2);
    assert RowFrom(g, gn, 6, 6, 5, 1);
  }

  /** The six rows together: the glider grid steps to the expected grid. */
  lemma GliderRowsStep(g: seq<Cell>, gn: seq<Cell>)
    requires |g| == |gn| == 36
    requires RowFrom(g, gn, 6, 6, 0, 0) && RowFrom(g, gn, 6, 6, 1, 0) && RowFrom(g, gn, 6, 6, 2, 0)
    requires RowFrom(g, gn, 6, 6, 3, 0) && RowFrom(g, gn, 6, 6, 4, 0) && RowFrom(g, gn, 6, 6, 5, 0)
    ensures Step(g, 6, 6) == gn
  {
    assert RowsFrom(g, gn, 6, 6, 6);
    assert RowsFrom(g, gn, 6, 6, 5);
    assert RowsFrom(g, gn, 6, 6, 4);
    assert RowsFrom(g, gn, 6, 6, 3);
    assert RowsFrom(g, gn, 6, 6, 2);
    assert RowsFrom(g, gn, 6, 6, 1);
    StepFromRows(g, gn, 6, 6);
  }

  /** A 6 x 6 grid holding the glider steps to the grid holding the moved glider. */
  lemma GliderTick(g: seq<Cell>, gn: seq<Cell>)
    requires IsGlider(g) && IsGliderNext(gn)
    ensures Step(g, 6, 6) == gn
  {
    GliderRow0(g, gn);
    GliderRow1(g, gn);
    GliderRow2(g, gn);
    GliderRow3(g, gn);
    GliderRow4(g, gn);
    GliderRow5(g, gn);
    GliderRowsStep(g, gn);
  }

  /**
   * The tick test: an all-Dead 6 x 6 grid seeded with the glider and stepped
   * once equals an all-Dead 6 x 6 grid seeded with the glider moved on.
   */
  lemma GliderStep()
    ensures SeedsInRange(36, 6, GliderPairs()) && SeedsInRange(36, 6, GliderNextPairs())
    ensures Step(Seeded(AllDead(36), 6, GliderPairs()), 6, 6) == Seeded(AllDead(36), 6, GliderNextPairs())
  {
    var cells, p, q := AllDead(36), GliderPairs(), GliderNextPairs();
    SeededGlider(cells, p);
    SeededGliderNext(cells, q);
    GliderTick(Seeded(cells, 6, p), Seeded(cells, 6, q));
  }

  /**
   * The tick test on the engine itself: a 6 x 6 universe seeded with the
   * glider and stepped once holds the same cells as a 6 x 6 universe seeded
   * with the moved glider, both starting all Dead.
   */
  method SpaceshipTick() returns (got: seq<Cell>, expected: seq<Cell>)
    ensures got == expected
    ensures IsGliderNext(got)
  {
    var input := new Universe(6, 6);
    GliderStep();
    input.SetCells(GliderPairs());
    input.Next();
    var target := new Universe(6, 6);
    target.SetCells(GliderNextPairs());
    got, expected := input.GetCells(), target.GetCells();
    SeededGliderNext(AllDead(36), GliderNextPairs());
  }
}
