/** Bulk seeding (`set_cells`) on values. */
module Seeding {
  import opened Cells
  import opened Grid

  /**
   * The index a pair marks: `set_cells` binds each pair as `(y, x)` and
   * writes `get_index(x, y)`, so the pair `(a, b)` marks `a + width * b`.
   */
  function SeedIndex(width: nat, p: (nat, nat)): nat
  {
    Index(width, p.1, p.0)
  }

  /** Every pair marks an index inside a cell sequence of length `n` (Rust indexing panics otherwise). */
  predicate SeedsInRange(n: nat, width: nat, pairs: seq<(nat, nat)>)
  {
    forall k | 0 <= k < |pairs| :: SeedIndex(width, pairs[k]) < n
  }

  /** The set of indices the pairs mark. */
  function Marked(width: nat, pairs: seq<(nat, nat)>): set<nat>
  {
    set k | 0 <= k < |pairs| :: SeedIndex(width, pairs[k])
  }

  /** The cells after marking each pair in turn Alive. */
  function Seeded(cells: seq<Cell>, width: nat, pairs: seq<(nat, nat)>): (r: seq<Cell>)
    requires SeedsInRange(|cells|, width, pairs)
    ensures |r| == |cells|
    ensures forall i | 0 <= i < |r| :: r[i] == if i in Marked(width, pairs) then Alive else cells[i]
    decreases |pairs|
  {
    if pairs == [] then cells
    else
      var front := pairs[..|pairs| - 1];
      assert Marked(width, pairs) == Marked(width, front) + {SeedIndex(width, pairs[|pairs| - 1])};
      Seeded(cells, width, front)[SeedIndex(width, pairs[|pairs| - 1]) := Alive]
  }

  /** Seeding twice with the same pairs is seeding once. */
  lemma SeededIdempotent(cells: seq<Cell>, width: nat, pairs: seq<(nat, nat)>)
    requires SeedsInRange(|cells|, width, pairs)
    ensures Seeded(Seeded(cells, width, pairs), width, pairs) == Seeded(cells, width, pairs)
  {
  }
}
