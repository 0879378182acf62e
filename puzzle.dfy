/**
 * The puzzle geometry the crossword solver consumes. The crossword module
 * that parses a structure file and a word list is not part of this model:
 * its output is taken as an immutable value, with the properties listed
 * in `WellFormed` taken to hold of it.
 */
module Puzzle {
  import opened Optional

  datatype Direction = Across | Down

  /** One slot of the grid: start cell, direction and number of cells. */
  datatype Variable = Variable(i: int, j: int, direction: Direction, length: nat)

  type Word = string

  /** An ordered pair of variables, as used for overlap lookups and AC-3 arcs. */
  type Arc = (Variable, Variable)

  /** Offsets `(k, l)`: letter `k` of the first variable's word sits on letter `l` of the second's. */
  type Offsets = (nat, nat)

  datatype Crossword = Crossword(
    variables: set<Variable>,
    words: set<Word>,
    overlaps: map<Arc, Option<Offsets>>)

  /**
   * What the solver relies on: `overlaps` has an entry, possibly `None`, for
   * every ordered pair of distinct variables and for nothing else; the
   * offsets lie inside both words; and the entry for `(y, x)` is the entry
   * for `(x, y)` with its offsets swapped.
   */
  predicate WellFormed(cw: Crossword) {
    && (forall p | p in cw.overlaps :: p.0 in cw.variables && p.1 in cw.variables && p.0 != p.1)
    && (forall x, y | x in cw.variables && y in cw.variables && x != y :: (x, y) in cw.overlaps)
    && (forall p | p in cw.overlaps && cw.overlaps[p].Some? ::
          cw.overlaps[p].value.0 < p.0.length && cw.overlaps[p].value.1 < p.1.length)
    && (forall p | p in cw.overlaps :: (p.1, p.0) in cw.overlaps && cw.overlaps[(p.1, p.0)] == Swap(cw.overlaps[p]))
  }

  function Swap(o: Option<Offsets>): Option<Offsets> {
    if o.Some? then Some((o.value.1, o.value.0)) else None
  }

  /** An arc whose two variables share a cell. */
  predicate Constrained(cw: Crossword, p: Arc) {
    p in cw.overlaps && cw.overlaps[p].Some?
  }

  /** Every constrained arc: the queue `ac3` starts from when given no arcs. */
  function ConstrainedArcs(cw: Crossword): set<Arc> {
    set p | p in cw.overlaps && cw.overlaps[p].Some?
  }

  /** `neighbors(x)`: the other variables that share a cell with `x`. */
  function Neighbors(cw: Crossword, x: Variable): (ns: set<Variable>)
    ensures forall n | n in ns :: n in cw.variables && n != x && Constrained(cw, (n, x))
  {
    set n | n in cw.variables && n != x && (n, x) in cw.overlaps && cw.overlaps[(n, x)].Some?
  }

  /** In a well-formed crossword the neighbour relation is symmetric. */
  lemma NeighborsSymmetric(cw: Crossword, x: Variable, n: Variable)
    requires WellFormed(cw) && x in cw.variables
    ensures n in Neighbors(cw, x) <==> Constrained(cw, (x, n)) && n in cw.variables
  {
    if Constrained(cw, (x, n)) && n in cw.variables {
      assert (n, x) in cw.overlaps && cw.overlaps[(n, x)] == Swap(cw.overlaps[(x, n)]);
    }
  }
}
