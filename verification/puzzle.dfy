/** The read-only puzzle definition the solver works on, and the domain store
    built from it. The geometry behind the overlaps (grid cells, parsing of
    structure and word files) belongs to the `crossword` module, which is not
    part of this model: a puzzle is taken as given. */
module Puzzle {
  import opened Wrappers

  datatype Direction = Across | Down

  /** A slot of the grid: start cell, direction and length. */
  datatype Variable = Variable(row: int, col: int, direction: Direction, length: nat)

  type Word = string

  /** An ordered pair of variables, as queued by arc consistency. */
  type Arc = (Variable, Variable)

  /** The domain store: the candidate words still possible for each variable. */
  type Domains = map<Variable, set<Word>>

  /** `overlaps[(x, y)] == Some((i, j))` means that letter `i` of `x`'s word
      must equal letter `j` of `y`'s word; `None` means the slots do not cross. */
  datatype Crossword = Crossword(
    variables: set<Variable>,
    words: set<Word>,
    overlaps: map<(Variable, Variable), Option<(nat, nat)>>)

  /** The overlap recorded for `(x, y)`, treating a missing entry as no overlap. */
  function Overlap(p: Crossword, x: Variable, y: Variable): Option<(nat, nat)>
  {
    if (x, y) in p.overlaps then p.overlaps[(x, y)] else None
  }

  /** The variables other than `v` that cross it. */
  function Neighbors(p: Crossword, v: Variable): set<Variable>
  {
    set w | w in p.variables && w != v && Overlap(p, w, v).Some?
  }

  /** What the solver relies on from the puzzle: every overlap joins two distinct
      variables at indices inside both words, and is recorded in both directions
      with the indices swapped. */
  ghost predicate WellFormed(p: Crossword)
  {
    forall x, y :: Overlap(p, x, y).Some? ==> OverlapFits(p, x, y)
  }

  ghost predicate OverlapFits(p: Crossword, x: Variable, y: Variable)
    requires Overlap(p, x, y).Some?
  {
    var (i, j) := Overlap(p, x, y).value;
    && x in p.variables && y in p.variables && x != y
    && i < x.length && j < y.length
    && Overlap(p, y, x) == Some((j, i))
  }

  /** Crossing is symmetric, and a neighbour always has an overlap entry. */
  lemma NeighborsSymmetric(p: Crossword, x: Variable, y: Variable)
    requires WellFormed(p)
    ensures y in Neighbors(p, x) <==> x in Neighbors(p, y)
    ensures y in Neighbors(p, x) ==> Overlap(p, x, y).Some? && Overlap(p, y, x).Some?
  {
    if Overlap(p, y, x).Some? {
      assert OverlapFits(p, y, x);
    }
    if Overlap(p, x, y).Some? {
      assert OverlapFits(p, x, y);
    }
  }

  /** Every word of every domain has its variable's length. */
  ghost predicate NodeConsistent(d: Domains)
  {
    forall v, w :: v in d && w in d[v] ==> |w| == v.length
  }

  /** `d'` arises from `d` by removing words only. */
  ghost predicate Shrinks(d: Domains, d': Domains)
  {
    d'.Keys == d.Keys && forall v :: v in d ==> d'[v] <= d[v]
  }

  /** The domain store as the solver is constructed: each variable may take any
      word of the word list. */
  function InitialDomains(p: Crossword): (d: Domains)
    ensures d.Keys == p.variables
    ensures forall v, w :: v in d ==> (w in d[v] <==> w in p.words)
  {
    map v | v in p.variables :: p.words
  }
}
