/** Arc consistency: the revise step and the AC-3 work-queue algorithm
    (Mackworth 1977) over the crossing constraints of the puzzle. */
module ArcConsistency {
  import opened Wrappers
  import opened Puzzle
  import opened Assignments

  /** Some word of `dy` has, at index `j`, the letter `vx` has at index `i`. */
  predicate Supported(vx: Word, dy: set<Word>, i: nat, j: nat)
  {
    exists vy :: vy in dy && i < |vx| && j < |vy| && vx[i] == vy[j]
  }

  /** Every word left for `x` has a partner in `y`'s domain at their overlap.
      Slots that do not cross impose nothing. */
  ghost predicate ArcConsistent(p: Crossword, d: Domains, x: Variable, y: Variable)
  {
    match Overlap(p, x, y)
    case None => true
    case Some((i, j)) =>
      x in d && y in d && forall vx :: vx in d[x] ==> Supported(vx, d[y], i, j)
  }

  /** What the revise and AC-3 steps need of their inputs: a well-formed puzzle,
      one domain per variable, and words that can be indexed at every overlap. */
  ghost predicate Ready(p: Crossword, d: Domains)
  {
    WellFormed(p) && d.Keys == p.variables && NodeConsistent(d)
  }

  /** Makes `x` arc consistent with `y`: drops every word of `x`'s domain that
      no word of `y`'s domain matches at the overlap. Returns the new store and
      whether anything was dropped. */
  function Revise(p: Crossword, d: Domains, x: Variable, y: Variable): (r: (Domains, bool))
    requires Ready(p, d)
    ensures Overlap(p, x, y).None? ==> r == (d, false)
    ensures Shrinks(d, r.0)
    ensures forall v :: v in d && v != x ==> r.0[v] == d[v]
    ensures ArcConsistent(p, r.0, x, y)
    ensures Overlap(p, x, y).Some? ==>
      var (i, j) := Overlap(p, x, y).value;
      forall vx :: vx in d[x] && Supported(vx, d[y], i, j) ==> vx in r.0[x]
    ensures r.1 <==> x in d && r.0[x] != d[x]
    ensures r.1 <==> !ArcConsistent(p, d, x, y)
    ensures !r.1 ==> r.0 == d
  {
    match Overlap(p, x, y)
    case None => (d, false)
    case Some((i, j)) =>
      assert OverlapFits(p, x, y);
      var toRemove := set vx | vx in d[x] && !Supported(vx, d[y], i, j);
      if toRemove != {} then
        assert exists vx :: vx in toRemove;
        (d[x := d[x] - toRemove], true)
      else
        assert forall vx :: vx in d[x] ==> vx !in toRemove;
        (d, false)
  }

  /** Revision never drops a word that some solution drawn from the store uses:
      the solution's word for `y` matches it at the overlap. */
  lemma ReviseKeepsSolutions(p: Crossword, d: Domains, x: Variable, y: Variable, s: Assignment)
    requires Ready(p, d)
    requires IsSolution(p, d, s)
    ensures IsSolution(p, Revise(p, d, x, y).0, s)
  {
    var d' := Revise(p, d, x, y).0;
    if Overlap(p, x, y).Some? {
      assert OverlapFits(p, x, y);
      var (i, j) := Overlap(p, x, y).value;
      NeighborsSymmetric(p, y, x);
      assert y in Neighbors(p, x);
      assert EntryConsistent(p, s, x);
      assert Agree(p, s, x, y);
      assert Supported(s[x].value, d[y], i, j);
    }
  }

  /** All (variable, word) pairs still possible: the quantity revision shrinks. */
  ghost function Candidates(d: Domains): set<(Variable, Word)>
  {
    set v, w | v in d && w in d[v] :: (v, w)
  }

  lemma ShrinkingCandidates(d: Domains, d': Domains, x: Variable)
    requires Shrinks(d, d')
    requires x in d && d'[x] != d[x]
    ensures Candidates(d') < Candidates(d)
  {
    var w :| w in d[x] && w !in d'[x];
    assert (x, w) in Candidates(d) && (x, w) !in Candidates(d');
  }

  /** Lists every arc (x, y) with y a neighbour of x, each exactly once. */
  method GetArcs(p: Crossword) returns (arcs: seq<Arc>)
    ensures forall x, y :: (x, y) in arcs <==> x in p.variables && y in Neighbors(p, x)
    ensures forall k, l :: 0 <= k < l < |arcs| ==> arcs[k] != arcs[l]
  {
    arcs := [];
    var xs := p.variables;
    while xs != {}
      invariant xs <= p.variables
      invariant forall a, b :: (a, b) in arcs <==> a in p.variables - xs && b in Neighbors(p, a)
      invariant forall k, l :: 0 <= k < l < |arcs| ==> arcs[k] != arcs[l]
      decreases xs
    {
      var x :| x in xs;
      var ys := Neighbors(p, x);
      while ys != {}
        invariant ys <= Neighbors(p, x)
        invariant forall a, b :: (a, b) in arcs <==>
          (a in p.variables - xs && b in Neighbors(p, a)) || (a == x && b in Neighbors(p, x) - ys)
        invariant forall k, l :: 0 <= k < l < |arcs| ==> arcs[k] != arcs[l]
        decreases ys
      {
        var y :| y in ys;
        arcs := arcs + [(x, y)];
        ys := ys - {y};
      }
      xs := xs - {x};
    }
  }

  /** Every crossing arc is either still queued or already arc consistent. */
  ghost predicate Covered(p: Crossword, d: Domains, queue: seq<Arc>)
  {
    forall x, y :: x in p.variables && y in Neighbors(p, x) ==>
      (x, y) in queue || ArcConsistent(p, d, x, y)
  }

  /** Revising x against y cannot break the reverse arc (y, x): a word of y that
      had a partner in x keeps it, because that partner is itself supported. */
  lemma ReverseArcKept(p: Crossword, d: Domains, x: Variable, y: Variable)
    requires Ready(p, d)
    requires ArcConsistent(p, d, y, x)
    ensures ArcConsistent(p, Revise(p, d, x, y).0, y, x)
  {
    var d' := Revise(p, d, x, y).0;
    if Overlap(p, y, x).Some? {
      assert OverlapFits(p, y, x);
      var (j, i) := Overlap(p, y, x).value;
      assert Overlap(p, x, y) == Some((i, j));
      forall vy | vy in d'[y] ensures Supported(vy, d'[x], j, i) {
        var vx :| vx in d[x] && j < |vy| && i < |vx| && vy[j] == vx[i];
        assert Supported(vx, d[y], i, j);
      }
    }
  }

  /** One step of AC-3 keeps the coverage invariant: the popped arc becomes arc
      consistent, and the only arcs a revision of x can break, (z, x) for the
      neighbours z of x other than y, are queued again. */
  lemma {:induction false} CoverageKept(
    p: Crossword, d: Domains, x: Variable, y: Variable, rest: seq<Arc>, queue: seq<Arc>)
    requires Ready(p, d)
    requires Covered(p, d, [(x, y)] + rest)
    requires forall a :: a in rest ==> a in queue
    requires Revise(p, d, x, y).1 ==> forall z :: z in Neighbors(p, x) && z != y ==> (z, x) in queue
    ensures Covered(p, Revise(p, d, x, y).0, queue)
  {
    var (d', revised) := Revise(p, d, x, y);
    forall a, b | a in p.variables && b in Neighbors(p, a)
      ensures (a, b) in queue || ArcConsistent(p, d', a, b)
    {
      if (a, b) == (x, y) {
      } else if (a, b) in rest {
      } else {
        assert (a, b) !in [(x, y)] + rest;
        assert ArcConsistent(p, d, a, b);
        NeighborsSymmetric(p, a, b);
        if b != x {
          assert forall v :: v in d && v != x ==> d'[v] == d[v];
        } else if a != y {
          assert revised ==> (a, x) in queue;
        } else {
          ReverseArcKept(p, d, x, y);
        }
      }
    }
  }

  /** After `x` lost words while revised against `y`, appends an arc (z, x)
      for every neighbour z of x other than y to the remaining queue. */
  method Requeue(p: Crossword, x: Variable, y: Variable, rest: seq<Arc>) returns (queue: seq<Arc>)
    ensures |rest| <= |queue| && queue[..|rest|] == rest
    ensures forall b :: b in rest ==> b in queue
    ensures forall z :: z in Neighbors(p, x) && z != y ==> (z, x) in queue[|rest|..]
    ensures forall z :: z in Neighbors(p, x) && z != y ==> (z, x) in queue
    ensures forall b :: b in queue[|rest|..] ==> b.1 == x && b.0 in Neighbors(p, x) && b.0 != y
    ensures forall k, l :: |rest| <= k < l < |queue| ==> queue[k] != queue[l]
  {
    queue := rest;
    var zs := Neighbors(p, x);
    while zs != {}
      invariant zs <= Neighbors(p, x)
      invariant |rest| <= |queue| && queue[..|rest|] == rest
      invariant forall b :: b in rest ==> b in queue
      invariant forall z :: z in Neighbors(p, x) - zs && z != y ==> (z, x) in queue[|rest|..]
      invariant forall b :: b in queue[|rest|..] ==> b.1 == x && b.0 in Neighbors(p, x) - zs && b.0 != y
      invariant forall k, l :: |rest| <= k < l < |queue| ==> queue[k] != queue[l]
      decreases zs
    {
      var z :| z in zs;
      if z != y {
        ghost var appended := queue[|rest|..];
        queue := queue + [(z, x)];
        assert queue[|rest|..] == appended + [(z, x)];
      }
      zs := zs - {z};
    }
  }

  /** One round of the AC-3 loop: revises the arc at the head of the queue and,
      when that shrinks x's domain without emptying it, queues the arcs (z, x)
      from x's other neighbours. */
  method ArcStep(p: Crossword, d: Domains, queue: seq<Arc>, ghost seeded: bool)
    returns (emptied: bool, d': Domains, queue': seq<Arc>)
    requires |queue| > 0
    requires Ready(p, d)
    requires seeded ==> Covered(p, d, queue)
    ensures Shrinks(d, d') && Ready(p, d')
    ensures emptied ==> queue[0].0 in d' && d'[queue[0].0] == {}
    ensures !emptied ==> forall v :: v in d && d[v] != {} ==> d'[v] != {}
    ensures !emptied && seeded ==> Covered(p, d', queue')
    ensures forall s :: IsSolution(p, d, s) ==> IsSolution(p, d', s)
    ensures d' == d ==> !emptied && |queue'| < |queue|
    ensures d' != d ==> Candidates(d') < Candidates(d)
    ensures (forall x, y :: ArcConsistent(p, d, x, y)) ==> d' == d
  {
    var (x, y) := queue[0];
    var rest := queue[1..];
    assert queue == [(x, y)] + rest;
    var (revisedDomains, revised) := Revise(p, d, x, y);
    forall s: Assignment | IsSolution(p, d, s) ensures IsSolution(p, revisedDomains, s) {
      ReviseKeepsSolutions(p, d, x, y, s);
    }
    d' := revisedDomains;
    if revised {
      ShrinkingCandidates(d, revisedDomains, x);
      if revisedDomains[x] == {} {
        return true, d', rest;
      }
      queue' := Requeue(p, x, y, rest);
    } else {
      queue' := rest;
    }
    emptied := false;
    if seeded {
      CoverageKept(p, d, x, y, rest, queue');
    }
  }

  /** Enforces arc consistency with a first-in first-out queue of arcs, seeded
      with every crossing arc when `arcs` is `None` and with a copy of `arcs`
      otherwise. Returns false as soon as a revision empties a domain; the store
      as it then stands is returned as well. */
  method AC3(p: Crossword, d: Domains, arcs: Option<seq<Arc>>) returns (ok: bool, d': Domains)
    requires Ready(p, d)
    ensures Shrinks(d, d')
    ensures NodeConsistent(d')
    ensures !ok ==> exists x :: x in d' && d'[x] == {}
    ensures ok ==> forall v :: v in d && d[v] != {} ==> d'[v] != {}
    ensures ok && arcs.None? ==>
      forall x, y :: x in p.variables && y in Neighbors(p, x) ==> ArcConsistent(p, d', x, y)
    ensures ok && arcs.Some? && Covered(p, d, arcs.value) ==>
      forall x, y :: x in p.variables && y in Neighbors(p, x) ==> ArcConsistent(p, d', x, y)
    ensures forall s :: IsSolution(p, d, s) ==> IsSolution(p, d', s)
    ensures !ok ==> forall s :: !IsSolution(p, d, s)
    ensures (forall x, y :: ArcConsistent(p, d, x, y)) ==> ok && d' == d
  {
    var queue: seq<Arc>;
    if arcs.None? {
      queue := GetArcs(p);
    } else {
      queue := arcs.value;
    }
    ghost var seeded := Covered(p, d, queue);
    ghost var settled := forall x, y :: ArcConsistent(p, d, x, y);
    d' := d;
    while |queue| > 0
      invariant Shrinks(d, d')
      invariant Ready(p, d')
      invariant seeded ==> Covered(p, d', queue)
      invariant forall s :: IsSolution(p, d, s) ==> IsSolution(p, d', s)
      invariant settled ==> d' == d
      invariant forall v :: v in d && d[v] != {} ==> d'[v] != {}
      decreases Candidates(d'), |queue|
    {
      var emptied, next, queue' := ArcStep(p, d', queue, seeded);
      if emptied {
        return false, next;
      }
      d', queue := next, queue';
    }
    ok := true;
  }
}
