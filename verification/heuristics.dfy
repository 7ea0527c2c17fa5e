/** The search's ordering heuristics: minimum remaining values with a domain
    sharing tie-break for the variable, least constraining value for the words. */
module Heuristics {
  import opened Wrappers
  import opened Collections
  import opened Puzzle
  import opened Assignments

  /** The value-ordering score of `w` for `v`: how many neighbours of `v` that
      are not keys of `a` have `w` itself in their domain. */
  function Score(p: Crossword, d: Domains, v: Variable, a: Assignment, w: Word): nat
  {
    |set n | n in Neighbors(p, v) && n !in a && n in d && w in d[n]|
  }

  /** One term of the conflict count, a domain's size minus the number of its
      words different from `w`, is 1 if `w` is in the domain and 0 otherwise. */
  lemma ConflictTerm(dn: set<Word>, w: Word)
    ensures |dn| - |set u | u in dn && u != w| == if w in dn then 1 else 0
  {
    var others := set u | u in dn && u != w;
    if w in dn {
      assert dn == others + {w};
    } else {
      assert dn == others;
    }
  }

  /** The conflict count as the source sums it over the neighbours `ns`: for
      each, its domain's size minus the number of its words different from `w`. */
  ghost function ConflictCount(d: Domains, ns: set<Variable>, w: Word): int
    requires ns <= d.Keys
    decreases ns
  {
    if ns == {} then 0
    else
      var n := Pick(ns);
      |d[n]| - |set u | u in d[n] && u != w| + ConflictCount(d, ns - {n}, w)
  }

  /** The conflict count over `ns` is the number of neighbours in `ns` whose
      domain holds `w`. */
  lemma {:induction false} ConflictCountCounts(d: Domains, ns: set<Variable>, w: Word)
    requires ns <= d.Keys
    ensures ConflictCount(d, ns, w) == |set n | n in ns && w in d[n]|
    decreases ns
  {
    if ns != {} {
      var n := Pick(ns);
      ConflictCountCounts(d, ns - {n}, w);
      ConflictTerm(d[n], w);
      var holding := set m | m in ns && w in d[m];
      var holdingRest := set m | m in ns - {n} && w in d[m];
      if w in d[n] {
        assert holding == holdingRest + {n};
      } else {
        assert holding == holdingRest;
      }
    }
  }

  /** The score is the source's conflict count over the neighbours of `v` that
      are not keys of the assignment. */
  lemma ScoreCountsConflicts(p: Crossword, d: Domains, v: Variable, a: Assignment, w: Word)
    requires Neighbors(p, v) <= d.Keys
    ensures Score(p, d, v, a, w) == ConflictCount(d, Neighbors(p, v) - a.Keys, w)
  {
    var ns := Neighbors(p, v) - a.Keys;
    ConflictCountCounts(d, ns, w);
    assert (set n | n in ns && w in d[n]) == (set n | n in Neighbors(p, v) && n !in a && n in d && w in d[n]);
  }

  /** The words of `v`'s domain, each once, in non-decreasing order of score. */
  method OrderDomainValues(p: Crossword, d: Domains, v: Variable, a: Assignment)
    returns (ws: seq<Word>)
    requires v in d
    ensures forall w :: w in ws <==> w in d[v]
    ensures forall k, l :: 0 <= k < l < |ws| ==> ws[k] != ws[l]
    ensures forall k, l :: 0 <= k < l < |ws| ==> Score(p, d, v, a, ws[k]) <= Score(p, d, v, a, ws[l])
    ensures |ws| == |d[v]|
  {
    ws := SortByKey(d[v], u => Score(p, d, v, a, u));
  }

  /** The number of other variables whose domain shares a word with `v`'s. */
  function Degree(d: Domains, v: Variable): nat
    requires v in d
  {
    |set o | o in d && o != v && d[v] * d[o] != {}|
  }

  /** `u` comes strictly before `v` in the order (domain size, then larger degree). */
  predicate Preferred(d: Domains, u: Variable, v: Variable)
    requires u in d && v in d
  {
    |d[u]| < |d[v]| || (|d[u]| == |d[v]| && Degree(d, u) > Degree(d, v))
  }

  /** Picks a variable of the store that is not a key of `a`, with the smallest
      domain and, among those, the largest degree. `None` stands for the error
      of taking the minimum of no candidates. */
  method SelectUnassignedVariable(d: Domains, a: Assignment) returns (r: Option<Variable>)
    ensures r.None? <==> forall v :: v in d ==> v in a
    ensures r.Some? ==> r.value in d && r.value !in a
    ensures r.Some? ==> forall u :: u in d && u !in a ==> !Preferred(d, u, r.value)
  {
    var unassigned := set v | v in d && v !in a;
    if unassigned == {} {
      assert forall v :: v in d ==> v in a by {
        forall v | v in d ensures v in a {
          assert v !in unassigned;
        }
      }
      return None;
    }
    var best :| best in unassigned;
    var todo := unassigned - {best};
    while todo != {}
      invariant todo <= unassigned && best in unassigned && best !in todo
      invariant forall u :: u in unassigned && u !in todo ==> !Preferred(d, u, best)
      decreases todo
    {
      var u :| u in todo;
      if Preferred(d, u, best) {
        best := u;
      }
      todo := todo - {u};
    }
    return Some(best);
  }
}
