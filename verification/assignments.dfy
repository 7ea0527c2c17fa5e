/** Partial assignments and the consistency check of the search. An entry
    `v := None` is a slot that was tried and reset: it is a key of the map
    without holding a word. */
module Assignments {
  import opened Wrappers
  import opened Collections
  import opened Puzzle

  type Assignment = map<Variable, Option<Word>>

  /** Every variable of the puzzle holds a word. */
  predicate AssignmentComplete(p: Crossword, a: Assignment)
  {
    forall v :: v in p.variables ==> v in a && a[v].Some?
  }

  /** No entry of `a` is a reset (`None`) slot. */
  ghost predicate NoResetEntries(a: Assignment)
  {
    forall v :: v in a ==> a[v].Some?
  }

  /** Every word held has its slot's length. */
  ghost predicate LengthsFit(a: Assignment)
  {
    forall v :: v in a && a[v].Some? ==> |a[v].value| == v.length
  }

  /** Every word held comes from its variable's domain. */
  ghost predicate FromDomains(d: Domains, a: Assignment)
  {
    forall v :: v in a && a[v].Some? ==> v in d && a[v].value in d[v]
  }

  /** `s` keeps every entry of `a`. */
  ghost predicate Extends(s: Assignment, a: Assignment)
  {
    forall v :: v in a ==> v in s && s[v] == a[v]
  }

  /** When `x` and `y` both hold words, the words agree at the overlap of x with y. */
  ghost predicate Agree(p: Crossword, a: Assignment, x: Variable, y: Variable)
  {
    x in a && y in a && a[x].Some? && a[y].Some? ==>
      match Overlap(p, x, y)
      case None => true
      case Some((i, j)) =>
        i < |a[x].value| && j < |a[y].value| && a[x].value[i] == a[y].value[j]
  }

  /** The constraints on one entry: a held word fits its slot and agrees with
      the words held by every crossing slot. */
  ghost predicate EntryConsistent(p: Crossword, a: Assignment, v: Variable)
    requires v in a
  {
    a[v].Some? ==>
      && |a[v].value| == v.length
      && forall o :: o in Neighbors(p, v) ==> Agree(p, a, v, o)
  }

  /** A partial assignment violates no constraint. Values are compared as they
      stand, so two reset slots (two `None`s) count as a repeated value. */
  ghost predicate Consistent(p: Crossword, a: Assignment)
  {
    && Injective(a)
    && forall v :: v in a ==> EntryConsistent(p, a, v)
  }

  /** The consistency check: values are first checked for repeats by comparing
      the number of entries with the number of distinct values, then every
      entry holding a word is checked for length and against its crossing
      neighbours, in an unspecified order and stopping at the first violation.
      `None` is returned where indexing a neighbour's word that is too short
      would raise. */
  method CheckConsistent(p: Crossword, a: Assignment) returns (r: Option<bool>)
    requires WellFormed(p)
    ensures r == Some(true) <==> Consistent(p, a)
    ensures r.None? ==> !LengthsFit(a)
  {
    ValuesCount(a);
    if |a.Values| != |a| {
      return Some(false);
    }
    var todo := a.Keys;
    while todo != {}
      invariant todo <= a.Keys
      invariant forall v :: v in a && v !in todo ==> EntryConsistent(p, a, v)
      decreases todo
    {
      var v :| v in todo;
      if a[v].Some? {
        var val := a[v].value;
        if |val| != v.length {
          return Some(false);
        }
        var others := Neighbors(p, v);
        while others != {}
          invariant others <= Neighbors(p, v)
          invariant forall o :: o in Neighbors(p, v) && o !in others ==> Agree(p, a, v, o)
          decreases others
        {
          var o :| o in others;
          if o in a && a[o].Some? {
            var otherVal := a[o].value;
            NeighborsSymmetric(p, v, o);
            assert OverlapFits(p, v, o);
            var (i, j) := Overlap(p, v, o).value;
            if j >= |otherVal| {
              return None;
            }
            if val[i] != otherVal[j] {
              return Some(false);
            }
          }
          others := others - {o};
        }
      }
      todo := todo - {v};
    }
    return Some(true);
  }

  /** A solution drawn from the store `d`: complete, consistent, every word from
      its variable's domain. */
  ghost predicate IsSolution(p: Crossword, d: Domains, s: Assignment)
  {
    AssignmentComplete(p, s) && Consistent(p, s) && FromDomains(d, s)
  }

  /** Consistency includes the length check of every held word. */
  lemma ConsistentFits(p: Crossword, a: Assignment)
    requires Consistent(p, a)
    ensures LengthsFit(a)
  {
    forall v | v in a && a[v].Some? ensures |a[v].value| == v.length {
      assert EntryConsistent(p, a, v);
    }
  }

  /** Placing a word of its domain in a slot of a node-consistent store keeps
      every held word fitting its slot. */
  lemma TrialFits(d: Domains, a: Assignment, v: Variable, w: Word)
    requires NodeConsistent(d) && LengthsFit(a)
    requires v in d && w in d[v]
    ensures LengthsFit(a[v := Some(w)])
  {
  }

  /** A consistent assignment keeps being consistent when entries are dropped. */
  lemma {:induction false} ConsistentRestricts(p: Crossword, s: Assignment, a: Assignment)
    requires Consistent(p, s)
    requires Extends(s, a)
    ensures Consistent(p, a)
  {
    forall k, l | k in a && l in a && k != l ensures a[k] != a[l] {
      assert s[k] != s[l];
    }
    forall v | v in a ensures EntryConsistent(p, a, v) {
      assert EntryConsistent(p, s, v);
      forall o | o in Neighbors(p, v) ensures Agree(p, a, v, o) {
        assert Agree(p, s, v, o);
      }
    }
  }

  /** The empty assignment is consistent. */
  lemma EmptyConsistent(p: Crossword)
    ensures Consistent(p, map[])
  {
  }

  /** Without reset entries, completeness is holding every variable as a key. */
  lemma CompleteIffAllHeld(p: Crossword, a: Assignment)
    requires NoResetEntries(a)
    ensures AssignmentComplete(p, a) <==> p.variables <= a.Keys
  {
    if p.variables <= a.Keys {
      forall v | v in p.variables ensures v in a && a[v].Some? {
        assert v in a.Keys;
      }
    }
  }

  /** A variable of the puzzle reset to `None` keeps every extension of the
      assignment incomplete. */
  lemma ResetNeverCompletes(p: Crossword, a: Assignment, s: Assignment, v: Variable)
    requires v in p.variables && v in a && a[v] == None
    requires Extends(s, a)
    ensures !AssignmentComplete(p, s)
  {
    assert s[v] == None;
  }
}
