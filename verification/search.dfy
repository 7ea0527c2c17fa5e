/** Backtracking search and the solver facade. The search works on one shared,
    mutable assignment: `Backtrack` returns its outcome together with the
    assignment as the call leaves it, so that what a failed call leaves behind
    is visible to the caller. */
module Search {
  import opened Wrappers
  import opened Puzzle
  import opened NodeConsistency
  import opened ArcConsistency
  import opened Assignments
  import opened Heuristics

  /** The errors the solve path can raise. */
  datatype Error =
    | NoValuesLeft(variable: Variable)   // node consistency emptied this domain
    | NoUnassignedVariable               // variable selection took the minimum of no candidates
    | IndexOutOfRange                    // the consistency check indexed past the end of a word

  datatype SearchOutcome = Found(solution: Assignment) | NotFound | Raised(error: Error)

  datatype SolveOutcome = Solved(assignment: Assignment) | NoSolution | SolveRaised(error: Error)

  /** Backtracking search as written: a complete assignment is returned as it
      stands; otherwise one variable is chosen and its words are tried in score
      order. */
  method Backtrack(p: Crossword, d: Domains, a: Assignment) returns (out: SearchOutcome, after: Assignment)
    requires WellFormed(p)
    requires d.Keys == p.variables
    ensures AssignmentComplete(p, a) ==> out == Found(a) && after == a
    ensures out.Found? ==> AssignmentComplete(p, out.solution) && Extends(out.solution, a)
    ensures out.Found? ==> out.solution == a || Consistent(p, out.solution)
    ensures out.Found? ==> forall v :: v in out.solution && v !in a ==>
      v in d && out.solution[v].Some? && out.solution[v].value in d[v]
    ensures Extends(after, a)
    ensures forall v :: v in after && v !in a ==>
      v in d && (after[v].Some? ==> after[v].value in d[v])
    ensures out.NotFound? ==> after == a || exists v :: v in after && v !in a && after[v] == None
    ensures out.Raised? ==> !out.error.NoValuesLeft?
    ensures NodeConsistent(d) && LengthsFit(a) ==> out != Raised(IndexOutOfRange)
    ensures !AssignmentComplete(p, a) && (forall v :: v in d ==> v in a) ==>
      out == Raised(NoUnassignedVariable) && after == a
    ensures NodeConsistent(d) && LengthsFit(a) && (exists v :: v in d && v !in a && d[v] == {}) ==>
      out == NotFound && after == a
    decreases d.Keys - a.Keys, 0
  {
    if AssignmentComplete(p, a) {
      return Found(a), a;
    }
    var choice := SelectUnassignedVariable(d, a);
    if choice.None? {
      return Raised(NoUnassignedVariable), a;
    }
    var v := choice.value;
    var words := OrderDomainValues(p, d, v, a);
    ghost var blocked := exists u :: u in d && u !in a && d[u] == {};
    if blocked {
      var u :| u in d && u !in a && d[u] == {};
      assert !Preferred(d, u, v);
      assert |words| == |d[v]| == 0;
    }
    out, after := TryWords(p, d, a, v, words);
  }

  /** The loop of the search as written over the ordered words of `v`. Every
      trial that does not lead to a solution leaves `v` reset to `None`, so
      `v` stays a key of the assignment. */
  method TryWords(p: Crossword, d: Domains, a: Assignment, v: Variable, words: seq<Word>)
    returns (out: SearchOutcome, after: Assignment)
    requires WellFormed(p)
    requires d.Keys == p.variables
    requires v in d && v !in a
    requires forall w :: w in words ==> w in d[v]
    ensures out.Found? ==> AssignmentComplete(p, out.solution) && Consistent(p, out.solution)
    ensures out.Found? ==> Extends(out.solution, a)
    ensures out.Found? ==> forall u :: u in out.solution && u !in a ==>
      u in d && out.solution[u].Some? && out.solution[u].value in d[u]
    ensures Extends(after, a)
    ensures forall u :: u in after && u !in a ==>
      u in d && (after[u].Some? ==> after[u].value in d[u])
    ensures out.NotFound? ==> after == a || (v in after && after[v] == None)
    ensures out.Raised? ==> !out.error.NoValuesLeft?
    ensures NodeConsistent(d) && LengthsFit(a) ==> out != Raised(IndexOutOfRange)
    ensures (NodeConsistent(d) && LengthsFit(a) &&
             forall w :: w in words ==> !Consistent(p, a[v := Some(w)])) ==>
      out == NotFound && after == (if words == [] then a else a[v := None])
    decreases d.Keys - (a.Keys + {v}), 2
  {
    ghost var conflicts := NodeConsistent(d) && LengthsFit(a) &&
      (forall w :: w in words ==> !Consistent(p, a[v := Some(w)]));
    var current := a;
    var k := 0;
    while k < |words|
      invariant 0 <= k <= |words|
      invariant Extends(current, a)
      invariant forall u :: u in current && u !in a ==>
        u in d && (current[u].Some? ==> current[u].value in d[u])
      invariant NodeConsistent(d) && LengthsFit(a) ==> LengthsFit(current)
      invariant k == 0 ==> current == a
      invariant k > 0 ==> v in current && current[v] == None
      invariant conflicts && k > 0 ==> current == a[v := None]
    {
      if conflicts {
        assert current[v := Some(words[k])] == a[v := Some(words[k])];
      }
      out, after := TryWord(p, d, current, v, words[k]);
      if out.Found? {
        FoundBelow(p, d, a, current, v, words[k], out.solution);
      }
      if !out.NotFound? {
        return;
      }
      current := after;
      k := k + 1;
    }
    return NotFound, current;
  }

  /** A complete solution found below a trial of `w` for `v` keeps the entries
      of every assignment the trial's starting point extends, and holds words
      of the domains at every other slot. */
  lemma FoundBelow(p: Crossword, d: Domains, a: Assignment, current: Assignment, v: Variable, w: Word,
                   s: Assignment)
    requires d.Keys == p.variables
    requires v !in a && Extends(current, a)
    requires forall u :: u in current && u !in a ==> u in d && (current[u].Some? ==> current[u].value in d[u])
    requires v in d && w in d[v]
    requires AssignmentComplete(p, s) && Extends(s, current[v := Some(w)])
    requires forall u :: u in s && u !in current[v := Some(w)] ==> u in d && s[u].Some? && s[u].value in d[u]
    ensures Extends(s, a)
    ensures forall u :: u in s && u !in a ==> u in d && s[u].Some? && s[u].value in d[u]
  {
    forall u | u in a ensures u in s && s[u] == a[u] {
      assert u in current && u != v;
      assert s[u] == current[v := Some(w)][u] == current[u];
    }
    forall u | u in s && u !in a ensures u in d && s[u].Some? && s[u].value in d[u] {
      if u == v {
        assert s[u] == Some(w);
      } else if u in current {
        assert s[u] == current[u];
        assert u in p.variables;
      }
    }
  }

  /** One trial of the search as written: `w` is written for `v` in the shared
      assignment and the search goes on from there if the result is
      consistent; when that does not produce a solution, `v` is reset to
      `None`. An error leaves the assignment as it stands. */
  method TryWord(p: Crossword, d: Domains, a: Assignment, v: Variable, w: Word)
    returns (out: SearchOutcome, after: Assignment)
    requires WellFormed(p)
    requires d.Keys == p.variables
    requires v in d && w in d[v]
    ensures v in after && forall u :: u in a && u != v ==> u in after && after[u] == a[u]
    ensures forall u :: u in after && (u !in a || u == v) ==>
      u in d && (after[u].Some? ==> after[u].value in d[u])
    ensures out.NotFound? ==> after[v] == None
    ensures out.Found? ==> AssignmentComplete(p, out.solution) && Consistent(p, out.solution)
    ensures out.Found? ==> Extends(out.solution, a[v := Some(w)])
    ensures out.Found? ==> forall u :: u in out.solution && u !in a[v := Some(w)] ==>
      u in d && out.solution[u].Some? && out.solution[u].value in d[u]
    ensures out.Raised? ==> !out.error.NoValuesLeft?
    ensures NodeConsistent(d) && LengthsFit(a) ==> out != Raised(IndexOutOfRange)
    ensures NodeConsistent(d) && LengthsFit(a) ==> LengthsFit(after)
    ensures NodeConsistent(d) && LengthsFit(a) && !Consistent(p, a[v := Some(w)]) ==>
      out == NotFound && after == a[v := None]
    ensures (NodeConsistent(d) && LengthsFit(a) && Consistent(p, a[v := Some(w)]) &&
             !AssignmentComplete(p, a[v := Some(w)]) && forall u :: u in d ==> u in a[v := Some(w)]) ==>
      out == Raised(NoUnassignedVariable)
    decreases d.Keys - (a.Keys + {v}), 1
  {
    var trial := a[v := Some(w)];
    if NodeConsistent(d) && LengthsFit(a) {
      TrialFits(d, a, v, w);
    }
    var check := CheckConsistent(p, trial);
    if check.None? {
      return Raised(IndexOutOfRange), trial;
    }
    if check.value {
      out, after := Backtrack(p, d, trial);
      if !out.NotFound? {
        return;
      }
    } else {
      after := trial;
    }
    return NotFound, after[v := None];
  }

  /** Once a failed trial has left a variable of the puzzle reset to `None`,
      no search below that assignment can report a solution: every frame only
      extends the assignment it is given, and the reset entry keeps every
      extension incomplete. */
  method SearchBelowReset(p: Crossword, d: Domains, a: Assignment, v: Variable)
    returns (out: SearchOutcome, after: Assignment)
    requires WellFormed(p)
    requires d.Keys == p.variables
    requires v in p.variables && v in a && a[v] == None
    ensures !out.Found?
    ensures v in after && after[v] == None
  {
    out, after := Backtrack(p, d, a);
    if out.Found? {
      ResetNeverCompletes(p, a, out.solution, v);
    }
  }

  /** Backtracking search with the undo step deleting the variable's entry, so
      that a failed trial leaves the assignment exactly as it found it. The
      ghost `known` names a solution the search is shown to find whenever it
      extends the starting assignment. */
  method BacktrackCorrected(p: Crossword, d: Domains, a: Assignment, ghost known: Assignment)
    returns (out: SearchOutcome, after: Assignment)
    requires WellFormed(p)
    requires d.Keys == p.variables
    ensures AssignmentComplete(p, a) ==> out == Found(a)
    ensures out.Found? ==> AssignmentComplete(p, out.solution) && Extends(out.solution, a)
    ensures out.Found? ==> out.solution == a || Consistent(p, out.solution)
    ensures out.Found? ==> forall v :: v in out.solution && v !in a ==>
      v in d && out.solution[v].Some? && out.solution[v].value in d[v]
    ensures out.NotFound? ==> after == a
    ensures out.Raised? ==> !out.error.NoValuesLeft?
    ensures NodeConsistent(d) && LengthsFit(a) ==> out != Raised(IndexOutOfRange)
    ensures !AssignmentComplete(p, a) && (forall v :: v in d ==> v in a) ==>
      out == Raised(NoUnassignedVariable)
    ensures NoResetEntries(a) ==> out != Raised(NoUnassignedVariable)
    ensures NodeConsistent(d) && NoResetEntries(a) && IsSolution(p, d, known) && Extends(known, a) ==>
      out.Found?
    decreases d.Keys - a.Keys, 0
  {
    if AssignmentComplete(p, a) {
      return Found(a), a;
    }
    var choice := SelectUnassignedVariable(d, a);
    if choice.None? {
      assert NoResetEntries(a) ==> AssignmentComplete(p, a);
      return Raised(NoUnassignedVariable), a;
    }
    var v := choice.value;
    var words := OrderDomainValues(p, d, v, a);
    out, after := TryWordsCorrected(p, d, a, v, words, known);
  }

  /** The loop of the corrected search. Under the completeness hypothesis the
      word the known solution gives `v` sits at some position of `words`, and
      the loop cannot get past it. */
  method TryWordsCorrected(p: Crossword, d: Domains, a: Assignment, v: Variable, words: seq<Word>,
                           ghost known: Assignment)
    returns (out: SearchOutcome, after: Assignment)
    requires WellFormed(p)
    requires d.Keys == p.variables
    requires v in d && v !in a
    requires forall w :: w in words <==> w in d[v]
    ensures out.Found? ==> AssignmentComplete(p, out.solution) && Consistent(p, out.solution)
    ensures out.Found? ==> Extends(out.solution, a)
    ensures out.Found? ==> forall u :: u in out.solution && u !in a ==>
      u in d && out.solution[u].Some? && out.solution[u].value in d[u]
    ensures out.NotFound? ==> after == a
    ensures out.Raised? ==> !out.error.NoValuesLeft?
    ensures NodeConsistent(d) && LengthsFit(a) ==> out != Raised(IndexOutOfRange)
    ensures NoResetEntries(a) ==> out != Raised(NoUnassignedVariable)
    ensures NodeConsistent(d) && NoResetEntries(a) && IsSolution(p, d, known) && Extends(known, a) ==>
      out.Found?
    decreases d.Keys - (a.Keys + {v}), 2
  {
    ghost var solvable := NodeConsistent(d) && NoResetEntries(a) &&
      IsSolution(p, d, known) && Extends(known, a);
    ghost var target := 0;
    if solvable {
      assert known[v].value in d[v];
      target :| 0 <= target < |words| && words[target] == known[v].value;
      ConsistentFits(p, known);
      assert LengthsFit(a);
    }
    var current := a;
    var k := 0;
    while k < |words|
      invariant 0 <= k <= |words|
      invariant current == a
      invariant solvable ==> k <= target < |words|
    {
      if solvable && k == target {
        assert Extends(known, current[v := Some(words[k])]);
      }
      var result, afterTry := TryWordCorrected(p, d, current, v, words[k], known);
      if !result.NotFound? {
        return result, afterTry;
      }
      current := afterTry;
      k := k + 1;
    }
    return NotFound, current;
  }

  /** One trial of the corrected search: a trial that does not produce a
      solution is undone by deleting `v`'s entry. */
  method TryWordCorrected(p: Crossword, d: Domains, a: Assignment, v: Variable, w: Word, ghost known: Assignment)
    returns (out: SearchOutcome, after: Assignment)
    requires WellFormed(p)
    requires d.Keys == p.variables
    requires v in d && v !in a
    ensures out.Found? ==> AssignmentComplete(p, out.solution) && Consistent(p, out.solution)
    ensures out.Found? ==> Extends(out.solution, a[v := Some(w)])
    ensures out.Found? ==> forall u :: u in out.solution && u !in a[v := Some(w)] ==>
      u in d && out.solution[u].Some? && out.solution[u].value in d[u]
    ensures out.NotFound? ==> after == a
    ensures out.Raised? ==> !out.error.NoValuesLeft?
    ensures NodeConsistent(d) && LengthsFit(a) && w in d[v] ==> out != Raised(IndexOutOfRange)
    ensures NoResetEntries(a) ==> out != Raised(NoUnassignedVariable)
    ensures NodeConsistent(d) && NoResetEntries(a) && IsSolution(p, d, known) && Extends(known, a[v := Some(w)]) ==>
      out.Found?
    decreases d.Keys - (a.Keys + {v}), 1
  {
    var trial := a[v := Some(w)];
    if NodeConsistent(d) && LengthsFit(a) && w in d[v] {
      TrialFits(d, a, v, w);
    }
    if NoResetEntries(a) {
      assert NoResetEntries(trial);
    }
    if IsSolution(p, d, known) && Extends(known, trial) {
      ConsistentRestricts(p, known, trial);
    }
    var check := CheckConsistent(p, trial);
    if check.None? {
      return Raised(IndexOutOfRange), trial;
    }
    if check.value {
      out, after := BacktrackCorrected(p, d, trial, known);
      if !out.NotFound? {
        return;
      }
    }
    assert trial - {v} == a;
    return NotFound, trial - {v};
  }

  /** A variable with no word of its length rules out every solution. */
  lemma NoFitNoSolution(p: Crossword, v: Variable, s: Assignment)
    requires v in p.variables && forall w :: w in p.words ==> |w| != v.length
    ensures !IsSolution(p, InitialDomains(p), s)
  {
    if AssignmentComplete(p, s) && Consistent(p, s) {
      assert EntryConsistent(p, s, v);
      assert |s[v].value| == v.length;
    }
  }

  /** A solution drawn from a store of subsets of the word list is a solution
      over the word list itself. */
  lemma SolutionWidens(p: Crossword, d: Domains, s: Assignment)
    requires d.Keys == p.variables && forall v :: v in d ==> d[v] <= p.words
    requires IsSolution(p, d, s)
    ensures IsSolution(p, InitialDomains(p), s)
  {
  }

  /** The propagation the solver runs before searching: node consistency on
      the initial store, which raises when some variable has no word of its
      length, then AC-3 over every crossing arc, whose verdict is discarded. */
  method Propagate(p: Crossword) returns (r: Result<Domains, Variable>)
    requires WellFormed(p)
    ensures r.Failure? <==> exists v :: v in p.variables && forall w :: w in p.words ==> |w| != v.length
    ensures r.Failure? ==> r.error in p.variables && forall w :: w in p.words ==> |w| != r.error.length
    ensures r.Failure? ==> forall s :: !IsSolution(p, InitialDomains(p), s)
    ensures r.Success? ==> r.value.Keys == p.variables && NodeConsistent(r.value)
    ensures r.Success? ==> forall v :: v in r.value ==> r.value[v] <= p.words
    ensures r.Success? ==> forall s :: IsSolution(p, InitialDomains(p), s) ==> IsSolution(p, r.value, s)
    ensures r.Success? && (exists v :: v in r.value && r.value[v] == {}) ==>
      forall s :: !IsSolution(p, InitialDomains(p), s)
    ensures (&& NodeConsistent(InitialDomains(p))
             && (forall x, y :: ArcConsistent(p, InitialDomains(p), x, y))
             && (p.variables != {} ==> p.words != {})) ==>
      r == Success(InitialDomains(p))
  {
    var initial := InitialDomains(p);
    var pruned := EnforceNodeConsistency(initial);
    if pruned.Failure? {
      forall s: Assignment ensures !IsSolution(p, initial, s) {
        NoFitNoSolution(p, pruned.error, s);
      }
      return Failure(pruned.error);
    }
    assert forall v :: v in p.variables ==> Fitting(p.words, v.length) != {};
    forall s | IsSolution(p, initial, s) ensures IsSolution(p, pruned.value, s) {
      ConsistentFits(p, s);
    }
    var _, revised := AC3(p, pruned.value, None);
    return Success(revised);
  }

  /** The solver as written: node consistency, then AC-3 over every crossing
      arc with its verdict discarded, then backtracking from the empty
      assignment. Also returns the domain store as solving leaves it. */
  method Solve(p: Crossword) returns (r: SolveOutcome, domains: Domains)
    requires WellFormed(p)
    ensures (r.SolveRaised? && r.error.NoValuesLeft?) <==>
      exists v :: v in p.variables && forall w :: w in p.words ==> |w| != v.length
    ensures r.SolveRaised? && r.error.NoValuesLeft? ==>
      r.error.variable in p.variables && forall w :: w in p.words ==> |w| != r.error.variable.length
    ensures r != SolveRaised(IndexOutOfRange)
    ensures !(r.SolveRaised? && r.error.NoValuesLeft?) ==>
      domains.Keys == p.variables && NodeConsistent(domains) &&
      forall v :: v in domains ==> domains[v] <= p.words
    ensures r.Solved? ==> IsSolution(p, domains, r.assignment)
    ensures !(r.SolveRaised? && r.error.NoValuesLeft?) && (exists v :: v in domains && domains[v] == {}) ==>
      r == NoSolution
  {
    var propagated := Propagate(p);
    if propagated.Failure? {
      return SolveRaised(NoValuesLeft(propagated.error)), InitialDomains(p);
    }
    domains := propagated.value;
    var result, _ := Backtrack(p, domains, map[]);
    EmptyConsistent(p);
    match result
    case Found(s) => r := Solved(s);
    case NotFound => r := NoSolution;
    case Raised(e) => r := SolveRaised(e);
  }

  /** The solver with the corrected search: whenever the puzzle has a solution
      over its word list, one is returned. */
  method SolveCorrected(p: Crossword) returns (r: SolveOutcome, domains: Domains)
    requires WellFormed(p)
    ensures (r.SolveRaised? && r.error.NoValuesLeft?) <==>
      exists v :: v in p.variables && forall w :: w in p.words ==> |w| != v.length
    ensures r.Solved? ==> IsSolution(p, domains, r.assignment)
    ensures r.Solved? ==> IsSolution(p, InitialDomains(p), r.assignment)
    ensures (exists s :: IsSolution(p, InitialDomains(p), s)) ==> r.Solved?
  {
    var propagated := Propagate(p);
    if propagated.Failure? {
      return SolveRaised(NoValuesLeft(propagated.error)), InitialDomains(p);
    }
    domains := propagated.value;
    ghost var solvable := exists s :: IsSolution(p, InitialDomains(p), s);
    ghost var known: Assignment := map[];
    if solvable {
      known :| IsSolution(p, InitialDomains(p), known);
      assert IsSolution(p, domains, known) && Extends(known, map[]);
    }
    var result, _ := BacktrackCorrected(p, domains, map[], known);
    assert solvable ==> result.Found?;
    EmptyConsistent(p);
    if result.Found? {
      SolutionWidens(p, domains, result.solution);
    }
    match result
    case Found(s) => r := Solved(s);
    case NotFound => r := NoSolution;
    case Raised(e) => r := SolveRaised(e);
  }
}
