/** A two-slot puzzle on which the search as written ends in an error although
    the puzzle has a solution, and on which the corrected search succeeds.

    Slot B runs across from the top-left corner and slot C runs down from B's
    second cell, so letter 1 of B's word is letter 0 of C's word. The word list
    is {"aa", "bc", "cb"}; {B: "bc", C: "cb"} solves the puzzle. Node and arc
    consistency remove nothing, and every word scores the same for B, so "aa"
    may be tried first. With B = "aa" every word for C conflicts ("aa" repeats
    B's word, the others start with a letter other than 'a'), and the search
    leaves C reset to `None`. Back in B's loop, B = "bc" is consistent with
    that assignment, the recursive call finds every slot a key of the
    assignment without it being complete, and taking the minimum of no
    candidates raises. */
module UndoExample {
  import opened Wrappers
  import opened Puzzle
  import opened ArcConsistency
  import opened Assignments
  import opened Heuristics
  import opened Search

  const B: Variable := Variable(0, 0, Across, 2)
  const C: Variable := Variable(0, 1, Down, 2)
  const Words: set<Word> := {"aa", "bc", "cb"}
  const P: Crossword := Crossword({B, C}, Words, map[(B, C) := Some((1, 0)), (C, B) := Some((0, 1))])

  lemma ExampleWellFormed()
    ensures WellFormed(P)
    ensures Neighbors(P, B) == {C} && Neighbors(P, C) == {B}
  {
    forall x, y | Overlap(P, x, y).Some? ensures OverlapFits(P, x, y) {
      assert (x, y) in P.overlaps;
      assert (x, y) == (B, C) || (x, y) == (C, B);
    }
    assert Overlap(P, C, B).Some? && Overlap(P, B, C).Some?;
  }

  /** The word list is already node consistent and arc consistent. */
  lemma ExampleSettled()
    ensures NodeConsistent(InitialDomains(P))
    ensures forall x, y :: ArcConsistent(P, InitialDomains(P), x, y)
  {
    var d := InitialDomains(P);
    assert d[B] == Words && d[C] == Words;
    forall x, y ensures ArcConsistent(P, d, x, y) {
      if (x, y) == (B, C) {
        assert Supported("aa", Words, 1, 0) && Supported("bc", Words, 1, 0) && Supported("cb", Words, 1, 0) by {
          assert "aa"[1] == "aa"[0] && "bc"[1] == "cb"[0] && "cb"[1] == "bc"[0];
        }
      } else if (x, y) == (C, B) {
        assert Supported("aa", Words, 0, 1) && Supported("bc", Words, 0, 1) && Supported("cb", Words, 0, 1) by {
          assert "aa"[0] == "aa"[1] && "bc"[0] == "cb"[1] && "cb"[0] == "bc"[1];
        }
      } else {
        assert (x, y) !in P.overlaps;
      }
    }
  }

  /** With B holding "aa", no word of the list fits C. */
  lemma FirstChoiceRejected()
    ensures forall w :: w in Words ==> !Consistent(P, map[B := Some("aa"), C := Some(w)])
  {
    ExampleWellFormed();
    forall w | w in Words ensures !Consistent(P, map[B := Some("aa"), C := Some(w)]) {
      var a := map[B := Some("aa"), C := Some(w)];
      if w == "aa" {
        assert a[B] == a[C];
      } else {
        assert C in Neighbors(P, B);
        assert w[0] != "aa"[1];
        assert !Agree(P, a, B, C);
      }
    }
  }

  lemma FirstChoiceFits()
    ensures LengthsFit(map[B := Some("aa")])
  {
  }

  /** With C reset to `None`, B = "bc" passes the consistency check. */
  lemma SecondChoiceConsistent()
    ensures Consistent(P, map[B := Some("bc"), C := None])
  {
    ExampleWellFormed();
    var a := map[B := Some("bc"), C := None];
    assert a.Keys == {B, C} && a[B] != a[C];
    assert EntryConsistent(P, a, B) && EntryConsistent(P, a, C);
  }

  /** From the empty assignment every word scores 1 for B (C holds every word),
      so the ordering leaves the first trial open and "aa" may come first. */
  lemma FirstOrderTies()
    ensures forall w :: w in Words ==> Score(P, InitialDomains(P), B, map[], w) == 1
  {
    ExampleWellFormed();
    var d := InitialDomains(P);
    var none: Assignment := map[];
    forall w | w in Words ensures Score(P, d, B, none, w) == 1 {
      assert (set n | n in Neighbors(P, B) && n !in none && n in d && w in d[n]) == {C};
    }
  }

  /** The puzzle is solvable over its word list. */
  lemma ExampleSolvable()
    ensures IsSolution(P, InitialDomains(P), map[B := Some("bc"), C := Some("cb")])
  {
    ExampleWellFormed();
    var s := map[B := Some("bc"), C := Some("cb")];
    assert Agree(P, s, B, C) && Agree(P, s, C, B);
    assert EntryConsistent(P, s, B) && EntryConsistent(P, s, C);
  }

  /** The run of the search as written described above, from the solver's
      domains: the failed descent below B = "aa" leaves C reset to `None`, and
      the search below B = "bc" then raises. */
  method ResetBlocksSearch() returns (out: SearchOutcome, after: Assignment)
    ensures out == Raised(NoUnassignedVariable)
  {
    ExampleWellFormed();
    ExampleSettled();
    var propagated := Propagate(P);
    var d := propagated.value;
    var left := FailedDescent(d);
    var reset := left[B := None];
    assert reset[B := Some("bc")] == map[B := Some("bc"), C := None];
    SecondChoiceConsistent();
    out, after := TryWord(P, d, reset, B, "bc");
  }

  /** The descent below B = "aa": the loop over C's words rejects each of them
      and leaves C reset to `None`. */
  method FailedDescent(d: Domains) returns (left: Assignment)
    requires d == InitialDomains(P)
    ensures left == map[B := Some("aa"), C := None]
  {
    ExampleWellFormed();
    ExampleSettled();
    var first := map[B := Some("aa")];
    var words := OrderDomainValues(P, d, C, first);
    assert "aa" in words;
    FirstChoiceRejected();
    FirstChoiceFits();
    var inner;
    inner, left := TryWords(P, d, first, C, words);
    assert words != [];
  }

  /** The corrected solver finds a solution of the same puzzle. */
  method CorrectedSolves() returns (r: SolveOutcome)
    ensures r.Solved?
    ensures IsSolution(P, InitialDomains(P), r.assignment)
  {
    ExampleWellFormed();
    ExampleSolvable();
    var domains;
    r, domains := SolveCorrected(P);
  }
}
