/** Node consistency: every domain is cut down to the words that fit its slot. */
module NodeConsistency {
  import opened Wrappers
  import opened Puzzle

  /** The words of `ws` that have length `n`. */
  function Fitting(ws: set<Word>, n: nat): set<Word>
  {
    set w | w in ws && |w| == n
  }

  /** The domain store after pruning every variable. */
  ghost function Pruned(d: Domains): Domains
  {
    map v | v in d :: Fitting(d[v], v.length)
  }

  /** Prunes each domain to the words of its variable's length, visiting the
      variables in an unspecified order as a dictionary walk does, and fails
      with the first variable met whose pruned domain is empty. The same
      procedure serves the solver's own domains and a domain map passed in. */
  method EnforceNodeConsistency(d: Domains) returns (r: Result<Domains, Variable>)
    ensures r.Success? <==> forall v :: v in d ==> Fitting(d[v], v.length) != {}
    ensures r.Success? ==> r.value == Pruned(d)
    ensures r.Success? ==> r.value.Keys == d.Keys && NodeConsistent(r.value)
    ensures r.Success? ==> forall v :: v in d ==> r.value[v] <= d[v]
    ensures r.Success? ==> forall v, w :: v in d && w in d[v] && |w| == v.length ==> w in r.value[v]
    ensures r.Failure? ==> r.error in d && forall w :: w in d[r.error] ==> |w| != r.error.length
    ensures NodeConsistent(d) && (forall v :: v in d ==> d[v] != {}) ==> r == Success(d)
  {
    var domains := d;
    var todo := d.Keys;
    while todo != {}
      invariant todo <= d.Keys
      invariant domains.Keys == d.Keys
      invariant forall v :: v in d && v !in todo ==> domains[v] == Fitting(d[v], v.length) && domains[v] != {}
      invariant forall v :: v in todo ==> domains[v] == d[v]
      decreases todo
    {
      var v :| v in todo;
      domains := domains[v := set w | w in domains[v] && |w| == v.length];
      if domains[v] == {} {
        assert forall w :: w in d[v] ==> |w| != v.length by {
          forall w | w in d[v] && |w| == v.length ensures w in domains[v] { }
        }
        return Failure(v);
      }
      todo := todo - {v};
    }
    assert domains == Pruned(d);
    if NodeConsistent(d) {
      forall v | v in d ensures domains[v] == d[v] {
        assert Fitting(d[v], v.length) == d[v];
      }
      assert domains == d;
    }
    return Success(domains);
  }

  /** Pruning keeps the keys, keeps only words of the right length, and never adds
      a word. */
  lemma PrunedShrinks(d: Domains)
    ensures Shrinks(d, Pruned(d))
    ensures NodeConsistent(Pruned(d))
  {
  }

  /** Pruning a pruned store changes nothing. */
  lemma PrunedIdempotent(d: Domains)
    ensures Pruned(Pruned(d)) == Pruned(d)
  {
    forall v | v in d
      ensures Fitting(Fitting(d[v], v.length), v.length) == Fitting(d[v], v.length)
    {
    }
  }
}
