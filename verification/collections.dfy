/** Generic facts about finite sets and maps used by several components. */
module Collections {

  /** No two distinct keys share a value. */
  ghost predicate Injective<K, V>(m: map<K, V>)
  {
    forall k, l :: k in m && l in m && k != l ==> m[k] != m[l]
  }

  /** A map has at most as many distinct values as keys, and exactly as many
      precisely when it is injective. This is what comparing the length of a
      list of the values with the size of the set of the values decides. */
  lemma {:induction false} ValuesCount<K, V>(m: map<K, V>)
    ensures |m.Values| <= |m|
    ensures |m.Values| == |m| <==> Injective(m)
    decreases |m|
  {
    if |m| == 0 {
      assert m.Values == {};
    } else {
      var k :| k in m;
      var m' := m - {k};
      assert m'.Keys == m.Keys - {k};
      assert |m'| == |m| - 1;
      ValuesCount(m');
      assert m.Values == m'.Values + {m[k]} by {
        forall x | x in m.Values ensures x in m'.Values + {m[k]} {
          var j :| j in m && m[j] == x;
          if j != k { assert j in m'; }
        }
      }
      if m[k] in m'.Values {
        var j :| j in m' && m'[j] == m[k];
        assert !Injective(m);
      } else {
        assert |m.Values| == |m'.Values| + 1;
        if Injective(m') {
          forall a, b | a in m && b in m && a != b ensures m[a] != m[b] {
            if a != k && b != k {
              assert m'[a] == m[a] && m'[b] == m[b];
            } else if a == k {
              assert m'[b] in m'.Values;
            } else {
              assert m'[a] in m'.Values;
            }
          }
        } else {
          var a, b :| a in m' && b in m' && a != b && m'[a] == m'[b];
          assert m[a] == m[b];
        }
      }
    }
  }

  /** Every non-empty finite set has an element on which `f` is least. */
  lemma {:induction false} LeastExists<T>(s: set<T>, f: T -> int)
    requires s != {}
    ensures exists x :: x in s && forall y :: y in s ==> f(x) <= f(y)
    decreases s
  {
    var x :| x in s;
    if s != {x} {
      LeastExists(s - {x}, f);
      var m :| m in s - {x} && forall y :: y in s - {x} ==> f(m) <= f(y);
      if f(x) < f(m) {
        assert forall y :: y in s ==> f(x) <= f(y);
      } else {
        assert forall y :: y in s ==> f(m) <= f(y);
      }
    }
  }

  /** Lists the elements of a finite set, each once, in non-decreasing order
      of `f`, by repeatedly taking an element on which `f` is least. */
  method SortByKey<T(==)>(s: set<T>, f: T -> int) returns (xs: seq<T>)
    ensures forall x :: x in xs <==> x in s
    ensures forall k, l :: 0 <= k < l < |xs| ==> xs[k] != xs[l]
    ensures forall k, l :: 0 <= k < l < |xs| ==> f(xs[k]) <= f(xs[l])
    ensures |xs| == |s|
  {
    xs := [];
    var rest := s;
    while rest != {}
      invariant rest <= s
      invariant |xs| + |rest| == |s|
      invariant forall x :: x in xs <==> x in s && x !in rest
      invariant forall k, l :: 0 <= k < l < |xs| ==> xs[k] != xs[l]
      invariant forall k, l :: 0 <= k < l < |xs| ==> f(xs[k]) <= f(xs[l])
      invariant forall k, y :: 0 <= k < |xs| && y in rest ==> f(xs[k]) <= f(y)
      decreases rest
    {
      LeastExists(rest, f);
      var x :| x in rest && forall y :: y in rest ==> f(x) <= f(y);
      xs := xs + [x];
      rest := rest - {x};
    }
  }

  /** An element of a non-empty set, the same one each time it is asked for, so
      that a sum over a set can peel off the element its definition chose. */
  ghost function Pick<T>(s: set<T>): (x: T)
    requires s != {}
    ensures x in s
  {
    var x :| x in s; x
  }
}
