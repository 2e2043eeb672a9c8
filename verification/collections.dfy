/** Facts about turning sequences into sets, which is what Python's `set(list)` does
    everywhere in the matcher. */
module Collections {

  /** No element occurs twice. */
  predicate Distinct<T(==)>(s: seq<T>) {
    forall i, j | 0 <= i < j < |s| :: s[i] != s[j]
  }

  /** The set of elements of a sequence: Python's `set(s)`. Every position
      contributes its element, and nothing else is in the set. */
  function Elems<T(==)>(s: seq<T>): (r: set<T>)
    ensures forall i | 0 <= i < |s| :: s[i] in r
    ensures forall x | x in r :: exists i | 0 <= i < |s| :: s[i] == x
  {
    set x | x in s
  }

  /** A subset is never larger than its superset; a proper subset is strictly smaller. */
  lemma {:induction false} SubsetCard<T>(a: set<T>, b: set<T>)
    requires a <= b
    ensures |a| <= |b|
    ensures a < b ==> |a| < |b|
    decreases |b|
  {
    if b != {} {
      var x :| x in b;
      SubsetCard(a - {x}, b - {x});
      if x in a {
        assert a == (a - {x}) + {x};
      } else {
        assert a - {x} == a;
        assert b == (b - {x}) + {x};
      }
    }
  }

  /** `len(set(s)) <= len(s)`, with equality exactly when `s` has no duplicates. */
  lemma {:induction false} CardElems<T>(s: seq<T>)
    ensures |Elems(s)| <= |s|
    ensures |Elems(s)| == |s| <==> Distinct(s)
  {
    if |s| > 0 {
      var p, x := s[..|s| - 1], s[|s| - 1];
      assert s == p + [x];
      CardElems(p);
      assert Elems(s) == Elems(p) + {x};
      if x in p {
        assert Elems(s) == Elems(p);
        var k :| 0 <= k < |p| && p[k] == x;
        assert s[k] == s[|s| - 1];
        assert !Distinct(s);
      } else {
        assert |Elems(s)| == |Elems(p)| + 1;
        assert Distinct(s) <==> Distinct(p) by {
          if Distinct(p) {
            forall i, j | 0 <= i < j < |s|
              ensures s[i] != s[j]
            {
              if j == |s| - 1 {
                assert s[i] in p;
              } else {
                assert s[i] == p[i] && s[j] == p[j];
              }
            }
          }
          if Distinct(s) {
            forall i, j | 0 <= i < j < |p|
              ensures p[i] != p[j]
            {
              assert p[i] == s[i] && p[j] == s[j];
            }
          }
        }
      }
    }
  }
}
