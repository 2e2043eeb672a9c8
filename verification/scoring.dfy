/** The match score of one role and the matched/missing split for the selected
    role. Role skills are compared as written in the catalog; only the
    vocabulary is lower-cased. */
module Scoring {
  import opened Collections
  import opened Catalog

  /** `a <= b` scaled by a non-negative factor. */
  lemma MulLeft(a: int, b: int, n: nat)
    requires a <= b
    ensures a * n <= b * n
  {
  }

  /** Floor division is the only quotient `q` with `q * n <= a < (q + 1) * n`. */
  lemma FloorDiv(a: nat, n: nat, q: int)
    requires 0 < n && q * n <= a < (q + 1) * n
    ensures a / n == q
  {
    var d := a / n;
    assert d * n <= a < (d + 1) * n;
    if d < q {
      MulLeft(d + 1, q, n);
    } else if q < d {
      MulLeft(q + 1, d, n);
    }
  }

  /** A quotient is at most `b` when the dividend is at most `b` times the divisor. */
  lemma QuotientBound(a: nat, n: nat, b: nat)
    requires 0 < n && a <= b * n
    ensures a / n <= b
  {
  }

  /** `int(k / n * 100)` on exact integers: the largest whole percentage not
      above `k / n`. */
  function Percent(k: nat, n: nat): (p: nat)
    requires 0 < n
    ensures p * n <= 100 * k < (p + 1) * n
    ensures k <= n ==> p <= 100
    ensures k == 0 ==> p == 0
    ensures k == n ==> p == 100
  {
    var p := (100 * k) / n;
    assert p * n <= 100 * k < (p + 1) * n;
    if k == 0 then FloorDiv(0, n, 0); p
    else if k == n then FloorDiv(100 * n, n, 100); p
    else if k < n then QuotientBound(100 * k, n, 100); p
    else p
  }

  /** A larger matched count never gives a smaller percentage. */
  lemma PercentMonotone(k1: nat, k2: nat, n: nat)
    requires 0 < n && k1 <= k2
    ensures Percent(k1, n) <= Percent(k2, n)
  {
    var p1, p2 := Percent(k1, n), Percent(k2, n);
    if p1 > p2 {
      MulLeft(k1, k2, 100);
      MulLeft(p2 + 1, p1, n);
    }
  }

  /** The percentage reaches 100 exactly when every one of the `n` counted
      positions is matched. */
  lemma PercentFull(k: nat, n: nat)
    requires 0 < n && k <= n
    ensures Percent(k, n) == 100 <==> k == n
  {
  }

  /** `set(extracted).intersection(set(skills))`: the role's skills that were
      extracted. */
  function Matched(extracted: seq<string>, skills: seq<string>): (r: set<string>)
    ensures forall x :: x in r <==> x in extracted && x in skills
    ensures r <= Elems(skills) && r <= Elems(extracted)
  {
    Elems(extracted) * Elems(skills)
  }

  /** `set(skills).difference(set(extracted))`: the role's skills that were
      not extracted. */
  function Missing(extracted: seq<string>, skills: seq<string>): (r: set<string>)
    ensures forall x :: x in r <==> x in skills && x !in extracted
    ensures r <= Elems(skills) && r !! Elems(extracted)
  {
    Elems(skills) - Elems(extracted)
  }

  /** The matched count never exceeds the length of the role's skill list,
      duplicates included, which is what the score divides by. */
  lemma MatchedCardBound(extracted: seq<string>, skills: seq<string>)
    ensures |Matched(extracted, skills)| <= |Elems(skills)| <= |skills|
  {
    SubsetCard(Matched(extracted, skills), Elems(skills));
    CardElems(skills);
  }

  /** The score of one role in the ranking loop: 0 for an empty skill list,
      otherwise the matched count over the length of the skill list. */
  function RoleScore(extracted: seq<string>, skills: seq<string>): (score: nat)
    ensures score <= 100
    ensures |skills| == 0 ==> score == 0
    ensures Matched(extracted, skills) == {} ==> score == 0
  {
    if |skills| == 0 then 0
    else
      MatchedCardBound(extracted, skills);
      Percent(|Matched(extracted, skills)|, |skills|)
  }

  /** A role scores 100 exactly when its skill list is non-empty, has no
      duplicates and every one of its skills was extracted. */
  lemma RoleScoreFull(extracted: seq<string>, skills: seq<string>)
    ensures RoleScore(extracted, skills) == 100 <==>
              |skills| > 0 && Distinct(skills) && Elems(skills) <= Elems(extracted)
  {
    if |skills| > 0 {
      var m := Matched(extracted, skills);
      MatchedCardBound(extracted, skills);
      PercentFull(|m|, |skills|);
      CardElems(skills);
      if Elems(skills) <= Elems(extracted) {
        assert m == Elems(skills);
      } else {
        var x :| x in Elems(skills) && x !in Elems(extracted);
        assert m < Elems(skills) by {
          assert x !in m;
        }
        SubsetCard(m, Elems(skills));
      }
    }
  }

  /** Extracting more skills never lowers a role's score. */
  lemma RoleScoreMonotone(e1: seq<string>, e2: seq<string>, skills: seq<string>)
    requires Elems(e1) <= Elems(e2)
    ensures RoleScore(e1, skills) <= RoleScore(e2, skills)
  {
    if |skills| > 0 {
      SubsetCard(Matched(e1, skills), Matched(e2, skills));
      PercentMonotone(|Matched(e1, skills)|, |Matched(e2, skills)|, |skills|);
    }
  }

  /** The outcome shown for the selected role. */
  datatype MatchResult = MatchResult(score: nat, matched: set<string>, missing: set<string>)

  /** Lines 90-98: the score, matched and missing skills of the selected role.
      An absent role, or one with an empty skill list, yields score 0 and
      nothing matched or missing; otherwise matched and missing split the
      role's skills by whether they were extracted. */
  function MatchSelected(extracted: seq<string>, c: seq<Role>, selected: string): (m: MatchResult)
    ensures m.score <= 100
    ensures !HasRole(c, selected) ==> m == MatchResult(0, {}, {})
    ensures Lookup(c, selected) == Some([]) ==> m == MatchResult(0, {}, {})
    ensures HasRole(c, selected) ==>
              var skills := Lookup(c, selected).value;
              && m.matched + m.missing == Elems(skills)
              && m.matched !! m.missing
              && m.matched <= Elems(extracted)
              && m.missing !! Elems(extracted)
  {
    match Lookup(c, selected)
    case None => MatchResult(0, {}, {})
    case Some(skills) =>
      var matched := Matched(extracted, skills);
      var missing := Missing(extracted, skills);
      MatchedCardBound(extracted, skills);
      var score := if |skills| > 0 then Percent(|matched|, |skills|) else 0;
      MatchResult(score, matched, missing)
  }
}
