/** Lines 101-108: score every role, sort the (role, score) list by score,
    highest first, with Python's stable sort, and keep the first five. */
module Ranking {
  import opened Catalog
  import opened Scoring

  /** One `(role, score)` pair of `all_scores`. */
  datatype Ranked = Ranked(role: string, score: nat)

  /** How many roles `top_roles` keeps. */
  const MaxTop: nat := 5

  /** `all_scores` before sorting: one entry per catalog role, in catalog
      order, carrying that role's score. */
  function ScoreAll(extracted: seq<string>, c: seq<Role>): (r: seq<Ranked>)
    ensures |r| == |c|
    ensures forall i | 0 <= i < |c| ::
              r[i].role == c[i].name && r[i].score == RoleScore(extracted, c[i].skills)
  {
    if c == [] then []
    else [Ranked(c[0].name, RoleScore(extracted, c[0].skills))] + ScoreAll(extracted, c[1..])
  }

  /** Scores never increase from left to right. */
  predicate NonIncreasing(s: seq<Ranked>) {
    forall i, j | 0 <= i < j < |s| :: s[i].score >= s[j].score
  }

  /** The entries of `s` whose score is `v`, in their order in `s`. A sort is
      stable exactly when it leaves each of these subsequences unchanged. */
  function WithScore(s: seq<Ranked>, v: nat): (r: seq<Ranked>)
    ensures |r| <= |s|
  {
    if s == [] then []
    else (if s[0].score == v then [s[0]] else []) + WithScore(s[1..], v)
  }

  /** `WithScore` keeps exactly the entries of score `v`. */
  lemma {:induction false} WithScoreMember(s: seq<Ranked>, v: nat, e: Ranked)
    ensures e in WithScore(s, v) <==> e in s && e.score == v
  {
    if s != [] {
      WithScoreMember(s[1..], v, e);
      assert s == [s[0]] + s[1..];
    }
  }

  /** Places `x` in front of the first entry with a score not above its own,
      that is after every entry with a higher score. */
  function Insert(x: Ranked, l: seq<Ranked>): (r: seq<Ranked>)
    requires NonIncreasing(l)
    ensures NonIncreasing(r)
    ensures multiset(r) == multiset(l) + multiset{x}
    ensures |r| > 0 && (r[0] == x || (|l| > 0 && r[0] == l[0]))
  {
    if l == [] || x.score >= l[0].score then
      [x] + l
    else
      var rest := Insert(x, l[1..]);
      assert l == [l[0]] + l[1..];
      [l[0]] + rest
  }

  /** Inserting `x` adds it in front of the equal-score entries of `l` and
      leaves every other equal-score subsequence alone. */
  lemma {:induction false} InsertWithScore(x: Ranked, l: seq<Ranked>, v: nat)
    requires NonIncreasing(l)
    ensures WithScore(Insert(x, l), v) == (if x.score == v then [x] else []) + WithScore(l, v)
  {
    var r := Insert(x, l);
    if l == [] || x.score >= l[0].score {
      assert r[1..] == l;
    } else {
      var rest := Insert(x, l[1..]);
      var tail := WithScore(l[1..], v);
      assert r == [l[0]] + rest && r[1..] == rest;
      InsertWithScore(x, l[1..], v);
      assert WithScore(l, v) == (if l[0].score == v then [l[0]] else []) + tail;
      if x.score == v {
        assert WithScore(r, v) == [] + WithScore(rest, v) == [x] + tail;
      } else {
        assert WithScore(rest, v) == tail;
      }
    }
  }

  /** `all_scores.sort(key=lambda x: x[1], reverse=True)`: an insertion sort
      that puts each entry before the equal-scored entries that follow it in
      the input. The result is a non-increasing permutation of the input in
      which entries of equal score keep their input order. */
  function SortByScore(s: seq<Ranked>): (r: seq<Ranked>)
    ensures |r| == |s|
    ensures NonIncreasing(r)
    ensures multiset(r) == multiset(s)
    ensures forall v :: WithScore(r, v) == WithScore(s, v)
  {
    if s == [] then []
    else
      var sorted := SortByScore(s[1..]);
      var r := Insert(s[0], sorted);
      assert s == [s[0]] + s[1..];
      assert |r| == |multiset(r)|;
      assert forall v :: WithScore(r, v) == WithScore(s, v) by {
        forall v
          ensures WithScore(r, v) == WithScore(s, v)
        {
          InsertWithScore(s[0], sorted, v);
        }
      }
      r
  }

  /** A non-increasing order that keeps every equal-score subsequence is
      unique: two such orders of the same entries coincide. */
  lemma {:induction false} StableOrderUnique(a: seq<Ranked>, b: seq<Ranked>)
    requires NonIncreasing(a) && NonIncreasing(b)
    requires forall v :: WithScore(a, v) == WithScore(b, v)
    ensures a == b
    decreases |a|
  {
    if a == [] {
      if b != [] {
        assert WithScore(a, b[0].score) == [];
        WithScoreMember(b, b[0].score, b[0]);
      }
    } else if b == [] {
      assert WithScore(b, a[0].score) == [];
      WithScoreMember(a, a[0].score, a[0]);
    } else {
      var m := a[0].score;
      assert b[0].score == m by {
        WithScoreMember(a, m, a[0]);
        WithScoreMember(b, m, a[0]);
        WithScoreMember(b, b[0].score, b[0]);
        WithScoreMember(a, b[0].score, b[0]);
      }
      assert WithScore(a, m) == [a[0]] + WithScore(a[1..], m);
      assert WithScore(b, m) == [b[0]] + WithScore(b[1..], m);
      assert a[0] == WithScore(a, m)[0] == WithScore(b, m)[0] == b[0];
      forall v
        ensures WithScore(a[1..], v) == WithScore(b[1..], v)
      {
        var head := if m == v then [a[0]] else [];
        assert WithScore(a, v) == head + WithScore(a[1..], v);
        assert WithScore(b, v) == head + WithScore(b[1..], v);
        assert WithScore(a[1..], v) == WithScore(a, v)[|head|..];
        assert WithScore(b[1..], v) == WithScore(b, v)[|head|..];
      }
      StableOrderUnique(a[1..], b[1..]);
      assert a == [a[0]] + a[1..] && b == [b[0]] + b[1..];
    }
  }

  /** `SortByScore` is characterised by its contract: a sequence is the sorted
      form of `s` exactly when it is non-increasing and keeps every
      equal-score subsequence of `s`. */
  lemma {:induction false} SortByScoreCharacterised(s: seq<Ranked>, r: seq<Ranked>)
    ensures r == SortByScore(s) ==>
              NonIncreasing(r) && forall v :: WithScore(r, v) == WithScore(s, v)
    ensures NonIncreasing(r) && (forall v :: WithScore(r, v) == WithScore(s, v)) ==>
              r == SortByScore(s)
  {
    var t := SortByScore(s);
    if NonIncreasing(r) && forall v :: WithScore(r, v) == WithScore(s, v) {
      forall v
        ensures WithScore(r, v) == WithScore(t, v)
      {
        assert WithScore(r, v) == WithScore(s, v);
      }
      StableOrderUnique(r, t);
    }
  }

  /** Two entries of score `v`, in order in `s`, appear in the same order in
      `WithScore(s, v)`. */
  lemma {:induction false} WithScoreKeepsOrder(s: seq<Ranked>, v: nat, i: nat, j: nat)
    requires i < j < |s| && s[i].score == v && s[j].score == v
    ensures exists p, q | 0 <= p < q < |WithScore(s, v)| ::
              WithScore(s, v)[p] == s[i] && WithScore(s, v)[q] == s[j]
  {
    var w := WithScore(s, v);
    var head := if s[0].score == v then [s[0]] else [];
    assert w == head + WithScore(s[1..], v);
    if i == 0 {
      assert s[j] == s[1..][j - 1];
      WithScoreMember(s[1..], v, s[j]);
      var q' :| 0 <= q' < |WithScore(s[1..], v)| && WithScore(s[1..], v)[q'] == s[j];
      assert w[0] == s[i] && w[q' + 1] == s[j];
    } else {
      WithScoreKeepsOrder(s[1..], v, i - 1, j - 1);
      var p', q' :| 0 <= p' < q' < |WithScore(s[1..], v)| &&
                    WithScore(s[1..], v)[p'] == s[1..][i - 1] && WithScore(s[1..], v)[q'] == s[1..][j - 1];
      assert w[|head| + p'] == s[i] && w[|head| + q'] == s[j];
    }
  }

  /** Conversely, two entries in order in `WithScore(s, v)` occur in that
      order in `s`. */
  lemma {:induction false} WithScoreFromOrder(s: seq<Ranked>, v: nat, p: nat, q: nat)
    requires p < q < |WithScore(s, v)|
    ensures exists i, j | 0 <= i < j < |s| ::
              s[i] == WithScore(s, v)[p] && s[j] == WithScore(s, v)[q]
  {
    var w := WithScore(s, v);
    var tail := WithScore(s[1..], v);
    if s[0].score == v {
      assert w == [s[0]] + tail;
      if p == 0 {
        assert w[q] == tail[q - 1] && w[q] in tail;
        WithScoreMember(s[1..], v, w[q]);
        var j' :| 0 <= j' < |s[1..]| && s[1..][j'] == w[q];
        assert s[0] == w[p] && s[j' + 1] == w[q];
      } else {
        WithScoreFromOrder(s[1..], v, p - 1, q - 1);
        var i', j' :| 0 <= i' < j' < |s[1..]| && s[1..][i'] == tail[p - 1] && s[1..][j'] == tail[q - 1];
        assert s[i' + 1] == w[p] && s[j' + 1] == w[q];
      }
    } else {
      assert w == tail;
      WithScoreFromOrder(s[1..], v, p, q);
      var i', j' :| 0 <= i' < j' < |s[1..]| && s[1..][i'] == tail[p] && s[1..][j'] == tail[q];
      assert s[i' + 1] == w[p] && s[j' + 1] == w[q];
    }
  }

  /** Stability of the sort: two entries of equal score in the sorted list
      occur in the same order in the unsorted list. */
  lemma SortKeepsTiedOrder(s: seq<Ranked>, i: nat, j: nat)
    requires i < j < |SortByScore(s)|
    requires SortByScore(s)[i].score == SortByScore(s)[j].score
    ensures exists p, q | 0 <= p < q < |s| :: s[p] == SortByScore(s)[i] && s[q] == SortByScore(s)[j]
  {
    var r := SortByScore(s);
    var v := r[i].score;
    WithScoreKeepsOrder(r, v, i, j);
    var p, q :| 0 <= p < q < |WithScore(r, v)| && WithScore(r, v)[p] == r[i] && WithScore(r, v)[q] == r[j];
    assert WithScore(r, v) == WithScore(s, v);
    WithScoreFromOrder(s, v, p, q);
  }

  /** `top_roles = all_scores[:5]`: the first `min(5, len)` entries. */
  function TopRoles(ranked: seq<Ranked>): (t: seq<Ranked>)
    ensures |t| == if |ranked| < MaxTop then |ranked| else MaxTop
    ensures t <= ranked
  {
    if |ranked| < MaxTop then ranked else ranked[..MaxTop]
  }

  /** Cutting a sorted list keeps it sorted, and every kept entry scores at
      least as high as every entry cut off. */
  lemma TopRolesAreBest(ranked: seq<Ranked>)
    requires NonIncreasing(ranked)
    ensures NonIncreasing(TopRoles(ranked))
    ensures forall i, j | 0 <= i < |TopRoles(ranked)| <= j < |ranked| ::
              TopRoles(ranked)[i].score >= ranked[j].score
  {
  }
}
