/** One run of the matcher on an uploaded resume (lines 84-108): build the
    vocabulary, extract the resume's skills, match the selected role, and rank
    every role. The tokenizer's output is given as `tokens`. */
module Analysis {
  import opened Collections
  import opened Text
  import opened Catalog
  import opened Extraction
  import opened Scoring
  import opened Ranking

  datatype Report = Report(
    extracted: seq<string>,
    selected: MatchResult,
    ranked: seq<Ranked>,
    top: seq<Ranked>)

  /** The whole computation. Every extracted skill is a token of the resume
      and a lower-cased catalog skill, listed once; the ranking has one entry
      per role, highest score first; the top list is its first five entries
      (or all of them when there are fewer roles). */
  function Analyze(tokens: seq<string>, c: seq<Role>, selected: string): (a: Report)
    ensures Distinct(a.extracted)
    ensures forall x | x in a.extracted :: x in tokens && IsLowerCase(x) && IsLoweredSkill(c, x)
    ensures forall x | x in tokens && IsLoweredSkill(c, x) :: x in a.extracted
    ensures |a.ranked| == |c|
    ensures NonIncreasing(a.ranked)
    ensures multiset(a.ranked) == multiset(ScoreAll(a.extracted, c))
    ensures |a.top| == if |c| < MaxTop then |c| else MaxTop
    ensures a.top <= a.ranked
  {
    var extracted := ExtractSkills(tokens, Vocabulary(c));
    var ranked := SortByScore(ScoreAll(extracted, c));
    Report(extracted, MatchSelected(extracted, c, selected), ranked, TopRoles(ranked))
  }

  /** Whatever skills were extracted, the selected role's entry in the
      unsorted ranking carries the score shown for that role (lines 98 and 104
      compute it separately), and the same entry appears in the sorted
      ranking. */
  lemma SelectedScoreInRanking(extracted: seq<string>, c: seq<Role>, selected: string, k: nat)
    requires UniqueNames(c) && k < |c| && c[k].name == selected
    ensures ScoreAll(extracted, c)[k] == Ranked(selected, MatchSelected(extracted, c, selected).score)
    ensures Ranked(selected, MatchSelected(extracted, c, selected).score) in SortByScore(ScoreAll(extracted, c))
  {
    var unsorted := ScoreAll(extracted, c);
    assert c[k].skills == Lookup(c, selected).value;
    assert unsorted[k] in multiset(unsorted);
  }

  /** Whatever skills were extracted, two roles with equal scores appear in
      the ranking in catalog order. */
  lemma TiedRolesKeepCatalogOrder(extracted: seq<string>, c: seq<Role>, i: nat, j: nat)
    requires i < j < |c|
    ensures SortByScore(ScoreAll(extracted, c))[i].score == SortByScore(ScoreAll(extracted, c))[j].score ==>
              exists p, q | 0 <= p < q < |c| ::
                c[p].name == SortByScore(ScoreAll(extracted, c))[i].role &&
                c[q].name == SortByScore(ScoreAll(extracted, c))[j].role
  {
    var unsorted := ScoreAll(extracted, c);
    var ranked := SortByScore(unsorted);
    if ranked[i].score == ranked[j].score {
      SortKeepsTiedOrder(unsorted, i, j);
      var p, q :| 0 <= p < q < |unsorted| && unsorted[p] == ranked[i] && unsorted[q] == ranked[j];
      assert c[p].name == unsorted[p].role && c[q].name == unsorted[q].role;
    }
  }

  /** The top list is sorted, and no role left out of it outscores a role in it. */
  lemma TopRolesOutscoreTheRest(tokens: seq<string>, c: seq<Role>, selected: string)
    ensures NonIncreasing(Analyze(tokens, c, selected).top)
    ensures forall i, j | 0 <= i < |Analyze(tokens, c, selected).top| <= j < |c| ::
              Analyze(tokens, c, selected).top[i].score >= Analyze(tokens, c, selected).ranked[j].score
  {
  }

  /** A selected-role skill written with an upper-case letter in the catalog
      is always reported missing against lower-case extracted skills, which
      `Analyze` always produces: the vocabulary is lower-cased (line 86) but
      the intersection uses the raw catalog strings (line 95). */
  lemma UpperCaseSkillAlwaysMissing(extracted: seq<string>, c: seq<Role>, selected: string, s: string)
    requires forall x | x in extracted :: IsLowerCase(x)
    requires HasRole(c, selected)
    requires s in Lookup(c, selected).value && !IsLowerCase(s)
    ensures s in MatchSelected(extracted, c, selected).missing
    ensures s !in MatchSelected(extracted, c, selected).matched
  {
    assert s !in Elems(extracted);
    assert s in Elems(Lookup(c, selected).value);
  }

  /** For the same reason, no role holding such a skill ever scores 100
      against lower-case extracted skills, which `Analyze` always produces. */
  lemma UpperCaseSkillCapsScore(extracted: seq<string>, skills: seq<string>, s: string)
    requires forall x | x in extracted :: IsLowerCase(x)
    requires s in skills && !IsLowerCase(s)
    ensures RoleScore(extracted, skills) < 100
  {
    assert s in Elems(skills) && s !in Elems(extracted);
    RoleScoreFull(extracted, skills);
  }

  /** A resume with no tokens (a failed text extraction) scores 0 for every
      role, and the selected role matches nothing. */
  lemma EmptyResumeScoresZero(c: seq<Role>, selected: string)
    ensures Analyze([], c, selected).extracted == []
    ensures Analyze([], c, selected).selected.score == 0
    ensures Analyze([], c, selected).selected.matched == {}
    ensures forall i | 0 <= i < |c| :: Analyze([], c, selected).ranked[i].score == 0
  {
    var a := Analyze([], c, selected);
    assert forall x :: x !in a.extracted;
    assert Elems(a.extracted) == {};
    var unsorted := ScoreAll(a.extracted, c);
    forall i | 0 <= i < |c|
      ensures a.ranked[i].score == 0
    {
      assert a.ranked[i] in multiset(unsorted);
      var k :| 0 <= k < |unsorted| && unsorted[k] == a.ranked[i];
      assert Matched(a.extracted, c[k].skills) == {};
    }
  }

  /** The catalog of the worked example below. */
  function ExampleCatalog(): seq<Role> {
    [Role("A", ["x", "y"]), Role("B", ["x"])]
  }

  /** Only `x` is both a resume token and a catalog skill. */
  lemma ExampleExtraction()
    ensures ExtractSkills(["x"], Vocabulary(ExampleCatalog())) == ["x"]
  {
  }

  /** `A` has one of two skills matched, `B` its only one. */
  lemma ExampleScores()
    ensures ScoreAll(["x"], ExampleCatalog()) == [Ranked("A", 50), Ranked("B", 100)]
  {
    assert Elems(["x"]) == {"x"};
    assert Elems(["x", "y"]) == {"x", "y"};
    assert Matched(["x"], ["x", "y"]) == {"x"};
    assert Matched(["x"], ["x"]) == {"x"};
    assert Percent(1, 2) == 50;
    assert Percent(1, 1) == 100;
  }

  /** The higher score goes first. */
  lemma ExampleSort()
    ensures SortByScore([Ranked("A", 50), Ranked("B", 100)]) == [Ranked("B", 100), Ranked("A", 50)]
  {
  }

  /** `A` has `x` matched and `y` missing. */
  lemma ExampleMatch()
    ensures MatchSelected(["x"], ExampleCatalog(), "A") == MatchResult(50, {"x"}, {"y"})
  {
    assert Lookup(ExampleCatalog(), "A") == Some(["x", "y"]);
    assert Elems(["x"]) == {"x"};
    assert Elems(["x", "y"]) == {"x", "y"};
    assert Percent(1, 2) == 50;
  }

  /** Two roles, `A` needing `x` and `y` and `B` needing `x`, and a resume
      mentioning `x`: `B` scores 100 and ranks first, `A` scores 50 with `y`
      missing. */
  lemma TwoRoleExample()
    ensures var a := Analyze(["x"], ExampleCatalog(), "A");
            && a.ranked == [Ranked("B", 100), Ranked("A", 50)]
            && a.selected == MatchResult(50, {"x"}, {"y"})
  {
    ExampleExtraction();
    ExampleScores();
    ExampleSort();
    ExampleMatch();
  }
}
