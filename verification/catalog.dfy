/** The role catalog: the JSON object mapping each career role to its list of
    skills, kept in the dictionary's insertion order. Skill strings are kept
    exactly as written in the catalog (not lower-cased), duplicates included. */
module Catalog {
  import opened Text

  datatype Role = Role(name: string, skills: seq<string>)

  datatype Option<T> = None | Some(value: T)

  /** Dictionary keys are unique. */
  predicate UniqueNames(c: seq<Role>) {
    forall i, j | 0 <= i < j < |c| :: c[i].name != c[j].name
  }

  predicate HasRole(c: seq<Role>, name: string) {
    exists i | 0 <= i < |c| :: c[i].name == name
  }

  /** `career_skills[name]` guarded by `name in career_skills`. */
  function Lookup(c: seq<Role>, name: string): (r: Option<seq<string>>)
    ensures r.None? <==> !HasRole(c, name)
    ensures r.Some? ==> exists i | 0 <= i < |c| :: c[i] == Role(name, r.value)
    ensures r.Some? && UniqueNames(c) ==>
              forall i | 0 <= i < |c| && c[i].name == name :: c[i].skills == r.value
  {
    if c == [] then None
    else if c[0].name == name then Some(c[0].skills)
    else
      var r := Lookup(c[1..], name);
      assert HasRole(c, name) <==> HasRole(c[1..], name) by {
        if HasRole(c, name) {
          var i :| 0 <= i < |c| && c[i].name == name;
          assert c[1..][i - 1].name == name;
        }
        if HasRole(c[1..], name) {
          var i :| 0 <= i < |c[1..]| && c[1..][i].name == name;
          assert c[i + 1].name == name;
        }
      }
      r
  }

  /** Some skill of some role lower-cases to `x`. */
  ghost predicate IsLoweredSkill(c: seq<Role>, x: string) {
    exists i, j | 0 <= i < |c| && 0 <= j < |c[i].skills| :: Lower(c[i].skills[j]) == x
  }

  /** The lower-cased skills of one role. */
  function LowerAll(skills: seq<string>): set<string> {
    set s | s in skills :: Lower(s)
  }

  /** `all_skills_set`: the lower-cased union of every role's skills. It holds
      exactly the lower-cased catalog skills, so each of its members is
      lower-case. */
  function Vocabulary(c: seq<Role>): (v: set<string>)
    ensures forall x | x in v :: IsLowerCase(x)
    ensures forall x :: x in v <==> IsLoweredSkill(c, x)
  {
    if c == [] then {}
    else
      var v := LowerAll(c[0].skills) + Vocabulary(c[1..]);
      assert forall x :: x in v <==> IsLoweredSkill(c, x) by {
        forall x
          ensures x in v <==> IsLoweredSkill(c, x)
        {
          if x in LowerAll(c[0].skills) {
            var s :| s in c[0].skills && Lower(s) == x;
            var j :| 0 <= j < |c[0].skills| && c[0].skills[j] == s;
            assert Lower(c[0].skills[j]) == x;
          } else if x in Vocabulary(c[1..]) {
            var i, j :| 0 <= i < |c[1..]| && 0 <= j < |c[1..][i].skills| && Lower(c[1..][i].skills[j]) == x;
            assert Lower(c[i + 1].skills[j]) == x;
          }
          if IsLoweredSkill(c, x) {
            var i, j :| 0 <= i < |c| && 0 <= j < |c[i].skills| && Lower(c[i].skills[j]) == x;
            if i == 0 {
              assert c[0].skills[j] in c[0].skills;
            } else {
              assert Lower(c[1..][i - 1].skills[j]) == x;
              assert IsLoweredSkill(c[1..], x);
            }
          }
        }
      }
      v
  }
}
