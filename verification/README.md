# Resume–job matcher: skill matching and role ranking

A Dafny model of the matching rule in the resume–job matcher `app.py`. A
resume's tokens are filtered against the skill vocabulary of a role catalog.
The selected role gets a percentage score and a matched/missing split. Every
role in the catalog is then scored the same way, ranked by score (highest
first, ties in catalog order) and cut to the top five.

The model follows the code as written:

- The catalog is a sequence of `Role(name, skills)` in dictionary insertion
  order. Skill strings are kept exactly as the catalog writes them, and a
  skill list may contain duplicates.
- Only the vocabulary (`all_skills_set`, line 86) is lower-cased. The
  intersections at lines 95 and 103 compare the extracted tokens with the raw
  catalog strings. So a catalog skill written with an upper-case letter is
  never matched (`Analysis.UpperCaseSkillAlwaysMissing`).
- A score divides the matched count (a set size) by the length of the skill
  list, duplicates included. It truncates rather than rounds.

Modules, one per concern of the source:

- `Collections`: `set(list)` as `Elems`, and cardinality facts.
- `Text`: lower-casing.
- `Catalog`: roles, `name in career_skills` / `career_skills[name]` as
  `Lookup`, and the vocabulary.
- `Extraction`: `extract_skills`.
- `Scoring`: the percentage, one role's score, and the selected role's
  match.
- `Ranking`: scoring every role, the stable descending sort, and the top-five
  cut.
- `Analysis`: one run of the whole computation, with end-to-end properties
  and a worked example.

Stability of the sort is stated as follows: for every score `v`, the entries
scoring `v` form the same subsequence before and after sorting.
`Ranking.StableOrderUnique` shows that this property, together with
non-increasing order, determines the result. So `SortByScore` is pinned down
by its contract (`Ranking.SortByScoreCharacterised`).

## Model

| member | source | states |
|---|---|---|
| `Text.Lower` | app.py:86 | `skill.lower()`: same length, each upper-case letter replaced by its lower-case partner and every other character kept, and the result holds no upper-case letter |
| `Text.LowerIdempotent` | app.py:86 | lower-casing a lower-cased skill changes nothing |
| `Catalog.Lookup` | app.py:94-96 | `career_option in career_skills` is false exactly when no role has that name; otherwise the result is the skill list of a role with that name, and the only such role's list when names are unique |
| `Catalog.Vocabulary` | app.py:86 | `all_skills_set` holds exactly the lower-cased skills of all roles, so every member is lower-case |
| `Extraction.ExtractSkills` | app.py:35-41 | the extracted list has no duplicates and holds exactly the tokens that are in the vocabulary |
| `Collections.Elems` | app.py:95-96 | `set(s)`: every element of the list is in the set, and every member of the set occurs in the list |
| `Scoring.Matched` | app.py:95 | `set(extracted_skills).intersection(set(skills))` holds exactly the skills that are both extracted and in the role's list (also line 103) |
| `Scoring.Missing` | app.py:96 | `set(skills).difference(set(extracted_skills))` holds exactly the role's skills that were not extracted, and is disjoint from the extracted skills |
| `Collections.CardElems` | app.py:98 | `len(set(s)) <= len(s)`, with equality exactly when `s` has no duplicates |
| `Scoring.Percent` | app.py:98 | the score is the largest whole percentage not above `k / n`; it lies in 0..100 when `k <= n`, is 0 for `k = 0` and 100 for `k = n` |
| `Scoring.PercentMonotone` | app.py:98 | a larger matched count never gives a smaller score |
| `Scoring.PercentFull` | app.py:98 | for `k <= n` the score is 100 exactly when `k = n` |
| `Scoring.MatchedCardBound` | app.py:95-98 | the matched count is at most the number of distinct skills, which is at most the length of the skill list |
| `Scoring.RoleScore` | app.py:103-104 | a role's score lies in 0..100, and is 0 when its skill list is empty or none of its skills were extracted |
| `Scoring.RoleScoreFull` | app.py:103-104 | a role scores 100 exactly when its skill list is non-empty, has no duplicates and every skill was extracted |
| `Scoring.RoleScoreMonotone` | app.py:103-104 | extracting more skills never lowers a role's score |
| `Scoring.MatchSelected` | app.py:90-98 | an absent role, or one with an empty skill list, gives score 0 and empty matched/missing; otherwise matched and missing are disjoint, together equal the set of the role's skills, matched lies within and missing outside the extracted skills; the score lies in 0..100 |
| `Ranking.ScoreAll` | app.py:101-105 | `all_scores` has one entry per catalog role, in catalog order, each carrying that role's score |
| `Ranking.Insert` | app.py:107 | inserting into a non-increasing list keeps it non-increasing and adds exactly the new entry |
| `Ranking.InsertWithScore` | app.py:107 | insertion puts the new entry before the equal-scored entries already present and leaves the other score groups unchanged |
| `Ranking.SortByScore` | app.py:107 | the sorted list is a permutation of the input, non-increasing in score, and keeps the input order among entries of each score |
| `Ranking.StableOrderUnique` | app.py:107 | two non-increasing lists with the same entries of every score, in the same order, are equal |
| `Ranking.SortByScoreCharacterised` | app.py:107 | a list is the sorted form of the input exactly when it is non-increasing and keeps the input's order within every score |
| `Ranking.SortKeepsTiedOrder` | app.py:107 | two equal-scored entries of the sorted list occur in the same order in the unsorted list |
| `Ranking.TopRoles` | app.py:108 | `all_scores[:5]` is a prefix of the ranking of length `min(5, number of roles)` |
| `Ranking.TopRolesAreBest` | app.py:108 | the cut of a sorted list is sorted, and every kept entry scores at least as high as every entry cut off |
| `Analysis.Analyze` | app.py:86-108 | the extracted skills are resume tokens and lower-cased catalog skills, once each, and every such token is extracted; the ranking has one entry per role, is non-increasing and is a permutation of the unsorted scores; the top list is its prefix of length `min(5, number of roles)` |
| `Analysis.SelectedScoreInRanking` | app.py:94-105 | for any extracted skills, the selected role's entry in `all_scores` carries the score computed separately for the selected role, and that entry is in the sorted ranking |
| `Analysis.TiedRolesKeepCatalogOrder` | app.py:101-107 | for any extracted skills, two roles with equal scores appear in the ranking in catalog order |
| `Analysis.TopRolesOutscoreTheRest` | app.py:107-108 | the top list is sorted, and no role left out of it scores higher than a role in it |
| `Analysis.UpperCaseSkillAlwaysMissing` | app.py:86-96 | against lower-case extracted skills (which `Analysis.Analyze` guarantees), a selected-role skill with an upper-case letter is always missing and never matched |
| `Analysis.UpperCaseSkillCapsScore` | app.py:86-104 | a role holding a skill with an upper-case letter scores below 100 against lower-case extracted skills |
| `Analysis.EmptyResumeScoresZero` | app.py:87-105 | a resume without tokens extracts nothing, matches nothing for the selected role, and scores 0 for the selected role and for every role in the ranking |
| `Analysis.TwoRoleExample` | app.py:86-107 | with roles A = [x, y] and B = [x] and a resume mentioning x, the ranking is [(B, 100), (A, 50)], and A has score 50, matched {x} and missing {y} |

## Left out

- Scoring.Percent: the source computes `int(k / n * 100)` in floating point; the model uses the exact integer floor `(100 * k) / n`. The two can differ by one when `100 * k / n` is a whole number and the float product lands just below it: `k = 29`, `n = 100` gives 28 in the source and 29 here. The floor characterisation in the contract holds only for the exact form. The bounds, the values at `k = 0` and `k = n`, and monotonicity in `k` (`Scoring.PercentMonotone`, `Scoring.PercentFull`) hold for both.
- Text.Lower: only the ASCII letters `A`–`Z` are lower-cased. Python's `str.lower` also maps the rest of Unicode, and can change a string's length (`İ`).
- Extraction.ExtractSkills: returns the skills in first-occurrence order. The source returns `list(set)`, whose order is unspecified. Only the set of extracted skills is used afterwards, so nothing depends on the order.
- Scoring.MatchSelected: matched and missing are sets. The source turns them into lists in unspecified order for display.
- The spaCy model and its tokenizer (lines 9-15, 36, 38) are an external NLP library. Its token texts are an input sequence of strings. Lower-casing the resume text before tokenizing (line 36) is part of that input.
- PDF text extraction with PyPDF2 (lines 27-32) is library file I/O.
- Loading the catalog from `known_skills.json` and caching it (lines 18-24) is file I/O. The catalog is an input.
- The Streamlit page, widgets, messages and download link (lines 77-84, 111-114, 126-131) are presentation. This includes the guard `if uploaded_resume and career_option` (line 84).
- The matplotlib chart (lines 117-124) is rendering.
- An empty catalog never reaches the analysis: with no role names the role selector (line 82) yields nothing and the guard at line 84 skips the block. The model still accepts an empty catalog and gives an empty ranking.
- Repeated role names: the catalog is a JSON object, so its role names are distinct keys. The model's sequence of roles can repeat a name, which is outside what the source receives; `Catalog.Lookup` then picks the first such role, and the ranking lists each one. The last clause of `Catalog.Lookup` and all of `Analysis.SelectedScoreInRanking` assume distinct names (`UniqueNames`).
- The FPDF report and its latin-1 encoding (lines 44-74) are rendering.
