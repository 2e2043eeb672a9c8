/** `extract_skills`: keep the tokenizer's tokens that are known skills, once each.
    The tokenizer is outside the model; its output is taken as a given token
    sequence. */
module Extraction {
  import opened Collections

  /** The tokens that lie in `vocab`, each once, in the order of their first
      occurrence. (Python returns `list(skills)` of a set, whose order is
      unspecified; only its set of elements is used afterwards.) */
  function ExtractSkills(tokens: seq<string>, vocab: set<string>): (r: seq<string>)
    ensures Distinct(r)
    ensures forall x :: x in r <==> x in tokens && x in vocab
  {
    if tokens == [] then []
    else
      var prefix := tokens[..|tokens| - 1];
      var t := tokens[|tokens| - 1];
      assert tokens == prefix + [t];
      var found := ExtractSkills(prefix, vocab);
      if t in vocab && t !in found then found + [t] else found
  }
}
