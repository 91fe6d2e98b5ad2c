/** What several parts of the model share. */
module Common {
  const PAGE_SIZE := 4096

  datatype Option<T> = None | Some(value: T)

  predicate Distinct(s: seq<nat>)
  {
    forall i, j :: 0 <= i < j < |s| ==> s[i] != s[j]
  }

  /** The elements of a list that are in a set, in their order. */
  function Only(l: seq<nat>, keep: set<nat>): seq<nat>
  {
    if l == [] then [] else Only(l[..|l| - 1], keep) + (if l[|l| - 1] in keep then [l[|l| - 1]] else [])
  }
}
