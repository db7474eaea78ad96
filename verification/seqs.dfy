/** Predicates and facts about sequences that several modules share. */
module Seqs {

  /** No element occurs twice. */
  predicate Distinct<T(==)>(s: seq<T>) {
    forall i, j :: 0 <= i < j < |s| ==> s[i] != s[j]
  }

  /** Every string of the list has a first character. */
  predicate AllNonEmpty(names: seq<string>) {
    forall i :: 0 <= i < |names| ==> |names[i]| > 0
  }

  /** Concatenation is associative. */
  lemma Assoc<T>(x: seq<T>, y: seq<T>, z: seq<T>)
    ensures x + (y + z) == (x + y) + z
  {
  }

  lemma SplitLast<T>(s: seq<T>)
    requires |s| > 0
    ensures s == s[..|s| - 1] + [s[|s| - 1]]
  {
  }

  lemma SplitLastTwo<T>(s: seq<T>)
    requires |s| > 1
    ensures s == s[..|s| - 2] + ([s[|s| - 2]] + [s[|s| - 1]])
  {
    assert s[..|s| - 1] == s[..|s| - 2] + [s[|s| - 2]];
    SplitLast(s);
  }
}
