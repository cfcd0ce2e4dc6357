/** The seven piece kinds and the notion of a shuffled bag of them. */
module Kinds {

  /** The tetromino kinds. The source names them by the characters of "ILJOSZT". */
  datatype Kind = I | J | L | O | S | Z | T

  /** The bag template "ILJOSZT" (src/tetris.cpp:285), in the same order. */
  const AllKinds: seq<Kind> := [I, L, J, O, S, Z, T]

  /** What a shuffle of the template yields: some permutation of the seven kinds. */
  predicate IsShuffle(s: seq<Kind>) {
    multiset(s) == multiset(AllKinds)
  }

  /** A shuffled bag holds seven symbols and every kind exactly once. */
  lemma ShuffleHoldsEachKindOnce(s: seq<Kind>, k: Kind)
    requires IsShuffle(s)
    ensures |s| == 7
    ensures multiset(s)[k] == 1
  {
    assert |multiset(s)| == |multiset(AllKinds)|;
    assert multiset(AllKinds) == multiset{I, L, J, O, S, Z, T};
  }
}
