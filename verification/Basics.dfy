/** Small facts about numbers and sequences. */
module Basics {
  function Min(a: nat, b: nat): nat { if a <= b then a else b }

  lemma CatAssoc<T>(a: seq<T>, b: seq<T>, c: seq<T>)
    ensures (a + b) + c == a + (b + c)
  {
  }
}
