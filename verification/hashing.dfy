/** What a hash function and a comparison owe to the tables that use them. */
module Hashing {
  /** A hash and a comparison are lawful when equal data are an equivalence and hash alike. */
  ghost predicate Lawful<D(!new)>(hash: D -> nat, same: (D, D) -> bool)
  {
    && (forall x :: same(x, x))
    && (forall x, y :: same(x, y) ==> same(y, x) && hash(x) == hash(y))
    && (forall x, y, z :: same(x, y) && same(y, z) ==> same(x, z))
  }

  lemma EqualAlike<D(!new)>(a: D, b: D, hash: D -> nat, same: (D, D) -> bool)
    requires Lawful(hash, same) && same(a, b)
    ensures forall x :: same(a, x) <==> same(b, x)
  {
  }
}
