/**
 * The ordering relations the heap is parameterised by.
 *
 * A comparator `isBefore(queued, incoming)` answers "should `incoming` be
 * placed before `queued`?", which is the argument order the heap uses when it
 * calls its caller-supplied function.
 */
module Order {

  ghost predicate Irreflexive<T(!new)>(isBefore: (T, T) -> bool) {
    forall x :: !isBefore(x, x)
  }

  ghost predicate Transitive<T(!new)>(isBefore: (T, T) -> bool) {
    forall x, y, z :: isBefore(x, y) && isBefore(y, z) ==> isBefore(x, z)
  }

  /** "Not before" is transitive too: incomparability chains do not jump. */
  ghost predicate NegativelyTransitive<T(!new)>(isBefore: (T, T) -> bool) {
    forall x, y, z :: !isBefore(x, y) && !isBefore(y, z) ==> !isBefore(x, z)
  }

  /** The class of comparators the heap invariant is stated for (`<` and `>` on keys). */
  ghost predicate StrictWeakOrder<T(!new)>(isBefore: (T, T) -> bool) {
    && Irreflexive(isBefore)
    && Transitive(isBefore)
    && NegativelyTransitive(isBefore)
  }

  /** Comparing by an integer key with `>` is a strict weak order. */
  lemma GreaterKeyIsStrictWeakOrder<T(!new)>(key: T -> int, isBefore: (T, T) -> bool)
    requires forall x, y :: isBefore(x, y) == (key(x) > key(y))
    ensures StrictWeakOrder(isBefore)
  {
  }
}
