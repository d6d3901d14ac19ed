/** Optional values. */
module Wrappers {
  datatype Option<T> = None | Some(value: T)

  /** A non-empty set of keys has a member (used to pick the next key of a map being walked). */
  lemma NonEmptyHasMember(s: set<int>)
    requires s != {}
    ensures exists x :: x in s
  {
    assert (forall x :: x !in s) ==> s == {};
  }
}
