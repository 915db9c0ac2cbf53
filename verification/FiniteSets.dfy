/** Choosing from a set that is not empty, for loops over the keys of a map. */
module FiniteSets {

  lemma SomeElement<T>(s: set<T>) returns (x: T)
    requires s != {}
    ensures x in s
  {
    x :| x in s;
  }
}
