/** How often a value occurs in a sequence. */
module Counting {

  function Count<T(==)>(s: seq<T>, x: T): nat {
    multiset(s)[x]
  }

  lemma CountConcat<T>(a: seq<T>, b: seq<T>, x: T)
    ensures Count(a + b, x) == Count(a, x) + Count(b, x)
    ensures Count<T>([], x) == 0
  {
  }
}
