/** What several modules share. */
module Common {

  datatype Option<+T> = None | Some(value: T)

  /** The path without its last component. */
  function Parent<T>(p: seq<T>): seq<T>
    requires p != []
  {
    p[..|p| - 1]
  }

  function Count<T(==)>(s: seq<T>, x: T): nat {
    multiset(s)[x]
  }

  lemma CountIn<T>(s: seq<T>, x: T)
    ensures Count(s, x) > 0 <==> x in s
  {
    assert x in multiset(s) <==> x in s;
  }

  lemma CountConcat<T>(a: seq<T>, b: seq<T>, x: T)
    ensures Count(a + b, x) == Count(a, x) + Count(b, x)
  {
  }
}
