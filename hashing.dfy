/** The hash function shared by both hash tables: a key's home slot in a
    table of `m` slots is `key % m`. Keys are non-negative, so Dafny's
    Euclidean `%` agrees with the truncating `%` of C++. */
module Hashing {

  function Home(key: int, m: int): (h: int)
    requires key >= 0 && m > 0
    ensures 0 <= h < m
    ensures key < m ==> h == key
  {
    key % m
  }
}
