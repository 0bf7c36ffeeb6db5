/** A fixed-size hash table with separate chaining: `m` buckets, each a list
    of keys; a key is appended to the bucket of its home slot. */
module Chaining {
  import opened Hashing

  /** Every key sits in the bucket of its home slot. */
  ghost predicate Homed(b: seq<seq<int>>)
  {
    forall i, k :: 0 <= i < |b| && 0 <= k < |b[i]| ==> b[i][k] >= 0 && Home(b[i][k], |b|) == i
  }

  /** The keys the buckets hold, with multiplicity. */
  function AllKeys(b: seq<seq<int>>): multiset<int>
  {
    if b == [] then multiset{} else multiset(b[0]) + AllKeys(b[1..])
  }

  /** A key is held by the table exactly when some bucket holds it. */
  lemma {:induction false} InAllKeys(b: seq<seq<int>>, x: int)
    ensures x in AllKeys(b) <==> exists i :: 0 <= i < |b| && x in b[i]
  {
    if b != [] {
      InAllKeys(b[1..], x);
      if x in AllKeys(b[1..]) {
        var i :| 0 <= i < |b[1..]| && x in b[1..][i];
        assert x in b[i + 1];
      }
      if exists i :: 0 <= i < |b| && x in b[i] {
        var i :| 0 <= i < |b| && x in b[i];
        if i > 0 {
          assert x in b[1..][i - 1];
        }
      }
    }
  }

  /** Appending a key to one bucket adds exactly that key to the table. */
  lemma {:induction false} AllKeysAppend(b: seq<seq<int>>, i: int, key: int)
    requires 0 <= i < |b|
    ensures AllKeys(b[i := b[i] + [key]]) == AllKeys(b) + multiset{key}
  {
    var c := b[i := b[i] + [key]];
    if i == 0 {
      assert c[1..] == b[1..];
    } else {
      AllKeysAppend(b[1..], i - 1, key);
      assert c[1..] == b[1..][i - 1 := b[i] + [key]];
    }
  }

  class HashTableChaining {
    const m: int
    var table: array<seq<int>>
    /** The keys inserted so far. */
    ghost var Inserted: multiset<int>

    ghost predicate Valid()
      reads this, table
    {
      table.Length == m && Homed(table[..]) && AllKeys(table[..]) == Inserted
    }

    constructor (size: int)
      requires size >= 0
      ensures Valid() && fresh(table)
      ensures m == size && table[..] == seq(size, _ => [])
      ensures Inserted == multiset{}
    {
      m := size;
      table := new seq<int>[size](_ => []);
      Inserted := multiset{};
      new;
      EmptyBuckets(table[..]);
    }

    /** Appends `key` to the end of bucket `key % m`. */
    method Insert(key: int)
      requires Valid() && key >= 0 && m > 0
      modifies table, this`Inserted
      ensures Valid()
      ensures table[..] == old(table[..])[Home(key, m) := old(table[Home(key, m)]) + [key]]
      ensures Inserted == old(Inserted) + multiset{key}
    {
      ghost var b := table[..];
      assert Homed(b);
      var idx := key % m;
      AllKeysAppend(b, idx, key);
      table[idx] := table[idx] + [key];
      Inserted := Inserted + multiset{key};
      assert table[..] == b[idx := b[idx] + [key]];
      forall i, k | 0 <= i < m && 0 <= k < |table[i]|
        ensures table[i][k] >= 0 && Home(table[i][k], m) == i
      {
        if i != idx || k < |b[i]| {
          assert table[i][k] == b[i][k];
        }
      }
    }

    /** Scans bucket `key % m` for `key`. */
    method Search(key: int) returns (found: bool)
      requires Valid() && key >= 0 && m > 0
      ensures found <==> key in table[Home(key, m)]
      ensures found <==> key in Inserted
    {
      var idx := key % m;
      InAllKeys(table[..], key);
      var bucket := table[idx];
      for i := 0 to |bucket|
        invariant key !in bucket[..i]
      {
        if bucket[i] == key {
          return true;
        }
      }
      return false;
    }
  }

  lemma {:induction false} EmptyBuckets(b: seq<seq<int>>)
    requires forall i :: 0 <= i < |b| ==> b[i] == []
    ensures AllKeys(b) == multiset{}
  {
    if b != [] {
      EmptyBuckets(b[1..]);
    }
  }
}
