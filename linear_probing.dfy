/** A fixed-size hash table with open addressing and linear probing: a key
    goes into the first EMPTY slot of the probe sequence that starts at its
    home slot and wraps around the end of the table. */
module LinearProbing {
  import opened Hashing

  /** The sentinel of a slot that holds no key. */
  const EMPTY := -1

  /** The slot reached `d` steps after slot `h` on the probe sequence
      h, h+1, ..., m-1, 0, 1, ... of a table of `m` slots. */
  function Pos(h: int, d: int, m: int): (p: int)
    requires 0 <= h < m && 0 <= d < m
    ensures 0 <= p < m
  {
    if h + d < m then h + d else h + d - m
  }

  /** The number of probe steps from slot `h` to slot `j`. */
  function Dist(h: int, j: int, m: int): (d: int)
    requires 0 <= h < m && 0 <= j < m
    ensures 0 <= d < m && Pos(h, d, m) == j
    ensures forall e :: 0 <= e < m && Pos(h, e, m) == j ==> e == d
  {
    if h <= j then j - h else j - h + m
  }

  /** One step of the probe loop, `idx = (idx + 1) % m`, moves to the next
      position of the probe sequence, and back to `h` after `m` steps. */
  lemma Step(h: int, d: int, m: int)
    requires 0 <= h < m && 0 <= d < m
    ensures (Pos(h, d, m) + 1) % m == if d + 1 < m then Pos(h, d + 1, m) else h
  {
    var q := Pos(h, d, m) + 1;
    if q < m {
      assert Home(q, m) == q;
    } else {
      assert q == m;
      assert m % m == 0;
    }
  }

  /** Every slot holds EMPTY or a non-negative key. */
  ghost predicate WellFormed(s: seq<int>)
  {
    forall j :: 0 <= j < |s| ==> s[j] == EMPTY || s[j] >= 0
  }

  /** Every slot from `h` up to, but not including, `j` is occupied. */
  ghost predicate PathOccupied(s: seq<int>, h: int, j: int)
    requires 0 <= h < |s| && 0 <= j < |s|
  {
    forall d :: 0 <= d < Dist(h, j, |s|) ==> s[Pos(h, d, |s|)] != EMPTY
  }

  /** The probe-cluster invariant: every stored key can be reached from its
      home slot without crossing an EMPTY slot. */
  ghost predicate Clustered(s: seq<int>)
  {
    forall j :: 0 <= j < |s| && s[j] >= 0 ==> PathOccupied(s, Home(s[j], |s|), j)
  }

  /** The keys the slots hold, with multiplicity. */
  function Stored(s: seq<int>): (keys: multiset<int>)
    ensures forall x :: x != EMPTY ==> (x in keys <==> x in s)
    ensures EMPTY !in keys
  {
    multiset(s)[EMPTY := 0]
  }

  /** The number of probe steps from `h` to the first EMPTY slot. */
  function FirstEmpty(s: seq<int>, h: int): (d: int)
    requires 0 <= h < |s| && EMPTY in s
    ensures 0 <= d < |s| && s[Pos(h, d, |s|)] == EMPTY
    ensures forall e :: 0 <= e < d ==> s[Pos(h, e, |s|)] != EMPTY
  {
    FirstEmptyFrom(s, h, 0)
  }

  function FirstEmptyFrom(s: seq<int>, h: int, d: int): (r: int)
    requires 0 <= h < |s| && EMPTY in s && 0 <= d < |s|
    requires forall e :: 0 <= e < d ==> s[Pos(h, e, |s|)] != EMPTY
    ensures d <= r < |s| && s[Pos(h, r, |s|)] == EMPTY
    ensures forall e :: 0 <= e < r ==> s[Pos(h, e, |s|)] != EMPTY
    decreases |s| - d
  {
    if s[Pos(h, d, |s|)] == EMPTY then d
    else
      EmptyAhead(s, h, d + 1);
      FirstEmptyFrom(s, h, d + 1)
  }

  /** When the table has an EMPTY slot and the first `d` probes from `h`
      found none, fewer than `|s|` probes have been made. */
  lemma EmptyAhead(s: seq<int>, h: int, d: int)
    requires 0 <= h < |s| && EMPTY in s && 0 <= d <= |s|
    requires forall e :: 0 <= e < d ==> s[Pos(h, e, |s|)] != EMPTY
    ensures d < |s|
  {
    var j :| 0 <= j < |s| && s[j] == EMPTY;
    var k := Dist(h, j, |s|);
    assert s[Pos(h, k, |s|)] == EMPTY;
  }

  /** The slot that `insert(key)` writes. */
  function InsertSlot(s: seq<int>, key: int): (p: int)
    requires key >= 0 && EMPTY in s
    ensures 0 <= p < |s| && s[p] == EMPTY
  {
    var h := Home(key, |s|);
    Pos(h, FirstEmpty(s, h), |s|)
  }

  /** Writing a key into the slot `insert` chooses keeps the table well
      formed and clustered, and stores exactly one more copy of the key. */
  lemma InsertKeepsCluster(s: seq<int>, key: int)
    requires WellFormed(s) && Clustered(s) && key >= 0 && EMPTY in s
    ensures WellFormed(s[InsertSlot(s, key) := key])
    ensures Clustered(s[InsertSlot(s, key) := key])
    ensures Stored(s[InsertSlot(s, key) := key]) == Stored(s) + multiset{key}
  {
    var p := InsertSlot(s, key);
    var t := s[p := key];
    var h := Home(key, |s|);
    forall j | 0 <= j < |t| && t[j] >= 0
      ensures PathOccupied(t, Home(t[j], |t|), j)
    {
      if j == p {
        assert Dist(h, p, |s|) == FirstEmpty(s, h);
      } else {
        assert PathOccupied(s, Home(s[j], |s|), j);
      }
    }
    assert multiset(t) == multiset(s) - multiset{EMPTY} + multiset{key};
  }

  /** A search that reaches an EMPTY slot after `d` probes that did not hold
      the key may conclude that the key is absent. */
  lemma AbsentBeforeEmpty(s: seq<int>, key: int, d: int)
    requires WellFormed(s) && Clustered(s) && key >= 0 && 0 <= d < |s|
    requires s[Pos(Home(key, |s|), d, |s|)] == EMPTY
    requires forall e :: 0 <= e < d ==> s[Pos(Home(key, |s|), e, |s|)] != key
    ensures key !in s
  {
    var h := Home(key, |s|);
    forall j | 0 <= j < |s| ensures s[j] != key {
      assert s[j] == key ==> PathOccupied(s, h, j);
    }
  }

  /** A search that probed all `|s|` slots without meeting the key may
      conclude that the key is absent. */
  lemma AbsentAfterFullCycle(s: seq<int>, key: int)
    requires key >= 0 && |s| > 0
    requires forall e :: 0 <= e < |s| ==> s[Pos(Home(key, |s|), e, |s|)] != key
    ensures key !in s
  {
    var h := Home(key, |s|);
    forall j | 0 <= j < |s| ensures s[j] != key {
      var k := Dist(h, j, |s|);
      assert s[Pos(h, k, |s|)] != key;
    }
  }

  class HashTableLinear {
    const m: int
    var table: array<int>
    /** The keys inserted so far. */
    ghost var Inserted: multiset<int>

    ghost predicate Valid()
      reads this, table
    {
      table.Length == m &&
      WellFormed(table[..]) && Clustered(table[..]) &&
      Stored(table[..]) == Inserted
    }

    constructor (size: int)
      requires size >= 0
      ensures Valid() && fresh(table)
      ensures m == size && table[..] == seq(size, _ => EMPTY)
      ensures Inserted == multiset{}
    {
      m := size;
      table := new int[size](_ => EMPTY);
      Inserted := multiset{};
    }

    /** Puts `key` into the first EMPTY slot of its probe sequence. The
        source loops forever on a full table, so the table must have an
        EMPTY slot. */
    method Insert(key: int)
      requires Valid() && key >= 0 && EMPTY in table[..]
      modifies table, this`Inserted
      ensures Valid()
      ensures table[..] == old(table[..])[InsertSlot(old(table[..]), key) := key]
      ensures Inserted == old(Inserted) + multiset{key}
    {
      ghost var s := table[..];
      ghost var h := Home(key, m);
      ghost var d := 0;
      var idx := key % m;
      while table[idx] != EMPTY
        invariant table[..] == s && Inserted == old(Inserted)
        invariant 0 <= d <= FirstEmpty(s, h) && idx == Pos(h, d, m)
        decreases m - d
      {
        Step(h, d, m);
        idx := (idx + 1) % m;
        d := d + 1;
      }
      assert idx == InsertSlot(s, key);
      InsertKeepsCluster(s, key);
      table[idx] := key;
      Inserted := Inserted + multiset{key};
      assert table[..] == s[idx := key];
    }

    /** Looks for `key` along its probe sequence, stopping at the first
        EMPTY slot or after one full cycle. `probes` counts the slots read. */
    method Search(key: int) returns (found: bool, ghost probes: int)
      requires Valid() && key >= 0 && m > 0
      ensures found <==> key in Inserted
      ensures 1 <= probes <= m
      ensures forall e :: 0 <= e < probes - 1 ==>
                table[Pos(Home(key, m), e, m)] != EMPTY && table[Pos(Home(key, m), e, m)] != key
      ensures found ==> table[Pos(Home(key, m), probes - 1, m)] == key
      ensures !found ==> probes == m || table[Pos(Home(key, m), probes - 1, m)] == EMPTY
    {
      ghost var s := table[..];
      ghost var h := Home(key, m);
      ghost var d := 0;
      var idx := key % m;
      var start := idx;
      while table[idx] != EMPTY
        invariant 0 <= d < m && idx == Pos(h, d, m)
        invariant forall e :: 0 <= e < d ==> s[Pos(h, e, m)] != EMPTY && s[Pos(h, e, m)] != key
        decreases m - d
      {
        if table[idx] == key {
          assert s[idx] == key;
          found, probes := true, d + 1;
          return;
        }
        Step(h, d, m);
        idx := (idx + 1) % m;
        d := d + 1;
        if idx == start {
          assert Dist(h, h, m) == 0;
          AbsentAfterFullCycle(s, key);
          assert key !in Stored(s);
          found, probes := false, m;
          return;
        }
      }
      AbsentBeforeEmpty(s, key, d);
      assert key !in Stored(s);
      found, probes := false, d + 1;
    }
  }
}
