/** A `BTreeMap` keyed by byte strings, as its entries in ascending key order. */
module SortedMap {
  import opened Wrappers
  import opened Bytes

  datatype Pair<V> = Pair(key: bytes, value: V)

  /** Rust's order on `[u8]`: lexicographic, a proper prefix first. */
  predicate Less(a: bytes, b: bytes) {
    b != [] && (a == [] || a[0] < b[0] || (a[0] == b[0] && Less(a[1..], b[1..])))
  }

  /** The order by first difference: `i` is where the texts part. */
  lemma {:induction false} LessAt(a: bytes, b: bytes, i: nat)
    requires i <= |a| && i <= |b| && a[..i] == b[..i]
    requires i == |a| || i == |b| || a[i] != b[i]
    ensures Less(a, b) <==> i < |b| && (i == |a| || a[i] < b[i])
    decreases i
  {
    if i > 0 {
      assert a[0] == a[..i][0] && b[0] == b[..i][0];
      assert a[1..][..i - 1] == a[..i][1..] && b[1..][..i - 1] == b[..i][1..];
      LessAt(a[1..], b[1..], i - 1);
    }
  }

  lemma {:induction false} LessTransitive(a: bytes, b: bytes, c: bytes)
    requires Less(a, b) && Less(b, c)
    ensures Less(a, c)
  {
    if a != [] && a[0] == b[0] == c[0] {
      LessTransitive(a[1..], b[1..], c[1..]);
    }
  }

  lemma {:induction false} LessTotal(a: bytes, b: bytes)
    ensures a == b || Less(a, b) || Less(b, a)
  {
    if a != [] && b != [] && a[0] == b[0] {
      LessTotal(a[1..], b[1..]);
      assert a == [a[0]] + a[1..] && b == [b[0]] + b[1..];
    }
  }

  lemma {:induction false} LessIrreflexive(a: bytes)
    ensures !Less(a, a)
  {
    if a != [] { LessIrreflexive(a[1..]); }
  }

  /** Strictly ascending keys. */
  ghost predicate Sorted<V>(m: seq<Pair<V>>) {
    forall i, j | 0 <= i < j < |m| :: Less(m[i].key, m[j].key)
  }

  /** `BTreeMap::get`. */
  function Lookup<V>(m: seq<Pair<V>>, key: bytes): Option<V> {
    if m == [] then None
    else if m[0].key == key then Some(m[0].value)
    else Lookup(m[1..], key)
  }

  /** `BTreeMap::insert`: the value at a present key is replaced. */
  function Insert<V>(m: seq<Pair<V>>, key: bytes, value: V): seq<Pair<V>> {
    if m == [] then [Pair(key, value)]
    else if m[0].key == key then [Pair(key, value)] + m[1..]
    else if Less(key, m[0].key) then [Pair(key, value)] + m
    else [m[0]] + Insert(m[1..], key, value)
  }

  /** Inserts a list of entries from left to right into an empty map. */
  function Build<V>(list: seq<Pair<V>>): seq<Pair<V>> {
    if list == [] then []
    else
      var last := list[|list| - 1];
      Insert(Build(list[..|list| - 1]), last.key, last.value)
  }

  lemma {:induction false} InsertKeys<V>(m: seq<Pair<V>>, key: bytes, value: V)
    ensures forall p :: p in Insert(m, key, value) ==> p in m || p == Pair(key, value)
  {
    if m != [] {
      assert m == [m[0]] + m[1..];
      InsertKeys(m[1..], key, value);
    }
  }

  lemma {:induction false} InsertSorted<V>(m: seq<Pair<V>>, key: bytes, value: V)
    requires Sorted(m)
    ensures Sorted(Insert(m, key, value))
  {
    if m != [] {
      assert forall j | 1 <= j < |m| :: Less(m[0].key, m[j].key);
      if Less(key, m[0].key) {
        forall j | 1 <= j < |m| ensures Less(key, m[j].key) { LessTransitive(key, m[0].key, m[j].key); }
      } else if m[0].key != key {
        LessTotal(key, m[0].key);
        InsertSorted(m[1..], key, value);
        InsertKeys(m[1..], key, value);
        var rest := Insert(m[1..], key, value);
        forall j | 0 <= j < |rest| ensures Less(m[0].key, rest[j].key) { assert rest[j] in rest; }
      }
    }
  }

  lemma {:induction false} LookupInsert<V>(m: seq<Pair<V>>, key: bytes, value: V, other: bytes)
    ensures Lookup(Insert(m, key, value), other) == if other == key then Some(value) else Lookup(m, other)
  {
    if m != [] && m[0].key != key && !Less(key, m[0].key) {
      LookupInsert(m[1..], key, value, other);
    }
  }

  /** A key above every present one goes last. */
  lemma {:induction false} InsertLast<V>(m: seq<Pair<V>>, key: bytes, value: V)
    requires forall i | 0 <= i < |m| :: Less(m[i].key, key)
    ensures Insert(m, key, value) == m + [Pair(key, value)]
  {
    if m != [] {
      assert Less(m[0].key, key);
      LessIrreflexive(key);
      if Less(key, m[0].key) { LessTransitive(key, m[0].key, key); }
      InsertLast(m[1..], key, value);
      assert m == [m[0]] + m[1..];
    }
  }

  lemma {:induction false} BuildSorted<V>(list: seq<Pair<V>>)
    ensures Sorted(Build(list))
    ensures forall p :: p in Build(list) ==> p in list
  {
    if list != [] {
      var init, last := list[..|list| - 1], list[|list| - 1];
      BuildSorted(init);
      InsertSorted(Build(init), last.key, last.value);
      InsertKeys(Build(init), last.key, last.value);
    }
  }

  /** Entries that already ascend are the map itself. */
  lemma {:induction false} BuildOfSorted<V>(list: seq<Pair<V>>)
    requires Sorted(list)
    ensures Build(list) == list
  {
    if list != [] {
      var init, last := list[..|list| - 1], list[|list| - 1];
      BuildOfSorted(init);
      InsertLast(init, last.key, last.value);
      assert list == init + [last];
    }
  }

  /** A left-to-right build keeps, for each key, the last value given to it. */
  lemma {:induction false} BuildKeepsLast<V>(list: seq<Pair<V>>, i: nat)
    requires i < |list|
    requires forall j | i < j < |list| :: list[j].key != list[i].key
    ensures Lookup(Build(list), list[i].key) == Some(list[i].value)
  {
    var init, last := list[..|list| - 1], list[|list| - 1];
    LookupInsert(Build(init), last.key, last.value, list[i].key);
    if i < |init| { BuildKeepsLast(init, i); }
  }

  lemma {:induction false} BuildAbsent<V>(list: seq<Pair<V>>, key: bytes)
    requires forall j | 0 <= j < |list| :: list[j].key != key
    ensures Lookup(Build(list), key) == None
  {
    if list != [] {
      var init, last := list[..|list| - 1], list[|list| - 1];
      BuildAbsent(init, key);
      LookupInsert(Build(init), last.key, last.value, key);
    }
  }

  /** Looking a key up finds the entry that holds it. */
  lemma {:induction false} LookupIff<V>(m: seq<Pair<V>>, key: bytes, value: V)
    requires Sorted(m)
    ensures Lookup(m, key) == Some(value) <==> Pair(key, value) in m
  {
    if m != [] {
      assert m == [m[0]] + m[1..];
      LookupIff(m[1..], key, value);
      if m[0].key == key && Pair(key, value) in m[1..] {
        var i :| 1 <= i < |m| && m[i] == Pair(key, value);
        assert Less(m[0].key, m[i].key);
        LessIrreflexive(key);
      }
    }
  }
}
