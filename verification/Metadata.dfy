/** Metadata as an ordered multimap: a key holds a list of instances, and most readers see only the first. */
module Metadata {
  import opened Wrappers

  // The order of keys.

  predicate Less(a: string, b: string) {
    if b == "" then false
    else if a == "" then true
    else if a[0] != b[0] then a[0] < b[0]
    else Less(a[1..], b[1..])
  }

  /** The strings agree up to position i, where a ends, or has the smaller character. */
  predicate SmallerAt(a: string, b: string, i: nat) {
    i <= |a| && i < |b| && a[..i] == b[..i] && (i == |a| || a[i] < b[i])
  }

  lemma SameStart(a: string, b: string, i: nat)
    ensures SmallerAt(a, b, i) && i > 0 ==> a != "" && b != "" && a[0] == b[0]
  {
    if SmallerAt(a, b, i) && i > 0 {
      assert a[0] == a[..i][0] && b[0] == b[..i][0];
    }
  }

  /** The order is lexicographic. */
  lemma {:induction false} LessIsLexicographic(a: string, b: string)
    ensures Less(a, b) <==> exists i: nat :: SmallerAt(a, b, i)
  {
    if a == "" || b == "" || a[0] != b[0] {
      if Less(a, b) {
        assert SmallerAt(a, b, 0);
      }
      if i: nat :| SmallerAt(a, b, i) {
        SameStart(a, b, i);
      }
    } else {
      LessIsLexicographic(a[1..], b[1..]);
      if i: nat :| SmallerAt(a[1..], b[1..], i) {
        assert a[..i + 1] == [a[0]] + a[1..][..i] && b[..i + 1] == [b[0]] + b[1..][..i];
        assert SmallerAt(a, b, i + 1);
      }
      if i: nat :| SmallerAt(a, b, i) {
        assert i > 0;
        assert a[1..][..i - 1] == a[..i][1..] && b[1..][..i - 1] == b[..i][1..];
        assert SmallerAt(a[1..], b[1..], i - 1);
      }
    }
  }

  lemma {:induction false} LessTrans(a: string, b: string, c: string)
    requires Less(a, b) && Less(b, c)
    ensures Less(a, c)
  {
    if a != "" && a[0] == b[0] && b[0] == c[0] {
      LessTrans(a[1..], b[1..], c[1..]);
    }
  }

  lemma {:induction false} LessTotal(a: string, b: string)
    ensures !Less(a, a)
    ensures a == b || Less(a, b) || Less(b, a)
    ensures !(Less(a, b) && Less(b, a))
  {
    if a != "" {
      LessTotal(a[1..], if b == "" then "" else b[1..]);
      if b != "" && a[0] == b[0] && a[1..] == b[1..] {
        assert a == [a[0]] + a[1..] && b == [b[0]] + b[1..];
      }
    }
  }

  /** Sorted by key, no key twice. */
  ghost predicate Ascending<T>(key: T -> string, s: seq<T>) {
    forall i, j | 0 <= i < j < |s| :: Less(key(s[i]), key(s[j]))
  }

  function Insert<T>(key: T -> string, sorted: seq<T>, x: T): seq<T> {
    if sorted == [] then [x]
    else if Less(key(x), key(sorted[0])) then [x] + sorted
    else [sorted[0]] + Insert(key, sorted[1..], x)
  }

  function Sort<T>(key: T -> string, s: seq<T>): seq<T> {
    if s == [] then [] else Insert(key, Sort(key, s[..|s| - 1]), s[|s| - 1])
  }

  lemma {:induction false} InsertHolds<T>(key: T -> string, sorted: seq<T>, x: T, y: T)
    ensures y in Insert(key, sorted, x) <==> y == x || y in sorted
  {
    if sorted != [] && !Less(key(x), key(sorted[0])) {
      InsertHolds(key, sorted[1..], x, y);
      assert sorted == [sorted[0]] + sorted[1..];
    }
  }

  lemma {:induction false} InsertAscends<T>(key: T -> string, sorted: seq<T>, x: T)
    requires Ascending(key, sorted)
    requires forall i | 0 <= i < |sorted| :: key(sorted[i]) != key(x)
    ensures Ascending(key, Insert(key, sorted, x))
  {
    if sorted != [] {
      var head, rest := sorted[0], sorted[1..];
      LessTotal(key(x), key(head));
      if Less(key(x), key(head)) {
        forall i | 0 < i < |sorted| ensures Less(key(x), key(sorted[i])) {
          LessTrans(key(x), key(head), key(sorted[i]));
        }
      } else {
        InsertAscends(key, rest, x);
        var inserted := Insert(key, rest, x);
        forall i | 0 <= i < |inserted| ensures Less(key(head), key(inserted[i])) {
          InsertHolds(key, rest, x, inserted[i]);
          if inserted[i] != x {
            var j :| 0 <= j < |rest| && rest[j] == inserted[i];
            assert sorted[j + 1] == rest[j];
          }
        }
      }
    }
  }

  /** No two elements have the same key. */
  ghost predicate Distinct<T>(key: T -> string, s: seq<T>) {
    forall i, j | 0 <= i < j < |s| :: key(s[i]) != key(s[j])
  }

  lemma {:induction false} SortHolds<T>(key: T -> string, s: seq<T>, y: T)
    ensures y in Sort(key, s) <==> y in s
  {
    if s != [] {
      SortHolds(key, s[..|s| - 1], y);
      InsertHolds(key, Sort(key, s[..|s| - 1]), s[|s| - 1], y);
      assert s == s[..|s| - 1] + [s[|s| - 1]];
    }
  }

  lemma {:induction false} SortAscends<T>(key: T -> string, s: seq<T>)
    requires Distinct(key, s)
    ensures Ascending(key, Sort(key, s))
  {
    if s != [] {
      var front, last := s[..|s| - 1], s[|s| - 1];
      SortAscends(key, front);
      var sorted := Sort(key, front);
      forall i | 0 <= i < |sorted| ensures key(sorted[i]) != key(last) {
        SortHolds(key, front, sorted[i]);
        var j :| 0 <= j < |front| && front[j] == sorted[i];
        assert s[j] == front[j];
      }
      InsertAscends(key, sorted, last);
    }
  }

  ghost predicate Within<T>(a: seq<T>, b: seq<T>) {
    forall i | 0 <= i < |a| :: a[i] in b
  }

  lemma WithinNonempty<T>(a: seq<T>, b: seq<T>)
    requires a != [] && Within(a, b)
    ensures b != []
  {
    assert a[0] in b;
  }

  /** A sorted list without repeated keys is determined by its elements. */
  lemma {:induction false} AscendingUnique<T>(key: T -> string, a: seq<T>, b: seq<T>)
    requires Ascending(key, a) && Ascending(key, b) && Within(a, b) && Within(b, a)
    ensures a == b
  {
    if b != [] {
      WithinNonempty(b, a);
    }
    if a != [] {
      WithinNonempty(a, b);
      FirstIsLeast(key, a, b);
      RestWithin(key, a, b);
      RestWithin(key, b, a);
      AscendingUnique(key, a[1..], b[1..]);
      assert a == [a[0]] + a[1..] && b == [b[0]] + b[1..];
    }
  }

  lemma RestWithin<T>(key: T -> string, a: seq<T>, b: seq<T>)
    requires a != [] && b != [] && Ascending(key, a) && Within(a, b) && a[0] == b[0]
    ensures Within(a[1..], b[1..])
  {
    forall i | 0 <= i < |a| - 1 ensures a[1..][i] in b[1..] {
      InRest(key, a, b, i + 1);
    }
  }

  lemma FirstIsLeast<T>(key: T -> string, a: seq<T>, b: seq<T>)
    requires a != [] && b != [] && Ascending(key, a) && Ascending(key, b)
    requires Within(a, b) && Within(b, a)
    ensures a[0] == b[0]
  {
    assert a[0] in b && b[0] in a;
    var i :| 0 <= i < |b| && b[i] == a[0];
    var j :| 0 <= j < |a| && a[j] == b[0];
    LessTotal(key(a[0]), key(b[0]));
  }

  lemma InRest<T>(key: T -> string, a: seq<T>, b: seq<T>, i: nat)
    requires 0 < i < |a| && Ascending(key, a) && b != [] && a[0] == b[0] && a[i] in b
    ensures a[i] in b[1..]
  {
    LessTotal(key(a[0]), key(a[i]));
    var j :| 0 <= j < |b| && b[j] == a[i];
    assert j > 0;
    assert b[1..][j - 1] == a[i];
  }

  // Another provider, read through its interface.

  datatype Provider<!V> = Provider(keys: seq<string>, getAll: string -> seq<V>)

  type Slots<V> = map<string, seq<V>>

  /** No key holds an empty list. */
  ghost predicate WellFormed<V>(data: Slots<V>) {
    forall k | k in data :: data[k] != []
  }

  function GetAll<V>(data: Slots<V>, key: string): seq<V> {
    if key in data then data[key] else []
  }

  function GetValue<V>(data: Slots<V>, key: string): Option<V> {
    if key in data && data[key] != [] then Some(data[key][0]) else None
  }

  /** Every instance of every key of the source, in order. */
  ghost function Copied<V>(source: Provider<V>): Slots<V> {
    map k | k in source.keys && source.getAll(k) != [] :: source.getAll(k)
  }

  ghost function Replaced<V>(data: Slots<V>, entries: map<string, V>): Slots<V> {
    data + map k | k in entries :: [entries[k]]
  }

  /** The same with the remaining keys not yet replaced. */
  ghost function Partly<V>(data: Slots<V>, entries: map<string, V>, remaining: set<string>): Slots<V> {
    data + map k | k in entries && k !in remaining :: [entries[k]]
  }

  lemma PartlyNext<V>(data: Slots<V>, entries: map<string, V>, remaining: set<string>, key: string)
    requires key in entries && key in remaining
    ensures Partly(data, entries, remaining - {key}) == Partly(data, entries, remaining)[key := [entries[key]]]
    ensures GetAll(Partly(data, entries, remaining), key) == GetAll(data, key)
  {
  }

  lemma PartlyDone<V>(data: Slots<V>, entries: map<string, V>)
    ensures Partly(data, entries, entries.Keys) == data
    ensures Partly(data, entries, {}) == Replaced(data, entries)
    ensures WellFormed(data) ==> WellFormed(Replaced(data, entries))
  {
    assert Partly(data, entries, entries.Keys).Keys == data.Keys;
  }

  /** The keys of an update that held more than one instance, with the number, sorted. */
  ghost predicate Narrowed<V>(data: Slots<V>, entries: map<string, V>, list: seq<(string, nat)>) {
    && Ascending(PairKey, list)
    && forall k: string, n: nat :: (k, n) in list <==> k in entries && k in data && n == |data[k]| && n > 1
  }

  function PairKey(p: (string, nat)): string { p.0 }

  /** What an update has found once only the remaining keys are left. */
  ghost predicate Found<V>(data: Slots<V>, entries: map<string, V>, remaining: set<string>, found: seq<(string, nat)>) {
    && Distinct(PairKey, found)
    && forall k: string, n: nat ::
         (k, n) in found <==> k in entries && k !in remaining && k in data && n == |data[k]| && n > 1
  }

  lemma FindOne<V>(data: Slots<V>, entries: map<string, V>, remaining: set<string>, found: seq<(string, nat)>, key: string)
    requires key in remaining && key in entries && Found(data, entries, remaining, found)
    ensures var n := |GetAll(data, key)|;
            Found(data, entries, remaining - {key}, if n > 1 then found + [(key, n)] else found)
  {
    var n := |GetAll(data, key)|;
    var after := if n > 1 then found + [(key, n)] else found;
    forall i | 0 <= i < |found| ensures PairKey(found[i]) != key {
      assert (found[i].0, found[i].1) in found;
    }
    forall k: string, m: nat
      ensures (k, m) in after <==> k in entries && k !in remaining - {key} && k in data && m == |data[k]| && m > 1
    {
      assert (k, m) in after <==> (k, m) in found || (n > 1 && (k, m) == (key, n));
    }
  }

  lemma FoundIsNarrowed<V>(data: Slots<V>, entries: map<string, V>, found: seq<(string, nat)>)
    requires Found(data, entries, {}, found)
    ensures Narrowed(data, entries, Sort(PairKey, found))
  {
    SortAscends(PairKey, found);
    forall k: string, n: nat ensures (k, n) in Sort(PairKey, found) <==> (k, n) in found {
      SortHolds(PairKey, found, (k, n));
    }
  }

  /** So an update has one answer, whatever order its entries are taken in. */
  lemma NarrowedUnique<V>(data: Slots<V>, entries: map<string, V>, a: seq<(string, nat)>, b: seq<(string, nat)>)
    requires Narrowed(data, entries, a) && Narrowed(data, entries, b)
    ensures a == b
  {
    forall i | 0 <= i < |a| ensures a[i] in b {
      assert (a[i].0, a[i].1) in a;
    }
    forall i | 0 <= i < |b| ensures b[i] in a {
      assert (b[i].0, b[i].1) in b;
    }
    AscendingUnique(PairKey, a, b);
  }

  class BufferedMetadataProvider<V> {
    var data: map<string, seq<V>>

    ghost predicate Valid()
      reads this
    {
      WellFormed(data)
    }

    constructor ()
      ensures Valid() && data == map[]
    {
      data := map[];
    }

    constructor FromProvider(source: Provider<V>)
      ensures Valid() && data == Copied(source)
      ensures forall k :: GetAll(data, k) == if k in source.keys then source.getAll(k) else []
    {
      data := map[];
      new;
      for i := 0 to |source.keys|
        invariant data == map k | k in source.keys[..i] && source.getAll(k) != [] :: source.getAll(k)
      {
        var instances := source.getAll(source.keys[i]);
        assert source.keys[..i + 1] == source.keys[..i] + [source.keys[i]];
        if instances != [] {
          data := data[source.keys[i] := instances];
        }
      }
      assert source.keys[..|source.keys|] == source.keys;
    }

    method SetAll(key: string, instances: seq<V>) returns (previous: nat)
      requires Valid()
      modifies this
      ensures Valid() && previous == |GetAll(old(data), key)|
      ensures GetAll(data, key) == instances
      ensures forall k | k != key :: (k in data <==> k in old(data)) && GetAll(data, k) == GetAll(old(data), k)
    {
      previous := |GetAll(data, key)|;
      data := if instances == [] then data - {key} else data[key := instances];
    }

    method Set(key: string, value: V) returns (previous: nat)
      requires Valid()
      modifies this
      ensures Valid() && previous == |GetAll(old(data), key)|
      ensures GetAll(data, key) == [value]
      ensures forall k | k != key :: (k in data <==> k in old(data)) && GetAll(data, k) == GetAll(old(data), k)
    {
      previous := SetAll(key, [value]);
    }

    method Append(key: string, instance: V) returns (count: nat)
      requires Valid()
      modifies this
      ensures Valid() && count == |GetAll(data, key)|
      ensures GetAll(data, key) == GetAll(old(data), key) + [instance]
      ensures forall k | k != key :: (k in data <==> k in old(data)) && GetAll(data, k) == GetAll(old(data), k)
    {
      data := data[key := GetAll(data, key) + [instance]];
      count := |data[key]|;
    }

    method Remove(key: string) returns (first: Option<V>)
      requires Valid()
      modifies this
      ensures Valid() && first == GetValue(old(data), key)
      ensures GetAll(data, key) == []
      ensures forall k | k != key :: (k in data <==> k in old(data)) && GetAll(data, k) == GetAll(old(data), k)
    {
      first := GetValue(data, key);
      data := data - {key};
    }

    /** Entries are taken in an arbitrary order; neither the new state nor the result depends on it. */
    method Update(entries: map<string, V>) returns (narrowed: seq<(string, nat)>)
      requires Valid()
      modifies this
      ensures Valid() && data == Replaced(old(data), entries)
      ensures Narrowed(old(data), entries, narrowed)
      ensures forall k: string, n: nat :: (k, n) in narrowed <==> k in entries && n == |GetAll(old(data), k)| && n > 1
    {
      var found: seq<(string, nat)> := [];
      var remaining := entries.Keys;
      PartlyDone(data, entries);
      while remaining != {}
        invariant remaining <= entries.Keys
        invariant data == Partly(old(data), entries, remaining)
        invariant Found(old(data), entries, remaining, found)
        decreases remaining
      {
        var key :| key in remaining;
        var previous := |GetAll(data, key)|;
        PartlyNext(old(data), entries, remaining, key);
        FindOne(old(data), entries, remaining, found, key);
        data := data[key := [entries[key]]];
        if previous > 1 {
          found := found + [(key, previous)];
        }
        remaining := remaining - {key};
      }
      assert entries.Keys - remaining == entries.Keys;
      FoundIsNarrowed(old(data), entries, found);
      narrowed := Sort(PairKey, found);
    }

    method Clear()
      modifies this
      ensures Valid() && data == map[]
    {
      data := map[];
    }
  }

  // The readers.

  function StartsWith(key: string, prefix: Option<string>): bool {
    prefix.None? || prefix.value <= key
  }

  /** The first instance of every key with the prefix. */
  ghost function Entries<V>(data: Slots<V>, prefix: Option<string>): map<string, V>
    requires WellFormed(data)
  {
    map k | k in data && StartsWith(k, prefix) :: data[k][0]
  }

  function Same(key: string): string { key }

  /** All keys, sorted. */
  ghost predicate IsKeyList<V>(data: Slots<V>, keys: seq<string>) {
    Ascending(Same, keys) && forall k :: k in keys <==> k in data
  }

  method Keys<V>(data: Slots<V>) returns (keys: seq<string>)
    ensures IsKeyList(data, keys)
  {
    var found: seq<string> := [];
    var remaining := data.Keys;
    while remaining != {}
      invariant remaining <= data.Keys
      invariant Distinct(Same, found)
      invariant forall k :: k in found <==> k in data && k !in remaining
      decreases remaining
    {
      var key :| key in remaining;
      found := found + [key];
      remaining := remaining - {key};
    }
    SortAscends(Same, found);
    keys := Sort(Same, found);
    forall k ensures k in keys <==> k in found {
      SortHolds(Same, found, k);
    }
  }

  /** The list of keys does not depend on the order they are met in. */
  lemma KeyListUnique<V>(data: Slots<V>, a: seq<string>, b: seq<string>)
    requires IsKeyList(data, a) && IsKeyList(data, b)
    ensures a == b
  {
    AscendingUnique(Same, a, b);
  }

  /** All the single-valued readers show the first instance, and no key is without one. */
  lemma ReadersAgree<V>(data: Slots<V>, keys: seq<string>, key: string)
    requires WellFormed(data) && IsKeyList(data, keys)
    ensures key in keys <==> GetAll(data, key) != []
    ensures GetValue(data, key) == if GetAll(data, key) == [] then None else Some(GetAll(data, key)[0])
    ensures key in Entries(data, None) <==> key in keys
    ensures forall prefix: string :: key in Entries(data, Some(prefix)) <==> key in keys && |prefix| <= |key| && key[..|prefix|] == prefix
    ensures forall prefix | key in Entries(data, prefix) :: GetValue(data, key) == Some(Entries(data, prefix)[key])
  {
  }

  lemma {:induction false} KeysCount<V>(data: Slots<V>, keys: seq<string>)
    requires IsKeyList(data, keys)
    ensures |keys| == |data|
  {
    assert data.Keys == set k | k in keys;
    CountAscending(keys);
    assert |data.Keys| == |data|;
  }

  lemma {:induction false} CountAscending(keys: seq<string>)
    requires Ascending(Same, keys)
    ensures |set k | k in keys| == |keys|
  {
    if keys != [] {
      var front, last := keys[..|keys| - 1], keys[|keys| - 1];
      CountAscending(front);
      forall i | 0 <= i < |front| ensures front[i] != last {
        LessTotal(front[i], last);
        assert Less(Same(keys[i]), Same(keys[|keys| - 1]));
      }
      assert (set k | k in keys) == (set k | k in front) + {last};
    }
  }

  /** A provider seen through its interface. */
  ghost predicate Shows<V>(data: Slots<V>, source: Provider<V>) {
    IsKeyList(data, source.keys) && forall k :: source.getAll(k) == GetAll(data, k)
  }

  /** Copying a provider loses nothing: every instance of every key, in order. */
  lemma CopyIsIdentity<V>(data: Slots<V>, source: Provider<V>)
    requires WellFormed(data) && Shows(data, source)
    ensures Copied(source) == data
  {
    forall k ensures k in Copied(source) <==> k in data {
      assert source.getAll(k) == GetAll(data, k);
    }
  }

  // An update is one assignment a key.

  function SetEach<V>(data: Slots<V>, entries: map<string, V>, order: seq<string>): Slots<V>
    requires forall i | 0 <= i < |order| :: order[i] in entries
  {
    if order == [] then data
    else SetEach(data, entries, order[..|order| - 1])[order[|order| - 1] := [entries[order[|order| - 1]]]]
  }

  lemma {:induction false} SetEachAt<V>(data: Slots<V>, entries: map<string, V>, order: seq<string>, k: string)
    requires forall i | 0 <= i < |order| :: order[i] in entries
    ensures k in SetEach(data, entries, order) <==> k in data || k in order
    ensures GetAll(SetEach(data, entries, order), k) == if k in order then [entries[k]] else GetAll(data, k)
  {
    if order != [] {
      var front, last := order[..|order| - 1], order[|order| - 1];
      SetEachAt(data, entries, front, k);
      assert order == front + [last];
    }
  }

  /** Setting the entries one by one, in any order that misses none, is the update. */
  lemma UpdateIsSets<V>(data: Slots<V>, entries: map<string, V>, order: seq<string>)
    requires forall i | 0 <= i < |order| :: order[i] in entries
    requires forall k | k in entries :: k in order
    ensures SetEach(data, entries, order) == Replaced(data, entries)
  {
    var one, all := SetEach(data, entries, order), Replaced(data, entries);
    forall k ensures (k in one <==> k in all) && GetAll(one, k) == GetAll(all, k) {
      SetEachAt(data, entries, order, k);
    }
    SameSlots(one, all);
  }

  lemma SameSlots<V>(a: Slots<V>, b: Slots<V>)
    requires forall k :: (k in a <==> k in b) && GetAll(a, k) == GetAll(b, k)
    ensures a == b
  {
    forall k | k in a ensures k in b && a[k] == b[k] {
      assert GetAll(a, k) == GetAll(b, k);
    }
  }
}
