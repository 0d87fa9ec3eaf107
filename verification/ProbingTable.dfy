/**
  The open-addressing hash table of lib/unordered_map.h: linear probing, tombstones,
  growth at load factor 0.65 (written 13/20).  The capacity is a power of two, so the
  mask `hash & (capacity - 1)` is the remainder by the capacity.  The three parallel
  arrays of states, keys and values are one array of slots here.

  The table refines a finite map.  A lookup fails with "Table Full" only when every slot
  is filled, which never happens from capacity 4 on.
*/
module ProbingTable {

  datatype Slot<K, V> = Empty | Deleted | Filled(key: K, value: V)

  // ---------------------------------------------------------------- powers of two

  function Pow2(k: nat): (r: nat)
    ensures r >= 1
  {
    if k == 0 then 1 else 2 * Pow2(k - 1)
  }

  ghost predicate IsPow2(n: nat) {
    exists k: nat :: n == Pow2(k)
  }

  lemma {:induction false} Pow2Grows(j: nat, k: nat)
    requires j < k
    ensures 2 * Pow2(j) <= Pow2(k)
  {
    if j + 1 < k { Pow2Grows(j, k - 1); }
  }

  lemma NextPow2(a: nat, b: nat)
    requires IsPow2(a) && IsPow2(b) && a < b
    ensures 2 * a <= b
  {
    var j: nat :| a == Pow2(j);
    var k: nat :| b == Pow2(k);
    if j < k { Pow2Grows(j, k); } else if k < j { Pow2Grows(k, j); }
  }

  /** std::bit_ceil: the least power of two that is not below n. */
  method BitCeil(n: nat) returns (r: nat)
    ensures IsPow2(r) && n <= r && (r == 1 || r < 2 * n)
  {
    r := 1;
    ghost var k: nat := 0;
    while r < n
      invariant r == Pow2(k) && (r == 1 || r < 2 * n)
      decreases n - r
    {
      r, k := 2 * r, k + 1;
    }
  }

  // ---------------------------------------------------------------- the probe sequence

  lemma QuotientIs(x: nat, n: nat, q: nat, r: nat)
    requires x == q * n + r && r < n && x < 2 * n
    ensures q == if x < n then 0 else 1
  {
    TwiceOrMore(q, n);
  }

  lemma TwiceOrMore(q: nat, n: nat)
    ensures q >= 2 ==> q * n >= 2 * n
  {
  }

  /** The d-th place probed from `start`. */
  function At(start: nat, d: nat, n: nat): (i: nat)
    requires start < n && d < n
    ensures i < n && i == (start + d) % n
  {
    var x := start + d;
    QuotientIs(x, n, x / n, x % n);
    if x < n then x else x - n
  }

  /** How far a place is from `start` along the probe sequence. */
  function Distance(start: nat, i: nat, n: nat): (d: nat)
    requires start < n && i < n
    ensures d < n && At(start, d, n) == i
  {
    if start <= i then i - start else i - start + n
  }

  /** No empty slot on the way from `start` to place i. */
  predicate Reachable<K, V>(s: seq<Slot<K, V>>, start: nat, i: nat)
    requires start < |s| && i < |s|
  {
    forall d | 0 <= d < Distance(start, i, |s|) :: !s[At(start, d, |s|)].Empty?
  }

  /** Every filled slot can be reached from the place its key hashes to. */
  ghost predicate Placed<K, V>(s: seq<Slot<K, V>>, hash: K -> nat) {
    |s| > 0 && forall i | 0 <= i < |s| && s[i].Filled? :: Reachable(s, hash(s[i].key) % |s|, i)
  }

  /** The filled slots are the bindings of m, each once. */
  ghost predicate Represents<K, V>(s: seq<Slot<K, V>>, m: map<K, V>) {
    && (forall i | 0 <= i < |s| && s[i].Filled? :: s[i].key in m && m[s[i].key] == s[i].value)
    && (forall i, j | 0 <= i < j < |s| && s[i].Filled? && s[j].Filled? :: s[i].key != s[j].key)
    && (forall k | k in m :: HasKey(s, k))
  }

  ghost predicate HasKey<K, V>(s: seq<Slot<K, V>>, k: K) {
    exists i :: 0 <= i < |s| && s[i].Filled? && s[i].key == k
  }

  /** The keys of the first n slots. */
  ghost function KeysUpTo<K, V>(s: seq<Slot<K, V>>, n: nat): set<K>
    requires n <= |s|
  {
    if n == 0 then {}
    else KeysUpTo(s, n - 1) + if s[n - 1].Filled? then {s[n - 1].key} else {}
  }

  lemma {:induction false} KeysUpToExact<K, V>(s: seq<Slot<K, V>>, n: nat)
    requires n <= |s|
    ensures forall k :: k in KeysUpTo(s, n) <==> exists i :: 0 <= i < n && s[i].Filled? && s[i].key == k
  {
    if n > 0 { KeysUpToExact(s, n - 1); }
  }

  lemma {:induction false} KeyAt<K, V>(s: seq<Slot<K, V>>, n: nat, k: K) returns (i: nat)
    requires n <= |s| && k in KeysUpTo(s, n)
    ensures i < n && s[i].Filled? && s[i].key == k
  {
    if s[n - 1].Filled? && s[n - 1].key == k { i := n - 1; } else { i := KeyAt(s, n - 1, k); }
  }

  lemma {:induction false} CountKeys<K, V>(s: seq<Slot<K, V>>, n: nat)
    requires n <= |s|
    requires forall i, j | 0 <= i < j < |s| && s[i].Filled? && s[j].Filled? :: s[i].key != s[j].key
    ensures |KeysUpTo(s, n)| <= n
    ensures |KeysUpTo(s, n)| == n <==> forall i | 0 <= i < n :: s[i].Filled?
  {
    if n > 0 {
      CountKeys(s, n - 1);
      KeysUpToExact(s, n - 1);
    }
  }

  /** A table holds at most as many bindings as it has slots, and exactly as many when every slot is filled. */
  lemma AllFilled<K, V>(s: seq<Slot<K, V>>, m: map<K, V>)
    requires Represents(s, m)
    ensures |m| <= |s|
    ensures |m| == |s| <==> forall i | 0 <= i < |s| :: s[i].Filled?
  {
    CountKeys(s, |s|);
    forall k | k in KeysUpTo(s, |s|) ensures k in m.Keys { var i := KeyAt(s, |s|, k); }
    forall k | k in m.Keys ensures k in KeysUpTo(s, |s|) {
      assert HasKey(s, k);
      KeysUpToExact(s, |s|);
    }
    assert KeysUpTo(s, |s|) == m.Keys;
  }

  lemma {:induction false} SubsetSize<T>(a: set<T>, b: set<T>)
    requires a <= b
    ensures |a| <= |b|
  {
    if a != {} {
      var x :| x in a;
      SubsetSize(a - {x}, b - {x});
    }
  }

  // ---------------------------------------------------------------- what a probe finds

  /** The place find_index answers: the key's own slot, else the first slot it may go to; none when the table is full. */
  ghost predicate Finds<K, V>(s: seq<Slot<K, V>>, hash: K -> nat, key: K, found: bool, i: nat)
    requires |s| > 0
  {
    if HasKey(s, key) then found && i < |s| && s[i].Filled? && s[i].key == key
    else if found then i < |s| && !s[i].Filled? && Reachable(s, hash(key) % |s|, i)
    else forall j | 0 <= j < |s| :: s[j].Filled?
  }

  /** A key that is in the table is found before any empty slot. */
  lemma NotBeyondEmpty<K, V>(s: seq<Slot<K, V>>, hash: K -> nat, key: K, d: nat)
    requires Placed(s, hash) && d < |s| && s[At(hash(key) % |s|, d, |s|)].Empty?
    requires forall e | 0 <= e < d :: !Holds(s, At(hash(key) % |s|, e, |s|), key)
    ensures !HasKey(s, key)
  {
    var start := hash(key) % |s|;
    forall i | 0 <= i < |s| ensures !Holds(s, i, key) {
      assert At(start, Distance(start, i, |s|), |s|) == i;
      assert Holds(s, i, key) ==> Reachable(s, start, i);
    }
  }

  predicate Holds<K(==), V>(s: seq<Slot<K, V>>, i: nat, key: K)
    requires i < |s|
  {
    s[i].Filled? && s[i].key == key
  }

  /** The whole table was probed. */
  lemma ProbedAll<K, V>(s: seq<Slot<K, V>>, start: nat, key: K)
    requires start < |s| && forall e | 0 <= e < |s| :: !s[At(start, e, |s|)].Empty? && !Holds(s, At(start, e, |s|), key)
    ensures !HasKey(s, key) && forall j | 0 <= j < |s| :: !s[j].Empty?
  {
    forall j | 0 <= j < |s| ensures !s[j].Empty? && !Holds(s, j, key) {
      assert At(start, Distance(start, j, |s|), |s|) == j;
    }
  }

  // ---------------------------------------------------------------- updates

  /** Filling a free place that the key reaches adds the binding. */
  lemma FillPlace<K, V>(s: seq<Slot<K, V>>, hash: K -> nat, m: map<K, V>, key: K, value: V, i: nat)
    requires Placed(s, hash) && Represents(s, m) && i < |s| && !HasKey(s, key)
    requires !s[i].Filled? && Reachable(s, hash(key) % |s|, i)
    ensures var s' := s[i := Filled(key, value)];
            key !in m && Placed(s', hash) && Represents(s', m[key := value]) && |m[key := value]| == |m| + 1
  {
    hide Placed, Reachable;
    var s' := s[i := Filled(key, value)];
    assert key !in m;
    forall k | k in m[key := value] ensures HasKey(s', k) {
      if k == key {
        assert s'[i].Filled?;
      } else {
        var j :| 0 <= j < |s| && s[j].Filled? && s[j].key == k;
        assert s'[j].Filled? && s'[j].key == k;
      }
    }
    FillKeepsPlaced(s, hash, key, value, i);
    assert m[key := value].Keys == m.Keys + {key};
  }

  lemma FillKeepsPlaced<K, V>(s: seq<Slot<K, V>>, hash: K -> nat, key: K, value: V, i: nat)
    requires Placed(s, hash) && i < |s| && Reachable(s, hash(key) % |s|, i)
    ensures Placed(s[i := Filled(key, value)], hash)
  {
    var s' := s[i := Filled(key, value)];
    forall j | 0 <= j < |s'| && s'[j].Filled? ensures Reachable(s', hash(s'[j].key) % |s'|, j) {
      assert Reachable(s, hash(s'[j].key) % |s|, j);
    }
  }

  /** Overwriting the value of a key changes that binding only. */
  lemma Overwrite<K, V>(s: seq<Slot<K, V>>, hash: K -> nat, m: map<K, V>, value: V, i: nat)
    requires Placed(s, hash) && Represents(s, m) && i < |s| && s[i].Filled?
    ensures var s' := s[i := Filled(s[i].key, value)];
            Placed(s', hash) && Represents(s', m[s[i].key := value]) && |m[s[i].key := value]| == |m|
  {
    var s' := s[i := Filled(s[i].key, value)];
    var key := s[i].key;
    forall k | k in m[key := value] ensures HasKey(s', k) {
      var j :| 0 <= j < |s| && s[j].Filled? && s[j].key == k;
      assert s'[j].Filled? && s'[j].key == k;
    }
    FillKeepsPlaced(s, hash, key, value, i);
    assert m[key := value].Keys == m.Keys;
  }

  /** A tombstone removes the binding and blocks no other. */
  lemma Bury<K, V>(s: seq<Slot<K, V>>, hash: K -> nat, m: map<K, V>, i: nat)
    requires Placed(s, hash) && Represents(s, m) && i < |s| && s[i].Filled?
    ensures var s' := s[i := Deleted];
            s[i].key in m && Placed(s', hash) && Represents(s', m - {s[i].key}) && |m - {s[i].key}| == |m| - 1
  {
    var s' := s[i := Deleted];
    var key := s[i].key;
    forall j | 0 <= j < |s'| && s'[j].Filled? ensures Reachable(s', hash(s'[j].key) % |s'|, j) {
      assert Reachable(s, hash(s[j].key) % |s|, j);
    }
    forall k | k in m - {key} ensures HasKey(s', k) {
      var j :| 0 <= j < |s| && s[j].Filled? && s[j].key == k;
      assert s'[j].Filled? && s'[j].key == k;
    }
    assert (m - {key}).Keys == m.Keys - {key};
  }

  /** An empty table. */
  lemma NothingPlaced<K, V>(s: seq<Slot<K, V>>, hash: K -> nat)
    requires |s| > 0 && forall i | 0 <= i < |s| :: s[i].Empty?
    ensures Placed(s, hash) && Represents(s, map[])
  {
  }

  // ---------------------------------------------------------------- the table

  class HashTable<K(==), V> {
    const hash: K -> nat
    const zero: V
    var slots: array<Slot<K, V>>
    var uniqueKeys: nat

    /** The map this table stands for. */
    ghost var contents: map<K, V>

    /** The slots stand for the contents. */
    ghost predicate Sound()
      reads this, slots
    {
      && IsPow2(slots.Length)
      && Placed(slots[..], hash)
      && Represents(slots[..], contents)
      && uniqueKeys == |contents|
    }

    /** Before its last insertion the table was below the load factor. */
    ghost predicate Valid()
      reads this, slots
    {
      Sound() && (uniqueKeys > 0 ==> 20 * (uniqueKeys - 1) < 13 * slots.Length)
    }

    constructor (hash: K -> nat, zero: V, capacity: nat)
      requires IsPow2(capacity)
      ensures Valid() && contents == map[] && slots.Length == capacity && fresh(slots)
      ensures this.hash == hash && this.zero == zero
    {
      this.hash, this.zero := hash, zero;
      slots := new Slot<K, V>[capacity](i => Empty);
      uniqueKeys := 0;
      contents := map[];
      new;
      PowPositive(capacity);
      NothingPlaced(slots[..], hash);
    }

    /** find_index; `found` is false where it throws "Table Full". */
    method FindIndex(key: K) returns (found: bool, index: nat)
      requires Sound()
      ensures Finds(slots[..], hash, key, found, index)
    {
      hide IsPow2, Represents, Placed, Finds, ProbedTo, At;
      PowPositive(slots.Length);
      ghost var s := slots[..];
      index := hash(key) % slots.Length;
      var start := index;
      var firstDeleted: nat := slots.Length;
      ghost var d: nat := 0;
      ProbeStarts(s, start, key);
      while true
        invariant 0 <= d < slots.Length && index < slots.Length && index == At(start, d, slots.Length) && s == slots[..]
        invariant ProbedTo(s, start, key, d, firstDeleted) && firstDeleted <= slots.Length
        decreases slots.Length - d
      {
        ProbeStep(s, hash, key, d, firstDeleted);
        match slots[index] {
          case Empty =>
            return true, if firstDeleted != slots.Length then firstDeleted else index;
          case Filled(k, _) =>
            if k == key { return true, index; }
          case Deleted =>
            if firstDeleted == slots.Length { firstDeleted := index; }
        }
        NextPlace(start, d, slots.Length);
        index := (index + 1) % slots.Length;
        d := d + 1;
        if index == start { break; }
      }
      ProbeEnds(s, hash, key, firstDeleted);
      if firstDeleted != slots.Length { return true, firstDeleted; }
      return false, 0;
    }

    /** "Table Full" is thrown exactly when the key is unbound and every slot is filled; the load factor allows that below capacity 4 only. */
    lemma FullExactly(key: K, found: bool, index: nat)
      requires Sound() && Finds(slots[..], hash, key, found, index)
      ensures !found <==> key !in contents && uniqueKeys == slots.Length
      ensures Valid() && uniqueKeys == slots.Length ==> slots.Length < 4
    {
      AllFilled(slots[..], contents);
    }

    /** contains, get and find: what is stored under a key. */
    method Get(key: K) returns (r: Lookup<V>)
      requires Valid()
      ensures r.Found? <==> key in contents
      ensures r.Found? ==> r.value == contents[key]
      ensures r.TableFull? <==> key !in contents && uniqueKeys == slots.Length
      ensures r.TableFull? ==> slots.Length < 4
    {
      var found, index := FindIndex(key);
      FullExactly(key, found, index);
      if !found { return TableFull; }
      match slots[index]
      case Filled(_, v) => return Found(v);
      case _ => return Absent;
    }

    /** insert: binds the key, growing the table first if need be. */
    method Insert(key: K, value: V)
      requires Valid()
      modifies this, slots
      ensures Valid() && contents == old(contents)[key := value]
      ensures if old(20 * uniqueKeys < 13 * slots.Length) then slots == old(slots) else fresh(slots) && slots.Length > old(slots.Length)
    {
      Rehash();
      var found, index := FindIndex(key);
      FullExactly(key, found, index);
      PowPositive(slots.Length);
      Bind(key, value, index);
    }

    /** operator[]: the slot of the key; an absent key is bound to the zero value first. */
    method Index(key: K) returns (index: nat)
      requires Valid()
      modifies this, slots
      ensures Valid() && contents == if key in old(contents) then old(contents) else old(contents)[key := zero]
      ensures index < slots.Length && slots[index] == Filled(key, contents[key])
      ensures slots == old(slots) || fresh(slots)
    {
      Rehash();
      var found;
      found, index := FindIndex(key);
      FullExactly(key, found, index);
      PowPositive(slots.Length);
      if slots[index].Filled? { return; }
      Bind(key, zero, index);
    }

    /** Writing through the reference operator[] returned. */
    method Assign(index: nat, value: V)
      requires Valid() && index < slots.Length && slots[index].Filled?
      modifies this`contents, slots
      ensures Valid() && contents == old(contents)[old(slots[index].key) := value]
    {
      Overwrite(slots[..], hash, contents, value, index);
      ghost var before := slots[..];
      contents := contents[slots[index].key := value];
      slots[index] := Filled(slots[index].key, value);
      assert slots[..] == before[index := slots[index]];
    }

    /** Writes a binding into the slot found for its key. */
    method Bind(key: K, value: V, index: nat)
      requires Sound() && 20 * uniqueKeys < 13 * slots.Length && Finds(slots[..], hash, key, true, index)
      modifies this`contents, this`uniqueKeys, slots
      ensures Valid() && contents == old(contents)[key := value]
      ensures index < slots.Length && slots[index] == Filled(key, value)
    {
      ghost var before := slots[..];
      if slots[index].Filled? {
        Overwrite(before, hash, contents, value, index);
        slots[index] := Filled(slots[index].key, value);
      } else {
        FillPlace(before, hash, contents, key, value, index);
        slots[index] := Filled(key, value);
        uniqueKeys := uniqueKeys + 1;
      }
      contents := contents[key := value];
      assert slots[..] == before[index := Filled(key, value)];
    }

    /** erase: leaves a tombstone; answers whether the key was bound. */
    method Erase(key: K) returns (r: Lookup<bool>)
      requires Valid()
      modifies this, slots
      ensures Valid() && contents == old(contents) - {key} && slots == old(slots)
      ensures r == Found(true) <==> key in old(contents)
      ensures r.TableFull? <==> key !in old(contents) && old(uniqueKeys) == slots.Length
      ensures r.TableFull? ==> slots.Length < 4
    {
      var found, index := FindIndex(key);
      FullExactly(key, found, index);
      if !found { return TableFull; }
      if !slots[index].Filled? { return Found(false); }
      ghost var before := slots[..];
      Bury(before, hash, contents, index);
      contents := contents - {key};
      slots[index] := Deleted;
      uniqueKeys := uniqueKeys - 1;
      assert slots[..] == before[index := Deleted];
      return Found(true);
    }

    /** rehash: below the load factor nothing happens, else the table at least doubles. */
    method Rehash()
      requires Valid()
      modifies this
      ensures Valid() && contents == old(contents) && 20 * uniqueKeys < 13 * slots.Length
      ensures if old(20 * uniqueKeys < 13 * slots.Length) then slots == old(slots) else fresh(slots) && slots.Length > old(slots.Length)
    {
      if 20 * uniqueKeys < 13 * slots.Length { return; }
      var newCap := BitCeil(uniqueKeys * 20 / 13);
      if newCap <= slots.Length {
        newCap := slots.Length * 2;
        DoublePow2(slots.Length);
      } else {
        NextPow2(slots.Length, newCap);
      }
      Reallocate(newCap);
    }

    /** reserve */
    method Reserve(size: nat)
      requires Valid() && size >= uniqueKeys
      requires forall cap | IsPow2(cap) && size * 20 / 13 <= cap :: uniqueKeys < cap
      modifies this
      ensures Valid() && contents == old(contents) && size * 20 / 13 <= slots.Length
    {
      var newCap := BitCeil(size * 20 / 13);
      Reallocate(newCap);
    }

    /** reallocate: every binding is put into a new array, tombstones are dropped. */
    method Reallocate(newCap: nat)
      requires Sound() && IsPow2(newCap) && uniqueKeys < newCap
      modifies this`slots
      ensures Sound() && contents == old(contents) && fresh(slots) && slots.Length == newCap
    {
      hide Placed, Represents, IsPow2;
      ghost var s := slots[..];
      var next := new Slot<K, V>[newCap](i => Empty);
      NothingPlaced(next[..], hash);
      ghost var m: map<K, V> := map[];
      for index := 0 to slots.Length
        invariant slots == old(slots) && s == slots[..] && fresh(next) && next.Length == newCap
        invariant m == PrefixMap(s, index) && Placed(next[..], hash) && Represents(next[..], m)
      {
        PrefixGrows(s, contents, index);
        if slots[index].Filled? {
          PutNew(next, hash, slots[index].key, slots[index].value, m);
          m := m[slots[index].key := slots[index].value];
        }
      }
      PrefixIsAll(s, contents);
      slots := next;
    }

    /** begin, ++ and * of the iterator, up to end: each binding is visited, once. */
    method Iterate() returns (visited: seq<(K, V)>)
      requires Valid()
      ensures |visited| == |contents|
      ensures forall i, j | 0 <= i < j < |visited| :: visited[i].0 != visited[j].0
      ensures forall p :: p in visited <==> p.0 in contents && contents[p.0] == p.1
    {
      hide Placed, IsPow2, Bindings, Represents;
      visited := [];
      ghost var s := slots[..];
      var index := NextValid(0);
      NothingBound(s);
      SkipEmpty(s, 0, index);
      while index < slots.Length
        invariant index <= slots.Length && s == slots[..]
        invariant index < slots.Length ==> s[index].Filled?
        invariant visited == Bindings(s, index)
        decreases slots.Length - index
      {
        OneBound(s, index);
        visited := visited + [(slots[index].key, slots[index].value)];
        var next := NextValid(index + 1);
        SkipEmpty(s, index + 1, next);
        index := next;
      }
      AllVisited(s, contents);
    }

    /** next_valid: the first filled slot at or after a place. */
    method NextValid(from: nat) returns (i: nat)
      requires from <= slots.Length
      ensures from <= i <= slots.Length && (i < slots.Length ==> slots[i].Filled?)
      ensures forall j | from <= j < i :: !slots[j].Filled?
    {
      i := from;
      while i < slots.Length
        invariant from <= i <= slots.Length && forall j | from <= j < i :: !slots[j].Filled?
      {
        if slots[i].Filled? { return; }
        i := i + 1;
      }
    }
  }

  datatype Lookup<V> = Found(value: V) | Absent | TableFull

  /** A table of capacity 2 takes two keys without growing, and the look-up of a third throws. */
  method FullTable<K(==), V>(hash: K -> nat, zero: V, a: K, b: K, c: K) returns (r: Lookup<V>)
    requires a != b && a != c && b != c
    ensures r == TableFull
  {
    TwoIsPow2();
    var table := new HashTable<K, V>(hash, zero, 2);
    table.Insert(a, zero);
    table.Insert(b, zero);
    assert table.contents.Keys == {a, b};
    r := table.Get(c);
  }

  lemma TwoIsPow2()
    ensures IsPow2(2)
  {
    assert Pow2(1) == 2;
  }

  lemma DoublePow2(n: nat)
    requires IsPow2(n)
    ensures IsPow2(n * 2)
  {
    var k: nat :| n == Pow2(k);
    assert n * 2 == Pow2(k + 1);
  }

  // ---------------------------------------------------------------- growing

  ghost function PrefixMap<K, V>(s: seq<Slot<K, V>>, n: nat): map<K, V>
    requires n <= |s|
  {
    if n == 0 then map[]
    else if s[n - 1].Filled? then PrefixMap(s, n - 1)[s[n - 1].key := s[n - 1].value]
    else PrefixMap(s, n - 1)
  }

  lemma {:induction false} PrefixMapKeys<K, V>(s: seq<Slot<K, V>>, m: map<K, V>, n: nat)
    requires Represents(s, m) && n <= |s|
    ensures forall k | k in PrefixMap(s, n) :: k in m && PrefixMap(s, n)[k] == m[k] && exists j :: 0 <= j < n && s[j].Filled? && s[j].key == k
    ensures forall j | 0 <= j < n && s[j].Filled? :: s[j].key in PrefixMap(s, n)
  {
    if n > 0 {
      PrefixMapKeys(s, m, n - 1);
      if s[n - 1].Filled? { assert s[n - 1].key in m; }
    }
  }

  lemma PrefixGrows<K, V>(s: seq<Slot<K, V>>, m: map<K, V>, n: nat)
    requires Represents(s, m) && n < |s|
    ensures |PrefixMap(s, n)| <= |m|
    ensures s[n].Filled? ==> s[n].key !in PrefixMap(s, n)
  {
    PrefixMapKeys(s, m, n);
    assert PrefixMap(s, n).Keys <= m.Keys;
    SubsetSize(PrefixMap(s, n).Keys, m.Keys);
  }

  lemma PrefixIsAll<K, V>(s: seq<Slot<K, V>>, m: map<K, V>)
    requires Represents(s, m)
    ensures PrefixMap(s, |s|) == m
  {
    PrefixMapKeys(s, m, |s|);
    forall k | k in m ensures k in PrefixMap(s, |s|) {
      assert HasKey(s, k);
    }
  }

  /** The probing of reallocate: the first slot that is not filled. */
  method PutNew<K, V>(next: array<Slot<K, V>>, hash: K -> nat, key: K, value: V, ghost m: map<K, V>)
    requires Placed(next[..], hash) && Represents(next[..], m) && key !in m && |m| < next.Length
    modifies next
    ensures Placed(next[..], hash) && Represents(next[..], m[key := value])
  {
    hide Placed, Represents, At;
    ghost var s := next[..];
    var index := hash(key) % next.Length;
    ghost var start, d := index, 0;
    StartPlace(start, |s|);
    while next[index].Filled?
      invariant 0 <= d < |s| && s == next[..] && index < next.Length && index == At(start, d, |s|)
      invariant forall e | 0 <= e < d :: s[At(start, e, |s|)].Filled?
      decreases |s| - d
    {
      NextPlace(start, d, |s|);
      if d + 1 == |s| { RoomLeft(s, m, start); }
      index := (index + 1) % next.Length;
      d := d + 1;
    }
    PlaceReached(s, start, d);
    NotYet(s, m, key);
    FillPlace(s, hash, m, key, value, index);
    next[index] := Filled(key, value);
    assert next[..] == s[index := Filled(key, value)];
  }

  lemma StartPlace(start: nat, n: nat)
    requires start < n
    ensures At(start, 0, n) == start
  {
  }

  lemma RoomLeft<K, V>(s: seq<Slot<K, V>>, m: map<K, V>, start: nat)
    requires Represents(s, m) && |m| < |s| && start < |s|
    ensures exists e :: 0 <= e < |s| && !s[At(start, e, |s|)].Filled?
  {
    if forall i | 0 <= i < |s| :: s[i].Filled? { AllFilled(s, m); }
    var i :| 0 <= i < |s| && !s[i].Filled?;
    assert At(start, Distance(start, i, |s|), |s|) == i;
  }

  lemma NotYet<K, V>(s: seq<Slot<K, V>>, m: map<K, V>, key: K)
    requires Represents(s, m) && key !in m
    ensures !HasKey(s, key)
  {
  }

  // ---------------------------------------------------------------- iteration

  /** The bindings of the first n slots, in slot order. */
  ghost function Bindings<K, V>(s: seq<Slot<K, V>>, n: nat): seq<(K, V)>
    requires n <= |s|
  {
    if n == 0 then [] else Bindings(s, n - 1) + if s[n - 1].Filled? then [(s[n - 1].key, s[n - 1].value)] else []
  }

  lemma NothingBound<K, V>(s: seq<Slot<K, V>>)
    ensures Bindings(s, 0) == []
  {
  }

  lemma OneBound<K, V>(s: seq<Slot<K, V>>, n: nat)
    requires n < |s| && s[n].Filled?
    ensures Bindings(s, n + 1) == Bindings(s, n) + [(s[n].key, s[n].value)]
  {
  }

  lemma {:induction false} SkipEmpty<K, V>(s: seq<Slot<K, V>>, lo: nat, hi: nat)
    requires lo <= hi <= |s| && forall j | lo <= j < hi :: !s[j].Filled?
    ensures Bindings(s, hi) == Bindings(s, lo)
    decreases hi
  {
    if lo < hi { SkipEmpty(s, lo, hi - 1); }
  }

  /** A visited binding stands in some slot ... */
  lemma {:induction false} BindingAt<K, V>(s: seq<Slot<K, V>>, n: nat, p: (K, V)) returns (j: nat)
    requires n <= |s| && p in Bindings(s, n)
    ensures j < n && s[j].Filled? && p == (s[j].key, s[j].value)
  {
    if s[n - 1].Filled? && p == (s[n - 1].key, s[n - 1].value) { j := n - 1; } else { j := BindingAt(s, n - 1, p); }
  }

  /** ... and each filled slot is visited. */
  lemma {:induction false} BindingIn<K, V>(s: seq<Slot<K, V>>, n: nat, j: nat)
    requires j < n <= |s| && s[j].Filled?
    ensures (s[j].key, s[j].value) in Bindings(s, n)
  {
    if j < n - 1 { BindingIn(s, n - 1, j); }
  }

  lemma {:induction false} BindingsDistinct<K, V>(s: seq<Slot<K, V>>, m: map<K, V>, n: nat)
    requires Represents(s, m) && n <= |s|
    ensures var bs := Bindings(s, n); forall i, j | 0 <= i < j < |bs| :: bs[i].0 != bs[j].0
    ensures |Bindings(s, n)| == |PrefixMap(s, n)|
  {
    if n > 0 {
      BindingsDistinct(s, m, n - 1);
      PrefixGrows(s, m, n - 1);
      var before := Bindings(s, n - 1);
      if s[n - 1].Filled? {
        forall i | 0 <= i < |before| ensures before[i].0 != s[n - 1].key {
          var j := BindingAt(s, n - 1, before[i]);
        }
        assert PrefixMap(s, n).Keys == PrefixMap(s, n - 1).Keys + {s[n - 1].key};
      }
    }
  }

  lemma AllVisited<K, V>(s: seq<Slot<K, V>>, m: map<K, V>)
    requires Represents(s, m)
    ensures var bs := Bindings(s, |s|);
            && |bs| == |m|
            && (forall i, j | 0 <= i < j < |bs| :: bs[i].0 != bs[j].0)
            && forall p :: p in bs <==> p.0 in m && m[p.0] == p.1
  {
    hide Bindings, PrefixMap;
    BindingsDistinct(s, m, |s|);
    PrefixIsAll(s, m);
    forall p ensures p in Bindings(s, |s|) <==> p.0 in m && m[p.0] == p.1 {
      if p in Bindings(s, |s|) { var j := BindingAt(s, |s|, p); }
      if p.0 in m && m[p.0] == p.1 {
        assert HasKey(s, p.0);
        var j :| 0 <= j < |s| && s[j].Filled? && s[j].key == p.0;
        BindingIn(s, |s|, j);
      }
    }
  }

  lemma PowPositive(n: nat)
    requires IsPow2(n)
    ensures n >= 1
  {
  }

  /** After d places: none was empty or held the key, and the first tombstone is known (n when there was none). */
  ghost predicate ProbedTo<K, V>(s: seq<Slot<K, V>>, start: nat, key: K, d: nat, firstDeleted: nat)
    requires start < |s|
  {
    && d <= |s|
    && (forall e | 0 <= e < d :: !s[At(start, e, |s|)].Empty? && !Holds(s, At(start, e, |s|), key))
    && (if firstDeleted == |s| then forall e | 0 <= e < d :: !s[At(start, e, |s|)].Deleted?
        else firstDeleted < |s| && s[firstDeleted].Deleted? && Reachable(s, start, firstDeleted))
  }

  lemma ProbeStarts<K, V>(s: seq<Slot<K, V>>, start: nat, key: K)
    requires start < |s|
    ensures At(start, 0, |s|) == start && ProbedTo(s, start, key, 0, |s|)
  {
  }

  /** What the slot at the d-th place decides. */
  lemma ProbeStep<K, V>(s: seq<Slot<K, V>>, hash: K -> nat, key: K, d: nat, firstDeleted: nat)
    requires Placed(s, hash) && d < |s| && ProbedTo(s, hash(key) % |s|, key, d, firstDeleted)
    ensures var i := At(hash(key) % |s|, d, |s|);
            && (s[i].Empty? ==> Finds(s, hash, key, true, if firstDeleted != |s| then firstDeleted else i))
            && (Holds(s, i, key) ==> Finds(s, hash, key, true, i))
            && (!s[i].Empty? && !Holds(s, i, key) ==>
                  ProbedTo(s, hash(key) % |s|, key, d + 1, if s[i].Deleted? && firstDeleted == |s| then i else firstDeleted))
  {
    hide Placed;
    var start := hash(key) % |s|;
    var i := At(start, d, |s|);
    PlaceReached(s, start, d);
    if s[i].Empty? { NotBeyondEmpty(s, hash, key, d); }
    assert Holds(s, i, key) ==> HasKey(s, key);
  }

  lemma ProbeEnds<K, V>(s: seq<Slot<K, V>>, hash: K -> nat, key: K, firstDeleted: nat)
    requires |s| > 0 && ProbedTo(s, hash(key) % |s|, key, |s|, firstDeleted)
    ensures Finds(s, hash, key, firstDeleted != |s|, if firstDeleted != |s| then firstDeleted else 0)
  {
    ProbedAll(s, hash(key) % |s|, key);
    if firstDeleted == |s| { NoneDeleted(s, hash(key) % |s|); }
  }

  lemma PlaceReached<K, V>(s: seq<Slot<K, V>>, start: nat, d: nat)
    requires start < |s| && d < |s| && forall e | 0 <= e < d :: !s[At(start, e, |s|)].Empty?
    ensures Reachable(s, start, At(start, d, |s|))
  {
  }

  /** The probing comes back to its start after exactly n places. */
  lemma NextPlace(start: nat, d: nat, n: nat)
    requires start < n && d < n
    ensures var next := (At(start, d, n) + 1) % n;
            (next == start <==> d + 1 == n) && (d + 1 < n ==> next == At(start, d + 1, n))
  {
    var i := At(start, d, n);
    if i + 1 < n { assert (i + 1) % n == i + 1; } else { assert n % n == 0; }
  }

  lemma NoneDeleted<K, V>(s: seq<Slot<K, V>>, start: nat)
    requires start < |s| && forall e | 0 <= e < |s| :: !s[At(start, e, |s|)].Deleted?
    ensures forall j | 0 <= j < |s| :: !s[j].Deleted?
  {
    forall j | 0 <= j < |s| ensures !s[j].Deleted? {
      assert At(start, Distance(start, j, |s|), |s|) == j;
    }
  }
}
