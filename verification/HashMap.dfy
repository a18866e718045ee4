/** The chained hash map of misc/hashmap.c: an array of chains, grown by rehashing, that refines a
    finite map as long as equal keys hash equally. */
module HashMap {
  import opened Arith
  import opened Common
  import opened Sequences

  type Key(!new)
  type Value(!new)

  datatype Entry = Entry(key: Key, value: Value, hash: nat)

  type Hash = Key -> nat
  type Equals = (Key, Key) -> bool

  /** Equality is an equivalence, and equal keys have equal hashes. */
  ghost predicate Coherent(hash: Hash, equals: Equals)
  {
    && (forall a :: equals(a, a))
    && (forall a, b :: equals(a, b) ==> equals(b, a) && hash(a) == hash(b))
    && (forall a, b, c :: equals(a, b) && equals(b, c) ==> equals(a, c))
  }

  // ----- entries of all chains

  type Buckets = seq<seq<Entry>>

  ghost function Flat(buckets: Buckets): seq<Entry>
  {
    if buckets == [] then [] else buckets[0] + Flat(buckets[1..])
  }

  ghost function Bag(buckets: Buckets): multiset<Entry>
  {
    multiset(Flat(buckets))
  }

  lemma {:induction false} FlatUpdate(buckets: Buckets, i: nat, chain: seq<Entry>)
    requires i < |buckets|
    ensures multiset(buckets[i]) <= Bag(buckets)
    ensures Bag(buckets[i := chain]) == Bag(buckets) - multiset(buckets[i]) + multiset(chain)
  {
    var hd, tl := buckets[0], buckets[1..];
    var buckets' := buckets[i := chain];
    if i == 0 {
      assert buckets'[1..] == tl;
    } else {
      assert buckets'[1..] == tl[i - 1 := chain];
      FlatUpdate(tl, i - 1, chain);
    }
  }

  /** Each entry carries the hash of its key and is in the bucket of that hash. */
  ghost predicate Placed(buckets: Buckets, hash: Hash)
  {
    forall i, j :: 0 <= i < |buckets| && 0 <= j < |buckets[i]| ==>
      buckets[i][j].hash == hash(buckets[i][j].key) && buckets[i][j].hash % |buckets| == i
  }

  /** No two entries have equal keys. */
  ghost predicate Unique(bag: multiset<Entry>, equals: Equals)
  {
    forall e, f :: e in bag && f in bag && equals(e.key, f.key) ==> e == f && bag[e] == 1
  }

  lemma {:induction false} InBag(buckets: Buckets, i: nat, j: nat)
    requires i < |buckets| && j < |buckets[i]|
    ensures buckets[i][j] in Bag(buckets)
  {
    if i > 0 {
      InBag(buckets[1..], i - 1, j);
    }
  }

  lemma {:induction false} FromBag(buckets: Buckets, e: Entry) returns (i: nat, j: nat)
    requires e in Bag(buckets)
    ensures i < |buckets| && j < |buckets[i]| && buckets[i][j] == e
  {
    if e in buckets[0] {
      i := 0;
      j :| 0 <= j < |buckets[0]| && buckets[0][j] == e;
    } else {
      i, j := FromBag(buckets[1..], e);
      i := i + 1;
    }
  }

  // ----- the map

  /** The value under a key: that of the entry with an equal key. */
  ghost predicate Maps(bag: multiset<Entry>, equals: Equals, key: Key, value: Value)
  {
    exists e :: e in bag && equals(e.key, key) && e.value == value
  }

  ghost predicate Absent(bag: multiset<Entry>, equals: Equals, key: Key)
  {
    forall e :: e in bag ==> !equals(e.key, key)
  }

  /** The finite map that is like another one except at a key. */
  ghost predicate MapsBut(bag: multiset<Entry>, bag': multiset<Entry>, equals: Equals, key: Key, value: Option<Value>)
  {
    forall k, v ::
      Maps(bag', equals, k, v) <==> if equals(key, k) then value == Some(v) else Maps(bag, equals, k, v)
  }

  lemma MapsAdded(bag: multiset<Entry>, equals: Equals, hash: Hash, e: Entry)
    requires Coherent(hash, equals) && Unique(bag, equals) && Absent(bag, equals, e.key)
    ensures Unique(bag + multiset{e}, equals)
    ensures MapsBut(bag, bag + multiset{e}, equals, e.key, Some(e.value))
  {
    var bag' := bag + multiset{e};
    assert forall f :: f in bag' <==> f in bag || f == e;
    forall k, v
      ensures Maps(bag', equals, k, v) <==> if equals(e.key, k) then v == e.value else Maps(bag, equals, k, v)
    {
      if equals(e.key, k) {
        assert e in bag';
      } else if Maps(bag, equals, k, v) {
        var f :| f in bag && equals(f.key, k) && f.value == v;
        assert f in bag';
      }
    }
  }

  lemma MapsRemoved(bag: multiset<Entry>, equals: Equals, hash: Hash, e: Entry)
    requires Coherent(hash, equals) && Unique(bag, equals) && e in bag
    ensures Unique(bag - multiset{e}, equals) && Absent(bag - multiset{e}, equals, e.key)
    ensures MapsBut(bag, bag - multiset{e}, equals, e.key, None)
  {
    var bag' := bag - multiset{e};
    assert bag[e] == 1;
    assert forall f :: f in bag' <==> f in bag && f != e;
    forall k, v
      ensures Maps(bag', equals, k, v) <==> !equals(e.key, k) && Maps(bag, equals, k, v)
    {
      if !equals(e.key, k) && Maps(bag, equals, k, v) {
        var f :| f in bag && equals(f.key, k) && f.value == v;
        assert f in bag';
      }
    }
  }

  /** An equal key can only be in the bucket of its hash. */
  lemma AbsentElsewhere(buckets: Buckets, hash: Hash, equals: Equals, key: Key)
    requires Coherent(hash, equals) && Placed(buckets, hash) && |buckets| > 0
    requires forall j :: 0 <= j < |buckets[hash(key) % |buckets|]| ==> !equals(buckets[hash(key) % |buckets|][j].key, key)
    ensures Absent(Bag(buckets), equals, key)
  {
    forall e | e in Bag(buckets)
      ensures !equals(e.key, key)
    {
      var i, j := FromBag(buckets, e);
    }
  }

  const DEFAULT_CAPACITY := 16

  lemma {:induction false} FlatEmpty(buckets: Buckets)
    requires forall i :: 0 <= i < |buckets| ==> buckets[i] == []
    ensures Flat(buckets) == []
  {
    if buckets != [] {
      FlatEmpty(buckets[1..]);
    }
  }

  /** Below the load factor there is a bucket for every entry. */
  lemma LoadFits(n: nat, capacity: nat, num: nat, den: nat)
    requires n * den <= num * capacity && 0 < num <= den
    ensures n <= capacity
  {
    TimesLess(num, den, capacity);
    if n > capacity {
      TimesLess(capacity + 1, n, den);
    }
  }

  lemma ChainAdded(buckets: Buckets, hash: Hash, i: nat, e: Entry)
    requires Placed(buckets, hash) && i < |buckets| && e.hash == hash(e.key) && e.hash % |buckets| == i
    ensures Placed(buckets[i := [e] + buckets[i]], hash)
    ensures Bag(buckets[i := [e] + buckets[i]]) == Bag(buckets) + multiset{e}
  {
    PlacedUpdate(buckets, hash, i, [e] + buckets[i]);
    FlatUpdate(buckets, i, [e] + buckets[i]);
    hide Bag;
    assert multiset([e] + buckets[i]) == multiset{e} + multiset(buckets[i]);
  }

  lemma ChainCut(buckets: Buckets, hash: Hash, i: nat, j: nat)
    requires Placed(buckets, hash) && i < |buckets| && j < |buckets[i]|
    ensures var chain := buckets[i][..j] + buckets[i][j + 1..];
            Placed(buckets[i := chain], hash) && Bag(buckets[i := chain]) == Bag(buckets) - multiset{buckets[i][j]}
  {
    var chain := buckets[i][..j] + buckets[i][j + 1..];
    PlacedUpdate(buckets, hash, i, chain);
    FlatUpdate(buckets, i, chain);
    hide Bag;
    assert buckets[i] == buckets[i][..j] + [buckets[i][j]] + buckets[i][j + 1..];
    assert multiset(buckets[i]) == multiset(chain) + multiset{buckets[i][j]};
  }

  lemma ChainAssigned(buckets: Buckets, hash: Hash, i: nat, j: nat, value: Value)
    requires Placed(buckets, hash) && i < |buckets| && j < |buckets[i]|
    ensures var e := buckets[i][j];
            var chain := buckets[i][j := e.(value := value)];
            Placed(buckets[i := chain], hash) && Bag(buckets[i := chain]) == Bag(buckets) - multiset{e} + multiset{e.(value := value)}
  {
    hide Bag;
    var e := buckets[i][j];
    var chain := buckets[i][j := e.(value := value)];
    PlacedUpdate(buckets, hash, i, chain);
    FlatUpdate(buckets, i, chain);
    hide Placed;
    Swap(Bag(buckets), multiset(buckets[i]), e, e.(value := value));
  }

  lemma Swap<T>(bag: multiset<T>, part: multiset<T>, x: T, y: T)
    requires part <= bag && x in part
    ensures bag - part + (part - multiset{x} + multiset{y}) == bag - multiset{x} + multiset{y}
  {
  }

  lemma MapsAssigned(bag: multiset<Entry>, equals: Equals, hash: Hash, e: Entry, key: Key, value: Value)
    requires Coherent(hash, equals) && Unique(bag, equals) && e in bag && equals(e.key, key)
    ensures var bag' := bag - multiset{e} + multiset{e.(value := value)};
            Unique(bag', equals) && MapsBut(bag, bag', equals, key, Some(value)) && |bag'| == |bag|
  {
    var less, e' := bag - multiset{e}, e.(value := value);
    MapsRemoved(bag, equals, hash, e);
    MapsAdded(less, equals, hash, e');
    hide Maps;
    assert MapsBut(bag, less + multiset{e'}, equals, e.key, Some(value));
    EqualKeys(bag, less + multiset{e'}, equals, hash, e.key, key, Some(value));
  }

  const SIZE_MAX := 0xFFFF_FFFF_FFFF_FFFF

  lemma AbsentMaps(bag: multiset<Entry>, equals: Equals, hash: Hash, key: Key)
    requires Coherent(hash, equals) && Absent(bag, equals, key)
    ensures MapsBut(bag, bag, equals, key, None)
  {
    forall k, v | equals(key, k)
      ensures !Maps(bag, equals, k, v)
    {
    }
  }

  /** Equal keys are the same key to the map. */
  lemma EqualKeys(bag: multiset<Entry>, bag': multiset<Entry>, equals: Equals, hash: Hash, a: Key, b: Key, value: Option<Value>)
    requires Coherent(hash, equals) && equals(a, b) && MapsBut(bag, bag', equals, a, value)
    ensures MapsBut(bag, bag', equals, b, value)
    ensures Absent(bag', equals, a) ==> Absent(bag', equals, b)
  {
    hide Maps;
    forall k, v
      ensures Maps(bag', equals, k, v) <==> if equals(b, k) then value == Some(v) else Maps(bag, equals, k, v)
    {
      assert equals(a, k) <==> equals(b, k);
    }
  }

  lemma PlacedUpdate(buckets: Buckets, hash: Hash, i: nat, chain: seq<Entry>)
    requires Placed(buckets, hash) && i < |buckets|
    requires forall j :: 0 <= j < |chain| ==> chain[j].hash == hash(chain[j].key) && chain[j].hash % |buckets| == i
    ensures Placed(buckets[i := chain], hash)
  {
  }

  // ----- positions

  ghost predicate Stands(buckets: Buckets, b: nat, p: int)
  {
    b < |buckets| && 0 <= p < |buckets[b]|
  }

  /** How many entries come before a position. */
  ghost function Rank(buckets: Buckets, b: nat, p: int): int
    requires b <= |buckets|
  {
    |Flat(buckets[..b])| + p
  }

  lemma {:induction false} FlatMore(a: Buckets, b: Buckets)
    ensures Flat(a + b) == Flat(a) + Flat(b)
  {
    if a == [] {
      assert a + b == b;
    } else {
      assert (a + b)[1..] == a[1..] + b;
      FlatMore(a[1..], b);
      Assoc(a[0], Flat(a[1..]), Flat(b));
    }
  }

  lemma FlatSplit(buckets: Buckets, b: nat)
    requires b < |buckets|
    ensures Flat(buckets) == Flat(buckets[..b]) + buckets[b] + Flat(buckets[b + 1..])
    ensures Flat(buckets[..b + 1]) == Flat(buckets[..b]) + buckets[b]
  {
    hide Flat;
    CutAt(buckets, b);
    FlatMore(buckets[..b + 1], buckets[b + 1..]);
    FlatMore(buckets[..b], [buckets[b]]);
    FlatOne(buckets[b]);
  }

  lemma CutAt<T>(s: seq<T>, i: nat)
    requires i < |s|
    ensures s == s[..i + 1] + s[i + 1..] && s[..i + 1] == s[..i] + [s[i]]
  {
  }

  lemma FlatOne(chain: seq<Entry>)
    ensures Flat([chain]) == chain
  {
    assert [chain][1..] == [];
    assert Flat([chain]) == chain + [];
  }

  lemma BagNone()
    ensures Bag([]) == multiset{}
  {
  }

  lemma BagFirst(buckets: Buckets, i: nat)
    requires i < |buckets|
    ensures Bag(buckets[i..]) == multiset(buckets[i]) + Bag(buckets[i + 1..])
  {
    assert buckets[i..][0] == buckets[i] && buckets[i..][1..] == buckets[i + 1..];
  }

  lemma FlatAt(buckets: Buckets, b: nat, p: nat)
    requires Stands(buckets, b, p)
    ensures Rank(buckets, b, p) < |Flat(buckets)| && Flat(buckets)[Rank(buckets, b, p)] == buckets[b][p]
  {
    hide Flat;
    FlatSplit(buckets, b);
  }

  datatype Iterator = Iterator(bucket: nat, pos: int)

  class HashMap {
    var buckets: Buckets
    var size: nat
    const hash: Hash
    const equals: Equals
    const loadNum: nat   // the load factor, as a fraction
    const loadDen: nat

    ghost predicate Valid()
      reads this
    {
      && Coherent(hash, equals) && 0 < loadNum <= loadDen && |buckets| > 0
      && Placed(buckets, hash) && Unique(Bag(buckets), equals)
      && size == |Bag(buckets)| && size <= |buckets|
    }

    /** hashmap_create_ex: a zero capacity or a load factor outside (0, 1] gives the default. */
    constructor (hash: Hash, equals: Equals, capacity: nat, loadNum: nat, loadDen: nat)
      requires Coherent(hash, equals)
      ensures Valid() && Bag(buckets) == multiset{} && size == 0
      ensures |buckets| == if capacity == 0 then 16 else capacity
      ensures if 0 < loadNum <= loadDen then this.loadNum == loadNum && this.loadDen == loadDen else this.loadNum == 3 && this.loadDen == 4
      ensures this.hash == hash && this.equals == equals
    {
      var n := if capacity == 0 then DEFAULT_CAPACITY else capacity;
      this.hash, this.equals := hash, equals;
      this.loadNum, this.loadDen := if 0 < loadNum <= loadDen then loadNum else 3, if 0 < loadNum <= loadDen then loadDen else 4;
      this.buckets, this.size := seq(n, _ => []), 0;
      new;
      FlatEmpty(buckets);
    }

    /** The place of a key in its chain, if it has one. */
    method Locate(key: Key) returns (i: nat, j: Option<nat>)
      requires Valid()
      ensures i < |buckets| && i == hash(key) % |buckets|
      ensures j.Some? ==> j.value < |buckets[i]| && equals(buckets[i][j.value].key, key) && buckets[i][j.value] in Bag(buckets)
      ensures j.None? <==> Absent(Bag(buckets), equals, key)
    {
      var h := hash(key);
      i := h % |buckets|;
      for k := 0 to |buckets[i]|
        invariant forall m :: 0 <= m < k ==> !equals(buckets[i][m].key, key)
      {
        if buckets[i][k].hash == h && equals(buckets[i][k].key, key) {
          InBag(buckets, i, k);
          return i, Some(k);
        }
      }
      AbsentElsewhere(buckets, hash, equals, key);
      j := None;
    }

    /** hashmap_find. */
    method Find(key: Key) returns (r: Option<Value>)
      requires Valid()
      ensures r.None? <==> Absent(Bag(buckets), equals, key)
      ensures forall v :: Maps(Bag(buckets), equals, key, v) <==> r == Some(v)
    {
      var i, j := Locate(key);
      if j.None? {
        return None;
      }
      r := Some(buckets[i][j.value].value);
    }

    /** __hashmap_resize, with room for all entries or not at all. */
    method Resize(capacity: nat) returns (ok: bool)
      requires Valid() && capacity > 0
      modifies this`buckets
      ensures Valid() && Bag(buckets) == old(Bag(buckets))
      ensures ok == (size <= capacity) && |buckets| == if ok then capacity else old(|buckets|)
    {
      if capacity < size {
        return false;
      }
      hide Unique, Coherent, Placed, Bag;
      buckets := MoveAll(buckets, capacity);
      ok := true;
    }

    /** The entries of all chains, in new chains. */
    method MoveAll(chains: Buckets, capacity: nat) returns (grown: Buckets)
      requires capacity > 0 && Placed(chains, hash)
      ensures |grown| == capacity && Placed(grown, hash) && Bag(grown) == Bag(chains)
    {
      grown := seq(capacity, _ => []);
      FlatEmpty(grown);
      assert Placed(grown, hash) && Bag(grown) == multiset{};
      assert chains[0..] == chains;
      hide Bag;
      for i := 0 to |chains|
        invariant |grown| == capacity && Placed(grown, hash) && Bag(grown) + Bag(chains[i..]) == Bag(chains)
      {
        BagFirst(chains, i);
        grown := MoveChain(grown, chains[i]);
      }
      BagNone();
    }

    /** Puts the entries of a chain in front of the chains they now belong to. */
    method MoveChain(grown0: Buckets, chain: seq<Entry>) returns (grown: Buckets)
      requires |grown0| > 0 && Placed(grown0, hash)
      requires forall j :: 0 <= j < |chain| ==> chain[j].hash == hash(chain[j].key)
      ensures |grown| == |grown0| && Placed(grown, hash) && Bag(grown) == Bag(grown0) + multiset(chain)
    {
      hide Bag, Placed;
      grown := grown0;
      for j := 0 to |chain|
        invariant |grown| == |grown0| && Placed(grown, hash) && Bag(grown) == Bag(grown0) + multiset(chain[..j])
      {
        var k := chain[j].hash % |grown|;
        ChainAdded(grown, hash, k, chain[j]);
        assert chain[..j + 1] == chain[..j] + [chain[j]];
        grown := grown[k := [chain[j]] + grown[k]];
      }
      assert chain[..|chain|] == chain;
    }

    /** hashmap_insert: a key that is there stays as it is. */
    method Insert(key: Key, value: Value) returns (r: int)
      requires Valid()
      modifies this
      ensures Valid() && r == if old(Absent(Bag(buckets), equals, key)) then 1 else 0
      ensures r == 0 ==> Bag(buckets) == old(Bag(buckets))
      ensures r == 1 ==> Bag(buckets) == old(Bag(buckets)) + multiset{Entry(key, value, hash(key))}
      ensures r == 1 ==> MapsBut(old(Bag(buckets)), Bag(buckets), equals, key, Some(value))
    {
      hide Coherent, Placed, Unique, Absent, MapsBut, Bag;
      if (size + 1) * loadDen > loadNum * |buckets| {
        var ok := Resize(2 * |buckets|);
        if !ok {
          return -1;
        }
      } else {
        LoadFits(size + 1, |buckets|, loadNum, loadDen);
      }
      var i, j := Locate(key);
      if j.Some? {
        return 0;
      }
      var e := Entry(key, value, hash(key));
      MapsAdded(Bag(buckets), equals, hash, e);
      ChainAdded(buckets, hash, i, e);
      buckets := buckets[i := [e] + buckets[i]];
      size := size + 1;
      r := 1;
    }

    /** hashmap_erase. */
    method Erase(key: Key) returns (found: bool)
      requires Valid()
      modifies this
      ensures Valid() && found == !old(Absent(Bag(buckets), equals, key))
      ensures !found ==> Bag(buckets) == old(Bag(buckets))
      ensures Absent(Bag(buckets), equals, key)
      ensures MapsBut(old(Bag(buckets)), Bag(buckets), equals, key, None)
    {
      var i, j := Locate(key);
      if j.None? {
        AbsentMaps(Bag(buckets), equals, hash, key);
        return false;
      }
      ghost var e := buckets[i][j.value];
      MapsRemoved(Bag(buckets), equals, hash, e);
      EqualKeys(Bag(buckets), Bag(buckets) - multiset{e}, equals, hash, e.key, key, None);
      ChainCut(buckets, hash, i, j.value);
      hide Placed, Unique, Absent, MapsBut, Bag;
      buckets := buckets[i := buckets[i][..j.value] + buckets[i][j.value + 1..]];
      size := size - 1;
      found := true;
    }

    /** hashmap_insert_or_assign. */
    method InsertOrAssign(key: Key, value: Value) returns (r: int)
      requires Valid()
      modifies this
      ensures Valid() && r == if old(Absent(Bag(buckets), equals, key)) then 1 else 2
      ensures MapsBut(old(Bag(buckets)), Bag(buckets), equals, key, Some(value))
      ensures size == old(size) + if r == 1 then 1 else 0
    {
      hide Placed, Unique, Absent, MapsBut, Bag, Coherent;
      var i, j := Locate(key);
      if j.Some? {
        var e := buckets[i][j.value];
        MapsAssigned(Bag(buckets), equals, hash, e, key, value);
        ChainAssigned(buckets, hash, i, j.value, value);
        buckets := buckets[i := buckets[i][j.value := e.(value := value)]];
        return 2;
      }
      r := Insert(key, value);
    }

    /** hashmap_rehash. */
    method Rehash(capacity: nat) returns (ok: bool)
      requires Valid()
      modifies this`buckets
      ensures Valid() && Bag(buckets) == old(Bag(buckets))
      ensures ok == (capacity > 0 && size <= capacity) && |buckets| == if ok then capacity else old(|buckets|)
    {
      if capacity == 0 {
        return false;
      }
      ok := Resize(capacity);
    }

    /** hashmap_reserve: room for count entries below the load factor, as far as sizes go. */
    method Reserve(count: nat) returns (ok: bool)
      requires Valid()
      modifies this`buckets
      ensures Valid() && ok && Bag(buckets) == old(Bag(buckets)) && |buckets| >= old(|buckets|)
      ensures count * loadDen <= |buckets| * loadNum || |buckets| >= SIZE_MAX
    {
      hide Coherent, Placed, Unique, Bag;
      var required := |buckets|;
      if required < DEFAULT_CAPACITY {
        required := DEFAULT_CAPACITY;
      }
      while count * loadDen > required * loadNum
        invariant required > 0 && (required >= |buckets| || required == SIZE_MAX)
        decreases SIZE_MAX - required
      {
        if required > SIZE_MAX / 2 {
          required := SIZE_MAX;
          break;
        }
        required := 2 * required;
      }
      ok := true;
      if required > |buckets| {
        ok := Resize(required);
      }
    }

    /** hashmap_clear. */
    method Clear()
      requires Valid()
      modifies this
      ensures Valid() && size == 0 && Bag(buckets) == multiset{} && |buckets| == old(|buckets|)
    {
      ghost var n := |buckets|;
      for i := 0 to |buckets|
        invariant |buckets| == n && forall k :: 0 <= k < i ==> buckets[k] == []
      {
        if |buckets[i]| > 0 {
          buckets := buckets[i := []];
        }
      }
      FlatEmpty(buckets);
      size := 0;
    }

    /** The first entry at or after the start of bucket b. */
    method FirstFrom(b: nat) returns (it: Iterator)
      requires b <= |buckets|
      ensures if Flat(buckets[..b]) == Flat(buckets) then it.pos == -1
              else Stands(buckets, it.bucket, it.pos) && Rank(buckets, it.bucket, it.pos) == |Flat(buckets[..b])|
    {
      hide Flat;
      for i := b to |buckets|
        invariant Flat(buckets[..i]) == Flat(buckets[..b])
      {
        FlatSplit(buckets, i);
        if |buckets[i]| > 0 {
          return Iterator(i, 0);
        }
      }
      assert buckets[..|buckets|] == buckets;
      it := Iterator(b, -1);
    }

    /** hashmap_begin. */
    method Begin() returns (it: Iterator)
      requires Valid()
      ensures if size == 0 then it.pos == -1 else Stands(buckets, it.bucket, it.pos) && Rank(buckets, it.bucket, it.pos) == 0
    {
      if size == 0 {
        return Iterator(0, -1);
      }
      assert buckets[..0] == [];
      it := FirstFrom(0);
    }

    /** hashmap_next: the entry after, or the end. */
    method Next(it: Iterator) returns (r: Iterator)
      requires Valid() && (it.pos != -1 ==> Stands(buckets, it.bucket, it.pos))
      ensures it.pos == -1 ==> r == it
      ensures Stands(buckets, it.bucket, it.pos) ==>
                var rank := Rank(buckets, it.bucket, it.pos);
                if rank + 1 == size then r.pos == -1
                else Stands(buckets, r.bucket, r.pos) && Rank(buckets, r.bucket, r.pos) == rank + 1
    {
      if it.pos == -1 {
        return it;
      }
      hide Flat, Placed, Unique, Coherent;
      FlatSplit(buckets, it.bucket);
      if it.pos + 1 < |buckets[it.bucket]| {
        FlatAt(buckets, it.bucket, it.pos + 1);
        return it.(pos := it.pos + 1);
      }
      r := FirstFrom(it.bucket + 1);
    }

    /** A loop from hashmap_begin by hashmap_next meets every entry exactly once. */
    method Traverse() returns (out: seq<Entry>)
      requires Valid()
      ensures out == Flat(buckets) && |out| == size && multiset(out) == Bag(buckets)
    {
      hide Flat, Placed, Unique, Coherent;
      out := [];
      var it := Begin();
      while it.pos != -1
        invariant it.pos == -1 ==> |out| == size
        invariant it.pos != -1 ==> Stands(buckets, it.bucket, it.pos) && Rank(buckets, it.bucket, it.pos) == |out|
        invariant |out| <= size && out == Flat(buckets)[..|out|]
        decreases size - |out|, if it.pos == -1 then 0 else 1
      {
        FlatAt(buckets, it.bucket, it.pos);
        out := out + [buckets[it.bucket][it.pos]];
        it := Next(it);
      }
    }
  }
}
