/** The separate-chaining hash table of Lab06 (MyHashTable): an array of
    chains indexed by univHash, keys kept unique, the bucket count a prime
    taken from a sieve-filled cache, and a full rehash when the load factor
    leaves (1/8, 1/2]. */
module HashTables {
  import opened Wrappers
  import opened Primes
  import opened Hashing

  /** HashedObj: a key with its value; two objects are equal when their
      keys are. */
  datatype Entry<V> = Entry(key: Key, value: V)

  predicate HasKey<V>(chain: seq<Entry<V>>, k: Key)
  {
    exists j :: 0 <= j < |chain| && chain[j].key == k
  }

  /** An entry of chain b agrees with the map and sits in its own bucket. */
  ghost predicate EntryOk<V>(n: nat, m: map<Key, V>, b: nat, e: Entry<V>)
    requires n > 0
  {
    e.key in m && m[e.key] == e.value && Bucket(e.key, n) == b
  }

  /** The chains `bs` store exactly the map `m`: every entry is in the
      bucket its key hashes to, no chain holds a key twice, and every key of
      the map is in its bucket. */
  ghost predicate Placed<V>(bs: seq<seq<Entry<V>>>, m: map<Key, V>)
  {
    |bs| > 0 &&
    (forall b, i :: 0 <= b < |bs| && 0 <= i < |bs[b]| ==> EntryOk(|bs|, m, b, bs[b][i])) &&
    (forall b, i, j :: 0 <= b < |bs| && 0 <= i < j < |bs[b]| ==> bs[b][i].key != bs[b][j].key) &&
    (forall k :: k in m ==> HasKey(bs[Bucket(k, |bs|)], k))
  }

  lemma PlacedEmpty<V>(bs: seq<seq<Entry<V>>>)
    requires |bs| > 0 && forall b :: 0 <= b < |bs| ==> bs[b] == []
    ensures Placed(bs, map[])
  {
  }

  /** Appending an entry with a new key to its bucket stores the map
      extended with that key. */
  lemma PlacedInsert<V>(bs: seq<seq<Entry<V>>>, m: map<Key, V>, e: Entry<V>)
    requires Placed(bs, m) && e.key !in m
    ensures Placed(bs[Bucket(e.key, |bs|) := bs[Bucket(e.key, |bs|)] + [e]], m[e.key := e.value])
  {
    var n, b := |bs|, Bucket(e.key, |bs|);
    var bs', m' := bs[b := bs[b] + [e]], m[e.key := e.value];
    forall c, i | 0 <= c < n && 0 <= i < |bs'[c]|
      ensures EntryOk(n, m', c, bs'[c][i])
    {
      if c != b || i < |bs[b]| {
        assert bs'[c][i] == bs[c][i];
        assert EntryOk(n, m, c, bs[c][i]);
      }
    }
    forall c, i, j | 0 <= c < n && 0 <= i < j < |bs'[c]|
      ensures bs'[c][i].key != bs'[c][j].key
    {
      if c == b && j == |bs[b]| {
        assert EntryOk(n, m, c, bs[c][i]);
      }
    }
    forall k | k in m'
      ensures HasKey(bs'[Bucket(k, n)], k)
    {
      if k == e.key {
        assert bs'[b][|bs[b]|] == e;
      } else {
        var j :| 0 <= j < |bs[Bucket(k, n)]| && bs[Bucket(k, n)][j].key == k;
        assert bs'[Bucket(k, n)][j] == bs[Bucket(k, n)][j];
      }
    }
  }

  /** Erasing the entry at position i of chain b stores the map without
      that entry's key. */
  lemma PlacedRemove<V>(bs: seq<seq<Entry<V>>>, m: map<Key, V>, b: nat, i: nat)
    requires Placed(bs, m) && b < |bs| && i < |bs[b]|
    ensures Placed(bs[b := bs[b][..i] + bs[b][i + 1..]], m - {bs[b][i].key})
  {
    var bs' := bs[b := bs[b][..i] + bs[b][i + 1..]];
    RemoveEntriesOk(bs, m, b, i, bs');
    RemoveUnique(bs, m, b, i, bs');
    RemoveKeysKept(bs, m, b, i, bs');
  }

  /** Position p of chain b after erasing position i held position p or
      p + 1 before. */
  lemma ErasedAt<V>(chain: seq<Entry<V>>, i: nat, p: nat)
    requires i < |chain| && p < |chain| - 1
    ensures (chain[..i] + chain[i + 1..])[p] == chain[if p < i then p else p + 1]
  {
  }

  lemma RemoveEntriesOk<V>(bs: seq<seq<Entry<V>>>, m: map<Key, V>, b: nat, i: nat, bs': seq<seq<Entry<V>>>)
    requires Placed(bs, m) && b < |bs| && i < |bs[b]| && bs' == bs[b := bs[b][..i] + bs[b][i + 1..]]
    ensures forall c, p :: 0 <= c < |bs'| && 0 <= p < |bs'[c]| ==> EntryOk(|bs'|, m - {bs[b][i].key}, c, bs'[c][p])
  {
    var n, k := |bs|, bs[b][i].key;
    forall c, p | 0 <= c < n && 0 <= p < |bs'[c]|
      ensures EntryOk(n, m - {k}, c, bs'[c][p])
    {
      if c == b {
        var q := if p < i then p else p + 1;
        ErasedAt(bs[b], i, p);
        assert EntryOk(n, m, c, bs[b][q]);
        if q < i {
          assert bs[b][q].key != bs[b][i].key;
        } else {
          assert bs[b][i].key != bs[b][q].key;
        }
      } else {
        assert EntryOk(n, m, c, bs[c][p]);
        assert Bucket(k, n) == b;
      }
    }
  }

  lemma RemoveUnique<V>(bs: seq<seq<Entry<V>>>, m: map<Key, V>, b: nat, i: nat, bs': seq<seq<Entry<V>>>)
    requires Placed(bs, m) && b < |bs| && i < |bs[b]| && bs' == bs[b := bs[b][..i] + bs[b][i + 1..]]
    ensures forall c, p, r :: 0 <= c < |bs'| && 0 <= p < r < |bs'[c]| ==> bs'[c][p].key != bs'[c][r].key
  {
    forall c, p, r | 0 <= c < |bs'| && 0 <= p < r < |bs'[c]|
      ensures bs'[c][p].key != bs'[c][r].key
    {
      if c == b {
        ErasedAt(bs[b], i, p);
        ErasedAt(bs[b], i, r);
      }
    }
  }

  lemma RemoveKeysKept<V>(bs: seq<seq<Entry<V>>>, m: map<Key, V>, b: nat, i: nat, bs': seq<seq<Entry<V>>>)
    requires Placed(bs, m) && b < |bs| && i < |bs[b]| && bs' == bs[b := bs[b][..i] + bs[b][i + 1..]]
    ensures forall k :: k in m - {bs[b][i].key} ==> HasKey(bs'[Bucket(k, |bs'|)], k)
  {
    var n := |bs|;
    forall k2 | k2 in m - {bs[b][i].key}
      ensures HasKey(bs'[Bucket(k2, n)], k2)
    {
      var c := Bucket(k2, n);
      var j :| 0 <= j < |bs[c]| && bs[c][j].key == k2;
      if c == b {
        assert j != i;
        var j' := if j < i then j else j - 1;
        ErasedAt(bs[b], i, j');
        assert bs'[c][j'] == bs[c][j];
      } else {
        assert bs'[c][j] == bs[c][j];
      }
    }
  }

  /** The keys of `m` that a rehash has moved after old bucket i's first j
      entries: those of the buckets before i, and those among `done` (the
      first entries of bucket i). */
  ghost predicate MovedSoFar<V>(moved: map<Key, V>, m: map<Key, V>, n: nat, i: nat, done: seq<Entry<V>>)
    requires n > 0
  {
    (forall k :: k in moved <==> k in m && (Bucket(k, n) < i || (Bucket(k, n) == i && HasKey(done, k)))) &&
    (forall k :: k in moved ==> moved[k] == m[k])
  }

  /** Moving the next entry of old bucket i. */
  lemma MovedStep<V>(bs: seq<seq<Entry<V>>>, m: map<Key, V>, moved: map<Key, V>, i: nat, j: nat)
    requires Placed(bs, m) && i < |bs| && j < |bs[i]|
    requires MovedSoFar(moved, m, |bs|, i, bs[i][..j])
    ensures bs[i][j].key !in moved
    ensures MovedSoFar(moved[bs[i][j].key := bs[i][j].value], m, |bs|, i, bs[i][..j + 1])
  {
    var n, e := |bs|, bs[i][j];
    assert EntryOk(n, m, i, e);
    forall p | 0 <= p < j
      ensures bs[i][..j][p].key != e.key
    {
      assert bs[i][p].key != bs[i][j].key;
    }
    var moved' := moved[e.key := e.value];
    forall k
      ensures k in moved' <==> k in m && (Bucket(k, n) < i || (Bucket(k, n) == i && HasKey(bs[i][..j + 1], k)))
    {
      if HasKey(bs[i][..j + 1], k) && k != e.key {
        var p :| 0 <= p < j + 1 && bs[i][..j + 1][p].key == k;
        assert bs[i][..j][p] == bs[i][..j + 1][p];
      }
      if HasKey(bs[i][..j], k) {
        var p :| 0 <= p < j && bs[i][..j][p].key == k;
        assert bs[i][..j + 1][p] == bs[i][..j][p];
      }
      assert bs[i][..j + 1][j] == e;
    }
  }

  /** When old bucket i is done, the moved keys are those of the buckets
      up to and including i. */
  lemma MovedBucket<V>(bs: seq<seq<Entry<V>>>, m: map<Key, V>, moved: map<Key, V>, i: nat)
    requires Placed(bs, m) && i < |bs|
    requires MovedSoFar(moved, m, |bs|, i, bs[i][..|bs[i]|])
    ensures MovedSoFar(moved, m, |bs|, i + 1, [])
  {
    assert bs[i][..|bs[i]|] == bs[i];
    forall k | k in m && Bucket(k, |bs|) == i
      ensures k in moved
    {
      assert HasKey(bs[Bucket(k, |bs|)], k);
    }
  }

  /** One entry of a rehash: entry j of old chain i joins its bucket of
      the new table `nb`, which then stores one more key. */
  lemma RehashStep<V>(bs: seq<seq<Entry<V>>>, m: map<Key, V>, i: nat, j: nat, chain: seq<Entry<V>>,
                      nb: seq<seq<Entry<V>>>, moved: map<Key, V>, nb': seq<seq<Entry<V>>>, moved': map<Key, V>)
    requires Placed(bs, m) && i < |bs| && chain == bs[i] && j < |chain|
    requires MovedSoFar(moved, m, |bs|, i, chain[..j]) && Placed(nb, moved)
    requires nb' == nb[Bucket(chain[j].key, |nb|) := nb[Bucket(chain[j].key, |nb|)] + [chain[j]]]
    requires moved' == moved[chain[j].key := chain[j].value]
    ensures Placed(nb', moved') && MovedSoFar(moved', m, |bs|, i, chain[..j + 1])
  {
    MovedStep(bs, m, moved, i, j);
    PlacedInsert(nb, moved, chain[j]);
  }

  lemma MovedAll<V>(m: map<Key, V>, moved: map<Key, V>, n: nat)
    requires n > 0 && MovedSoFar(moved, m, n, n, [])
    ensures moved == m
  {
  }

  /** The loops of rehash: every entry of every old chain, in order, joins
      its bucket of a new table of `newSize` empty chains. */
  method RehashInto<V>(table: array<seq<Entry<V>>>, ghost m: map<Key, V>, newSize: nat)
    returns (newTable: array<seq<Entry<V>>>)
    requires Placed(table[..], m) && newSize > 0
    ensures fresh(newTable) && newTable.Length == newSize && Placed(newTable[..], m)
  {
    newTable := new seq<Entry<V>>[newSize](_ => []);
    PlacedEmpty(newTable[..]);
    ghost var bs := table[..];
    ghost var moved: map<Key, V> := map[];
    for i := 0 to table.Length
      modifies newTable
      invariant Placed(newTable[..], moved)
      invariant MovedSoFar(moved, m, |bs|, i, [])
    {
      var chain := table[i];
      for j := 0 to |chain|
        modifies newTable
        invariant Placed(newTable[..], moved)
        invariant MovedSoFar(moved, m, |bs|, i, chain[..j])
      {
        var e := chain[j];
        var newIndex := UnivHash(e.key, newSize);
        ghost var before, moved0 := newTable[..], moved;
        newTable[newIndex] := newTable[newIndex] + [e];
        moved := moved[e.key := e.value];
        RehashStep(bs, m, i, j, chain, before, moved0, newTable[..], moved);
      }
      MovedBucket(bs, m, moved, i);
    }
    MovedAll(m, moved, table.Length);
  }

  /** nextPrime(n) returned r: a prime with no prime in [n, r), and r >= n
      unless the sieve up to 2n found no prime in [n, 2n). */
  ghost predicate NextPrimeOf(n: nat, r: nat)
  {
    IsPrime(r) &&
    (forall p :: n <= p < r ==> !IsPrime(p)) &&
    (r >= n || forall p :: n <= p < 2 * n ==> !IsPrime(p))
  }

  /** Bertrand's postulate at n: some prime lies in [n, 2n) (vacuous for
      n <= 1, where every prime is at least n anyway). */
  ghost predicate BertrandAt(n: nat)
  {
    n <= 1 || exists p :: n <= p < 2 * n && IsPrime(p)
  }

  /** Where Bertrand's postulate holds, nextPrime(n) is at least n. */
  lemma NextPrimeAtLeast(n: nat, r: nat)
    requires NextPrimeOf(n, r) && BertrandAt(n)
    ensures r >= n
  {
  }

  /** Where Bertrand's postulate holds, nextPrime(n) has one answer, so
      the capacity after a resize is determined by the old capacity. */
  lemma NextPrimeUnique(n: nat, r1: nat, r2: nat)
    requires NextPrimeOf(n, r1) && NextPrimeOf(n, r2) && BertrandAt(n)
    ensures r1 == r2
  {
    NextPrimeAtLeast(n, r1);
    NextPrimeAtLeast(n, r2);
  }

  /** The smallest prime from 15 on is 17. */
  lemma NextPrimeOfFifteen(r: nat)
    requires NextPrimeOf(15, r)
    ensures r == 17
  {
    assert IsPrime(17) by {
      forall d | 2 <= d < 17
        ensures 17 % d != 0
      {
        assert d == 2 || d == 3 || d == 4 || d == 5 || d == 6 || d == 7 || d == 8 || d == 9 ||
               d == 10 || d == 11 || d == 12 || d == 13 || d == 14 || d == 15 || d == 16;
      }
    }
    assert !IsPrime(15) by {
      assert 15 % 3 == 0;
    }
    assert !IsPrime(16) by {
      assert 16 % 2 == 0;
    }
  }

  /** The index a leftmost binary search stops at in the cache: every
      cached prime before it is below n. */
  lemma CacheSearch(limit: nat, n: nat, left: nat)
    requires left < |PrimesBelow(limit)|
    requires forall k :: 0 <= k < left ==> PrimesBelow(limit)[k] < n
    requires left == |PrimesBelow(limit)| - 1 || PrimesBelow(limit)[left] >= n
    ensures forall p :: n <= p < PrimesBelow(limit)[left] ==> !IsPrime(p)
    ensures PrimesBelow(limit)[left] < n ==> forall p :: n <= p < limit ==> !IsPrime(p)
    ensures IsPrime(PrimesBelow(limit)[left])
  {
    var cache := PrimesBelow(limit);
    PrimesBelowSpec(limit);
    assert cache[left] in cache;
    forall p | n <= p < cache[left]
      ensures p !in cache
    {
      forall k | 0 <= k < |cache|
        ensures cache[k] != p
      {
        if k > left {
          assert cache[left] < cache[k];
        }
      }
    }
    if cache[left] < n {
      forall p | n <= p
        ensures p !in cache
      {
        forall k | 0 <= k < |cache|
          ensures cache[k] != p
        {
          if k < left {
            assert cache[k] < cache[left];
          }
        }
      }
    }
  }

  /** The binary search of nextPrime: the leftmost index of an ascending
      sequence whose element is at least n, or its last index when there
      is none. */
  method LeftmostAtLeast(a: seq<nat>, n: nat) returns (left: nat)
    requires a != [] && StrictlyAscending(a)
    ensures left < |a|
    ensures forall k :: 0 <= k < left ==> a[k] < n
    ensures left == |a| - 1 || a[left] >= n
  {
    var right := |a| - 1;
    left := 0;
    while left < right
      invariant 0 <= left <= right < |a|
      invariant forall k :: 0 <= k < left ==> a[k] < n
      invariant right == |a| - 1 || a[right] >= n
      decreases right - left
    {
      var mid := left + (right - left) / 2;
      if a[mid] < n {
        left := mid + 1;
      } else {
        right := mid;
      }
    }
  }

  /** The prime the search finds is the next prime from n on, provided the
      cache reaches n or was just rebuilt up to 2n. */
  lemma CacheAnswer(limit: nat, n: nat, left: nat)
    requires left < |PrimesBelow(limit)|
    requires forall k :: 0 <= k < left ==> PrimesBelow(limit)[k] < n
    requires left == |PrimesBelow(limit)| - 1 || PrimesBelow(limit)[left] >= n
    requires limit == 2 * n || PrimesBelow(limit)[|PrimesBelow(limit)| - 1] >= n
    ensures NextPrimeOf(n, PrimesBelow(limit)[left])
  {
    CacheSearch(limit, n, left);
  }

  class HashTable<V> {
    var theSize: nat
    var table: array<seq<Entry<V>>>
    /** The cache of primes, ascending. */
    var primes: seq<nat>
    /** What the table stores, key by key. */
    ghost var contents: map<Key, V>
    /** The limit the cache was last sieved up to. */
    ghost var sieveLimit: nat

    /** The chains store `contents` and theSize counts its keys. */
    ghost predicate Stored()
      reads this, table
    {
      Placed(table[..], contents) && theSize == |contents|
    }

    /** The cache holds the primes below its limit, and is not empty. */
    ghost predicate CacheOk()
      reads this
    {
      primes == PrimesBelow(sieveLimit) && primes != []
    }

    ghost predicate Valid()
      reads this, table
    {
      Stored() && CacheOk() && IsPrime(table.Length)
    }

    /** The bounded load factor: at most one key per two chains. */
    ghost predicate LoadBounded()
      reads this, table
    {
      2 * theSize <= table.Length
    }

    /** preCalPrimes: the cache becomes the primes in [2, 2n). */
    method PreCalPrimes(n: nat)
      requires n >= 2
      modifies this
      ensures primes == PrimesBelow(2 * n) && sieveLimit == 2 * n && CacheOk()
      ensures theSize == old(theSize) && table == old(table) && contents == old(contents)
    {
      var limit := n * 2;
      var isPrime := Sieve(limit);
      primes := CollectPrimes(isPrime);
      sieveLimit := limit;
      PrimesBelowSpec(limit);
      assert 2 in primes;
    }

    /** nextPrime: regenerates the cache when it is empty or ends below n,
        then returns the leftmost cached prime that is at least n. */
    method NextPrime(n: nat) returns (r: nat)
      requires primes == PrimesBelow(sieveLimit)
      requires n >= 2 || primes != []
      modifies this
      ensures CacheOk() && NextPrimeOf(n, r)
      ensures old(primes) != [] && old(primes[|primes| - 1]) >= n ==> primes == old(primes)
      ensures theSize == old(theSize) && table == old(table) && contents == old(contents)
    {
      if primes == [] || primes[|primes| - 1] < n {
        assert n >= 2 by {
          if primes != [] {
            PrimesBelowSpec(sieveLimit);
            assert primes[|primes| - 1] in primes;
          }
        }
        PreCalPrimes(n);
      }
      PrimesBelowSpec(sieveLimit);
      var left := LeftmostAtLeast(primes, n);
      r := primes[left];
      CacheAnswer(sieveLimit, n, left);
    }

    /** MyHashTable(init_size): nextPrime(init_size) empty chains. */
    constructor (initSize: nat)
      requires initSize >= 2
      ensures Valid() && contents == map[] && theSize == 0 && LoadBounded()
      ensures NextPrimeOf(initSize, table.Length)
    {
      theSize := 0;
      primes := [];
      sieveLimit := 0;
      contents := map[];
      table := new seq<Entry<V>>[0];
      new;
      var tableSize := NextPrime(initSize);
      table := new seq<Entry<V>>[tableSize](_ => []);
      PlacedEmpty(table[..]);
    }

    /** find: the position of the key in its chain, if it is there. */
    method Find(key: Key) returns (pos: Option<nat>)
      requires Valid()
      ensures pos.Some? ==> key in contents && pos.value < |table[Bucket(key, table.Length)]| &&
                            table[Bucket(key, table.Length)][pos.value] == Entry(key, contents[key])
      ensures pos.None? <==> key !in contents
    {
      var index := UnivHash(key, table.Length);
      var chain := table[index];
      for i := 0 to |chain|
        invariant forall j :: 0 <= j < i ==> chain[j].key != key
      {
        if chain[i].key == key {
          assert EntryOk(table.Length, contents, index, table[index][i]);
          return Some(i);
        }
      }
      assert !HasKey(chain, key);
      assert table[..][index] == chain;
      return None;
    }

    method Contains(key: Key) returns (r: bool)
      requires Valid()
      ensures r <==> key in contents
    {
      var pos := Find(key);
      r := pos.Some?;
    }

    /** retrieve: the stored entry for the key, if any. */
    method Retrieve(key: Key) returns (r: Option<Entry<V>>)
      requires Valid()
      ensures r.Some? <==> key in contents
      ensures r.Some? ==> r.value == Entry(key, contents[key])
    {
      var contained := Contains(key);
      if contained {
        var pos := Find(key);
        var index := UnivHash(key, table.Length);
        r := Some(table[index][pos.value]);
      } else {
        r := None;
      }
    }

    /** rehash: moves every entry, bucket by bucket, into newSize fresh
        chains at univHash(key, newSize). */
    method Rehash(newSize: nat)
      requires Valid() && newSize > 0
      modifies this
      ensures Stored() && fresh(table) && table.Length == newSize
      ensures contents == old(contents) && theSize == old(theSize)
      ensures primes == old(primes) && sieveLimit == old(sieveLimit)
    {
      var newTable := RehashInto(table, contents, newSize);
      table := newTable;
    }

    /** doubleTable: rehash into nextPrime(2 * capacity + 1) chains. */
    method DoubleTable()
      requires Valid()
      modifies this
      ensures Valid() && fresh(table) && NextPrimeOf(2 * old(table.Length) + 1, table.Length)
      ensures contents == old(contents) && theSize == old(theSize)
    {
      var newSize := NextPrime(2 * table.Length + 1);
      Rehash(newSize);
    }

    /** halveTable: rehash into nextPrime(capacity / 2) chains. */
    method HalveTable()
      requires Valid()
      modifies this
      ensures Valid() && fresh(table) && NextPrimeOf(old(table.Length) / 2, table.Length)
      ensures contents == old(contents) && theSize == old(theSize)
    {
      var newSize := NextPrime(table.Length / 2);
      Rehash(newSize);
    }

    /** The push_back of insert: the entry joins the chain of its bucket. */
    method AddToChain(x: Entry<V>)
      requires Valid() && x.key !in contents
      modifies this, table
      ensures Valid() && table == old(table)
      ensures contents == old(contents)[x.key := x.value] && theSize == old(theSize) + 1
    {
      var index := UnivHash(x.key, table.Length);
      PlacedInsert(table[..], contents, x);
      table[index] := table[index] + [x];
      contents := contents[x.key := x.value];
      theSize := theSize + 1;
    }

    /** The erase of remove: the entry at position pos of the key's chain
        leaves it. */
    method EraseFromChain(key: Key, pos: nat)
      requires Valid() && key in contents
      requires pos < |table[Bucket(key, table.Length)]| &&
               table[Bucket(key, table.Length)][pos] == Entry(key, contents[key])
      modifies this, table
      ensures Valid() && table == old(table)
      ensures contents == old(contents) - {key} && theSize == old(theSize) - 1
    {
      var index := UnivHash(key, table.Length);
      PlacedRemove(table[..], contents, index, pos);
      table[index] := table[index][..pos] + table[index][pos + 1..];
      contents := contents - {key};
      theSize := theSize - 1;
    }

    /** insert: a key already present is refused and nothing changes;
        otherwise the entry joins its chain, the size grows by one, and the
        table doubles when the load factor passes 1/2 and again when the
        capacity is 7. */
    method Insert(x: Entry<V>) returns (inserted: bool)
      requires Valid()
      modifies this, table
      ensures Valid()
      ensures inserted <==> x.key !in old(contents)
      ensures !inserted ==> contents == old(contents) && theSize == old(theSize) &&
                            table == old(table) && table[..] == old(table[..])
      ensures inserted ==> contents == old(contents)[x.key := x.value] && theSize == old(theSize) + 1
      ensures inserted ==> table.Length != 7
      ensures inserted && 2 * theSize <= old(table.Length) && old(table.Length) != 7 ==> table == old(table)
      ensures inserted && 2 * theSize <= old(table.Length) ==>
                table.Length == if old(table.Length) == 7 then 17 else old(table.Length)
      ensures inserted && 2 * theSize > old(table.Length) ==>
                NextPrimeOf(2 * old(table.Length) + 1, table.Length) ||
                (NextPrimeOf(2 * old(table.Length) + 1, 7) && table.Length == 17)
      ensures old(LoadBounded()) && BertrandAt(2 * old(table.Length) + 1) ==> LoadBounded()
    {
      var present := Contains(x.key);
      if present {
        return false;
      }
      AddToChain(x);
      GrowAfterInsert();
      return true;
    }

    /** The two resize checks that end insert: double when the load passes
        1/2, then double again when the capacity is 7. */
    method GrowAfterInsert()
      requires Valid()
      modifies this
      ensures Valid() && contents == old(contents) && theSize == old(theSize)
      ensures table.Length != 7
      ensures 2 * theSize <= old(table.Length) && old(table.Length) != 7 ==> table == old(table)
      ensures 2 * theSize <= old(table.Length) ==>
                table.Length == if old(table.Length) == 7 then 17 else old(table.Length)
      ensures 2 * theSize > old(table.Length) ==>
                NextPrimeOf(2 * old(table.Length) + 1, table.Length) ||
                (NextPrimeOf(2 * old(table.Length) + 1, 7) && table.Length == 17)
      ensures 2 * theSize <= old(table.Length) + 2 && BertrandAt(2 * old(table.Length) + 1) ==> LoadBounded()
    {
      ghost var c := table.Length;
      if 2 * theSize > table.Length {
        DoubleTable();
        if BertrandAt(2 * c + 1) {
          NextPrimeAtLeast(2 * c + 1, table.Length);
        }
      }
      if table.Length == 7 {
        DoubleTable();
        NextPrimeOfFifteen(table.Length);
      }
    }

    /** remove: an absent key changes nothing; otherwise its entry is
        erased, the size drops by one, and the table halves when the load
        factor falls below 1/8. */
    method Remove(key: Key) returns (removed: bool)
      requires Valid()
      modifies this, table
      ensures Valid()
      ensures removed <==> key in old(contents)
      ensures !removed ==> contents == old(contents) && theSize == old(theSize) &&
                           table == old(table) && table[..] == old(table[..])
      ensures removed ==> contents == old(contents) - {key} && theSize == old(theSize) - 1
      ensures removed && 8 * theSize >= old(table.Length) ==> table == old(table)
      ensures removed && 8 * theSize < old(table.Length) ==> NextPrimeOf(old(table.Length) / 2, table.Length)
      ensures old(LoadBounded()) && BertrandAt(old(table.Length) / 2) ==> LoadBounded()
    {
      var pos := Find(key);
      if pos.None? {
        return false;
      }
      ghost var c := table.Length;
      EraseFromChain(key, pos.value);
      if 8 * theSize < table.Length {
        HalveTable();
        if BertrandAt(c / 2) {
          NextPrimeAtLeast(c / 2, table.Length);
          assert 2 * theSize <= c / 2;
        }
      }
      return true;
    }

    function Size(): (r: nat)
      reads this, table
      requires Valid()
      ensures r == |contents|
    {
      theSize
    }

    /** capacity(): the number of chains (the vector's capacity equals its
        size, as it keeps no spare room). */
    function Capacity(): (r: nat)
      reads this, table
      requires Valid()
      ensures IsPrime(r) && r == table.Length
    {
      table.Length
    }
  }
}
