/** The chained hash table: a power-of-two array of singly linked chains whose entries
    are relinked in place when the table grows. It behaves as a map. */
module Dict {
  import opened Bits
  import opened Bytes

  const INITIAL_SIZE: nat := 4

  /** The smallest power of two from 4 up that is at least `size`. */
  method NextPower(size: nat) returns (n: nat)
    ensures IsPowerOfTwo(n) && n >= 4 && n >= size && (n == 4 || n / 2 < size)
  {
    n := INITIAL_SIZE;
    assert IsPowerOfTwo(2) && IsPowerOfTwo(4);
    while n < size
      invariant IsPowerOfTwo(n) && n >= INITIAL_SIZE
      invariant n == INITIAL_SIZE || n / 2 < size
    {
      n := n * 2;
    }
  }

  // ----- Chains -----

  class Entry<K, V> {
    const key: K
    var val: V
    var next: Entry?<K, V>

    constructor (key: K, val: V, next: Entry?<K, V>)
      ensures this.key == key && this.val == val && this.next == next
    {
      this.key, this.val, this.next := key, val, next;
    }
  }

  ghost function Follows<K, V>(chain: seq<Entry<K, V>>, i: nat): Entry?<K, V> {
    if i < |chain| then chain[i] else null
  }

  /** The entries of a chain are linked in order and their keys differ. */
  ghost predicate Linked<K, V>(head: Entry?<K, V>, chain: seq<Entry<K, V>>)
    reads (set e | e in chain)`next
  {
    && head == Follows(chain, 0)
    && (forall i {:trigger chain[i].next} :: 0 <= i < |chain| ==> chain[i].next == Follows(chain, i + 1))
    && (forall i, j :: 0 <= i < j < |chain| ==> chain[i].key != chain[j].key)
  }

  lemma LinkedCons<K, V>(e: Entry<K, V>, head: Entry?<K, V>, chain: seq<Entry<K, V>>)
    requires Linked(head, chain) && e.next == head
    requires forall j :: 0 <= j < |chain| ==> chain[j].key != e.key
    ensures Linked(e, [e] + chain)
  {
    var c := [e] + chain;
    forall i | 0 <= i < |c| ensures c[i].next == Follows(c, i + 1) {
      if i > 0 { assert chain[i - 1].next == Follows(chain, i); }
    }
  }

  /** A chain without its j-th entry. */
  ghost function Without<K, V>(chain: seq<Entry<K, V>>, j: nat): seq<Entry<K, V>>
    requires j < |chain|
  {
    chain[..j] + chain[j + 1..]
  }

  /** Entry i of a chain without its j-th one. */
  lemma WithoutAt<K, V>(chain: seq<Entry<K, V>>, j: nat, i: nat)
    requires j < |chain| && i <= |chain| - 1
    ensures |Without(chain, j)| == |chain| - 1
    ensures i < |chain| - 1 ==> Without(chain, j)[i] == chain[if i < j then i else i + 1]
    ensures Follows(Without(chain, j), i) == Follows(chain, if i < j then i else i + 1)
  {
  }

  /** When the link over the j-th entry has been set, the rest is a chain. */
  lemma LinkedWithout<K, V>(head: Entry?<K, V>, chain: seq<Entry<K, V>>, j: nat)
    requires j < |chain| && head == Follows(chain, if j == 0 then 1 else 0)
    requires forall t {:trigger chain[t].next} :: 0 <= t < |chain| && t != j ==>
               chain[t].next == Follows(chain, if t + 1 == j then j + 1 else t + 1)
    requires forall s, t :: 0 <= s < t < |chain| ==> chain[s].key != chain[t].key
    ensures Linked(head, Without(chain, j))
  {
    var w := Without(chain, j);
    WithoutAt(chain, j, 0);
    forall i | 0 <= i < |w| ensures w[i].next == Follows(w, i + 1) {
      WithoutAt(chain, j, i);
      WithoutAt(chain, j, i + 1);
    }
  }

  lemma {:induction false} SubsetSize<T>(a: set<T>, b: set<T>)
    requires a <= b
    ensures |a| <= |b| && (|a| == |b| ==> a == b)
    decreases |a|
  {
    if a != {} {
      var x :| x in a;
      SubsetSize(a - {x}, b - {x});
      assert a == (a - {x}) + {x} && b == (b - {x}) + {x};
    }
  }

  // ----- Placement -----

  /** The j-th entry of chain b: in its bucket, and registered under its key. */
  ghost predicate Registered<K, V>(hash: K -> nat, mask: nat, e: Entry<K, V>, b: nat, entries: map<K, Entry<K, V>>) {
    And(hash(e.key), mask) == b && e.key in entries && entries[e.key] == e
  }

  /** The chains hold exactly the entries, each once and in the bucket of its masked
      hash; `repr` is the set of the entries. */
  ghost predicate Placed<K, V>(hash: K -> nat, mask: nat, chains: seq<seq<Entry<K, V>>>,
      entries: map<K, Entry<K, V>>, repr: set<Entry<K, V>>) {
    && (forall b, j :: 0 <= b < |chains| && 0 <= j < |chains[b]| ==> Registered(hash, mask, chains[b][j], b, entries))
    && (forall b, i, j :: 0 <= b < |chains| && 0 <= i < j < |chains[b]| ==> chains[b][i].key != chains[b][j].key)
    && (forall k :: k in entries ==> entries[k].key == k && entries[k] in repr && InBucket(hash, mask, chains, entries[k]))
    && (forall e :: e in repr ==> e.key in entries && entries[e.key] == e)
  }

  ghost predicate InBucket<K, V>(hash: K -> nat, mask: nat, chains: seq<seq<Entry<K, V>>>, e: Entry<K, V>) {
    And(hash(e.key), mask) < |chains| && e in chains[And(hash(e.key), mask)]
  }

  /** A new entry at the front of its chain. */
  lemma PlacedCons<K, V>(hash: K -> nat, mask: nat, chains: seq<seq<Entry<K, V>>>,
      entries: map<K, Entry<K, V>>, repr: set<Entry<K, V>>, e: Entry<K, V>)
    requires Placed(hash, mask, chains, entries, repr) && e.key !in entries && And(hash(e.key), mask) < |chains|
    ensures var h := And(hash(e.key), mask);
            Placed(hash, mask, chains[h := [e] + chains[h]], entries[e.key := e], repr + {e})
  {
    hide And;
    var h := And(hash(e.key), mask);
    var chains', entries' := chains[h := [e] + chains[h]], entries[e.key := e];
    forall b, j | 0 <= b < |chains'| && 0 <= j < |chains'[b]| ensures Registered(hash, mask, chains'[b][j], b, entries') {
      if b != h { assert Registered(hash, mask, chains[b][j], b, entries); }
      else if j > 0 { assert Registered(hash, mask, chains[b][j - 1], b, entries); }
    }
    forall k | k in entries' ensures InBucket(hash, mask, chains', entries'[k]) {
      if k == e.key { assert chains'[h][0] == e; }
      else { assert InBucket(hash, mask, chains, entries[k]); }
    }
    assert forall j :: 0 <= j < |chains[h]| ==> Registered(hash, mask, chains[h][j], h, entries) && chains'[h][j + 1] == chains[h][j];
  }

  /** An entry taken out of its chain. */
  lemma PlacedWithout<K, V>(hash: K -> nat, mask: nat, chains: seq<seq<Entry<K, V>>>,
      entries: map<K, Entry<K, V>>, repr: set<Entry<K, V>>, h: nat, j: nat)
    requires Placed(hash, mask, chains, entries, repr) && h < |chains| && j < |chains[h]|
    ensures var e := chains[h][j];
            Placed(hash, mask, chains[h := Without(chains[h], j)], entries - {e.key}, repr - {e})
  {
    hide And;
    var e := chains[h][j];
    var chains', entries' := chains[h := Without(chains[h], j)], entries - {e.key};
    assert Registered(hash, mask, e, h, entries);
    forall b, i | 0 <= b < |chains'| && 0 <= i < |chains'[b]| ensures Registered(hash, mask, chains'[b][i], b, entries') {
      var i' := if b == h && i >= j then i + 1 else i;
      assert chains'[b][i] == chains[b][i'];
      assert Registered(hash, mask, chains[b][i'], b, entries);
    }
    forall k | k in entries' ensures InBucket(hash, mask, chains', entries'[k]) {
      assert InBucket(hash, mask, chains, entries[k]);
      if And(hash(k), mask) == h {
        var i :| 0 <= i < |chains[h]| && chains[h][i] == entries[k];
        assert chains'[h][if i < j then i else i - 1] == entries[k];
      }
    }
  }

  /** Two places in the table hold different keys. */
  lemma KeysDiffer<K, V>(hash: K -> nat, mask: nat, chains: seq<seq<Entry<K, V>>>,
      entries: map<K, Entry<K, V>>, repr: set<Entry<K, V>>, b: nat, i: nat, c: nat, j: nat)
    requires Placed(hash, mask, chains, entries, repr)
    requires b < |chains| && c < |chains| && i < |chains[b]| && j < |chains[c]| && (b != c || i != j)
    ensures chains[b][i].key != chains[c][j].key
  {
    hide And;
    assert Registered(hash, mask, chains[b][i], b, entries) && Registered(hash, mask, chains[c][j], c, entries);
  }

  lemma OwnsUnique<K, V>(hash: K -> nat, m1: nat, c1: seq<seq<Entry<K, V>>>, r1: set<Entry<K, V>>,
                         m2: nat, c2: seq<seq<Entry<K, V>>>, r2: set<Entry<K, V>>, entries: map<K, Entry<K, V>>)
    requires Placed(hash, m1, c1, entries, r1) && Placed(hash, m2, c2, entries, r2)
    ensures r1 == r2
  {
    hide And, InBucket, Registered;
  }

  // ----- Moving to another table -----

  /** m holds the entries of the first i buckets and, of bucket i, the first j. */
  ghost predicate Moved<K, V>(chains: seq<seq<Entry<K, V>>>, entries: map<K, Entry<K, V>>,
      m: map<K, Entry<K, V>>, i: nat, j: nat) {
    && (forall k :: k in m ==> k in entries && m[k] == entries[k])
    && (forall b, t :: 0 <= b < |chains| && 0 <= t < |chains[b]| ==>
          (chains[b][t].key in m <==> b < i || (b == i && t < j)))
  }

  lemma MovedNext<K, V>(hash: K -> nat, mask: nat, chains: seq<seq<Entry<K, V>>>, entries: map<K, Entry<K, V>>,
      repr: set<Entry<K, V>>, m: map<K, Entry<K, V>>, i: nat, j: nat)
    requires Placed(hash, mask, chains, entries, repr) && i < |chains| && j < |chains[i]| && Moved(chains, entries, m, i, j)
    ensures var e := chains[i][j];
            e in repr && e.key !in m && |m| < |entries| && Moved(chains, entries, m[e.key := e], i, j + 1)
  {
    hide And, InBucket;
    var e := chains[i][j];
    assert Registered(hash, mask, e, i, entries);
    SubsetSize(m.Keys + {e.key}, entries.Keys);
    forall b, t | 0 <= b < |chains| && 0 <= t < |chains[b]|
      ensures chains[b][t].key in m[e.key := e] <==> b < i || (b == i && t < j + 1)
    {
      if b != i || t != j { KeysDiffer(hash, mask, chains, entries, repr, b, t, i, j); }
    }
  }

  lemma MovedChain<K, V>(chains: seq<seq<Entry<K, V>>>, entries: map<K, Entry<K, V>>, m: map<K, Entry<K, V>>, i: nat)
    requires i < |chains| && Moved(chains, entries, m, i, |chains[i]|)
    ensures Moved(chains, entries, m, i + 1, 0)
  {
  }

  /** Once every bucket is done, or no entry is left to count, all entries moved. */
  lemma MovedAll<K, V>(hash: K -> nat, mask: nat, chains: seq<seq<Entry<K, V>>>, entries: map<K, Entry<K, V>>,
      repr: set<Entry<K, V>>, m: map<K, Entry<K, V>>, i: nat)
    requires Placed(hash, mask, chains, entries, repr) && Moved(chains, entries, m, i, 0)
    requires i == |chains| || |m| == |entries|
    ensures m == entries
  {
    hide And;
    if i == |chains| {
      forall k | k in entries ensures k in m {
        assert InBucket(hash, mask, chains, entries[k]);
        var b := And(hash(k), mask);
        var t :| 0 <= t < |chains[b]| && chains[b][t] == entries[k];
      }
    }
    SubsetSize(m.Keys, entries.Keys);
  }

  // ----- The table -----

  class Dict<K(==), V> {
    const hash: K -> nat
    var table: array<Entry?<K, V>>
    var size: nat
    var sizemask: nat
    var used: nat

    /** The chains of the table, the entry of each key, and all entries. */
    ghost var chains: seq<seq<Entry<K, V>>>
    ghost var entries: map<K, Entry<K, V>>
    ghost var repr: set<Entry<K, V>>

    ghost predicate Sized()
      reads this`table, this`size, this`sizemask, this`chains
    {
      && table.Length == size == |chains|
      && if size == 0 then sizemask == 0 else sizemask == size - 1 && size >= INITIAL_SIZE && IsPowerOfTwo(size)
    }

    /** Everything but the links. */
    ghost predicate Known()
      reads this`table, this`size, this`sizemask, this`chains, this`entries, this`repr
    {
      Sized() && Placed(hash, sizemask, chains, entries, repr) && ChainsIn(0)
    }

    /** The entries of the chains from bucket i on are in `repr`. */
    ghost predicate ChainsIn(i: nat)
      reads this`chains, this`repr
    {
      forall b, j :: i <= b < |chains| && 0 <= j < |chains[b]| ==> chains[b][j] in repr
    }

    /** The chains from bucket i on are linked as listed. */
    ghost predicate LinkedFrom(i: nat)
      requires Known()
      reads this`table, this`size, this`sizemask, this`chains, this`entries, this`repr, table, repr`next
    {
      forall b :: i <= b < size ==> Linked(table[b], chains[b])
    }

    ghost predicate Shape()
      reads this`table, this`size, this`sizemask, this`chains, this`entries, this`repr, table, repr`next
    {
      Known() && LinkedFrom(0)
    }

    ghost predicate Valid()
      reads this, table, repr`next
    {
      Shape() && used == |entries| && used <= size
    }

    /** The map the table stands for. */
    ghost function Contents(): map<K, V>
      requires Valid()
      reads this, table, repr
    {
      map k | k in entries :: entries[k].val
    }

    constructor (hash: K -> nat)
      ensures Valid() && Contents() == map[] && this.hash == hash
      ensures fresh(table) && repr == {}
    {
      this.hash := hash;
      table := new Entry?<K, V>[0];
      size, sizemask, used := 0, 0, 0;
      chains, entries, repr := [], map[], {};
    }

    /** An empty table with n buckets. */
    constructor OfSize(hash: K -> nat, n: nat)
      requires n >= INITIAL_SIZE && IsPowerOfTwo(n)
      ensures Shape() && entries == map[] && repr == {} && size == n && this.hash == hash && fresh(table)
    {
      this.hash := hash;
      table := new Entry?<K, V>[n](_ => null);
      size, sizemask, used := n, n - 1, 0;
      chains, entries, repr := seq(n, _ => []), map[], {};
    }

    method Find(key: K) returns (he: Entry?<K, V>)
      requires Valid()
      ensures he == if key in entries then entries[key] else null
    {
      if size == 0 {
        return null;
      }
      he := FindIn(And(hash(key), sizemask), key);
    }

    /** Walk the chain of bucket h. */
    method FindIn(h: nat, key: K) returns (he: Entry?<K, V>)
      requires Shape() && size > 0 && h == And(hash(key), sizemask)
      ensures he == if key in entries then entries[key] else null
    {
      hide And, IsPowerOfTwo;
      assert h < size by { BucketInRange(key); }
      ghost var chain := chains[h];
      assert Linked(table[h], chain);
      he := table[h];
      ghost var j := 0;
      while he != null
        invariant 0 <= j <= |chain| && he == Follows(chain, j)
        invariant forall i :: 0 <= i < j ==> chain[i].key != key
        decreases |chain| - j
      {
        assert Registered(hash, sizemask, chain[j], h, entries);
        if he.key == key {
          return;
        }
        he := he.next;
        j := j + 1;
      }
      NotThere(key);
    }

    lemma BucketInRange(key: K)
      requires Sized() && size > 0
      ensures And(hash(key), sizemask) < size
    {
    }

    /** Put an entry with a new key at the front of its chain. */
    method LinkFront(e: Entry<K, V>)
      requires Shape() && size > 0 && e !in repr && e.key !in entries
      modifies table, e`next, this`chains, this`entries, this`repr
      ensures Shape() && entries == old(entries)[e.key := e] && repr == old(repr) + {e}
    {
      hide And, IsPowerOfTwo, Placed;
      var h := And(hash(e.key), sizemask);
      assert h < size by { BucketInRange(e.key); }
      PlacedCons(hash, sizemask, chains, entries, repr, e);
      KeyIsNew(h, e);
      assert Linked(table[h], chains[h]);
      e.next := table[h];
      table[h] := e;
      chains := chains[h := [e] + chains[h]];
      entries := entries[e.key := e];
      repr := repr + {e};
      forall b | 0 <= b < size ensures Linked(table[b], chains[b]) {
        assert old(Linked(table[b], chains[b]));
        if b == h { LinkedCons(e, old(table[h]), old(chains)[h]); }
      }
    }

    lemma KeyIsNew(h: nat, e: Entry<K, V>)
      requires Known() && h < size && e.key !in entries
      ensures forall j :: 0 <= j < |chains[h]| ==> chains[h][j].key != e.key
    {
      hide And, IsPowerOfTwo, InBucket;
      assert forall j :: 0 <= j < |chains[h]| ==> Registered(hash, sizemask, chains[h][j], h, entries);
    }

    lemma NotLinkedYet(e: Entry<K, V>)
      requires Shape() && e.key !in entries
      ensures e !in repr
    {
    }

    /** Move the entries of bucket i to the front of their new chains. */
    method MoveChain(n: Dict<K, V>, i: nat)
      requires n != this && n.table != table && n.Shape() && n.size > 0 && n.hash == hash
      requires Known() && i < size && Moved(chains, entries, n.entries, i, 0) && Linked(table[i], chains[i])
      requires used == |entries| - |n.entries|
      modifies this`used, n`chains, n`entries, n`repr, n.table, (set e | e in chains[i])`next
      ensures n.Shape() && Moved(chains, entries, n.entries, i + 1, 0) && used == |entries| - |n.entries|
    {
      hide And, IsPowerOfTwo, Dict.Shape, Moved, Placed;
      ghost var chain := chains[i];
      var he := table[i];
      assert forall s, t :: 0 <= s < t < |chain| ==> chain[s] != chain[t];
      ghost var j := 0;
      while he != null
        invariant 0 <= j <= |chain| && he == Follows(chain, j)
        invariant n.Shape() && Moved(chains, entries, n.entries, i, j) && used == |entries| - |n.entries|
        invariant forall t {:trigger chain[t].next} :: j <= t < |chain| ==> chain[t].next == Follows(chain, t + 1)
        decreases |chain| - j
      {
        var nextHe := he.next;
        MovedNext(hash, sizemask, chains, entries, repr, n.entries, i, j);
        n.NotLinkedYet(he);
        n.LinkFront(he);
        used := used - 1;
        he := nextHe;
        j := j + 1;
      }
      MovedChain(chains, entries, n.entries, i);
    }

    /** Moving one bucket leaves the chains of the later ones linked. */
    method MoveBucket(n: Dict<K, V>, i: nat)
      requires n != this && n.table != table && n.Shape() && n.size > 0 && n.hash == hash
      requires Known() && i < size && Moved(chains, entries, n.entries, i, 0) && LinkedFrom(i)
      requires used == |entries| - |n.entries|
      modifies this`used, n`chains, n`entries, n`repr, n.table, repr`next
      ensures n.Shape() && Moved(chains, entries, n.entries, i + 1, 0) && LinkedFrom(i + 1)
      ensures used == |entries| - |n.entries|
    {
      hide And, IsPowerOfTwo, Dict.Shape, Moved, Placed, Linked;
      MoveChain(n, i);
      forall b | i < b < size ensures Linked(table[b], chains[b]) {
        ChainsApart(i, b);
        assert old(Linked(table[b], chains[b]));
      }
    }

    lemma ChainsApart(i: nat, b: nat)
      requires Known() && i < size && b < size && i != b
      ensures forall s, t :: 0 <= s < |chains[i]| && 0 <= t < |chains[b]| ==> chains[i][s] != chains[b][t]
    {
      hide Placed;
      forall s, t | 0 <= s < |chains[i]| && 0 <= t < |chains[b]| ensures chains[i][s] != chains[b][t] {
        KeysDiffer(hash, sizemask, chains, entries, repr, i, s, b, t);
      }
    }

    /** Relink every entry into table n. The loop over the buckets stops as soon as no
        entry is left to move. The assertion is that of the source. */
    method MoveAll(n: Dict<K, V>)
      requires Valid() && n.Shape() && n != this && n.table != table && n.size > 0 && n.hash == hash && n.entries == map[]
      modifies this`used, n`chains, n`entries, n`repr, n.table, repr`next
      ensures n.Shape() && n.entries == entries
    {
      hide And, IsPowerOfTwo, Moved, Placed, Linked, Dict.LinkedFrom;
      MovedNone(n.entries);
      assert Known() && LinkedFrom(0) && size == |chains| && Placed(hash, sizemask, chains, entries, repr);
      hide Dict.Shape, Dict.Known, Dict.Sized;
      var i := 0;
      while i < size && used > 0
        invariant 0 <= i <= size == |chains|
        invariant n.Shape() && Known() && Moved(chains, entries, n.entries, i, 0) && used == |entries| - |n.entries|
        invariant LinkedFrom(i)
      {
        MoveBucket(n, i);
        i := i + 1;
      }
      MovedAll(hash, sizemask, chains, entries, repr, n.entries, i);
      assert used == 0;
    }

    lemma MovedNone(m: map<K, Entry<K, V>>)
      requires m == map[]
      ensures Moved(chains, entries, m, 0, 0)
    {
    }

    /** Relink every entry into a table of at least newSize buckets. */
    method Expand(newSize: nat) returns (ok: bool)
      requires Valid()
      modifies this, repr`next
      ensures ok == (old(used) <= newSize) && (!ok ==> unchanged(this) && unchanged(old(repr)))
      ensures Valid() && entries == old(entries) && repr == old(repr)
      ensures ok ==> size >= newSize && fresh(table) && (size == INITIAL_SIZE || size / 2 < newSize)
    {
      hide And, IsPowerOfTwo, Placed, Dict.LinkedFrom;
      var realsize := NextPower(newSize);
      if used > newSize {
        return false;
      }
      var n := new Dict<K, V>.OfSize(hash, realsize);
      n.used := used;
      MoveAll(n);
      OwnsUnique(hash, sizemask, chains, repr, n.sizemask, n.chains, n.repr, entries);
      Adopt(n);
      ok := true;
    }

    /** Become the table n. */
    method Adopt(n: Dict<K, V>)
      requires n.Shape() && n.hash == hash && n.entries == entries && n.repr == repr
      modifies this
      ensures Shape() && table == n.table && size == n.size && used == n.used
      ensures entries == old(entries) && repr == old(repr)
    {
      hide And, IsPowerOfTwo, Placed, Linked;
      table, size, sizemask, used := n.table, n.size, n.sizemask, n.used;
      chains := n.chains;
      if n != this {
        forall b | 0 <= b < size ensures Linked(table[b], chains[b]) {
          assert Linked(n.table[b], n.chains[b]);
        }
      }
    }

    /** Make sure there is a table, with room for one more entry. */
    method ExpandIfNeeded() returns (ok: bool)
      requires Valid()
      modifies this, repr`next
      ensures ok && Valid() && entries == old(entries) && repr == old(repr) && used < size
      ensures table == old(table) || fresh(table)
    {
      hide And, IsPowerOfTwo, Dict.Shape;
      if size == 0 {
        ok := Expand(INITIAL_SIZE);
      } else if used == size {
        ok := Expand(size * 2);
      } else {
        ok := true;
      }
    }

    /** The bucket for a new key, or -1 when the key is there already. */
    method KeyIndex(key: K) returns (index: int)
      requires Valid()
      modifies this, repr`next
      ensures Valid() && entries == old(entries) && repr == old(repr) && used < size
      ensures table == old(table) || fresh(table)
      ensures index == if key in entries then -1 else And(hash(key), sizemask)
    {
      hide And, IsPowerOfTwo, Dict.Shape;
      var ok := ExpandIfNeeded();
      var h := And(hash(key), sizemask);
      var he := FindIn(h, key);
      index := if he != null then -1 else h;
    }

    method Add(key: K, val: V) returns (ok: bool)
      requires Valid()
      modifies this, table, repr
      ensures Valid() && ok == (key !in old(Contents()))
      ensures Contents() == if ok then old(Contents())[key := val] else old(Contents())
      ensures forall e :: e in repr ==> e in old(repr) || fresh(e)
      ensures table == old(table) || fresh(table)
    {
      hide And, IsPowerOfTwo, Dict.Shape;
      EntryKeys();
      var index := KeyIndex(key);
      if index == -1 {
        return false;
      }
      AddEntry(key, val);
      ok := true;
    }

    /** A new entry where there is room for one. */
    method AddEntry(key: K, val: V)
      requires Valid() && used < size && key !in entries
      modifies this, table
      ensures Valid() && Contents() == old(Contents())[key := val] && table == old(table)
      ensures forall e :: e in repr ==> e in old(repr) || fresh(e)
    {
      hide And, IsPowerOfTwo, Dict.Shape;
      EntryKeys();
      var entry := new Entry(key, val, null);
      LinkFront(entry);
      used := used + 1;
    }

    lemma EntryKeys()
      requires Shape()
      ensures forall k :: k in entries ==> entries[k].key == k && entries[k] in repr
    {
      hide And;
    }

    method SetVal(entry: Entry<K, V>, val: V)
      requires Valid() && entry.key in entries && entries[entry.key] == entry
      modifies entry`val
      ensures Valid() && Contents() == old(Contents())[entry.key := val]
    {
      hide And, IsPowerOfTwo, Dict.Shape;
      EntryKeys();
      entry.val := val;
    }

    /** Add, or update the value when the key is there already. */
    method Replace(key: K, val: V) returns (added: bool)
      requires Valid()
      modifies this, table, repr
      ensures Valid() && added == (key !in old(Contents()))
      ensures Contents() == old(Contents())[key := val]
      ensures forall e :: e in repr ==> e in old(repr) || fresh(e)
      ensures table == old(table) || fresh(table)
    {
      hide And, IsPowerOfTwo, Dict.Shape;
      added := Add(key, val);
      if added {
        return;
      }
      var entry := Find(key);
      EntryKeys();
      SetVal(entry, val);
    }

    /** Take the j-th entry of bucket h, which follows prev, out of its chain. */
    method Unlink(h: nat, prev: Entry?<K, V>, de: Entry<K, V>, ghost j: nat)
      requires Shape() && h < size && j < |chains[h]| && chains[h][j] == de
      requires prev == if j == 0 then null else chains[h][j - 1]
      modifies this`chains, this`entries, this`repr, table, repr`next
      ensures Shape() && entries == old(entries) - {de.key} && repr == old(repr) - {de}
      ensures chains == old(chains)[h := Without(old(chains)[h], j)]
    {
      hide And, IsPowerOfTwo, Placed;
      ghost var chain := chains[h];
      assert Linked(table[h], chain);
      assert de.next == Follows(chain, j + 1);
      PlacedWithout(hash, sizemask, chains, entries, repr, h, j);
      if prev != null {
        prev.next := de.next;
      } else {
        table[h] := de.next;
      }
      forall b | 0 <= b < size && b != h ensures Linked(table[b], chains[b]) {
        ChainsApart(h, b);
        assert old(Linked(table[b], chains[b]));
      }
      LinkedWithout(table[h], chain, j);
      InOthers(h, j);
      chains := chains[h := Without(chain, j)];
      entries := entries - {de.key};
      repr := repr - {de};
    }

    /** Every other place holds another entry. */
    lemma InOthers(h: nat, j: nat)
      requires Known() && h < size && j < |chains[h]|
      ensures forall b, i :: 0 <= b < size && 0 <= i < |chains[b]| && (b != h || i != j) ==> chains[b][i] != chains[h][j]
    {
      hide Placed;
      forall b, i | 0 <= b < size && 0 <= i < |chains[b]| && (b != h || i != j) ensures chains[b][i] != chains[h][j] {
        KeysDiffer(hash, sizemask, chains, entries, repr, b, i, h, j);
      }
    }

    method Remove(h: nat, prev: Entry?<K, V>, de: Entry<K, V>, ghost j: nat)
      requires Valid() && h < size == |chains| && j < |chains[h]| && chains[h][j] == de
      requires prev == if j == 0 then null else chains[h][j - 1]
      modifies this`used, this`chains, this`entries, this`repr, table, repr`next
      ensures Valid() && de.key in old(entries) && old(entries)[de.key] == de
      ensures entries == old(entries) - {de.key} && repr == old(repr) - {de}
      ensures chains == old(chains)[h := Without(old(chains)[h], j)]
      ensures Contents() == old(Contents()) - {de.key}
    {
      hide And, IsPowerOfTwo, Placed;
      EntryKeys();
      AtIts(h, j);
      Unlink(h, prev, de, j);
      used := used - 1;
    }

    /** Search and remove. Other chains, and the order of this one, stay. */
    method Delete(key: K) returns (ok: bool)
      requires Valid()
      modifies this, table, repr
      ensures Valid() && ok == (key in old(Contents())) && Contents() == old(Contents()) - {key}
      ensures table == old(table) && size == old(size) && sizemask == old(sizemask)
      ensures repr <= old(repr) && (forall e :: e in repr ==> e.val == old(e.val))
      ensures ok ==> var h := And(hash(key), sizemask);
                     h < size && Removed(old(chains)[h], chains[h], old(entries)[key]) && chains == old(chains)[h := chains[h]]
      ensures ok ==> key in old(entries) && entries == old(entries) - {key}
      ensures !ok ==> chains == old(chains) && entries == old(entries)
    {
      hide And, IsPowerOfTwo, Placed;
      EntryKeys();
      if size == 0 {
        assert entries == map[] by { NoBuckets(); }
        return false;
      }
      var h := And(hash(key), sizemask);
      assert h < size by { BucketInRange(key); }
      ghost var chain := chains[h];
      assert Linked(table[h], chain);
      var de, prevde: Entry?<K, V> := table[h], null;
      ghost var j := 0;
      while de != null
        invariant 0 <= j <= |chain| && de == Follows(chain, j)
        invariant prevde == if j == 0 then null else chain[j - 1]
        invariant forall i :: 0 <= i < j ==> chain[i].key != key
        decreases |chain| - j
      {
        if de.key == key {
          Remove(h, prevde, de, j);
          return true;
        }
        prevde := de;
        de := de.next;
        j := j + 1;
      }
      NotThere(key);
      return false;
    }

    /** The entry at position p of chain i, and what it links to. */
    lemma ChainStep(i: nat, p: nat)
      requires Shape() && i < size == |chains| == table.Length && p <= |chains[i]|
      ensures table[i] == Follows(chains[i], 0)
      ensures p < |chains[i]| ==> chains[i][p] in repr && chains[i][p].next == Follows(chains[i], p + 1)
    {
      hide And, IsPowerOfTwo, Placed;
      assert Linked(table[i], chains[i]);
    }

    lemma FlatAll()
      requires Valid()
      ensures DistinctKeys(Flat(chains)) && Elements(Flat(chains)) == repr
      ensures forall k :: k in entries ==> entries[k].key == k && entries[k] in repr
    {
      hide And, Flat;
      FlatIsAll(hash, sizemask, chains, entries, repr);
    }

    lemma PlaceOf(h: nat, p: nat)
      requires Shape() && h < size == |chains| && p < |chains[h]|
      ensures var e := chains[h][p]; And(hash(e.key), sizemask) == h && e.key in entries && entries[e.key] == e
      ensures DistinctKeys(chains[h])
    {
      hide And;
      assert Registered(hash, sizemask, chains[h][p], h, entries);
    }

    lemma NoBuckets()
      requires Shape() && size == 0
      ensures entries == map[]
    {
      assert forall k :: k in entries ==> InBucket(hash, sizemask, chains, entries[k]);
    }

    lemma AtIts(h: nat, j: nat)
      requires Known() && h < size && j < |chains[h]|
      ensures chains[h][j].key in entries && entries[chains[h][j].key] == chains[h][j]
    {
      hide And;
      assert Registered(hash, sizemask, chains[h][j], h, entries);
    }

    lemma NotThere(key: K)
      requires Known() && size > 0
      requires var h := And(hash(key), sizemask); h < size && forall i :: 0 <= i < |chains[h]| ==> chains[h][i].key != key
      ensures key !in entries
    {
      hide And;
      assert key in entries ==> InBucket(hash, sizemask, chains, entries[key]);
    }
  }

  // ----- Runs -----

  datatype Op<K, V> = Insert(key: K, val: V) | Update(key: K, val: V) | Remove(key: K) | Lookup(key: K)

  datatype Answer<V> = Said(yes: bool) | Found(val: V) | Missing

  /** What a map does for an operation, and what it answers: whether a key was new
      (insert, update) or present (remove), or the value of a key (lookup). */
  function Apply<K, V>(m: map<K, V>, op: Op<K, V>): (map<K, V>, Answer<V>) {
    match op
    case Insert(k, v) => (if k in m then m else m[k := v], Said(k !in m))
    case Update(k, v) => (m[k := v], Said(k !in m))
    case Remove(k) => (m - {k}, Said(k in m))
    case Lookup(k) => (m, if k in m then Found(m[k]) else Missing)
  }

  function ApplyAll<K, V>(m: map<K, V>, ops: seq<Op<K, V>>): (map<K, V>, seq<Answer<V>>) {
    if ops == [] then (m, [])
    else
      var (m', answers) := ApplyAll(m, ops[..|ops| - 1]);
      var (m'', a) := Apply(m', ops[|ops| - 1]);
      (m'', answers + [a])
  }

  /** What has become of one key, whose value was `start`. */
  function Story<K(==), V>(start: Option<V>, ops: seq<Op<K, V>>, key: K): Option<V> {
    if ops == [] then start
    else
      var before, op := Story(start, ops[..|ops| - 1], key), ops[|ops| - 1];
      if op.key != key then before
      else match op
        case Insert(_, v) => if before.None? then Some(v) else before
        case Update(_, v) => Some(v)
        case Remove(_) => None
        case Lookup(_) => before
  }

  function ValueAt<K, V>(m: map<K, V>, key: K): Option<V> {
    if key in m then Some(m[key]) else None
  }

  /** Each key has its own story: an insert keeps a value that is there, an update sets it, a
      remove ends it, and operations on other keys do not matter. */
  lemma {:induction false} OwnStory<K, V>(m: map<K, V>, ops: seq<Op<K, V>>, key: K)
    ensures |ApplyAll(m, ops).1| == |ops|
    ensures ValueAt(ApplyAll(m, ops).0, key) == Story(ValueAt(m, key), ops, key)
  {
    if ops != [] {
      OwnStory(m, ops[..|ops| - 1], key);
    }
  }

  /** And every answer tells it. */
  lemma {:induction false} AnswersTell<K, V>(m: map<K, V>, ops: seq<Op<K, V>>, i: nat)
    requires i < |ops|
    ensures |ApplyAll(m, ops).1| == |ops|
    ensures var before := Story(ValueAt(m, ops[i].key), ops[..i], ops[i].key);
            ApplyAll(m, ops).1[i] ==
              if ops[i].Lookup? then (if before.Some? then Found(before.value) else Missing)
              else Said(if ops[i].Remove? then before.Some? else before.None?)
  {
    var n := |ops| - 1;
    var init := ops[..n];
    OwnStory(m, ops, ops[i].key);
    OwnStory(m, init, ops[i].key);
    if i < n {
      AnswersTell(m, init, i);
      assert init[..i] == ops[..i];
    }
  }

  /** Every sequence of operations leaves the table, and answers, as a map does. */
  method RunOps<K(==), V>(d: Dict<K, V>, ops: seq<Op<K, V>>) returns (answers: seq<Answer<V>>)
    requires d.Valid()
    modifies d, d.table, d.repr
    ensures d.Valid()
    ensures (d.Contents(), answers) == ApplyAll(old(d.Contents()), ops)
  {
    hide And, IsPowerOfTwo, Dict.Shape;
    answers := [];
    ghost var m := d.Contents();
    for i := 0 to |ops|
      invariant d.Valid() && (d.table == old(d.table) || fresh(d.table))
      invariant forall e :: e in d.repr ==> e in old(d.repr) || fresh(e)
      invariant (d.Contents(), answers) == ApplyAll(m, ops[..i])
    {
      assert ops[..i + 1][..i] == ops[..i];
      var a := RunOp(d, ops[i]);
      answers := answers + [a];
    }
    assert ops[..|ops|] == ops;
  }

  method RunOp<K(==), V>(d: Dict<K, V>, op: Op<K, V>) returns (a: Answer<V>)
    requires d.Valid()
    modifies d, d.table, d.repr
    ensures d.Valid() && (d.table == old(d.table) || fresh(d.table))
    ensures forall e :: e in d.repr ==> e in old(d.repr) || fresh(e)
    ensures (d.Contents(), a) == Apply(old(d.Contents()), op)
  {
    hide And, IsPowerOfTwo, Dict.Shape;
    match op
    case Insert(k, v) =>
      var ok := d.Add(k, v);
      a := Said(ok);
    case Update(k, v) =>
      var added := d.Replace(k, v);
      a := Said(added);
    case Remove(k) =>
      var ok := d.Delete(k);
      a := Said(ok);
    case Lookup(k) =>
      var e := d.Find(k);
      a := if e != null then Found(e.val) else Missing;
  }

  // ----- Iteration -----

  /** c' is the chain c without entry e. */
  ghost predicate Removed<K, V>(c: seq<Entry<K, V>>, c': seq<Entry<K, V>>, e: Entry<K, V>) {
    exists j :: 0 <= j < |c| && c[j] == e && c' == Without(c, j)
  }

  /** The entries of the chains, one chain after the other. */
  ghost function Flat<K, V>(chains: seq<seq<Entry<K, V>>>): seq<Entry<K, V>> {
    if chains == [] then [] else chains[0] + Flat(chains[1..])
  }

  /** The end of a chain. */
  ghost predicate Ends<K, V>(c: seq<Entry<K, V>>, end: seq<Entry<K, V>>) {
    |end| <= |c| && c[|c| - |end|..] == end
  }

  class Iterator<K(==), V> {
    const ht: Dict<K, V>
    var index: int
    var entry: Entry?<K, V>
    var nextEntry: Entry?<K, V>
    /** What is left of the chain the iterator is in. */
    ghost var todo: seq<Entry<K, V>>

    constructor (ht: Dict<K, V>)
      requires ht.Valid()
      ensures this.ht == ht && Valid() && Remaining() == Flat(ht.chains) && index == -1
    {
      hide And, IsPowerOfTwo, Placed;
      this.ht := ht;
      index, entry, nextEntry := -1, null, null;
      todo := [];
      new;
      assert ht.chains[0..] == ht.chains;
      assert [] + Flat(ht.chains) == Flat(ht.chains);
    }

    ghost predicate Valid()
      reads this, ht, ht.table, ht.repr`next
    {
      && ht.Shape() && -1 <= index && ht.size == |ht.chains| == ht.table.Length
      && (entry == null ==> todo == [])
      && (entry != null ==> 0 <= index < ht.size && Ends(ht.chains[index], todo) && nextEntry == Follows(todo, 0))
    }

    /** The entries not returned yet, in order. */
    ghost function Remaining(): seq<Entry<K, V>>
      requires Valid()
      reads this, ht, ht.table, ht.repr`next
    {
      todo + if index < ht.size then Flat(ht.chains[index + 1..]) else []
    }

    /** The entry comes right before what is left of the chain. */
    ghost predicate Returned(e: Entry<K, V>)
      reads this, ht
    {
      0 <= index < |ht.chains| && Ends(ht.chains[index], [e] + todo)
    }

    /** The next entry. The one after it is noted at once, because the caller may delete
        the entry that is returned. */
    method Next() returns (e: Entry?<K, V>)
      requires Valid()
      modifies this
      ensures Valid() && e == entry
      ensures e == null ==> old(Remaining()) == Remaining() == []
      ensures e != null ==> old(Remaining()) == [e] + Remaining()
      ensures e != null ==> Returned(e)
    {
      hide And, IsPowerOfTwo, Placed, Dict.Shape, Linked, Flat, Ends;
      ghost var all := Remaining();
      while true
        invariant Valid() && Remaining() == all
        decreases if index < ht.size then ht.size - index else 0, entry != null
      {
        if entry == null {
          var more := Enter();
          if !more {
            return null;
          }
        } else {
          entry := nextEntry;
        }
        if entry != null {
          ghost var tail := Flat(ht.chains[index + 1..]);
          ghost var was := todo;
          assert was + tail == all;
          Note();
          assert [entry] + todo + tail == [entry] + (todo + tail);
          return entry;
        }
      }
    }

    /** Go to the next chain, if there is one. */
    method Enter() returns (more: bool)
      requires Valid() && entry == null
      modifies this
      ensures !more ==> Valid() && entry == null && old(Remaining()) == Remaining() == []
      ensures more ==> Pending() && index == old(index) + 1 && old(Remaining()) == todo + Flat(ht.chains[index + 1..])
    {
      hide And, IsPowerOfTwo, Placed, Dict.Shape, Linked, Flat, Ends;
      if index < ht.size {
        FlatStep(ht.chains, index + 1);
      }
      index := index + 1;
      if index >= ht.size {
        return false;
      }
      entry := ht.table[index];
      todo := ht.chains[index];
      ht.ChainStep(index, 0);
      EndsWhole(todo);
      return true;
    }

    /** The entry is the first of what is left of its chain. */
    ghost predicate Pending()
      reads this, ht, ht.table, ht.repr`next
    {
      && ht.Shape() && 0 <= index < ht.size == |ht.chains| == ht.table.Length
      && Ends(ht.chains[index], todo) && entry == Follows(todo, 0)
    }

    /** Note what follows the entry about to be returned. */
    method Note()
      requires Pending() && entry != null
      modifies this`nextEntry, this`todo
      ensures Valid() && old(todo) == [entry] + todo
    {
      hide And, IsPowerOfTwo, Placed, Dict.Shape, Linked;
      ghost var c, p := ht.chains[index], |ht.chains[index]| - |todo|;
      ht.ChainStep(index, p);
      assert c[p..][0] == c[p] == entry && c[p..][1..] == c[p + 1..];
      nextEntry := entry.next;
      todo := todo[1..];
      assert Follows(todo, 0) == Follows(c, p + 1);
    }
  }

  lemma EndsWhole<K, V>(c: seq<Entry<K, V>>)
    ensures Ends(c, c)
  {
  }

  lemma FlatStep<K, V>(chains: seq<seq<Entry<K, V>>>, i: nat)
    requires i <= |chains|
    ensures Flat(chains[i..]) == if i == |chains| then [] else chains[i] + Flat(chains[i + 1..])
  {
    if i < |chains| { assert chains[i..][1..] == chains[i + 1..]; }
  }

  lemma {:induction false} FlatMembers<K, V>(chains: seq<seq<Entry<K, V>>>, e: Entry<K, V>)
    ensures e in Flat(chains) <==> exists b :: 0 <= b < |chains| && e in chains[b]
  {
    if chains != [] {
      FlatMembers(chains[1..], e);
      if b :| 0 <= b < |chains| && e in chains[b] {
        if b > 0 { assert e in chains[1..][b - 1]; }
      }
      if b :| 0 <= b < |chains| - 1 && e in chains[1..][b] {
        assert e in chains[b + 1];
      }
    }
  }

  ghost function Elements<K, V>(s: seq<Entry<K, V>>): set<Entry<K, V>> {
    set e | e in s
  }

  /** No key occurs twice. */
  ghost predicate DistinctKeys<K, V>(s: seq<Entry<K, V>>) {
    forall i, j :: 0 <= i < j < |s| ==> s[i].key != s[j].key
  }

  lemma {:induction false} FlatDistinct<K, V>(chains: seq<seq<Entry<K, V>>>)
    requires forall b :: 0 <= b < |chains| ==> DistinctKeys(chains[b])
    requires forall b, c, i, j :: 0 <= b < c < |chains| && 0 <= i < |chains[b]| && 0 <= j < |chains[c]| ==>
               chains[b][i].key != chains[c][j].key
    ensures DistinctKeys(Flat(chains))
  {
    if chains != [] {
      var rest := Flat(chains[1..]);
      FlatDistinct(chains[1..]);
      forall i, j | 0 <= i < |chains[0]| && 0 <= j < |rest| ensures chains[0][i].key != rest[j].key {
        FlatMembers(chains[1..], rest[j]);
        var b :| 0 <= b < |chains| - 1 && rest[j] in chains[1..][b];
        var t :| 0 <= t < |chains[b + 1]| && chains[b + 1][t] == rest[j];
      }
    }
  }

  /** One pass over the chains meets every entry of the table once. */
  lemma FlatIsAll<K, V>(hash: K -> nat, mask: nat, chains: seq<seq<Entry<K, V>>>, entries: map<K, Entry<K, V>>,
      repr: set<Entry<K, V>>)
    requires Placed(hash, mask, chains, entries, repr)
    ensures DistinctKeys(Flat(chains)) && Elements(Flat(chains)) == repr
  {
    hide And, Flat;
    forall b, c, i, j | 0 <= b < c < |chains| && 0 <= i < |chains[b]| && 0 <= j < |chains[c]|
      ensures chains[b][i].key != chains[c][j].key
    {
      KeysDiffer(hash, mask, chains, entries, repr, b, i, c, j);
    }
    FlatDistinct(chains);
    forall e | e in repr ensures e in Flat(chains) {
      FlatMembers(chains, e);
      assert InBucket(hash, mask, chains, entries[e.key]);
    }
    forall e | e in Flat(chains) ensures e in repr {
      FlatMembers(chains, e);
      var b :| 0 <= b < |chains| && e in chains[b];
      var j :| 0 <= j < |chains[b]| && chains[b][j] == e;
      assert Registered(hash, mask, chains[b][j], b, entries);
    }
  }

  /** Deleting the entry before the end of a chain leaves that end. */
  lemma EndsRemoved<K, V>(c: seq<Entry<K, V>>, c': seq<Entry<K, V>>, e: Entry<K, V>, end: seq<Entry<K, V>>)
    requires Ends(c, [e] + end) && Removed(c, c', e) && DistinctKeys(c)
    ensures Ends(c', end)
  {
    var j :| 0 <= j < |c| && c[j] == e && c' == Without(c, j);
    var p := |c| - |end| - 1;
    assert c[p..][0] == e && c[p..][1..] == end;
    assert j == p;
    assert c[p + 1..] == end;
  }

  /** What is left of a table after the entries in `visited` that `drop` selects have
      been deleted. */
  ghost predicate Dropped<K, V>(entries: map<K, Entry<K, V>>, visited: seq<Entry<K, V>>, drop: K -> bool,
      now: map<K, Entry<K, V>>) {
    && (forall k :: k in now ==> k in entries && now[k] == entries[k])
    && (forall k :: k in entries && k !in now ==> drop(k))
    && (forall i :: 0 <= i < |visited| && drop(visited[i].key) ==> visited[i].key !in now)
  }

  lemma DroppedNext<K, V>(entries: map<K, Entry<K, V>>, visited: seq<Entry<K, V>>, drop: K -> bool,
      now: map<K, Entry<K, V>>, e: Entry<K, V>)
    requires Dropped(entries, visited, drop, now)
    ensures Dropped(entries, visited + [e], drop, if drop(e.key) then now - {e.key} else now)
  {
  }

  lemma DroppedAll<K, V>(entries: map<K, Entry<K, V>>, visited: seq<Entry<K, V>>, drop: K -> bool, now: map<K, Entry<K, V>>)
    requires Dropped(entries, visited, drop, now)
    requires forall k :: k in entries ==> entries[k].key == k && entries[k] in Elements(visited)
    ensures now == map k | k in entries && !drop(k) :: entries[k]
  {
    forall k | k in now ensures !drop(k) {
      assert entries[k] in Elements(visited);
      var i :| 0 <= i < |visited| && visited[i] == entries[k];
    }
  }

  /** Visit the whole table, deleting each entry that `drop` selects just after it has
      been returned: every entry present at the start is visited exactly once. */
  method VisitAll<K(==), V>(ht: Dict<K, V>, drop: K -> bool) returns (visited: seq<Entry<K, V>>)
    requires ht.Valid()
    modifies ht, ht.table, ht.repr
    ensures ht.Valid() && DistinctKeys(visited) && Elements(visited) == old(ht.repr)
    ensures ht.entries == map k | k in old(ht.entries) && !drop(k) :: old(ht.entries)[k]
  {
    hide And, IsPowerOfTwo, Placed, Dict.Valid, Flat, Iterator.Remaining, Iterator.Valid, Dropped, DistinctKeys;
    ghost var all, entries := Flat(ht.chains), ht.entries;
    ht.FlatAll();
    var it := new Iterator(ht);
    visited := [];
    assert Dropped(entries, [], drop, entries) by { DroppedNone(entries, drop); }
    var done := false;
    while !done
      invariant it.ht == ht && it.Valid() && ht.Valid()
      invariant visited + it.Remaining() == all
      invariant done ==> it.Remaining() == []
      invariant ht.table == old(ht.table) && ht.repr <= old(ht.repr)
      invariant Dropped(entries, visited, drop, ht.entries)
      decreases !done, |it.Remaining()|
    {
      ghost var now := ht.entries;
      var e := VisitNext(ht, it, drop);
      if e == null {
        done := true;
      } else {
        DroppedNext(entries, visited, drop, now, e);
        assert visited + [e] + it.Remaining() == visited + ([e] + it.Remaining());
        visited := visited + [e];
      }
    }
    assert visited == all;
    DroppedAll(entries, visited, drop, ht.entries);
  }

  lemma DroppedNone<K, V>(entries: map<K, Entry<K, V>>, drop: K -> bool)
    ensures Dropped(entries, [], drop, entries)
  {
  }

  /** One step: the next entry, deleted at once if it is selected. */
  method VisitNext<K(==), V>(ht: Dict<K, V>, it: Iterator<K, V>, drop: K -> bool) returns (e: Entry?<K, V>)
    requires it.ht == ht && it.Valid() && ht.Valid()
    modifies it, ht, ht.table, ht.repr
    ensures it.Valid() && ht.Valid() && ht.table == old(ht.table) && ht.size == old(ht.size) && ht.repr <= old(ht.repr)
    ensures old(it.Remaining()) == (if e == null then [] else [e]) + it.Remaining()
    ensures e == null ==> it.Remaining() == []
    ensures ht.entries == if e != null && drop(e.key) then old(ht.entries) - {e.key} else old(ht.entries)
  {
    hide And, IsPowerOfTwo, Placed, Dict.Shape, Linked, Flat, Ends, Iterator.Remaining;
    e := it.Next();
    if e != null && drop(e.key) {
      DeleteReturned(ht, it, e);
    }
  }

  /** Deleting the entry just returned does not disturb the iterator. */
  method DeleteReturned<K(==), V>(ht: Dict<K, V>, it: Iterator<K, V>, e: Entry<K, V>)
    requires it.ht == ht && it.Valid() && ht.Valid() && it.entry == e && it.Returned(e)
    modifies ht, ht.table, ht.repr
    ensures it.Valid() && ht.Valid() && it.Remaining() == old(it.Remaining())
    ensures ht.table == old(ht.table) && ht.size == old(ht.size) && ht.repr <= old(ht.repr)
    ensures e.key in old(ht.entries) && ht.entries == old(ht.entries) - {e.key}
  {
    hide And, IsPowerOfTwo, Placed, Dict.Shape, Linked, Flat;
    ghost var c, h := ht.chains[it.index], it.index;
    ghost var p := |c| - |it.todo| - 1;
    assert c[p..][0] == c[p] == e;
    ht.PlaceOf(h, p);
    var ok := ht.Delete(e.key);
    EndsRemoved(c, ht.chains[h], e, it.todo);
    assert ht.chains[h + 1..] == old(ht.chains)[h + 1..];
  }
}
