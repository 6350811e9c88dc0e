/** A separate-chaining hash table (chainhash.h).

    The C++ table keeps, for every bucket, the head pointer of a singly
    linked chain of `ChainHashNode`s.  Here every bucket holds the sequence
    of nodes met when walking its chain from the head to nullptr, so
    `buckets[b][0]` is the head and `buckets[b][x + 1]` is the `next` of
    `buckets[b][x]`.  The ghost field `contents` is the key-to-value map the
    table represents. */
module ChainHashing {

  /** Longest chain tolerated after an insertion (chainhash.h:7). */
  const MaxColision := 3

  /** The fill-factor limit 0.8 (chainhash.h:8), as the fraction 4/5. */
  const FillNumerator := 4
  const FillDenominator := 5

  /** `maxFillFactor` is a `float`: the float nearest 0.8 is
      13421773 / 2^24, one part in 5 * 2^24 above 4/5. */
  const FloatFillNumerator := 13421773
  const FloatFillDenominator := 0x100_0000

  /** With fewer than 2^24 buckets no quotient `used / capacity` lies
      strictly between 4/5 and the float limit, so the exact test on 4/5
      decides `fillFactor() > maxFillFactor` (chainhash.h:108-110, 156)
      as the comparison with the float does. */
  lemma FillTestMatchesFloat(used: int, capacity: int)
    requires 0 < capacity < FloatFillDenominator
    ensures FillDenominator * used > FillNumerator * capacity <==>
            used * FloatFillDenominator > FloatFillNumerator * capacity
  {
  }

  /** The two exceptions the table throws, both `std::out_of_range` in C++. */
  datatype Error = KeyNotFound | IndexOutOfRange

  datatype Result<T> = Ok(value: T) | Err(error: Error)

  /** ChainHashNode (chainhash.h:11-19) without its link: the link is the
      node's position in its chain. */
  datatype Node<K, V> = Node(key: K, value: V, hashcode: nat)

  /** ChainHashListIterator (chainhash.h:22-55): the part of a chain from
      the current node on.  The empty rest is the null cursor, so `end` of
      every bucket is the same iterator, as nullptr is.  `*it` and `it->`
      are `it.rest[0]`; `==` and `!=` are datatype equality. */
  datatype Iterator<K, V> = Iterator(rest: seq<Node<K, V>>)

  /** `operator++` (chainhash.h:41-44): step to the next node; the null
      cursor stays where it is. */
  function Next<K, V>(it: Iterator<K, V>): (r: Iterator<K, V>)
    ensures it.rest == [] ==> r == it
    ensures it.rest != [] ==> it.rest == [it.rest[0]] + r.rest
  {
    if it.rest != [] then Iterator(it.rest[1..]) else it
  }

  /** Stepping from position `j` of a chain reaches position `j + 1`. */
  lemma NextAdvances<K, V>(chain: seq<Node<K, V>>, j: int)
    requires 0 <= j < |chain|
    ensures Next(Iterator(chain[j..])) == Iterator(chain[j + 1..])
  {
    assert chain[j..][1..] == chain[j + 1..];
  }

  /** Two cursors into one chain are equal exactly when they sit at the same
      position, so `it != end` stops the walk after the last node. */
  lemma IteratorsCompareByPosition<K, V>(chain: seq<Node<K, V>>, j: int, k: int)
    requires 0 <= j <= |chain| && 0 <= k <= |chain|
    ensures Iterator(chain[j..]) == Iterator(chain[k..]) <==> j == k
  {
    if j != k {
      assert |chain[j..]| != |chain[k..]|;
    }
  }

  // ---------------------------------------------------------------------
  // The aggregate counters, as functions of the per-bucket counts

  /** Sum of the per-bucket counts. */
  ghost function Sum(s: seq<int>): int
  {
    if s == [] then 0 else Sum(s[..|s| - 1]) + s[|s| - 1]
  }

  /** Number of buckets whose count is not zero. */
  ghost function CountNonEmpty(s: seq<int>): nat
  {
    if s == [] then 0 else CountNonEmpty(s[..|s| - 1]) + (if s[|s| - 1] != 0 then 1 else 0)
  }

  lemma {:induction false} SumOfZeros(s: seq<int>)
    requires forall i :: 0 <= i < |s| ==> s[i] == 0
    ensures Sum(s) == 0 && CountNonEmpty(s) == 0
  {
    if s != [] {
      SumOfZeros(s[..|s| - 1]);
    }
  }

  /** Changing one bucket count changes the sum by the difference. */
  lemma {:induction false} SumUpdate(s: seq<int>, i: int, v: int)
    requires 0 <= i < |s|
    ensures Sum(s[i := v]) == Sum(s) - s[i] + v
  {
    var n := |s| - 1;
    assert s[i := v][..n] == if i < n then s[..n][i := v] else s[..n];
    if i < n {
      SumUpdate(s[..n], i, v);
    }
  }

  /** Changing one bucket count changes the number of non-empty buckets
      only when that bucket goes from or to zero. */
  lemma {:induction false} CountNonEmptyUpdate(s: seq<int>, i: int, v: int)
    requires 0 <= i < |s|
    ensures CountNonEmpty(s[i := v])
         == CountNonEmpty(s) - (if s[i] != 0 then 1 else 0) + (if v != 0 then 1 else 0)
  {
    var n := |s| - 1;
    assert s[i := v][..n] == if i < n then s[..n][i := v] else s[..n];
    if i < n {
      CountNonEmptyUpdate(s[..n], i, v);
    }
  }

  // ---------------------------------------------------------------------
  // What the chains must satisfy

  /** Every node caches its key's hash, and that hash selects the node's
      bucket modulo the number of buckets. */
  ghost predicate Placed<K, V>(chains: seq<seq<Node<K, V>>>, hash: K -> nat)
  {
    forall b, x :: 0 <= b < |chains| && 0 <= x < |chains[b]| ==>
      chains[b][x].hashcode == hash(chains[b][x].key) && chains[b][x].hashcode % |chains| == b
  }

  /** No key occurs twice in one chain (and, by placement, in the table). */
  ghost predicate KeysDistinct<K, V>(chains: seq<seq<Node<K, V>>>)
  {
    forall b, x, y ::
      (0 <= b < |chains| && 0 <= x < |chains[b]| && 0 <= y < |chains[b]| && chains[b][x].key == chains[b][y].key)
      ==> x == y
  }

  /** Every node of the chains is a pair of `contents`. */
  ghost predicate Stored<K, V>(chains: seq<seq<Node<K, V>>>, contents: map<K, V>)
  {
    forall b, x :: 0 <= b < |chains| && 0 <= x < |chains[b]| ==>
      chains[b][x].key in contents && contents[chains[b][x].key] == chains[b][x].value
  }

  /** Some node of the chains holds `k`. */
  ghost predicate Present<K, V>(chains: seq<seq<Node<K, V>>>, k: K)
  {
    exists b, x :: 0 <= b < |chains| && 0 <= x < |chains[b]| && chains[b][x].key == k
  }

  /** Every key of `contents` has a node in the chains.  The trigger keeps
      this fact from being used until a proof asks whether a key is
      present. */
  ghost predicate Covered<K, V>(chains: seq<seq<Node<K, V>>>, contents: map<K, V>)
  {
    forall k {:trigger Present(chains, k)} :: k in contents ==> Present(chains, k)
  }

  /** The chains hold exactly the pairs of `contents`. */
  ghost predicate Represents<K, V>(chains: seq<seq<Node<K, V>>>, contents: map<K, V>)
  {
    Stored(chains, contents) && Covered(chains, contents)
  }

  /** `bucket_sizes`, `nsize` and `usedBuckets` agree with the chains. */
  ghost predicate CountersAgree<K, V>(sizes: seq<int>, chains: seq<seq<Node<K, V>>>, nsize: int, used: int)
  {
    |sizes| == |chains| &&
    (forall b :: 0 <= b < |chains| ==> sizes[b] == |chains[b]|) &&
    nsize == Sum(sizes) &&
    used == CountNonEmpty(sizes)
  }

  /** Everything the table's fields must agree on, stated on their values. */
  ghost predicate Consistent<K, V>(chains: seq<seq<Node<K, V>>>, sizes: seq<int>, hash: K -> nat,
                                   contents: map<K, V>, nsize: int, used: int)
  {
    |chains| > 0 &&
    Placed(chains, hash) &&
    KeysDistinct(chains) &&
    Represents(chains, contents) &&
    CountersAgree(sizes, chains, nsize, used) &&
    nsize == |contents|
  }

  /** A table with only empty chains represents the empty map. */
  lemma EmptyConsistent<K, V>(chains: seq<seq<Node<K, V>>>, sizes: seq<int>, hash: K -> nat)
    requires |chains| > 0 && |sizes| == |chains|
    requires forall b :: 0 <= b < |chains| ==> chains[b] == [] && sizes[b] == 0
    ensures Consistent(chains, sizes, hash, map[], 0, 0)
  {
    SumOfZeros(sizes);
  }

  /** A key of the table sits in the chain its hash selects. */
  lemma Located<K, V>(chains: seq<seq<Node<K, V>>>, hash: K -> nat, contents: map<K, V>, k: K)
    requires |chains| > 0 && Placed(chains, hash) && Represents(chains, contents)
    ensures k in contents <==>
      exists x :: 0 <= x < |chains[hash(k) % |chains|]| && chains[hash(k) % |chains|][x].key == k
  {
    var i := hash(k) % |chains|;
    if k in contents {
      assert Present(chains, k);
      var b, x :| 0 <= b < |chains| && 0 <= x < |chains[b]| && chains[b][x].key == k;
      assert b == i;
    }
  }

  /** Two tables with the same map hold the same nodes, each in the bucket
      its cached hash selects. */
  lemma SameContentsSameNodes<K, V>(chains: seq<seq<Node<K, V>>>, chains': seq<seq<Node<K, V>>>,
                                    hash: K -> nat, contents: map<K, V>)
    requires |chains'| > 0 && Placed(chains, hash) && Represents(chains, contents)
    requires Placed(chains', hash) && Represents(chains', contents)
    ensures forall b, x :: 0 <= b < |chains| && 0 <= x < |chains[b]| ==>
      chains[b][x] in chains'[chains[b][x].hashcode % |chains'|]
  {
    forall b, x | 0 <= b < |chains| && 0 <= x < |chains[b]|
      ensures chains[b][x] in chains'[chains[b][x].hashcode % |chains'|]
    {
      var n := chains[b][x];
      assert Present(chains', n.key);
      var b', x' :| 0 <= b' < |chains'| && 0 <= x' < |chains'[b']| && chains'[b'][x'].key == n.key;
      assert chains'[b'][x'] == n;
    }
  }

  // ---------------------------------------------------------------------
  // The three ways `set` and `remove` change one chain

  /** Replacing a node by one with the same key and hash keeps placement
      and distinct keys. */
  lemma UpdateKeepsPlacement<K, V>(chains: seq<seq<Node<K, V>>>, hash: K -> nat, i: int, j: int, value: V)
    requires Placed(chains, hash) && KeysDistinct(chains)
    requires 0 <= i < |chains| && 0 <= j < |chains[i]|
    ensures var chains' := chains[i := chains[i][j := chains[i][j].(value := value)]];
      Placed(chains', hash) && KeysDistinct(chains')
  {
  }

  lemma UpdateKeepsStored<K, V>(chains: seq<seq<Node<K, V>>>, hash: K -> nat, contents: map<K, V>,
                                i: int, j: int, value: V)
    requires Placed(chains, hash) && KeysDistinct(chains) && Stored(chains, contents)
    requires 0 <= i < |chains| && 0 <= j < |chains[i]|
    ensures Stored(chains[i := chains[i][j := chains[i][j].(value := value)]], contents[chains[i][j].key := value])
  {
    var k := chains[i][j].key;
    var chains': seq<seq<Node<K, V>>> := chains[i := chains[i][j := chains[i][j].(value := value)]];
    forall b, x | 0 <= b < |chains'| && 0 <= x < |chains'[b]| && (b != i || x != j)
      ensures chains'[b][x] == chains[b][x] && chains[b][x].key != k
    {
      if b != i {
        assert chains[b][x].hashcode % |chains| != chains[i][j].hashcode % |chains|;
      }
    }
  }

  lemma UpdateKeepsCovered<K, V>(chains: seq<seq<Node<K, V>>>, contents: map<K, V>, i: int, j: int, value: V)
    requires Covered(chains, contents) && 0 <= i < |chains| && 0 <= j < |chains[i]|
    ensures Covered(chains[i := chains[i][j := chains[i][j].(value := value)]], contents[chains[i][j].key := value])
  {
    var chains': seq<seq<Node<K, V>>> := chains[i := chains[i][j := chains[i][j].(value := value)]];
    var contents' := contents[chains[i][j].key := value];
    forall k' | k' in contents'
      ensures Present(chains', k')
    {
      if k' == chains[i][j].key {
        assert chains'[i][j].key == k';
      } else {
        assert Present(chains, k');
        var b, x :| 0 <= b < |chains| && 0 <= x < |chains[b]| && chains[b][x].key == k';
        assert chains'[b][x].key == k';
      }
    }
  }

  /** `set` on a key the table holds: the node at position `j` of chain `i`
      gets the new value and nothing else changes. */
  lemma UpdateKeepsConsistent<K, V>(chains: seq<seq<Node<K, V>>>, sizes: seq<int>, hash: K -> nat,
                                    contents: map<K, V>, nsize: int, used: int, i: int, j: int, value: V,
                                    chains': seq<seq<Node<K, V>>>)
    requires Consistent(chains, sizes, hash, contents, nsize, used)
    requires 0 <= i < |chains| && 0 <= j < |chains[i]|
    requires chains' == chains[i := chains[i][j := chains[i][j].(value := value)]]
    ensures chains[i][j].key in contents
    ensures Consistent(chains', sizes, hash, contents[chains[i][j].key := value], nsize, used)
  {
    UpdateKeepsPlacement(chains, hash, i, j, value);
    UpdateKeepsStored(chains, hash, contents, i, j, value);
    UpdateKeepsCovered(chains, contents, i, j, value);
    assert contents[chains[i][j].key := value].Keys == contents.Keys;
  }

  /** Putting in front of chain `i` a node of a new key whose hash selects
      bucket `i` keeps placement and distinct keys. */
  lemma InsertKeepsPlacement<K, V>(chains: seq<seq<Node<K, V>>>, hash: K -> nat, n: Node<K, V>)
    requires |chains| > 0 && Placed(chains, hash) && KeysDistinct(chains) && n.hashcode == hash(n.key)
    requires forall x :: 0 <= x < |chains[n.hashcode % |chains|]| ==> chains[n.hashcode % |chains|][x].key != n.key
    ensures var i := n.hashcode % |chains|;
      Placed(chains[i := [n] + chains[i]], hash) && KeysDistinct(chains[i := [n] + chains[i]])
  {
    var i := n.hashcode % |chains|;
    var chains' := chains[i := [n] + chains[i]];
    assert forall x :: 0 < x < |chains'[i]| ==> chains'[i][x] == chains[i][x - 1];
  }

  /** `chains'` is `chains` with `n` put in front of chain `i`. */
  ghost predicate Prepended<K, V>(chains: seq<seq<Node<K, V>>>, i: int, n: Node<K, V>, chains': seq<seq<Node<K, V>>>)
  {
    0 <= i < |chains| && |chains'| == |chains| &&
    (forall b :: 0 <= b < |chains| && b != i ==> chains'[b] == chains[b]) &&
    |chains'[i]| == |chains[i]| + 1 && chains'[i][0] == n &&
    (forall x :: 0 <= x < |chains[i]| ==> chains'[i][x + 1] == chains[i][x])
  }

  lemma PrependedBySlices<K, V>(chains: seq<seq<Node<K, V>>>, i: int, n: Node<K, V>)
    requires 0 <= i < |chains|
    ensures Prepended(chains, i, n, chains[i := [n] + chains[i]])
  {
  }

  lemma InsertKeepsStored<K, V>(chains: seq<seq<Node<K, V>>>, contents: map<K, V>, i: int, n: Node<K, V>,
                                chains': seq<seq<Node<K, V>>>)
    requires Stored(chains, contents) && n.key !in contents && Prepended(chains, i, n, chains')
    ensures Stored(chains', contents[n.key := n.value])
  {
    forall b, x | 0 <= b < |chains'| && 0 <= x < |chains'[b]|
      ensures chains'[b][x] == if b == i && x == 0 then n else chains[b][if b == i then x - 1 else x]
    {
    }
  }

  lemma InsertKeepsCovered<K, V>(chains: seq<seq<Node<K, V>>>, contents: map<K, V>, i: int, n: Node<K, V>,
                                 chains': seq<seq<Node<K, V>>>)
    requires Covered(chains, contents) && Prepended(chains, i, n, chains')
    ensures Covered(chains', contents[n.key := n.value])
  {
    var contents' := contents[n.key := n.value];
    forall k | k in contents'
      ensures Present(chains', k)
    {
      if k == n.key {
        assert chains'[i][0].key == k;
      } else {
        assert Present(chains, k);
        var b, x :| 0 <= b < |chains| && 0 <= x < |chains[b]| && chains[b][x].key == k;
        if b == i {
          assert chains'[b][x + 1].key == k;
        } else {
          assert chains'[b][x].key == k;
        }
      }
    }
  }

  /** Growing chain `i` by one node grows its count, `nsize`, and
      `usedBuckets` when the chain was empty. */
  lemma InsertKeepsCounters<K, V>(sizes: seq<int>, chains: seq<seq<Node<K, V>>>, nsize: int, used: int,
                                  i: int, n: Node<K, V>)
    requires CountersAgree(sizes, chains, nsize, used) && 0 <= i < |chains|
    ensures CountersAgree(sizes[i := sizes[i] + 1], chains[i := [n] + chains[i]], nsize + 1,
                          used + (if sizes[i] == 0 then 1 else 0))
  {
    SumUpdate(sizes, i, sizes[i] + 1);
    CountNonEmptyUpdate(sizes, i, sizes[i] + 1);
  }

  /** `set` on a new key: its node goes in front of the chain its hash
      selects, and the counters of that bucket grow. */
  lemma InsertKeepsConsistent<K, V>(chains: seq<seq<Node<K, V>>>, sizes: seq<int>, hash: K -> nat,
                                    contents: map<K, V>, nsize: int, used: int, n: Node<K, V>,
                                    chains': seq<seq<Node<K, V>>>, sizes': seq<int>)
    requires Consistent(chains, sizes, hash, contents, nsize, used)
    requires n.key !in contents && n.hashcode == hash(n.key)
    requires var i := n.hashcode % |chains|;
      chains' == chains[i := [n] + chains[i]] && sizes' == sizes[i := sizes[i] + 1]
    ensures var i := n.hashcode % |chains|;
      Consistent(chains', sizes', hash, contents[n.key := n.value], nsize + 1, used + (if sizes[i] == 0 then 1 else 0))
  {
    var i := n.hashcode % |chains|;
    InsertKeepsPlacement(chains, hash, n);
    PrependedBySlices(chains, i, n);
    InsertKeepsStored(chains, contents, i, n, chains');
    InsertKeepsCovered(chains, contents, i, n, chains');
    InsertKeepsCounters(sizes, chains, nsize, used, i, n);
  }

  /** `chains'` is `chains` with position `j` of chain `i` dropped. */
  ghost predicate Dropped<K, V>(chains: seq<seq<Node<K, V>>>, i: int, j: int, chains': seq<seq<Node<K, V>>>)
  {
    0 <= i < |chains| && 0 <= j < |chains[i]| && |chains'| == |chains| &&
    (forall b :: 0 <= b < |chains| && b != i ==> chains'[b] == chains[b]) &&
    |chains'[i]| == |chains[i]| - 1 &&
    (forall x :: 0 <= x < j ==> chains'[i][x] == chains[i][x]) &&
    (forall x :: j <= x < |chains'[i]| ==> chains'[i][x] == chains[i][x + 1])
  }

  lemma DroppedBySlices<K, V>(chains: seq<seq<Node<K, V>>>, i: int, j: int)
    requires 0 <= i < |chains| && 0 <= j < |chains[i]|
    ensures Dropped(chains, i, j, chains[i := chains[i][..j] + chains[i][j + 1..]])
  {
  }

  /** Dropping a node keeps placement and distinct keys, and leaves every
      other node at a position of the same chain. */
  lemma DropKeepsPlacement<K, V>(chains: seq<seq<Node<K, V>>>, hash: K -> nat, i: int, j: int,
                                 chains': seq<seq<Node<K, V>>>)
    requires Placed(chains, hash) && KeysDistinct(chains) && Dropped(chains, i, j, chains')
    ensures Placed(chains', hash) && KeysDistinct(chains')
    ensures forall b, x :: 0 <= b < |chains'| && 0 <= x < |chains'[b]| ==>
      chains'[b][x].key != chains[i][j].key
    ensures forall b, y :: 0 <= b < |chains| && 0 <= y < |chains[b]| && (b != i || y != j) ==>
      chains[b][y] in chains'[b]
  {
    forall b, x | 0 <= b < |chains'| && 0 <= x < |chains'[b]|
      ensures chains'[b][x] == chains[b][if b == i && x >= j then x + 1 else x]
      ensures chains'[b][x].key != chains[i][j].key
    {
    }
    forall b, y | 0 <= b < |chains| && 0 <= y < |chains[b]| && (b != i || y != j)
      ensures chains[b][y] in chains'[b]
    {
      var x := if b == i && y > j then y - 1 else y;
      assert chains'[b][x] == chains[b][y];
    }
  }

  lemma DropKeepsStored<K, V>(chains: seq<seq<Node<K, V>>>, contents: map<K, V>, i: int, j: int,
                              chains': seq<seq<Node<K, V>>>)
    requires Stored(chains, contents) && Dropped(chains, i, j, chains')
    requires forall b, x :: 0 <= b < |chains'| && 0 <= x < |chains'[b]| ==> chains'[b][x].key != chains[i][j].key
    ensures Stored(chains', contents - {chains[i][j].key})
  {
    forall b, x | 0 <= b < |chains'| && 0 <= x < |chains'[b]|
      ensures chains'[b][x] == chains[b][if b == i && x >= j then x + 1 else x]
    {
    }
  }

  lemma DropKeepsCovered<K, V>(chains: seq<seq<Node<K, V>>>, contents: map<K, V>, i: int, j: int,
                               chains': seq<seq<Node<K, V>>>)
    requires Covered(chains, contents) && Dropped(chains, i, j, chains')
    requires forall b, y :: 0 <= b < |chains| && 0 <= y < |chains[b]| && (b != i || y != j) ==>
      chains[b][y] in chains'[b]
    ensures Covered(chains', contents - {chains[i][j].key})
  {
    var contents' := contents - {chains[i][j].key};
    forall k' | k' in contents'
      ensures Present(chains', k')
    {
      assert Present(chains, k');
      var b, y :| 0 <= b < |chains| && 0 <= y < |chains[b]| && chains[b][y].key == k';
      assert chains[b][y] in chains'[b];
      var x :| 0 <= x < |chains'[b]| && chains'[b][x] == chains[b][y];
    }
  }

  /** Dropping a node of chain `i` shrinks its count and `nsize`, and
      `usedBuckets` when the chain empties. */
  lemma DropKeepsCounters<K, V>(sizes: seq<int>, chains: seq<seq<Node<K, V>>>, nsize: int, used: int,
                                i: int, j: int)
    requires CountersAgree(sizes, chains, nsize, used) && 0 <= i < |chains| && 0 <= j < |chains[i]|
    ensures CountersAgree(sizes[i := sizes[i] - 1], chains[i := chains[i][..j] + chains[i][j + 1..]],
                          nsize - 1, used - (if sizes[i] == 1 then 1 else 0))
  {
    SumUpdate(sizes, i, sizes[i] - 1);
    CountNonEmptyUpdate(sizes, i, sizes[i] - 1);
  }

  /** `remove` on a key the table holds: the node at position `j` of chain
      `i` leaves its chain, and the counters of that bucket shrink. */
  lemma RemoveKeepsConsistent<K, V>(chains: seq<seq<Node<K, V>>>, sizes: seq<int>, hash: K -> nat,
                                    contents: map<K, V>, nsize: int, used: int, i: int, j: int,
                                    chains': seq<seq<Node<K, V>>>, sizes': seq<int>)
    requires Consistent(chains, sizes, hash, contents, nsize, used)
    requires 0 <= i < |chains| && 0 <= j < |chains[i]|
    requires chains' == chains[i := chains[i][..j] + chains[i][j + 1..]] && sizes' == sizes[i := sizes[i] - 1]
    ensures chains[i][j].key in contents
    ensures Consistent(chains', sizes', hash, contents - {chains[i][j].key}, nsize - 1,
                       used - (if sizes[i] == 1 then 1 else 0))
  {
    DroppedBySlices(chains, i, j);
    DropKeepsPlacement(chains, hash, i, j, chains');
    DropKeepsStored(chains, contents, i, j, chains');
    DropKeepsCovered(chains, contents, i, j, chains');
    assert (contents - {chains[i][j].key}).Keys == contents.Keys - {chains[i][j].key};
    DropKeepsCounters(sizes, chains, nsize, used, i, j);
  }

  // ---------------------------------------------------------------------
  // What `rehashing` has done part way through

  /** After visiting the old chains before `i` and the first `j` nodes of
      chain `i`, exactly the keys visited are in `moved`, each with its
      value. */
  ghost predicate MovedSoFar<K, V>(chains: seq<seq<Node<K, V>>>, contents: map<K, V>, moved: map<K, V>, i: int, j: int)
  {
    0 <= i <= |chains| && (i < |chains| ==> 0 <= j <= |chains[i]|) && (i == |chains| ==> j == 0) &&
    (forall k :: k in moved ==> k in contents && moved[k] == contents[k]) &&
    (forall b, x :: 0 <= b < |chains| && 0 <= x < |chains[b]| && (b < i || (b == i && x < j)) ==>
      chains[b][x].key in moved) &&
    (forall b, x :: 0 <= b < |chains| && 0 <= x < |chains[b]| && (b > i || (b == i && x >= j)) ==>
      chains[b][x].key !in moved)
  }

  /** Moving the next node adds a key that was not moved yet. */
  lemma MoveNode<K, V>(chains: seq<seq<Node<K, V>>>, hash: K -> nat, contents: map<K, V>, moved: map<K, V>,
                       i: int, j: int)
    requires |chains| > 0 && Placed(chains, hash) && KeysDistinct(chains) && Stored(chains, contents)
    requires MovedSoFar(chains, contents, moved, i, j) && i < |chains| && j < |chains[i]|
    ensures chains[i][j].key !in moved && chains[i][j].hashcode == hash(chains[i][j].key)
    ensures MovedSoFar(chains, contents, moved[chains[i][j].key := chains[i][j].value], i, j + 1)
  {
    var n := chains[i][j];
    var moved' := moved[n.key := n.value];
    forall b, x | 0 <= b < |chains| && 0 <= x < |chains[b]| && (b > i || (b == i && x >= j + 1))
      ensures chains[b][x].key !in moved'
    {
      if b != i {
        assert chains[b][x].hashcode % |chains| != n.hashcode % |chains|;
      }
    }
  }

  /** Every old node visited: the moved keys are the whole map. */
  lemma MovedAll<K, V>(chains: seq<seq<Node<K, V>>>, contents: map<K, V>, moved: map<K, V>)
    requires MovedSoFar(chains, contents, moved, |chains|, 0) && Covered(chains, contents)
    ensures moved == contents
  {
    forall k | k in contents
      ensures k in moved
    {
      assert Present(chains, k);
      var b, x :| 0 <= b < |chains| && 0 <= x < |chains[b]| && chains[b][x].key == k;
    }
  }

  /** The inner loop of `rehashing` (chainhash.h:252-268): every node of
      chain `i` of the old table, head first, goes in front of chain
      `hashcode % table.Length` of the new arrays, whose counters follow. */
  method MoveChain<K, V>(chain: seq<Node<K, V>>, table: array<seq<Node<K, V>>>, sizes: array<int>,
                         count: int, used: int, ghost hash: K -> nat, ghost chains: seq<seq<Node<K, V>>>,
                         ghost contents: map<K, V>, ghost moved: map<K, V>, ghost i: int)
    returns (count': int, used': int, ghost moved': map<K, V>)
    requires |chains| > 0 && Placed(chains, hash) && KeysDistinct(chains) && Stored(chains, contents)
    requires 0 <= i < |chains| && chain == chains[i] && MovedSoFar(chains, contents, moved, i, 0)
    requires Consistent(table[..], sizes[..], hash, moved, count, used)
    modifies table, sizes
    ensures Consistent(table[..], sizes[..], hash, moved', count', used')
    ensures MovedSoFar(chains, contents, moved', i + 1, 0)
  {
    count', used', moved' := count, used, moved;
    var j := 0;
    while j < |chain|
      invariant 0 <= j <= |chain|
      invariant Consistent(table[..], sizes[..], hash, moved', count', used')
      invariant MovedSoFar(chains, contents, moved', i, j)
    {
      var node := chain[j];
      var newIndex := node.hashcode % table.Length;
      ghost var before, sizesBefore, usedBefore := table[..], sizes[..], used';
      MoveNode(chains, hash, contents, moved', i, j);
      table[newIndex] := [node] + table[newIndex];
      assert table[..] == before[newIndex := [node] + before[newIndex]];
      if sizes[newIndex] == 0 {
        used' := used' + 1;
      }
      sizes[newIndex] := sizes[newIndex] + 1;
      assert sizes[..] == sizesBefore[newIndex := sizesBefore[newIndex] + 1];
      count' := count' + 1;
      InsertKeepsConsistent(before, sizesBefore, hash, moved', count' - 1, usedBefore, node, table[..], sizes[..]);
      moved' := moved'[node.key := node.value];
      j := j + 1;
    }
  }

  /** The body of `rehashing` (chainhash.h:240-276) up to the swap of the
      arrays: fresh arrays of `newCapacity` empty buckets receive the nodes
      of `source`, chain by chain, and the counters are rebuilt from zero. */
  method Rebuild<K, V>(source: array<seq<Node<K, V>>>, newCapacity: int, ghost hash: K -> nat,
                       ghost contents: map<K, V>)
    returns (table: array<seq<Node<K, V>>>, sizes: array<int>, count: int, used: int)
    requires newCapacity > 0 && source.Length > 0
    requires Placed(source[..], hash) && KeysDistinct(source[..]) && Represents(source[..], contents)
    ensures fresh(table) && fresh(sizes) && table.Length == newCapacity && sizes.Length == newCapacity
    ensures Consistent(table[..], sizes[..], hash, contents, count, used)
    ensures forall b, x :: 0 <= b < source.Length && 0 <= x < |source[b]| ==>
      source[b][x] in table[source[b][x].hashcode % newCapacity]
  {
    ghost var chains := source[..];
    table := new seq<Node<K, V>>[newCapacity](_ => []);
    sizes := new int[newCapacity](_ => 0);
    count, used := 0, 0;
    ghost var moved: map<K, V> := map[];
    EmptyConsistent(table[..], sizes[..], hash);
    var i := 0;
    while i < source.Length
      invariant 0 <= i <= source.Length
      invariant Consistent(table[..], sizes[..], hash, moved, count, used)
      invariant MovedSoFar(chains, contents, moved, i, 0)
      modifies table, sizes
    {
      count, used, moved := MoveChain(source[i], table, sizes, count, used, hash, chains, contents, moved, i);
      i := i + 1;
    }
    MovedAll(chains, contents, moved);
    SameContentsSameNodes(chains, table[..], hash, contents);
  }

  // ---------------------------------------------------------------------

  class ChainHash<K(==), V(==)> {
    var buckets: array<seq<Node<K, V>>>   // `array`: every chain, head first
    var nsize: int
    var capacity: int
    var bucketSizes: array<int>
    var usedBuckets: int
    const hash: K -> nat                   // std::hash<TK>

    ghost var contents: map<K, V>
    ghost var Repr: set<object>

    ghost predicate Valid()
      reads this, Repr
    {
      Repr == {this, buckets, bucketSizes} &&
      capacity > 0 && buckets.Length == capacity && bucketSizes.Length == capacity &&
      Consistent(buckets[..], bucketSizes[..], hash, contents, nsize, usedBuckets)
    }

    /** The bucket a key belongs to under the current capacity. */
    function Bucket(key: K): (i: int)
      reads this
      requires capacity > 0
      ensures 0 <= i < capacity
    {
      hash(key) % capacity
    }

    /** fillFactor() > maxFillFactor (chainhash.h:108-110, 156), exactly:
        usedBuckets / capacity > 4 / 5. */
    predicate FillFactorExceeded()
      reads this
    {
      FillDenominator * usedBuckets > FillNumerator * capacity
    }

    /** The resize test `set` applies after inserting a new `key`, stated on
        the table as it was before the insertion (chainhash.h:149-156). */
    ghost predicate InsertionGrows(key: K)
      reads this, Repr
      requires Valid()
    {
      var i := Bucket(key);
      var used := usedBuckets + (if bucketSizes[i] == 0 then 1 else 0);
      bucketSizes[i] + 1 > MaxColision || FillDenominator * used > FillNumerator * capacity
    }

    /** ChainHash(initialCapacity) (chainhash.h:71-77): empty buckets. */
    constructor (initialCapacity: int, hash: K -> nat)
      requires initialCapacity > 0
      ensures Valid() && fresh(Repr)
      ensures this.hash == hash && capacity == initialCapacity
      ensures contents == map[] && nsize == 0 && usedBuckets == 0
      ensures forall b :: 0 <= b < capacity ==> bucketSizes[b] == 0 && buckets[b] == []
    {
      this.hash := hash;
      capacity := initialCapacity;
      buckets := new seq<Node<K, V>>[initialCapacity](_ => []);
      bucketSizes := new int[initialCapacity](_ => 0);
      nsize := 0;
      usedBuckets := 0;
      contents := map[];
      new;
      Repr := {this, buckets, bucketSizes};
      EmptyConsistent(buckets[..], bucketSizes[..], hash);
    }

    /** `get` (chainhash.h:79-89): the value stored under `key`, or
        KeyNotFound for a key the table does not hold. */
    method Get(key: K) returns (r: Result<V>)
      requires Valid()
      ensures r == if key in contents then Ok(contents[key]) else Err(KeyNotFound)
    {
      var hashcode := hash(key);
      var index := hashcode % capacity;
      var chain := buckets[index];
      var j := 0;
      while j < |chain|
        invariant 0 <= j <= |chain|
        invariant forall p :: 0 <= p < j ==> chain[p].key != key
      {
        if chain[j].key == key {
          return Ok(chain[j].value);
        }
        j := j + 1;
      }
      Located(buckets[..], hash, contents, key);
      return Err(KeyNotFound);
    }

    /** `size` (chainhash.h:91): the number of keys held. */
    function Size(): (n: int)
      reads this, Repr
      requires Valid()
      ensures n == |contents|
    {
      nsize
    }

    /** `bucket_count` (chainhash.h:93): the current number of buckets. */
    function BucketCount(): (n: int)
      reads this, Repr
      requires Valid()
      ensures n == buckets.Length && n > 0
    {
      capacity
    }

    /** `bucket_size` (chainhash.h:95-98): the length of one chain, or
        IndexOutOfRange for an index outside [0, capacity). */
    function BucketSize(index: int): (r: Result<int>)
      reads this, Repr
      requires Valid()
      ensures r.Ok? <==> 0 <= index < capacity
      ensures r.Ok? ==> r.value == |buckets[index]|
      ensures r.Err? ==> r.error == IndexOutOfRange
    {
      if index < 0 || index >= capacity then Err(IndexOutOfRange) else Ok(bucketSizes[index])
    }

    /** `contains` (chainhash.h:202-215). */
    method Contains(key: K) returns (found: bool)
      requires Valid()
      ensures found <==> key in contents
    {
      var hashcode := hash(key);
      var index := hashcode % capacity;
      var chain := buckets[index];
      var j := 0;
      while j < |chain|
        invariant 0 <= j <= |chain|
        invariant forall p :: 0 <= p < j ==> chain[p].key != key
      {
        if chain[j].key == key {
          return true;
        }
        j := j + 1;
      }
      Located(buckets[..], hash, contents, key);
      return false;
    }

    /** `begin` (chainhash.h:219-224): a cursor on the head of chain `index`. */
    function Begin(index: int): (r: Result<Iterator<K, V>>)
      reads this, Repr
      requires Valid()
      ensures r.Ok? <==> 0 <= index < capacity
      ensures r.Err? ==> r.error == IndexOutOfRange
      ensures r.Ok? ==> r.value.rest == buckets[index] && |r.value.rest| == bucketSizes[index]
    {
      if index < 0 || index >= capacity then Err(IndexOutOfRange) else Ok(Iterator(buckets[index]))
    }

    /** `end` (chainhash.h:228-233): the null cursor. */
    function End(index: int): (r: Result<Iterator<K, V>>)
      reads this, Repr
      requires Valid()
      ensures r.Ok? <==> 0 <= index < capacity
      ensures r.Err? ==> r.error == IndexOutOfRange
      ensures r.Ok? ==> r.value.rest == []
    {
      if index < 0 || index >= capacity then Err(IndexOutOfRange) else Ok(Iterator([]))
    }

    /** The loop `for (it = begin(i); it != end(i); ++it)` of every client:
        it visits the nodes of chain `index` in chain order, as many as
        `bucket_size(index)` says, and each of them is a pair of the table
        whose key belongs to that bucket. */
    method Entries(index: int) returns (r: Result<seq<(K, V)>>)
      requires Valid()
      ensures r.Ok? <==> 0 <= index < capacity
      ensures r.Err? ==> r.error == IndexOutOfRange
      ensures r.Ok? ==> |r.value| == bucketSizes[index]
      ensures r.Ok? ==> forall p :: 0 <= p < |r.value| ==>
        r.value[p] == (buckets[index][p].key, buckets[index][p].value)
      ensures r.Ok? ==> forall p :: 0 <= p < |r.value| ==>
        r.value[p].0 in contents && contents[r.value[p].0] == r.value[p].1 && Bucket(r.value[p].0) == index
    {
      var first := Begin(index);
      var last := End(index);
      if first.Err? {
        return Err(first.error);
      }
      var it := first.value;
      var entries := [];
      ghost var chain := buckets[index];
      ghost var j := 0;
      while it != last.value
        invariant 0 <= j <= |chain| && it == Iterator(chain[j..])
        invariant |entries| == j
        invariant forall p :: 0 <= p < j ==> entries[p] == (chain[p].key, chain[p].value)
        decreases |chain| - j
      {
        IteratorsCompareByPosition(chain, j, |chain|);
        entries := entries + [(it.rest[0].key, it.rest[0].value)];
        NextAdvances(chain, j);
        it := Next(it);
        j := j + 1;
      }
      IteratorsCompareByPosition(chain, j, |chain|);
      return Ok(entries);
    }

    /** The unlinking step of `remove` (chainhash.h:173-189): node `j` of
        chain `index` leaves its chain and the counters of that bucket
        shrink.  On a chain held as a sequence, the two cases of the source
        (the head moves on, or the predecessor skips the node) are the same
        update. */
    method Unlink(index: int, j: int)
      requires Valid() && 0 <= index < capacity && 0 <= j < |buckets[index]|
      modifies Repr
      ensures Valid() && Repr == old(Repr) && capacity == old(capacity)
      ensures buckets == old(buckets) && bucketSizes == old(bucketSizes)
      ensures contents == old(contents) - {old(buckets[index][j]).key}
      ensures buckets[..] == old(buckets[..])[index := old(buckets[index][..j] + buckets[index][j + 1..])]
      ensures bucketSizes[..] == old(bucketSizes[..])[index := old(bucketSizes[index]) - 1]
      ensures nsize == old(nsize) - 1
      ensures usedBuckets == old(usedBuckets) - (if old(bucketSizes[index]) == 1 then 1 else 0)
    {
      var chain := buckets[index];
      ghost var chains, sizes := buckets[..], bucketSizes[..];
      buckets[index] := chain[..j] + chain[j + 1..];
      assert buckets[..] == chains[index := chain[..j] + chain[j + 1..]];
      // `delete current`
      bucketSizes[index] := bucketSizes[index] - 1;
      assert bucketSizes[..] == sizes[index := sizes[index] - 1];
      nsize, usedBuckets, contents :=
        nsize - 1, usedBuckets - (if bucketSizes[index] == 0 then 1 else 0), contents - {chain[j].key};
      RemoveKeepsConsistent(chains, sizes, hash, old(contents), old(nsize), old(usedBuckets), index, j,
                            buckets[..], bucketSizes[..]);
    }

    /** `remove` (chainhash.h:163-198): take `key` out of the table, telling
        whether it was there.  It never resizes the table. */
    method Remove(key: K) returns (removed: bool)
      requires Valid()
      modifies Repr
      ensures Valid() && Repr == old(Repr) && capacity == old(capacity)
      ensures buckets == old(buckets) && bucketSizes == old(bucketSizes)
      ensures removed <==> key in old(contents)
      ensures contents == old(contents) - {key}
      ensures removed ==>
        var i := Bucket(key);
        (forall b :: 0 <= b < capacity && b != i ==> buckets[b] == old(buckets[b])) &&
        exists j :: 0 <= j < |old(buckets[i])| && old(buckets[i][j]).key == key &&
          buckets[i] == old(buckets[i][..j] + buckets[i][j + 1..])
      ensures removed ==>
        var i := Bucket(key);
        nsize == old(nsize) - 1 &&
        bucketSizes[..] == old(bucketSizes[..])[i := old(bucketSizes[i]) - 1] &&
        usedBuckets == old(usedBuckets) - (if old(bucketSizes[i]) == 1 then 1 else 0)
      ensures !removed ==>
        nsize == old(nsize) && usedBuckets == old(usedBuckets) &&
        buckets[..] == old(buckets[..]) && bucketSizes[..] == old(bucketSizes[..])
    {
      var hashcode := hash(key);
      var index := hashcode % capacity;
      var chain := buckets[index];
      var j := 0;
      while j < |chain|
        invariant 0 <= j <= |chain|
        invariant forall p :: 0 <= p < j ==> chain[p].key != key
      {
        if chain[j].key == key {
          Unlink(index, j);
          assert buckets[index] == chain[..j] + chain[j + 1..];
          return true;
        }
        j := j + 1;
      }
      Located(buckets[..], hash, contents, key);
      return false;
    }

    /** Overwriting in `set` (chainhash.h:135-138): node `j` of chain `index`
        takes the new value; no counter changes. */
    method Overwrite(index: int, j: int, value: V)
      requires Valid() && 0 <= index < capacity && 0 <= j < |buckets[index]|
      modifies Repr
      ensures Valid() && Repr == old(Repr) && capacity == old(capacity)
      ensures buckets == old(buckets) && bucketSizes == old(bucketSizes)
      ensures contents == old(contents)[old(buckets[index][j]).key := value]
      ensures buckets[..] == old(buckets[..])[index := old(buckets[index][j := buckets[index][j].(value := value)])]
      ensures bucketSizes[..] == old(bucketSizes[..])
      ensures nsize == old(nsize) && usedBuckets == old(usedBuckets)
    {
      var chain := buckets[index];
      ghost var chains := buckets[..];
      buckets[index] := chain[j := chain[j].(value := value)];
      assert buckets[..] == chains[index := chain[j := chain[j].(value := value)]];
      contents := contents[chain[j].key := value];
      UpdateKeepsConsistent(chains, bucketSizes[..], hash, old(contents), nsize, usedBuckets, index, j, value,
                            buckets[..]);
    }

    /** Inserting in `set` (chainhash.h:143-153): a node for a key the table
        does not hold goes in front of the chain its hash selects, and the
        counters of that bucket grow. */
    method PushFront(key: K, value: V)
      requires Valid() && key !in contents
      modifies Repr
      ensures Valid() && Repr == old(Repr) && capacity == old(capacity)
      ensures buckets == old(buckets) && bucketSizes == old(bucketSizes)
      ensures contents == old(contents)[key := value]
      ensures var i := Bucket(key);
        buckets[..] == old(buckets[..])[i := [Node(key, value, hash(key))] + old(buckets[i])] &&
        bucketSizes[..] == old(bucketSizes[..])[i := old(bucketSizes[i]) + 1] &&
        usedBuckets == old(usedBuckets) + (if old(bucketSizes[i]) == 0 then 1 else 0)
      ensures nsize == old(nsize) + 1
    {
      var hashcode := hash(key);
      var index := hashcode % capacity;
      var newNode := Node(key, value, hashcode);
      ghost var chains, sizes := buckets[..], bucketSizes[..];
      buckets[index] := [newNode] + buckets[index];
      assert buckets[..] == chains[index := [newNode] + chains[index]];
      if bucketSizes[index] == 0 {
        usedBuckets := usedBuckets + 1;
      }
      bucketSizes[index] := bucketSizes[index] + 1;
      assert bucketSizes[..] == sizes[index := sizes[index] + 1];
      nsize, contents := nsize + 1, contents[key := value];
      InsertKeepsConsistent(chains, sizes, hash, old(contents), old(nsize), old(usedBuckets), newNode,
                            buckets[..], bucketSizes[..]);
    }

    /** `set` (chainhash.h:126-159): overwrite the value of a key the table
        holds; otherwise put a node for the new key in front of its chain,
        count it, and grow the table once if that chain is now longer than
        MaxColision or the fill factor is above 0.8. */
    method Set(key: K, value: V)
      requires Valid()
      modifies Repr
      ensures Valid() && fresh(Repr - old(Repr))
      ensures contents == old(contents)[key := value]
      ensures key in old(contents) ==>
        Repr == old(Repr) && capacity == old(capacity) && nsize == old(nsize) &&
        usedBuckets == old(usedBuckets) && bucketSizes[..] == old(bucketSizes[..])
      ensures key in old(contents) ==>
        forall b :: 0 <= b < capacity ==>
          (|buckets[b]| == |old(buckets[b])| &&
           forall x :: 0 <= x < |buckets[b]| ==>
             buckets[b][x] == if old(buckets[b][x]).key == key then old(buckets[b][x]).(value := value)
                              else old(buckets[b][x]))
      ensures key !in old(contents) && !old(InsertionGrows(key)) ==>
        var i := Bucket(key);
        Repr == old(Repr) && capacity == old(capacity) && nsize == old(nsize) + 1 &&
        buckets[..] == old(buckets[..])[i := [Node(key, value, hash(key))] + old(buckets[i])] &&
        bucketSizes[..] == old(bucketSizes[..])[i := old(bucketSizes[i]) + 1] &&
        usedBuckets == old(usedBuckets) + (if old(bucketSizes[i]) == 0 then 1 else 0)
      ensures key !in old(contents) && old(InsertionGrows(key)) ==>
        capacity == 2 * old(capacity) && nsize == old(nsize) + 1
    {
      var hashcode := hash(key);
      var index := hashcode % capacity;
      var chain := buckets[index];
      var j := 0;
      while j < |chain|
        invariant 0 <= j <= |chain|
        invariant forall p :: 0 <= p < j ==> chain[p].key != key
      {
        if chain[j].key == key {
          Overwrite(index, j, value);
          return;
        }
        j := j + 1;
      }
      Located(buckets[..], hash, contents, key);
      PushFront(key, value);
      if bucketSizes[index] > MaxColision || FillFactorExceeded() {
        Rehashing();
      }
    }

    /** `rehashing` (chainhash.h:236-277): new arrays twice as large take
        every node, chain by chain, each in the bucket its cached hash
        selects under the new capacity, and the counters are rebuilt. */
    method Rehashing()
      requires Valid()
      modifies this
      ensures Valid() && fresh(buckets) && fresh(bucketSizes)
      ensures capacity == 2 * old(capacity)
      ensures contents == old(contents) && nsize == old(nsize)
      ensures forall b, x :: 0 <= b < |old(buckets[..])| && 0 <= x < |old(buckets[..])[b]| ==>
        old(buckets[..])[b][x] in buckets[old(buckets[..])[b][x].hashcode % capacity]
    {
      var table, sizes, count, used := Rebuild(buckets, capacity * 2, hash, contents);
      buckets, bucketSizes, capacity, nsize, usedBuckets := table, sizes, capacity * 2, count, used;
      Repr := {this, buckets, bucketSizes};
    }
  }
}
