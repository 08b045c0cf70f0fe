/**
  The in-memory key/value table of db/echoDB.go. Each key maps to an Item that counts
  its accesses and records when it was last accessed and when it expires. The table is
  capped at `maxSize` entries by an LFU eviction with an LRU tie break, and an expiry
  sweep drops the entries whose time has passed. Every mutation also updates the
  index tree of db/B+.go.

  Time is a nanosecond count passed in by the caller (`now`), where the source reads
  the clock. Each operation is one atomic step; the mutex and the background ticker
  are not modelled.
 */
module Echo {
  import opened KeyOrder
  import opened BPlusArena
  import opened BPlus

  /** time.Minute, in nanoseconds. */
  const Minute: int := 60_000_000_000

  datatype Option<T> = None | Some(value: T)

  /** Item of db/echoDB.go: the record an entry's `*Item` points to. */
  datatype Item<V> = Item(value: V, frequency: int, lastAccessed: int, expiration: int)

  /**
    The table after Insert's update of `key`: an existing entry gets the new value, one
    more access and `now` as its last access, and keeps its expiry; a new entry starts
    with one access and expires `lifetime` after `now`.
   */
  function Upsert<V>(data: map<string, Item<V>>, key: string, value: V, now: int, lifetime: int): (r: map<string, Item<V>>)
    ensures r.Keys == data.Keys + {key}
    ensures key in data ==> r[key] == Item(value, data[key].frequency + 1, now, data[key].expiration)
    ensures key !in data ==> r[key] == Item(value, 1, now, now + lifetime)
    ensures forall k :: k in data && k != key ==> r[k] == data[k]
    ensures |r| == if key in data then |data| else |data| + 1
  {
    if key in data then
      data[key := data[key].(value := value, frequency := data[key].frequency + 1, lastAccessed := now)]
    else
      data[key := Item(value, 1, now, now + lifetime)]
  }

  /**
    Entry `v` is one evictData may remove: no entry has fewer accesses, and no entry
    with as few accesses was last accessed earlier.
   */
  ghost predicate IsVictim<V>(data: map<string, Item<V>>, v: string) {
    && v in data
    && (forall k :: k in data ==> data[v].frequency <= data[k].frequency)
    && (forall k :: k in data && data[k].frequency == data[v].frequency ==> data[v].lastAccessed <= data[k].lastAccessed)
  }

  /** The entries the expiry sweep keeps: those whose expiration is not before `now`. */
  function Unexpired<V>(data: map<string, Item<V>>, now: int): map<string, Item<V>> {
    map k | k in data && !(data[k].expiration < now) :: data[k]
  }

  /**
    The first loop of evictData: one pass over the table in the map's iteration order,
    which the source leaves unspecified and the model leaves open, collecting the
    smallest access count and the entries that have it. A count of 0 marks "nothing
    seen yet"; every entry has at least one access, so no count is mistaken for it.
   */
  method LowestFrequency<V>(data: map<string, Item<V>>) returns (lowestFreq: int, lowest: seq<string>)
    requires forall k :: k in data ==> data[k].frequency >= 1
    ensures data == map[] <==> lowest == []
    ensures forall k :: k in data ==> lowestFreq <= data[k].frequency
    ensures forall j :: 0 <= j < |lowest| ==> lowest[j] in data && data[lowest[j]].frequency == lowestFreq
    ensures forall k :: k in data && data[k].frequency == lowestFreq ==> k in lowest
    ensures forall i, j :: 0 <= i < j < |lowest| ==> lowest[i] != lowest[j]
  {
    lowestFreq, lowest := 0, [];
    var rest := data.Keys;
    while rest != {}
      invariant rest <= data.Keys
      invariant rest == data.Keys ==> lowestFreq == 0 && lowest == []
      invariant rest != data.Keys ==> lowestFreq >= 1 && lowest != []
      invariant forall k :: k in data && k !in rest ==> lowestFreq <= data[k].frequency
      invariant forall j :: 0 <= j < |lowest| ==>
                  lowest[j] in data && lowest[j] !in rest && data[lowest[j]].frequency == lowestFreq
      invariant forall k :: k in data && k !in rest && data[k].frequency == lowestFreq ==> k in lowest
      invariant forall i, j :: 0 <= i < j < |lowest| ==> lowest[i] != lowest[j]
      decreases |rest|
    {
      var key :| key in rest;
      var item := data[key];
      if lowestFreq == 0 || item.frequency < lowestFreq {
        lowestFreq := item.frequency;
        lowest := [key];
      } else if item.frequency == lowestFreq {
        lowest := lowest + [key];
      }
      rest := rest - {key};
    }
  }

  /**
    The second loop of evictData: the first of `keys`, in order, whose last access is
    earliest; a later entry replaces the candidate only when strictly earlier.
   */
  method OldestKey<V>(data: map<string, Item<V>>, keys: seq<string>) returns (oldest: string)
    requires keys != [] && forall j :: 0 <= j < |keys| ==> keys[j] in data
    ensures oldest in data
    ensures forall j :: 0 <= j < |keys| ==> data[oldest].lastAccessed <= data[keys[j]].lastAccessed
    ensures exists i :: 0 <= i < |keys| && keys[i] == oldest
                        && forall j :: 0 <= j < i ==> data[oldest].lastAccessed < data[keys[j]].lastAccessed
  {
    oldest := keys[0];
    ghost var at := 0;
    var j := 1;
    while j < |keys|
      invariant 1 <= j <= |keys| && 0 <= at < j && keys[at] == oldest
      invariant forall i :: 0 <= i < j ==> data[oldest].lastAccessed <= data[keys[i]].lastAccessed
      invariant forall i :: 0 <= i < at ==> data[oldest].lastAccessed < data[keys[i]].lastAccessed
    {
      if data[keys[j]].lastAccessed < data[oldest].lastAccessed {
        oldest, at := keys[j], j;
      }
      j := j + 1;
    }
  }

  /** The keys of `keys` from `lo` to `hi`, both included, in their order: RangeQuery's filter. */
  function KeysInRange(keys: seq<string>, lo: string, hi: string): (r: seq<string>)
    ensures forall j :: 0 <= j < |r| ==> LessEq(lo, r[j]) && LessEq(r[j], hi)
    ensures |r| <= |keys|
  {
    if keys == [] then []
    else
      var n := |keys| - 1;
      KeysInRange(keys[..n], lo, hi) + if LessEq(lo, keys[n]) && LessEq(keys[n], hi) then [keys[n]] else []
  }

  /** The filter keeps every key in the range as often as it occurs, and no other key. */
  lemma {:induction false} KeysInRangeCounts(keys: seq<string>, lo: string, hi: string, k: string)
    ensures multiset(KeysInRange(keys, lo, hi))[k] == if LessEq(lo, k) && LessEq(k, hi) then multiset(keys)[k] else 0
  {
    if keys != [] {
      var n := |keys| - 1;
      assert keys == keys[..n] + [keys[n]];
      KeysInRangeCounts(keys[..n], lo, hi, k);
    }
  }

  /** Filtering a concatenation filters each part. */
  lemma {:induction false} KeysInRangeAppend(a: seq<string>, b: seq<string>, lo: string, hi: string)
    ensures KeysInRange(a + b, lo, hi) == KeysInRange(a, lo, hi) + KeysInRange(b, lo, hi)
    decreases |b|
  {
    if b != [] {
      var n := |b| - 1;
      assert (a + b)[..|a + b| - 1] == a + b[..n];
      KeysInRangeAppend(a, b[..n], lo, hi);
    } else {
      assert a + b == a;
    }
  }

  /**
    One step of the expiry sweep over `before`: the key `key` is visited and, when it
    has expired, joins the keys removed so far.
   */
  lemma SweepStep<V>(before: map<string, Item<V>>, removed: set<string>, rest: set<string>, key: string, now: int,
                     keys: multiset<string>)
    requires key in rest && rest <= before.Keys
    requires forall k :: k in removed <==> k in before && k !in rest && before[k].expiration < now
    ensures key in before.Keys - removed
    ensures var next := if before[key].expiration < now then removed + {key} else removed;
            forall k :: k in next <==> k in before && k !in rest - {key} && before[k].expiration < now
    ensures before[key].expiration < now ==>
              && (before - removed) - {key} == before - (removed + {key})
              && keys - multiset(removed) - multiset{key} == keys - multiset(removed + {key})
  {
    assert multiset(removed + {key}) == multiset(removed) + multiset{key};
  }

  /** The inner loop of RangeQuery: the keys of one node from `startKey` to `endKey`, in order. */
  method FilterRange(keys: seq<string>, startKey: string, endKey: string) returns (part: seq<string>)
    ensures part == KeysInRange(keys, startKey, endKey)
  {
    part := [];
    var j := 0;
    while j < |keys|
      invariant 0 <= j <= |keys|
      invariant part == KeysInRange(keys[..j], startKey, endKey)
    {
      var key := keys[j];
      assert keys[..j + 1][..j] == keys[..j];
      if LessEq(startKey, key) && LessEq(key, endKey) {
        part := part + [key];
      }
      j := j + 1;
    }
    assert keys[..j] == keys;
  }

  /** The keys met from node `n` on when `n` is reached, or none when the chain has ended. */
  ghost function ChainFrom(nodes: seq<BPlusNode>, rank: seq<nat>, n: Link): seq<string>
    requires Linked(nodes, rank) && (n.Ptr? ==> n.index < |nodes|)
  {
    if n.Ptr? then ChainKeys(nodes, rank, n.index) else []
  }

  /**
    One step of the walk: a node's keys come first among those met from it on, so
    filtering what was met before and then this node's keys filters both together.
   */
  lemma ChainStep(nodes: seq<BPlusNode>, rank: seq<nat>, n: nat, visited: seq<string>, lo: string, hi: string)
    requires Linked(nodes, rank) && n < |nodes|
    ensures nodes[n].next.Ptr? ==> nodes[n].next.index < |nodes| && rank[nodes[n].next.index] < rank[n]
    ensures visited + ChainKeys(nodes, rank, n) == (visited + nodes[n].keys) + ChainFrom(nodes, rank, nodes[n].next)
    ensures KeysInRange(visited + nodes[n].keys, lo, hi) == KeysInRange(visited, lo, hi) + KeysInRange(nodes[n].keys, lo, hi)
  {
    assert LinkAt(nodes, rank, n);
    KeysInRangeAppend(visited, nodes[n].keys, lo, hi);
  }

  /**
    The outer loop of RangeQuery: from node `start` along the `next` links, the keys
    of each node from `startKey` to `endKey`, node after node.
   */
  method CollectRange(nodes: seq<BPlusNode>, ghost rank: seq<nat>, start: nat, startKey: string, endKey: string)
    returns (result: seq<string>)
    requires Linked(nodes, rank) && start < |nodes|
    ensures result == KeysInRange(ChainKeys(nodes, rank, start), startKey, endKey)
  {
    var node: Link := Ptr(start);
    ghost var visited: seq<string> := [];
    result := [];
    while node.Ptr?
      invariant node.Ptr? ==> node.index < |nodes|
      invariant visited + ChainFrom(nodes, rank, node) == ChainKeys(nodes, rank, start)
      invariant result == KeysInRange(visited, startKey, endKey)
      decreases if node.Ptr? then rank[node.index] + 1 else 0
    {
      var x := nodes[node.index];
      ChainStep(nodes, rank, node.index, visited, startKey, endKey);
      var part := FilterRange(x.keys, startKey, endKey);
      result := result + part;
      visited := visited + x.keys;
      node := x.next;
    }
    assert visited + [] == visited;
  }

  /** The arena with the keys of node `n` replaced and every other node as it was. */
  function WithKeys(nodes: seq<BPlusNode>, n: nat, keys: seq<string>): (r: seq<BPlusNode>)
    requires n < |nodes|
    ensures |r| == |nodes| && r[n].keys == keys
  {
    nodes[n := nodes[n].(keys := keys)]
  }

  /** Replacing a node's keys twice leaves the second keys; replacing them by themselves changes nothing. */
  lemma WithKeysTwice(nodes: seq<BPlusNode>, n: nat, first: seq<string>, second: seq<string>)
    requires n < |nodes|
    ensures WithKeys(WithKeys(nodes, n, first), n, second) == WithKeys(nodes, n, second)
    ensures WithKeys(nodes, n, nodes[n].keys) == nodes
  {
  }

  /**
    The keys taken from the index by a sweep that kept `kept` of `before`, followed by
    the eviction of `v`, are the keys that left the table.
   */
  lemma TickKeys<V>(before: map<string, Item<V>>, kept: map<string, Item<V>>, v: string,
                    keys0: multiset<string>, keys1: multiset<string>)
    requires kept.Keys <= before.Keys && v in kept
    requires keys1 == keys0 - multiset(before.Keys - kept.Keys)
    ensures keys1 - multiset{v} == keys0 - multiset(before.Keys - (kept - {v}).Keys)
  {
    var gone := before.Keys - kept.Keys;
    assert before.Keys - (kept - {v}).Keys == gone + {v};
    assert multiset(gone + {v}) == multiset(gone) + multiset{v};
  }

  /** The keys met from node `m` on are the same in two arenas that agree everywhere but at `root`, ranked above `m`. */
  lemma {:induction false} ChainAvoidsRoot(nodes: seq<BPlusNode>, after: seq<BPlusNode>, rank: seq<nat>, root: nat, m: nat)
    requires Linked(nodes, rank) && Linked(after, rank) && |after| == |nodes|
    requires root < |nodes| && m < |nodes| && rank[m] < rank[root]
    requires forall x :: 0 <= x < |nodes| && x != root ==> after[x] == nodes[x]
    ensures ChainKeys(after, rank, m) == ChainKeys(nodes, rank, m)
    decreases rank[m]
  {
    assert LinkAt(nodes, rank, m);
    assert after[m] == nodes[m];
    if nodes[m].next.Ptr? {
      ChainAvoidsRoot(nodes, after, rank, root, nodes[m].next.index);
    }
  }

  /**
    Inserting a key twice into the root leaf and deleting it once leaves one copy more
    than the leaf held before, so a key inserted twice and deleted once stays in the index.
   */
  lemma ReinsertOutlivesDelete(keys: seq<string>, k: string)
    ensures var twice := Sort(Sort(keys + [k]) + [k]);
            multiset(RemoveKey(twice, k))[k] == multiset(keys)[k] + 1
  {
    var twice := Sort(Sort(keys + [k]) + [k]);
    RemoveKeySorted(twice, k);
    assert multiset(twice) == multiset(keys) + multiset{k} + multiset{k};
  }

  /**
    What RangeQuery walks after the root leaf's keys change: the new keys, then the keys
    of the nodes chained after the root, which no store operation touches.
   */
  lemma ChainAfterRootKeys(nodes: seq<BPlusNode>, rank: seq<nat>, root: nat, keys: seq<string>)
    requires Linked(nodes, rank) && root < |nodes|
    ensures Linked(WithKeys(nodes, root, keys), rank)
    ensures ChainKeys(WithKeys(nodes, root, keys), rank, root) == keys + ChainFrom(nodes, rank, nodes[root].next)
  {
    var after := WithKeys(nodes, root, keys);
    assert LinkAt(nodes, rank, root);
    LinkedUpdate(nodes, rank, root, after[root]);
    assert LinkAt(after, rank, root);
    if nodes[root].next.Ptr? {
      ChainAvoidsRoot(nodes, after, rank, root, nodes[root].next.index);
    }
  }

  /** The arena left by a tree insert at a leaf root holding `degree` keys, which always panics. */
  function FailedRootSplit(nodes: seq<BPlusNode>, root: nat): seq<BPlusNode>
    requires root < |nodes| && nodes[root].isLeaf && nodes[root].keys != []
  {
    var h := SplitNode(nodes[root], |nodes| + 1);
    nodes[root := h.lower] + [BPlusNode(false, [], [root], Nil), h.upper]
  }

  class EchoDB<V> {
    var data: map<string, Item<V>>
    const bplusTree: BPlusTree
    const maxSize: int
    const lifetime: int

    /**
      The states the store reaches: the index tree has degree 3 and is well formed, its
      root is still a leaf (a root split never completes), the root's keys are sorted,
      and every entry has been accessed at least once.
     */
    ghost predicate Valid()
      reads this, bplusTree
    {
      && 0 <= maxSize
      && bplusTree.degree == 3
      && bplusTree.Valid()
      && bplusTree.nodes[bplusTree.root].isLeaf
      && Sorted(bplusTree.RootKeys())
      && forall k :: k in data ==> data[k].frequency >= 1
    }

    /** NewEchoDB: an empty table of at most 1000 entries that live 10 minutes, over a tree of degree 3. */
    constructor ()
      ensures Valid() && data == map[] && maxSize == 1000 && lifetime == 10 * Minute
      ensures fresh(bplusTree) && bplusTree.degree == 3 && bplusTree.nodes == [BPlusNode(true, [], [], Nil)]
    {
      data := map[];
      maxSize := 1000;
      lifetime := 10 * Minute;
      bplusTree := new BPlusTree(3);
    }

    /**
      Insert: updates the entry, inserts the key into the index tree and, when the table
      is then over `maxSize`, evicts one entry. The tree insert panics on a root that
      holds `degree` keys; the panic leaves the updated entry in place and skips the
      eviction.
     */
    method Insert(key: string, value: V, now: int) returns (panicked: bool)
      requires Valid()
      modifies this, bplusTree
      ensures Valid() && bplusTree.root == old(bplusTree.root)
      ensures panicked <==> old(|bplusTree.RootKeys()|) == bplusTree.degree
      ensures panicked ==>
                && data == Upsert(old(data), key, value, now, lifetime)
                && bplusTree.nodes == FailedRootSplit(old(bplusTree.nodes), bplusTree.root)
                && bplusTree.RootKeys() == old(bplusTree.RootKeys())[..old(|bplusTree.RootKeys()|) / 2]
      ensures var d := Upsert(old(data), key, value, now, lifetime);
              !panicked && |d| <= maxSize ==>
                && data == d
                && bplusTree.nodes == WithKeys(old(bplusTree.nodes), bplusTree.root, Sort(old(bplusTree.RootKeys()) + [key]))
      ensures var d := Upsert(old(data), key, value, now, lifetime);
              !panicked && |d| > maxSize ==>
                exists v :: && IsVictim(d, v) && data == d - {v}
                            && bplusTree.nodes == WithKeys(old(bplusTree.nodes), bplusTree.root,
                                                           RemoveKey(Sort(old(bplusTree.RootKeys()) + [key]), v))
      ensures !panicked && old(|data|) <= maxSize ==> |data| <= maxSize
    {
      data := Upsert(data, key, value, now, lifetime);
      ghost var d := data;
      ghost var keys1 := Sort(bplusTree.RootKeys() + [key]);
      ghost var nodes0 := bplusTree.nodes;
      panicked := IndexInsert(key);
      if panicked {
        // the panic unwinds past the size check
        return;
      }
      ghost var nodes1 := bplusTree.nodes;
      EvictIfFull();
      if |d| > maxSize {
        ghost var v :| IsVictim(d, v) && data == d - {v}
                       && bplusTree.nodes == WithKeys(nodes1, bplusTree.root, RemoveKey(keys1, v));
        WithKeysTwice(nodes0, bplusTree.root, keys1, RemoveKey(keys1, v));
      }
    }

    /**
      The tree insert that Insert makes, seen from the store: the index's root stays a
      sorted leaf; a root holding `degree` keys panics and is cut to its lower half,
      any other root gains the key in order.
     */
    method IndexInsert(key: string) returns (panicked: bool)
      requires Valid()
      modifies bplusTree
      ensures Valid() && bplusTree.root == old(bplusTree.root)
      ensures panicked <==> old(|bplusTree.RootKeys()|) == bplusTree.degree
      ensures panicked ==>
                && bplusTree.nodes == FailedRootSplit(old(bplusTree.nodes), bplusTree.root)
                && bplusTree.RootKeys() == old(bplusTree.RootKeys())[..old(|bplusTree.RootKeys()|) / 2]
      ensures !panicked ==>
                bplusTree.nodes == WithKeys(old(bplusTree.nodes), bplusTree.root, Sort(old(bplusTree.RootKeys()) + [key]))
    {
      ghost var keys0 := bplusTree.RootKeys();
      panicked := bplusTree.Insert(key);
      if panicked {
        SortedPrefix(keys0, |keys0| / 2);
      }
    }

    /**
      Delete: the entry leaves the table (an absent key changes nothing) and the tree
      deletes one copy of the key from its root leaf. evictData and evictExpiredData
      remove an entry with the same two statements.
     */
    method Delete(key: string)
      requires Valid()
      modifies this, bplusTree
      ensures Valid() && bplusTree.root == old(bplusTree.root)
      ensures data == old(data) - {key}
      ensures bplusTree.nodes == WithKeys(old(bplusTree.nodes), bplusTree.root, RemoveKey(old(bplusTree.RootKeys()), key))
      ensures multiset(bplusTree.RootKeys()) == multiset(old(bplusTree.RootKeys())) - multiset{key}
    {
      data := data - {key};
      ghost var keys0 := bplusTree.RootKeys();
      var panicked := bplusTree.Delete(key);
      assert !panicked;
      RemoveKeySorted(keys0, key);
    }

    /**
      Query: a hit counts one more access and records `now` as the last access, and
      returns the entry's record (the Go result is the `*Item`, not its value).
     */
    method Query(key: string, now: int) returns (item: Option<Item<V>>, found: bool)
      requires Valid()
      modifies this
      ensures Valid()
      ensures found == (key in old(data))
      ensures found ==>
                && data == old(data)[key := old(data)[key].(frequency := old(data)[key].frequency + 1, lastAccessed := now)]
                && item == Some(data[key])
      ensures !found ==> data == old(data) && item == None
    {
      found := key in data;
      if found {
        var record := data[key];
        data := data[key := record.(frequency := record.frequency + 1, lastAccessed := now)];
        item := Some(data[key]);
      } else {
        item := None;
      }
    }

    /**
      evictData: removes one entry with the fewest accesses, among those the one last
      accessed earliest (ties broken by iteration order), from the table and the tree.
      On an empty table there is nothing to remove.
     */
    method EvictData()
      requires Valid()
      modifies this, bplusTree
      ensures Valid() && bplusTree.root == old(bplusTree.root)
      ensures old(data) == map[] ==> data == old(data) && bplusTree.nodes == old(bplusTree.nodes)
      ensures old(data) != map[] ==>
                exists v :: && IsVictim(old(data), v) && data == old(data) - {v}
                            && bplusTree.nodes == WithKeys(old(bplusTree.nodes), bplusTree.root,
                                                           RemoveKey(old(bplusTree.RootKeys()), v))
    {
      var lowestFreq, lowest := LowestFrequency(data);
      if |lowest| > 1 {
        var oldest := OldestKey(data, lowest);
        assert IsVictim(data, oldest);
        // the loop over the table that looks for the entry whose *Item is oldestItem finds the entry of `oldest`
        Delete(oldest);
      } else if lowest != [] {
        var only := lowest[0];
        assert IsVictim(data, only);
        Delete(only);
      }
    }

    /**
      The size check that Insert and the maintenance tick both make: one eviction when
      the table holds more than `maxSize` entries, which takes it one entry smaller.
     */
    method EvictIfFull()
      requires Valid()
      modifies this, bplusTree
      ensures Valid() && bplusTree.root == old(bplusTree.root)
      ensures |old(data)| <= maxSize ==> data == old(data) && bplusTree.nodes == old(bplusTree.nodes)
      ensures |old(data)| > maxSize ==>
                exists v :: && IsVictim(old(data), v) && data == old(data) - {v}
                            && bplusTree.nodes == WithKeys(old(bplusTree.nodes), bplusTree.root,
                                                           RemoveKey(old(bplusTree.RootKeys()), v))
      ensures |old(data)| > maxSize ==> |data| == |old(data)| - 1
    {
      if |data| > maxSize {
        ghost var d := data;
        EvictData();
        ghost var v :| IsVictim(d, v) && data == d - {v};
        assert data.Keys == d.Keys - {v};
      }
    }

    /**
      evictExpiredData: one pass over the table that deletes, from the table and the
      tree, every entry whose expiration is strictly before `now`. Every other entry is
      kept as it is, whatever its access count.
     */
    method EvictExpiredData(now: int)
      requires Valid()
      modifies this, bplusTree
      ensures Valid() && bplusTree.root == old(bplusTree.root)
      ensures data == Unexpired(old(data), now)
      ensures bplusTree.nodes == WithKeys(old(bplusTree.nodes), bplusTree.root, bplusTree.RootKeys())
      ensures multiset(bplusTree.RootKeys())
              == multiset(old(bplusTree.RootKeys())) - multiset(old(data).Keys - data.Keys)
    {
      ghost var before := data;
      ghost var keys0 := multiset(bplusTree.RootKeys());
      ghost var removed: set<string> := {};
      ghost var nodes0 := bplusTree.nodes;
      WithKeysTwice(nodes0, bplusTree.root, [], []);
      var rest := data.Keys;
      while rest != {}
        invariant Valid() && bplusTree.root == old(bplusTree.root)
        invariant rest <= before.Keys
        invariant forall k :: k in removed <==> k in before && k !in rest && before[k].expiration < now
        invariant data == before - removed
        invariant multiset(bplusTree.RootKeys()) == keys0 - multiset(removed)
        invariant bplusTree.nodes == WithKeys(nodes0, bplusTree.root, bplusTree.RootKeys())
        decreases |rest|
      {
        var key :| key in rest;
        SweepStep(before, removed, rest, key, now, keys0);
        if data[key].expiration < now {
          ghost var keys1 := bplusTree.RootKeys();
          Delete(key);
          WithKeysTwice(nodes0, bplusTree.root, keys1, RemoveKey(keys1, key));
          removed := removed + {key};
        }
        rest := rest - {key};
      }
      assert data == Unexpired(before, now);
      assert before.Keys - data.Keys == removed;
    }

    /** One tick of startEvictionProcess: the expiry sweep, then one eviction if the table is still over `maxSize`. */
    method MaintenanceTick(now: int)
      requires Valid()
      modifies this, bplusTree
      ensures Valid() && bplusTree.root == old(bplusTree.root)
      ensures var kept := Unexpired(old(data), now);
              if |kept| > maxSize then exists v :: IsVictim(kept, v) && data == kept - {v}
              else data == kept
      ensures bplusTree.nodes == WithKeys(old(bplusTree.nodes), bplusTree.root, bplusTree.RootKeys())
      ensures multiset(bplusTree.RootKeys())
              == multiset(old(bplusTree.RootKeys())) - multiset(old(data).Keys - data.Keys)
    {
      EvictExpiredData(now);
      ghost var kept, nodes1, keys1 := data, bplusTree.nodes, bplusTree.RootKeys();
      EvictIfFull();
      if |kept| > maxSize {
        ghost var v :| IsVictim(kept, v) && data == kept - {v}
                       && bplusTree.nodes == WithKeys(nodes1, bplusTree.root, RemoveKey(keys1, v));
        WithKeysTwice(old(bplusTree.nodes), bplusTree.root, keys1, RemoveKey(keys1, v));
        RemoveKeySorted(keys1, v);
        TickKeys(old(data), kept, v, multiset(old(bplusTree.RootKeys())), multiset(keys1));
      }
    }

    /**
      RangeQuery: the keys from `startKey` to `endKey` along the leaf chain that starts
      at the root; the source prints them, the model returns them.
     */
    method RangeQuery(startKey: string, endKey: string) returns (result: seq<string>)
      requires Valid()
      ensures result == KeysInRange(ChainKeys(bplusTree.nodes, bplusTree.rank, bplusTree.root), startKey, endKey)
    {
      result := CollectRange(bplusTree.nodes, bplusTree.rank, bplusTree.root, startKey, endKey);
    }
  }
}
