/**
  The nodes of the index tree of db/B+.go, held in an arena: a node is addressed by
  its position in a sequence, a child reference and the leaf forward link `next` are
  such positions. Nodes are never freed, as in the garbage-collected original, where
  a node that the tree no longer reaches stays alive while a `next` link reaches it.

  Two ghost measures make the pointer structure well founded:
  - `level`: leaves are at level 0, the children of a node at level h + 1 are at level h,
    so every descent from a node ends at a leaf;
  - `rank`: following `next` strictly lowers the rank, so the forward chain has no cycle.
 */
module BPlusArena {
  import opened KeyOrder

  /** A nil-able reference to a node: its arena position. */
  datatype Link = Nil | Ptr(index: nat)

  /** BPlusNode of db/B+.go: a leaf flag, the keys, the children and the forward link. */
  datatype BPlusNode = BPlusNode(isLeaf: bool, keys: seq<string>, children: seq<nat>, next: Link)

  /** The shape the tree code relies on at node `n`. */
  ghost predicate ShapeAt(nodes: seq<BPlusNode>, level: seq<nat>, n: nat)
    requires n < |nodes| && |level| == |nodes|
  {
    var x := nodes[n];
    && (x.isLeaf <==> level[n] == 0)
    && (x.isLeaf ==> x.children == [])
    && (!x.isLeaf ==> |x.children| >= |x.keys| + 1)
    && (forall j :: 0 <= j < |x.children| ==> x.children[j] < |nodes| && level[x.children[j]] + 1 == level[n])
  }

  ghost predicate Shaped(nodes: seq<BPlusNode>, level: seq<nat>) {
    && |level| == |nodes|
    && forall n {:trigger nodes[n]} :: 0 <= n < |nodes| ==> ShapeAt(nodes, level, n)
  }

  /** The forward link of node `n` leads to a node of lower rank. */
  ghost predicate LinkAt(nodes: seq<BPlusNode>, rank: seq<nat>, n: nat)
    requires n < |nodes| && |rank| == |nodes|
  {
    match nodes[n].next
    case Nil => true
    case Ptr(m) => m < |nodes| && rank[m] < rank[n]
  }

  ghost predicate Linked(nodes: seq<BPlusNode>, rank: seq<nat>) {
    && |rank| == |nodes|
    && forall n {:trigger nodes[n]} :: 0 <= n < |nodes| ==> LinkAt(nodes, rank, n)
  }

  /** Each child of the node appears once among its children. */
  ghost predicate DistinctChildren(x: BPlusNode) {
    forall j, j' :: 0 <= j < j' < |x.children| ==> x.children[j] != x.children[j']
  }

  // ---- frame lemmas: what stays well formed when one node changes or is added ----

  lemma ShapedUpdate(nodes: seq<BPlusNode>, level: seq<nat>, c: nat, x: BPlusNode)
    requires Shaped(nodes, level) && c < |nodes|
    requires ShapeAt(nodes[c := x], level, c)
    ensures Shaped(nodes[c := x], level)
  {
    var after := nodes[c := x];
    forall n | 0 <= n < |after| ensures ShapeAt(after, level, n) {
      if n != c {
        assert ShapeAt(nodes, level, n);
        assert after[n] == nodes[n];
      }
    }
  }

  lemma ShapedAppend(nodes: seq<BPlusNode>, level: seq<nat>, x: BPlusNode, l: nat)
    requires Shaped(nodes, level)
    requires ShapeAt(nodes + [x], level + [l], |nodes|)
    ensures Shaped(nodes + [x], level + [l])
  {
    var after, level' := nodes + [x], level + [l];
    forall n | 0 <= n < |after| ensures ShapeAt(after, level', n) {
      if n < |nodes| {
        assert ShapeAt(nodes, level, n);
        assert after[n] == nodes[n];
      }
    }
  }

  lemma LinkedUpdate(nodes: seq<BPlusNode>, rank: seq<nat>, c: nat, x: BPlusNode)
    requires Linked(nodes, rank) && c < |nodes|
    requires LinkAt(nodes[c := x], rank, c)
    ensures Linked(nodes[c := x], rank)
  {
    var after := nodes[c := x];
    forall n | 0 <= n < |after| ensures LinkAt(after, rank, n) {
      if n != c {
        assert LinkAt(nodes, rank, n);
      }
    }
  }

  lemma LinkedAppend(nodes: seq<BPlusNode>, rank: seq<nat>, x: BPlusNode, r: nat)
    requires Linked(nodes, rank)
    requires LinkAt(nodes + [x], rank + [r], |nodes|)
    ensures Linked(nodes + [x], rank + [r])
  {
    var after, rank' := nodes + [x], rank + [r];
    forall n | 0 <= n < |after| ensures LinkAt(after, rank', n) {
      if n < |nodes| {
        assert LinkAt(nodes, rank, n);
        assert after[n] == nodes[n];
      }
    }
  }

  /** Giving node `n` other keys keeps the arena well formed while an internal node keeps more children than keys. */
  lemma KeysUpdated(nodes: seq<BPlusNode>, level: seq<nat>, rank: seq<nat>, n: nat, keys: seq<string>)
    requires Shaped(nodes, level) && Linked(nodes, rank) && n < |nodes|
    requires !nodes[n].isLeaf ==> |keys| + 1 <= |nodes[n].children|
    ensures Shaped(nodes[n := nodes[n].(keys := keys)], level)
    ensures Linked(nodes[n := nodes[n].(keys := keys)], rank)
  {
    assert ShapeAt(nodes, level, n) && LinkAt(nodes, rank, n);
    ShapedUpdate(nodes, level, n, nodes[n].(keys := keys));
    LinkedUpdate(nodes, rank, n, nodes[n].(keys := keys));
  }

  /** Spreads the ranks apart so that a node can be spliced between any two. */
  function Reranked(rank: seq<nat>): (r: seq<nat>)
    ensures |r| == |rank|
    ensures forall i :: 0 <= i < |rank| ==> r[i] == 2 * rank[i] + 2
  {
    seq(|rank|, i requires 0 <= i < |rank| => 2 * rank[i] + 2)
  }

  lemma LinkedRerank(nodes: seq<BPlusNode>, rank: seq<nat>)
    requires Linked(nodes, rank)
    ensures Linked(nodes, Reranked(rank))
  {
    forall n | 0 <= n < |nodes| ensures LinkAt(nodes, Reranked(rank), n) {
      assert LinkAt(nodes, rank, n);
    }
  }

  // ---- the key scans of db/B+.go ----

  /**
    Where the scan `for i < len(keys) && key > keys[i] { i++ }` of Search and
    insertNonFull stops: the first position whose key is not smaller than `key`.
   */
  function FirstNotLess(keys: seq<string>, key: string): (i: nat)
    ensures i <= |keys|
    ensures forall j :: 0 <= j < i ==> Less(keys[j], key)
    ensures i < |keys| ==> !Less(keys[i], key)
  {
    if keys == [] || !Less(keys[0], key) then 0
    else 1 + FirstNotLess(keys[1..], key)
  }

  /** A node's keys match `key` where the scan stops, the test of Search. */
  predicate MatchAt(keys: seq<string>, key: string) {
    var i := FirstNotLess(keys, key);
    i < |keys| && keys[i] == key
  }

  /** On sorted keys, matching where the scan stops is membership. */
  lemma MatchAtSorted(keys: seq<string>, key: string)
    requires Sorted(keys)
    ensures MatchAt(keys, key) <==> key in keys
  {
    var i := FirstNotLess(keys, key);
    if key in keys {
      var j :| 0 <= j < |keys| && keys[j] == key;
      LessIrreflexive(key);
      assert i <= j;
      assert LessEq(keys[i], keys[j]);
    }
  }

  /**
    The result of findKeyIndex: it walks the keys, returns the position of an equal
    key, gives up at the first larger key and answers -1 when it finds none.
   */
  function KeyIndex(keys: seq<string>, key: string): (r: int)
    ensures -1 <= r < |keys|
    ensures r >= 0 ==> keys[r] == key && forall j :: 0 <= j < r ==> Less(keys[j], key)
    ensures r == -1 ==> !MatchAt(keys, key)
  {
    if MatchAt(keys, key) then FirstNotLess(keys, key) else -1
  }

  /** On sorted keys, findKeyIndex finds the first occurrence, and -1 exactly for an absent key. */
  lemma {:induction false} KeyIndexSorted(keys: seq<string>, key: string)
    requires Sorted(keys)
    ensures KeyIndex(keys, key) == -1 <==> key !in keys
    ensures KeyIndex(keys, key) >= 0 ==> key !in keys[..KeyIndex(keys, key)]
  {
    MatchAtSorted(keys, key);
    LessIrreflexive(key);
  }

  /** The keys left by deleting `key` from a leaf: the entry findKeyIndex finds, if any, is cut out. */
  function RemoveKey(keys: seq<string>, key: string): (r: seq<string>)
    ensures KeyIndex(keys, key) >= 0 ==> |r| == |keys| - 1 && multiset(r) == multiset(keys) - multiset{key}
    ensures KeyIndex(keys, key) >= 0 ==>
              r[..KeyIndex(keys, key)] == keys[..KeyIndex(keys, key)]
              && r[KeyIndex(keys, key)..] == keys[KeyIndex(keys, key) + 1..]
    ensures KeyIndex(keys, key) < 0 ==> r == keys
  {
    var i := KeyIndex(keys, key);
    if i < 0 then keys
    else
      MultisetRemoveAt(keys, i);
      keys[..i] + keys[i + 1..]
  }

  /** Cutting one entry out of a sorted sequence leaves it sorted. */
  lemma SortedRemoveAt(s: seq<string>, i: nat)
    requires Sorted(s) && i < |s|
    ensures Sorted(s[..i] + s[i + 1..])
  {
    var r := s[..i] + s[i + 1..];
    forall a, b | 0 <= a < b < |r| ensures LessEq(r[a], r[b]) {
      var a', b' := if a < i then a else a + 1, if b < i then b else b + 1;
      assert r[a] == s[a'] && r[b] == s[b'];
    }
  }

  /** Cutting entry `i` out of a sequence removes one copy of that entry. */
  lemma MultisetRemoveAt(s: seq<string>, i: nat)
    requires i < |s|
    ensures multiset(s[..i] + s[i + 1..]) == multiset(s) - multiset{s[i]}
  {
    assert s == s[..i] + [s[i]] + s[i + 1..];
  }

  /** Deleting from a sorted leaf removes exactly one copy of the key, or nothing, and keeps the leaf sorted. */
  lemma RemoveKeySorted(keys: seq<string>, key: string)
    requires Sorted(keys)
    ensures Sorted(RemoveKey(keys, key))
    ensures multiset(RemoveKey(keys, key)) == multiset(keys) - multiset{key}
  {
    KeyIndexSorted(keys, key);
    var i := KeyIndex(keys, key);
    if i >= 0 {
      SortedRemoveAt(keys, i);
      MultisetRemoveAt(keys, i);
    } else {
      MultisetMinusAbsent(keys, key);
    }
  }

  /** Taking away a value a sequence does not hold changes nothing. */
  lemma MultisetMinusAbsent(s: seq<string>, x: string)
    requires x !in s
    ensures multiset(s) - multiset{x} == multiset(s)
  {
    assert multiset(s)[x] == 0;
  }

  // ---- descents through the tree ----

  /**
    The nodes a descent for `key` visits from node `n`: at every internal node it goes
    to the child at the position where the scan stops, and it ends at a leaf.
   */
  ghost function DescentPath(nodes: seq<BPlusNode>, level: seq<nat>, n: nat, key: string): (p: seq<nat>)
    requires Shaped(nodes, level) && n < |nodes|
    ensures |p| >= 1 && p[0] == n
    ensures forall j :: 0 <= j < |p| ==> p[j] < |nodes|
    ensures nodes[p[|p| - 1]].isLeaf
    decreases level[n]
  {
    assert ShapeAt(nodes, level, n);
    if nodes[n].isLeaf then [n]
    else [n] + DescentPath(nodes, level, nodes[n].children[FirstNotLess(nodes[n].keys, key)], key)
  }

  /** The leaf reached from node `n` by always taking the last child. */
  ghost function RightmostLeaf(nodes: seq<BPlusNode>, level: seq<nat>, n: nat): (l: nat)
    requires Shaped(nodes, level) && n < |nodes|
    ensures l < |nodes| && nodes[l].isLeaf
    decreases level[n]
  {
    assert ShapeAt(nodes, level, n);
    if nodes[n].isLeaf then n
    else RightmostLeaf(nodes, level, nodes[n].children[|nodes[n].children| - 1])
  }

  /** The keys met when walking the forward chain from node `n`, node after node. */
  ghost function ChainKeys(nodes: seq<BPlusNode>, rank: seq<nat>, n: nat): seq<string>
    requires Linked(nodes, rank) && n < |nodes|
    decreases rank[n]
  {
    assert LinkAt(nodes, rank, n);
    nodes[n].keys + match nodes[n].next
                    case Nil => []
                    case Ptr(m) => ChainKeys(nodes, rank, m)
  }
}
