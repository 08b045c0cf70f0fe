/**
  The index tree of db/B+.go. The tree is a class over the node arena of BPlusArena;
  every operation of the source that rewrites node slices in place is a method that
  replaces entries of `nodes`, and a Go panic (an index or slice bound out of range) is
  reported through a `panicked` result, with `nodes` left exactly as it was at the
  panicking statement.
 */
module BPlus {
  import opened KeyOrder
  import opened BPlusArena

  /** Go's `d / 2` on an `int`: it truncates toward zero. */
  function Half(d: int): (h: int)
    ensures d >= 0 ==> 0 <= 2 * h <= d <= 2 * h + 1
    ensures d < 0 ==> 2 * h - 1 <= d <= 2 * h <= 0
  {
    if d >= 0 then d / 2 else -((-d) / 2)
  }

  // ---- split (db/B+.go:46-66) on node values ----

  /** The lower half a split child keeps, the key it sends up and the upper half that goes to a new node. */
  datatype Halves = Halves(lower: BPlusNode, middle: string, upper: BPlusNode)

  /**
    The halves split makes of a child with keys, when the new node will sit at position
    `nn`. The child keeps the keys before the middle one, the new node takes the keys
    after it, so the middle key belongs to neither half. A leaf links the new node in
    right after itself; an internal node hands over its children after the middle.
   */
  function SplitNode(x: BPlusNode, nn: nat): (h: Halves)
    requires x.keys != []
    requires !x.isLeaf ==> |x.children| >= |x.keys| + 1
    ensures h.lower.keys + [h.middle] + h.upper.keys == x.keys
    ensures |h.lower.keys| == |x.keys| / 2
    ensures h.lower.isLeaf == x.isLeaf && h.upper.isLeaf == x.isLeaf
    ensures x.isLeaf ==> h.lower.children == x.children && h.upper.children == []
    ensures x.isLeaf ==> h.lower.next == Ptr(nn) && h.upper.next == x.next
    ensures !x.isLeaf ==> h.lower.children + h.upper.children == x.children
    ensures !x.isLeaf ==> |h.lower.children| == |h.lower.keys| + 1
    ensures !x.isLeaf ==> h.lower.next == x.next && h.upper.next == Nil
  {
    var mid := |x.keys| / 2;
    assert x.keys == x.keys[..mid] + [x.keys[mid]] + x.keys[mid + 1..];
    if x.isLeaf then
      Halves(x.(keys := x.keys[..mid], next := Ptr(nn)), x.keys[mid],
             BPlusNode(true, x.keys[mid + 1..], [], x.next))
    else
      assert x.children == x.children[..mid + 1] + x.children[mid + 1..];
      Halves(x.(keys := x.keys[..mid], children := x.children[..mid + 1]), x.keys[mid],
             BPlusNode(false, x.keys[mid + 1..], x.children[mid + 1..], Nil))
  }

  /**
    The parent after a split of its child `index` that did not panic. The middle key
    OVERWRITES the parent's key at `index` (the parent keeps its number of keys), and
    the new node `nn` becomes child `index + 1`, so the parent gains one child.
   */
  function SplitParent(x: BPlusNode, index: nat, middle: string, nn: nat): (r: BPlusNode)
    requires index < |x.keys| && index < |x.children|
    ensures r.keys == x.keys[index := middle]
    ensures |r.children| == |x.children| + 1 && r.children[index + 1] == nn
    ensures forall j :: 0 <= j <= index ==> r.children[j] == x.children[j]
    ensures forall j :: index + 1 < j < |r.children| ==> r.children[j] == x.children[j - 1]
    ensures r.isLeaf == x.isLeaf && r.next == x.next
  {
    x.(keys := x.keys[..index] + [middle] + x.keys[index + 1..],
       children := x.children[..index + 1] + [nn] + x.children[index + 1..])
  }

  // ---- borrowFromPrev, borrowFromNext and merge (db/B+.go:214-268) on node values ----

  /** The parent, the child and its sibling after a rebalancing step, and whether it panicked. */
  datatype Step = Step(parent: BPlusNode, child: BPlusNode, sibling: BPlusNode, panicked: bool)

  /**
    borrowFromPrev: the separator `parent.keys[index - 1]` moves to the front of the
    child, the sibling's last key replaces it, and an internal child also takes the
    sibling's last child. A missing separator panics before any change; an empty
    sibling panics after the child has been given the separator.
   */
  function BorrowPrev(parent: BPlusNode, index: nat, child: BPlusNode, sibling: BPlusNode): (r: Step)
    requires index > 0
    ensures r.panicked <==> index - 1 >= |parent.keys| || sibling.keys == []
                            || (!child.isLeaf && sibling.children == [])
    ensures index - 1 >= |parent.keys| ==> r == Step(parent, child, sibling, true)
    ensures index - 1 < |parent.keys| && sibling.keys == [] ==>
              r == Step(parent, child.(keys := [parent.keys[index - 1]] + child.keys), sibling, true)
    ensures !r.panicked ==>
              && |r.child.keys| == |child.keys| + 1
              && |r.sibling.keys| == |sibling.keys| - 1
              && |r.parent.keys| == |parent.keys|
              && (forall j :: 0 <= j < |parent.keys| && j != index - 1 ==> r.parent.keys[j] == parent.keys[j])
    ensures !r.panicked ==>
              r.sibling.keys + [r.parent.keys[index - 1]] + r.child.keys
              == sibling.keys + [parent.keys[index - 1]] + child.keys
    ensures !r.panicked && child.isLeaf ==> r.child.children == child.children && r.sibling.children == sibling.children
    ensures !r.panicked && !child.isLeaf ==>
              && r.sibling.children + r.child.children == sibling.children + child.children
              && |r.child.children| == |child.children| + 1
    ensures r.parent.children == parent.children && r.parent.isLeaf == parent.isLeaf && r.parent.next == parent.next
    ensures r.child.isLeaf == child.isLeaf && r.child.next == child.next
    ensures r.sibling.isLeaf == sibling.isLeaf && r.sibling.next == sibling.next
  {
    if index - 1 >= |parent.keys| then Step(parent, child, sibling, true)
    else
      var separator := parent.keys[index - 1];
      var child1 := child.(keys := [separator] + child.keys);
      if sibling.keys == [] then Step(parent, child1, sibling, true)
      else
        var sk := |sibling.keys| - 1;
        var parent1 := parent.(keys := parent.keys[index - 1 := sibling.keys[sk]]);
        assert sibling.keys == sibling.keys[..sk] + [sibling.keys[sk]];
        if child.isLeaf then
          Step(parent1, child1, sibling.(keys := sibling.keys[..sk]), false)
        else if sibling.children == [] then Step(parent1, child1, sibling, true)
        else
          var sc := |sibling.children| - 1;
          assert sibling.children == sibling.children[..sc] + [sibling.children[sc]];
          Step(parent1, child1.(children := [sibling.children[sc]] + child.children),
               sibling.(keys := sibling.keys[..sk], children := sibling.children[..sc]), false)
  }

  /**
    borrowFromNext: the separator `parent.keys[index]` moves to the end of the child,
    the sibling's first key replaces it, and an internal child also takes the sibling's
    first child. A missing separator panics before any change; an empty sibling panics
    after the child has been given the separator.
   */
  function BorrowNext(parent: BPlusNode, index: nat, child: BPlusNode, sibling: BPlusNode): (r: Step)
    ensures r.panicked <==> index >= |parent.keys| || sibling.keys == []
                            || (!child.isLeaf && sibling.children == [])
    ensures index >= |parent.keys| ==> r == Step(parent, child, sibling, true)
    ensures index < |parent.keys| && sibling.keys == [] ==>
              r == Step(parent, child.(keys := child.keys + [parent.keys[index]]), sibling, true)
    ensures !r.panicked ==>
              && |r.child.keys| == |child.keys| + 1
              && |r.sibling.keys| == |sibling.keys| - 1
              && |r.parent.keys| == |parent.keys|
              && (forall j :: 0 <= j < |parent.keys| && j != index ==> r.parent.keys[j] == parent.keys[j])
    ensures !r.panicked ==>
              r.child.keys + [r.parent.keys[index]] + r.sibling.keys
              == child.keys + [parent.keys[index]] + sibling.keys
    ensures !r.panicked && child.isLeaf ==> r.child.children == child.children && r.sibling.children == sibling.children
    ensures !r.panicked && !child.isLeaf ==>
              && r.child.children + r.sibling.children == child.children + sibling.children
              && |r.child.children| == |child.children| + 1
    ensures r.parent.children == parent.children && r.parent.isLeaf == parent.isLeaf && r.parent.next == parent.next
    ensures r.child.isLeaf == child.isLeaf && r.child.next == child.next
    ensures r.sibling.isLeaf == sibling.isLeaf && r.sibling.next == sibling.next
  {
    if index >= |parent.keys| then Step(parent, child, sibling, true)
    else
      var separator := parent.keys[index];
      var child1 := child.(keys := child.keys + [separator]);
      if sibling.keys == [] then Step(parent, child1, sibling, true)
      else
        var parent1 := parent.(keys := parent.keys[index := sibling.keys[0]]);
        var rest := sibling.keys[1..];
        assert sibling.keys == [sibling.keys[0]] + rest;
        assert child1.keys + [sibling.keys[0]] + rest == child.keys + [separator] + sibling.keys;
        if child.isLeaf then
          Step(parent1, child1, sibling.(keys := rest), false)
        else if sibling.children == [] then Step(parent1, child1, sibling, true)
        else
          var others := sibling.children[1..];
          assert sibling.children == [sibling.children[0]] + others;
          Step(parent1, child1.(children := child.children + [sibling.children[0]]),
               sibling.(keys := rest, children := others), false)
  }

  /**
    merge: the left child takes the separator `parent.keys[index]` and all keys of the
    right child (and, when internal, its children); the parent loses that key and
    child `index + 1`. The right node itself is left as it was. No key is lost: the keys
    of the parent and the left child afterwards are those of the parent and both
    children before.
   */
  function MergeNodes(parent: BPlusNode, index: nat, left: BPlusNode, right: BPlusNode): (r: Step)
    requires index < |parent.keys| && index + 1 < |parent.children|
    ensures !r.panicked && r.sibling == right
    ensures r.child.keys == left.keys + [parent.keys[index]] + right.keys
    ensures left.isLeaf ==> r.child.children == left.children
    ensures !left.isLeaf ==> r.child.children == left.children + right.children
    ensures r.child.isLeaf == left.isLeaf && r.child.next == left.next
    ensures |r.parent.keys| == |parent.keys| - 1
    ensures r.parent.keys[..index] == parent.keys[..index] && r.parent.keys[index..] == parent.keys[index + 1..]
    ensures |r.parent.children| == |parent.children| - 1
    ensures r.parent.children[..index + 1] == parent.children[..index + 1]
    ensures r.parent.children[index + 1..] == parent.children[index + 2..]
    ensures r.parent.isLeaf == parent.isLeaf && r.parent.next == parent.next
    ensures multiset(r.parent.keys) + multiset(r.child.keys)
            == multiset(parent.keys) + multiset(left.keys) + multiset(right.keys)
  {
    var keys := left.keys + [parent.keys[index]] + right.keys;
    var children := if left.isLeaf then left.children else left.children + right.children;
    assert parent.keys == parent.keys[..index] + [parent.keys[index]] + parent.keys[index + 1..];
    Step(parent.(keys := parent.keys[..index] + parent.keys[index + 1..],
                 children := parent.children[..index + 1] + parent.children[index + 2..]),
         left.(keys := keys, children := children), right, false)
  }

  /** The arena after borrowFromPrev(node p, index). */
  ghost predicate BorrowedFromPrev(before: seq<BPlusNode>, after: seq<BPlusNode>, p: nat, index: nat, panicked: bool)
    requires p < |before| && 0 < index < |before[p].children|
  {
    var x := before[p];
    var c, s := x.children[index], x.children[index - 1];
    && c < |before| && s < |before|
    && var r := BorrowPrev(x, index, before[c], before[s]);
       after == before[c := r.child][s := r.sibling][p := r.parent] && panicked == r.panicked
  }

  /** The arena after borrowFromNext(node p, index). */
  ghost predicate BorrowedFromNext(before: seq<BPlusNode>, after: seq<BPlusNode>, p: nat, index: nat, panicked: bool)
    requires p < |before| && index + 1 < |before[p].children|
  {
    var x := before[p];
    var c, s := x.children[index], x.children[index + 1];
    && c < |before| && s < |before|
    && var r := BorrowNext(x, index, before[c], before[s]);
       after == before[c := r.child][s := r.sibling][p := r.parent] && panicked == r.panicked
  }

  /** The arena after merge(node p, index), which panics on an index without a right neighbour or a separator. */
  ghost predicate Merged(before: seq<BPlusNode>, after: seq<BPlusNode>, p: nat, index: int, panicked: bool)
    requires p < |before|
  {
    var x := before[p];
    if index < 0 || index + 1 >= |x.children| || index >= |x.keys| then panicked && after == before
    else
      var l, rt := x.children[index], x.children[index + 1];
      && l < |before| && rt < |before|
      && var r := MergeNodes(x, index, before[l], before[rt]);
         !panicked && after == before[l := r.child][p := r.parent]
  }

  /** findKeyIndex: the loop over the keys, proved to compute KeyIndex. */
  method FindKeyIndex(keys: seq<string>, key: string) returns (index: int)
    ensures index == KeyIndex(keys, key)
    ensures Sorted(keys) ==> (index == -1 <==> key !in keys)
    ensures Sorted(keys) && index >= 0 ==> keys[index] == key && key !in keys[..index]
  {
    index := -1;
    var i := 0;
    while i < |keys|
      invariant 0 <= i <= |keys|
      invariant forall j :: 0 <= j < i ==> Less(keys[j], key)
    {
      if key == keys[i] {
        LessIrreflexive(key);
        index := i;
        break;
      }
      if Less(key, keys[i]) {
        LessAsymmetric(key, keys[i]);
        break;
      }
      LessTotal(key, keys[i]);
      i := i + 1;
    }
    if Sorted(keys) {
      KeyIndexSorted(keys, key);
    }
  }

  /**
    The scan `for i < len(keys) && key > keys[i] { i++ }` that Search and insertNonFull
    share: it stops at the first key not smaller than `key`.
   */
  method SkipSmaller(keys: seq<string>, key: string) returns (i: nat)
    ensures i == FirstNotLess(keys, key)
    ensures Sorted(keys) ==> forall j :: i <= j < |keys| ==> LessEq(key, keys[j])
  {
    i := 0;
    while i < |keys| && Less(keys[i], key)
      invariant 0 <= i <= |keys|
      invariant forall j :: 0 <= j < i ==> Less(keys[j], key)
    {
      i := i + 1;
    }
    if i < |keys| {
      NotLessIsGreaterEq(keys[i], key);
      forall j | i <= j < |keys| && Sorted(keys) ensures LessEq(key, keys[j]) {
        LessEqTransitive(key, keys[i], keys[j]);
      }
    }
  }

  /** On a path whose nodes are sorted, a match where the scan stops is membership. */
  lemma MatchOnSortedPath(nodes: seq<BPlusNode>, p: seq<nat>, key: string)
    requires forall j :: 0 <= j < |p| ==> p[j] < |nodes|
    ensures (forall j :: 0 <= j < |p| ==> Sorted(nodes[p[j]].keys)) ==>
              ((exists j :: 0 <= j < |p| && MatchAt(nodes[p[j]].keys, key))
               <==> (exists j :: 0 <= j < |p| && key in nodes[p[j]].keys))
  {
    if forall j :: 0 <= j < |p| ==> Sorted(nodes[p[j]].keys) {
      forall j | 0 <= j < |p| ensures MatchAt(nodes[p[j]].keys, key) <==> key in nodes[p[j]].keys {
        MatchAtSorted(nodes[p[j]].keys, key);
      }
    }
  }

  /** The levels of the nodes already in the arena are kept; new nodes may follow. */
  ghost predicate LevelsKept(before: seq<nat>, after: seq<nat>) {
    |before| <= |after| && forall m :: 0 <= m < |before| ==> after[m] == before[m]
  }

  lemma LevelsKeptTransitive(a: seq<nat>, b: seq<nat>, c: seq<nat>)
    requires LevelsKept(a, b) && LevelsKept(b, c)
    ensures LevelsKept(a, c)
  {
  }

  /** The leaf a descent for `key` from node `n` ends at. */
  ghost function DescentLeaf(nodes: seq<BPlusNode>, level: seq<nat>, n: nat, key: string): (l: nat)
    requires Shaped(nodes, level) && n < |nodes|
    ensures l < |nodes| && nodes[l].isLeaf
    decreases level[n]
  {
    assert ShapeAt(nodes, level, n);
    if nodes[n].isLeaf then n
    else DescentLeaf(nodes, level, nodes[n].children[FirstNotLess(nodes[n].keys, key)], key)
  }

  /** No child the descent for `key` from node `n` moves to holds `degree` keys, so insertNonFull splits nothing. */
  ghost predicate NoFullChild(nodes: seq<BPlusNode>, level: seq<nat>, n: nat, key: string, degree: int)
    requires Shaped(nodes, level) && n < |nodes|
    decreases level[n]
  {
    assert ShapeAt(nodes, level, n);
    nodes[n].isLeaf
    || var c := nodes[n].children[FirstNotLess(nodes[n].keys, key)];
       |nodes[c].keys| != degree && NoFullChild(nodes, level, c, key, degree)
  }

  /** DescentLeaf is the last node of the descent path. */
  lemma {:induction false} DescentLeafEndsPath(nodes: seq<BPlusNode>, level: seq<nat>, n: nat, key: string)
    requires Shaped(nodes, level) && n < |nodes|
    ensures var path := DescentPath(nodes, level, n, key);
            DescentLeaf(nodes, level, n, key) == path[|path| - 1]
    decreases level[n]
  {
    if !nodes[n].isLeaf {
      DescentStep(nodes, level, n, key);
      DescentLeafEndsPath(nodes, level, nodes[n].children[FirstNotLess(nodes[n].keys, key)], key);
    }
  }

  /** NoFullChild says that no node after the first on the descent path holds `degree` keys. */
  lemma {:induction false} NoFullChildOnPath(nodes: seq<BPlusNode>, level: seq<nat>, n: nat, key: string, degree: int)
    requires Shaped(nodes, level) && n < |nodes|
    ensures var path := DescentPath(nodes, level, n, key);
            NoFullChild(nodes, level, n, key, degree) <==> forall j :: 1 <= j < |path| ==> |nodes[path[j]].keys| != degree
    decreases level[n]
  {
    if !nodes[n].isLeaf {
      DescentStep(nodes, level, n, key);
      var c := nodes[n].children[FirstNotLess(nodes[n].keys, key)];
      NoFullChildOnPath(nodes, level, c, key, degree);
      FullOnCons(nodes, n, DescentPath(nodes, level, c, key), degree);
    }
  }

  /** No node after the head of `[n] + tail` is full exactly when the head of `tail` and the nodes after it are not. */
  lemma FullOnCons(nodes: seq<BPlusNode>, n: nat, tail: seq<nat>, degree: int)
    requires n < |nodes| && tail != [] && forall j :: 0 <= j < |tail| ==> tail[j] < |nodes|
    ensures var path := [n] + tail;
            (forall j :: 1 <= j < |path| ==> |nodes[path[j]].keys| != degree)
            <==> |nodes[tail[0]].keys| != degree && forall j :: 1 <= j < |tail| ==> |nodes[tail[j]].keys| != degree
  {
    var path := [n] + tail;
    if |nodes[tail[0]].keys| != degree && forall j :: 1 <= j < |tail| ==> |nodes[tail[j]].keys| != degree {
      forall j | 1 <= j < |path| ensures |nodes[path[j]].keys| != degree {
        assert path[j] == tail[j - 1];
      }
    }
    if forall j :: 1 <= j < |path| ==> |nodes[path[j]].keys| != degree {
      assert path[1] == tail[0];
      forall j | 1 <= j < |tail| ensures |nodes[tail[j]].keys| != degree {
        assert path[j + 1] == tail[j];
      }
    }
  }

  /** One step of the descent: an internal node's path continues at the child the scan picks. */
  lemma DescentStep(nodes: seq<BPlusNode>, level: seq<nat>, n: nat, key: string)
    requires Shaped(nodes, level) && n < |nodes| && !nodes[n].isLeaf
    ensures var c := nodes[n].children[FirstNotLess(nodes[n].keys, key)];
            && c < |nodes| && level[c] < level[n]
            && DescentPath(nodes, level, n, key) == [n] + DescentPath(nodes, level, c, key)
  {
    assert ShapeAt(nodes, level, n);
  }

  /** Whether the descent from `n` meets a node whose key at the scan position is `key`. */
  ghost predicate MatchBelow(nodes: seq<BPlusNode>, level: seq<nat>, n: nat, key: string)
    requires Shaped(nodes, level) && n < |nodes|
    decreases level[n]
  {
    assert ShapeAt(nodes, level, n);
    MatchAt(nodes[n].keys, key)
    || (!nodes[n].isLeaf && MatchBelow(nodes, level, nodes[n].children[FirstNotLess(nodes[n].keys, key)], key))
  }

  /** A match on a path headed by `n` is a match at `n` or on the rest. */
  lemma MatchOnCons(nodes: seq<BPlusNode>, n: nat, tail: seq<nat>, key: string)
    requires n < |nodes| && forall j :: 0 <= j < |tail| ==> tail[j] < |nodes|
    ensures var path := [n] + tail;
            (exists j :: 0 <= j < |path| && MatchAt(nodes[path[j]].keys, key))
            <==> MatchAt(nodes[n].keys, key) || exists j :: 0 <= j < |tail| && MatchAt(nodes[tail[j]].keys, key)
  {
    var path := [n] + tail;
    if exists j :: 0 <= j < |path| && MatchAt(nodes[path[j]].keys, key) {
      var j :| 0 <= j < |path| && MatchAt(nodes[path[j]].keys, key);
      if j > 0 {
        assert tail[j - 1] == path[j];
      }
    }
    if exists j :: 0 <= j < |tail| && MatchAt(nodes[tail[j]].keys, key) {
      var j :| 0 <= j < |tail| && MatchAt(nodes[tail[j]].keys, key);
      assert path[j + 1] == tail[j];
    }
    assert path[0] == n;
  }

  /** MatchBelow is a match somewhere on the descent path. */
  lemma {:induction false} MatchBelowOnPath(nodes: seq<BPlusNode>, level: seq<nat>, n: nat, key: string)
    requires Shaped(nodes, level) && n < |nodes|
    ensures var path := DescentPath(nodes, level, n, key);
            MatchBelow(nodes, level, n, key) <==> exists j :: 0 <= j < |path| && MatchAt(nodes[path[j]].keys, key)
    decreases level[n]
  {
    if nodes[n].isLeaf {
      assert DescentPath(nodes, level, n, key) == [n] + [];
      MatchOnCons(nodes, n, [], key);
    } else {
      DescentStep(nodes, level, n, key);
      var c := nodes[n].children[FirstNotLess(nodes[n].keys, key)];
      MatchBelowOnPath(nodes, level, c, key);
      MatchOnCons(nodes, n, DescentPath(nodes, level, c, key), key);
    }
  }

  /**
    The loop of Search on the arena: from node `n` it follows the scan position down,
    answering true at the first node whose key there equals `key` and false at a leaf.
   */
  method Descend(nodes: seq<BPlusNode>, ghost level: seq<nat>, n: nat, key: string) returns (found: bool)
    requires Shaped(nodes, level) && n < |nodes|
    ensures found == MatchBelow(nodes, level, n, key)
  {
    var node: nat := n;
    while true
      invariant node < |nodes|
      invariant MatchBelow(nodes, level, node, key) == MatchBelow(nodes, level, n, key)
      decreases level[node]
    {
      var x := nodes[node];
      var i := SkipSmaller(x.keys, key);
      if i < |x.keys| && key == x.keys[i] {
        return true;
      }
      if x.isLeaf {
        return false;
      }
      DescentStep(nodes, level, node, key);
      node := x.children[i];
    }
  }

  /**
    After node `n` has been rewritten and a delete has run below it at child `c`, the
    nodes at `n`'s level or above other than `n` are as they were, and `n` is as rewritten.
   */
  lemma DeletedBelow(before: seq<BPlusNode>, mid: seq<BPlusNode>, after: seq<BPlusNode>, level: seq<nat>, n: nat, c: nat)
    requires n < |before| && c < |before| && |mid| == |before| && |after| == |before| && |level| == |before|
    requires forall m :: 0 <= m < |before| && m != n ==> mid[m] == before[m]
    requires level[c] < level[n]
    requires forall m :: 0 <= m < |after| && m != c && level[m] >= level[c] ==> after[m] == mid[m]
    ensures after[n] == mid[n]
    ensures forall m :: 0 <= m < |after| && m != n && level[m] >= level[n] ==> after[m] == before[m]
  {
  }

  /**
    What delete(node n, key) leaves behind, by the case of the source that applies:
    a leaf loses the occurrence findKeyIndex finds; an internal node without the key
    panics at once; an internal node whose child at the key has no keys loses the key;
    otherwise the key is overwritten by the predecessor, the last key of the rightmost
    leaf below that child (reading it panics when that leaf is empty), and then the
    predecessor is deleted from that child in the same way.
   */
  ghost predicate Deleted(before: seq<BPlusNode>, after: seq<BPlusNode>, level: seq<nat>, n: nat, key: string, panicked: bool)
    requires Shaped(before, level) && n < |before|
    decreases level[n], 1
  {
    assert ShapeAt(before, level, n);
    var x := before[n];
    var i := KeyIndex(x.keys, key);
    if x.isLeaf then
      !panicked && after == before[n := x.(keys := RemoveKey(x.keys, key))]
    else if i < 0 then
      panicked && after == before
    else if before[x.children[i]].keys == [] then
      !panicked && after == before[n := x.(keys := RemoveKey(x.keys, key))]
    else
      var lk := before[RightmostLeaf(before, level, x.children[i])].keys;
      if lk == [] then panicked && after == before
      else DeletedViaPred(before, after, level, n, i, lk[|lk| - 1], panicked)
  }

  /**
    The last case of Deleted: key `i` of the internal node `n` is overwritten by `pred`,
    and `pred` is then deleted from child `i` of the rewritten arena.
   */
  ghost predicate DeletedViaPred(before: seq<BPlusNode>, after: seq<BPlusNode>, level: seq<nat>, n: nat, i: nat,
                                 pred: string, panicked: bool)
    requires Shaped(before, level) && n < |before| && !before[n].isLeaf && i < |before[n].keys|
    decreases level[n], 0
  {
    assert ShapeAt(before, level, n);
    var x := before[n];
    var mid := before[n := x.(keys := x.keys[i := pred])];
    ShapedUpdate(before, level, n, x.(keys := x.keys[i := pred]));
    && n < |after| && after[n] == mid[n]
    && Deleted(mid, after, level, x.children[i], pred, panicked)
  }

  /** The cases of Deleted, one lemma each. */
  lemma DeletedLeaf(before: seq<BPlusNode>, level: seq<nat>, n: nat, key: string)
    requires Shaped(before, level) && n < |before| && before[n].isLeaf
    ensures Deleted(before, before[n := before[n].(keys := RemoveKey(before[n].keys, key))], level, n, key, false)
  {
  }

  lemma DeletedAbsent(before: seq<BPlusNode>, level: seq<nat>, n: nat, key: string)
    requires Shaped(before, level) && n < |before| && !before[n].isLeaf && KeyIndex(before[n].keys, key) < 0
    ensures Deleted(before, before, level, n, key, true)
  {
  }

  lemma DeletedEmptyChild(before: seq<BPlusNode>, level: seq<nat>, n: nat, key: string)
    requires Shaped(before, level) && n < |before| && !before[n].isLeaf
    requires var i := KeyIndex(before[n].keys, key);
             i >= 0 && i < |before[n].children| && before[before[n].children[i]].keys == []
    ensures Deleted(before, before[n := before[n].(keys := RemoveKey(before[n].keys, key))], level, n, key, false)
  {
  }

  lemma DeletedNoPred(before: seq<BPlusNode>, level: seq<nat>, n: nat, key: string)
    requires Shaped(before, level) && n < |before| && !before[n].isLeaf
    requires var x := before[n]; var i := KeyIndex(x.keys, key);
             && i >= 0 && i < |x.children| && before[x.children[i]].keys != []
             && before[RightmostLeaf(before, level, x.children[i])].keys == []
    ensures Deleted(before, before, level, n, key, true)
  {
  }

  lemma DeletedByPred(before: seq<BPlusNode>, after: seq<BPlusNode>, level: seq<nat>, n: nat,
                      key: string, panicked: bool, index: nat, pred: string)
    requires Shaped(before, level) && n < |before| && !before[n].isLeaf
    requires index == KeyIndex(before[n].keys, key)
    requires before[before[n].children[index]].keys != []
    requires var lk := before[RightmostLeaf(before, level, before[n].children[index])].keys;
             lk != [] && pred == lk[|lk| - 1]
    requires DeletedViaPred(before, after, level, n, index, pred, panicked)
    ensures Deleted(before, after, level, n, key, panicked)
  {
  }

  /** The two cases of Deleted that the tree's Delete reports on its own: a leaf and an internal node without the key. */
  lemma DeletedAt(before: seq<BPlusNode>, after: seq<BPlusNode>, level: seq<nat>, n: nat, key: string, panicked: bool)
    requires Shaped(before, level) && n < |before| && Deleted(before, after, level, n, key, panicked)
    ensures before[n].isLeaf ==> !panicked && after == before[n := before[n].(keys := RemoveKey(before[n].keys, key))]
    ensures !before[n].isLeaf && KeyIndex(before[n].keys, key) < 0 ==> panicked && after == before
  {
  }

  /**
    getPred(node n, index): walks from child `index` down the last children to a leaf
    and returns that leaf's last key; an empty leaf there is an out-of-range panic.
   */
  method GetPred(nodes: seq<BPlusNode>, ghost level: seq<nat>, n: nat, index: nat) returns (pred: string, panicked: bool)
    requires Shaped(nodes, level) && n < |nodes| && index < |nodes[n].children|
    ensures var leaf := RightmostLeaf(nodes, level, nodes[n].children[index]);
            && panicked == (nodes[leaf].keys == [])
            && (!panicked ==> pred == nodes[leaf].keys[|nodes[leaf].keys| - 1])
    ensures var leaf := RightmostLeaf(nodes, level, nodes[n].children[index]);
            !panicked && Sorted(nodes[leaf].keys) ==>
              forall j :: 0 <= j < |nodes[leaf].keys| ==> LessEq(nodes[leaf].keys[j], pred)
  {
    assert ShapeAt(nodes, level, n);
    var current: nat := nodes[n].children[index];
    ghost var leaf := RightmostLeaf(nodes, level, current);
    while !nodes[current].isLeaf
      invariant current < |nodes| && RightmostLeaf(nodes, level, current) == leaf
      decreases level[current]
    {
      assert ShapeAt(nodes, level, current);
      current := nodes[current].children[|nodes[current].children| - 1];
    }
    if nodes[current].keys == [] {
      // current.keys[len(current.keys)-1] is out of range
      return "", true;
    }
    pred := nodes[current].keys[|nodes[current].keys| - 1];
    panicked := false;
  }

  /**
    delete(node n, key), on the arena `nodes`, giving the arena it leaves behind. A
    leaf drops the occurrence findKeyIndex finds. An internal node that does not hold
    the key panics (findKeyIndex gives -1 and `node.keys[-1]` is read). An internal
    node that holds it replaces it by the predecessor and deletes that from the child,
    or, when the child has no keys, removes the key without touching its children.
   */
  method DeleteFrom(nodes: seq<BPlusNode>, ghost level: seq<nat>, ghost rank: seq<nat>, n: nat, key: string)
    returns (after: seq<BPlusNode>, panicked: bool)
    requires Shaped(nodes, level) && Linked(nodes, rank) && n < |nodes|
    ensures Shaped(after, level) && Linked(after, rank) && |after| == |nodes|
    ensures forall m :: 0 <= m < |after| && m != n && level[m] >= level[n] ==> after[m] == nodes[m]
    ensures Deleted(nodes, after, level, n, key, panicked)
    decreases level[n], 1
  {
    assert ShapeAt(nodes, level, n);
    var x := nodes[n];
    var index := FindKeyIndex(x.keys, key);
    if x.isLeaf {
      after := nodes;
      if index != -1 {
        after := CutKey(nodes, level, rank, n, key, index);
      } else {
        assert nodes == nodes[n := x.(keys := RemoveKey(x.keys, key))];
      }
      DeletedLeaf(nodes, level, n, key);
      return after, false;
    }
    if index < 0 {
      // `key == node.keys[index]` reads position -1
      DeletedAbsent(nodes, level, n, key);
      return nodes, true;
    }
    if |nodes[x.children[index]].keys| > 0 {
      after, panicked := DeleteByPred(nodes, level, rank, n, key, index);
    } else {
      after := CutKey(nodes, level, rank, n, key, index);
      DeletedEmptyChild(nodes, level, n, key);
      panicked := false;
    }
  }

  /**
    `node.keys = append(node.keys[:index], node.keys[index+1:]...)`, run by delete at a
    leaf and at an internal node whose child has no keys, with `index` from findKeyIndex.
   */
  method CutKey(nodes: seq<BPlusNode>, ghost level: seq<nat>, ghost rank: seq<nat>, n: nat, key: string, index: nat)
    returns (after: seq<BPlusNode>)
    requires Shaped(nodes, level) && Linked(nodes, rank) && n < |nodes| && index == KeyIndex(nodes[n].keys, key)
    ensures Shaped(after, level) && Linked(after, rank)
    ensures after == nodes[n := nodes[n].(keys := RemoveKey(nodes[n].keys, key))]
  {
    assert ShapeAt(nodes, level, n);
    var x := nodes[n];
    KeysUpdated(nodes, level, rank, n, x.keys[..index] + x.keys[index + 1..]);
    after := nodes[n := x.(keys := x.keys[..index] + x.keys[index + 1..])];
  }

  /**
    The branch of delete(node n, key) where the internal node holds the key at `index`
    and that child has keys: getPred, the overwrite of the key, and the delete of the
    predecessor from the child.
   */
  method DeleteByPred(nodes: seq<BPlusNode>, ghost level: seq<nat>, ghost rank: seq<nat>, n: nat, key: string, index: nat)
    returns (after: seq<BPlusNode>, panicked: bool)
    requires Shaped(nodes, level) && Linked(nodes, rank) && n < |nodes| && !nodes[n].isLeaf
    requires index == KeyIndex(nodes[n].keys, key) && index < |nodes[n].children|
    requires nodes[nodes[n].children[index]].keys != []
    ensures Shaped(after, level) && Linked(after, rank) && |after| == |nodes|
    ensures forall m :: 0 <= m < |after| && m != n && level[m] >= level[n] ==> after[m] == nodes[m]
    ensures Deleted(nodes, after, level, n, key, panicked)
    decreases level[n], 0
  {
    var x := nodes[n];
    var pred;
    pred, panicked := GetPred(nodes, level, n, index);
    if panicked {
      DeletedNoPred(nodes, level, n, key);
      return nodes, true;
    }
    KeysUpdated(nodes, level, rank, n, x.keys[index := pred]);
    var mid := nodes[n := x.(keys := x.keys[index := pred])];
    assert ShapeAt(nodes, level, n);
    after, panicked := DeleteFrom(mid, level, rank, x.children[index], pred);
    DeletedBelow(nodes, mid, after, level, n, x.children[index]);
    DeletedByPred(nodes, after, level, n, key, panicked, index, pred);
  }

  /**
    The body of the tree's Delete on the arena: delete from root `r`, then step down
    to child 0 when a normal return leaves an internal root without keys.
   */
  method DeleteAtRoot(nodes: seq<BPlusNode>, ghost level: seq<nat>, ghost rank: seq<nat>, r: nat, key: string)
    returns (after: seq<BPlusNode>, root: nat, panicked: bool)
    requires Shaped(nodes, level) && Linked(nodes, rank) && r < |nodes|
    ensures Shaped(after, level) && Linked(after, rank) && root < |after|
    ensures Deleted(nodes, after, level, r, key, panicked)
    ensures nodes[r].isLeaf ==>
              !panicked && root == r && after == nodes[r := nodes[r].(keys := RemoveKey(nodes[r].keys, key))]
    ensures !nodes[r].isLeaf && KeyIndex(nodes[r].keys, key) < 0 ==> panicked && root == r && after == nodes
    ensures panicked ==> root == r
    ensures !panicked ==> root == if !after[r].isLeaf && after[r].keys == [] then after[r].children[0] else r
  {
    after, panicked := DeleteFrom(nodes, level, rank, r, key);
    DeletedAt(nodes, after, level, r, key, panicked);
    assert ShapeAt(after, level, r);
    root := r;
    if !panicked && after[r].keys == [] && !after[r].isLeaf {
      root := after[r].children[0];
    }
  }

  class BPlusTree {
    var nodes: seq<BPlusNode>
    var root: nat
    const degree: int
    ghost var level: seq<nat>
    ghost var rank: seq<nat>

    ghost predicate Valid()
      reads this
    {
      root < |nodes| && Shaped(nodes, level) && Linked(nodes, rank)
    }

    /** The keys of the root node. */
    function RootKeys(): seq<string>
      reads this
      requires root < |nodes|
    {
      nodes[root].keys
    }

    /** NewBPlusTree: a single empty leaf as the root. */
    constructor (degree: int)
      ensures Valid() && this.degree == degree
      ensures nodes == [BPlusNode(true, [], [], Nil)] && root == 0
    {
      this.degree := degree;
      nodes := [BPlusNode(true, [], [], Nil)];
      root := 0;
      level := [0];
      rank := [0];
    }

    /**
      split(node p, index): splits child `index` of the internal node `p`. An empty child
      panics at once (it has no middle key); an `index` of at least `len(p.keys)` makes
      `p.keys[index+1:]` out of range, a panic when the parent's keys are rebuilt,
      after the child has been cut and the new node created.
     */
    method Split(p: nat, index: nat) returns (panicked: bool)
      requires Valid() && p < |nodes| && !nodes[p].isLeaf && index < |nodes[p].children|
      modifies this
      ensures Valid() && root == old(root)
      ensures LevelsKept(old(level), level)
      ensures var c := old(nodes[p].children[index]);
              old(nodes[c].keys) == [] ==> panicked && nodes == old(nodes) && level == old(level)
      ensures !panicked ==> index < |nodes[p].keys| && index + 1 < |nodes[p].children|
      ensures var c := old(nodes[p].children[index]);
              old(nodes[c].keys) != [] ==>
                var h := SplitNode(old(nodes[c]), old(|nodes|));
                && panicked == (index >= old(|nodes[p].keys|))
                && (panicked ==> nodes == old(nodes)[c := h.lower] + [h.upper])
                && (!panicked ==>
                      nodes == old(nodes)[c := h.lower][p := SplitParent(old(nodes[p]), index, h.middle, old(|nodes|))]
                               + [h.upper])
    {
      var c := nodes[p].children[index];
      var x := nodes[c];
      if x.keys == [] {
        // midKey := child.keys[0] is out of range
        return true;
      }
      var nn := |nodes|;
      var h := SplitNode(x, nn);
      SplitChildValid(nodes, level, rank, c);
      ghost var level0 := level;
      nodes := nodes[c := h.lower] + [h.upper];
      level := level + [level[c]];
      rank := Reranked(rank) + [2 * rank[c] + 1];
      if index >= |nodes[p].keys| {
        // node.keys[index+1:] is out of range
        return true;
      }
      SplitParentValid(nodes, level, rank, p, index, h.middle, nn);
      ghost var nodes1 := nodes;
      nodes := nodes[p := SplitParent(nodes[p], index, h.middle, nn)];
      assert nodes == nodes1[..nn][p := SplitParent(nodes1[p], index, h.middle, nn)] + [h.upper];
      return false;
    }

    /**
      insertNonFull(node n, key): a leaf takes the key by append and sort, so it stays
      sorted and keeps duplicates. An internal node scans to the first key not smaller
      than `key`, splits that child first when it holds `degree` keys, and descends.
     */
    method InsertNonFull(n: nat, key: string) returns (panicked: bool)
      requires Valid() && n < |nodes|
      modifies this
      ensures Valid() && root == old(root)
      ensures LevelsKept(old(level), level)
      ensures old(nodes[n].isLeaf) ==>
                && !panicked
                && nodes == old(nodes)[n := old(nodes[n]).(keys := Sort(old(nodes[n].keys) + [key]))]
                && Sorted(nodes[n].keys)
                && multiset(nodes[n].keys) == multiset(old(nodes[n].keys)) + multiset{key}
      ensures !panicked ==> exists l :: 0 <= l < |nodes| && nodes[l].isLeaf && key in nodes[l].keys
      ensures NoFullChild(old(nodes), old(level), n, key, degree) ==>
                var leaf := DescentLeaf(old(nodes), old(level), n, key);
                && !panicked && level == old(level)
                && nodes == old(nodes)[leaf := old(nodes)[leaf].(keys := Sort(old(nodes)[leaf].keys + [key]))]
      decreases level[n]
    {
      if nodes[n].isLeaf {
        var keys := Sort(nodes[n].keys + [key]);
        KeysUpdated(nodes, level, rank, n, keys);
        nodes := nodes[n := nodes[n].(keys := keys)];
        assert key in multiset(keys);
        return false;
      }
      assert ShapeAt(nodes, level, n);
      var i := SkipSmaller(nodes[n].keys, key);
      ghost var level0 := level;
      if |nodes[nodes[n].children[i]].keys| == degree {
        panicked := Split(n, i);
        if panicked {
          return;
        }
        if Less(nodes[n].keys[i], key) {
          i := i + 1;
        }
      }
      assert level[n] == level0[n];
      assert ShapeAt(nodes, level, n);
      ghost var level1 := level;
      panicked := InsertNonFull(nodes[n].children[i], key);
      LevelsKeptTransitive(level0, level1, level);
    }

    /**
      Insert: a root holding `degree` keys is split below a new keyless root first. That
      split always panics, because the new root has no key position 0 to overwrite, so
      the new root is never installed and the key is not inserted; what remains is the
      old root cut to its lower half with the upper half linked in after it.
     */
    method Insert(key: string) returns (panicked: bool)
      requires Valid()
      modifies this
      ensures Valid() && root == old(root) && nodes[root].isLeaf == old(nodes[root].isLeaf)
      ensures old(|nodes[root].keys|) == degree ==> panicked
      ensures old(|nodes[root].keys|) == degree && old(nodes[root].keys) == [] ==>
                nodes == old(nodes) + [BPlusNode(false, [], [root], Nil)]
      ensures old(|nodes[root].keys|) == degree && old(nodes[root].keys) != [] ==>
                var h := SplitNode(old(nodes[root]), old(|nodes|) + 1);
                nodes == old(nodes)[root := h.lower] + [BPlusNode(false, [], [root], Nil), h.upper]
      ensures old(|nodes[root].keys|) != degree && old(nodes[root].isLeaf) ==>
                && !panicked
                && nodes == old(nodes)[root := old(nodes[root]).(keys := Sort(old(nodes[root].keys) + [key]))]
      ensures !panicked ==> exists l :: 0 <= l < |nodes| && nodes[l].isLeaf && key in nodes[l].keys
    {
      if |nodes[root].keys| == degree {
        var nr := |nodes|;
        var newRoot := BPlusNode(false, [], [root], Nil);
        assert ShapeAt(nodes, level, root);
        ShapedAppend(nodes, level, newRoot, level[root] + 1);
        LinkedAppend(nodes, rank, newRoot, 0);
        ghost var nodes0 := nodes;
        nodes := nodes + [newRoot];
        level := level + [level[root] + 1];
        rank := rank + [0];
        ghost var nodes1 := nodes;
        panicked := Split(nr, 0);
        // the split panics whatever the root holds, so `tree.root = newRoot` and the
        // insertion that follows it are never reached
        assert panicked;
        if nodes0[root].keys != [] {
          var h := SplitNode(nodes0[root], nr + 1);
          assert nodes == nodes1[root := h.lower] + [h.upper];
          assert nodes1[root := h.lower] == nodes0[root := h.lower] + [newRoot];
          assert h.lower.keys == nodes0[root].keys[..|nodes0[root].keys| / 2] by {
            assert (h.lower.keys + [h.middle] + h.upper.keys)[..|h.lower.keys|] == h.lower.keys;
          }
        }
        return;
      }
      ghost var level0 := level;
      panicked := InsertNonFull(root, key);
      assert level[root] == level0[root];
      assert ShapeAt(nodes, level, root);
    }

    /**
      Search: descends from the root, at each node to the child where the key scan stops,
      and answers true at the first node whose key there equals `key`, false at a leaf.
     */
    method Search(key: string) returns (found: bool)
      requires Valid()
      ensures var path := DescentPath(nodes, level, root, key);
              found <==> exists j :: 0 <= j < |path| && MatchAt(nodes[path[j]].keys, key)
      ensures var path := DescentPath(nodes, level, root, key);
              (forall j :: 0 <= j < |path| ==> Sorted(nodes[path[j]].keys)) ==>
                (found <==> exists j :: 0 <= j < |path| && key in nodes[path[j]].keys)
    {
      found := Descend(nodes, level, root, key);
      MatchBelowOnPath(nodes, level, root, key);
      MatchOnSortedPath(nodes, DescentPath(nodes, level, root, key), key);
    }

    /**
      Delete: deletes from the root; when that returns normally and leaves an internal
      root without keys, its first child becomes the root.
     */
    method Delete(key: string) returns (panicked: bool)
      requires Valid()
      modifies this
      ensures Valid() && level == old(level) && rank == old(rank)
      ensures Deleted(old(nodes), nodes, level, old(root), key, panicked)
      ensures old(nodes[root].isLeaf) ==>
                && !panicked && root == old(root)
                && nodes == old(nodes)[root := old(nodes[root]).(keys := RemoveKey(old(nodes[root].keys), key))]
      ensures !old(nodes[root].isLeaf) && KeyIndex(old(nodes[root].keys), key) < 0 ==>
                panicked && root == old(root) && nodes == old(nodes)
      ensures panicked ==> root == old(root)
      ensures !panicked ==>
                var r := old(root);
                root == if !nodes[r].isLeaf && nodes[r].keys == [] then nodes[r].children[0] else r
    {
      nodes, root, panicked := DeleteAtRoot(nodes, level, rank, root, key);
    }

    /**
      borrowFromPrev(node p, index), statement by statement on the three nodes it
      touches (the Go pointers `node`, `child` and `sibling`); what the source has
      written when it panics is stored.
     */
    method BorrowFromPrev(p: nat, index: nat) returns (panicked: bool)
      requires Valid() && p < |nodes| && !nodes[p].isLeaf
      requires 0 < index < |nodes[p].children| && DistinctChildren(nodes[p])
      modifies this
      ensures !panicked ==> Valid()
      ensures root == old(root) && level == old(level) && rank == old(rank) && |nodes| == old(|nodes|)
      ensures BorrowedFromPrev(old(nodes), nodes, p, index, panicked)
    {
      var c, s := nodes[p].children[index], nodes[p].children[index - 1];
      var node, child, sibling := nodes[p], nodes[c], nodes[s];
      assert p != c && p != s && c != s;
      if index - 1 >= |node.keys| {
        // node.keys[index-1] is out of range
        return true;
      }
      child := child.(keys := [node.keys[index - 1]] + child.keys);
      if sibling.keys == [] {
        // sibling.keys[len(sibling.keys)-1] is out of range
        nodes := nodes[c := child];
        assert nodes == old(nodes)[c := child][s := sibling][p := node];
        return true;
      }
      var sk := |sibling.keys| - 1;
      node := node.(keys := node.keys[index - 1 := sibling.keys[sk]]);
      if !child.isLeaf {
        var sc := |sibling.children| - 1;
        child := child.(children := [sibling.children[sc]] + child.children);
        sibling := sibling.(children := sibling.children[..sc]);
      }
      sibling := sibling.(keys := sibling.keys[..sk]);
      BorrowPrevValid(nodes, level, rank, p, index);
      nodes := nodes[c := child][s := sibling][p := node];
      panicked := false;
    }

    /**
      borrowFromNext(node p, index), statement by statement on the three nodes it
      touches; what the source has written when it panics is stored.
     */
    method BorrowFromNext(p: nat, index: nat) returns (panicked: bool)
      requires Valid() && p < |nodes| && !nodes[p].isLeaf
      requires index + 1 < |nodes[p].children| && DistinctChildren(nodes[p])
      modifies this
      ensures !panicked ==> Valid()
      ensures root == old(root) && level == old(level) && rank == old(rank) && |nodes| == old(|nodes|)
      ensures BorrowedFromNext(old(nodes), nodes, p, index, panicked)
    {
      var c, s := nodes[p].children[index], nodes[p].children[index + 1];
      var node, child, sibling := nodes[p], nodes[c], nodes[s];
      assert p != c && p != s && c != s;
      if index >= |node.keys| {
        // node.keys[index] is out of range
        return true;
      }
      child := child.(keys := child.keys + [node.keys[index]]);
      if sibling.keys == [] {
        // sibling.keys[0] is out of range
        nodes := nodes[c := child];
        assert nodes == old(nodes)[c := child][s := sibling][p := node];
        return true;
      }
      node := node.(keys := node.keys[index := sibling.keys[0]]);
      if !child.isLeaf {
        child := child.(children := child.children + [sibling.children[0]]);
        sibling := sibling.(children := sibling.children[1..]);
      }
      sibling := sibling.(keys := sibling.keys[1..]);
      BorrowNextValid(nodes, level, rank, p, index);
      nodes := nodes[c := child][s := sibling][p := node];
      panicked := false;
    }

    /** merge(node p, index): carried out statement by statement. */
    method Merge(p: nat, index: int) returns (panicked: bool)
      requires Valid() && p < |nodes| && !nodes[p].isLeaf && DistinctChildren(nodes[p])
      modifies this
      ensures Valid() && root == old(root) && level == old(level) && rank == old(rank)
      ensures Merged(old(nodes), nodes, p, index, panicked)
    {
      assert ShapeAt(nodes, level, p);
      var x := nodes[p];
      if index < 0 || index + 1 >= |x.children| || index >= |x.keys| {
        // node.children[index], node.children[index+1] or node.keys[index] is out of range
        return true;
      }
      ghost var nodes0 := nodes;
      var l, r := x.children[index], x.children[index + 1];
      assert ShapeAt(nodes, level, l) && ShapeAt(nodes, level, r);
      assert p != l && p != r && l != r;
      nodes := nodes[l := nodes[l].(keys := nodes[l].keys + [x.keys[index]])];
      nodes := nodes[l := nodes[l].(keys := nodes[l].keys + nodes[r].keys)];
      if !nodes[l].isLeaf {
        nodes := nodes[l := nodes[l].(children := nodes[l].children + nodes[r].children)];
      }
      nodes := nodes[p := nodes[p].(keys := nodes[p].keys[..index] + nodes[p].keys[index + 1..])];
      nodes := nodes[p := nodes[p].(children := nodes[p].children[..index + 1] + nodes[p].children[index + 2..])];
      panicked := false;
      assert nodes == nodes0[l := MergeNodes(x, index, nodes0[l], nodes0[r]).child][p := MergeNodes(x, index, nodes0[l], nodes0[r]).parent];
      MergedValid(nodes0, nodes, level, rank, p, index);
    }

    /**
      fix(node p, index): borrows from the left sibling when it holds more than
      `degree / 2` keys, else from the right one, else merges with a neighbour; the last
      child merges into its left neighbour, which for an only child is `merge(node, -1)`.
     */
    method Fix(p: nat, index: nat) returns (panicked: bool)
      requires Valid() && p < |nodes| && !nodes[p].isLeaf
      requires index < |nodes[p].children| && DistinctChildren(nodes[p])
      modifies this
      ensures !panicked ==> Valid()
      ensures root == old(root) && level == old(level) && rank == old(rank) && |nodes| == old(|nodes|)
      ensures var x := old(nodes[p]); var h := Half(degree);
              // the children are arena positions in every well-formed state; the range tests only make that explicit
              if index > 0 && x.children[index - 1] < old(|nodes|) && old(|nodes[x.children[index - 1]].keys|) > h then
                BorrowedFromPrev(old(nodes), nodes, p, index, panicked)
              else if index < |x.children| - 1 && x.children[index + 1] < old(|nodes|)
                      && old(|nodes[x.children[index + 1]].keys|) > h then
                BorrowedFromNext(old(nodes), nodes, p, index, panicked)
              else if index == |x.children| - 1 then
                Merged(old(nodes), nodes, p, index - 1, panicked)
              else
                Merged(old(nodes), nodes, p, index, panicked)
    {
      assert ShapeAt(nodes, level, p);
      var x := nodes[p];
      var h := Half(degree);
      if index > 0 && |nodes[x.children[index - 1]].keys| > h {
        panicked := BorrowFromPrev(p, index);
      } else if index < |x.children| - 1 && |nodes[x.children[index + 1]].keys| > h {
        panicked := BorrowFromNext(p, index);
      } else if index == |x.children| - 1 {
        panicked := Merge(p, index - 1);
      } else {
        panicked := Merge(p, index);
      }
    }
  }

  /**
    Cutting node `c` into its two halves and appending the upper half keeps the arena
    well formed, when every rank is spread apart and the new node is ranked between
    the cut node and its old successor.
   */
  lemma SplitChildValid(nodes: seq<BPlusNode>, level: seq<nat>, rank: seq<nat>, c: nat)
    requires Shaped(nodes, level) && Linked(nodes, rank) && c < |nodes| && nodes[c].keys != []
    ensures var h := SplitNode(nodes[c], |nodes|);
            && Shaped(nodes[c := h.lower] + [h.upper], level + [level[c]])
            && Linked(nodes[c := h.lower] + [h.upper], Reranked(rank) + [2 * rank[c] + 1])
  {
    var x, nn := nodes[c], |nodes|;
    var h := SplitNode(x, nn);
    assert ShapeAt(nodes, level, c) && LinkAt(nodes, rank, c);
    LinkedRerank(nodes, rank);
    assert ShapeAt(nodes + [h.upper], level + [level[c]], nn) by {
      forall j | 0 <= j < |h.upper.children|
        ensures h.upper.children[j] == x.children[|h.lower.children| + j]
      {
        assert h.upper.children[j] == (h.lower.children + h.upper.children)[|h.lower.children| + j];
      }
    }
    ShapedAppend(nodes, level, h.upper, level[c]);
    LinkedAppend(nodes, Reranked(rank), h.upper, 2 * rank[c] + 1);
    var appended, level', rank' := nodes + [h.upper], level + [level[c]], Reranked(rank) + [2 * rank[c] + 1];
    assert ShapeAt(appended[c := h.lower], level', c) by {
      forall j | 0 <= j < |h.lower.children|
        ensures h.lower.children[j] == x.children[j]
      {
        assert h.lower.children[j] == (h.lower.children + h.upper.children)[j];
      }
    }
    ShapedUpdate(appended, level', c, h.lower);
    LinkedUpdate(appended, rank', c, h.lower);
    assert appended[c := h.lower] == nodes[c := h.lower] + [h.upper];
  }

  /** Giving parent `p` the middle key and the new node `nn`, a sibling of its split child, keeps the arena well formed. */
  lemma SplitParentValid(nodes: seq<BPlusNode>, level: seq<nat>, rank: seq<nat>, p: nat, index: nat, middle: string, nn: nat)
    requires Shaped(nodes, level) && Linked(nodes, rank) && p < |nodes| && nn < |nodes|
    requires index < |nodes[p].keys| && index < |nodes[p].children|
    requires level[nn] + 1 == level[p]
    ensures Shaped(nodes[p := SplitParent(nodes[p], index, middle, nn)], level)
    ensures Linked(nodes[p := SplitParent(nodes[p], index, middle, nn)], rank)
  {
    var x := nodes[p];
    var parent := SplitParent(x, index, middle, nn);
    assert ShapeAt(nodes, level, p) && LinkAt(nodes, rank, p);
    assert ShapeAt(nodes[p := parent], level, p) by {
      forall j | 0 <= j < |parent.children|
        ensures parent.children[j] < |nodes| && level[parent.children[j]] + 1 == level[p]
      {
        if j <= index {
          assert parent.children[j] == x.children[j];
        } else if j > index + 1 {
          assert parent.children[j] == x.children[j - 1];
        }
      }
    }
    ShapedUpdate(nodes, level, p, parent);
    LinkedUpdate(nodes, rank, p, parent);
  }

  /**
    After a borrow that did not panic, the arena is still well formed: only the parent,
    the child and the sibling changed, their children lists still fit their keys and
    their levels, and no forward link changed.
   */
  lemma RebalancedValid(before: seq<BPlusNode>, after: seq<BPlusNode>, level: seq<nat>, rank: seq<nat>,
                        p: nat, c: nat, s: nat)
    requires Shaped(before, level) && Linked(before, rank)
    requires p < |before| && c < |before| && s < |before| && |after| == |before|
    requires level[c] + 1 == level[p] && level[s] == level[c]
    requires forall m :: 0 <= m < |before| && m != p && m != c && m != s ==> after[m] == before[m]
    requires forall m :: (m == p || m == c || m == s) ==> after[m].isLeaf == before[m].isLeaf && after[m].next == before[m].next
    requires forall m :: (m == p || m == c || m == s) && !after[m].isLeaf ==> |after[m].children| >= |after[m].keys| + 1
    requires forall m :: (m == p || m == c || m == s) && after[m].isLeaf ==> after[m].children == []
    requires forall j :: 0 <= j < |after[p].children| ==> after[p].children[j] in before[p].children
    requires forall j :: 0 <= j < |after[c].children| ==>
               after[c].children[j] in before[c].children || after[c].children[j] in before[s].children
    requires forall j :: 0 <= j < |after[s].children| ==>
               after[s].children[j] in before[c].children || after[s].children[j] in before[s].children
    ensures Shaped(after, level) && Linked(after, rank)
  {
    assert ShapeAt(before, level, p) && ShapeAt(before, level, c) && ShapeAt(before, level, s);
    forall m | 0 <= m < |after| ensures ShapeAt(after, level, m) && LinkAt(after, rank, m) {
      assert ShapeAt(before, level, m) && LinkAt(before, rank, m);
      if (m == p || m == c || m == s) {
        forall j | 0 <= j < |after[m].children|
          ensures after[m].children[j] < |after| && level[after[m].children[j]] + 1 == level[m]
        {
          var k := after[m].children[j];
          if k in before[p].children {
            var i :| 0 <= i < |before[p].children| && before[p].children[i] == k;
          }
          if k in before[c].children {
            var i :| 0 <= i < |before[c].children| && before[c].children[i] == k;
          }
          if k in before[s].children {
            var i :| 0 <= i < |before[s].children| && before[s].children[i] == k;
          }
        }
      }
    }
  }

  lemma BorrowPrevValid(nodes: seq<BPlusNode>, level: seq<nat>, rank: seq<nat>, p: nat, index: nat)
    requires Shaped(nodes, level) && Linked(nodes, rank) && p < |nodes| && !nodes[p].isLeaf
    requires 0 < index < |nodes[p].children| && DistinctChildren(nodes[p])
    ensures var x := nodes[p];
            var c, s := x.children[index], x.children[index - 1];
            var r := BorrowPrev(x, index, nodes[c], nodes[s]);
            !r.panicked ==>
              && Shaped(nodes[c := r.child][s := r.sibling][p := r.parent], level)
              && Linked(nodes[c := r.child][s := r.sibling][p := r.parent], rank)
  {
    var x := nodes[p];
    var c, s := x.children[index], x.children[index - 1];
    var r := BorrowPrev(x, index, nodes[c], nodes[s]);
    if !r.panicked {
      assert p != c && p != s && c != s;
      var after := nodes[c := r.child][s := r.sibling][p := r.parent];
      assert after[p] == r.parent && after[c] == r.child && after[s] == r.sibling;
      forall j | 0 <= j < |r.child.children|
        ensures r.child.children[j] in nodes[c].children || r.child.children[j] in nodes[s].children
      {
        assert r.child.children[j] in r.sibling.children + r.child.children;
      }
      forall j | 0 <= j < |r.sibling.children|
        ensures r.sibling.children[j] in nodes[c].children || r.sibling.children[j] in nodes[s].children
      {
        assert r.sibling.children[j] in r.sibling.children + r.child.children;
      }
      RebalancedValid(nodes, after, level, rank, p, c, s);
    }
  }

  lemma BorrowNextValid(nodes: seq<BPlusNode>, level: seq<nat>, rank: seq<nat>, p: nat, index: nat)
    requires Shaped(nodes, level) && Linked(nodes, rank) && p < |nodes| && !nodes[p].isLeaf
    requires index + 1 < |nodes[p].children| && DistinctChildren(nodes[p])
    ensures var x := nodes[p];
            var c, s := x.children[index], x.children[index + 1];
            var r := BorrowNext(x, index, nodes[c], nodes[s]);
            !r.panicked ==>
              && Shaped(nodes[c := r.child][s := r.sibling][p := r.parent], level)
              && Linked(nodes[c := r.child][s := r.sibling][p := r.parent], rank)
  {
    var x := nodes[p];
    var c, s := x.children[index], x.children[index + 1];
    var r := BorrowNext(x, index, nodes[c], nodes[s]);
    if !r.panicked {
      assert p != c && p != s && c != s;
      var after := nodes[c := r.child][s := r.sibling][p := r.parent];
      assert after[p] == r.parent && after[c] == r.child && after[s] == r.sibling;
      forall j | 0 <= j < |r.child.children|
        ensures r.child.children[j] in nodes[c].children || r.child.children[j] in nodes[s].children
      {
        assert r.child.children[j] in r.child.children + r.sibling.children;
      }
      forall j | 0 <= j < |r.sibling.children|
        ensures r.sibling.children[j] in nodes[c].children || r.sibling.children[j] in nodes[s].children
      {
        assert r.sibling.children[j] in r.child.children + r.sibling.children;
      }
      RebalancedValid(nodes, after, level, rank, p, c, s);
    }
  }

  lemma MergedValid(before: seq<BPlusNode>, after: seq<BPlusNode>, level: seq<nat>, rank: seq<nat>,
                    p: nat, index: nat)
    requires Shaped(before, level) && Linked(before, rank) && p < |before|
    requires index < |before[p].keys| && index + 1 < |before[p].children|
    requires var x := before[p]; var l := x.children[index];
             var r := MergeNodes(x, index, before[l], before[x.children[index + 1]]);
             after == before[l := r.child][p := r.parent]
    ensures Shaped(after, level) && Linked(after, rank)
  {
    var x := before[p];
    var l, rt := x.children[index], x.children[index + 1];
    assert ShapeAt(before, level, p) && ShapeAt(before, level, l) && ShapeAt(before, level, rt);
    var r := MergeNodes(x, index, before[l], before[rt]);
    assert p != l;
    assert ShapeAt(before[l := r.child], level, l) by {
      var lc, rc := before[l].children, before[rt].children;
      forall j | 0 <= j < |r.child.children|
        ensures r.child.children[j] < |before| && level[r.child.children[j]] + 1 == level[l]
      {
        if j >= |lc| {
          assert r.child.children[j] == rc[j - |lc|];
        }
      }
    }
    ShapedUpdate(before, level, l, r.child);
    assert LinkAt(before, rank, l);
    LinkedUpdate(before, rank, l, r.child);
    var mid := before[l := r.child];
    assert mid[p] == x;
    assert ShapeAt(mid[p := r.parent], level, p) by {
      forall j | 0 <= j < |r.parent.children|
        ensures r.parent.children[j] < |before| && level[r.parent.children[j]] + 1 == level[p]
      {
        if j <= index {
          assert r.parent.children[j] == r.parent.children[..index + 1][j] == x.children[j];
        } else {
          assert r.parent.children[j] == r.parent.children[index + 1..][j - index - 1] == x.children[j + 1];
        }
      }
    }
    ShapedUpdate(mid, level, p, r.parent);
    assert LinkAt(mid, rank, p);
    LinkedUpdate(mid, rank, p, r.parent);
  }
}
